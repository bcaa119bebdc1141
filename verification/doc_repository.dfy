/** `DocRepository`: the in-memory index of the repository's documents, its
    tags database, and the writes it makes through the persistence layer.
    The persistence layer is a map from fingerprint to the document read
    back (`None` when the layer has the key but reads back nothing);
    `Tags.toMap` is taken to key the tags by id. */
module DocRepositories {

  import opened Wrappers
  import opened Dicts
  import opened MetadataTypes
  import Dictionaries

  /** `RepoDocInfo`: the fields of the index entry the repository updates. */
  datatype RepoDocInfo = RepoDocInfo(fingerprint: string, title: Option<string>,
                                     tags: Option<Dict<string, Tag>>, docInfo: DocInfo)

  /** The index keyed by fingerprint and the set of registered tags. */
  datatype Repo = Repo(repoDocs: Dict<string, RepoDocInfo>, tagsDB: set<Tag>)

  type Store = map<string, Option<DocMeta>>

  /** The tags of a document's info, none when it has no tag map. */
  function DocTags(r: RepoDocInfo): seq<Tag> {
    if r.docInfo.tags.Some? then Values(r.docInfo.tags.value) else []
  }

  /** `updateTagsDB(...repoDocInfos)`: registers the tags of each document's
      info (not of the index entry's own `tags`). */
  function UpdateTagsDB(db: set<Tag>, infos: seq<RepoDocInfo>): (r: set<Tag>)
    ensures forall t :: t in r <==> t in db || exists i :: 0 <= i < |infos| && t in DocTags(infos[i])
    decreases |infos|
  {
    if |infos| == 0 then db
    else
      var r := UpdateTagsDB(db + (set t | t in DocTags(infos[0])), infos[1..]);
      assert forall i :: 1 <= i < |infos| ==> infos[1..][i - 1] == infos[i];
      r
  }

  /** The index entries the update writes, keyed by fingerprint. */
  function Entries(infos: seq<RepoDocInfo>): (r: Dict<string, RepoDocInfo>)
    ensures |r| == |infos|
    ensures forall i :: 0 <= i < |infos| ==> r[i] == (infos[i].fingerprint, infos[i])
  {
    seq(|infos|, i requires 0 <= i < |infos| => (infos[i].fingerprint, infos[i]))
  }

  /** The value assigned last to `k` is the one at the last position
      carrying `k`. */
  lemma {:induction false} LastAt<V>(d: Dict<string, V>, i: int)
    requires 0 <= i < |d|
    requires forall j :: i < j < |d| ==> d[j].0 != d[i].0
    ensures Last(d, d[i].0) == Some(d[i].1)
    decreases |d|
  {
    if i < |d| - 1 {
      var init := d[..|d| - 1];
      assert init[i] == d[i];
      forall j | i < j < |init| ensures init[j].0 != init[i].0 {
        assert init[j] == d[j];
      }
      LastAt(init, i);
    }
  }

  lemma {:induction false} LastAbsent<V>(d: Dict<string, V>, k: string)
    requires forall j :: 0 <= j < |d| ==> d[j].0 != k
    ensures Last(d, k).None?
    decreases |d|
  {
    if |d| > 0 {
      var init := d[..|d| - 1];
      forall j | 0 <= j < |init| ensures init[j].0 != k {
        assert init[j] == d[j];
      }
      LastAbsent(init, k);
    }
  }

  /** `updateDocInfo(...repoDocInfos)`: each entry indexed under its
      fingerprint, a later one for the same fingerprint winning, and the
      tags of each registered. */
  function UpdateDocInfo(repo: Repo, infos: seq<RepoDocInfo>): (r: Repo)
    ensures forall k :: Get(r.repoDocs, k) == if Last(Entries(infos), k).Some? then Last(Entries(infos), k) else Get(repo.repoDocs, k)
    ensures UniqueKeys(repo.repoDocs) ==> UniqueKeys(r.repoDocs)
    ensures r.tagsDB == UpdateTagsDB(repo.tagsDB, infos)
  {
    Repo(PutAll(repo.repoDocs, Entries(infos)), UpdateTagsDB(repo.tagsDB, infos))
  }

  /** After the update, the index holds for each fingerprint the last entry
      given for it, and every fingerprint not given is unchanged. */
  lemma UpdateDocInfoLastWins(repo: Repo, infos: seq<RepoDocInfo>, i: int, k: string)
    requires 0 <= i < |infos|
    requires forall j :: i < j < |infos| ==> infos[j].fingerprint != infos[i].fingerprint
    ensures Get(UpdateDocInfo(repo, infos).repoDocs, infos[i].fingerprint) == Some(infos[i])
    ensures (forall j :: 0 <= j < |infos| ==> infos[j].fingerprint != k) ==>
              Get(UpdateDocInfo(repo, infos).repoDocs, k) == Get(repo.repoDocs, k)
  {
    LastAt(Entries(infos), i);
    if forall j :: 0 <= j < |infos| ==> infos[j].fingerprint != k {
      LastAbsent(Entries(infos), k);
    }
  }

  /** `syncDocInfo(docInfo)`: when the layer has the document, its info is
      replaced and the document written back; when it has the key but reads
      back nothing, or lacks the key, nothing is written. */
  function SyncDocInfo(store: Store, docInfo: DocInfo): (r: Store)
    ensures forall f :: f != docInfo.fingerprint ==> (f in r <==> f in store) && (f in r ==> r[f] == store[f])
    ensures docInfo.fingerprint in store && store[docInfo.fingerprint].Some? ==>
              r == store[docInfo.fingerprint := Some(store[docInfo.fingerprint].value.(docInfo := docInfo))]
    ensures !(docInfo.fingerprint in store && store[docInfo.fingerprint].Some?) ==> r == store
  {
    var fp := docInfo.fingerprint;
    if fp !in store then store
    else
      match store[fp]
      case None => store
      case Some(docMeta) => store[fp := Some(docMeta.(docInfo := docInfo))]
  }

  /** Syncing the same info twice writes nothing more. */
  lemma SyncDocInfoIdempotent(store: Store, docInfo: DocInfo)
    ensures SyncDocInfo(SyncDocInfo(store, docInfo), docInfo) == SyncDocInfo(store, docInfo)
  {
  }

  /** The entry `syncDocInfoTitle` indexes: a copy with the title set both
      on it and on its info. */
  function Retitled(r: RepoDocInfo, title: string): (u: RepoDocInfo)
    ensures u.fingerprint == r.fingerprint && u.tags == r.tags
    ensures u.title == Some(title) && u.docInfo.title == Some(title)
    ensures u.docInfo.(title := r.docInfo.title) == r.docInfo
  {
    r.(title := Some(title), docInfo := r.docInfo.(title := Some(title)))
  }

  /** `syncDocInfoTitle(repoDocInfo, title)`: a missing title fails the
      precondition; otherwise the retitled entry is indexed and its info
      synced. */
  function SyncDocInfoTitle(repo: Repo, store: Store, r: RepoDocInfo, title: Option<string>): (res: Result<(Repo, Store)>)
    ensures res.Err? <==> title.None?
    ensures res.Ok? ==> res.value.0 == UpdateDocInfo(repo, [Retitled(r, title.value)])
    ensures res.Ok? ==> res.value.1 == SyncDocInfo(store, Retitled(r, title.value).docInfo)
  {
    if title.None? then Err("Precondition failed: title is not present")
    else
      var updated := Retitled(r, title.value);
      Ok((UpdateDocInfo(repo, [updated]), SyncDocInfo(store, updated.docInfo)))
  }

  /** After a retitle the index entry, its info and the stored document all
      carry the new title, and no other entry changes. */
  lemma RetitleReachesEverywhere(repo: Repo, store: Store, r: RepoDocInfo, title: string, k: string)
    requires r.fingerprint == r.docInfo.fingerprint
    ensures var (repo', store') := SyncDocInfoTitle(repo, store, r, Some(title)).value;
            Get(repo'.repoDocs, r.fingerprint).Some? &&
            Get(repo'.repoDocs, r.fingerprint).value.title == Some(title) &&
            Get(repo'.repoDocs, r.fingerprint).value.docInfo.title == Some(title) &&
            (k != r.fingerprint ==> Get(repo'.repoDocs, k) == Get(repo.repoDocs, k)) &&
            (r.fingerprint in store && store[r.fingerprint].Some? ==> store'[r.fingerprint].value.docInfo.title == Some(title))
  {
    UpdateDocInfoLastWins(repo, [Retitled(r, title)], 0, k);
  }

  /** `Tags.toMap(tags)`. */
  function TagMap(tags: seq<Tag>): Dict<string, Tag> {
    Dictionaries.ToDict(tags, TagId)
  }

  function TagId(t: Tag): string {
    t.id
  }

  /** The entry `syncDocInfoTags` indexes: a copy with the tag map set both
      on it and on its info. */
  function Retagged(r: RepoDocInfo, tags: seq<Tag>): (u: RepoDocInfo)
    ensures u.fingerprint == r.fingerprint && u.title == r.title
    ensures u.tags == Some(TagMap(tags)) && u.docInfo.tags == Some(TagMap(tags))
    ensures u.docInfo.(tags := r.docInfo.tags) == r.docInfo
  {
    r.(tags := Some(TagMap(tags)), docInfo := r.docInfo.(tags := Some(TagMap(tags))))
  }

  /** `syncDocInfoTags(repoDocInfo, tags)`: missing tags fail the
      precondition; otherwise the retagged entry is indexed, its tags
      registered and its info synced. */
  function SyncDocInfoTags(repo: Repo, store: Store, r: RepoDocInfo, tags: Option<seq<Tag>>): (res: Result<(Repo, Store)>)
    ensures res.Err? <==> tags.None?
    ensures res.Ok? ==> res.value.0 == UpdateDocInfo(repo, [Retagged(r, tags.value)])
    ensures res.Ok? ==> res.value.1 == SyncDocInfo(store, Retagged(r, tags.value).docInfo)
  {
    if tags.None? then Err("Precondition failed: tags is not present")
    else
      var updated := Retagged(r, tags.value);
      Ok((UpdateDocInfo(repo, [updated]), SyncDocInfo(store, updated.docInfo)))
  }

  /** After a retag the entry carries exactly the given tag ids, each under
      the last tag given with that id, and that tag is registered. */
  lemma RetagRegistersTags(repo: Repo, store: Store, r: RepoDocInfo, tags: seq<Tag>, i: int, id: string)
    requires 0 <= i < |tags|
    requires forall j :: i < j < |tags| ==> tags[j].id != tags[i].id
    ensures var (repo', _) := SyncDocInfoTags(repo, store, r, Some(tags)).value;
            Get(repo'.repoDocs, r.fingerprint) == Some(Retagged(r, tags)) &&
            Get(TagMap(tags), tags[i].id) == Some(tags[i]) &&
            tags[i] in repo'.tagsDB &&
            (HasKey(TagMap(tags), id) <==> exists j :: 0 <= j < |tags| && tags[j].id == id)
  {
    UpdateDocInfoLastWins(repo, [Retagged(r, tags)], 0, r.fingerprint);
    Dictionaries.ToDictLastWins(tags, TagId, i);
    Dictionaries.ToDictKeys(tags, TagId, id);
    GetIsMember(TagMap(tags), tags[i].id, tags[i]);
    var m := TagMap(tags);
    var k :| 0 <= k < |m| && m[k] == (tags[i].id, tags[i]);
    assert Values(m)[k] == tags[i];
    assert tags[i] in DocTags([Retagged(r, tags)][0]);
  }

  /** `syncDeleteDocInfo(repoDocInfo)`: the entry leaves the index and the
      document leaves the persistence layer. */
  function SyncDeleteDocInfo(repo: Repo, store: Store, r: RepoDocInfo): (res: (Repo, Store))
    ensures !HasKey(res.0.repoDocs, r.fingerprint)
    ensures forall k :: k != r.fingerprint ==> Get(res.0.repoDocs, k) == Get(repo.repoDocs, k)
    ensures res.0.tagsDB == repo.tagsDB
    ensures res.1.Keys == store.Keys - {r.docInfo.fingerprint}
    ensures forall f :: f in res.1 ==> res.1[f] == store[f]
  {
    (Repo(Remove(repo.repoDocs, r.fingerprint), repo.tagsDB), store - {r.docInfo.fingerprint})
  }

  /** Indexing a new entry and deleting it again restores the index, though
      its tags stay registered. */
  lemma AddThenDeleteRestoresIndex(repo: Repo, store: Store, r: RepoDocInfo)
    requires !HasKey(repo.repoDocs, r.fingerprint)
    ensures SyncDeleteDocInfo(UpdateDocInfo(repo, [r]), store, r).0.repoDocs == repo.repoDocs
  {
    assert Entries([r]) == [(r.fingerprint, r)];
    assert [(r.fingerprint, r)][..0] == [];
    assert PutAll(repo.repoDocs, Entries([r])) == Put(repo.repoDocs, r.fingerprint, r);
    RemoveAfterPut(repo.repoDocs, r.fingerprint, r);
  }
}
