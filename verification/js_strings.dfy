/** The JavaScript string built-ins the model relies on: `indexOf`,
    `replace` with a string pattern, `startsWith`, ASCII `toUpperCase`,
    the default `Array.prototype.sort` order on strings, and `parseInt`
    without a radix (section 19.2.5 of ECMA-262). */
module JsStrings {

  import opened Wrappers

  /** `sub` occurs in `s` starting at index `i`. */
  predicate OccursAt(s: string, sub: string, i: nat) {
    i + |sub| <= |s| && s[i..i + |sub|] == sub
  }

  lemma OccursShift(s: string, sub: string, i: nat)
    requires |s| > 0
    ensures OccursAt(s[1..], sub, i) <==> OccursAt(s, sub, i + 1)
  {
    if i + 1 + |sub| <= |s| {
      assert s[1..][i..i + |sub|] == s[i + 1..i + 1 + |sub|];
    }
  }

  /** `s.indexOf(sub)`: the first index at which `sub` occurs, or -1. */
  function IndexOf(s: string, sub: string): (r: int)
    ensures -1 <= r <= |s|
    ensures r == -1 <==> forall i: nat :: !OccursAt(s, sub, i)
    ensures r >= 0 ==> OccursAt(s, sub, r) && forall i: nat :: i < r ==> !OccursAt(s, sub, i)
    decreases |s|
  {
    if sub <= s then
      assert OccursAt(s, sub, 0);
      0
    else if |s| == 0 then -1
    else
      var r := IndexOf(s[1..], sub);
      forall i: nat
        ensures OccursAt(s[1..], sub, i) <==> OccursAt(s, sub, i + 1)
      {
        OccursShift(s, sub, i);
      }
      assert !OccursAt(s, sub, 0);
      assert forall i: nat :: OccursAt(s, sub, i) ==> i > 0 && OccursAt(s[1..], sub, i - 1);
      if r == -1 then -1 else r + 1
  }

  /** `s.replace(pattern, replacement)` with a string pattern: only the
      first occurrence is replaced. */
  function ReplaceFirst(s: string, pattern: string, replacement: string): (r: string)
    ensures IndexOf(s, pattern) == -1 ==> r == s
    ensures IndexOf(s, pattern) >= 0 ==>
              var i := IndexOf(s, pattern);
              r == s[..i] + replacement + s[i + |pattern|..]
  {
    var i := IndexOf(s, pattern);
    if i == -1 then s else s[..i] + replacement + s[i + |pattern|..]
  }

  /** `s.startsWith(prefix)`. */
  predicate StartsWith(s: string, prefix: string) {
    prefix <= s
  }

  /** `toUpperCase`, restricted to the ASCII letters. */
  function ToUpperCase(s: string): (r: string)
    ensures |r| == |s|
    ensures forall i :: 0 <= i < |s| ==> r[i] == UpperChar(s[i])
  {
    if |s| == 0 then [] else [UpperChar(s[0])] + ToUpperCase(s[1..])
  }

  function UpperChar(c: char): char {
    if 'a' <= c <= 'z' then (c as int - 'a' as int + 'A' as int) as char else c
  }

  /** The UTF-16 code units of one character: itself below U+10000,
      otherwise its high and low surrogate. */
  function CodeUnits(c: char): (r: seq<int>)
    ensures 1 <= |r| <= 2
    ensures forall i :: 0 <= i < |r| ==> 0 <= r[i] < 0x10000
  {
    if c as int < 0x10000 then [c as int]
    else
      var v := c as int - 0x10000;
      [0xD800 + v / 0x400, 0xDC00 + v % 0x400]
  }

  /** The UTF-16 encoding of a string: what JavaScript stores and compares. */
  function Utf16(s: string): (r: seq<int>)
    ensures |r| == 0 <==> |s| == 0
  {
    if |s| == 0 then [] else CodeUnits(s[0]) + Utf16(s[1..])
  }

  /** Lexicographic order on code-unit sequences, a proper prefix first. */
  predicate UnitsLess(x: seq<int>, y: seq<int>)
    decreases |x|
  {
    if |x| == 0 then |y| > 0
    else if |y| == 0 then false
    else if x[0] != y[0] then x[0] < y[0]
    else UnitsLess(x[1..], y[1..])
  }

  /** A character's place in code-unit order. The characters from U+10000
      up start with a high surrogate, so they rank after U+D7FF and before
      U+E000. */
  function UnitRank(c: char): (r: int)
    ensures c as int < 0xD800 ==> r == c as int
    ensures 0xD800 <= r < 0xE000 + 0x100000 ==> c as int >= 0x10000
  {
    if c as int < 0xD800 then c as int
    else if c as int >= 0x10000 then c as int - 0x10000 + 0xD800
    else c as int + 0x100000
  }

  lemma UnitRankInjective(c: char, d: char)
    requires c != d
    ensures UnitRank(c) != UnitRank(d)
  {
  }

  /** The default sort order of `Array.prototype.sort` on strings:
      lexicographic by UTF-16 code unit, a proper prefix first. */
  predicate StrLess(a: string, b: string)
    decreases |a|
  {
    if |a| == 0 then |b| > 0
    else if |b| == 0 then false
    else if a[0] != b[0] then UnitRank(a[0]) < UnitRank(b[0])
    else StrLess(a[1..], b[1..])
  }

  lemma StrLessIrreflexive(a: string)
    ensures !StrLess(a, a)
  {
  }

  lemma StrLessTransitive(a: string, b: string, c: string)
    requires StrLess(a, b) && StrLess(b, c)
    ensures StrLess(a, c)
    decreases |a|
  {
    if |a| > 0 && |b| > 0 && |c| > 0 && a[0] == b[0] && b[0] == c[0] {
      StrLessTransitive(a[1..], b[1..], c[1..]);
    }
  }

  lemma StrLessTotal(a: string, b: string)
    requires a != b
    ensures StrLess(a, b) || StrLess(b, a)
    decreases |a|
  {
    if |a| > 0 && |b| > 0 && a[0] == b[0] {
      assert a == [a[0]] + a[1..] && b == [b[0]] + b[1..];
      StrLessTotal(a[1..], b[1..]);
    } else if |a| > 0 && |b| > 0 {
      UnitRankInjective(a[0], b[0]);
    }
  }

  lemma StrLessAsymmetric(a: string, b: string)
    requires StrLess(a, b)
    ensures !StrLess(b, a)
    decreases |a|
  {
    if |a| > 0 && |b| > 0 && a[0] == b[0] {
      StrLessAsymmetric(a[1..], b[1..]);
    }
  }

  /** A common prefix does not decide the order. */
  lemma {:induction false} UnitsLessCommonPrefix(p: seq<int>, x: seq<int>, y: seq<int>)
    ensures UnitsLess(p + x, p + y) == UnitsLess(x, y)
    decreases |p|
  {
    if |p| > 0 {
      assert (p + x)[1..] == p[1..] + x;
      assert (p + y)[1..] == p[1..] + y;
      UnitsLessCommonPrefix(p[1..], x, y);
    } else {
      assert p + x == x && p + y == y;
    }
  }

  /** Two different characters decide the order of whatever follows their
      code units, and they decide it by rank. */
  lemma UnitsLessFirstChar(c: char, d: char, x: seq<int>, y: seq<int>)
    requires c != d
    ensures UnitsLess(CodeUnits(c) + x, CodeUnits(d) + y) == (UnitRank(c) < UnitRank(d))
  {
    var u, w := CodeUnits(c) + x, CodeUnits(d) + y;
    assert u[0] == CodeUnits(c)[0] && w[0] == CodeUnits(d)[0];
    if c as int >= 0x10000 && d as int >= 0x10000 {
      var v, t := c as int - 0x10000, d as int - 0x10000;
      assert v == 0x400 * (v / 0x400) + v % 0x400;
      assert t == 0x400 * (t / 0x400) + t % 0x400;
      if v / 0x400 == t / 0x400 {
        assert u[1..][0] == CodeUnits(c)[1] && w[1..][0] == CodeUnits(d)[1];
      }
    }
  }

  /** `StrLess` is exactly the order of the strings' UTF-16 encodings. */
  lemma {:induction false} StrLessIsUtf16Order(a: string, b: string)
    ensures StrLess(a, b) <==> UnitsLess(Utf16(a), Utf16(b))
    decreases |a|
  {
    if |a| > 0 && |b| > 0 {
      if a[0] == b[0] {
        UnitsLessCommonPrefix(CodeUnits(a[0]), Utf16(a[1..]), Utf16(b[1..]));
        StrLessIsUtf16Order(a[1..], b[1..]);
      } else {
        UnitsLessFirstChar(a[0], b[0], Utf16(a[1..]), Utf16(b[1..]));
      }
    }
  }

  // ---------------------------------------------------------------- parseInt

  /** The characters `parseInt` skips before the number: WhiteSpace and
      LineTerminator of ECMA-262. */
  predicate IsWhiteSpace(c: char) {
    c == '\t' || c == '\n' || c == '\U{B}' || c == '\U{C}' || c == '\r' || c == ' '
    || c == '\U{A0}' || c == '\U{1680}' || ('\U{2000}' <= c <= '\U{200A}')
    || c == '\U{2028}' || c == '\U{2029}' || c == '\U{202F}' || c == '\U{205F}'
    || c == '\U{3000}' || c == '\U{FEFF}'
  }

  function TrimStart(s: string): string
  {
    if |s| > 0 && IsWhiteSpace(s[0]) then TrimStart(s[1..]) else s
  }

  /** The value of `c` as a digit in base `radix` (10 or 16), if it is one. */
  function DigitValue(c: char, radix: nat): Option<nat> {
    if '0' <= c <= '9' then Some(c as int - '0' as int)
    else if radix == 16 && 'a' <= c <= 'f' then Some(c as int - 'a' as int + 10)
    else if radix == 16 && 'A' <= c <= 'F' then Some(c as int - 'A' as int + 10)
    else None
  }

  /** The longest prefix of `s` made of base-`radix` digits. */
  function DigitPrefix(s: string, radix: nat): (r: string)
    ensures r <= s
    ensures forall i :: 0 <= i < |r| ==> DigitValue(r[i], radix).Some?
    ensures |r| < |s| ==> DigitValue(s[|r|], radix).None?
  {
    if |s| > 0 && DigitValue(s[0], radix).Some? then [s[0]] + DigitPrefix(s[1..], radix) else []
  }

  /** The number a string of base-`radix` digits denotes. */
  function DigitsValue(ds: string, radix: nat): nat
    decreases |ds|
  {
    if |ds| == 0 then 0
    else DigitsValue(ds[..|ds| - 1], radix) * radix + DigitValue(ds[|ds| - 1], radix).GetOr(0)
  }

  predicate HexPrefixed(s: string) {
    |s| >= 2 && s[0] == '0' && (s[1] == 'x' || s[1] == 'X')
  }

  /** `parseInt(s)` with no radix: `None` is NaN. Leading white space and
      one sign are skipped, "0x"/"0X" selects base 16, and the longest digit
      prefix is read; anything after it is ignored. */
  function ParseInt(s: string): Option<int>
  {
    var t := TrimStart(s);
    var negative := |t| > 0 && t[0] == '-';
    var u := if |t| > 0 && (t[0] == '-' || t[0] == '+') then t[1..] else t;
    var radix := if HexPrefixed(u) then 16 else 10;
    var digits := DigitPrefix(if radix == 16 then u[2..] else u, radix);
    var value: int := DigitsValue(digits, radix);
    if |digits| == 0 then None
    else if negative then Some(-value)
    else Some(value)
  }

  // ------------------------------------------------------- number to string

  /** The decimal digits of a natural number, as `String(n)` writes it. */
  function NatToDecimal(n: nat): (r: string)
    ensures |r| > 0
    ensures forall i :: 0 <= i < |r| ==> '0' <= r[i] <= '9'
    ensures |r| > 1 ==> r[0] != '0'
  {
    if n < 10 then [('0' as int + n) as char]
    else NatToDecimal(n / 10) + [('0' as int + n % 10) as char]
  }

  /** `String(n)` for an integer. */
  function ToDecimal(n: int): string {
    if n < 0 then "-" + NatToDecimal(-n) else NatToDecimal(n)
  }

  lemma {:induction false} NatToDecimalValue(n: nat)
    ensures DigitsValue(NatToDecimal(n), 10) == n
  {
    var r := NatToDecimal(n);
    if n >= 10 {
      NatToDecimalValue(n / 10);
      assert r[..|r| - 1] == NatToDecimal(n / 10);
    }
  }

  /** A run of digits followed by a non-digit is the whole digit prefix. */
  lemma {:induction false} DigitPrefixOfDigits(ds: string, suffix: string, radix: nat)
    requires forall i :: 0 <= i < |ds| ==> DigitValue(ds[i], radix).Some?
    requires |suffix| == 0 || DigitValue(suffix[0], radix).None?
    ensures DigitPrefix(ds + suffix, radix) == ds
    decreases |ds|
  {
    if |ds| == 0 {
      assert ds + suffix == suffix;
    } else {
      var s := ds + suffix;
      assert s[0] == ds[0];
      assert s[1..] == ds[1..] + suffix;
      DigitPrefixOfDigits(ds[1..], suffix, radix);
      assert DigitPrefix(s, radix) == [ds[0]] + ds[1..];
      assert [ds[0]] + ds[1..] == ds;
    }
  }

  /** `parseInt` of digits not preceded by white space, a sign or a
      hexadecimal prefix reads exactly those digits. */
  lemma {:induction false} ParseIntOfDigits(u: string, ds: string, negative: bool)
    requires |u| > 0 && '0' <= u[0] <= '9' && !HexPrefixed(u)
    requires DigitPrefix(u, 10) == ds && |ds| > 0
    ensures ParseInt(if negative then "-" + u else u) == Some(if negative then 0 - DigitsValue(ds, 10) else DigitsValue(ds, 10))
  {
    var s := if negative then "-" + u else u;
    assert !IsWhiteSpace(s[0]);
    assert TrimStart(s) == s;
    if negative {
      assert s[0] == '-' && s[1..] == u;
    } else {
      assert s[0] != '-' && s[0] != '+';
    }
  }

  /** Decimal digits without a leading zero, then a suffix that does not
      continue them, parse back to the digits' value. */
  lemma {:induction false} ParseIntOfDigitString(ds: string, suffix: string, negative: bool)
    requires |ds| > 0 && forall i :: 0 <= i < |ds| ==> '0' <= ds[i] <= '9'
    requires |ds| > 1 ==> ds[0] != '0'
    requires |suffix| == 0 || (DigitValue(suffix[0], 10).None? && suffix[0] != 'x' && suffix[0] != 'X')
    ensures ParseInt(if negative then "-" + (ds + suffix) else ds + suffix)
              == Some(if negative then 0 - DigitsValue(ds, 10) else DigitsValue(ds, 10))
  {
    var u := ds + suffix;
    assert u[0] == ds[0];
    assert !HexPrefixed(u) by {
      if |ds| == 1 && |u| >= 2 {
        assert u[1] == suffix[0];
      }
    }
    assert forall i :: 0 <= i < |ds| ==> DigitValue(ds[i], 10).Some?;
    DigitPrefixOfDigits(ds, suffix, 10);
    ParseIntOfDigits(u, ds, negative);
  }

  lemma ConcatAssociates(a: string, b: string, c: string)
    ensures (a + b) + c == a + (b + c)
  {
  }

  /** `parseInt(String(n) + suffix)` recovers `n` whenever the suffix does not
      continue the number: it starts with no digit, and no 'x' or 'X' that
      would turn a leading "0" into a hexadecimal prefix. */
  lemma {:induction false} ParseIntOfDecimal(n: int, suffix: string)
    requires |suffix| == 0 || (DigitValue(suffix[0], 10).None? && suffix[0] != 'x' && suffix[0] != 'X')
    ensures ParseInt(ToDecimal(n) + suffix) == Some(n)
  {
    var m: nat := if n < 0 then -n else n;
    var ds := NatToDecimal(m);
    var written := if n < 0 then "-" + (ds + suffix) else ds + suffix;
    assert ToDecimal(n) + suffix == written by {
      if n < 0 {
        ConcatAssociates("-", ds, suffix);
      }
    }
    assert ParseInt(written) == Some(n) by {
      NatToDecimalValue(m);
      ParseIntOfDigitString(ds, suffix, n < 0);
    }
  }
}
