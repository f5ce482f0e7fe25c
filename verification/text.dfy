/** The string operations of JavaScript that the system relies on: `trim`,
    blank tests, ASCII lower-casing, joining, decimal rendering of integers, and
    the binary (code-point) ordering SQLite uses for `ORDER BY` on text. */
module Text {

  /** The characters ECMAScript treats as white space or line terminators.
      `String.prototype.trim` strips exactly these, and the regular-expression
      class `\s` matches exactly these. */
  predicate IsSpace(c: char) {
    var n := c as int;
    || n == 0x09 || n == 0x0A || n == 0x0B || n == 0x0C || n == 0x0D
    || n == 0x20 || n == 0xA0 || n == 0x1680
    || (0x2000 <= n <= 0x200A)
    || n == 0x2028 || n == 0x2029 || n == 0x202F || n == 0x205F
    || n == 0x3000 || n == 0xFEFF
  }

  /** Every character of `s` is white space (vacuously true of ""). */
  predicate AllSpace(s: string) {
    forall i :: 0 <= i < |s| ==> IsSpace(s[i])
  }

  /** `s` neither starts nor ends with white space. */
  predicate IsTrimmed(s: string) {
    s == [] || (!IsSpace(s[0]) && !IsSpace(s[|s| - 1]))
  }

  /** The first position at or after `k` that does not hold white space
      (`|s|` when there is none). */
  function SkipSpace(s: string, k: nat): (e: nat)
    requires k <= |s|
    ensures k <= e <= |s|
    ensures forall i :: k <= i < e ==> IsSpace(s[i])
    ensures e < |s| ==> !IsSpace(s[e])
    decreases |s| - k
  {
    if k == |s| || !IsSpace(s[k]) then k else SkipSpace(s, k + 1)
  }

  /** Moving back from `e` towards `lo`, the end of the last character that
      is not white space (`lo` when there is none). */
  function BackSpace(s: string, lo: nat, e: nat): (r: nat)
    requires lo <= e <= |s|
    ensures lo <= r <= e
    ensures forall i :: r <= i < e ==> IsSpace(s[i])
    ensures r > lo ==> !IsSpace(s[r - 1])
    decreases e - lo
  {
    if e == lo || !IsSpace(s[e - 1]) then e else BackSpace(s, lo, e - 1)
  }

  /** JavaScript's `s.trim()`: the text between the leading and the trailing
      white space. */
  function Trim(s: string): (r: string)
    ensures |r| <= |s|
    ensures IsTrimmed(r)
    ensures r == [] <==> AllSpace(s)
    ensures IsTrimmed(s) ==> r == s
  {
    var k := SkipSpace(s, 0);
    var e := BackSpace(s, k, |s|);
    assert e > k ==> s[k..e][0] == s[k] && s[k..e][e - k - 1] == s[e - 1];
    assert e == k ==> AllSpace(s) by {
      if e == k {
        forall i | 0 <= i < |s|
          ensures IsSpace(s[i])
        {
        }
      }
    }
    assert IsTrimmed(s) && s != [] ==> k == 0 && e == |s| by {
      if IsTrimmed(s) && s != [] {
        assert !IsSpace(s[0]);
        assert !IsSpace(s[|s| - 1]);
      }
    }
    s[k..e]
  }

  /** What `trim` removes is white space at the two ends and nothing else:
      the result is a slice of `s` with only white space before and after it. */
  lemma TrimIsSlice(s: string)
    ensures exists k, e :: 0 <= k <= e <= |s| && AllSpace(s[..k]) && AllSpace(s[e..]) && Trim(s) == s[k..e]
  {
    var k := SkipSpace(s, 0);
    var e := BackSpace(s, k, |s|);
    assert AllSpace(s[..k]) && AllSpace(s[e..]);
  }

  /** JavaScript's `!s.trim()`: nothing but white space. */
  predicate IsBlank(s: string) {
    Trim(s) == []
  }

  /** Trimming twice is trimming once. */
  lemma TrimIdempotent(s: string)
    ensures Trim(Trim(s)) == Trim(s)
  {
  }

  /** A string with a character that is not white space is not blank. */
  lemma NotBlankWitness(s: string, i: int)
    requires 0 <= i < |s| && !IsSpace(s[i])
    ensures !IsBlank(s)
  {
  }

  /** Upper-case ASCII letters mapped to lower case, everything else kept
      (`toLowerCase` restricted to ASCII). */
  function LowerAscii(c: char): char {
    if 'A' <= c <= 'Z' then (c as int + 32) as char else c
  }

  /** JavaScript's `s.toLowerCase()`, restricted to ASCII letters. */
  function ToLowerAscii(s: string): (r: string)
    ensures |r| == |s|
    ensures forall i :: 0 <= i < |s| ==> r[i] == LowerAscii(s[i])
  {
    seq(|s|, i requires 0 <= i < |s| => LowerAscii(s[i]))
  }

  /** `parts.join(sep)`. */
  function Join(parts: seq<string>, sep: string): (r: string)
    ensures |parts| == 0 ==> r == []
    ensures |parts| > 0 ==> |parts[0]| <= |r| && r[..|parts[0]|] == parts[0]
    ensures |parts| > 0 ==> |parts[|parts| - 1]| <= |r| && r[|r| - |parts[|parts| - 1]|..] == parts[|parts| - 1]
  {
    if |parts| == 0 then []
    else if |parts| == 1 then parts[0]
    else
      var rest := Join(parts[1..], sep);
      assert (parts[0] + sep + rest)[|parts[0] + sep + rest| - |rest|..] == rest;
      parts[0] + sep + rest
  }

  /** Joining two non-empty lists is joining each and putting the separator
      between the two results. */
  lemma {:induction false} JoinAppend(a: seq<string>, b: seq<string>, sep: string)
    requires |a| > 0 && |b| > 0
    ensures Join(a + b, sep) == Join(a, sep) + sep + Join(b, sep)
  {
    if |a| == 1 {
      assert (a + b)[1..] == b;
    } else {
      assert (a + b)[1..] == a[1..] + b;
      JoinAppend(a[1..], b, sep);
    }
  }

  /** Joining two lists one after the other, where either may be empty. */
  lemma JoinCases(pa: seq<string>, pb: seq<string>, sep: string)
    ensures pa == [] ==> Join(pa + pb, sep) == Join(pb, sep)
    ensures pb == [] ==> Join(pa + pb, sep) == Join(pa, sep)
    ensures pa != [] && pb != [] ==> Join(pa + pb, sep) == Join(pa, sep) + sep + Join(pb, sep)
  {
    if pa == [] {
      assert pa + pb == pb;
    } else if pb == [] {
      assert pa + pb == pa;
    } else {
      JoinAppend(pa, pb, sep);
    }
  }

  /** A decimal digit. */
  function Digit(d: nat): char
    requires d < 10
  {
    "0123456789"[d]
  }

  /** Decimal representation of a natural number, without leading zeros. */
  function NatToString(n: nat): (r: string)
    ensures |r| > 0
    ensures forall i :: 0 <= i < |r| ==> '0' <= r[i] <= '9'
    ensures n >= 10 ==> r[0] != '0'
  {
    if n < 10 then [Digit(n)] else NatToString(n / 10) + [Digit(n % 10)]
  }

  /** JavaScript's `String(n)` for an integer `n`. */
  function IntToString(n: int): (r: string)
    ensures |r| > 0 && !IsSpace(r[0])
  {
    if n < 0 then "-" + NatToString(-n) else NatToString(n)
  }

  /** Binary text collation: `a` sorts before or equal to `b` when `a` is a
      prefix of `b` or the first differing character of `a` is smaller. */
  predicate StrLe(a: string, b: string) {
    if |a| == 0 then true
    else if |b| == 0 then false
    else if a[0] != b[0] then a[0] < b[0]
    else StrLe(a[1..], b[1..])
  }

  /** Any two texts are ordered one way or the other. */
  lemma {:induction false} StrLeTotal(a: string, b: string)
    ensures StrLe(a, b) || StrLe(b, a)
  {
    if |a| > 0 && |b| > 0 && a[0] == b[0] {
      StrLeTotal(a[1..], b[1..]);
    }
  }

  /** The order is transitive. */
  lemma {:induction false} StrLeTransitive(a: string, b: string, c: string)
    requires StrLe(a, b) && StrLe(b, c)
    ensures StrLe(a, c)
  {
    if |a| > 0 && |b| > 0 && |c| > 0 && a[0] == b[0] && b[0] == c[0] {
      StrLeTransitive(a[1..], b[1..], c[1..]);
    }
  }
}
