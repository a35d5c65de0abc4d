/** Optional values: a SQL NULL, a missing row, a JavaScript `undefined`. */
module Options {
  datatype Option<T> = None | Some(value: T)
}

/**
 * The JavaScript string operations the clip store relies on: `trim`,
 * `toLowerCase`, `includes`, `startsWith`, `join(",")` and the decimal
 * rendering of a number inside a template string.
 */
module JsStrings {

  /** The characters `String.prototype.trim` strips: ECMAScript WhiteSpace and LineTerminator. */
  predicate IsWhiteSpace(c: char) {
    c == '\t' || c == '\n' || c == '\U{000B}' || c == '\U{000C}' || c == '\r' || c == ' '
    || c == '\U{00A0}' || c == '\U{1680}' || ('\U{2000}' <= c <= '\U{200A}')
    || c == '\U{2028}' || c == '\U{2029}' || c == '\U{202F}' || c == '\U{205F}'
    || c == '\U{3000}' || c == '\U{FEFF}'
  }

  predicate AllWhiteSpace(s: string) {
    forall i :: 0 <= i < |s| ==> IsWhiteSpace(s[i])
  }

  /** Drops the leading white space: the result is the longest suffix that starts with a non-space. */
  function TrimStart(s: string): (r: string)
    ensures |r| <= |s| && r == s[|s| - |r|..]
    ensures AllWhiteSpace(s[..|s| - |r|])
    ensures r == [] || !IsWhiteSpace(r[0])
  {
    if s != [] && IsWhiteSpace(s[0]) then
      var r := TrimStart(s[1..]);
      SkipWhiteSpace(s, r);
      r
    else s
  }

  /** What is trimmed from `s[1..]` is trimmed from `s` too, when `s` starts with white space. */
  lemma SkipWhiteSpace(s: string, r: string)
    requires s != [] && IsWhiteSpace(s[0])
    requires |r| <= |s| - 1 && r == s[1..][|s| - 1 - |r|..] && AllWhiteSpace(s[1..][..|s| - 1 - |r|])
    ensures r == s[|s| - |r|..] && AllWhiteSpace(s[..|s| - |r|])
  {
    var k := |s| - |r|;
    assert s[1..][k - 1..] == s[k..];
    forall j | 0 <= j < k ensures IsWhiteSpace(s[..k][j]) {
      if j > 0 {
        assert s[..k][j] == s[1..][..k - 1][j - 1];
      }
    }
  }

  /** Drops the trailing white space: the result is the longest prefix that ends with a non-space. */
  function TrimEnd(s: string): (r: string)
    ensures |r| <= |s| && r == s[..|r|]
    ensures AllWhiteSpace(s[|r|..])
    ensures r == [] || !IsWhiteSpace(r[|r| - 1])
  {
    if s != [] && IsWhiteSpace(s[|s| - 1]) then
      var t := s[..|s| - 1];
      var r := TrimEnd(t);
      assert t[..|r|] == s[..|r|];
      assert s[|r|..] == t[|r|..] + [s[|s| - 1]];
      r
    else s
  }

  /** `r` sits at position `i` of `s` with only white space before and after it. */
  predicate TrimmedAt(s: string, r: string, i: int) {
    0 <= i <= |s| - |r| && r == s[i..i + |r|] && AllWhiteSpace(s[..i]) && AllWhiteSpace(s[i + |r|..])
  }

  /** `s.trim()` */
  function Trim(s: string): (r: string)
    ensures r == [] || (!IsWhiteSpace(r[0]) && !IsWhiteSpace(r[|r| - 1]))
    ensures exists i :: TrimmedAt(s, r, i)
  {
    var head := TrimStart(s);
    var r := TrimEnd(head);
    TrimBothEnds(s, head, r);
    r
  }

  /**
   * A suffix `head` of `s` after white space only, cut down to a prefix `r`
   * before white space only: `r` sits in `s` after the white space `head`
   * skipped, and starts and ends with a non-space when `head` starts and `r`
   * ends with one.
   */
  lemma TrimBothEnds(s: string, head: string, r: string)
    requires |head| <= |s| && head == s[|s| - |head|..] && AllWhiteSpace(s[..|s| - |head|])
    requires head == [] || !IsWhiteSpace(head[0])
    requires |r| <= |head| && r == head[..|r|] && AllWhiteSpace(head[|r|..])
    requires r == [] || !IsWhiteSpace(r[|r| - 1])
    ensures TrimmedAt(s, r, |s| - |head|)
    ensures r == [] || (!IsWhiteSpace(r[0]) && !IsWhiteSpace(r[|r| - 1]))
  {
    var i := |s| - |head|;
    SliceOfSuffix(s, head, i, |r|);
    WhiteOfSuffix(s, head, i, |r|);
    assert r == [] || r[0] == head[0];
  }

  /** A prefix of the suffix `s[i..]` is the slice `s[i..i + k]`. */
  lemma SliceOfSuffix(s: string, head: string, i: nat, k: nat)
    requires i <= |s| && head == s[i..] && k <= |head|
    ensures head[..k] == s[i..i + k]
  {
  }

  /** White space after position `k` of the suffix `s[i..]` is white space after `i + k` in `s`. */
  lemma WhiteOfSuffix(s: string, head: string, i: nat, k: nat)
    requires i <= |s| && head == s[i..] && k <= |head| && AllWhiteSpace(head[k..])
    ensures AllWhiteSpace(s[i + k..])
  {
    assert s[i + k..] == head[k..];
  }

  /** Trimming twice is trimming once. */
  lemma TrimIdempotent(s: string)
    ensures Trim(Trim(s)) == Trim(s)
  {
    var t := Trim(s);
    assert TrimStart(t) == t;
    assert TrimEnd(t) == t;
  }

  /** A string trims to "" exactly when it is made of white space only. */
  lemma TrimEmpty(s: string)
    ensures Trim(s) == "" <==> AllWhiteSpace(s)
  {
    var head := TrimStart(s);
    var cut := |s| - |head|;
    if Trim(s) == "" {
      assert AllWhiteSpace(head[0..]);
      forall k | 0 <= k < |s| ensures IsWhiteSpace(s[k]) {
        assert s[..cut][k] == s[k];
      }
    }
  }

  /** `c.toLowerCase()` on one character; only the ASCII letters are mapped. */
  function LowerChar(c: char): char {
    if 'A' <= c <= 'Z' then (c as int + 32) as char else c
  }

  /** `s.toLowerCase()`, restricted to ASCII letters. */
  function ToLower(s: string): (r: string)
    ensures |r| == |s|
    ensures forall i :: 0 <= i < |s| ==> r[i] == LowerChar(s[i])
  {
    if s == [] then [] else [LowerChar(s[0])] + ToLower(s[1..])
  }

  /** Lowercasing leaves white space alone, so `trim().toLowerCase()` yields "" exactly when `trim()` does. */
  lemma LowerKeepsEmpty(s: string)
    ensures ToLower(s) == "" <==> s == ""
  {
  }

  predicate StartsWith(s: string, prefix: string) {
    |prefix| <= |s| && s[..|prefix|] == prefix
  }

  /** `s.includes(q)`, as a left-to-right scan. */
  predicate Includes(s: string, q: string)
    decreases |s|
  {
    StartsWith(s, q) || (s != [] && Includes(s[1..], q))
  }

  /** `q` occurs in `s` at position `i`. */
  predicate OccursAt(s: string, q: string, i: int) {
    0 <= i <= |s| - |q| && s[i..i + |q|] == q
  }

  /** The scan agrees with the definition of a substring occurrence. */
  lemma {:induction false} IncludesAt(s: string, q: string)
    ensures Includes(s, q) <==> exists i :: OccursAt(s, q, i)
    decreases |s|
  {
    if StartsWith(s, q) {
      assert OccursAt(s, q, 0);
    } else if s != [] {
      IncludesAt(s[1..], q);
      if exists i :: OccursAt(s, q, i) {
        var i :| OccursAt(s, q, i);
        assert i != 0;
        assert s[1..][i - 1..i - 1 + |q|] == s[i..i + |q|];
        assert OccursAt(s[1..], q, i - 1);
      }
      if Includes(s[1..], q) {
        var i :| OccursAt(s[1..], q, i);
        assert s[i + 1..i + 1 + |q|] == s[1..][i..i + |q|];
        assert OccursAt(s, q, i + 1);
      }
    }
  }

  /** Every string includes itself inside any surrounding text. */
  lemma IncludesPart(a: string, q: string, b: string)
    ensures Includes(a + q + b, q)
  {
    var s := a + q + b;
    assert s[|a|..|a| + |q|] == q;
    assert OccursAt(s, q, |a|);
    IncludesAt(s, q);
  }

  /** `parts.join(",")` */
  function JoinComma(parts: seq<string>): (r: string)
    ensures |parts| > 0 ==> StartsWith(r, parts[0])
  {
    if |parts| == 0 then ""
    else if |parts| == 1 then parts[0]
    else parts[0] + "," + JoinComma(parts[1..])
  }

  /** Each part of a comma-joined list appears in it, delimited by the list's commas. */
  lemma {:induction false} JoinHasPart(parts: seq<string>, k: nat)
    requires k < |parts|
    ensures exists a, b :: JoinComma(parts) == a + parts[k] + b
  {
    if |parts| == 1 {
      assert JoinComma(parts) == "" + parts[0] + "";
    } else if k == 0 {
      assert JoinComma(parts) == "" + parts[0] + ("," + JoinComma(parts[1..]));
    } else {
      JoinHasPart(parts[1..], k - 1);
      var a, b :| JoinComma(parts[1..]) == a + parts[1..][k - 1] + b;
      assert JoinComma(parts) == (parts[0] + "," + a) + parts[k] + b;
    }
  }

  function DigitChar(d: nat): char
    requires d < 10
  {
    ('0' as int + d) as char
  }

  /** The decimal rendering of a natural number, as `${n}` produces it (no sign, no leading zero). */
  function Decimal(n: nat): (r: string)
    ensures 1 <= |r|
    ensures forall i :: 0 <= i < |r| ==> '0' <= r[i] <= '9'
    ensures |r| > 1 ==> r[0] != '0'
  {
    if n < 10 then [DigitChar(n)] else Decimal(n / 10) + [DigitChar(n % 10)]
  }

  /** Different numbers render differently. */
  lemma {:induction false} DecimalInjective(a: nat, b: nat)
    requires Decimal(a) == Decimal(b)
    ensures a == b
  {
    var ra, rb := Decimal(a), Decimal(b);
    if a < 10 && b < 10 {
    } else if a < 10 || b < 10 {
      assert false;
    } else {
      assert Decimal(a / 10) == ra[..|ra| - 1];
      assert Decimal(b / 10) == rb[..|rb| - 1];
      DecimalInjective(a / 10, b / 10);
      assert ra[|ra| - 1] == DigitChar(a % 10);
      assert rb[|rb| - 1] == DigitChar(b % 10);
    }
  }

  /** Numbers below 1000 take at most three digits, numbers from 1000 on at least four. */
  lemma DecimalWidth(n: nat)
    ensures n < 1000 ==> |Decimal(n)| <= 3
    ensures n >= 1000 ==> |Decimal(n)| >= 4
  {
    if n >= 10 {
      assert |Decimal(n)| == |Decimal(n / 10)| + 1;
      if n >= 100 {
        assert |Decimal(n / 10)| == |Decimal(n / 10 / 10)| + 1;
        if n >= 1000 {
          assert |Decimal(n / 10 / 10)| == |Decimal(n / 10 / 10 / 10)| + 1;
        }
      }
    }
  }
}
