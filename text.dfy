/** Character classes and small string functions shared by the model: the JavaScript
    regular-expression classes `\s`, `\d`, `\w`, `String.prototype.trim`, decimal
    parsing (`Number`, `parseInt(_, 10)` on digit strings), `String(n)` and
    `padStart(2, '0')`, and a generic leftmost-match search. */
module Text {

  datatype Option<+T> = None | Some(value: T)

  /** JavaScript `\s`: WhiteSpace and LineTerminator code points (also what `trim` removes). */
  predicate IsJsSpace(c: char) {
    c == ' ' || c == '\t' || c == '\n' || c == '\r' || c == '\U{000B}' || c == '\U{000C}'
    || c == '\U{00A0}' || c == '\U{1680}' || ('\U{2000}' <= c <= '\U{200A}')
    || c == '\U{2028}' || c == '\U{2029}' || c == '\U{202F}' || c == '\U{205F}'
    || c == '\U{3000}' || c == '\U{FEFF}'
  }

  /** The characters that `.` does not match. */
  predicate IsLineTerminator(c: char) {
    c == '\n' || c == '\r' || c == '\U{2028}' || c == '\U{2029}'
  }

  predicate IsDigit(c: char) { '0' <= c <= '9' }

  /** JavaScript `\w`. */
  predicate IsWordChar(c: char) {
    ('a' <= c <= 'z') || ('A' <= c <= 'Z') || IsDigit(c) || c == '_'
  }

  predicate AllDigits(s: string) {
    forall i :: 0 <= i < |s| ==> IsDigit(s[i])
  }

  function DigitValue(c: char): (d: nat)
    requires IsDigit(c)
    ensures d < 10
  {
    (c as int) - ('0' as int)
  }

  function DigitChar(d: nat): (c: char)
    requires d < 10
    ensures IsDigit(c) && DigitValue(c) == d
  {
    ('0' as int + d) as char
  }

  /** The value of a decimal digit string, as `Number` and `parseInt(_, 10)` read it. */
  function DecimalValue(s: string): nat
    requires AllDigits(s)
  {
    if s == [] then 0 else DecimalValue(s[..|s| - 1]) * 10 + DigitValue(s[|s| - 1])
  }

  /** `String(n)` for a non-negative integer. */
  function NatToString(n: nat): (r: string)
    ensures 1 <= |r| && AllDigits(r)
    ensures n < 10 <==> |r| == 1
  {
    if n < 10 then [DigitChar(n)] else NatToString(n / 10) + [DigitChar(n % 10)]
  }

  lemma {:induction false} DecimalOfNatToString(n: nat)
    ensures DecimalValue(NatToString(n)) == n
  {
    var r := NatToString(n);
    if n >= 10 {
      DecimalOfNatToString(n / 10);
      assert r[..|r| - 1] == NatToString(n / 10);
    }
  }

  /** Leading zeros do not change a decimal value. */
  lemma {:induction false} DecimalLeadingZero(s: string)
    requires AllDigits(s)
    ensures AllDigits("0" + s) && DecimalValue("0" + s) == DecimalValue(s)
  {
    var t := "0" + s;
    assert forall i :: 0 <= i < |t| ==> IsDigit(t[i]);
    if s != [] {
      assert t[..|t| - 1] == "0" + s[..|s| - 1];
      DecimalLeadingZero(s[..|s| - 1]);
    }
  }

  /** `s.padStart(2, '0')`. */
  function PadStart2(s: string): (r: string)
    ensures |r| == if |s| < 2 then 2 else |s|
  {
    if |s| == 0 then "00" else if |s| == 1 then "0" + s else s
  }

  /** `String(n).padStart(2, '0')`: at least two digits, same value. */
  lemma TwoDigits(n: nat)
    ensures AllDigits(PadStart2(NatToString(n)))
    ensures DecimalValue(PadStart2(NatToString(n))) == n
    ensures |PadStart2(NatToString(n))| >= 2
  {
    DecimalOfNatToString(n);
    if n < 10 { DecimalLeadingZero(NatToString(n)); }
  }

  /** `s.trim()`. */
  function Trim(s: string): (r: string)
    ensures |r| <= |s|
    ensures r != [] ==> !IsJsSpace(r[0]) && !IsJsSpace(r[|r| - 1])
  {
    TrimEnd(TrimStart(s))
  }

  function TrimStart(s: string): (r: string)
    ensures |r| <= |s|
    ensures r != [] ==> !IsJsSpace(r[0])
    ensures forall i :: 0 <= i < |s| - |r| ==> IsJsSpace(s[i])
  {
    if s != [] && IsJsSpace(s[0]) then TrimStart(s[1..]) else s
  }

  function TrimEnd(s: string): (r: string)
    ensures |r| <= |s| && (r != [] ==> r[0] == s[0])
    ensures r != [] ==> !IsJsSpace(r[|r| - 1])
    ensures forall i :: |r| <= i < |s| ==> IsJsSpace(s[i])
  {
    if s != [] && IsJsSpace(s[|s| - 1]) then TrimEnd(s[..|s| - 1]) else s
  }

  /** Leading whitespace up to position `a`, then a non-space: `trimStart` removes
      exactly that whitespace. */
  lemma {:induction false} TrimStartExact(x: string, a: nat)
    requires a < |x| && !IsJsSpace(x[a])
    requires forall i :: 0 <= i < a ==> IsJsSpace(x[i])
    ensures TrimStart(x) == x[a..]
  {
    if a > 0 {
      var y := x[1..];
      forall i | 0 <= i < a - 1 ensures IsJsSpace(y[i]) { assert y[i] == x[i + 1]; }
      assert y[a - 1] == x[a];
      TrimStartExact(y, a - 1);
      assert y[a - 1..] == x[a..];
    }
  }

  /** A non-space at `c - 1`, then only whitespace: `trimEnd` keeps exactly `x[..c]`. */
  lemma {:induction false} TrimEndExact(x: string, c: nat)
    requires 0 < c <= |x| && !IsJsSpace(x[c - 1])
    requires forall i :: c <= i < |x| ==> IsJsSpace(x[i])
    ensures TrimEnd(x) == x[..c]
    decreases |x|
  {
    if c < |x| {
      var y := x[..|x| - 1];
      forall i | c <= i < |y| ensures IsJsSpace(y[i]) { assert y[i] == x[i]; }
      assert y[c - 1] == x[c - 1];
      TrimEndExact(y, c);
      assert y[..c] == x[..c];
    }
  }

  /** Trimming a string whose non-space content spans exactly `x[a..c]` gives `x[a..c]`. */
  lemma TrimExact(x: string, a: nat, c: nat)
    requires a < c <= |x|
    requires forall i :: 0 <= i < a ==> IsJsSpace(x[i])
    requires forall i :: c <= i < |x| ==> IsJsSpace(x[i])
    requires !IsJsSpace(x[a]) && !IsJsSpace(x[c - 1])
    ensures Trim(x) == x[a..c]
  {
    TrimStartExact(x, a);
    SuffixSpaces(x, a, c);
    TrimEndExact(x[a..], c - a);
    SliceOfSuffix(x, a, c);
  }

  lemma SuffixSpaces(x: string, a: nat, c: nat)
    requires a < c <= |x|
    requires forall i :: c <= i < |x| ==> IsJsSpace(x[i])
    requires !IsJsSpace(x[c - 1])
    ensures var y := x[a..]; (forall i :: c - a <= i < |y| ==> IsJsSpace(y[i])) && !IsJsSpace(y[c - a - 1])
  {
    var y := x[a..];
    forall i | c - a <= i < |y| ensures IsJsSpace(y[i]) { assert y[i] == x[a + i]; }
    assert y[c - a - 1] == x[c - 1];
  }

  /** A string with non-space characters at both ends is its own trim. */
  lemma TrimNoop(x: string)
    requires x != [] && !IsJsSpace(x[0]) && !IsJsSpace(x[|x| - 1])
    ensures Trim(x) == x
  {
    TrimExact(x, 0, |x|);
    SliceOfSlice(x, 0, |x|, 0, |x|, 0, |x|);
  }

  /** A slice with non-space characters at both ends is its own trim. */
  lemma TrimNoopSlice(s: string, a: nat, b: nat)
    requires a < b <= |s| && !IsJsSpace(s[a]) && !IsJsSpace(s[b - 1])
    ensures Trim(s[a..b]) == s[a..b]
  {
    var c := s[a..b];
    assert c[0] == s[a];
    assert c[|c| - 1] == s[b - 1];
    TrimNoop(c);
  }

  /** Slicing a slice: `x[a..b][i..j]` is `x[p..q]` with `p == a + i` and `q == a + j`. */
  lemma SliceOfSlice(x: string, a: nat, b: nat, i: nat, j: nat, p: nat, q: nat)
    requires a <= b <= |x| && i <= j <= b - a && p == a + i && q == a + j
    ensures x[a..b][i..j] == x[p..q]
  {
    var y := x[a..b][i..j];
    forall k | 0 <= k < j - i ensures y[k] == x[p + k] {
      assert y[k] == x[a..b][i + k];
    }
  }

  lemma SliceOfSuffix(x: string, a: nat, c: nat)
    requires a <= c <= |x|
    ensures x[a..][..c - a] == x[a..c]
  {
  }

  /** Length of the longest prefix of `s` whose characters all satisfy `p`. */
  function RunLength(s: string, p: char -> bool): (n: nat)
    ensures n <= |s|
    ensures forall i :: 0 <= i < n ==> p(s[i])
    ensures n < |s| ==> !p(s[n])
  {
    if s != [] && p(s[0]) then 1 + RunLength(s[1..], p) else 0
  }

  /** A run of characters that satisfy `p`, followed by one that does not (or the end),
      has exactly the run's length. */
  lemma {:induction false} RunLengthOf(s: string, p: char -> bool, n: nat)
    requires n <= |s|
    requires forall i :: 0 <= i < n ==> p(s[i])
    requires n < |s| ==> !p(s[n])
    ensures RunLength(s, p) == n
  {
    if n > 0 {
      RunLengthOf(s[1..], p, n - 1);
    }
  }

  /** A prefix of characters that all satisfy `p` is no longer than the run. */
  lemma {:induction false} RunLengthAtLeast(s: string, p: char -> bool, n: nat)
    requires n <= |s|
    requires forall i :: 0 <= i < n ==> p(s[i])
    ensures RunLength(s, p) >= n
  {
    if n > 0 {
      RunLengthAtLeast(s[1..], p, n - 1);
    }
  }

  /** Two pieces that follow each other at the start of `t` form a prefix of `t`. */
  lemma PrefixJoin<T>(a: seq<T>, b: seq<T>, t: seq<T>)
    requires a <= t && b <= t[|a|..]
    ensures a + b <= t
  {
    assert a + b == t[..|a| + |b|];
  }

  /** ... and a prefix made of two pieces splits back into them. */
  lemma PrefixSplit<T>(a: seq<T>, b: seq<T>, t: seq<T>)
    requires a + b <= t
    ensures a <= t && b <= t[|a|..]
  {
    assert (a + b)[..|a|] == a;
    assert (a + b)[|a|..] == b;
  }

  /** Index of the first occurrence of `x` in `s`, or -1 (`Array.prototype.indexOf`). */
  function IndexOf<T(==)>(s: seq<T>, x: T): (r: int)
    ensures -1 <= r < |s|
    ensures r == -1 <==> x !in s
    ensures r >= 0 ==> s[r] == x && x !in s[..r]
    ensures r >= 0 ==> forall i :: 0 <= i < r ==> s[i] != x
  {
    if s == [] then -1
    else if s[0] == x then 0
    else var k := IndexOf(s[1..], x); if k == -1 then -1 else k + 1
  }

  /** The first occurrence is where `x` sits with no earlier copy. */
  lemma IndexOfAt<T>(s: seq<T>, x: T, k: nat)
    requires k < |s| && s[k] == x && forall i :: 0 <= i < k ==> s[i] != x
    ensures IndexOf(s, x) == k
  {
    assert s[k] in s;
  }

  /** The length JavaScript reports for a string: UTF-16 code units, so a code point
      outside the Basic Multilingual Plane counts twice. */
  function Utf16Length(s: string): (n: nat)
    ensures |s| <= n <= 2 * |s|
  {
    if s == [] then 0 else Utf16Length(s[..|s| - 1]) + (if s[|s| - 1] as int > 0xFFFF then 2 else 1)
  }
}
