/** The two `parseDuration` helpers of the client, which read a contest's duration text
    as a number of hours with the regular expressions `(\d+)h` and `(\d+)m`. */
module ClientDuration {
  import opened Text
  import opened Regex
  import opened TimeNormalizer

  /** `(\d+)` followed by the letter `c`: `(\d+)h` or `(\d+)m`. */
  function CountThen(c: char): seq<Elem> {
    [Plus(IsDigit), Lit(c)]
  }

  lemma CountThenDeterministic(c: char)
    requires !IsDigit(c)
    ensures Deterministic(CountThen(c))
  {
    var pat := CountThen(c);
    assert Disjoint(IsDigit, pat[1].cls);
    forall i, j | 0 <= i < j < |pat| && j == i + 1 ensures Handover(pat[i], pat[j]) {
    }
  }

  /** The number captured by the leftmost match of `(\d+)c` in `s`, if any. */
  function FirstCount(s: string, c: char): Option<nat> {
    match Search(CountThen(c), s)
    case Some((_, pieces)) =>
      assert Fits(CountThen(c)[0], pieces[0]);
      Some(DecimalValue(pieces[0]))
    case None => None
  }

  /** A string that starts with a number followed by `c` yields that number, whatever
      follows. */
  lemma FirstCountLeading(n: nat, c: char, rest: string)
    requires !IsDigit(c)
    ensures FirstCount(NatToString(n) + [c] + rest, c) == Some(n)
  {
    var s := NatToString(n) + [c] + rest;
    var pat := CountThen(c);
    var pieces := [NatToString(n), [c]];
    assert Fits(pat[0], pieces[0]) && Fits(pat[1], pieces[1]);
    assert Concat(pieces) == NatToString(n) + [c] by {
      ConcatCons(pieces);
      ConcatCons(pieces[1..]);
      assert pieces[1..][1..] == [];
    }
    assert Concat(pieces) <= s;
    CountThenDeterministic(c);
    MatchPatternComplete(pat, pieces, s);
    assert s[0..] == s;
    DecimalOfNatToString(n);
  }

  /** A string in which `c` does not occur yields nothing. */
  lemma FirstCountAbsent(s: string, c: char)
    requires !IsDigit(c) && c !in s
    ensures FirstCount(s, c).None?
  {
    var pat := CountThen(c);
    CountThenDeterministic(c);
    forall k, pieces | 0 <= k <= |s| ensures !Matches(pat, pieces, s[k..]) {
      if PiecesFit(pat, pieces) {
        var w := Concat(pieces);
        var n := |pieces[0]|;
        assert Fits(pat[1], pieces[1]);
        assert w == pieces[0] + (pieces[1] + []) by {
          ConcatCons(pieces);
          ConcatCons(pieces[1..]);
          assert pieces[1..][1..] == [];
        }
        assert w[n] == c;
        if n < |s| - k {
          assert s[k..][n] == s[k + n] && s[k + n] in s;
          assert w[n] != s[k..][n];
        }
      }
    }
    SearchFailsIffNoMatch(pat, s);
  }

  /** `parseDuration` of the contest list: 2 for an empty text, otherwise the number
      before the first `h`, or 2 when there is none. */
  function ListHours(durationStr: string): nat {
    if durationStr == "" then 2
    else match FirstCount(durationStr, 'h')
      case Some(n) => n
      case None => 2
  }

  /** `parseDuration` of the bookmark page: 2 for an empty text, otherwise the number
      before the first `h`, else the number before the first `m` divided by 60, else
      2. */
  function PageHours(durationStr: string): real {
    if durationStr == "" then 2.0
    else match FirstCount(durationStr, 'h')
      case Some(n) => n as real
      case None =>
        match FirstCount(durationStr, 'm')
        case Some(n) => (n as real) / 60.0
        case None => 2.0
  }

  lemma HHMMLetters(seconds: nat)
    ensures 'h' !in DurationToHHMM(seconds) && 'm' !in DurationToHHMM(seconds)
    ensures DurationToHHMM(seconds) != ""
  {
    var a := PadStart2(NatToString(seconds / 3600));
    var b := PadStart2(NatToString((seconds % 3600) / 60));
    var s := DurationToHHMM(seconds);
    assert s == a + ":" + b;
    assert AllDigits(a) && AllDigits(b);
    forall i | 0 <= i < |s| ensures s[i] != 'h' && s[i] != 'm' {
      if i < |a| { assert s[i] == a[i]; }
      else if i == |a| { assert s[i] == ':'; }
      else { assert s[i] == b[i - |a| - 1]; }
    }
  }

  /** The "HH:MM" durations the server stores for Codeforces never carry an `h` or an
      `m`, so both helpers fall back to two hours for every such contest. */
  lemma HHMMReadsAsTwoHours(seconds: nat)
    ensures ListHours(DurationToHHMM(seconds)) == 2
    ensures PageHours(DurationToHHMM(seconds)) == 2.0
  {
    HHMMLetters(seconds);
    FirstCountAbsent(DurationToHHMM(seconds), 'h');
    FirstCountAbsent(DurationToHHMM(seconds), 'm');
  }

  /** A text that starts with "<n>h" reads as n hours in both helpers, even when
      minutes follow. */
  lemma HoursTakePrecedence(n: nat, rest: string)
    ensures ListHours(NatToString(n) + "h" + rest) == n
    ensures PageHours(NatToString(n) + "h" + rest) == n as real
  {
    FirstCountLeading(n, 'h', rest);
  }

  /** On the bookmark page a text with minutes and no `h` reads as minutes / 60; the
      contest list reads it as 2. */
  lemma MinutesOnly(n: nat, rest: string)
    requires 'h' !in rest
    ensures PageHours(NatToString(n) + "m" + rest) == (n as real) / 60.0
    ensures ListHours(NatToString(n) + "m" + rest) == 2
  {
    var s := NatToString(n) + "m" + rest;
    assert 'h' !in s by {
      assert AllDigits(NatToString(n));
      forall i | 0 <= i < |s| ensures s[i] != 'h' {
        if i > |NatToString(n)| { assert s[i] == rest[i - |NatToString(n)| - 1]; }
      }
    }
    FirstCountAbsent(s, 'h');
    FirstCountLeading(n, 'm', rest);
  }
}
