/**
 The parts of Swift's `String` API that the list app relies on, over plain
 `seq<char>`: ordinal comparison (`<`), `hasPrefix`, `split(separator:)`,
 `Int(_:)` and `String(_:)` on integers.
 */
module SwiftText {
  import opened Optional

  // ---------------------------------------------------------------------------
  // Ordering: `<` on strings, as ordinal lexicographic order on characters
  // ---------------------------------------------------------------------------

  /** `a < b`: a proper prefix is smaller; otherwise the first differing character decides. */
  predicate LexLess(a: string, b: string)
    decreases |a|
  {
    if |a| == 0 then |b| > 0
    else if |b| == 0 then false
    else if a[0] != b[0] then a[0] < b[0]
    else LexLess(a[1..], b[1..])
  }

  /** `a <= b`. */
  predicate LexLe(a: string, b: string) {
    a == b || LexLess(a, b)
  }

  lemma {:induction false} LexLessIrreflexive(a: string)
    ensures !LexLess(a, a)
    decreases |a|
  {
    if |a| > 0 {
      LexLessIrreflexive(a[1..]);
    }
  }

  lemma {:induction false} LexLessAsymmetric(a: string, b: string)
    ensures !(LexLess(a, b) && LexLess(b, a))
    decreases |a|
  {
    if |a| > 0 && |b| > 0 && a[0] == b[0] {
      LexLessAsymmetric(a[1..], b[1..]);
    }
  }

  lemma {:induction false} LexLessTransitive(a: string, b: string, c: string)
    requires LexLess(a, b) && LexLess(b, c)
    ensures LexLess(a, c)
    decreases |a|
  {
    if |a| > 0 && a[0] == b[0] && b[0] == c[0] {
      LexLessTransitive(a[1..], b[1..], c[1..]);
    }
  }

  /** Any two distinct strings are ordered one way or the other. */
  lemma {:induction false} LexLessTotal(a: string, b: string)
    ensures a == b || LexLess(a, b) || LexLess(b, a)
    decreases |a|
  {
    if |a| > 0 && |b| > 0 && a[0] == b[0] {
      LexLessTotal(a[1..], b[1..]);
      if a[1..] == b[1..] {
        assert a == [a[0]] + a[1..] && b == [b[0]] + b[1..];
      }
    }
  }

  /** `<=` is a total order on strings. */
  lemma LexLeTotalOrder(a: string, b: string, c: string)
    ensures LexLe(a, b) || LexLe(b, a)
    ensures LexLe(a, b) && LexLe(b, a) ==> a == b
    ensures LexLe(a, b) && LexLe(b, c) ==> LexLe(a, c)
  {
    LexLessTotal(a, b);
    LexLessAsymmetric(a, b);
    if LexLess(a, b) && LexLess(b, c) {
      LexLessTransitive(a, b, c);
    }
  }

  // ---------------------------------------------------------------------------
  // hasPrefix and split(separator:)
  // ---------------------------------------------------------------------------

  predicate HasPrefix(s: string, p: string) {
    |p| <= |s| && s[..|p|] == p
  }

  /**
   `s.split(separator: sep)` with Swift's defaults: the maximal runs of
   non-separator characters, in order; empty pieces are dropped.
   */
  function Split(s: string, sep: char): (pieces: seq<string>)
    ensures forall i :: 0 <= i < |pieces| ==> |pieces[i]| > 0 && sep !in pieces[i]
  {
    SplitRun(s, sep, [])
  }

  /** Splits `s`, where `run` holds the characters of the piece being read. */
  function SplitRun(s: string, sep: char, run: string): (pieces: seq<string>)
    requires sep !in run
    ensures forall i :: 0 <= i < |pieces| ==> |pieces[i]| > 0 && sep !in pieces[i]
    decreases |s|
  {
    var done := if |run| == 0 then [] else [run];
    if |s| == 0 then done
    else if s[0] == sep then done + SplitRun(s[1..], sep, [])
    else SplitRun(s[1..], sep, run + [s[0]])
  }

  /** The characters of `s` other than `sep`, in order. */
  function Without(s: string, sep: char): string {
    if |s| == 0 then []
    else (if s[0] == sep then [] else [s[0]]) + Without(s[1..], sep)
  }

  function Concat(pieces: seq<string>): string {
    if |pieces| == 0 then [] else pieces[0] + Concat(pieces[1..])
  }

  lemma {:induction false} ConcatAppend(a: seq<string>, b: seq<string>)
    ensures Concat(a + b) == Concat(a) + Concat(b)
    decreases |a|
  {
    if |a| > 0 {
      assert (a + b)[0] == a[0];
      assert (a + b)[1..] == a[1..] + b;
      ConcatAppend(a[1..], b);
    } else {
      assert a + b == b;
    }
  }

  lemma {:induction false} SplitRunLosesOnlySeparators(s: string, sep: char, run: string)
    requires sep !in run
    ensures Concat(SplitRun(s, sep, run)) == run + Without(s, sep)
    decreases |s|
  {
    var done := if |run| == 0 then [] else [run];
    assert Concat(done) == run by {
      if |run| > 0 {
        assert Concat(done) == run + Concat([]);
      }
    }
    if |s| > 0 {
      if s[0] == sep {
        SplitRunLosesOnlySeparators(s[1..], sep, []);
        ConcatAppend(done, SplitRun(s[1..], sep, []));
      } else {
        SplitRunLosesOnlySeparators(s[1..], sep, run + [s[0]]);
      }
    }
  }

  /** Splitting loses exactly the separators: gluing the pieces back gives `s` without them. */
  lemma SplitLosesOnlySeparators(s: string, sep: char)
    ensures Concat(Split(s, sep)) == Without(s, sep)
  {
    SplitRunLosesOnlySeparators(s, sep, []);
  }

  lemma {:induction false} SplitRunWord(w: string, rest: string, sep: char, run: string)
    requires sep !in run && sep !in w
    ensures SplitRun(w + rest, sep, run) == SplitRun(rest, sep, run + w)
    decreases |w|
  {
    if |w| > 0 {
      assert (w + rest)[0] == w[0];
      assert (w + rest)[1..] == w[1..] + rest;
      SplitRunWord(w[1..], rest, sep, run + [w[0]]);
      assert run + [w[0]] + w[1..] == run + w;
    } else {
      assert w + rest == rest && run + w == run;
    }
  }

  /** Two non-empty words joined by one separator split back into those two words. */
  lemma SplitTwoWords(a: string, b: string, sep: char)
    requires |a| > 0 && |b| > 0 && sep !in a && sep !in b
    ensures Split(a + [sep] + b, sep) == [a, b]
  {
    SplitRunWord(a, [sep] + b, sep, []);
    assert a + [sep] + b == a + ([sep] + b);
    assert [] + a == a;
    assert ([sep] + b)[0] == sep && ([sep] + b)[1..] == b;
    assert SplitRun([sep] + b, sep, a) == [a] + SplitRun(b, sep, []);
    SplitRunWord(b, [], sep, []);
    assert b + [] == b && [] + b == b;
    assert SplitRun(b, sep, []) == [b];
  }

  // ---------------------------------------------------------------------------
  // Int(_:) and String(_:) for Swift's 64-bit `Int`
  // ---------------------------------------------------------------------------

  const IntMin: int := -0x8000_0000_0000_0000
  const IntMax: int := 0x7fff_ffff_ffff_ffff

  predicate IsDigit(c: char) {
    '0' <= c <= '9'
  }

  predicate AllDigits(s: string) {
    forall i :: 0 <= i < |s| ==> IsDigit(s[i])
  }

  function DigitChar(d: nat): char
    requires d < 10
  {
    (48 + d) as char
  }

  /** The value of a run of decimal digits, most significant first. */
  function DigitsValue(s: string): nat
    requires AllDigits(s)
  {
    if |s| == 0 then 0
    else DigitsValue(s[..|s| - 1]) * 10 + (s[|s| - 1] as int - 48)
  }

  /** `Int(s)`: an optional `+` or `-`, then one or more decimal digits, in range. */
  function ParseInt(s: string): Option<int> {
    if |s| == 0 then None
    else
      var negative := s[0] == '-';
      var digits := if s[0] == '-' || s[0] == '+' then s[1..] else s;
      if |digits| == 0 || !AllDigits(digits) then None
      else
        var v: int := if negative then -(DigitsValue(digits) as int) else DigitsValue(digits);
        if IntMin <= v <= IntMax then Some(v) else None
  }

  /** The decimal digits of `n`, with no leading zero. */
  function FormatNat(n: nat): (s: string)
    decreases n
  {
    if n < 10 then [DigitChar(n)] else FormatNat(n / 10) + [DigitChar(n % 10)]
  }

  /** `String(n)`: decimal, with a leading `-` for negative numbers. */
  function FormatInt(n: int): string {
    if n < 0 then "-" + FormatNat(-n) else FormatNat(n)
  }

  lemma {:induction false} FormatNatDigits(n: nat)
    ensures |FormatNat(n)| > 0
    ensures AllDigits(FormatNat(n))
    ensures DigitsValue(FormatNat(n)) == n
    decreases n
  {
    if n >= 10 {
      FormatNatDigits(n / 10);
      var s := FormatNat(n);
      assert s[..|s| - 1] == FormatNat(n / 10);
    }
  }

  /** `Int(String(n)) == n` for every `n` a Swift `Int` can hold. */
  lemma FormatParseRoundTrip(n: int)
    requires IntMin <= n <= IntMax
    ensures ParseInt(FormatInt(n)) == Some(n)
  {
    if n < 0 {
      FormatNatDigits(-n);
      assert FormatInt(n)[1..] == FormatNat(-n);
    } else {
      FormatNatDigits(n);
    }
  }

  /** The decimal form of an integer is never empty and holds no space. */
  lemma FormatIntIsOneWord(n: int)
    ensures |FormatInt(n)| > 0 && ' ' !in FormatInt(n)
  {
    var s := FormatInt(n);
    if n < 0 {
      FormatNatDigits(-n);
      assert s == "-" + FormatNat(-n);
      assert forall i :: 1 <= i < |s| ==> s[i] == FormatNat(-n)[i - 1];
    } else {
      FormatNatDigits(n);
    }
    assert forall i :: 0 <= i < |s| ==> s[i] != ' ';
  }
}
