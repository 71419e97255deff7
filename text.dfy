/**
 * The text operations the address parser relies on: Solace::StringView's
 * trim and split, and strtoul's reading of a decimal number.
 */
module Text {
  import opened Wrappers

  /** isspace: blank, and the control characters tab through carriage return. */
  predicate IsSpace(c: char)
  {
    c == ' ' || 9 <= c as int <= 13
  }

  predicate IsDigit(c: char)
  {
    '0' <= c <= '9'
  }

  predicate AllDigits(s: string)
  {
    forall i :: 0 <= i < |s| ==> IsDigit(s[i])
  }

  predicate StartsWith(s: string, c: char)
  {
    |s| > 0 && s[0] == c
  }

  /** Drops leading white space. */
  function TrimStart(s: string): (r: string)
    ensures |r| <= |s| && r == s[|s| - |r|..]
    ensures forall i :: 0 <= i < |s| - |r| ==> IsSpace(s[i])
    ensures r == [] || !IsSpace(r[0])
    decreases |s|
  {
    if |s| > 0 && IsSpace(s[0]) then TrimStart(s[1..]) else s
  }

  /** Drops trailing white space. */
  function TrimEnd(s: string): (r: string)
    ensures |r| <= |s| && r == s[..|r|]
    ensures forall i :: |r| <= i < |s| ==> IsSpace(s[i])
    ensures r == [] || !IsSpace(r[|r| - 1])
    decreases |s|
  {
    if |s| > 0 && IsSpace(s[|s| - 1]) then TrimEnd(s[..|s| - 1]) else s
  }

  /** StringView::trim: the text without white space at either end. */
  function Trim(s: string): (r: string)
  {
    TrimEnd(TrimStart(s))
  }

  /** Text that neither starts nor ends with white space is its own trim. */
  lemma TrimUnspaced(s: string)
    requires |s| > 0 && !IsSpace(s[0]) && !IsSpace(s[|s| - 1])
    ensures Trim(s) == s
  {
  }

  /** The delimiter d occurs in s starting at index i. */
  predicate OccursAt(s: string, i: nat, d: string)
  {
    i + |d| <= |s| && s[i..i + |d|] == d
  }

  /** The first index at or after `from` where d occurs in s. */
  function FirstOccurrence(s: string, d: string, from: nat): (r: Option<nat>)
    requires from <= |s|
    ensures r.Some? ==> from <= r.value && OccursAt(s, r.value, d)
    ensures r.Some? ==> forall j :: from <= j < r.value ==> !OccursAt(s, j, d)
    ensures r.None? ==> forall j :: from <= j <= |s| ==> !OccursAt(s, j, d)
    decreases |s| - from
  {
    if OccursAt(s, from, d) then Some(from)
    else if from == |s| then None
    else FirstOccurrence(s, d, from + 1)
  }

  /**
   * StringView::split: the pieces of s between occurrences of d, scanned
   * from the left. There is always one more piece than there are separators.
   */
  function Split(s: string, d: string): (pieces: seq<string>)
    requires |d| > 0
    ensures |pieces| >= 1
    decreases |s|
  {
    match FirstOccurrence(s, d, 0)
    case None => [s]
    case Some(i) => [s[..i]] + Split(s[i + |d|..], d)
  }

  /** The inverse of Split: the pieces glued back together with d. */
  function Join(pieces: seq<string>, d: string): string
    requires |pieces| >= 1
    decreases |pieces|
  {
    if |pieces| == 1 then pieces[0] else pieces[0] + d + Join(pieces[1..], d)
  }

  /** A text in which d does not occur. */
  predicate Free(s: string, d: string)
  {
    forall j :: 0 <= j <= |s| ==> !OccursAt(s, j, d)
  }

  /** Joining the pieces of a split gives the text back. */
  lemma {:induction false} SplitJoin(s: string, d: string)
    requires |d| > 0
    ensures Join(Split(s, d), d) == s
    decreases |s|
  {
    var r := FirstOccurrence(s, d, 0);
    if r.Some? {
      var i := r.value;
      var rest := s[i + |d|..];
      var tail := Split(rest, d);
      assert Split(s, d) == [s[..i]] + tail;
      SplitJoin(rest, d);
      JoinCons(s[..i], tail, d);
      assert s == s[..i] + d + rest by {
        assert s[i..i + |d|] == d;
      }
    }
  }

  lemma JoinCons(first: string, tail: seq<string>, d: string)
    requires |tail| >= 1
    ensures Join([first] + tail, d) == first + d + Join(tail, d)
  {
    assert ([first] + tail)[1..] == tail;
  }

  /** Joining two runs of pieces glues their joins with d. */
  lemma {:induction false} JoinAppend(a: seq<string>, b: seq<string>, d: string)
    requires |a| >= 1 && |b| >= 1
    ensures Join(a + b, d) == Join(a, d) + d + Join(b, d)
    decreases |a|
  {
    if |a| == 1 {
      JoinCons(a[0], b, d);
      assert a + b == [a[0]] + b;
    } else {
      JoinAppend(a[1..], b, d);
      assert (a + b)[1..] == a[1..] + b;
    }
  }

  /** A character in neither the pieces nor the delimiter is not in their join. */
  lemma {:induction false} JoinChars(pieces: seq<string>, d: string, c: char)
    requires |pieces| >= 1 && c !in d
    requires forall k :: 0 <= k < |pieces| ==> c !in pieces[k]
    ensures c !in Join(pieces, d)
    decreases |pieces|
  {
    if |pieces| > 1 {
      JoinChars(pieces[1..], d, c);
    }
  }

  /** Pieces of length n joined by a one-character delimiter take (n + 1)·|pieces| − 1 characters. */
  lemma {:induction false} JoinLength(pieces: seq<string>, d: string, n: nat)
    requires |pieces| >= 1 && |d| == 1
    requires forall k :: 0 <= k < |pieces| ==> |pieces[k]| == n
    ensures |Join(pieces, d)| == (n + 1) * |pieces| - 1
    decreases |pieces|
  {
    if |pieces| > 1 {
      JoinLength(pieces[1..], d, n);
    }
  }

  /** Pieces of at most n characters joined by a one-character delimiter take at most (n + 1)·|pieces| − 1. */
  lemma {:induction false} JoinLengthAtMost(pieces: seq<string>, d: string, n: nat)
    requires |pieces| >= 1 && |d| == 1
    requires forall k :: 0 <= k < |pieces| ==> |pieces[k]| <= n
    ensures |Join(pieces, d)| <= (n + 1) * |pieces| - 1
    decreases |pieces|
  {
    if |pieces| > 1 {
      JoinLengthAtMost(pieces[1..], d, n);
    }
  }

  /**
   * Splitting pieces joined with d gives the pieces back, when no piece
   * contains the first character of d.
   */
  lemma {:induction false} JoinSplit(pieces: seq<string>, d: string)
    requires |pieces| >= 1 && |d| > 0
    requires forall k :: 0 <= k < |pieces| ==> d[0] !in pieces[k]
    ensures Split(Join(pieces, d), d) == pieces
    decreases |pieces|
  {
    if |pieces| == 1 {
      FreeByFirst(pieces[0], d);
      SplitOfFree(pieces[0], d);
    } else {
      JoinSplit(pieces[1..], d);
      SplitPeelFirst(pieces[0], d, Join(pieces[1..], d));
      assert [pieces[0]] + pieces[1..] == pieces;
    }
  }

  /** Every piece of a split is free of the delimiter. */
  lemma {:induction false} SplitPiecesFree(s: string, d: string)
    requires |d| > 0
    ensures forall k :: 0 <= k < |Split(s, d)| ==> Free(Split(s, d)[k], d)
    decreases |s|
  {
    var r := FirstOccurrence(s, d, 0);
    if r.Some? {
      var i := r.value;
      var rest := s[i + |d|..];
      var p := Split(s, d);
      assert p == [s[..i]] + Split(rest, d);
      SplitPiecesFree(rest, d);
      PieceBeforeFirstFree(s, d, i);
      forall k | 1 <= k < |p|
        ensures Free(p[k], d)
      {
        assert p[k] == Split(rest, d)[k - 1];
      }
    }
  }

  /** The text before the first occurrence of d is free of d. */
  lemma PieceBeforeFirstFree(s: string, d: string, i: nat)
    requires |d| > 0 && FirstOccurrence(s, d, 0) == Some(i)
    ensures Free(s[..i], d)
  {
    var first := s[..i];
    forall j | 0 <= j <= |first|
      ensures !OccursAt(first, j, d)
    {
      if j + |d| <= |first| {
        assert first[j..j + |d|] == s[j..j + |d|];
        assert !OccursAt(s, j, d);
      }
    }
  }

  /** A text without the delimiter splits into itself alone. */
  lemma SplitOfFree(s: string, d: string)
    requires |d| > 0 && Free(s, d)
    ensures Split(s, d) == [s]
  {
  }

  /** Splitting a + d + b where a holds no d (not even one that runs into the d) peels off a. */
  lemma SplitPeel(a: string, d: string, b: string)
    requires |d| > 0
    requires forall j :: 0 <= j < |a| ==> !OccursAt(a + d + b, j, d)
    ensures Split(a + d + b, d) == [a] + Split(b, d)
  {
    var s := a + d + b;
    assert OccursAt(s, |a|, d) by { assert s[|a|..|a| + |d|] == d; }
    assert FirstOccurrence(s, d, 0) == Some(|a|);
    assert s[..|a|] == a;
    assert s[|a| + |d|..] == b;
  }

  /** A text that does not contain the delimiter's first character is free of it. */
  lemma FreeByFirst(s: string, d: string)
    requires |d| > 0 && d[0] !in s
    ensures Free(s, d)
  {
    forall j | 0 <= j <= |s| && j + |d| <= |s|
      ensures s[j..j + |d|][0] == s[j]
    {
    }
  }

  /** SplitPeel for the common case: the leading piece lacks the delimiter's first character. */
  lemma SplitPeelFirst(a: string, d: string, b: string)
    requires |d| > 0 && d[0] !in a
    ensures Split(a + d + b, d) == [a] + Split(b, d)
  {
    var s := a + d + b;
    forall j | 0 <= j < |a|
      ensures !OccursAt(s, j, d)
    {
      assert s[j] == a[j];
      if j + |d| <= |s| {
        assert s[j..j + |d|][0] == s[j];
      }
    }
    SplitPeel(a, d, b);
  }

  /** strtoul reads the longest run of decimal digits at the front of the text. */
  function DigitsPrefix(s: string): (r: string)
    ensures |r| <= |s| && r == s[..|r|] && AllDigits(r)
    ensures |r| < |s| ==> !IsDigit(s[|r|])
    decreases |s|
  {
    if |s| > 0 && IsDigit(s[0]) then [s[0]] + DigitsPrefix(s[1..]) else []
  }

  /** A text made only of digits is read whole. */
  lemma {:induction false} DigitsPrefixOfDigits(s: string)
    requires AllDigits(s)
    ensures DigitsPrefix(s) == s
    decreases |s|
  {
    if |s| > 0 {
      DigitsPrefixOfDigits(s[1..]);
    }
  }

  function DigitValue(c: char): nat
    requires IsDigit(c)
  {
    c as int - '0' as int
  }

  /** The value of a decimal numeral, most significant digit first. */
  function DecimalValue(digits: string): nat
    requires AllDigits(digits)
    decreases |digits|
  {
    if |digits| == 0 then 0
    else 10 * DecimalValue(digits[..|digits| - 1]) + DigitValue(digits[|digits| - 1])
  }

  /** The value of the leading decimal digits of s (0 when there are none). */
  function LeadingDecimal(s: string): nat
  {
    DecimalValue(DigitsPrefix(s))
  }

  /** The decimal numeral of n, most significant digit first, without leading zeros. */
  function DecimalText(n: nat): (r: string)
    ensures |r| >= 1 && AllDigits(r)
    decreases n
  {
    if n < 10 then [('0' as int + n) as char]
    else DecimalText(n / 10) + [('0' as int + n % 10) as char]
  }

  /** Reading back a printed numeral gives the number. */
  lemma {:induction false} DecimalRoundTrip(n: nat)
    ensures DecimalValue(DecimalText(n)) == n
    decreases n
  {
    var r := DecimalText(n);
    if n >= 10 {
      DecimalRoundTrip(n / 10);
      assert r[..|r| - 1] == DecimalText(n / 10);
    }
  }
}
