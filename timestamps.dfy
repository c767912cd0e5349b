/**
 * The `digits_digits` time marks of an utterance line: the first one parsed
 * (`re.search(r'(\d+)_(\d+)', text)`) and all of them removed
 * (`re.sub(r'\d+_\d+', '', text)`).
 */
module Timestamps {
  import opened Wrappers
  import opened Text

  datatype Timestamp = Timestamp(start: nat, end: nat)

  /** A digit, an underscore and a digit start at `i`: the text holds a time mark there. */
  predicate PairStart(s: string, i: int) {
    0 <= i && i + 2 < |s| && IsDigit(s[i]) && s[i + 1] == '_' && IsDigit(s[i + 2])
  }

  /** No time mark anywhere in `s`. */
  predicate NoPair(s: string) {
    forall i :: 0 <= i < |s| ==> !PairStart(s, i)
  }

  /**
   * The regex `\d+_\d+` tried at `p`: the greedy first run ends at `e`, the
   * underscore sits there and the second greedy run ends at `m`.  Backing the
   * first run off can never help, since the character after a shorter run
   * is a digit, not `_`.
   */
  function PairAt(s: string, p: nat): (r: Option<(nat, nat)>)
    requires p <= |s|
    ensures r.Some? ==> p < r.value.0 && r.value.0 + 1 < r.value.1 <= |s| && s[r.value.0] == '_'
    ensures r.Some? ==> AllDigits(s[p..r.value.0]) && AllDigits(s[r.value.0 + 1..r.value.1])
    ensures r.Some? ==> r.value.1 == |s| || !IsDigit(s[r.value.1])
    ensures r.Some? ==> PairStart(s, r.value.0 - 1)
  {
    if p < |s| && IsDigit(s[p]) then
      var e := Span(s, p, IsDigit);
      if e + 1 < |s| && s[e] == '_' && IsDigit(s[e + 1]) then
        var m := Span(s, e + 1, IsDigit);
        DigitRun(s, p);
        DigitRun(s, e + 1);
        Some((e, m))
      else None
    else None
  }

  /** Wherever a time mark starts, the regex matches from that position. */
  lemma PairAtStart(s: string, i: nat)
    requires PairStart(s, i)
    ensures PairAt(s, i).Some?
  {
    SpanStops(s, i, i + 1, IsDigit);
  }

  /** A digit that does not start a match is followed by a position that does not either. */
  lemma PairAtNext(s: string, p: nat)
    requires p + 1 < |s| && IsDigit(s[p]) && IsDigit(s[p + 1]) && PairAt(s, p).None?
    ensures PairAt(s, p + 1).None?
  {
    var e := Span(s, p + 1, IsDigit);
    SpanStops(s, p, e, IsDigit);
  }

  /** `re.search(r'(\d+)_(\d+)', s[p..])`, both groups read with `int`. */
  function FirstTimestamp(s: string, p: nat): (r: Option<Timestamp>)
    requires p <= |s|
    ensures r.Some? ==> exists i :: p <= i < |s| && PairStart(s, i)
    decreases |s| - p
  {
    if p == |s| then None
    else match PairAt(s, p)
      case Some((e, m)) => Some(Timestamp(DigitsValue(s[p..e]), DigitsValue(s[e + 1..m])))
      case None => FirstTimestamp(s, p + 1)
  }

  /** `re.sub(r'\d+_\d+', '', s[p..])`: left to right, matches do not overlap. */
  function RemovePairs(s: string, p: nat): (r: string)
    requires p <= |s|
    ensures |r| <= |s| - p
    decreases |s| - p
  {
    if p == |s| then []
    else match PairAt(s, p)
      case Some((_, m)) => RemovePairs(s, m)
      case None => [s[p]] + RemovePairs(s, p + 1)
  }

  /** The timestamp found is the one at the leftmost position where the pattern matches. */
  lemma {:induction false} FirstTimestampAt(s: string, p: nat, q: nat)
    requires p <= q <= |s| && PairAt(s, q).Some?
    requires forall j :: p <= j < q ==> PairAt(s, j).None?
    ensures FirstTimestamp(s, p) ==
      Some(Timestamp(DigitsValue(s[q..PairAt(s, q).value.0]),
                     DigitsValue(s[PairAt(s, q).value.0 + 1..PairAt(s, q).value.1])))
    decreases q - p
  {
    if p < q {
      FirstTimestampAt(s, p + 1, q);
    }
  }

  /** There is no timestamp exactly when the text holds no time mark. */
  lemma {:induction false} FirstTimestampNone(s: string, p: nat)
    requires p <= |s|
    ensures FirstTimestamp(s, p).None? <==> forall i :: p <= i < |s| ==> !PairStart(s, i)
    decreases |s| - p
  {
    if p < |s| {
      FirstTimestampNone(s, p + 1);
      match PairAt(s, p)
      case Some((e, m)) =>
      case None =>
        if PairStart(s, p) { PairAtStart(s, p); }
    }
  }

  /** Text without time marks is left as it is by the removal. */
  lemma {:induction false} RemoveNoPair(s: string, p: nat)
    requires p <= |s|
    requires forall i :: p <= i < |s| ==> !PairStart(s, i)
    ensures RemovePairs(s, p) == s[p..]
    decreases |s| - p
  {
    if p < |s| {
      assert PairAt(s, p).None?;
      RemoveNoPair(s, p + 1);
      assert s[p..] == [s[p]] + s[p + 1..];
    }
  }

  /**
   * The removal keeps the text before the leftmost match as it is and goes
   * on after the match: when the leftmost match from `p` spans `q` up to
   * `m`, the result is `s[p..q]` followed by the removal from `m`.
   */
  lemma {:induction false} RemovePairsAt(s: string, p: nat, q: nat)
    requires p <= q <= |s| && PairAt(s, q).Some?
    requires forall j :: p <= j < q ==> PairAt(s, j).None?
    ensures RemovePairs(s, p) == s[p..q] + RemovePairs(s, PairAt(s, q).value.1)
    decreases q - p
  {
    if p < q {
      var tail := RemovePairs(s, PairAt(s, q).value.1);
      RemovePairsAt(s, p + 1, q);
      CopyAt(s, p);
      HeadSlice(s, p, q, tail);
    }
  }

  lemma HeadSlice(s: string, p: nat, q: nat, tail: string)
    requires p < q <= |s|
    ensures [s[p]] + (s[p + 1..q] + tail) == s[p..q] + tail
  {
    assert s[p..q] == [s[p]] + s[p + 1..q];
  }

  /** Where no match starts, the character is copied. */
  lemma CopyAt(s: string, p: nat)
    requires p < |s| && PairAt(s, p).None?
    ensures RemovePairs(s, p) == [s[p]] + RemovePairs(s, p + 1)
  {
  }

  /** The removal is conservative at non-digits: a non-digit is copied. */
  lemma CopyNonDigit(s: string, p: nat)
    requires p < |s| && !IsDigit(s[p])
    ensures RemovePairs(s, p) == [s[p]] + RemovePairs(s, p + 1)
  {
  }

  /**
   * A character copied by the removal does not start a time mark with what
   * follows it in the result.
   */
  lemma NoPairAtHead(s: string, p: nat)
    requires p < |s| && PairAt(s, p).None?
    ensures !PairStart([s[p]] + RemovePairs(s, p + 1), 0)
  {
    if IsDigit(s[p]) && p + 1 < |s| {
      if IsDigit(s[p + 1]) {
        PairAtNext(s, p);
      } else {
        CopyNonDigit(s, p + 1);
        if s[p + 1] == '_' {
          SpanStops(s, p, p + 1, IsDigit);
          if p + 2 < |s| {
            CopyNonDigit(s, p + 2);
          }
        }
      }
    }
  }

  /**
   * After a removal the text holds no time mark: what is left between
   * matches cannot form one, and the characters on either side of a removed
   * match are not digits.
   */
  lemma {:induction false} RemovedHasNoPair(s: string, p: nat)
    requires p <= |s|
    ensures NoPair(RemovePairs(s, p))
    decreases |s| - p
  {
    if p < |s| {
      match PairAt(s, p)
      case Some((_, m)) =>
        RemovedHasNoPair(s, m);
      case None =>
        var rest := RemovePairs(s, p + 1);
        var r := [s[p]] + rest;
        RemovedHasNoPair(s, p + 1);
        assert r == RemovePairs(s, p);
        forall i | 0 <= i < |r| ensures !PairStart(r, i) {
          if i > 0 {
            assert !PairStart(rest, i - 1);
          } else {
            NoPairAtHead(s, p);
          }
        }
    }
  }

  /** Removing time marks twice is the same as removing them once. */
  lemma RemoveIdempotent(s: string)
    ensures RemovePairs(RemovePairs(s, 0), 0) == RemovePairs(s, 0)
  {
    var r := RemovePairs(s, 0);
    RemovedHasNoPair(s, 0);
    RemoveNoPair(r, 0);
  }

  /**
   * The text is changed by the removal exactly when a timestamp is found,
   * and then the result holds no mark.
   */
  lemma RemoveChangesIffTimestamp(s: string)
    ensures RemovePairs(s, 0) == s <==> FirstTimestamp(s, 0).None?
  {
    FirstTimestampNone(s, 0);
    RemovedHasNoPair(s, 0);
    if FirstTimestamp(s, 0).None? {
      RemoveNoPair(s, 0);
    }
  }
}
