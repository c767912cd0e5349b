/**
 * The regular-expression shapes the transcript code uses, each written out
 * with Python `re` semantics (leftmost match, greedy and lazy quantifiers,
 * backtracking) for the specific patterns involved.
 */
module Scan {
  import opened Wrappers
  import opened Text

  /**
   * `re.search(key + r'\s*(.*)', s)` followed by `group(1).strip()`:
   * the stripped rest of the line after the first occurrence of `key`.
   * The greedy `\s*` may run over line breaks before `(.*)` starts.
   */
  function FieldPayload(s: string, key: string): (r: Option<string>)
    ensures r.None? <==> !Contains(s, key)
  {
    match FindFrom(s, key, 0)
    case None => None
    case Some(i) => Some(RestOfLine(s, i + |key|))
  }

  /** `\s*(.*)` at `p`, stripped: skip whitespace, take the rest of that line. */
  function RestOfLine(s: string, p: nat): string
    requires p <= |s|
  {
    var q := SkipSpaces(s, p);
    Strip(s[q..LineEnd(s, q)])
  }

  /**
   * The text after a key cut the way `\s*(.*)` reads it: `w`, the
   * whitespace the greedy `\s*` takes (line breaks included); `u`, the rest
   * of the line where it stops; `t`, the line break ending that line and
   * everything after it.
   */
  ghost predicate PayloadSplit(rest: string, w: string, u: string, t: string) {
    rest == w + u + t &&
    (forall k :: 0 <= k < |w| ==> IsSpace(w[k])) &&
    (u + t == [] || !IsSpace((u + t)[0])) &&
    '\n' !in u && (t == [] || t[0] == '\n')
  }

  /**
   * With the key first found at `i` and the text after it cut as
   * `PayloadSplit` says, the payload is the stripped line part `u`.
   */
  lemma FieldPayloadValue(s: string, key: string, i: nat, w: string, u: string, t: string)
    requires FindFrom(s, key, 0) == Some(i)
    requires PayloadSplit(s[i + |key|..], w, u, t)
    ensures FieldPayload(s, key) == Some(Strip(u))
  {
    RestOfCut(s, i + |key|, w, u, t);
    FirstPayload(s, key, i, Strip(u));
  }

  /** The stripped rest of the line after `p` is the cut's `u`. */
  lemma RestOfCut(s: string, p: nat, w: string, u: string, t: string)
    requires p <= |s| && PayloadSplit(s[p..], w, u, t)
    ensures RestOfLine(s, p) == Strip(u)
  {
    var q := p + |w|;
    assert SkipSpaces(s, p) == q && s[q..] == u + t by { SkipOverCut(s, p, w, u, t); }
    assert q + |u| <= |s| && LineEnd(s, q) == q + |u| && s[q..q + |u|] == u by { LineOfCut(s, q, u, t); }
  }

  /** The greedy whitespace run at `p` is exactly the cut's `w`. */
  lemma SkipOverCut(s: string, p: nat, w: string, u: string, t: string)
    requires p <= |s| && PayloadSplit(s[p..], w, u, t)
    ensures SkipSpaces(s, p) == p + |w| && s[p + |w|..] == u + t
  {
    var r := s[p..];
    assert r == w + (u + t);
    forall k | p <= k < p + |w| ensures IsSpace(s[k]) { assert s[k] == r[k - p] == w[k - p]; }
    if p + |w| < |s| {
      assert s[p + |w|] == r[|w|] == (u + t)[0];
    }
    SkipSpacesStops(s, p, p + |w|);
    assert s[p + |w|..] == r[|w|..];
  }

  /** From `q`, the line runs over the cut's `u` and ends where `t` starts. */
  lemma LineOfCut(s: string, q: nat, u: string, t: string)
    requires q <= |s| && s[q..] == u + t && '\n' !in u && (t == [] || t[0] == '\n')
    ensures q + |u| <= |s| && LineEnd(s, q) == q + |u| && s[q..q + |u|] == u
  {
    var r := s[q..];
    assert s[q..q + |u|] == r[..|u|] == u;
    if q + |u| < |s| {
      assert s[q + |u|] == r[|u|] == t[0];
    }
    LineEndAt(s, q, q + |u|);
  }

  /** The key occurs in `s`, and the text after its first occurrence is cut into `w`, `u`, `t`. */
  ghost predicate KeyPayload(s: string, key: string, w: string, u: string, t: string) {
    Contains(s, key) && PayloadSplit(s[FindFrom(s, key, 0).value + |key|..], w, u, t)
  }

  /** When the key occurs, the text after its first occurrence has such a cut. */
  lemma FieldPayloadSplit(s: string, key: string)
    requires Contains(s, key)
    ensures exists w, u, t :: KeyPayload(s, key, w, u, t) && FieldPayload(s, key) == Some(Strip(u))
  {
    var i := FindFrom(s, key, 0).value;
    var w, u, t := Cut(s, i + |key|);
    FieldPayloadValue(s, key, i, w, u, t);
    assert KeyPayload(s, key, w, u, t);
  }

  /** Every rest of a text has such a cut. */
  lemma Cut(s: string, p: nat) returns (w: string, u: string, t: string)
    requires p <= |s|
    ensures PayloadSplit(s[p..], w, u, t)
  {
    var q := SkipSpaces(s, p);
    var e := LineEnd(s, q);
    var r := s[p..];
    CutAt(s, p, q, e);
    w, u, t := r[..q - p], r[q - p..e - p], r[e - p..];
  }

  /** The cut made where the whitespace after `p` stops and where that line ends. */
  lemma CutAt(s: string, p: nat, q: nat, e: nat)
    requires p <= |s| && q == SkipSpaces(s, p) && e == LineEnd(s, q)
    ensures var r := s[p..]; PayloadSplit(r, r[..q - p], r[q - p..e - p], r[e - p..])
  {
    var r := s[p..];
    var a, b := q - p, e - p;
    assert forall k :: 0 <= k < a ==> IsSpace(r[k]) by {
      forall k | 0 <= k < a ensures IsSpace(r[k]) { assert r[k] == s[p + k]; }
    }
    assert forall k :: a <= k < b ==> r[k] != '\n' by {
      forall k | a <= k < b ensures r[k] != '\n' { assert r[k] == s[p + k]; }
    }
    assert a < |r| ==> r[a] == s[q];
    assert b < |r| ==> r[b] == s[e];
    CutOf(r, a, b);
  }

  /** Cutting `r` where its leading whitespace stops and where that line ends. */
  lemma CutOf(r: string, a: nat, b: nat)
    requires a <= b <= |r|
    requires forall k :: 0 <= k < a ==> IsSpace(r[k])
    requires a < |r| ==> !IsSpace(r[a])
    requires forall k :: a <= k < b ==> r[k] != '\n'
    requires b < |r| ==> r[b] == '\n'
    ensures PayloadSplit(r, r[..a], r[a..b], r[b..])
  {
    var w, u, t := r[..a], r[a..b], r[b..];
    assert r == w + u + t;
    assert forall k :: 0 <= k < |w| ==> IsSpace(w[k]) by {
      forall k | 0 <= k < a ensures IsSpace(w[k]) { assert w[k] == r[k]; }
    }
    assert '\n' !in u by {
      forall k | 0 <= k < b - a ensures u[k] != '\n' { assert u[k] == r[a + k]; }
    }
    assert u + t == [] || !IsSpace((u + t)[0]) by {
      if u + t != [] { assert (u + t)[0] == r[a]; }
    }
  }

  /** At `p`: one space, then `v`, then the end of the text or a line break. */
  ghost predicate SpacedLine(s: string, p: nat, v: string) {
    p + 1 + |v| <= |s| && s[p] == ' ' && s[p + 1..p + 1 + |v|] == v &&
    (p + 1 + |v| == |s| || s[p + 1 + |v|] == '\n')
  }

  /** One space and then `v` on its own line at `p`: the stripped rest of the line is `v`. */
  lemma RestOfLineAt(s: string, p: nat, v: string)
    requires SpacedLine(s, p, v)
    requires v != [] && !IsSpace(v[0]) && !IsSpace(v[|v| - 1]) && '\n' !in v
    ensures RestOfLine(s, p) == v
  {
    var q := p + 1;
    var e := q + |v|;
    assert s[q] == v[0];
    SkipSpacesStops(s, p, q);
    LineEndAt(s, q, e);
    StripNoOp(v);
  }

  /** An occurrence of a key without a line break covers no line break. */
  lemma NoBreakInside(s: string, key: string, j: nat)
    requires OccursAt(s, key, j) && '\n' !in key
    ensures forall b :: j <= b < j + |key| ==> s[b] != '\n'
  {
    forall b | j <= b < j + |key| ensures s[b] != '\n' {
      assert s[b] == s[j..j + |key|][b - j];
    }
  }

  /** A key without a line break cannot start in `x` or run across the break after it. */
  lemma NoKeyBeforeBreak(x: string, y: string, key: string)
    requires !Contains(x, key) && '\n' !in key
    ensures forall j :: 0 <= j <= |x| ==> !OccursAt(x + "\n" + y, key, j)
  {
    var s := x + "\n" + y;
    forall j | 0 <= j <= |x| ensures !OccursAt(s, key, j) {
      if OccursAt(s, key, j) {
        NoBreakInside(s, key, j);
        assert s[|x|] == '\n';
        assert x[j..j + |key|] == s[j..j + |key|];
        assert OccursAt(x, key, j);
        ContainsIff(x, key);
      }
    }
  }

  /** Two texts without the key, joined by a line break, do not contain it. */
  lemma NoKeyAcross(x: string, y: string, key: string)
    requires !Contains(x, key) && !Contains(y, key) && '\n' !in key
    ensures !Contains(x + "\n" + y, key)
  {
    var s := x + "\n" + y;
    NoKeyBeforeBreak(x, y, key);
    forall j | |x| < j ensures !OccursAt(s, key, j) {
      if OccursAt(s, key, j) {
        assert y[j - |x| - 1..j - |x| - 1 + |key|] == s[j..j + |key|];
        assert OccursAt(y, key, j - |x| - 1);
        ContainsIff(y, key);
      }
    }
    ContainsIff(s, key);
  }

  /**
   * A field written as `key`, a space and `v` at the start of the line after
   * `x`, where `x` does not hold the key, is read back as `v`.
   */
  lemma FieldAfterBreak(x: string, key: string, v: string, rest: string)
    requires !Contains(x, key) && '\n' !in key
    requires v != [] && !IsSpace(v[0]) && !IsSpace(v[|v| - 1]) && '\n' !in v
    requires rest == [] || rest[0] == '\n'
    ensures FieldPayload(x + "\n" + (key + " " + v + rest), key) == Some(v)
  {
    var s := x + "\n" + (key + " " + v + rest);
    FieldFacts(s, x, key, v, rest);
    FirstPayload(s, key, |x| + 1, v);
  }

  /** The key sits first just after the line break, with `v` on its line. */
  lemma FieldFacts(s: string, x: string, key: string, v: string, rest: string)
    requires s == x + "\n" + (key + " " + v + rest)
    requires !Contains(x, key) && '\n' !in key
    requires v != [] && !IsSpace(v[0]) && !IsSpace(v[|v| - 1]) && '\n' !in v
    requires rest == [] || rest[0] == '\n'
    ensures FirstWith(s, key, |x| + 1, v)
  {
    assert OccursAt(s, key, |x| + 1) by { KeyAt(x, key, v, rest); }
    assert forall j :: 0 <= j < |x| + 1 ==> !OccursAt(s, key, j) by { NoKeyBeforeBreak(x, key + " " + v + rest, key); }
    assert RestOfLine(s, |x| + 1 + |key|) == v by {
      LineFacts(s, x, key, v, rest);
      RestOfLineAt(s, |x| + 1 + |key|, v);
    }
  }

  /** A first occurrence of the key, followed on its line by `v`, gives `v`. */
  ghost predicate FirstWith(s: string, key: string, i: nat, v: string) {
    OccursAt(s, key, i) && (forall j :: 0 <= j < i ==> !OccursAt(s, key, j)) &&
    RestOfLine(s, i + |key|) == v
  }

  lemma FirstPayload(s: string, key: string, i: nat, v: string)
    requires FirstWith(s, key, i, v)
    ensures FieldPayload(s, key) == Some(v)
  {
    FindFirst(s, key, 0, i);
  }

  lemma KeyAt(x: string, key: string, v: string, rest: string)
    ensures OccursAt(x + "\n" + (key + " " + v + rest), key, |x| + 1)
  {
    var t := " " + v + rest;
    var s := x + "\n" + (key + " " + v + rest);
    assert key + " " + v + rest == key + t;
    assert s[|x| + 1..] == key + t;
    assert s[|x| + 1..|x| + 1 + |key|] == (key + t)[..|key|];
  }

  /** The line after `x` holds `key`, a space and `v`: right after the key sits that spaced line. */
  lemma LineFacts(s: string, x: string, key: string, v: string, rest: string)
    requires s == x + "\n" + (key + " " + v + rest)
    requires rest == [] || rest[0] == '\n'
    ensures SpacedLine(s, |x| + 1 + |key|, v)
  {
    var p := |x| + 1 + |key|;
    assert s[p] == ' ';
    assert s[p + 1..p + 1 + |v|] == v;
  }


  /**
   * A lazy `.*?M` starting at `j`: the result of matcher `m` at the first
   * position of the current line (up to and including its line break) where
   * it matches.
   */
  function FirstInLine<T>(s: string, j: nat, m: (string, nat) -> Option<T>): Option<T>
    requires j <= |s|
    decreases |s| - j
  {
    match m(s, j)
    case Some(r) => Some(r)
    case None => if j < |s| && s[j] != '\n' then FirstInLine(s, j + 1, m) else None
  }

  /**
   * `\s*.*?M` at `p` where the greedy `\s*` first takes `k` whitespace
   * characters and backtracks one at a time.
   */
  function SpaceThenLazy<T>(s: string, p: nat, k: nat, m: (string, nat) -> Option<T>): Option<T>
    requires p + k <= |s|
    decreases k
  {
    match FirstInLine(s, p + k, m)
    case Some(r) => Some(r)
    case None => if k == 0 then None else SpaceThenLazy(s, p, k - 1, m)
  }

  /**
   * `re.search(lit + r'.*?M', s)` (when `ws` is false) or
   * `re.search(lit + r'\s*.*?M', s)` (when `ws` is true), trying the
   * occurrences of `lit` at or after `from` from left to right.
   */
  function SearchLazy<T>(s: string, lit: string, from: nat, ws: bool, m: (string, nat) -> Option<T>): Option<T> {
    SearchAt(s, lit, from, Lazy(ws, m))
  }

  /** The lazy part of the pattern tried from `p`, right after an occurrence of `lit`. */
  function LazyFrom<T>(s: string, ws: bool, m: (string, nat) -> Option<T>, p: nat): Option<T>
    requires p <= |s|
  {
    if ws then SpaceThenLazy(s, p, SkipSpaces(s, p) - p, m) else FirstInLine(s, p, m)
  }

  /** `LazyFrom` as the reader that `SearchAt` applies after each occurrence. */
  function Lazy<T>(ws: bool, m: (string, nat) -> Option<T>): (string, nat) -> Option<T> {
    (s: string, p: nat) => if p <= |s| then LazyFrom(s, ws, m, p) else None
  }

  /** The lazy part of the pattern tried after the occurrence of `lit` at `i`. */
  function LazyAt<T>(s: string, lit: string, ws: bool, m: (string, nat) -> Option<T>, i: nat): Option<T>
    requires OccursAt(s, lit, i)
  {
    LazyFrom(s, ws, m, i + |lit|)
  }

  /**
   * `re.search(lit + P)` for a pattern `P` that `m` reads right after
   * `lit`: the result of `m` after the first occurrence of `lit` (at or
   * after `from`) where it matches.
   */
  function SearchAt<T>(s: string, lit: string, from: nat, m: (string, nat) -> Option<T>): Option<T>
    decreases |s| + 1 - from
  {
    match FindFrom(s, lit, from)
    case None => None
    case Some(i) =>
      var found := m(s, i + |lit|);
      if found.Some? then found else SearchAt(s, lit, i + 1, m)
  }

  /** `m` fails after every occurrence of `lit` from `from` on. */
  ghost predicate MissesFrom<T>(s: string, lit: string, from: nat, m: (string, nat) -> Option<T>) {
    forall i :: from <= i && OccursAt(s, lit, i) ==> m(s, i + |lit|).None?
  }

  /** The search finds nothing exactly when `m` fails after every occurrence from `from` on. */
  lemma SearchAtNone<T>(s: string, lit: string, from: nat, m: (string, nat) -> Option<T>)
    ensures SearchAt(s, lit, from, m).None? <==> MissesFrom(s, lit, from, m)
  {
    if SearchAt(s, lit, from, m).None? {
      SearchAtMisses(s, lit, from, m);
    } else {
      SearchAtFound(s, lit, from, m);
    }
  }

  lemma {:induction false} SearchAtMisses<T>(s: string, lit: string, from: nat, m: (string, nat) -> Option<T>)
    requires SearchAt(s, lit, from, m).None?
    ensures MissesFrom(s, lit, from, m)
    decreases |s| + 1 - from
  {
    var f := FindFrom(s, lit, from);
    if f.None? {
      forall i | from <= i ensures !OccursAt(s, lit, i) {
        assert f.None?;
      }
    } else {
      var i := f.value;
      SearchAtMisses(s, lit, i + 1, m);
      assert m(s, i + |lit|).None?;
      forall j | from <= j < i ensures !OccursAt(s, lit, j) {
        assert f == Some(i);
      }
    }
  }

  /** What it finds is what `m` reads after some occurrence from `from` on. */
  lemma {:induction false} SearchAtFound<T>(s: string, lit: string, from: nat, m: (string, nat) -> Option<T>)
    requires SearchAt(s, lit, from, m).Some?
    ensures exists i :: from <= i && OccursAt(s, lit, i) && m(s, i + |lit|) == SearchAt(s, lit, from, m)
    decreases |s| + 1 - from
  {
    var i := FindFrom(s, lit, from).value;
    if m(s, i + |lit|).None? {
      SearchAtFound(s, lit, i + 1, m);
    }
  }

  /**
   * The search finds what `m` reads after the occurrence of `lit` at `i`
   * when `m` fails after every occurrence from `from` up to `i`.
   */
  lemma {:induction false} SearchAtFrom<T>(s: string, lit: string, from: nat, m: (string, nat) -> Option<T>, i: nat, v: T)
    requires from <= i && OccursAt(s, lit, i) && m(s, i + |lit|) == Some(v)
    requires forall j :: from <= j < i && OccursAt(s, lit, j) ==> m(s, j + |lit|).None?
    ensures SearchAt(s, lit, from, m) == Some(v)
    decreases i - from
  {
    var j := FindFrom(s, lit, from).value;
    if j < i {
      SearchAtFrom(s, lit, j + 1, m, i, v);
    }
  }

  /** `M` read after the greedy whitespace that starts at `p`. */
  function Spaced<T>(m: (string, nat) -> Option<T>): (string, nat) -> Option<T> {
    (s: string, p: nat) => if p <= |s| then m(s, SkipSpaces(s, p)) else None
  }

  /**
   * `re.search(lit + r'\s*M', s)` for a pattern `M` that cannot start with
   * whitespace, so that the greedy `\s*` never gives characters back: the
   * result of `m` right after the whitespace that follows the first
   * occurrence of `lit` (at or after `from`) where it matches.
   */
  function SearchSpaced<T>(s: string, lit: string, from: nat, m: (string, nat) -> Option<T>): Option<T> {
    SearchAt(s, lit, from, Spaced(m))
  }

  /** What the pattern gives when the match starts at `i`. */
  function SpacedAt<T>(s: string, lit: string, m: (string, nat) -> Option<T>, i: nat): Option<T> {
    if OccursAt(s, lit, i) then m(s, SkipSpaces(s, i + |lit|)) else None
  }

  /** The search finds nothing exactly when the pattern matches at no start from `from` on. */
  lemma SearchSpacedNone<T>(s: string, lit: string, from: nat, m: (string, nat) -> Option<T>)
    ensures SearchSpaced(s, lit, from, m).None? <==> forall i :: from <= i ==> SpacedAt(s, lit, m, i).None?
  {
    SearchAtNone(s, lit, from, Spaced(m));
    if MissesFrom(s, lit, from, Spaced(m)) {
      SpacedMisses(s, lit, from, m);
    } else {
      SpacedFinds(s, lit, from, m);
    }
  }

  lemma SpacedMisses<T>(s: string, lit: string, from: nat, m: (string, nat) -> Option<T>)
    requires MissesFrom(s, lit, from, Spaced(m))
    ensures forall i :: from <= i ==> SpacedAt(s, lit, m, i).None?
  {
    forall i | from <= i ensures SpacedAt(s, lit, m, i).None? {
      if OccursAt(s, lit, i) {
        assert Spaced(m)(s, i + |lit|).None?;
      }
    }
  }

  lemma SpacedFinds<T>(s: string, lit: string, from: nat, m: (string, nat) -> Option<T>)
    requires !MissesFrom(s, lit, from, Spaced(m))
    ensures exists i :: from <= i && SpacedAt(s, lit, m, i).Some?
  {
    var i :| from <= i && OccursAt(s, lit, i) && Spaced(m)(s, i + |lit|).Some?;
    assert SpacedAt(s, lit, m, i).Some?;
  }

  /**
   * The search finds what the pattern gives at `i` when it misses at every
   * start from `from` up to `i`: the leftmost match starts at `i`.
   */
  lemma SearchSpacedFrom<T>(s: string, lit: string, from: nat, m: (string, nat) -> Option<T>, i: nat, v: T)
    requires from <= i && SpacedAt(s, lit, m, i) == Some(v)
    requires forall j :: from <= j < i ==> SpacedAt(s, lit, m, j).None?
    ensures SearchSpaced(s, lit, from, m) == Some(v)
  {
    forall j | from <= j < i && OccursAt(s, lit, j) ensures Spaced(m)(s, j + |lit|).None? {
      assert SpacedAt(s, lit, m, j).None?;
    }
    SearchAtFrom(s, lit, from, Spaced(m), i, v);
  }

  /** Whitespace `ws` at `j` followed by a non-space: `SkipSpaces` steps over exactly `ws`. */
  lemma SkipOver(s: string, j: nat, ws: string, t: string)
    requires j <= |s| && s[j..] == ws + t
    requires forall k :: 0 <= k < |ws| ==> IsSpace(ws[k])
    requires t != [] && !IsSpace(t[0])
    ensures SkipSpaces(s, j) == j + |ws| && s[j + |ws|..] == t
  {
    forall k | j <= k < j + |ws| ensures IsSpace(s[k]) { assert s[k] == s[j..][k - j]; }
    assert s[j + |ws|] == s[j..][|ws|];
    SkipSpacesStops(s, j, j + |ws|);
    assert s[j + |ws|..] == s[j..][|ws|..];
  }

  /** A non-empty digit run at `j` followed by a non-digit: `DigitsAt` reads exactly that run. */
  lemma DigitsAtSuffix(s: string, j: nat, run: string, rest: string)
    requires j <= |s| && s[j..] == run + rest
    requires run != [] && AllDigits(run) && rest != [] && !IsDigit(rest[0])
    ensures DigitsAt(s, j) == Some((run, j + |run|)) && s[j + |run|..] == rest
  {
    forall k | j <= k < j + |run| ensures IsDigit(s[k]) { assert s[k] == s[j..][k - j]; }
    assert s[j + |run|] == s[j..][|run|];
    SpanStops(s, j, j + |run|, IsDigit);
    assert s[j..j + |run|] == s[j..][..|run|];
    assert s[j + |run|..] == s[j..][|run|..];
  }

  /** A digit run then `close`, from `j`: the run and the position after `close`. */
  function RunThen(s: string, j: nat, close: char): (r: Option<(string, nat)>)
    ensures r.Some? ==> r.value.0 != [] && AllDigits(r.value.0) && j + |r.value.0| + 1 == r.value.1 <= |s|
    ensures r.Some? ==> s[j..j + |r.value.0|] == r.value.0 && s[r.value.1 - 1] == close
  {
    match DigitsAt(s, j)
    case None => None
    case Some((a, e)) => if e < |s| && s[e] == close then Some((a, e + 1)) else None
  }

  /** A digit run and `close` at `j`: `RunThen` reads the run and steps past `close`. */
  lemma RunAt(s: string, j: nat, run: string, close: char, rest: string)
    requires j <= |s| && s[j..] == run + ([close] + rest)
    requires run != [] && AllDigits(run) && !IsDigit(close)
    ensures RunThen(s, j, close) == Some((run, j + |run| + 1)) && s[j + |run| + 1..] == rest
  {
    DigitsAtSuffix(s, j, run, [close] + rest);
    assert s[j + |run|..][1..] == rest;
  }

  /** A run without `stop` and then `stop` at `j`: `RunUntil` stops right at it. */
  lemma UntilAt(s: string, j: nat, run: string, stop: char, rest: string)
    requires j <= |s| && s[j..] == run + ([stop] + rest)
    requires stop !in run
    ensures RunUntil(s, j, stop) == j + |run| && s[j..j + |run|] == run && s[j + |run|..] == [stop] + rest
  {
    forall k | j <= k < j + |run| ensures s[k] != stop { assert s[k] == s[j..][k - j]; }
    assert s[j + |run|] == s[j..][|run|];
    SpanStops(s, j, j + |run|, c => c != stop);
    assert s[j..j + |run|] == s[j..][..|run|];
    assert s[j + |run|..] == s[j..][|run|..];
  }

  /** A literal at the front of the text after `p`. */
  lemma LitAt(s: string, p: nat, lit: string, rest: string)
    requires p <= |s| && s[p..] == lit + rest
    ensures OccursAt(s, lit, p) && s[p + |lit|..] == rest
  {
    assert s[p..p + |lit|] == s[p..][..|lit|];
    assert s[p + |lit|..] == s[p..][|lit|..];
  }

  /**
   * A key whose first character does not recur in it occurs first right
   * after a text that does not hold it.
   */
  lemma FirstAfter(pre: string, key: string, rest: string)
    requires key != [] && !Contains(pre, key)
    requires forall k :: 0 < k < |key| ==> key[k] != key[0]
    ensures FindFrom(pre + key + rest, key, 0) == Some(|pre|)
  {
    var s := pre + key + rest;
    forall j | 0 <= j < |pre| ensures !OccursAt(s, key, j) {
      if j + |key| <= |pre| {
        if OccursAt(s, key, j) {
          assert pre[j..j + |key|] == s[j..j + |key|];
          assert OccursAt(pre, key, j);
          ContainsIff(pre, key);
        }
      } else if j + |key| <= |s| {
        assert s[j..j + |key|][|pre| - j] == key[0];
        assert key[|pre| - j] != key[0];
      }
    }
    assert s[|pre|..|pre| + |key|] == key;
    FindFirst(s, key, 0, |pre|);
  }

  /** The end of the run of characters other than `stop` starting at `from`. */
  function RunUntil(s: string, from: nat, stop: char): (e: nat)
    requires from <= |s|
    ensures from <= e <= |s|
    ensures forall j :: from <= j < e ==> s[j] != stop
    ensures e < |s| ==> s[e] == stop
  {
    Span(s, from, c => c != stop)
  }

  /** Every character of `v` occurs in `s`. */
  predicate Within(v: string, s: string) {
    forall c :: c in v ==> c in s
  }

  /** A slice holds only characters of the text it is cut from. */
  lemma SliceWithin(s: string, a: nat, b: nat)
    requires a <= b <= |s|
    ensures Within(s[a..b], s)
  {
    forall c | c in s[a..b] ensures c in s {
      var j :| 0 <= j < b - a && s[a..b][j] == c;
      assert s[a + j] == c;
    }
  }

  /**
   * `\s{min,}([^stop]+)` at `p` where the greedy whitespace part first takes
   * `k` characters and backtracks one at a time: the captured run, or `None`.
   */
  function SpaceThenRun(s: string, p: nat, k: nat, minWs: nat, stop: char): (r: Option<string>)
    requires p + k <= |s|
    ensures r.Some? ==> r.value != [] && stop !in r.value && Within(r.value, s)
    decreases k
  {
    if k < minWs then None
    else if p + k < |s| && s[p + k] != stop then
      var e := RunUntil(s, p + k, stop);
      SliceWithin(s, p + k, e);
      Some(s[p + k..e])
    else if k == 0 then None
    else SpaceThenRun(s, p, k - 1, minWs, stop)
  }

  /**
   * `re.search(lit + r'\s*([^stop]+)', s)` (`minWs` 0) or
   * `re.search(lit + r'\s+([^stop]+)', s)` (`minWs` 1): `group(1)` of the
   * leftmost match, trying occurrences of `lit` at or after `from`.
   */
  function SearchRun(s: string, lit: string, from: nat, minWs: nat, stop: char): (r: Option<string>)
    ensures r.Some? ==> r.value != [] && stop !in r.value && Within(r.value, s)
    decreases |s| + 1 - from
  {
    match FindFrom(s, lit, from)
    case None => None
    case Some(i) =>
      var found := GroupAt(s, lit, minWs, stop, i);
      if found.Some? then found else SearchRun(s, lit, i + 1, minWs, stop)
  }

  /** The group `lit\s{min,}([^stop]+)` captures when started at the occurrence of `lit` at `i`. */
  function GroupAt(s: string, lit: string, minWs: nat, stop: char, i: nat): (r: Option<string>)
    requires OccursAt(s, lit, i)
    ensures r.Some? ==> r.value != [] && stop !in r.value && Within(r.value, s)
  {
    var p := i + |lit|;
    SpaceThenRun(s, p, SkipSpaces(s, p) - p, minWs, stop)
  }

  /** `[^stop]+` can start at `q`: a character of the text other than `stop`. */
  predicate Opens(s: string, q: nat, stop: char) {
    q < |s| && s[q] != stop
  }

  /** The run of characters other than `stop` from `q` on, as `[^stop]+` takes it. */
  function RunGroup(s: string, q: nat, stop: char): string
    requires q <= |s|
  {
    s[q..RunUntil(s, q, stop)]
  }

  /**
   * Started at the occurrence of `lit` at `i`, `\s{min,}([^stop]+)` may open
   * its group at `q`: past at least `minWs` and at most all of the whitespace
   * that follows `lit`.
   */
  ghost predicate RunOpens(s: string, lit: string, i: nat, minWs: nat, stop: char, q: nat) {
    var p := i + |lit|;
    p <= |s| && p + minWs <= q <= SkipSpaces(s, p) && Opens(s, q, stop)
  }

  /** `lit\s{min,}([^stop]+)` started at `i` finds nothing. */
  ghost predicate RunMisses(s: string, lit: string, minWs: nat, stop: char, i: nat) {
    OccursAt(s, lit, i) ==> forall q :: !RunOpens(s, lit, i, minWs, stop, q)
  }

  /** Started at `i`, the match opens its group at `q`: the greedy whitespace gives back no more than it must. */
  ghost predicate RunFrom(s: string, lit: string, minWs: nat, stop: char, i: nat, q: nat) {
    OccursAt(s, lit, i) && RunOpens(s, lit, i, minWs, stop, q) &&
    forall q' :: q < q' ==> !RunOpens(s, lit, i, minWs, stop, q')
  }

  /** The leftmost match from `from` on starts at `i` and opens its group at `q`. */
  ghost predicate Capture(s: string, lit: string, from: nat, minWs: nat, stop: char, i: nat, q: nat) {
    from <= i && RunFrom(s, lit, minWs, stop, i, q) &&
    forall j :: from <= j < i ==> RunMisses(s, lit, minWs, stop, j)
  }

  /** Backtracking from `p + k` down to `p + minWs` finds nothing exactly when no position in between opens a run. */
  lemma {:induction false} SpaceThenRunNone(s: string, p: nat, k: nat, minWs: nat, stop: char)
    requires p + k <= |s|
    ensures SpaceThenRun(s, p, k, minWs, stop).None? <==> forall q :: p + minWs <= q <= p + k ==> !Opens(s, q, stop)
    decreases k
  {
    if k >= minWs && !Opens(s, p + k, stop) && k > 0 {
      SpaceThenRunNone(s, p, k - 1, minWs, stop);
    }
  }

  /** Otherwise it takes the run from the last position that opens one. */
  lemma {:induction false} SpaceThenRunSome(s: string, p: nat, k: nat, minWs: nat, stop: char)
    requires p + k <= |s| && SpaceThenRun(s, p, k, minWs, stop).Some?
    ensures exists q ::
      && p + minWs <= q <= p + k && Opens(s, q, stop)
      && (forall q' :: q < q' <= p + k ==> !Opens(s, q', stop))
      && SpaceThenRun(s, p, k, minWs, stop).value == RunGroup(s, q, stop)
    decreases k
  {
    if Opens(s, p + k, stop) {
      assert SpaceThenRun(s, p, k, minWs, stop).value == RunGroup(s, p + k, stop);
    } else {
      SpaceThenRunSome(s, p, k - 1, minWs, stop);
    }
  }

  /** At an occurrence of `lit`, the group search gives nothing exactly when the pattern misses there. */
  lemma GroupAtNone(s: string, lit: string, minWs: nat, stop: char, i: nat)
    requires OccursAt(s, lit, i)
    ensures GroupAt(s, lit, minWs, stop, i).None? <==> RunMisses(s, lit, minWs, stop, i)
  {
    var p := i + |lit|;
    var e := SkipSpaces(s, p);
    SpaceThenRunNone(s, p, e - p, minWs, stop);
    if RunMisses(s, lit, minWs, stop, i) {
      forall q | p + minWs <= q <= e ensures !Opens(s, q, stop) {
        assert !RunOpens(s, lit, i, minWs, stop, q);
      }
    }
  }

  /** Otherwise it gives the group of the place where the match opens it. */
  lemma GroupAtSome(s: string, lit: string, minWs: nat, stop: char, i: nat)
    requires OccursAt(s, lit, i) && GroupAt(s, lit, minWs, stop, i).Some?
    ensures exists q :: RunFrom(s, lit, minWs, stop, i, q) && GroupAt(s, lit, minWs, stop, i).value == RunGroup(s, q, stop)
  {
    var p := i + |lit|;
    var e := SkipSpaces(s, p);
    SpaceThenRunSome(s, p, e - p, minWs, stop);
    var q :| p + minWs <= q <= e && Opens(s, q, stop) && (forall q' :: q < q' <= e ==> !Opens(s, q', stop)) &&
      GroupAt(s, lit, minWs, stop, i).value == RunGroup(s, q, stop);
    assert RunFrom(s, lit, minWs, stop, i, q);
  }

  /** The run search finds nothing exactly when the pattern misses at every start from `from` on. */
  lemma {:induction false} SearchRunNone(s: string, lit: string, from: nat, minWs: nat, stop: char)
    ensures SearchRun(s, lit, from, minWs, stop).None? <==> forall i :: from <= i ==> RunMisses(s, lit, minWs, stop, i)
    decreases |s| + 1 - from
  {
    match FindFrom(s, lit, from)
    case None =>
      forall i | from <= i ensures RunMisses(s, lit, minWs, stop, i) {
        assert !OccursAt(s, lit, i);
      }
    case Some(i) =>
      SearchRunNone(s, lit, i + 1, minWs, stop);
      GroupAtNone(s, lit, minWs, stop, i);
      if SearchRun(s, lit, from, minWs, stop).None? {
        RunStepNone(s, lit, from, minWs, stop, i);
      } else {
        RunStepSome(s, lit, from, minWs, stop, i);
      }
  }

  lemma RunStepNone(s: string, lit: string, from: nat, minWs: nat, stop: char, i: nat)
    requires FindFrom(s, lit, from) == Some(i) && SearchRun(s, lit, from, minWs, stop).None?
    requires SearchRun(s, lit, i + 1, minWs, stop).None? ==> forall j :: i + 1 <= j ==> RunMisses(s, lit, minWs, stop, j)
    requires GroupAt(s, lit, minWs, stop, i).None? ==> RunMisses(s, lit, minWs, stop, i)
    ensures forall j :: from <= j ==> RunMisses(s, lit, minWs, stop, j)
  {
    forall j | from <= j ensures RunMisses(s, lit, minWs, stop, j) {
      if j < i {
        assert !OccursAt(s, lit, j);
      }
    }
  }

  lemma RunStepSome(s: string, lit: string, from: nat, minWs: nat, stop: char, i: nat)
    requires FindFrom(s, lit, from) == Some(i) && SearchRun(s, lit, from, minWs, stop).Some?
    requires (forall j :: i + 1 <= j ==> RunMisses(s, lit, minWs, stop, j)) ==> SearchRun(s, lit, i + 1, minWs, stop).None?
    requires RunMisses(s, lit, minWs, stop, i) ==> GroupAt(s, lit, minWs, stop, i).None?
    ensures !forall j :: from <= j ==> RunMisses(s, lit, minWs, stop, j)
  {
  }

  /** A group found by the run search is the one its leftmost match captures. */
  lemma {:induction false} SearchRunCapture(s: string, lit: string, from: nat, minWs: nat, stop: char)
    requires SearchRun(s, lit, from, minWs, stop).Some?
    ensures exists i, q ::
      Capture(s, lit, from, minWs, stop, i, q) && SearchRun(s, lit, from, minWs, stop).value == RunGroup(s, q, stop)
    decreases |s| + 1 - from
  {
    var i := FindFrom(s, lit, from).value;
    var g := GroupAt(s, lit, minWs, stop, i);
    if g.Some? {
      GroupAtSome(s, lit, minWs, stop, i);
      var q :| RunFrom(s, lit, minWs, stop, i, q) && g.value == RunGroup(s, q, stop);
      CaptureFirst(s, lit, from, minWs, stop, i, q);
    } else {
      GroupAtNone(s, lit, minWs, stop, i);
      SearchRunCapture(s, lit, i + 1, minWs, stop);
      var i', q :| Capture(s, lit, i + 1, minWs, stop, i', q) &&
        SearchRun(s, lit, i + 1, minWs, stop).value == RunGroup(s, q, stop);
      CaptureBack(s, lit, from, minWs, stop, i, i', q);
    }
  }

  lemma CaptureFirst(s: string, lit: string, from: nat, minWs: nat, stop: char, i: nat, q: nat)
    requires FindFrom(s, lit, from) == Some(i) && RunFrom(s, lit, minWs, stop, i, q)
    ensures Capture(s, lit, from, minWs, stop, i, q)
  {
    forall j | from <= j < i ensures RunMisses(s, lit, minWs, stop, j) {
      assert !OccursAt(s, lit, j);
    }
  }

  lemma CaptureBack(s: string, lit: string, from: nat, minWs: nat, stop: char, i: nat, i': nat, q: nat)
    requires FindFrom(s, lit, from) == Some(i) && RunMisses(s, lit, minWs, stop, i)
    requires Capture(s, lit, i + 1, minWs, stop, i', q)
    ensures Capture(s, lit, from, minWs, stop, i', q)
  {
    forall j | from <= j < i' ensures RunMisses(s, lit, minWs, stop, j) {
      if j < i {
        assert !OccursAt(s, lit, j);
      }
    }
  }

  /** When the run search finds nothing, nothing is captured. */
  lemma SearchRunNoCapture(s: string, lit: string, from: nat, minWs: nat, stop: char)
    requires SearchRun(s, lit, from, minWs, stop).None?
    ensures forall i, q :: !Capture(s, lit, from, minWs, stop, i, q)
  {
    SearchRunNone(s, lit, from, minWs, stop);
    forall i, q ensures !Capture(s, lit, from, minWs, stop, i, q) {
      assert from <= i ==> RunMisses(s, lit, minWs, stop, i);
    }
  }

  /** A group the run search finds is the one any leftmost match captures, and there is one. */
  lemma SearchRunCaptured(s: string, lit: string, from: nat, minWs: nat, stop: char)
    requires SearchRun(s, lit, from, minWs, stop).Some?
    ensures exists i, q :: Capture(s, lit, from, minWs, stop, i, q)
    ensures forall i, q :: Capture(s, lit, from, minWs, stop, i, q) ==>
      SearchRun(s, lit, from, minWs, stop).value == RunGroup(s, q, stop)
  {
    SearchRunCapture(s, lit, from, minWs, stop);
    var i0, q0 :| Capture(s, lit, from, minWs, stop, i0, q0) &&
      SearchRun(s, lit, from, minWs, stop).value == RunGroup(s, q0, stop);
    forall i, q | Capture(s, lit, from, minWs, stop, i, q)
      ensures SearchRun(s, lit, from, minWs, stop).value == RunGroup(s, q, stop)
    {
      CaptureUnique(s, lit, from, minWs, stop, i0, q0, i, q);
    }
  }

  /** There is one leftmost match, and it opens its group at one place. */
  lemma CaptureUnique(s: string, lit: string, from: nat, minWs: nat, stop: char, i: nat, q: nat, i': nat, q': nat)
    requires Capture(s, lit, from, minWs, stop, i, q) && Capture(s, lit, from, minWs, stop, i', q')
    ensures i == i' && q == q'
  {
    assert i < i' ==> RunMisses(s, lit, minWs, stop, i);
    assert i' < i ==> RunMisses(s, lit, minWs, stop, i');
  }

  /** A non-empty maximal run of digits starting at `j`, and where it ends. */
  function DigitsAt(s: string, j: nat): (r: Option<(string, nat)>)
    ensures r.Some? ==> j < r.value.1 <= |s| && r.value.0 == s[j..r.value.1] && AllDigits(r.value.0)
    ensures r.Some? ==> r.value.1 == |s| || !IsDigit(s[r.value.1])
  {
    if j < |s| && IsDigit(s[j]) then
      var e := Span(s, j, IsDigit);
      Some((s[j..e], e))
    else None
  }

  /** From `j` up to `k` the text stays on one line and `m` matches nowhere. */
  predicate NoneOnLine<T>(s: string, j: nat, k: nat, m: (string, nat) -> Option<T>) {
    forall q :: j <= q < k && q < |s| ==> s[q] != '\n' && m(s, q).None?
  }

  /**
   * The lazy search along a line finds the match at `k` when every earlier
   * position from `j` on is on the same line and does not match.
   */
  lemma {:induction false} FirstInLineAt<T>(s: string, j: nat, k: nat, m: (string, nat) -> Option<T>)
    requires j <= k <= |s|
    requires m(s, k).Some?
    requires NoneOnLine(s, j, k, m)
    ensures FirstInLine(s, j, m) == m(s, k)
    decreases k - j
  {
    if j < k {
      FirstInLineAt(s, j + 1, k, m);
    }
  }

  /** Where the lazy part starts looking after the occurrence of `lit` at `i`: past the whitespace when `ws`. */
  function LazyStart(s: string, lit: string, ws: bool, i: nat): (q: nat)
    requires OccursAt(s, lit, i)
    ensures i + |lit| <= q <= |s|
  {
    if ws then SkipSpaces(s, i + |lit|) else i + |lit|
  }

  /**
   * Started at the occurrence of `lit` at `i`, the lazy part finds the
   * match at `k` when every position from where it starts looking up to `k`
   * is on one line and does not match.
   */
  lemma LazyAtFound<T>(s: string, lit: string, ws: bool, m: (string, nat) -> Option<T>, i: nat, k: nat)
    requires OccursAt(s, lit, i)
    requires LazyStart(s, lit, ws, i) <= k <= |s| && m(s, k).Some?
    requires NoneOnLine(s, LazyStart(s, lit, ws, i), k, m)
    ensures LazyAt(s, lit, ws, m, i) == m(s, k)
  {
    var p := i + |lit|;
    FirstInLineAt(s, LazyStart(s, lit, ws, i), k, m);
    if ws {
      assert SpaceThenLazy(s, p, SkipSpaces(s, p) - p, m) == FirstInLine(s, SkipSpaces(s, p), m);
    }
  }


  /**
   * The lazy search finds what the pattern gives at the occurrence of `lit`
   * at `i` when it misses at every start from `from` up to `i`.
   */
  lemma SearchLazyFrom<T>(s: string, lit: string, from: nat, ws: bool, m: (string, nat) -> Option<T>, i: nat, v: T)
    requires from <= i && OccursAt(s, lit, i) && LazyAt(s, lit, ws, m, i) == Some(v)
    requires forall j :: from <= j < i ==> LazyMisses(s, lit, ws, m, j)
    ensures SearchLazy(s, lit, from, ws, m) == Some(v)
  {
    forall j | from <= j < i && OccursAt(s, lit, j) ensures Lazy(ws, m)(s, j + |lit|).None? {
      LazyAtNone(s, lit, ws, m, j);
    }
    SearchAtFrom(s, lit, from, Lazy(ws, m), i, v);
  }

  /**
   * `lit.*?M` (or `lit\s*.*?M` when `ws`) started at `i` finds nothing: if
   * `lit` occurs there, `M` matches at no position from the end of the
   * literal up to the end of the line where the greedy whitespace stops.
   */
  ghost predicate LazyMisses<T>(s: string, lit: string, ws: bool, m: (string, nat) -> Option<T>, i: nat) {
    OccursAt(s, lit, i) ==>
      var p := i + |lit|;
      forall q :: p <= q <= LineEnd(s, if ws then SkipSpaces(s, p) else p) ==> m(s, q).None?
  }

  /** The lazy search finds nothing exactly when the pattern matches at no start from `from` on. */
  lemma SearchLazyNone<T>(s: string, lit: string, from: nat, ws: bool, m: (string, nat) -> Option<T>)
    ensures SearchLazy(s, lit, from, ws, m).None? <==> forall i :: from <= i ==> LazyMisses(s, lit, ws, m, i)
  {
    SearchAtNone(s, lit, from, Lazy(ws, m));
    if MissesFrom(s, lit, from, Lazy(ws, m)) {
      LazyMissesAll(s, lit, from, ws, m);
    } else {
      LazyFinds(s, lit, from, ws, m);
    }
  }

  lemma LazyMissesAll<T>(s: string, lit: string, from: nat, ws: bool, m: (string, nat) -> Option<T>)
    requires MissesFrom(s, lit, from, Lazy(ws, m))
    ensures forall i :: from <= i ==> LazyMisses(s, lit, ws, m, i)
  {
    forall i | from <= i ensures LazyMisses(s, lit, ws, m, i) {
      if OccursAt(s, lit, i) {
        LazyAtNone(s, lit, ws, m, i);
      }
    }
  }

  lemma LazyFinds<T>(s: string, lit: string, from: nat, ws: bool, m: (string, nat) -> Option<T>)
    requires !MissesFrom(s, lit, from, Lazy(ws, m))
    ensures exists i :: from <= i && !LazyMisses(s, lit, ws, m, i)
  {
    var i :| from <= i && OccursAt(s, lit, i) && Lazy(ws, m)(s, i + |lit|).Some?;
    LazyAtNone(s, lit, ws, m, i);
  }

  /** At an occurrence of `lit`, the line search finds nothing exactly when the pattern misses there. */
  lemma LazyAtNone<T>(s: string, lit: string, ws: bool, m: (string, nat) -> Option<T>, i: nat)
    requires OccursAt(s, lit, i)
    ensures LazyAt(s, lit, ws, m, i).None? <==> LazyMisses(s, lit, ws, m, i)
  {
    var p := i + |lit|;
    if ws {
      SpaceThenLazyNone(s, p, SkipSpaces(s, p) - p, m);
    } else {
      FirstInLineNone(s, p, m);
    }
  }

  /** The search along one line finds nothing exactly when `m` matches nowhere up to its end. */
  lemma {:induction false} FirstInLineNone<T>(s: string, j: nat, m: (string, nat) -> Option<T>)
    requires j <= |s|
    ensures FirstInLine(s, j, m).None? <==> forall q :: j <= q <= LineEnd(s, j) ==> m(s, q).None?
    decreases |s| - j
  {
    if m(s, j).None? && j < |s| && s[j] != '\n' {
      FirstInLineNone(s, j + 1, m);
    }
  }

  /**
   * Backtracking over `k` whitespace characters and searching each line
   * finds nothing exactly when `m` matches nowhere from `p` to the end of the
   * line holding `p + k`.
   */
  lemma {:induction false} SpaceThenLazyNone<T>(s: string, p: nat, k: nat, m: (string, nat) -> Option<T>)
    requires p + k <= |s|
    ensures SpaceThenLazy(s, p, k, m).None? <==> forall q :: p <= q <= LineEnd(s, p + k) ==> m(s, q).None?
    decreases k
  {
    FirstInLineNone(s, p + k, m);
    if k > 0 {
      SpaceThenLazyNone(s, p, k - 1, m);
      assert LineEnd(s, p + k - 1) == if s[p + k - 1] == '\n' then p + k - 1 else LineEnd(s, p + k);
    }
  }
}
