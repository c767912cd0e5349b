/** Optional values: Python's `None` versus a present value. */
module Wrappers {
  datatype Option<T> = None | Some(value: T)
}

/**
 * String primitives used by every transcript module, given Python's
 * meaning: `str.strip`, `str.split(sep)`, `str.split()`, `str.find`,
 * `int(...)` and the `{:02d}` format.  Whitespace is Python's full set;
 * word characters, digits and case are ASCII (see README, "Left out").
 */
module Text {
  import opened Wrappers

  // ---------------------------------------------------------------------
  // Character classes
  // ---------------------------------------------------------------------

  /**
   * Python's `\s` / `str.isspace`: the ASCII blanks, the four separator
   * controls `\x1c`-`\x1f`, and the Unicode spaces and line separators.
   */
  predicate IsSpace(c: char) {
    || c == ' ' || c == '\t' || c == '\n' || c == '\r' || c == '\U{000B}' || c == '\U{000C}'
    || '\U{001C}' <= c <= '\U{001F}'
    || c == '\U{0085}' || c == '\U{00A0}' || c == '\U{1680}'
    || '\U{2000}' <= c <= '\U{200A}'
    || c == '\U{2028}' || c == '\U{2029}' || c == '\U{202F}' || c == '\U{205F}' || c == '\U{3000}'
  }

  predicate IsDigit(c: char) { '0' <= c <= '9' }

  predicate IsLower(c: char) { 'a' <= c <= 'z' }

  predicate IsUpper(c: char) { 'A' <= c <= 'Z' }

  predicate IsLetter(c: char) { IsLower(c) || IsUpper(c) }

  /** Python's `\w` restricted to ASCII: letters, digits and underscore. */
  predicate IsWordChar(c: char) { IsLetter(c) || IsDigit(c) || c == '_' }

  function LowerChar(c: char): (r: char)
    ensures IsUpper(c) ==> IsLower(r)
    ensures !IsUpper(c) ==> r == c
  {
    if IsUpper(c) then (c as int + 32) as char else c
  }

  /** `str.lower()` on ASCII text. */
  function Lower(s: string): (r: string)
    ensures |r| == |s|
    ensures forall i :: 0 <= i < |s| ==> r[i] == LowerChar(s[i])
  {
    if s == [] then [] else [LowerChar(s[0])] + Lower(s[1..])
  }

  predicate AllDigits(s: string) {
    forall i :: 0 <= i < |s| ==> IsDigit(s[i])
  }

  predicate NoSpace(s: string) {
    forall i :: 0 <= i < |s| ==> !IsSpace(s[i])
  }

  // ---------------------------------------------------------------------
  // Searching
  // ---------------------------------------------------------------------

  predicate OccursAt(s: string, pat: string, i: int) {
    0 <= i && i + |pat| <= |s| && s[i..i + |pat|] == pat
  }

  /** `s.find(pat, from)`: the first occurrence of `pat` at or after `from`. */
  function FindFrom(s: string, pat: string, from: nat): (r: Option<nat>)
    ensures r.Some? ==> from <= r.value && OccursAt(s, pat, r.value)
    ensures r.Some? ==> forall j :: from <= j < r.value ==> !OccursAt(s, pat, j)
    ensures r.None? ==> forall j :: from <= j ==> !OccursAt(s, pat, j)
    decreases |s| - from
  {
    if from + |pat| > |s| then None
    else if s[from..from + |pat|] == pat then Some(from)
    else FindFrom(s, pat, from + 1)
  }

  /** The occurrence found by `find` is the first one. */
  lemma FindFirst(s: string, pat: string, from: nat, i: nat)
    requires from <= i && OccursAt(s, pat, i)
    requires forall j :: from <= j < i ==> !OccursAt(s, pat, j)
    ensures FindFrom(s, pat, from) == Some(i)
  {
  }

  /** Python's `pat in s`. */
  predicate Contains(s: string, pat: string) {
    FindFrom(s, pat, 0).Some?
  }

  lemma ContainsIff(s: string, pat: string)
    ensures Contains(s, pat) <==> exists i :: OccursAt(s, pat, i)
  {
    if exists i :: OccursAt(s, pat, i) {
      var i :| OccursAt(s, pat, i);
      assert FindFrom(s, pat, 0).Some?;
    }
  }

  predicate StartsWith(s: string, prefix: string) {
    |prefix| <= |s| && s[..|prefix|] == prefix
  }

  /** Text containing `pat` keeps containing it inside a longer text. */
  lemma ContainsIn(x: string, y: string, z: string, pat: string)
    ensures Contains(y, pat) ==> Contains(x + y + z, pat)
  {
    if Contains(y, pat) {
      var i := FindFrom(y, pat, 0).value;
      var s := x + y + z;
      assert s[|x| + i..|x| + i + |pat|] == y[i..i + |pat|];
      assert OccursAt(s, pat, |x| + i);
      ContainsIff(s, pat);
    }
  }

  /**
   * Putting `prefix` before `v` adds no occurrence of `key` when the key does
   * not start at the front and no later character of the prefix is the
   * key's first one.
   */
  lemma PrefixNoKey(prefix: string, v: string, key: string)
    requires key != [] && !Contains(v, key) && !OccursAt(prefix + v, key, 0)
    requires forall k :: 0 < k < |prefix| ==> prefix[k] != key[0]
    ensures !Contains(prefix + v, key)
  {
    var s := prefix + v;
    forall j | 0 <= j ensures !OccursAt(s, key, j) {
      if 0 < j < |prefix| {
        if j + |key| <= |s| {
          assert s[j..j + |key|][0] == prefix[j];
        }
      } else if |prefix| <= j && OccursAt(s, key, j) {
        assert v[j - |prefix|..j - |prefix| + |key|] == s[j..j + |key|];
        assert OccursAt(v, key, j - |prefix|);
        ContainsIff(v, key);
      }
    }
    ContainsIff(s, key);
  }

  lemma StartsContains(s: string, prefix: string)
    ensures StartsWith(s, prefix) ==> Contains(s, prefix)
  {
    if StartsWith(s, prefix) {
      assert OccursAt(s, prefix, 0);
      ContainsIff(s, prefix);
    }
  }

  predicate EndsWith(s: string, suffix: string) {
    |suffix| <= |s| && s[|s| - |suffix|..] == suffix
  }

  /** The first index of character `c` in `s`. */
  function IndexOf(s: string, c: char): (r: Option<nat>)
    ensures r.Some? ==> r.value < |s| && s[r.value] == c && c !in s[..r.value]
    ensures r.None? ==> c !in s
  {
    if s == [] then None
    else if s[0] == c then Some(0)
    else match IndexOf(s[1..], c)
      case None => None
      case Some(i) => assert s[..i + 1] == [s[0]] + s[1..][..i]; Some(i + 1)
  }

  /** The last index of character `c` in `s`. */
  function LastIndexOf(s: string, c: char): (r: Option<nat>)
    ensures r.Some? ==> r.value < |s| && s[r.value] == c && c !in s[r.value + 1..]
    ensures r.None? ==> c !in s
  {
    if s == [] then None
    else if s[|s| - 1] == c then Some(|s| - 1)
    else match LastIndexOf(s[..|s| - 1], c)
      case None => None
      case Some(i) => assert s[i + 1..] == s[..|s| - 1][i + 1..] + [s[|s| - 1]]; Some(i)
  }

  // ---------------------------------------------------------------------
  // Stripping and splitting
  // ---------------------------------------------------------------------

  function LStrip(s: string): (r: string)
    ensures |r| <= |s|
    ensures r == [] || !IsSpace(r[0])
  {
    if s != [] && IsSpace(s[0]) then LStrip(s[1..]) else s
  }

  function RStrip(s: string): (r: string)
    ensures |r| <= |s|
    ensures r == [] || !IsSpace(r[|r| - 1])
  {
    if s != [] && IsSpace(s[|s| - 1]) then RStrip(s[..|s| - 1]) else s
  }

  /** `lstrip` drops exactly a whitespace prefix. */
  lemma {:induction false} LStripSuffix(s: string)
    ensures LStrip(s) == s[|s| - |LStrip(s)|..]
    ensures forall i :: 0 <= i < |s| - |LStrip(s)| ==> IsSpace(s[i])
    decreases |s|
  {
    if s != [] && IsSpace(s[0]) {
      LStripSuffix(s[1..]);
    }
  }

  /** `rstrip` drops exactly a whitespace suffix. */
  lemma {:induction false} RStripPrefix(s: string)
    ensures RStrip(s) == s[..|RStrip(s)|]
    ensures forall i :: |RStrip(s)| <= i < |s| ==> IsSpace(s[i])
    decreases |s|
  {
    if s != [] && IsSpace(s[|s| - 1]) {
      RStripPrefix(s[..|s| - 1]);
    }
  }

  /** `str.strip()`: drop leading and trailing whitespace. */
  function Strip(s: string): (r: string)
    ensures |r| <= |s|
    ensures r == [] || (!IsSpace(r[0]) && !IsSpace(r[|r| - 1]))
  {
    RStripPrefix(LStrip(s));
    RStrip(LStrip(s))
  }

  /** What `strip` keeps is a contiguous piece of the text, with only whitespace around it. */
  lemma StripSlice(s: string)
    ensures |s| - |LStrip(s)| + |Strip(s)| <= |s|
    ensures Strip(s) == s[|s| - |LStrip(s)|..|s| - |LStrip(s)| + |Strip(s)|]
  {
    LStripSuffix(s);
    RStripPrefix(LStrip(s));
  }

  /** Stripping a string with no whitespace at either end changes nothing. */
  lemma StripNoOp(s: string)
    requires s == [] || (!IsSpace(s[0]) && !IsSpace(s[|s| - 1]))
    ensures Strip(s) == s
  {
  }

  /** `s.split(sep)` with an explicit one-character separator. */
  function Split(s: string, sep: char): (parts: seq<string>)
    ensures |parts| >= 1
    ensures forall k :: 0 <= k < |parts| ==> sep !in parts[k]
    decreases |s|
  {
    match IndexOf(s, sep)
    case None => [s]
    case Some(i) => [s[..i]] + Split(s[i + 1..], sep)
  }

  /** `sep.join(parts)`. */
  function Join(parts: seq<string>, sep: char): string {
    if |parts| == 0 then ""
    else if |parts| == 1 then parts[0]
    else parts[0] + [sep] + Join(parts[1..], sep)
  }

  /** Splitting and re-joining gives back the text. */
  lemma {:induction false} JoinSplit(s: string, sep: char)
    ensures Join(Split(s, sep), sep) == s
    decreases |s|
  {
    match IndexOf(s, sep)
    case None =>
    case Some(i) =>
      var rest := Split(s[i + 1..], sep);
      assert Split(s, sep) == [s[..i]] + rest;
      assert ([s[..i]] + rest)[1..] == rest;
      assert Join(Split(s, sep), sep) == s[..i] + [sep] + Join(rest, sep);
      JoinSplit(s[i + 1..], sep);
      assert s == s[..i] + [sep] + s[i + 1..];
  }

  /** Joining separator-free pieces and splitting gives back the pieces. */
  lemma {:induction false} SplitJoin(parts: seq<string>, sep: char)
    requires |parts| >= 1
    requires forall k :: 0 <= k < |parts| ==> sep !in parts[k]
    ensures Split(Join(parts, sep), sep) == parts
  {
    if |parts| > 1 {
      var s := Join(parts, sep);
      var p := parts[0];
      assert s == p + [sep] + Join(parts[1..], sep);
      assert s[|p|] == sep;
      assert s[..|p|] == p;
      assert IndexOf(s, sep) == Some(|p|);
      assert s[|p| + 1..] == Join(parts[1..], sep);
      SplitJoin(parts[1..], sep);
    } else {
      assert IndexOf(parts[0], sep) == None;
    }
  }

  /** Joining two non-empty lists puts one separator between their joins. */
  lemma {:induction false} JoinAppend(a: seq<string>, b: seq<string>, sep: char)
    requires a != [] && b != []
    ensures Join(a + b, sep) == Join(a, sep) + [sep] + Join(b, sep)
    decreases |a|
  {
    if |a| == 1 {
      assert (a + b)[1..] == b;
    } else {
      assert (a + b)[1..] == a[1..] + b;
      JoinAppend(a[1..], b, sep);
    }
  }

  /** A piece containing `pat` makes the joined text contain it. */
  lemma {:induction false} JoinContains(parts: seq<string>, k: nat, sep: char, pat: string)
    requires k < |parts| && Contains(parts[k], pat)
    ensures Contains(Join(parts, sep), pat)
    decreases |parts|
  {
    if |parts| > 1 {
      var rest := Join(parts[1..], sep);
      if k == 0 {
        ContainsIn([], parts[0], [sep] + rest, pat);
        assert [] + parts[0] + ([sep] + rest) == Join(parts, sep);
      } else {
        JoinContains(parts[1..], k - 1, sep, pat);
        ContainsIn(parts[0] + [sep], rest, [], pat);
        assert parts[0] + [sep] + rest + [] == Join(parts, sep);
      }
    }
  }

  /** `s.split(sep, 1)` unpacked into two names: `None` where Python raises. */
  function SplitOnce(s: string, sep: char): (r: Option<(string, string)>)
    ensures r.None? <==> sep !in s
    ensures r.Some? ==> s == r.value.0 + [sep] + r.value.1 && sep !in r.value.0
  {
    match IndexOf(s, sep)
    case None => None
    case Some(i) => assert s == s[..i] + [sep] + s[i + 1..]; Some((s[..i], s[i + 1..]))
  }

  /** The split falls at the first `sep`: a text without `sep`, then `sep`, then anything. */
  lemma SplitOnceAt(a: string, sep: char, b: string)
    requires sep !in a
    ensures SplitOnce(a + [sep] + b, sep) == Some((a, b))
  {
    var s := a + [sep] + b;
    var x, y := SplitOnce(s, sep).value.0, SplitOnce(s, sep).value.1;
    assert s[|a|] == sep && forall k :: 0 <= k < |x| ==> s[k] == x[k];
    assert s[|x|] == sep && forall k :: 0 <= k < |a| ==> s[k] == a[k];
    assert x == s[..|a|] == a;
    assert y == s[|a| + 1..] == b;
  }

  /** The end of the maximal run of `p`-characters starting at `from`. */
  function Span(s: string, from: nat, p: char -> bool): (e: nat)
    requires from <= |s|
    ensures from <= e <= |s|
    ensures forall j :: from <= j < e ==> p(s[j])
    ensures e < |s| ==> !p(s[e])
    decreases |s| - from
  {
    if from < |s| && p(s[from]) then Span(s, from + 1, p) else from
  }

  function NotSpace(c: char): bool { !IsSpace(c) }

  /** `str.split()` with no argument: the maximal runs of non-whitespace. */
  function Words(s: string): (ws: seq<string>)
    ensures forall k :: 0 <= k < |ws| ==> ws[k] != [] && NoSpace(ws[k])
    decreases |s|
  {
    if s == [] then []
    else if IsSpace(s[0]) then Words(s[1..])
    else
      var e := Span(s, 0, NotSpace);
      [s[..e]] + Words(s[e..])
  }

  /** Prefixing whitespace does not change the words. */
  lemma {:induction false} WordsSkipSpace(a: string, s: string)
    requires forall i :: 0 <= i < |a| ==> IsSpace(a[i])
    ensures Words(a + s) == Words(s)
    decreases |a|
  {
    if a != [] {
      assert IsSpace((a + s)[0]);
      assert (a + s)[1..] == a[1..] + s;
      WordsSkipSpace(a[1..], s);
    } else {
      assert a + s == s;
    }
  }

  /** A word followed by whitespace is the first element of `Words`. */
  lemma WordsCons(w: string, sp: char, rest: string)
    requires w != [] && NoSpace(w) && IsSpace(sp)
    ensures Words(w + [sp] + rest) == [w] + Words([sp] + rest)
  {
    var s := w + [sp] + rest;
    assert forall j :: 0 <= j < |w| ==> s[j] == w[j];
    assert s[|w|] == sp;
    assert Span(s, 0, NotSpace) == |w| by {
      SpanStops(s, 0, |w|, NotSpace);
    }
    assert s[..|w|] == w;
    assert s[|w|..] == [sp] + rest;
  }

  /** Characterisation of `Span` from the characters it covers. */
  lemma {:induction false} SpanStops(s: string, from: nat, e: nat, p: char -> bool)
    requires from <= e <= |s|
    requires forall j :: from <= j < e ==> p(s[j])
    requires e < |s| ==> !p(s[e])
    ensures Span(s, from, p) == e
    decreases e - from
  {
    if from < e {
      SpanStops(s, from + 1, e, p);
    }
  }

  /** A run of `p` characters at `j` that what follows does not continue: `Span` stops right after it. */
  lemma SpanSuffix(s: string, j: nat, run: string, t: string, p: char -> bool)
    requires j <= |s| && s[j..] == run + t
    requires forall i :: 0 <= i < |run| ==> p(run[i])
    requires t != [] ==> !p(t[0])
    ensures Span(s, j, p) == j + |run| && s[j..j + |run|] == run && s[j + |run|..] == t
  {
    forall k | j <= k < j + |run| ensures p(s[k]) { assert s[k] == s[j..][k - j]; }
    if t != [] { assert s[j + |run|] == s[j..][|run|]; }
    SpanStops(s, j, j + |run|, p);
    assert s[j..j + |run|] == s[j..][..|run|];
    assert s[j + |run|..] == s[j..][|run|..];
  }

  /** The words of a final word alone. */
  lemma WordsSingle(w: string)
    requires w != [] && NoSpace(w)
    ensures Words(w) == [w]
  {
    SpanStops(w, 0, |w|, NotSpace);
    assert !IsSpace(w[0]);
    assert w[..|w|] == w;
    assert w[|w|..] == [];
    assert Words([]) == [];
  }

  // ---------------------------------------------------------------------
  // Lines
  // ---------------------------------------------------------------------

  /** The index of the line break that ends the line holding position `p`, or `|s|`. */
  function LineEnd(s: string, p: nat): (e: nat)
    requires p <= |s|
    ensures p <= e <= |s|
    ensures e < |s| ==> s[e] == '\n'
    ensures forall j :: p <= j < e ==> s[j] != '\n'
    decreases |s| - p
  {
    if p < |s| && s[p] != '\n' then LineEnd(s, p + 1) else p
  }

  /** The end of the maximal whitespace run starting at `p` (what a greedy `\s*` consumes). */
  function SkipSpaces(s: string, p: nat): (e: nat)
    requires p <= |s|
    ensures p <= e <= |s|
    ensures forall j :: p <= j < e ==> IsSpace(s[j])
    ensures e < |s| ==> !IsSpace(s[e])
    decreases |s| - p
  {
    if p < |s| && IsSpace(s[p]) then SkipSpaces(s, p + 1) else p
  }

  /** Characterisation of `SkipSpaces` from the characters it covers. */
  lemma {:induction false} SkipSpacesStops(s: string, p: nat, e: nat)
    requires p <= e <= |s|
    requires forall j :: p <= j < e ==> IsSpace(s[j])
    requires e < |s| ==> !IsSpace(s[e])
    ensures SkipSpaces(s, p) == e
    decreases e - p
  {
    if p < e {
      SkipSpacesStops(s, p + 1, e);
    }
  }

  /** A line that runs from `q` to a line break (or the end) at `e`. */
  lemma {:induction false} LineEndAt(s: string, q: nat, e: nat)
    requires q <= e <= |s|
    requires '\n' !in s[q..e]
    requires e == |s| || s[e] == '\n'
    ensures LineEnd(s, q) == e
    decreases e - q
  {
    if q < e {
      assert s[q] == s[q..e][0];
      assert s[q + 1..e] == s[q..e][1..];
      LineEndAt(s, q + 1, e);
    }
  }

  /** A maximal digit run is all digits. */
  lemma DigitRun(s: string, from: nat)
    requires from <= |s|
    ensures AllDigits(s[from..Span(s, from, IsDigit)])
  {
    var e := Span(s, from, IsDigit);
    forall j | 0 <= j < e - from ensures IsDigit(s[from..e][j]) {
      assert s[from..e][j] == s[from + j];
    }
  }

  /** Moving the start of a run one character to the right. */
  lemma SpanTail(s: string, p: char -> bool)
    requires s != [] && p(s[0])
    ensures Span(s, 0, p) == 1 + Span(s[1..], 0, p)
  {
    var e := Span(s[1..], 0, p);
    SpanStops(s, 0, 1 + e, p);
  }

  // ---------------------------------------------------------------------
  // Numbers
  // ---------------------------------------------------------------------

  function DigitVal(c: char): (d: nat)
    requires IsDigit(c)
    ensures d < 10
  {
    (c as int) - ('0' as int)
  }

  function DigitChar(d: nat): (c: char)
    requires d < 10
    ensures IsDigit(c) && DigitVal(c) == d
  {
    (('0' as int) + d) as char
  }

  /** The decimal value of a string of digits (leading zeros allowed). */
  function DigitsValue(s: string): nat
    requires AllDigits(s)
  {
    if s == [] then 0 else 10 * DigitsValue(s[..|s| - 1]) + DigitVal(s[|s| - 1])
  }

  /** `str(n)` for a natural number. */
  function NatToString(n: nat): (r: string)
    ensures r != [] && AllDigits(r)
    decreases n
  {
    if n < 10 then [DigitChar(n)] else NatToString(n / 10) + [DigitChar(n % 10)]
  }

  lemma {:induction false} NatToStringValue(n: nat)
    ensures DigitsValue(NatToString(n)) == n
    decreases n
  {
    if n >= 10 {
      NatToStringValue(n / 10);
      var r := NatToString(n);
      assert r[..|r| - 1] == NatToString(n / 10);
    }
  }

  /** `str(i)` for an integer. */
  function IntToString(i: int): string {
    if i < 0 then "-" + NatToString(-i) else NatToString(i)
  }

  /** Python's `f"{i:02d}"`: at least two characters, zero-padded after any sign. */
  function Pad2(i: int): (r: string)
    ensures |r| >= 2
    ensures 0 <= i ==> AllDigits(r)
  {
    if 0 <= i < 10 then "0" + NatToString(i)
    else if 0 <= i then (assert |NatToString(i)| >= 2 by { assert i / 10 > 0; } NatToString(i))
    else "-" + NatToString(-i)
  }

  lemma Pad2Value(i: nat)
    ensures DigitsValue(Pad2(i)) == i
  {
    if i < 10 {
      var r := Pad2(i);
      assert r[..|r| - 1] == "0";
      assert DigitsValue("0") == 0 by { assert "0"[..0] == ""; }
    } else {
      NatToStringValue(i);
    }
  }

  /** Python's `int(u)` on an unsigned literal: digits, optionally grouped by single underscores. */
  function UnsignedValue(u: string): Option<nat>
    decreases |u|
  {
    if u == [] || !IsDigit(u[|u| - 1]) then None
    else if |u| == 1 then Some(DigitVal(u[0]))
    else
      var init := u[..|u| - 1];
      var d := DigitVal(u[|u| - 1]);
      if init[|init| - 1] == '_' then
        if |init| >= 2 && IsDigit(init[|init| - 2]) then
          match UnsignedValue(init[..|init| - 1])
          case None => None
          case Some(v) => Some(10 * v + d)
        else None
      else
        match UnsignedValue(init)
        case None => None
        case Some(v) => Some(10 * v + d)
  }

  lemma {:induction false} UnsignedValueOfDigits(u: string)
    requires u != [] && AllDigits(u)
    ensures UnsignedValue(u) == Some(DigitsValue(u))
    decreases |u|
  {
    if |u| > 1 {
      UnsignedValueOfDigits(u[..|u| - 1]);
    } else {
      assert u[..0] == [];
    }
  }

  /** Python's `int(s)` on a string: `None` where Python raises `ValueError`. */
  function ParseInt(s: string): Option<int> {
    var t := Strip(s);
    if t == [] then None
    else if t[0] == '+' || t[0] == '-' then
      match UnsignedValue(t[1..])
      case None => None
      case Some(v) =>
        var i: int := if t[0] == '-' then -(v as int) else v as int;
        Some(i)
    else
      match UnsignedValue(t)
      case None => None
      case Some(v) => Some(v)
  }

  /** `int(...)` reads back any digit string at its decimal value. */
  lemma ParseDigits(u: string)
    requires u != [] && AllDigits(u)
    ensures ParseInt(u) == Some(DigitsValue(u) as int)
  {
    assert !IsSpace(u[0]) && !IsSpace(u[|u| - 1]);
    StripNoOp(u);
    UnsignedValueOfDigits(u);
  }

  /** `int(str(n)) == n`. */
  lemma ParseNatToString(n: nat)
    ensures ParseInt(NatToString(n)) == Some(n)
  {
    ParseDigits(NatToString(n));
    NatToStringValue(n);
  }
}
