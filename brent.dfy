/**
 * The Brent corpus normaliser: a child's age is read off the transcript's
 * file name (`YYMMDD` or `x1-rDDmonYY`), the child's name off a table keyed
 * by the directory code, and both are spliced in after the `@Languages`
 * line as `@Child_Age:` and `@ChildName:` header lines.
 */
module Brent {
  import opened Wrappers
  import opened Text
  import Splice

  datatype Age = Age(years: nat, months: nat, days: nat)

  const Zero := Age(0, 0, 0)

  /** The month abbreviations the file names use. */
  const MonthMap: map<string, nat> := map[
    "jan" := 1, "feb" := 2, "mar" := 3, "apr" := 4, "may" := 5, "jun" := 6,
    "jul" := 7, "aug" := 8, "sep" := 9, "oct" := 10, "nov" := 11, "dec" := 12]

  /** `filename.split('.')[0]`: the text before the first dot. */
  function BaseName(filename: string): (r: string)
    ensures '.' !in r && StartsWith(filename, r)
    ensures |r| < |filename| ==> filename[|r|] == '.'
  {
    match IndexOf(filename, '.')
    case None => filename
    case Some(i) => filename[..i]
  }

  /** `re.match(r'^\d{6}$', b)`; `$` also matches before a final line break. */
  predicate SixDigits(b: string) {
    (|b| == 6 && AllDigits(b)) || (|b| == 7 && AllDigits(b[..6]) && b[6] == '\n')
  }

  /**
   * `re.match(r'^[a-z]\d+-[rf](\d+)([a-z]+)(\d+)', b)`: its three groups.
   * Every quantifier is greedy and can never give back a character with
   * profit, since the character after a shorter run belongs to the run.
   */
  function CodeDate(b: string): (r: Option<(string, string, string)>)
    ensures r.Some? ==> r.value.0 != [] && AllDigits(r.value.0) && r.value.1 != [] && r.value.2 != [] && AllDigits(r.value.2)
    ensures r.Some? ==> forall i :: 0 <= i < |r.value.1| ==> IsLower(r.value.1[i])
  {
    if |b| > 0 && IsLower(b[0]) then
      var e1 := Span(b, 1, IsDigit);
      if e1 > 1 && e1 + 1 < |b| && b[e1] == '-' && (b[e1 + 1] == 'r' || b[e1 + 1] == 'f') then
        var p := e1 + 2;
        var e2 := Span(b, p, IsDigit);
        var e3 := Span(b, e2, IsLower);
        var e4 := Span(b, e3, IsDigit);
        if e2 > p && e3 > e2 && e4 > e3 then Some((b[p..e2], b[e2..e3], b[e3..e4])) else None
      else None
    else None
  }

  /**
   * `_calculate_age_from_filename`: `YYMMDD` gives the three digit pairs;
   * `x1-[rf]DDmonYY` gives `DD` days, the month's number and `YY` years;
   * anything else, and an unknown month, gives zeros.
   */
  function CalculateAge(filename: string): (r: Age)
    ensures r != Zero ==> (SixDigits(BaseName(filename)) ||
      (CodeDate(BaseName(filename)).Some? && Lower(CodeDate(BaseName(filename)).value.1) in MonthMap))
  {
    var b := BaseName(filename);
    if SixDigits(b) then
      Age(DigitsValue(b[..2]), DigitsValue(b[2..4]), DigitsValue(b[4..6]))
    else match CodeDate(b)
      case None => Zero
      case Some((dd, mon, yy)) =>
        var m := Lower(mon);
        if m in MonthMap then Age(DigitsValue(yy), MonthMap[m], DigitsValue(dd)) else Zero
  }

  /** The base name of `b.ext` is `b` when `b` has no dot. */
  lemma BaseNameOf(b: string, ext: string)
    requires '.' !in b
    ensures BaseName(b + "." + ext) == b
  {
    var f := b + "." + ext;
    assert f[|b|] == '.';
    assert f[..|b|] == b;
  }

  /** A `YYMMDD.ext` name gives its three digit pairs. */
  lemma SixDigitName(b: string, ext: string)
    requires |b| == 6 && AllDigits(b)
    ensures CalculateAge(b + "." + ext) == Age(DigitsValue(b[..2]), DigitsValue(b[2..4]), DigitsValue(b[4..6]))
  {
    BaseNameOf(b, ext);
  }

  lemma LowerOfLower(s: string)
    requires forall i :: 0 <= i < |s| ==> IsLower(s[i])
    ensures Lower(s) == s
  {
  }

  /** `CodeDate` once the four runs are known. */
  lemma CodeDateAt(b: string, e1: nat, e2: nat, e3: nat, e4: nat)
    requires |b| > 0 && IsLower(b[0]) && Span(b, 1, IsDigit) == e1 && e1 > 1 && e1 + 1 < |b|
    requires b[e1] == '-' && (b[e1 + 1] == 'r' || b[e1 + 1] == 'f')
    requires Span(b, e1 + 2, IsDigit) == e2 > e1 + 2
    requires Span(b, e2, IsLower) == e3 > e2 && Span(b, e3, IsDigit) == e4 > e3
    ensures CodeDate(b) == Some((b[e1 + 2..e2], b[e2..e3], b[e3..e4]))
  {
  }

  /** The three groups of a name `c` `k` `-` `x` `DD` `mon` `YY`. */
  lemma CodeDateOf(c: char, k: string, x: char, dd: string, mon: string, yy: string)
    requires IsLower(c) && k != [] && AllDigits(k) && (x == 'r' || x == 'f')
    requires dd != [] && AllDigits(dd) && yy != [] && AllDigits(yy)
    requires mon != [] && forall i :: 0 <= i < |mon| ==> IsLower(mon[i])
    ensures CodeDate([c] + (k + ("-" + ([x] + (dd + (mon + yy)))))) == Some((dd, mon, yy))
  {
    var b := [c] + (k + ("-" + ([x] + (dd + (mon + yy)))));
    var e1 := 1 + |k|;
    var e2 := e1 + 2 + |dd|;
    var e3 := e2 + |mon|;
    NameRuns(b, c, k, x, dd, mon, yy);
    CodeDateFrom(b, e1, e2, e3, dd, mon, yy);
  }

  /** `CodeDate` from the runs it finds and what they hold. */
  lemma CodeDateFrom(b: string, e1: nat, e2: nat, e3: nat, dd: string, mon: string, yy: string)
    requires |b| > 0 && IsLower(b[0]) && e1 > 1 && Span(b, 1, IsDigit) == e1 && e1 + 1 < |b|
    requires b[e1] == '-' && (b[e1 + 1] == 'r' || b[e1 + 1] == 'f')
    requires Span(b, e1 + 2, IsDigit) == e2 > e1 + 2 && Span(b, e2, IsLower) == e3 > e2 && Span(b, e3, IsDigit) == |b| > e3
    requires b[e1 + 2..e2] == dd && b[e2..e3] == mon && b[e3..|b|] == yy
    ensures CodeDate(b) == Some((dd, mon, yy))
  {
    CodeDateAt(b, e1, e2, e3, |b|);
  }

  /** The runs of a name `c` `k` `-` `x` `DD` `mon` `YY` and what they hold. */
  lemma NameRuns(b: string, c: char, k: string, x: char, dd: string, mon: string, yy: string)
    requires b == [c] + (k + ("-" + ([x] + (dd + (mon + yy)))))
    requires IsLower(c) && k != [] && AllDigits(k) && (x == 'r' || x == 'f')
    requires dd != [] && AllDigits(dd) && yy != [] && AllDigits(yy)
    requires mon != [] && forall i :: 0 <= i < |mon| ==> IsLower(mon[i])
    ensures IsLower(b[0]) && Span(b, 1, IsDigit) == 1 + |k| && 2 + |k| < |b|
    ensures b[1 + |k|] == '-' && b[2 + |k|] == x
    ensures DateRunsAt(b, 3 + |k|, dd, mon, yy)
  {
    var rest := "-" + ([x] + (dd + (mon + yy)));
    assert b[0] == c && b[1..] == k + rest;
    SpanSuffix(b, 1, k, rest, IsDigit);
    DashAt(b, 1 + |k|, x, dd + (mon + yy));
    DateSuffix(b, 3 + |k|, dd, mon, yy);
  }

  lemma DashAt(b: string, e1: nat, x: char, rest: string)
    requires e1 <= |b| && b[e1..] == "-" + ([x] + rest)
    ensures e1 + 1 < |b| && b[e1] == '-' && b[e1 + 1] == x && b[e1 + 2..] == rest
  {
    assert b[e1] == b[e1..][0] && b[e1 + 1] == b[e1..][1];
    assert b[e1 + 2..] == b[e1..][2..];
  }

  /** From `p` on: the day digits, the month letters and the year digits to the end. */
  predicate DateRunsAt(b: string, p: nat, dd: string, mon: string, yy: string) {
    var e2 := p + |dd|;
    var e3 := e2 + |mon|;
    e3 <= |b| &&
    Span(b, p, IsDigit) == e2 && Span(b, e2, IsLower) == e3 && Span(b, e3, IsDigit) == |b| &&
    b[p..e2] == dd && b[e2..e3] == mon && b[e3..|b|] == yy
  }

  lemma DateSuffix(b: string, p: nat, dd: string, mon: string, yy: string)
    requires p <= |b| && b[p..] == dd + (mon + yy)
    requires dd != [] && AllDigits(dd) && yy != [] && AllDigits(yy)
    requires mon != [] && forall i :: 0 <= i < |mon| ==> IsLower(mon[i])
    ensures DateRunsAt(b, p, dd, mon, yy)
  {
    SpanSuffix(b, p, dd, mon + yy, IsDigit);
    MonthYearSuffix(b, p + |dd|, mon, yy);
  }

  lemma MonthYearSuffix(b: string, e2: nat, mon: string, yy: string)
    requires e2 <= |b| && b[e2..] == mon + yy
    requires yy != [] && AllDigits(yy)
    requires mon != [] && forall i :: 0 <= i < |mon| ==> IsLower(mon[i])
    ensures var e3 := e2 + |mon|;
      e3 <= |b| && Span(b, e2, IsLower) == e3 && Span(b, e3, IsDigit) == |b| && b[e2..e3] == mon && b[e3..|b|] == yy
  {
    SpanSuffix(b, e2, mon, yy, IsLower);
    var e3 := e2 + |mon|;
    assert b[e3..] == yy + [];
    SpanSuffix(b, e3, yy, [], IsDigit);
  }

  /** A name `c` `k` `-` `x` `DD` `mon` `YY` `.ext` gives `YY` years, the month of `mon` and `DD` days. */
  lemma CodeDateName(c: char, k: string, x: char, dd: string, mon: string, yy: string, ext: string)
    requires IsLower(c) && k != [] && AllDigits(k) && (x == 'r' || x == 'f')
    requires dd != [] && AllDigits(dd) && yy != [] && AllDigits(yy)
    requires mon in MonthMap
    ensures CalculateAge([c] + (k + ("-" + ([x] + (dd + (mon + yy))))) + "." + ext) == Age(DigitsValue(yy), MonthMap[mon], DigitsValue(dd))
  {
    var b := [c] + (k + ("-" + ([x] + (dd + (mon + yy)))));
    assert forall i :: 0 <= i < |mon| ==> IsLower(mon[i]) by {
      assert mon in {"jan", "feb", "mar", "apr", "may", "jun", "jul", "aug", "sep", "oct", "nov", "dec"};
    }
    assert '.' !in k && '.' !in dd && '.' !in yy && '.' !in mon;
    BaseNameOf(b, ext);
    LowerOfLower(mon);
    CodeDateOf(c, k, x, dd, mon, yy);
    assert !SixDigits(b) by { assert !IsDigit(b[0]); assert b[..6][0] == b[0]; }
  }

  // ---------------------------------------------------------------------
  // The splice
  // ---------------------------------------------------------------------

  /** `@Child_Age: YY years MM months DD days` and `@ChildName: name`, each on its own line. */
  function AgeBlock(age: Age, name: string): string {
    "@Child_Age: " + Pad2(age.years) + " years " + Pad2(age.months) + " months " + Pad2(age.days) + " days\n@ChildName: " + name + "\n"
  }

  /**
   * `_insert_age_metadata`: the block goes right after the line break ending
   * the line of the first `@Languages`; without it, or without a line break
   * after it, the content is returned as it is.
   */
  function InsertAgeMetadata(content: string, age: Age, name: string): (r: string)
    ensures Splice.InsertPoint(content, "@Languages").None? ==> r == content
    ensures Splice.InsertPoint(content, "@Languages").Some? ==>
      var p := Splice.InsertPoint(content, "@Languages").value;
      |r| == |content| + |AgeBlock(age, name)| && r[..p] == content[..p] && r[p..p + |AgeBlock(age, name)|] == AgeBlock(age, name) &&
      r[p + |AgeBlock(age, name)|..] == content[p..]
  {
    Splice.Insert(content, "@Languages", AgeBlock(age, name))
  }

  /** Deleting the block from the output gives back the input. */
  lemma InsertAgeMetadataUndone(content: string, age: Age, name: string)
    requires Splice.InsertPoint(content, "@Languages").Some?
    ensures var p := Splice.InsertPoint(content, "@Languages").value;
      var r := InsertAgeMetadata(content, age, name);
      r[..p] + r[p + |AgeBlock(age, name)|..] == content
  {
    Splice.RemoveBlock(content, "@Languages", AgeBlock(age, name));
  }

  // ---------------------------------------------------------------------
  // Child names
  // ---------------------------------------------------------------------

  /** The confirmed names, by directory code. */
  const KnownNames: map<string, string> := map[
    "c1" := "Morgan", "s3" := "Alan", "q1" := "Quinn", "t1" := "Alex",
    "w1" := "Maggie", "w3" := "Vasie", "v1" := "Henry", "v2" := "Xavier",
    "s2" := "Tabitha", "m1" := "Moomooshas", "j1" := "Moomooshas", "i1" := "Alexander",
    "d1" := "Mandy", "f2" := "Brooklyn", "f1" := "Dillon", "s1" := "Tymothy"]

  /** `child_names.get(code, code)`. */
  function NameFor(names: map<string, string>, code: string): (r: string)
    ensures code in names ==> r == names[code]
    ensures code !in names ==> r == code
  {
    if code in names then names[code] else code
  }

  /** `re.match(r'^[a-zA-Z]\d+$', name)`: a letter and then digits, a final line break allowed. */
  predicate IsChildDir(name: string) {
    |name| >= 2 && IsLetter(name[0]) &&
    (AllDigits(name[1..]) || (|name| >= 3 && name[|name| - 1] == '\n' && AllDigits(name[1..|name| - 1])))
  }

  /** The entries (name and whether it is a directory) that are processed, in listing order. */
  function ChildDirs(entries: seq<(string, bool)>): (r: seq<string>)
    ensures forall k :: 0 <= k < |r| ==> IsChildDir(r[k])
  {
    if entries == [] then []
    else
      var e := entries[|entries| - 1];
      ChildDirs(entries[..|entries| - 1]) + (if e.1 && IsChildDir(e.0) then [e.0] else [])
  }

  /** The table after `child_names[d] = d` for each processed code it lacks. */
  function WithFallbacks(names: map<string, string>, dirs: seq<string>): map<string, string> {
    if dirs == [] then names
    else
      var m := WithFallbacks(names, dirs[..|dirs| - 1]);
      var d := dirs[|dirs| - 1];
      if d in m then m else m[d := d]
  }

  /**
   * The fallbacks add each processed code that had no name, mapped to
   * itself, and keep every existing name; so the name used for any code is
   * the same with or without them.
   */
  lemma {:induction false} FallbackFacts(names: map<string, string>, dirs: seq<string>)
    ensures WithFallbacks(names, dirs).Keys == names.Keys + set x | x in dirs
    ensures forall c :: c in names ==> WithFallbacks(names, dirs)[c] == names[c]
    ensures forall c :: NameFor(WithFallbacks(names, dirs), c) == NameFor(names, c)
    decreases |dirs|
  {
    if dirs != [] {
      var init := dirs[..|dirs| - 1];
      FallbackFacts(names, init);
      var d := dirs[|dirs| - 1];
      assert dirs == init + [d];
      assert (set x | x in dirs) == (set x | x in init) + {d};
    }
  }

  /** The manipulator object: its table gains a fallback entry per unnamed processed code. */
  class Manipulator {
    var childNames: map<string, string>

    constructor()
      ensures childNames == KnownNames
    {
      childNames := KnownNames;
    }

    /**
     * `process_directory` over a listing of `(name, is_directory)` entries:
     * the processed codes in order, each given a fallback name first.
     */
    method ProcessDirectory(entries: seq<(string, bool)>) returns (processed: seq<string>)
      modifies this
      ensures processed == ChildDirs(entries)
      ensures childNames == WithFallbacks(old(childNames), processed)
    {
      processed := [];
      var i := 0;
      while i < |entries|
        invariant 0 <= i <= |entries|
        invariant processed == ChildDirs(entries[..i])
        invariant childNames == WithFallbacks(old(childNames), processed)
      {
        var e := entries[i];
        assert entries[..i + 1][..i] == entries[..i];
        assert entries[..i + 1][i] == e;
        if e.1 && IsChildDir(e.0) {
          if e.0 !in childNames {
            childNames := childNames[e.0 := e.0];
          }
          assert (processed + [e.0])[..|processed|] == processed;
          processed := processed + [e.0];
        }
        i := i + 1;
      }
      assert entries[..i] == entries;
    }

    /** `_process_cha_file` on the text of a file named `filename` in directory `code`. */
    method ProcessChaFile(code: string, filename: string, content: string) returns (r: string)
      ensures r == InsertAgeMetadata(content, CalculateAge(filename), NameFor(childNames, code))
    {
      var name := if code in childNames then childNames[code] else code;
      var age := CalculateAge(filename);
      r := InsertAgeMetadata(content, age, name);
    }
  }
}
