/**
 * The Brend corpus normaliser: the child's age and name are read off the
 * file path (for Brent files) or searched for in the transcript by a
 * cascade of patterns, and written into the header as `@ChildAge:` and
 * `@ChildName:` lines, rewriting the lines already there.
 */
module Brend {
  import opened Wrappers
  import opened Text
  import opened Scan
  import Brent
  import ChatReader

  // ---------------------------------------------------------------------
  // Ages
  // ---------------------------------------------------------------------

  /** `f"{years} years {months:02d} months {days:02d} days"`. */
  function AgeText(years: int, months: int, days: int): string {
    IntToString(years) + " years " + Pad2(months) + " months " + Pad2(days) + " days"
  }

  /** The value returned when no age is found and when reading one fails. */
  const DefaultAge: string := "0 years 00 months 00 days"

  lemma DefaultAgeText()
    ensures AgeText(0, 0, 0) == DefaultAge
  {
  }

  /** `os.path.basename`: the text after the last `/`. */
  function BaseName(path: string): (r: string)
    ensures '/' !in r && EndsWith(path, r)
    ensures |r| < |path| ==> path[|path| - |r| - 1] == '/'
  {
    match LastIndexOf(path, '/')
    case None => path
    case Some(i) => path[i + 1..]
  }

  /** The base name of `dir/name` is `name` when `name` has no slash. */
  lemma BaseNameAfterSlash(dir: string, name: string)
    requires '/' !in name
    ensures BaseName(dir + "/" + name) == name
  {
    var p := dir + "/" + name;
    assert p[|dir|] == '/';
    assert p[|dir| + 1..] == name;
  }

  /** `re.match(r'm1-[rf](\d{2})([a-z]{3})(\d{2})', f)`: its three groups. */
  function M1Date(f: string): (r: Option<(string, string, string)>)
    ensures r.Some? ==> |r.value.0| == 2 && AllDigits(r.value.0) && |r.value.2| == 2 && AllDigits(r.value.2)
    ensures r.Some? ==> |r.value.1| == 3 && forall i :: 0 <= i < 3 ==> IsLower(r.value.1[i])
  {
    if |f| >= 11 && StartsWith(f, "m1-") && (f[3] == 'r' || f[3] == 'f') && AllDigits(f[4..6]) &&
      IsLower(f[6]) && IsLower(f[7]) && IsLower(f[8]) && AllDigits(f[9..11])
    then Some((f[4..6], f[6..9], f[9..11]))
    else None
  }

  /**
   * The age read off a Brent file name: `Some` of the answer, or `None`
   * where the code goes on to search the content (no `.cha` ending, an
   * `m1-` name the pattern rejects, a name shorter than six characters).
   * A failing `int()` on a slice ends in the handler's default.
   */
  function NameAge(b: string): (r: Option<string>)
    ensures r.Some? ==> exists y: int, m: int, d: int :: r.value == AgeText(y, m, d)
  {
    DefaultAgeText();
    if !EndsWith(b, ".cha") then None
    else
      var f := b[..|b| - 4];
      if StartsWith(f, "m1-") then
        match M1Date(f)
        case None => None
        case Some((dd, mon, yy)) =>
          var m := Lower(mon);
          var month := if m in Brent.MonthMap then Brent.MonthMap[m] else 0;
          Some(AgeText(0, month, DigitsValue(dd)))
      else if |f| >= 6 then
        match (ParseInt(f[..2]), ParseInt(f[2..4]), ParseInt(f[4..6]))
        case (Some(y), Some(m), Some(d)) => Some(AgeText(y, m, d))
        case _ => assert DefaultAge == AgeText(0, 0, 0); Some(DefaultAge)
      else None
  }

  /** A name starting with six digits `YYMMDD`: the three pairs, years unpadded. */
  lemma SixDigitNameAge(b: string)
    requires |b| >= 6 && AllDigits(b[..6])
    ensures NameAge(b + ".cha") == Some(AgeText(DigitsValue(b[..2]), DigitsValue(b[2..4]), DigitsValue(b[4..6])))
  {
    var name := b + ".cha";
    assert EndsWith(name, ".cha") && name[..|name| - 4] == b;
    assert b[..6][0] == b[0];
    assert !StartsWith(b, "m1-") by { assert IsDigit(b[0]); }
    assert b[..2] == b[..6][..2] && b[2..4] == b[..6][2..4] && b[4..6] == b[..6][4..6];
    ParseDigits(b[..2]);
    ParseDigits(b[2..4]);
    ParseDigits(b[4..6]);
  }

  /** A name of six or more characters whose first pair is not a number gives the default. */
  lemma BadSliceNameAge(b: string)
    requires |b| >= 6 && !StartsWith(b, "m1-") && ParseInt(b[..2]).None?
    ensures NameAge(b + ".cha") == Some(DefaultAge)
  {
    var name := b + ".cha";
    assert EndsWith(name, ".cha") && name[..|name| - 4] == b;
  }

  /**
   * A name `m1-xDDmonYY...`: months from the abbreviation (zero for an
   * unknown one), days `DD`, years zero.
   */
  lemma M1NameAge(f: string)
    requires |f| >= 11 && StartsWith(f, "m1-") && (f[3] == 'r' || f[3] == 'f')
    requires AllDigits(f[4..6]) && AllDigits(f[9..11]) && IsLower(f[6]) && IsLower(f[7]) && IsLower(f[8])
    ensures NameAge(f + ".cha") ==
      Some(AgeText(0, if f[6..9] in Brent.MonthMap then Brent.MonthMap[f[6..9]] else 0, DigitsValue(f[4..6])))
  {
    var name := f + ".cha";
    assert EndsWith(name, ".cha") && name[..|name| - 4] == f;
    Brent.LowerOfLower(f[6..9]);
  }

  /**
   * `extract_age(content, file_path)`: no content (`None`) fails before
   * anything else and gives the default; otherwise the file name decides
   * for a path naming Brent when it can be read, and the content search
   * decides otherwise; either way the answer has the
   * `Y years MM months DD days` shape.
   */
  function ExtractAge(content: Option<string>, filePath: Option<string> := None): (r: string)
    ensures content.None? ==> r == DefaultAge
    ensures content.Some? && (filePath.None? || !Contains(filePath.value, "Brent") || NameAge(BaseName(filePath.value)).None?) ==>
      r == ContentAge(content.value)
    ensures content.Some? && (filePath.Some? && Contains(filePath.value, "Brent") && NameAge(BaseName(filePath.value)).Some?) ==>
      r == NameAge(BaseName(filePath.value)).value
    ensures exists y: int, m: int, d: int :: r == AgeText(y, m, d)
  {
    var fromPath := if filePath.Some? && Contains(filePath.value, "Brent") then NameAge(BaseName(filePath.value)) else None;
    if content.None? then
      DefaultAgeText();
      DefaultAge
    else if fromPath.Some? then fromPath.value
    else
      var r := ContentAge(content.value);
      ContentAgeShape(content.value);
      var y: nat, m: nat :| r == AgeText(y, m, 0);
      assert r == AgeText(y as int, m as int, 0);
      r
  }

  /** A Brent path `dir/b.cha` whose name the file-name rules read is decided by its name alone. */
  lemma BrentPathAge(content: string, path: string, dir: string, name: string)
    requires path == dir + "/" + name && '/' !in name && Contains(path, "Brent")
    requires NameAge(name).Some?
    ensures ExtractAge(Some(content), Some(path)) == NameAge(name).value
  {
    BaseNameAfterSlash(dir, name);
  }

  /** `(\d+);(\d+)` followed by `close`, at `j`: the two numbers. */
  function PairAt(s: string, j: nat, close: char): (r: Option<(nat, nat)>)
  {
    match DigitsAt(s, j)
    case None => None
    case Some((a, e)) =>
      if e < |s| && s[e] == ';' then
        match DigitsAt(s, e + 1)
        case None => None
        case Some((b, e2)) => if e2 < |s| && s[e2] == close then Some((DigitsValue(a), DigitsValue(b))) else None
      else None
  }

  /** `\|(\d+);(\d+)\|` at `j`. */
  function PidAge(s: string, j: nat): Option<(nat, nat)> {
    if j < |s| && s[j] == '|' then PairAt(s, j + 1, '|') else None
  }

  /** `CHI\|(\d+);(\d+)\.` at `j`. */
  function IdAge(s: string, j: nat): Option<(nat, nat)> {
    if OccursAt(s, "CHI|", j) then PairAt(s, j + 4, '.') else None
  }

  /** `(\d+)[;:]` at `j`. */
  function ChiYears(s: string, j: nat): Option<nat> {
    match DigitsAt(s, j)
    case None => None
    case Some((a, e)) => if e < |s| && (s[e] == ';' || s[e] == ':') then Some(DigitsValue(a)) else None
  }

  /**
   * The content search, days always zero: `@PID:.*?\|Y;M\|`, then
   * `@ID:.*?CHI\|Y;M\.`, then `\*CHI:\s*.*?Y[;:]` (months zero too), else
   * the default.
   */
  function ContentAge(content: string): string {
    var pid := SearchLazy<(nat, nat)>(content, "@PID:", 0, false, PidAge);
    if pid.Some? then AgeText(pid.value.0, pid.value.1, 0)
    else
      var id := SearchLazy<(nat, nat)>(content, "@ID:", 0, false, IdAge);
      if id.Some? then AgeText(id.value.0, id.value.1, 0)
      else
        var chi := SearchLazy<nat>(content, "*CHI:", 0, true, ChiYears);
        if chi.Some? then AgeText(chi.value, 0, 0) else DefaultAge
  }

  /** Whatever the content, the search's answer has zero days. */
  lemma ContentAgeShape(content: string)
    ensures exists y: nat, m: nat :: ContentAge(content) == AgeText(y, m, 0)
  {
    DefaultAgeText();
    var pid := SearchLazy<(nat, nat)>(content, "@PID:", 0, false, PidAge);
    var id := SearchLazy<(nat, nat)>(content, "@ID:", 0, false, IdAge);
    var chi := SearchLazy<nat>(content, "*CHI:", 0, true, ChiYears);
    if pid.Some? {
      assert ContentAge(content) == AgeText(pid.value.0, pid.value.1, 0);
    } else if id.Some? {
      assert ContentAge(content) == AgeText(id.value.0, id.value.1, 0);
    } else if chi.Some? {
      assert ContentAge(content) == AgeText(chi.value, 0, 0);
    } else {
      assert ContentAge(content) == AgeText(0, 0, 0);
    }
  }

  /** A pair `Y;M` and a closing character at `j` is read as two numbers. */
  lemma PairAtOf(s: string, j: nat, ys: string, ms: string, close: char, rest: string)
    requires j <= |s| && s[j..] == ys + (";" + (ms + ([close] + rest)))
    requires ys != [] && AllDigits(ys) && ms != [] && AllDigits(ms) && !IsDigit(close)
    ensures PairAt(s, j, close) == Some((DigitsValue(ys), DigitsValue(ms)))
  {
    var e := j + |ys|;
    assert DigitsAt(s, j) == Some((ys, e)) && e <= |s| && s[e..] == ";" + (ms + ([close] + rest)) by {
      DigitsAtSuffix(s, j, ys, ";" + (ms + ([close] + rest)));
    }
    PairTail(s, e, ms, close, rest);
    PairFrom(s, j, e, ys, e + 1 + |ms|, ms, close);
  }

  /** After the years: `;`, the month digits and the closing character. */
  lemma PairTail(s: string, e: nat, ms: string, close: char, rest: string)
    requires e <= |s| && s[e..] == ";" + (ms + ([close] + rest))
    requires ms != [] && AllDigits(ms) && !IsDigit(close)
    ensures var e2 := e + 1 + |ms|;
      e < |s| && s[e] == ';' && DigitsAt(s, e + 1) == Some((ms, e2)) && e2 < |s| && s[e2] == close
  {
    var e2 := e + 1 + |ms|;
    assert s[e] == s[e..][0];
    assert s[e + 1..] == s[e..][1..];
    DigitsAtSuffix(s, e + 1, ms, [close] + rest);
    assert s[e2] == s[e2..][0];
  }

  lemma PairFrom(s: string, j: nat, e: nat, ys: string, e2: nat, ms: string, close: char)
    requires DigitsAt(s, j) == Some((ys, e)) && e < |s| && s[e] == ';'
    requires DigitsAt(s, e + 1) == Some((ms, e2)) && e2 < |s| && s[e2] == close
    ensures PairAt(s, j, close) == Some((DigitsValue(ys), DigitsValue(ms)))
  {
  }

  /**
   * The `@PID:` pattern decides when its leftmost match starts at the
   * `@PID:` at `i`: no earlier `@PID:` is followed on its line by a
   * `|Y;M|` pair, and this one is, at `k`, with no pair before it.
   */
  lemma PidMatchAt(s: string, i: nat, k: nat, v: (nat, nat))
    requires OccursAt(s, "@PID:", i) && forall j: nat :: j < i ==> LazyMisses(s, "@PID:", false, PidAge, j)
    requires i + 5 <= k <= |s| && PidAge(s, k) == Some(v)
    requires NoneOnLine(s, i + 5, k, PidAge)
    ensures ContentAge(s) == AgeText(v.0, v.1, 0)
  {
    assert |"@PID:"| == 5;
    LazyAtFound<(nat, nat)>(s, "@PID:", false, PidAge, i, k);
    SearchLazyFrom<(nat, nat)>(s, "@PID:", 0, false, PidAge, i, v);
    PidDecides(s, v);
  }

  /** No `@PID:` is followed on its line by a `|Y;M|` pair. */
  ghost predicate NoPidAge(s: string) {
    forall i :: LazyMisses(s, "@PID:", false, PidAge, i)
  }

  /** No `@ID:` is followed on its line by `CHI|Y;M.`. */
  ghost predicate NoIdAge(s: string) {
    forall i :: LazyMisses(s, "@ID:", false, IdAge, i)
  }

  /** No `*CHI:` is followed, past its whitespace, on its line by digits and `;` or `:`. */
  ghost predicate NoChiYears(s: string) {
    forall i :: LazyMisses(s, "*CHI:", true, ChiYears, i)
  }

  /** The `@PID:` pattern finds nothing exactly when no `@PID:` line holds a pair. */
  lemma PidSearchNone(s: string)
    ensures SearchLazy<(nat, nat)>(s, "@PID:", 0, false, PidAge).None? <==> NoPidAge(s)
  {
    SearchLazyNone<(nat, nat)>(s, "@PID:", 0, false, PidAge);
  }

  /** The `@ID:` pattern finds nothing exactly when no `@ID:` line holds `CHI|Y;M.`. */
  lemma IdSearchNone(s: string)
    ensures SearchLazy<(nat, nat)>(s, "@ID:", 0, false, IdAge).None? <==> NoIdAge(s)
  {
    SearchLazyNone<(nat, nat)>(s, "@ID:", 0, false, IdAge);
  }

  /** The `*CHI:` pattern finds nothing exactly when no `*CHI:` line holds years. */
  lemma ChiSearchNone(s: string)
    ensures SearchLazy<nat>(s, "*CHI:", 0, true, ChiYears).None? <==> NoChiYears(s)
  {
    SearchLazyNone<nat>(s, "*CHI:", 0, true, ChiYears);
  }

  /**
   * A `@PID:` whose line holds no `|` after it yields no pair there, so the
   * search moves on: for `@PID: 11312/c-00015669-1` it does.
   */
  lemma PidLineWithoutBar(s: string, i: nat)
    requires OccursAt(s, "@PID:", i)
    requires forall q :: i + 5 <= q < LineEnd(s, i + 5) ==> s[q] != '|'
    ensures LazyMisses(s, "@PID:", false, PidAge, i)
  {
    assert |"@PID:"| == 5;
  }

  /** A match of the `@PID:` pattern decides the age. */
  lemma PidDecides(s: string, v: (nat, nat))
    requires SearchLazy<(nat, nat)>(s, "@PID:", 0, false, PidAge) == Some(v)
    ensures ContentAge(s) == AgeText(v.0, v.1, 0)
  {
  }

  /**
   * When no `@PID:` line holds a `|Y;M|` pair (there may be `@PID:` lines),
   * the leftmost `@ID:` line holding `CHI|Y;M.` decides the age: earlier
   * `@ID:` lines (an adult's, say) hold no such token.
   */
  lemma IdMatchAt(s: string, i: nat, k: nat, v: (nat, nat))
    requires NoPidAge(s)
    requires OccursAt(s, "@ID:", i) && forall j: nat :: j < i ==> LazyMisses(s, "@ID:", false, IdAge, j)
    requires i + 4 <= k <= |s| && IdAge(s, k) == Some(v)
    requires NoneOnLine(s, i + 4, k, IdAge)
    ensures ContentAge(s) == AgeText(v.0, v.1, 0)
  {
    assert |"@ID:"| == 4;
    PidSearchNone(s);
    LazyAtFound<(nat, nat)>(s, "@ID:", false, IdAge, i, k);
    SearchLazyFrom<(nat, nat)>(s, "@ID:", 0, false, IdAge, i, v);
    IdDecides(s, v);
  }

  lemma IdDecides(s: string, v: (nat, nat))
    requires SearchLazy<(nat, nat)>(s, "@PID:", 0, false, PidAge).None?
    requires SearchLazy<(nat, nat)>(s, "@ID:", 0, false, IdAge) == Some(v)
    ensures ContentAge(s) == AgeText(v.0, v.1, 0)
  {
  }

  /**
   * When neither a `@PID:` line nor a `@ID:` line holds its age pattern,
   * the leftmost `*CHI:` line holding digits followed by `;` or `:` after
   * its whitespace gives the first such run as the years, months and days
   * zero: earlier `*CHI:` lines hold no such run.
   */
  lemma ChiMatchAt(s: string, i: nat, k: nat, y: nat)
    requires NoPidAge(s) && NoIdAge(s)
    requires OccursAt(s, "*CHI:", i) && forall j: nat :: j < i ==> LazyMisses(s, "*CHI:", true, ChiYears, j)
    requires SkipSpaces(s, i + 5) <= k <= |s| && ChiYears(s, k) == Some(y)
    requires NoneOnLine(s, SkipSpaces(s, i + 5), k, ChiYears)
    ensures ContentAge(s) == AgeText(y, 0, 0)
  {
    PidSearchNone(s);
    IdSearchNone(s);
    ChiSearchFrom(s, i, k, y);
    ChiDecides(s, y);
  }

  lemma ChiSearchFrom(s: string, i: nat, k: nat, y: nat)
    requires OccursAt(s, "*CHI:", i) && forall j: nat :: j < i ==> LazyMisses(s, "*CHI:", true, ChiYears, j)
    requires SkipSpaces(s, i + 5) <= k <= |s| && ChiYears(s, k) == Some(y)
    requires NoneOnLine(s, SkipSpaces(s, i + 5), k, ChiYears)
    ensures SearchLazy<nat>(s, "*CHI:", 0, true, ChiYears) == Some(y)
  {
    assert |"*CHI:"| == 5;
    LazyAtFound<nat>(s, "*CHI:", true, ChiYears, i, k);
    SearchLazyFrom<nat>(s, "*CHI:", 0, true, ChiYears, i, y);
  }

  lemma ChiDecides(s: string, y: nat)
    requires SearchLazy<(nat, nat)>(s, "@PID:", 0, false, PidAge).None?
    requires SearchLazy<(nat, nat)>(s, "@ID:", 0, false, IdAge).None?
    requires SearchLazy<nat>(s, "*CHI:", 0, true, ChiYears) == Some(y)
    ensures ContentAge(s) == AgeText(y, 0, 0)
  {
  }

  /**
   * When none of the three patterns matches on any line of its key (the
   * keys themselves may occur), the age is the default.
   */
  lemma NoAgeInContent(content: string)
    requires NoPidAge(content) && NoIdAge(content) && NoChiYears(content)
    ensures ContentAge(content) == DefaultAge
  {
    PidSearchNone(content);
    IdSearchNone(content);
    ChiSearchNone(content);
  }

  /** A `|Y;M|` pair is read by the `@PID:` matcher. */
  lemma PidAgeOf(s: string, pre: string, ys: string, ms: string, post: string)
    requires s == pre + ("|" + (ys + (";" + (ms + ("|" + post)))))
    requires ys != [] && AllDigits(ys) && ms != [] && AllDigits(ms)
    ensures PidAge(s, |pre|) == Some((DigitsValue(ys), DigitsValue(ms)))
  {
    assert s[|pre|..] == "|" + (ys + (";" + (ms + ("|" + post))));
    assert s[|pre|] == '|';
    assert s[|pre| + 1..] == s[|pre|..][1..];
    PairAtOf(s, |pre| + 1, ys, ms, '|', post);
  }

  // ---------------------------------------------------------------------
  // Names
  // ---------------------------------------------------------------------

  /** `([a-z]\d+)/` at `j`: the code. */
  function PathCode(s: string, j: nat): (r: Option<string>)
    ensures r.Some? ==> |r.value| >= 2 && IsLower(r.value[0]) && AllDigits(r.value[1..])
  {
    if j < |s| && IsLower(s[j]) then
      match DigitsAt(s, j + 1)
      case None => None
      case Some((ds, e)) =>
        if e < |s| && s[e] == '/' then
          assert s[j..e] == [s[j]] + ds;
          Some(s[j..e])
        else None
    else None
  }

  /**
   * `\s*eng\|([^|]+)\|CHI` at `p`. Giving back whitespace cannot help
   * (`e` is not whitespace), and neither can a shorter name (the next
   * character would not be `|`), so the greedy reading is the only one.
   */
  function IdName(s: string, p: nat): (r: Option<string>)
    ensures r.Some? ==> r.value != [] && '|' !in r.value
  {
    if p > |s| then None
    else
      var q := SkipSpaces(s, p);
      if OccursAt(s, "eng|", q) then
        var e := RunUntil(s, q + 4, '|');
        if e > q + 4 && OccursAt(s, "|CHI", e) then Some(s[q + 4..e]) else None
      else None
  }

  /**
   * A field's rest of line (`key\s*([^\n]+)`), then inside it
   * `inner\s*([^,]+)` (or `\s+` when `minWs` is 1): the second group.
   */
  function Nested(content: string, key: string, inner: string, minWs: nat): (r: Option<string>)
    ensures r.Some? ==> r.value != [] && ',' !in r.value && '\n' !in r.value
  {
    match SearchRun(content, key, 0, 0, '\n')
    case None => None
    case Some(line) =>
      var r := SearchRun(line, inner, 0, minWs, ',');
      if r.Some? then
        NoNewlineInside(line, r.value, inner, minWs);
        r
      else r
  }

  /** A group found inside a text without line breaks has none either. */
  lemma NoNewlineInside(line: string, v: string, inner: string, minWs: nat)
    requires '\n' !in line && SearchRun(line, inner, 0, minWs, ',') == Some(v)
    ensures '\n' !in v
  {
  }

  /**
   * `re.search(r'Brent/([a-z]\d+)/', path)` from `from` on: the code after
   * the leftmost `Brent/` that is followed by one.
   */
  function BrentCode(path: string, from: nat): (r: Option<string>)
    ensures r.Some? ==> |r.value| >= 2 && IsLower(r.value[0]) && AllDigits(r.value[1..])
  {
    var r := SearchAt(path, "Brent/", from, PathCode);
    if r.Some? then
      SearchAtFound(path, "Brent/", from, PathCode);
      r
    else r
  }

  /**
   * `re.search(r'@ID:\s*eng\|([^|]+)\|CHI', content)` from `from` on: the
   * name after the leftmost `@ID:` that is followed by one.
   */
  function IdField(content: string, from: nat): (r: Option<string>)
    ensures r.Some? ==> r.value != [] && '|' !in r.value
  {
    var r := SearchAt(content, "@ID:", from, IdName);
    if r.Some? then
      SearchAtFound(content, "@ID:", from, IdName);
      r
    else r
  }

  /**
   * `extract_child_name(content, file_path)`: the first source that
   * matches, in order: the `Brent/<code>/` part of a path naming Brent,
   * the `@ID:` name before `|CHI`, the name after `CHI` on the
   * `@Participants:` line, after `Child:` on the `@PID:` line, after
   * `name:` on the `@Comment:` line, else `Target_Child`.
   */
  function ExtractChildName(content: Option<string>, filePath: Option<string> := None): (r: string)
    ensures r != []
    ensures PathName(filePath).Some? ==> r == PathName(filePath).value
    ensures content.None? && NoPathCode(filePath) ==> r == "Target_Child"
  {
    var fromPath := PathName(filePath);
    PathNameNone(filePath);
    if fromPath.Some? then fromPath.value
    else if content.None? then "Target_Child"
    else
      var content := content.value;
      var id := IdField(content, 0);
      if id.Some? then id.value
      else
        var byParticipants := Nested(content, "@Participants:", "CHI", 1);
        if byParticipants.Some? then byParticipants.value
        else
          var byPid := Nested(content, "@PID:", "Child:", 0);
          if byPid.Some? then byPid.value
          else
            var byComment := Nested(content, "@Comment:", "name:", 0);
            if byComment.Some? then byComment.value else "Target_Child"
  }

  /** The code a path naming Brent offers: `None` for no path, or a path without `Brent`. */
  function PathName(filePath: Option<string>): Option<string> {
    if filePath.Some? && Contains(filePath.value, "Brent") then BrentCode(filePath.value, 0) else None
  }

  /** No path, a path without `Brent`, or no `Brent/` in it followed by `<letter><digits>/`. */
  ghost predicate NoPathCode(filePath: Option<string>) {
    filePath.None? || !Contains(filePath.value, "Brent") ||
    forall i :: OccursAt(filePath.value, "Brent/", i) ==> PathCode(filePath.value, i + 6).None?
  }

  /** The path offers no name exactly when no `Brent/` in it is followed by a code. */
  lemma PathNameNone(filePath: Option<string>)
    ensures PathName(filePath).None? <==> NoPathCode(filePath)
  {
    if filePath.Some? && Contains(filePath.value, "Brent") {
      BrentCodeNone(filePath.value, 0);
    }
  }

  lemma BrentCodeNone(path: string, from: nat)
    ensures BrentCode(path, from).None? <==>
      forall i :: from <= i && OccursAt(path, "Brent/", i) ==> PathCode(path, i + 6).None?
  {
    assert |"Brent/"| == 6;
    SearchAtNone(path, "Brent/", from, PathCode);
  }

  /** No `@ID:` is followed by whitespace, `eng|`, a name and `|CHI`. */
  ghost predicate NoIdName(content: string) {
    forall i :: OccursAt(content, "@ID:", i) ==> IdName(content, i + 4).None?
  }

  /** The `@ID:` search finds nothing exactly when no `@ID:` is followed by a name. */
  lemma IdFieldMisses(content: string)
    ensures IdField(content, 0).None? <==> NoIdName(content)
  {
    IdFieldNone(content, 0);
  }

  lemma IdFieldNone(content: string, from: nat)
    ensures IdField(content, from).None? <==>
      forall i :: from <= i && OccursAt(content, "@ID:", i) ==> IdName(content, i + 4).None?
  {
    assert |"@ID:"| == 4;
    SearchAtNone(content, "@ID:", from, IdName);
  }

  /**
   * No line the `key` search takes holds `inner` followed by a value:
   * either no `key` is followed by a line at all, or the line the leftmost
   * such `key` takes holds no match of the inner pattern.
   */
  ghost predicate NestedMisses(content: string, key: string, inner: string, minWs: nat) {
    forall i, q :: Capture(content, key, 0, 0, '\n', i, q) ==>
      forall j :: RunMisses(RunGroup(content, q, '\n'), inner, minWs, ',', j)
  }

  /** The nested search gives nothing exactly when it misses in that sense. */
  lemma NestedNone(content: string, key: string, inner: string, minWs: nat)
    ensures Nested(content, key, inner, minWs).None? <==> NestedMisses(content, key, inner, minWs)
  {
    match SearchRun(content, key, 0, 0, '\n')
    case None =>
      SearchRunNoCapture(content, key, 0, 0, '\n');
    case Some(line) =>
      SearchRunCaptured(content, key, 0, 0, '\n');
      SearchRunNone(line, inner, 0, minWs, ',');
  }

  /**
   * When neither the path nor the `@ID:` search names the child, the name
   * after `CHI` and whitespace on the `@Participants:` line does.
   */
  lemma ParticipantsNameDecides(content: string, filePath: Option<string>, v: string)
    requires PathName(filePath).None? && IdField(content, 0).None?
    requires Nested(content, "@Participants:", "CHI", 1) == Some(v)
    ensures ExtractChildName(Some(content), filePath) == v
  {
  }

  /** When the participants give nothing either, the name after `Child:` on the `@PID:` line does. */
  lemma PidNameDecides(content: string, filePath: Option<string>, v: string)
    requires PathName(filePath).None? && IdField(content, 0).None?
    requires Nested(content, "@Participants:", "CHI", 1).None?
    requires Nested(content, "@PID:", "Child:", 0) == Some(v)
    ensures ExtractChildName(Some(content), filePath) == v
  {
  }

  /** Last, the name after `name:` on the `@Comment:` line. */
  lemma CommentNameDecides(content: string, filePath: Option<string>, v: string)
    requires PathName(filePath).None? && IdField(content, 0).None?
    requires Nested(content, "@Participants:", "CHI", 1).None?
    requires Nested(content, "@PID:", "Child:", 0).None?
    requires Nested(content, "@Comment:", "name:", 0) == Some(v)
    ensures ExtractChildName(Some(content), filePath) == v
  {
  }

  /**
   * When none of the five sources gives a name, whether or not their header
   * keys occur, the name is `Target_Child`; and that is the only way to get it
   * unless a source yields that very text.
   */
  lemma NoSourceMatches(content: string, filePath: Option<string>)
    ensures (PathName(filePath).None? && IdField(content, 0).None? &&
             Nested(content, "@Participants:", "CHI", 1).None? &&
             Nested(content, "@PID:", "Child:", 0).None? &&
             Nested(content, "@Comment:", "name:", 0).None?) ==>
      ExtractChildName(Some(content), filePath) == "Target_Child"
  {
  }

  /**
   * When neither the path nor any `@ID:` names the child, a first
   * `@Participants:` line that starts with `CHI`, whitespace and a value up
   * to a comma or the line end names the child by that value.
   */
  lemma ParticipantsNameAt(content: string, filePath: Option<string>,
                           pre: string, ws: string, sp: string, v: string, rest: string, post: string)
    requires NoPathCode(filePath) && NoIdName(content)
    requires content == pre + "@Participants:" + (ws + ("CHI" + sp + v + rest) + post)
    requires FindFrom(content, "@Participants:", 0) == Some(|pre|)
    requires forall k :: 0 <= k < |ws| ==> IsSpace(ws[k])
    requires sp != [] && forall k :: 0 <= k < |sp| ==> IsSpace(sp[k])
    requires '\n' !in sp + v + rest
    requires v != [] && !IsSpace(v[0]) && ',' !in v && (rest == [] || rest[0] == ',')
    requires post == [] || post[0] == '\n'
    ensures ExtractChildName(Some(content), filePath) == v
  {
    assert PathName(filePath).None? by { PathNameNone(filePath); }
    assert IdField(content, 0).None? by { IdFieldMisses(content); }
    assert Nested(content, "@Participants:", "CHI", 1) == Some(v) by {
      assert '\n' !in "CHI";
      NestedAt(content, "@Participants:", "CHI", 1, pre, ws, sp, v, rest, post);
    }
    ParticipantsNameDecides(content, filePath, v);
  }

  /**
   * When the participants line holds no `CHI` name either, a first `@PID:`
   * line that starts with `Child:`, whitespace and a value up to a comma or
   * the line end names the child by that value.
   */
  lemma PidNameAt(content: string, filePath: Option<string>,
                  pre: string, ws: string, sp: string, v: string, rest: string, post: string)
    requires NoPathCode(filePath) && NoIdName(content)
    requires NestedMisses(content, "@Participants:", "CHI", 1)
    requires content == pre + "@PID:" + (ws + ("Child:" + sp + v + rest) + post)
    requires FindFrom(content, "@PID:", 0) == Some(|pre|)
    requires forall k :: 0 <= k < |ws| ==> IsSpace(ws[k])
    requires forall k :: 0 <= k < |sp| ==> IsSpace(sp[k])
    requires '\n' !in sp + v + rest
    requires v != [] && !IsSpace(v[0]) && ',' !in v && (rest == [] || rest[0] == ',')
    requires post == [] || post[0] == '\n'
    ensures ExtractChildName(Some(content), filePath) == v
  {
    MissesBeforePid(content, filePath);
    assert '\n' !in "Child:" && !IsSpace('C');
    LineNested(content, "@PID:", "Child:", pre, ws, sp, v, rest, post);
    PidNameDecides(content, filePath, v);
  }

  lemma MissesBeforePid(content: string, filePath: Option<string>)
    requires NoPathCode(filePath) && NoIdName(content)
    requires NestedMisses(content, "@Participants:", "CHI", 1)
    ensures PathName(filePath).None? && IdField(content, 0).None?
    ensures Nested(content, "@Participants:", "CHI", 1).None?
  {
    PathNameNone(filePath);
    IdFieldMisses(content);
    NestedNone(content, "@Participants:", "CHI", 1);
  }

  /** `key`, then a line starting with `inner` (no whitespace needed after it) and a value: the nested search reads the value. */
  lemma LineNested(content: string, key: string, inner: string,
                   pre: string, ws: string, sp: string, v: string, rest: string, post: string)
    requires content == pre + key + (ws + (inner + sp + v + rest) + post)
    requires FindFrom(content, key, 0) == Some(|pre|)
    requires forall k :: 0 <= k < |ws| ==> IsSpace(ws[k])
    requires inner != [] && !IsSpace(inner[0]) && '\n' !in inner
    requires forall k :: 0 <= k < |sp| ==> IsSpace(sp[k])
    requires '\n' !in sp + v + rest
    requires v != [] && !IsSpace(v[0]) && ',' !in v && (rest == [] || rest[0] == ',')
    requires post == [] || post[0] == '\n'
    ensures Nested(content, key, inner, 0) == Some(v)
  {
    assert inner + sp + v + rest == inner + (sp + v + rest);
    NestedAt(content, key, inner, 0, pre, ws, sp, v, rest, post);
  }

  /**
   * When the `@PID:` line holds no `Child:` name either, a first
   * `@Comment:` line that starts with `name:`, whitespace and a value up to
   * a comma or the line end names the child by that value.
   */
  lemma CommentNameAt(content: string, filePath: Option<string>,
                      pre: string, ws: string, sp: string, v: string, rest: string, post: string)
    requires NoPathCode(filePath) && NoIdName(content)
    requires NestedMisses(content, "@Participants:", "CHI", 1) && NestedMisses(content, "@PID:", "Child:", 0)
    requires content == pre + "@Comment:" + (ws + ("name:" + sp + v + rest) + post)
    requires FindFrom(content, "@Comment:", 0) == Some(|pre|)
    requires forall k :: 0 <= k < |ws| ==> IsSpace(ws[k])
    requires forall k :: 0 <= k < |sp| ==> IsSpace(sp[k])
    requires '\n' !in sp + v + rest
    requires v != [] && !IsSpace(v[0]) && ',' !in v && (rest == [] || rest[0] == ',')
    requires post == [] || post[0] == '\n'
    ensures ExtractChildName(Some(content), filePath) == v
  {
    MissesBeforePid(content, filePath);
    NestedNone(content, "@PID:", "Child:", 0);
    assert '\n' !in "name:" && !IsSpace('n');
    LineNested(content, "@Comment:", "name:", pre, ws, sp, v, rest, post);
    CommentNameDecides(content, filePath, v);
  }

  /**
   * When the path offers no code, no `@ID:` is followed by a name and none
   * of the three header lines holds its inner pattern (the headers
   * themselves may occur), the name is `Target_Child`.
   */
  lemma NoNameMatches(content: string, filePath: Option<string>)
    requires NoPathCode(filePath) && NoIdName(content)
    requires NestedMisses(content, "@Participants:", "CHI", 1)
    requires NestedMisses(content, "@PID:", "Child:", 0)
    requires NestedMisses(content, "@Comment:", "name:", 0)
    ensures ExtractChildName(Some(content), filePath) == "Target_Child"
  {
    PathNameNone(filePath);
    IdFieldMisses(content);
    NestedNone(content, "@Participants:", "CHI", 1);
    NestedNone(content, "@PID:", "Child:", 0);
    NestedNone(content, "@Comment:", "name:", 0);
    NoSourceMatches(content, filePath);
  }

  /**
   * `key\s*([^\n]+)` then `inner\s*([^,]+)` (or `\s+` when `minWs` is 1)
   * on a text whose first `key` is followed by whitespace `ws` and a line
   * that starts with `inner`, whitespace `sp` and the value `v`, which runs
   * up to a comma or the end of that line: the value is `v`.
   */
  lemma NestedAt(content: string, key: string, inner: string, minWs: nat,
                 pre: string, ws: string, sp: string, v: string, rest: string, post: string)
    requires content == pre + key + (ws + (inner + sp + v + rest) + post)
    requires FindFrom(content, key, 0) == Some(|pre|)
    requires forall k :: 0 <= k < |ws| ==> IsSpace(ws[k])
    requires inner != [] && !IsSpace(inner[0]) && '\n' !in inner + sp + v + rest
    requires |sp| >= minWs && forall k :: 0 <= k < |sp| ==> IsSpace(sp[k])
    requires v != [] && !IsSpace(v[0]) && ',' !in v && (rest == [] || rest[0] == ',')
    requires post == [] || post[0] == '\n'
    ensures Nested(content, key, inner, minWs) == Some(v)
  {
    var line := inner + sp + v + rest;
    KeyLine(content, key, pre, ws, line, post);
    InnerRun(line, inner, minWs, sp, v, rest);
  }

  /** A first `key` followed by whitespace and a line: `key\s*([^\n]+)` takes that line. */
  lemma KeyLine(content: string, key: string, pre: string, ws: string, line: string, post: string)
    requires content == pre + key + (ws + line + post)
    requires FindFrom(content, key, 0) == Some(|pre|)
    requires forall k :: 0 <= k < |ws| ==> IsSpace(ws[k])
    requires line != [] && !IsSpace(line[0]) && '\n' !in line
    requires post == [] || post[0] == '\n'
    ensures SearchRun(content, key, 0, 0, '\n') == Some(line)
  {
    assert content[|pre| + |key|..] == ws + line + post;
    RunAfterKey(content, key, |pre|, 0, '\n', ws, line, post);
  }

  /** A line starting with `inner`, whitespace and a value: `inner\s*([^,]+)` takes the value. */
  lemma InnerRun(line: string, inner: string, minWs: nat, sp: string, v: string, rest: string)
    requires line == inner + sp + v + rest && inner != []
    requires |sp| >= minWs && forall k :: 0 <= k < |sp| ==> IsSpace(sp[k])
    requires v != [] && !IsSpace(v[0]) && ',' !in v && (rest == [] || rest[0] == ',')
    ensures SearchRun(line, inner, 0, minWs, ',') == Some(v)
  {
    assert line == [] + inner + (sp + v + rest);
    FindFirst(line, inner, 0, 0);
    assert line[|inner|..] == sp + v + rest;
    RunAfterKey(line, inner, 0, minWs, ',', sp, v, rest);
  }

  /**
   * A transcript without `@ID:` whose first `@Participants:` line starts
   * with `CHI`, whitespace and a name up to the next comma is named by that
   * name: for `CHI Ann Target_Child, MOT Mother` the name is
   * `Ann Target_Child`.
   */
  lemma ParticipantsLineNamesChild(content: string, pre: string, ws: string, sp: string, v: string, rest: string, post: string)
    requires content == pre + "@Participants:" + (ws + ("CHI" + sp + v + rest) + post)
    requires FindFrom(content, "@Participants:", 0) == Some(|pre|) && !Contains(content, "@ID:")
    requires forall k :: 0 <= k < |ws| ==> IsSpace(ws[k])
    requires sp != [] && forall k :: 0 <= k < |sp| ==> IsSpace(sp[k])
    requires '\n' !in sp + v + rest
    requires v != [] && !IsSpace(v[0]) && ',' !in v && (rest == [] || rest[0] == ',')
    requires post == [] || post[0] == '\n'
    ensures ExtractChildName(Some(content)) == v
  {
    assert "CHI" + sp + v + rest == "CHI" + (sp + v + rest);
    assert '\n' !in "CHI";
    NestedAt(content, "@Participants:", "CHI", 1, pre, ws, sp, v, rest, post);
    ParticipantsNameDecides(content, None, v);
  }

  /**
   * `lit\s*([^stop]+)` (`\s+` when `minWs` is 1) with `lit` first found at
   * `i` and followed by whitespace `ws` and a run `v` without `stop` that
   * ends at `stop` or at the end of the text: the group is `v`.
   */
  lemma RunAfterKey(s: string, lit: string, i: nat, minWs: nat, stop: char, ws: string, v: string, rest: string)
    requires FindFrom(s, lit, 0) == Some(i)
    requires s[i + |lit|..] == ws + v + rest
    requires |ws| >= minWs && forall k :: 0 <= k < |ws| ==> IsSpace(ws[k])
    requires v != [] && !IsSpace(v[0]) && stop !in v
    requires rest == [] || rest[0] == stop
    ensures SearchRun(s, lit, 0, minWs, stop) == Some(v)
  {
    var p := i + |lit|;
    var q := p + |ws|;
    assert SkipSpaces(s, p) == q && s[q..] == v + rest && s[q] == v[0] by {
      SkipOver(s, p, ws, v + rest);
    }
    assert RunUntil(s, q, stop) == q + |v| && s[q..q + |v|] == v by {
      RunCut(s, q, stop, v, rest);
    }
    assert GroupAt(s, lit, minWs, stop, i) == Some(v) by {
      assert SpaceThenRun(s, p, q - p, minWs, stop) == Some(v);
    }
  }

  /** A run `v` without `stop`, ended by `stop` or the end of the text, is what `RunUntil` covers. */
  lemma RunCut(s: string, q: nat, stop: char, v: string, rest: string)
    requires q <= |s| && s[q..] == v + rest
    requires stop !in v && (rest == [] || rest[0] == stop)
    ensures RunUntil(s, q, stop) == q + |v| && s[q..q + |v|] == v
  {
    var e := q + |v|;
    assert s[q..e] == v;
    forall j | q <= j < e ensures s[j] != stop { assert s[j] == v[j - q]; }
    if e < |s| {
      assert s[e] == s[q..][|v|] == rest[0];
    }
  }

  /** The code after the first `Brent/` decides the name. */
  lemma BrentCodeDecides(content: string, path: string, i: nat, code: string)
    requires Contains(path, "Brent") && FindFrom(path, "Brent/", 0) == Some(i)
    requires PathCode(path, i + 6) == Some(code)
    ensures ExtractChildName(Some(content), Some(path)) == code
  {
    assert BrentCode(path, 0) == Some(code);
  }

  /**
   * A path holding `Brent/<code>/` (its first `Brent/`) names the child by
   * that code.
   */
  lemma PathNamesChild(content: string, path: string, pre: string, c: char, ds: string, post: string)
    requires path == pre + ("Brent/" + ([c] + (ds + ("/" + post))))
    requires FindFrom(path, "Brent/", 0) == Some(|pre|)
    requires IsLower(c) && ds != [] && AllDigits(ds)
    ensures ExtractChildName(Some(content), Some(path)) == [c] + ds
  {
    assert path[|pre|..] == "Brent/" + ([c] + (ds + ("/" + post)));
    CodeAfterBrent(content, path, |pre|, c, ds, post);
  }

  lemma CodeAfterBrent(content: string, path: string, i: nat, c: char, ds: string, post: string)
    requires i <= |path| && path[i..] == "Brent/" + ([c] + (ds + ("/" + post)))
    requires FindFrom(path, "Brent/", 0) == Some(i)
    requires IsLower(c) && ds != [] && AllDigits(ds)
    ensures ExtractChildName(Some(content), Some(path)) == [c] + ds
  {
    BrentAt(path, i, [c] + (ds + ("/" + post)));
    PathCodeAt(path, i + 6, c, ds, post);
    BrentCodeDecides(content, path, i, [c] + ds);
  }

  /** `Brent/` at `i`: the path mentions `Brent`, and what follows the slash is `x`. */
  lemma BrentAt(path: string, i: nat, x: string)
    requires i <= |path| && path[i..] == "Brent/" + x
    ensures Contains(path, "Brent") && path[i + 6..] == x
  {
    assert "Brent/" + x == "Brent" + ("/" + x);
    LitAt(path, i, "Brent", "/" + x);
    FindFirstOf(path, "Brent", i);
    LitAt(path, i, "Brent/", x);
  }

  /** A lower-case letter, digits and `/` at `j`: `PathCode` reads letter and digits. */
  lemma PathCodeAt(s: string, j: nat, c: char, ds: string, post: string)
    requires j <= |s| && s[j..] == [c] + (ds + ("/" + post))
    requires IsLower(c) && ds != [] && AllDigits(ds)
    ensures PathCode(s, j) == Some([c] + ds)
  {
    assert s[j] == s[j..][0];
    assert s[j + 1..] == s[j..][1..];
    DigitsAtSuffix(s, j + 1, ds, "/" + post);
    var e := j + 1 + |ds|;
    assert s[e] == s[e..][0];
    assert s[j..e] == [s[j]] + s[j + 1..e];
  }

  lemma FindFirstOf(s: string, pat: string, i: nat)
    requires OccursAt(s, pat, i)
    ensures Contains(s, pat)
  {
    ContainsIff(s, pat);
  }

  /**
   * Without a path, a transcript whose `@ID:` at `i` is followed by
   * whitespace, `eng|`, a name and `|CHI` is named by that name, provided
   * no earlier `@ID:` is followed by that shape (an adult's line ending in
   * `|MOT`, say).
   */
  lemma IdNamesChild(content: string, i: nat, sp: string, n: string, post: string)
    requires i <= |content| && content[i..] == "@ID:" + (sp + ("eng|" + (n + ("|CHI" + post))))
    requires forall j :: j < i && OccursAt(content, "@ID:", j) ==> IdName(content, j + 4).None?
    requires forall j :: 0 <= j < |sp| ==> IsSpace(sp[j])
    requires n != [] && '|' !in n
    ensures ExtractChildName(Some(content), None) == n
  {
    assert |"@ID:"| == 4;
    LitAt(content, i, "@ID:", sp + ("eng|" + (n + ("|CHI" + post))));
    IdNameAt(content, i + 4, sp, n, post);
    SearchAtFrom(content, "@ID:", 0, IdName, i, n);
    IdFieldDecides(content, n);
  }

  /** Without a path, a name from the `@ID:` search is the child's name. */
  lemma IdFieldDecides(content: string, n: string)
    requires IdField(content, 0) == Some(n)
    ensures ExtractChildName(Some(content), None) == n
  {
  }

  /** Whitespace, `eng|`, a name and `|CHI` at `p`: `IdName` reads that name. */
  lemma IdNameAt(s: string, p: nat, sp: string, n: string, post: string)
    requires p <= |s| && s[p..] == sp + ("eng|" + (n + ("|CHI" + post)))
    requires forall j :: 0 <= j < |sp| ==> IsSpace(sp[j])
    requires n != [] && '|' !in n
    ensures IdName(s, p) == Some(n)
  {
    SkipOver(s, p, sp, "eng|" + (n + ("|CHI" + post)));
    EngAt(s, p, p + |sp|, n, post);
  }

  lemma EngAt(s: string, p: nat, q: nat, n: string, post: string)
    requires p <= q <= |s| && SkipSpaces(s, p) == q
    requires s[q..] == "eng|" + (n + ("|CHI" + post))
    requires n != [] && '|' !in n
    ensures IdName(s, p) == Some(n)
  {
    LitAt(s, q, "eng|", n + ("|CHI" + post));
    NameAt(s, p, q, n, post);
  }

  lemma NameAt(s: string, p: nat, q: nat, n: string, post: string)
    requires p <= q <= |s| && SkipSpaces(s, p) == q && OccursAt(s, "eng|", q)
    requires q + 4 <= |s| && s[q + 4..] == n + ("|CHI" + post)
    requires n != [] && '|' !in n
    ensures IdName(s, p) == Some(n)
  {
    NameRun(s, q, n, post);
    IdNameFrom(s, p, q, q + 4 + |n|, n);
  }

  /** The name runs up to the `|CHI` that follows it. */
  lemma NameRun(s: string, q: nat, n: string, post: string)
    requires q + 4 <= |s| && s[q + 4..] == n + ("|CHI" + post)
    requires '|' !in n
    ensures var e := q + 4 + |n|; e <= |s| && RunUntil(s, q + 4, '|') == e && s[q + 4..e] == n && OccursAt(s, "|CHI", e)
  {
    var e := q + 4 + |n|;
    assert RunUntil(s, q + 4, '|') == e && s[q + 4..e] == n && s[e..] == "|CHI" + post by {
      assert "|CHI" + post == ['|'] + ("CHI" + post);
      UntilAt(s, q + 4, n, '|', "CHI" + post);
    }
    LitAt(s, e, "|CHI", post);
  }

  /** `eng|` after the whitespace at `p`, a run up to `e` and `|CHI` there: the run is the name. */
  lemma IdNameFrom(s: string, p: nat, q: nat, e: nat, n: string)
    requires p <= q <= |s| && SkipSpaces(s, p) == q && OccursAt(s, "eng|", q)
    requires q + 4 < e <= |s| && RunUntil(s, q + 4, '|') == e && s[q + 4..e] == n && OccursAt(s, "|CHI", e)
    ensures IdName(s, p) == Some(n)
  {
  }

  /** With none of the five sources present the name is `Target_Child`. */
  lemma NoNameFound(content: string)
    requires !Contains(content, "@ID:") && !Contains(content, "@Participants:")
    requires !Contains(content, "@PID:") && !Contains(content, "@Comment:")
    ensures ExtractChildName(Some(content), None) == "Target_Child"
  {
  }

  // ---------------------------------------------------------------------
  // Header lines
  // ---------------------------------------------------------------------

  function AgeLine(age: string): string { "@ChildAge: " + age }

  function NameLine(name: string): string { "@ChildName: " + name }

  /** The three line prefixes the rewrite looks at exclude one another. */
  lemma PrefixesDiffer(line: string)
    ensures StartsWith(line, "@ChildAge:") ==> !StartsWith(line, "@ChildName:") && !StartsWith(line, "@Languages:")
    ensures StartsWith(line, "@ChildName:") ==> !StartsWith(line, "@Languages:")
  {
    if StartsWith(line, "@ChildAge:") {
      assert line[6] == "@ChildAge:"[6];
      assert line[1] == "@ChildAge:"[1];
    }
    if StartsWith(line, "@ChildName:") {
      assert line[1] == "@ChildName:"[1];
    }
  }

  /** A line as the first part of the loop body writes it out. */
  function Rewrite(line: string, age: string, name: string): string {
    if StartsWith(line, "@ChildAge:") && age != "" then AgeLine(age)
    else if StartsWith(line, "@ChildName:") && name != "" then NameLine(name)
    else line
  }

  /** The loop's variables: `new_lines` and the three flags. */
  datatype State = State(out: seq<string>, languagesFound: bool, ageAdded: bool, nameAdded: bool)

  /** One pass of the loop body on `line`. */
  function Step(st: State, line: string, age: string, name: string): State {
    var ageHit := StartsWith(line, "@ChildAge:") && age != "";
    var nameHit := !ageHit && StartsWith(line, "@ChildName:") && name != "";
    var out := st.out + [Rewrite(line, age, name)];
    var ageAdded := st.ageAdded || ageHit;
    var nameAdded := st.nameAdded || nameHit;
    if StartsWith(line, "@Languages:") && !st.languagesFound then
      var extraAge := if age != "" && !ageAdded then [AgeLine(age)] else [];
      var extraName := if name != "" && !nameAdded then [NameLine(name)] else [];
      State(out + extraAge + extraName, true, ageAdded || age != "", nameAdded || name != "")
    else State(out, st.languagesFound, ageAdded, nameAdded)
  }

  /** The loop over `lines`, from the initial state. */
  function Run(lines: seq<string>, age: string, name: string): State {
    if lines == [] then State([], false, false, false)
    else Step(Run(lines[..|lines| - 1], age, name), lines[|lines| - 1], age, name)
  }

  /**
   * `add_metadata_to_content`: `""` for no content; otherwise the lines
   * after the loop, joined again.
   */
  function AddMetadataToContent(content: Option<string>, age: string, name: string): string {
    match content
    case None => ""
    case Some(c) => Join(Run(Split(c, '\n'), age, name).out, '\n')
  }

  /** The method form of the loop. */
  method AddMetadata(content: Option<string>, age: string, name: string) returns (r: string)
    ensures r == AddMetadataToContent(content, age, name)
  {
    if content.None? {
      return "";
    }
    var lines := Split(content.value, '\n');
    var newLines: seq<string> := [];
    var languagesFound, ageAdded, nameAdded := false, false, false;
    var i := 0;
    while i < |lines|
      invariant 0 <= i <= |lines|
      invariant State(newLines, languagesFound, ageAdded, nameAdded) == Run(lines[..i], age, name)
    {
      var line := lines[i];
      assert lines[..i + 1][..i] == lines[..i];
      assert lines[..i + 1][i] == line;
      assert Run(lines[..i + 1], age, name) == Step(Run(lines[..i], age, name), line, age, name);
      if StartsWith(line, "@ChildAge:") && age != "" {
        newLines := newLines + [AgeLine(age)];
        ageAdded := true;
      } else if StartsWith(line, "@ChildName:") && name != "" {
        newLines := newLines + [NameLine(name)];
        nameAdded := true;
      } else {
        newLines := newLines + [line];
      }
      if StartsWith(line, "@Languages:") && !languagesFound {
        languagesFound := true;
        if age != "" && !ageAdded {
          newLines := newLines + [AgeLine(age)];
          ageAdded := true;
        }
        if name != "" && !nameAdded {
          newLines := newLines + [NameLine(name)];
          nameAdded := true;
        }
      }
      i := i + 1;
    }
    assert lines[..i] == lines;
    r := Join(newLines, '\n');
  }

  // The shape of the result.

  /** Every line rewritten. */
  function Rewritten(lines: seq<string>, age: string, name: string): (r: seq<string>)
    ensures |r| == |lines|
  {
    if lines == [] then [] else Rewritten(lines[..|lines| - 1], age, name) + [Rewrite(lines[|lines| - 1], age, name)]
  }

  /** Some line starts with `key`. */
  predicate AnyStarts(lines: seq<string>, key: string) {
    lines != [] && (AnyStarts(lines[..|lines| - 1], key) || StartsWith(lines[|lines| - 1], key))
  }

  lemma {:induction false} AnyStartsIff(lines: seq<string>, key: string)
    ensures AnyStarts(lines, key) <==> exists k :: 0 <= k < |lines| && StartsWith(lines[k], key)
  {
    if lines != [] {
      var init := lines[..|lines| - 1];
      AnyStartsIff(init, key);
      if AnyStarts(init, key) {
        var k :| 0 <= k < |init| && StartsWith(init[k], key);
        assert lines[k] == init[k];
      }
      if exists k :: 0 <= k < |lines| && StartsWith(lines[k], key) {
        var k :| 0 <= k < |lines| && StartsWith(lines[k], key);
        if k < |init| { assert init[k] == lines[k]; }
      }
    }
  }

  /** The index of the first `@Languages:` line. */
  function FirstLanguages(lines: seq<string>): (r: Option<nat>)
    ensures r.Some? ==> r.value < |lines| && StartsWith(lines[r.value], "@Languages:")
  {
    if lines == [] then None
    else
      var f := FirstLanguages(lines[..|lines| - 1]);
      if f.Some? then f
      else if StartsWith(lines[|lines| - 1], "@Languages:") then Some(|lines| - 1)
      else None
  }

  lemma {:induction false} FirstLanguagesFirst(lines: seq<string>)
    ensures FirstLanguages(lines).None? ==> forall k :: 0 <= k < |lines| ==> !StartsWith(lines[k], "@Languages:")
    ensures FirstLanguages(lines).Some? ==> forall k :: 0 <= k < FirstLanguages(lines).value ==> !StartsWith(lines[k], "@Languages:")
  {
    if lines != [] {
      var init := lines[..|lines| - 1];
      FirstLanguagesFirst(init);
      forall k | 0 <= k < |init| ensures lines[k] == init[k] {}
    }
  }

  /** The lines inserted after the first `@Languages:` line, given the lines before it. */
  function Inserted(before: seq<string>, age: string, name: string): seq<string> {
    (if age != "" && !AnyStarts(before, "@ChildAge:") then [AgeLine(age)] else []) +
    (if name != "" && !AnyStarts(before, "@ChildName:") then [NameLine(name)] else [])
  }

  /**
   * The output lines: every line rewritten, and after the first
   * `@Languages:` line the age and name lines not already written by a
   * rewrite above it.
   */
  function Expected(lines: seq<string>, age: string, name: string): seq<string> {
    match FirstLanguages(lines)
    case None => Rewritten(lines, age, name)
    case Some(l) => Rewritten(lines[..l + 1], age, name) + Inserted(lines[..l], age, name) + Rewritten(lines[l + 1..], age, name)
  }

  /** The three flags after the loop has seen `lines`. */
  lemma {:induction false} RunFlags(lines: seq<string>, age: string, name: string)
    ensures Run(lines, age, name).languagesFound == FirstLanguages(lines).Some?
    ensures Run(lines, age, name).ageAdded == (age != "" && (AnyStarts(lines, "@ChildAge:") || FirstLanguages(lines).Some?))
    ensures Run(lines, age, name).nameAdded == (name != "" && (AnyStarts(lines, "@ChildName:") || FirstLanguages(lines).Some?))
  {
    if lines != [] {
      RunFlags(lines[..|lines| - 1], age, name);
      PrefixesDiffer(lines[|lines| - 1]);
    }
  }

  lemma RewrittenSnoc(a: seq<string>, x: string, age: string, name: string)
    ensures Rewritten(a + [x], age, name) == Rewritten(a, age, name) + [Rewrite(x, age, name)]
  {
    assert (a + [x])[..|a|] == a;
  }

  /** One more line after the anchor is rewritten and appended. */
  lemma OutAfterAnchor(init: seq<string>, x: string, age: string, name: string, l: nat)
    requires FirstLanguages(init) == Some(l)
    ensures FirstLanguages(init + [x]) == Some(l)
    ensures Expected(init + [x], age, name) == Expected(init, age, name) + [Rewrite(x, age, name)]
  {
    var lines := init + [x];
    assert lines[..|lines| - 1] == init;
    assert FirstLanguages(lines) == Some(l);
    SnocParts(init, x, l);
    RewrittenSnoc(init[l + 1..], x, age, name);
    ExpectedParts(lines, l, age, name);
    ExpectedParts(init, l, age, name);
    AppendLast(Rewritten(init[..l + 1], age, name), Inserted(init[..l], age, name), Rewritten(init[l + 1..], age, name),
      Rewrite(x, age, name));
  }

  /** The parts of `init + [x]` around a line `l` of `init`. */
  lemma SnocParts<T>(init: seq<T>, x: T, l: nat)
    requires l < |init|
    ensures (init + [x])[..l + 1] == init[..l + 1] && (init + [x])[..l] == init[..l]
    ensures (init + [x])[l + 1..] == init[l + 1..] + [x]
  {
  }

  /** `Expected` when the first `@Languages:` line is line `l`. */
  lemma ExpectedParts(lines: seq<string>, l: nat, age: string, name: string)
    requires FirstLanguages(lines) == Some(l)
    ensures Expected(lines, age, name) ==
      Rewritten(lines[..l + 1], age, name) + Inserted(lines[..l], age, name) + Rewritten(lines[l + 1..], age, name)
  {
  }

  lemma AppendLast<T>(a: seq<T>, b: seq<T>, c: seq<T>, d: T)
    ensures a + b + (c + [d]) == a + b + c + [d]
  {
  }

  /** The anchor line itself: rewritten, then the inserted lines. */
  lemma OutAtAnchor(init: seq<string>, x: string, age: string, name: string)
    requires FirstLanguages(init).None? && StartsWith(x, "@Languages:")
    ensures FirstLanguages(init + [x]) == Some(|init|)
    ensures Expected(init + [x], age, name) == Rewritten(init, age, name) + [Rewrite(x, age, name)] + Inserted(init, age, name)
  {
    var lines := init + [x];
    assert lines[..|lines| - 1] == init;
    assert lines[..|init| + 1] == lines && lines[..|init|] == init && lines[|init| + 1..] == [];
  }

  /** A line before the anchor is rewritten and appended. */
  lemma OutBeforeAnchor(init: seq<string>, x: string, age: string, name: string)
    requires FirstLanguages(init).None? && !StartsWith(x, "@Languages:")
    ensures FirstLanguages(init + [x]).None?
    ensures Expected(init + [x], age, name) == Rewritten(init, age, name) + [Rewrite(x, age, name)]
  {
    var lines := init + [x];
    assert lines[..|lines| - 1] == init;
  }

  /** The loop's output after any prefix of the lines is the expected one. */
  lemma {:induction false} RunOut(lines: seq<string>, age: string, name: string)
    ensures Run(lines, age, name).out == Expected(lines, age, name)
  {
    if lines != [] {
      var init := lines[..|lines| - 1];
      var x := lines[|lines| - 1];
      RunOut(init, age, name);
      RunFlags(init, age, name);
      PrefixesDiffer(x);
      assert lines == init + [x];
      match FirstLanguages(init)
      case Some(l) => OutAfterAnchor(init, x, age, name, l);
      case None =>
        if StartsWith(x, "@Languages:") {
          OutAtAnchor(init, x, age, name);
        } else {
          OutBeforeAnchor(init, x, age, name);
        }
    }
  }

  /** The result of the splice, line by line. */
  lemma AddMetadataLines(c: string, age: string, name: string)
    ensures AddMetadataToContent(Some(c), age, name) == Join(Expected(Split(c, '\n'), age, name), '\n')
  {
    RunOut(Split(c, '\n'), age, name);
  }

  /** No line is an age or a name line. */
  predicate NoMetadata(lines: seq<string>) {
    forall k :: 0 <= k < |lines| ==> !StartsWith(lines[k], "@ChildAge:") && !StartsWith(lines[k], "@ChildName:")
  }

  lemma NoMetadataPrefix(lines: seq<string>, n: nat)
    requires n <= |lines| && NoMetadata(lines)
    ensures NoMetadata(lines[..n])
  {
    forall k | 0 <= k < n ensures !StartsWith(lines[..n][k], "@ChildAge:") && !StartsWith(lines[..n][k], "@ChildName:") {
      assert lines[..n][k] == lines[k];
    }
  }

  lemma NoMetadataSuffix(lines: seq<string>, n: nat)
    requires n <= |lines| && NoMetadata(lines)
    ensures NoMetadata(lines[n..])
  {
    forall k | 0 <= k < |lines| - n ensures !StartsWith(lines[n..][k], "@ChildAge:") && !StartsWith(lines[n..][k], "@ChildName:") {
      assert lines[n..][k] == lines[n + k];
    }
  }

  lemma {:induction false} RewrittenUnchanged(lines: seq<string>, age: string, name: string)
    requires NoMetadata(lines)
    ensures Rewritten(lines, age, name) == lines
  {
    if lines != [] {
      NoMetadataPrefix(lines, |lines| - 1);
      RewrittenUnchanged(lines[..|lines| - 1], age, name);
    }
  }

  /** Content without a `@Languages:` line and without metadata lines comes back as it was. */
  lemma NoAnchorUnchanged(c: string, age: string, name: string)
    requires FirstLanguages(Split(c, '\n')).None?
    requires NoMetadata(Split(c, '\n'))
    ensures AddMetadataToContent(Some(c), age, name) == c
  {
    AddMetadataLines(c, age, name);
    RewrittenUnchanged(Split(c, '\n'), age, name);
    JoinSplit(c, '\n');
  }

  // ---------------------------------------------------------------------
  // Reading the inserted lines back
  // ---------------------------------------------------------------------

  /** A value the reader gives back as written: one line, no edge whitespace. */
  predicate OneLine(v: string) {
    v != [] && '\n' !in v && !IsSpace(v[0]) && !IsSpace(v[|v| - 1])
  }

  /** The age line holds `@ChildName:` only if the age does. */
  lemma AgeLineNoName(age: string)
    requires !Contains(age, "@ChildName:")
    ensures !Contains(AgeLine(age), "@ChildName:")
  {
    var s := AgeLine(age);
    var key := "@ChildName:";
    assert |"@ChildAge: "| == 11 && |key| == 11;
    forall j | 0 <= j ensures !OccursAt(s, key, j) {
      if OccursAt(s, key, j) {
        assert s[j..j + 11][0] == '@' && s[j..j + 11][6] == 'N';
        assert j >= 11;
        assert age[j - 11..j] == s[j..j + 11];
        assert OccursAt(age, key, j - 11);
        ContainsIff(age, key);
      }
    }
    ContainsIff(s, key);
  }

  /** No line of a text without `key` starts with it. */
  lemma NoLineStarts(c: string, key: string)
    requires !Contains(c, key)
    ensures forall k :: 0 <= k < |Split(c, '\n')| ==> !StartsWith(Split(c, '\n')[k], key)
  {
    var lines := Split(c, '\n');
    JoinSplit(c, '\n');
    forall k | 0 <= k < |lines| ensures !StartsWith(lines[k], key) {
      StartsContains(lines[k], key);
      if Contains(lines[k], key) {
        JoinContains(lines, k, '\n', key);
      }
    }
  }

  /** Joining with two lines put between `a` and `b`. */
  lemma JoinTwoAfter(a: seq<string>, p: string, q: string, b: seq<string>)
    requires a != []
    ensures var t := if b == [] then "" else "\n" + Join(b, '\n');
      Join(a + [p, q] + b, '\n') == Join(a, '\n') + "\n" + (p + "\n" + (q + t)) &&
      Join(a + b, '\n') == Join(a, '\n') + t
  {
    var t := if b == [] then "" else "\n" + Join(b, '\n');
    assert Join(a + [p, q] + b, '\n') == Join(a, '\n') + "\n" + (p + "\n" + (q + t)) by {
      JoinTwoLines(a, p, q, b);
    }
    if b != [] {
      JoinAppend(a, b, '\n');
    } else {
      assert a + b == a;
    }
  }

  lemma JoinTwoLines(a: seq<string>, p: string, q: string, b: seq<string>)
    requires a != []
    ensures var t := if b == [] then "" else "\n" + Join(b, '\n');
      Join(a + [p, q] + b, '\n') == Join(a, '\n') + "\n" + (p + "\n" + (q + t))
  {
    var pq := [p, q] + b;
    assert a + [p, q] + b == a + pq;
    JoinAppend(a, pq, '\n');
    assert pq[1..] == [q] + b;
    assert ([q] + b)[1..] == b;
  }

  lemma AgeRead(x: string, age: string, rest: string)
    requires !Contains(x, "@ChildAge:") && OneLine(age)
    ensures ChatReader.ChildAge(x + "\n" + (AgeLine(age) + "\n" + rest)) == Some(age)
  {
    assert AgeLine(age) + "\n" + rest == "@ChildAge:" + " " + age + ("\n" + rest);
    FieldAfterBreak(x, "@ChildAge:", age, "\n" + rest);
  }

  lemma NameRead(x: string, age: string, name: string, t: string)
    requires !Contains(x, "@ChildName:") && !Contains(age, "@ChildName:") && OneLine(name)
    requires t == [] || t[0] == '\n'
    ensures ChatReader.ChildName(x + "\n" + (AgeLine(age) + "\n" + (NameLine(name) + t))) == Some(Some(name))
  {
    var s := x + "\n" + (AgeLine(age) + "\n" + (NameLine(name) + t));
    assert FieldPayload(s, "@ChildName:") == Some(name) by {
      AgeLineNoName(age);
      NoKeyAcross(x, AgeLine(age), "@ChildName:");
      assert s == (x + "\n" + AgeLine(age)) + "\n" + ("@ChildName:" + " " + name + t);
      FieldAfterBreak(x + "\n" + AgeLine(age), "@ChildName:", name, t);
    }
    assert Contains(s, "@ChildName:");
  }

  /** With no age or name line yet, the two lines go right after the first `@Languages:` line. */
  lemma FreshLines(c: string, age: string, name: string)
    requires !Contains(c, "@ChildAge:") && !Contains(c, "@ChildName:")
    requires FirstLanguages(Split(c, '\n')).Some?
    requires age != "" && name != ""
    ensures var lines := Split(c, '\n');
      var l := FirstLanguages(lines).value;
      Expected(lines, age, name) == lines[..l + 1] + [AgeLine(age), NameLine(name)] + lines[l + 1..]
  {
    var lines := Split(c, '\n');
    NoLineStarts(c, "@ChildAge:");
    NoLineStarts(c, "@ChildName:");
    assert NoMetadata(lines);
    FreshExpected(lines, FirstLanguages(lines).value, age, name);
  }

  lemma FreshExpected(lines: seq<string>, l: nat, age: string, name: string)
    requires FirstLanguages(lines) == Some(l) && NoMetadata(lines)
    requires age != "" && name != ""
    ensures Expected(lines, age, name) == lines[..l + 1] + [AgeLine(age), NameLine(name)] + lines[l + 1..]
  {
    NoMetadataPrefix(lines, l + 1);
    NoMetadataSuffix(lines, l + 1);
    NoMetadataPrefix(lines, l);
    RewrittenUnchanged(lines[..l + 1], age, name);
    RewrittenUnchanged(lines[l + 1..], age, name);
    NoneStarts(lines[..l]);
    ExpectedUnchanged(lines, l, age, name);
  }

  lemma ExpectedUnchanged(lines: seq<string>, l: nat, age: string, name: string)
    requires FirstLanguages(lines) == Some(l)
    requires Rewritten(lines[..l + 1], age, name) == lines[..l + 1]
    requires Rewritten(lines[l + 1..], age, name) == lines[l + 1..]
    requires Inserted(lines[..l], age, name) == [AgeLine(age), NameLine(name)]
    ensures Expected(lines, age, name) == lines[..l + 1] + [AgeLine(age), NameLine(name)] + lines[l + 1..]
  {
    ExpectedParts(lines, l, age, name);
  }

  lemma NoneStarts(lines: seq<string>)
    requires NoMetadata(lines)
    ensures !AnyStarts(lines, "@ChildAge:") && !AnyStarts(lines, "@ChildName:")
  {
    AnyStartsIff(lines, "@ChildAge:");
    AnyStartsIff(lines, "@ChildName:");
  }

  /** Joining text split into `a` and `b` with the two lines put between them. */
  lemma JoinedFresh(c: string, a: seq<string>, b: seq<string>, age: string, name: string)
    requires Split(c, '\n') == a + b && a != []
    requires !Contains(c, "@ChildAge:") && !Contains(c, "@ChildName:")
    requires OneLine(age) && OneLine(name) && !Contains(age, "@ChildName:")
    ensures ChatReader.ChildAge(Join(a + [AgeLine(age), NameLine(name)] + b, '\n')) == Some(age)
    ensures ChatReader.ChildName(Join(a + [AgeLine(age), NameLine(name)] + b, '\n')) == Some(Some(name))
  {
    JoinTwoAfter(a, AgeLine(age), NameLine(name), b);
    JoinSplit(c, '\n');
    var x := Join(a, '\n');
    var t := if b == [] then "" else "\n" + Join(b, '\n');
    ReadBoth(c, x, t, age, name);
  }

  lemma ReadBoth(c: string, x: string, t: string, age: string, name: string)
    requires c == x + t && (t == [] || t[0] == '\n')
    requires !Contains(c, "@ChildAge:") && !Contains(c, "@ChildName:")
    requires OneLine(age) && OneLine(name) && !Contains(age, "@ChildName:")
    ensures ChatReader.ChildAge(x + "\n" + (AgeLine(age) + "\n" + (NameLine(name) + t))) == Some(age)
    ensures ChatReader.ChildName(x + "\n" + (AgeLine(age) + "\n" + (NameLine(name) + t))) == Some(Some(name))
  {
    assert [] + x + t == c;
    ContainsIn([], x, t, "@ChildAge:");
    ContainsIn([], x, t, "@ChildName:");
    AgeRead(x, age, NameLine(name) + t);
    NameRead(x, age, name, t);
  }

  /**
   * Into content with a `@Languages:` line and no age or name text yet, the
   * inserted one-line age and name are what the transcript reader reads.
   */
  lemma RoundTrip(c: string, age: string, name: string)
    requires !Contains(c, "@ChildAge:") && !Contains(c, "@ChildName:")
    requires FirstLanguages(Split(c, '\n')).Some?
    requires OneLine(age) && OneLine(name) && !Contains(age, "@ChildName:")
    ensures ChatReader.ChildAge(AddMetadataToContent(Some(c), age, name)) == Some(age)
    ensures ChatReader.ChildName(AddMetadataToContent(Some(c), age, name)) == Some(Some(name))
  {
    var lines := Split(c, '\n');
    var l := FirstLanguages(lines).value;
    var before, after := lines[..l + 1], lines[l + 1..];
    FreshContent(c, age, name, before, after);
    JoinedFresh(c, before, after, age, name);
  }

  /** The new content is the old lines with the age and name lines right after the first `@Languages:` line. */
  lemma FreshContent(c: string, age: string, name: string, before: seq<string>, after: seq<string>)
    requires !Contains(c, "@ChildAge:") && !Contains(c, "@ChildName:")
    requires FirstLanguages(Split(c, '\n')).Some? && age != "" && name != ""
    requires var l := FirstLanguages(Split(c, '\n')).value;
      before == Split(c, '\n')[..l + 1] && after == Split(c, '\n')[l + 1..]
    ensures Split(c, '\n') == before + after && before != []
    ensures AddMetadataToContent(Some(c), age, name) == Join(before + [AgeLine(age), NameLine(name)] + after, '\n')
  {
    assert Split(c, '\n') == before + after;
    assert AddMetadataToContent(Some(c), age, name) == Join(before + [AgeLine(age), NameLine(name)] + after, '\n') by {
      AddMetadataLines(c, age, name);
      FreshLines(c, age, name);
    }
  }
}
