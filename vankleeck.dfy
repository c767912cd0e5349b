/**
 * The VanKleeck corpus normaliser (src/modify_vankleeck_files.py): the age
 * comes from the `@ID:` header's `eng|VanKleeck|CHI|Y;MM.|` token (days are
 * not recorded), and the transcripts are grouped by the child name that
 * leads their file names.
 */
module VanKleeck {
  import opened Wrappers
  import opened Text
  import opened Scan
  import opened Dicts
  import Splice
  import ChildHeader

  /** What `extract_age` returns for the years and months as written. */
  function AgeText(y: string, mo: string): string {
    y + " years " + mo + " months 0 days"
  }

  predicate Pair(t: (string, string)) {
    t.0 != [] && AllDigits(t.0) && t.1 != [] && AllDigits(t.1)
  }

  /** `eng\|VanKleeck\|CHI\|(\d+);(\d+)\.\|` at `p`: the two runs. */
  function IdAge(s: string, p: nat): (r: Option<(string, string)>)
    ensures r.Some? ==> Pair(r.value)
  {
    if !OccursAt(s, "eng|VanKleeck|CHI|", p) then None
    else
      var a := RunThen(s, p + 18, ';');
      if a.None? then None
      else
        var b := RunThen(s, a.value.1, '.');
        if b.None? || !(b.value.1 < |s| && s[b.value.1] == '|') then None
        else Some((a.value.0, b.value.0))
  }

  /**
   * `extract_age` on the text of the file, `None` for a missing file: the
   * leftmost match of `@ID:\s*eng\|VanKleeck\|CHI\|(\d+);(\d+)\.\|`.
   */
  function ExtractAge(file: Option<string>): (r: Option<string>)
    ensures file.None? ==> r.None?
    ensures file.Some? ==> (r.Some? <==> SearchSpaced(file.value, "@ID:", 0, IdAge).Some?)
  {
    match file
    case None => None
    case Some(c) =>
      match SearchSpaced(c, "@ID:", 0, IdAge)
      case None => None
      case Some(t) => Some(AgeText(t.0, t.1))
  }

  /** The `@ID:` token of a VanKleeck child, as the corpus writes it, followed by `post`. */
  function Token(y: string, mo: string, post: string): string {
    "eng|VanKleeck|CHI|" + (y + (";" + (mo + (".|" + post))))
  }

  /** A VanKleeck child token at `p` is read by the matcher. */
  lemma IdAgeAt(s: string, p: nat, y: string, mo: string, post: string)
    requires p <= |s| && s[p..] == Token(y, mo, post)
    requires Pair((y, mo))
    ensures IdAge(s, p) == Some((y, mo))
  {
    LitAt(s, p, "eng|VanKleeck|CHI|", y + (";" + (mo + (".|" + post))));
    YearsAt(s, p, y, mo, post);
  }

  /** The years run and what follows it, after the literal part of the token. */
  lemma YearsAt(s: string, p: nat, y: string, mo: string, post: string)
    requires OccursAt(s, "eng|VanKleeck|CHI|", p) && s[p + 18..] == y + (";" + (mo + (".|" + post)))
    requires Pair((y, mo))
    ensures IdAge(s, p) == Some((y, mo))
  {
    RunAt(s, p + 18, y, ';', mo + (".|" + post));
    MonthsAt(s, p, p + 18 + |y| + 1, y, mo, post);
  }

  lemma MonthsAt(s: string, p: nat, q: nat, y: string, mo: string, post: string)
    requires OccursAt(s, "eng|VanKleeck|CHI|", p) && RunThen(s, p + 18, ';') == Some((y, q))
    requires q <= |s| && s[q..] == mo + (".|" + post)
    requires Pair((y, mo))
    ensures IdAge(s, p) == Some((y, mo))
  {
    assert s[q..] == mo + ("." + ("|" + post));
    RunAt(s, q, mo, '.', "|" + post);
    assert s[q + |mo| + 1..][0] == '|';
  }

  /**
   * Text with an `@ID:` at `i` followed by whitespace and a VanKleeck child
   * token gives that token's years and months and zero days, provided the pattern matches after no earlier
   * `@ID:` (an adult's header, say).
   */
  lemma AgeOfHeader(s: string, i: nat, ws: string, y: string, mo: string, post: string)
    requires i <= |s| && s[i..] == "@ID:" + (ws + Token(y, mo, post))
    requires forall j: nat :: j < i ==> SpacedAt(s, "@ID:", IdAge, j).None?
    requires forall k :: 0 <= k < |ws| ==> IsSpace(ws[k])
    requires Pair((y, mo))
    ensures ExtractAge(Some(s)) == Some(AgeText(y, mo))
  {
    HeaderAt(s, i, ws, y, mo, post);
    SearchSpacedFrom(s, "@ID:", 0, IdAge, i, (y, mo));
  }

  /** The pattern started at the `@ID:` at `i` reads the token after the whitespace. */
  lemma HeaderAt(s: string, i: nat, ws: string, y: string, mo: string, post: string)
    requires i <= |s| && s[i..] == "@ID:" + (ws + Token(y, mo, post))
    requires forall k :: 0 <= k < |ws| ==> IsSpace(ws[k])
    requires Pair((y, mo))
    ensures SpacedAt(s, "@ID:", IdAge, i) == Some((y, mo))
  {
    var t := Token(y, mo, post);
    var k := i + 4 + |ws|;
    assert OccursAt(s, "@ID:", i) && SkipSpaces(s, i + 4) == k && s[k..] == t by {
      LitAt(s, i, "@ID:", ws + t);
      assert t[0] == 'e';
      SkipOver(s, i + 4, ws, t);
    }
    assert IdAge(s, k) == Some((y, mo)) by {
      IdAgeAt(s, k, y, mo, post);
    }
    assert |"@ID:"| == 4;
  }

  /** There is no age exactly when the pattern matches after no `@ID:`. */
  lemma NoAgeIff(c: string)
    ensures ExtractAge(Some(c)).None? <==> forall i :: SpacedAt(c, "@ID:", IdAge, i).None?
  {
    SearchSpacedNone(c, "@ID:", 0, IdAge);
  }

  /** Text without `@ID:` has no age. */
  lemma NoIdNoAge(c: string)
    requires !Contains(c, "@ID:")
    ensures ExtractAge(Some(c)).None?
  {
    NoAgeIff(c);
    forall i: nat ensures SpacedAt(c, "@ID:", IdAge, i).None? {
      if OccursAt(c, "@ID:", i) {
        ContainsIff(c, "@ID:");
      }
    }
  }

  /** The per-file decision: the copy gets the block under the group's name when an age was found. */
  function ProcessedContent(source: string, childName: string): (r: string)
    ensures r != source ==> ExtractAge(Some(source)).Some?
  {
    match ExtractAge(Some(source))
    case None => source
    case Some(age) => ChildHeader.Modify(source, childName, age)
  }

  /** The copy differs from the source exactly when an age was found and there is an insertion point. */
  lemma ProcessedChanges(source: string, childName: string)
    ensures ProcessedContent(source, childName) != source <==>
      ExtractAge(Some(source)).Some? && Splice.InsertPoint(source, ChildHeader.Anchor).Some?
  {
    if ExtractAge(Some(source)).Some? {
      ChildHeader.ModifyChanges(source, childName, ExtractAge(Some(source)).value);
    }
  }

  // ---------------------------------------------------------------------
  // Grouping the files by child
  // ---------------------------------------------------------------------

  /**
   * `re.match(r'([a-zA-Z]+)(?:\d+[a-z]*)?\.cha', f)`, group 1 lower-cased.
   * The letter run is maximal: giving letters back would leave a letter
   * where a digit or `.` is needed, and the same holds for the digit and
   * lower-case runs.
   */
  function GroupName(f: string): (r: Option<string>)
    ensures r.Some? ==> exists n :: 0 < n <= |f| && r.value == Lower(f[..n]) && forall k :: 0 <= k < n ==> IsLetter(f[k])
  {
    var n := Span(f, 0, IsLetter);
    if n == 0 then None
    else
      var m := if n < |f| && IsDigit(f[n]) then Span(f, Span(f, n, IsDigit), IsLower) else n;
      if OccursAt(f, ".cha", m) then Some(Lower(f[..n])) else None
  }

  /**
   * A name whose first `n` characters are letters, followed by digits up to
   * `e`, lower-case letters up to `m` (only after at least one digit) and
   * `.cha`, is grouped under its lower-cased letters.
   */
  lemma GroupNameOf(f: string, n: nat, e: nat, m: nat)
    requires 0 < n <= e <= m && m + 4 <= |f| && f[m..m + 4] == ".cha"
    requires forall k :: 0 <= k < n ==> IsLetter(f[k])
    requires forall k :: n <= k < e ==> IsDigit(f[k])
    requires forall k :: e <= k < m ==> IsLower(f[k])
    requires e == n ==> m == n
    ensures GroupName(f) == Some(Lower(f[..n]))
  {
    assert f[m] == f[m..m + 4][0];
    SpanStops(f, 0, n, IsLetter);
    if e > n {
      SpanStops(f, n, e, IsDigit);
      SpanStops(f, e, m, IsLower);
    }
  }

  /** `[f for f in os.listdir(source_dir) if f.endswith('.cha')]`. */
  function ChaFiles(listing: seq<string>): (r: seq<string>)
    ensures forall f :: f in r <==> f in listing && EndsWith(f, ".cha")
  {
    if listing == [] then []
    else ChaFiles(listing[..|listing| - 1]) + (if EndsWith(listing[|listing| - 1], ".cha") then [listing[|listing| - 1]] else [])
  }

  /** The files of `fs` grouped under `g`, in their order. */
  function InGroup(fs: seq<string>, g: string): (r: seq<string>)
    ensures forall f :: f in r <==> f in fs && GroupName(f) == Some(g)
  {
    if fs == [] then []
    else InGroup(fs[..|fs| - 1], g) + (if GroupName(fs[|fs| - 1]) == Some(g) then [fs[|fs| - 1]] else [])
  }

  /** The loop body on one file: appended to its group, the group created when new. */
  function AddToGroup(d: Dict<string, seq<string>>, f: string): Dict<string, seq<string>> {
    match GroupName(f)
    case None => d
    case Some(g) => Put(d, g, (if g in d.values then d.values[g] else []) + [f])
  }

  /** The `child_files` dictionary after the files `fs`. */
  function Grouped(fs: seq<string>): Dict<string, seq<string>> {
    if fs == [] then Empty() else AddToGroup(Grouped(fs[..|fs| - 1]), fs[|fs| - 1])
  }

  /** The grouping loop of `process_directory`. */
  method GroupFiles(listing: seq<string>) returns (groups: Dict<string, seq<string>>)
    ensures groups == Grouped(ChaFiles(listing))
  {
    var files := ChaFiles(listing);
    groups := Empty();
    var i := 0;
    while i < |files|
      invariant 0 <= i <= |files|
      invariant groups == Grouped(files[..i])
    {
      assert files[..i + 1][..i] == files[..i];
      groups := AddFileToGroup(groups, files[i]);
      i := i + 1;
    }
    assert files[..i] == files;
  }

  /** One pass of the grouping loop. */
  method AddFileToGroup(groups: Dict<string, seq<string>>, f: string) returns (r: Dict<string, seq<string>>)
    ensures r == AddToGroup(groups, f)
  {
    r := groups;
    var g := GroupName(f);
    if g.Some? {
      var name := g.value;
      if name !in r.values {
        r := Put(r, name, []);
      }
      PutOver(groups, name, [], r.values[name] + [f]);
      r := Put(r, name, r.values[name] + [f]);
    }
  }

  /**
   * The groups are the names some file is grouped under, each listed once,
   * and each holding exactly its files in order.
   */
  lemma {:induction false} GroupedIsPartition(fs: seq<string>)
    ensures Valid(Grouped(fs))
    ensures forall g :: g in Grouped(fs).values <==> InGroup(fs, g) != []
    ensures forall g :: g in Grouped(fs).values ==> Grouped(fs).values[g] == InGroup(fs, g)
  {
    if fs != [] {
      var init := fs[..|fs| - 1];
      var f := fs[|fs| - 1];
      GroupedIsPartition(init);
      var d := Grouped(init);
      if GroupName(f).Some? {
        var g := GroupName(f).value;
        PutValid(d, g, (if g in d.values then d.values[g] else []) + [f]);
        if g !in d.values {
          assert InGroup(init, g) == [];
        }
      }
    }
  }

  /** Each file that is grouped lies in exactly one group, the one of its name. */
  lemma OneGroupEach(listing: seq<string>, f: string, g: string)
    requires f in ChaFiles(listing)
    ensures var d := Grouped(ChaFiles(listing));
      (g in d.values && f in d.values[g]) <==> GroupName(f) == Some(g)
  {
    GroupedIsPartition(ChaFiles(listing));
  }
}
