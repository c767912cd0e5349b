/**
 * The Post corpus normaliser (src/modify_post_files.py): the age comes from
 * the `@ID:` header's `eng|Post|CHI|Y;MM.DD|` token, copied digit for digit,
 * and is written with the directory name as the child's name.
 */
module Post {
  import opened Wrappers
  import opened Text
  import opened Scan
  import Splice
  import ChildHeader

  /** What `extract_age` returns for a years, months and days triple. */
  function AgeText(y: string, mo: string, d: string): string {
    y + " years " + mo + " months " + d + " days"
  }

  /** Three non-empty digit runs. */
  predicate Triple(t: (string, string, string)) {
    t.0 != [] && AllDigits(t.0) && t.1 != [] && AllDigits(t.1) && t.2 != [] && AllDigits(t.2)
  }

  /** `eng\|Post\|CHI\|(\d+);(\d+)\.(\d+)\|` at `p`: the three runs. */
  function IdAge(s: string, p: nat): (r: Option<(string, string, string)>)
    ensures r.Some? ==> Triple(r.value)
  {
    if !OccursAt(s, "eng|Post|CHI|", p) then None
    else
      var a := RunThen(s, p + 13, ';');
      if a.None? then None
      else
        var b := RunThen(s, a.value.1, '.');
        if b.None? then None
        else
          var c := RunThen(s, b.value.1, '|');
          if c.None? then None
          else Some((a.value.0, b.value.0, c.value.0))
  }

  /**
   * `extract_age` on the text of the file, `None` for a missing file: the
   * leftmost match of `@ID:\s*eng\|Post\|CHI\|(\d+;\d+\.\d+)\|`, its group
   * split at `;` and `.`.
   */
  function ExtractAge(file: Option<string>): (r: Option<string>)
    ensures file.None? ==> r.None?
    ensures file.Some? ==> (r.Some? <==> SearchSpaced(file.value, "@ID:", 0, IdAge).Some?)
  {
    match file
    case None => None
    case Some(c) =>
      match SearchSpaced(c, "@ID:", 0, IdAge)
      case None => None
      case Some(t) => Some(AgeText(t.0, t.1, t.2))
  }

  /** Splitting the matched group at `;` and then `.` gives back the three runs. */
  lemma GroupSplits(y: string, mo: string, d: string)
    requires Triple((y, mo, d))
    ensures Split(y + ";" + mo + "." + d, ';') == [y, mo + "." + d]
    ensures Split(mo + "." + d, '.') == [mo, d]
  {
    assert ';' !in mo + "." + d && ';' !in y by {
      assert forall k :: 0 <= k < |mo + "." + d| ==> (mo + "." + d)[k] != ';';
      assert forall k :: 0 <= k < |y| ==> y[k] != ';';
    }
    assert '.' !in mo && '.' !in d by {
      assert forall k :: 0 <= k < |mo| ==> mo[k] != '.';
      assert forall k :: 0 <= k < |d| ==> d[k] != '.';
    }
    SplitJoin([y, mo + "." + d], ';');
    assert Join([y, mo + "." + d], ';') == y + ";" + (mo + "." + d);
    assert y + ";" + (mo + "." + d) == y + ";" + mo + "." + d;
    SplitJoin([mo, d], '.');
    assert Join([mo, d], '.') == mo + "." + d;
  }

  /** The `@ID:` token of a Post child, as the corpus writes it, followed by `post`. */
  function Token(y: string, mo: string, d: string, post: string): string {
    "eng|Post|CHI|" + (y + (";" + (mo + ("." + (d + ("|" + post))))))
  }

  /** A Post child token at `p` is read by the matcher. */
  lemma IdAgeAt(s: string, p: nat, y: string, mo: string, d: string, post: string)
    requires p <= |s| && s[p..] == Token(y, mo, d, post)
    requires Triple((y, mo, d))
    ensures IdAge(s, p) == Some((y, mo, d))
  {
    LitAt(s, p, "eng|Post|CHI|", y + (";" + (mo + ("." + (d + ("|" + post))))));
    RunsAt(s, p, y, mo, d, post);
  }

  /** The three runs after the literal part of the token, one at a time. */
  lemma RunsAt(s: string, p: nat, y: string, mo: string, d: string, post: string)
    requires OccursAt(s, "eng|Post|CHI|", p) && s[p + 13..] == y + (";" + (mo + ("." + (d + ("|" + post)))))
    requires Triple((y, mo, d))
    ensures IdAge(s, p) == Some((y, mo, d))
  {
    RunAt(s, p + 13, y, ';', mo + ("." + (d + ("|" + post))));
    MonthDayAt(s, p, p + 13 + |y| + 1, y, mo, d, post);
  }

  lemma MonthDayAt(s: string, p: nat, q: nat, y: string, mo: string, d: string, post: string)
    requires OccursAt(s, "eng|Post|CHI|", p) && RunThen(s, p + 13, ';') == Some((y, q))
    requires q <= |s| && s[q..] == mo + ("." + (d + ("|" + post)))
    requires Triple((y, mo, d))
    ensures IdAge(s, p) == Some((y, mo, d))
  {
    RunAt(s, q, mo, '.', d + ("|" + post));
    DayAt(s, p, q, q + |mo| + 1, y, mo, d, post);
  }

  lemma DayAt(s: string, p: nat, q: nat, q2: nat, y: string, mo: string, d: string, post: string)
    requires OccursAt(s, "eng|Post|CHI|", p) && RunThen(s, p + 13, ';') == Some((y, q))
    requires RunThen(s, q, '.') == Some((mo, q2))
    requires q2 <= |s| && s[q2..] == d + ("|" + post)
    requires Triple((y, mo, d))
    ensures IdAge(s, p) == Some((y, mo, d))
  {
    RunAt(s, q2, d, '|', post);
    IdAgeOf(s, p, q, q2, y, mo, d);
  }

  /** The matcher from the three runs it finds. */
  lemma IdAgeOf(s: string, p: nat, q: nat, q2: nat, y: string, mo: string, d: string)
    requires OccursAt(s, "eng|Post|CHI|", p)
    requires RunThen(s, p + 13, ';') == Some((y, q))
    requires RunThen(s, q, '.') == Some((mo, q2))
    requires RunThen(s, q2, '|') == Some((d, q2 + |d| + 1))
    ensures IdAge(s, p) == Some((y, mo, d))
  {
  }

  /**
   * Text with an `@ID:` at `i` followed by whitespace and a Post child
   * token gives that token's age, digits as written, provided the pattern matches after no earlier
   * `@ID:` (an adult's header, say).
   */
  lemma AgeOfHeader(s: string, i: nat, ws: string, y: string, mo: string, d: string, post: string)
    requires i <= |s| && s[i..] == "@ID:" + (ws + Token(y, mo, d, post))
    requires forall j: nat :: j < i ==> SpacedAt(s, "@ID:", IdAge, j).None?
    requires forall k :: 0 <= k < |ws| ==> IsSpace(ws[k])
    requires Triple((y, mo, d))
    ensures ExtractAge(Some(s)) == Some(AgeText(y, mo, d))
  {
    HeaderAt(s, i, ws, y, mo, d, post);
    SearchSpacedFrom(s, "@ID:", 0, IdAge, i, (y, mo, d));
  }

  /** The pattern started at the `@ID:` at `i` reads the token after the whitespace. */
  lemma HeaderAt(s: string, i: nat, ws: string, y: string, mo: string, d: string, post: string)
    requires i <= |s| && s[i..] == "@ID:" + (ws + Token(y, mo, d, post))
    requires forall k :: 0 <= k < |ws| ==> IsSpace(ws[k])
    requires Triple((y, mo, d))
    ensures SpacedAt(s, "@ID:", IdAge, i) == Some((y, mo, d))
  {
    var t := Token(y, mo, d, post);
    var k := i + 4 + |ws|;
    assert OccursAt(s, "@ID:", i) && SkipSpaces(s, i + 4) == k && s[k..] == t by {
      LitAt(s, i, "@ID:", ws + t);
      assert t[0] == 'e';
      SkipOver(s, i + 4, ws, t);
    }
    assert IdAge(s, k) == Some((y, mo, d)) by {
      IdAgeAt(s, k, y, mo, d, post);
    }
    assert |"@ID:"| == 4;
  }

  /** There is no age exactly when the pattern matches after no `@ID:`. */
  lemma NoAgeIff(c: string)
    ensures ExtractAge(Some(c)).None? <==> forall i :: SpacedAt(c, "@ID:", IdAge, i).None?
  {
    SearchSpacedNone(c, "@ID:", 0, IdAge);
  }

  /** Text without `@ID:` has no age. */
  lemma NoIdNoAge(c: string)
    requires !Contains(c, "@ID:")
    ensures ExtractAge(Some(c)).None?
  {
    NoAgeIff(c);
    forall i: nat ensures SpacedAt(c, "@ID:", IdAge, i).None? {
      if OccursAt(c, "@ID:", i) {
        ContainsIff(c, "@ID:");
      }
    }
  }

  /**
   * The per-file decision of `process_directory`: the copy of a file in
   * directory `subdir` gets the block when an age was found in it.
   */
  function ProcessedContent(source: string, subdir: string): (r: string)
    ensures r != source ==> ExtractAge(Some(source)).Some?
  {
    match ExtractAge(Some(source))
    case None => source
    case Some(age) => ChildHeader.Modify(source, subdir, age)
  }

  /** The copy differs from the source exactly when an age was found and there is an insertion point. */
  lemma ProcessedChanges(source: string, subdir: string)
    ensures ProcessedContent(source, subdir) != source <==>
      ExtractAge(Some(source)).Some? && Splice.InsertPoint(source, ChildHeader.Anchor).Some?
  {
    if ExtractAge(Some(source)).Some? {
      ChildHeader.ModifyChanges(source, subdir, ExtractAge(Some(source)).value);
    }
  }

  /** A listed entry of the corpus directory: a directory holds named file texts. */
  datatype Entry = Entry(name: string, isDir: bool, files: seq<(string, string)>)

  /** One written file: its directory, its name and its new text. */
  datatype Output = Output(subdir: string, file: string, content: string)

  predicate Considered(e: Entry) {
    e.isDir && !StartsWith(e.name, ".")
  }

  /** The outputs for the files of one considered directory, in listing order. */
  function DirOutputs(d: string, files: seq<(string, string)>): (r: seq<Output>)
  {
    if files == [] then []
    else
      var f := files[|files| - 1];
      DirOutputs(d, files[..|files| - 1]) +
      (if EndsWith(f.0, ".cha") then [Output(d, f.0, ProcessedContent(f.1, d))] else [])
  }

  /** The outputs of `process_directory`, in listing order. */
  function Outputs(entries: seq<Entry>): seq<Output> {
    if entries == [] then []
    else
      var e := entries[|entries| - 1];
      Outputs(entries[..|entries| - 1]) + (if Considered(e) then DirOutputs(e.name, e.files) else [])
  }

  /** `process_directory` without the copying: the new texts of the files it writes, in order. */
  method ProcessDirectory(entries: seq<Entry>) returns (out: seq<Output>)
    ensures out == Outputs(entries)
  {
    out := [];
    var i := 0;
    while i < |entries|
      invariant 0 <= i <= |entries|
      invariant out == Outputs(entries[..i])
    {
      var e := entries[i];
      assert entries[..i + 1][..i] == entries[..i];
      if Considered(e) {
        var more := ProcessFiles(e.name, e.files);
        out := out + more;
      }
      i := i + 1;
    }
    assert entries[..i] == entries;
  }

  /** The inner loop of `process_directory`: the outputs of one subdirectory's files. */
  method ProcessFiles(d: string, files: seq<(string, string)>) returns (out: seq<Output>)
    ensures out == DirOutputs(d, files)
  {
    out := [];
    var j := 0;
    while j < |files|
      invariant 0 <= j <= |files|
      invariant out == DirOutputs(d, files[..j])
    {
      var f := files[j];
      assert files[..j + 1][..j] == files[..j];
      if EndsWith(f.0, ".cha") {
        out := out + [Output(d, f.0, ProcessedContent(f.1, d))];
      }
      j := j + 1;
    }
    assert files[..j] == files;
  }

  /** `o` is what the file `f` of the directory `d` becomes. */
  predicate FileGives(d: string, f: (string, string), o: Output) {
    o.subdir == d && EndsWith(o.file, ".cha") && f.0 == o.file && o.content == ProcessedContent(f.1, d)
  }

  /** A directory's outputs are exactly its `.cha` files, each with its processed text. */
  lemma DirOutputsIff(d: string, files: seq<(string, string)>, o: Output)
    ensures o in DirOutputs(d, files) <==> exists k :: 0 <= k < |files| && FileGives(d, files[k], o)
  {
    if o in DirOutputs(d, files) {
      DirOutputsSound(d, files, o);
    }
    if exists k :: 0 <= k < |files| && FileGives(d, files[k], o) {
      var k :| 0 <= k < |files| && FileGives(d, files[k], o);
      DirOutputsComplete(d, files, k);
    }
  }

  /** Every output of a directory is what one of its files becomes. */
  lemma {:induction false} DirOutputsSound(d: string, files: seq<(string, string)>, o: Output)
    requires o in DirOutputs(d, files)
    ensures exists k :: 0 <= k < |files| && FileGives(d, files[k], o)
  {
    var init := files[..|files| - 1];
    var f := files[|files| - 1];
    if o in DirOutputs(d, init) {
      DirOutputsSound(d, init, o);
      var k :| 0 <= k < |init| && FileGives(d, init[k], o);
      assert files[k] == init[k];
    } else {
      assert FileGives(d, files[|files| - 1], o);
    }
  }

  /** Every `.cha` file of a directory gives an output. */
  lemma {:induction false} DirOutputsComplete(d: string, files: seq<(string, string)>, k: nat)
    requires k < |files| && EndsWith(files[k].0, ".cha")
    ensures Output(d, files[k].0, ProcessedContent(files[k].1, d)) in DirOutputs(d, files)
  {
    var init := files[..|files| - 1];
    if k < |init| {
      assert init[k] == files[k];
      DirOutputsComplete(d, init, k);
    }
  }

  /** The output is one of the entry's, and the entry is a considered directory. */
  predicate FromEntry(e: Entry, o: Output) {
    Considered(e) && o in DirOutputs(e.name, e.files)
  }

  /** Every output comes from a `.cha` file of a non-hidden directory, and every such file gives one. */
  lemma {:induction false} OutputsIff(entries: seq<Entry>, o: Output)
    ensures o in Outputs(entries) <==> exists k :: 0 <= k < |entries| && FromEntry(entries[k], o)
  {
    if entries != [] {
      var init := entries[..|entries| - 1];
      var last := entries[|entries| - 1];
      OutputsIff(init, o);
      assert Outputs(entries) == Outputs(init) + (if Considered(last) then DirOutputs(last.name, last.files) else []);
      if FromEntry(last, o) {
        assert FromEntry(entries[|entries| - 1], o);
      }
      if exists k :: 0 <= k < |entries| && FromEntry(entries[k], o) {
        var k :| 0 <= k < |entries| && FromEntry(entries[k], o);
        if k < |init| {
          assert FromEntry(init[k], o);
        }
      }
      if exists k :: 0 <= k < |init| && FromEntry(init[k], o) {
        var k :| 0 <= k < |init| && FromEntry(init[k], o);
        assert FromEntry(entries[k], o);
      }
    }
  }
}
