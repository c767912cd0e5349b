/**
 * The CHAT transcript reader: header fields pulled out of the raw `.cha`
 * content by independent first-match searches, and the `*SPEAKER: text`
 * lines turned into utterance records.  `Reader.ReadCha` assembles the
 * metadata record and stores it, as the reader object does.
 */
module ChatReader {
  import opened Wrappers
  import opened Text
  import opened Scan
  import opened Dicts
  import opened Timestamps

  datatype Utterance = Utterance(speaker: string, text: string, timestamp: Option<Timestamp>)

  datatype Media = Media(id: string, mediaType: Option<string>)

  datatype Metadata = Metadata(
    filePath: string,
    fileType: string,
    encoding: Option<string>,
    pid: Option<string>,
    languages: seq<string>,
    participants: Dict<string, string>,
    options: seq<string>,
    media: Option<Media>,
    date: Option<string>,
    childAge: Option<string>,
    childName: Option<string>,
    types: seq<string>,
    utterances: seq<Utterance>)

  datatype ChaData = ChaData(content: string, metadata: Metadata)

  // ---------------------------------------------------------------------
  // Header fields
  // ---------------------------------------------------------------------

  /** `'UTF8'` when the literal `@UTF8` occurs anywhere, otherwise `None`. */
  function Encoding(content: string): (r: Option<string>)
    ensures r == Some("UTF8") <==> exists i :: OccursAt(content, "@UTF8", i)
    ensures r.None? <==> !exists i :: OccursAt(content, "@UTF8", i)
  {
    ContainsIff(content, "@UTF8");
    if Contains(content, "@UTF8") then Some("UTF8") else None
  }

  /**
   * A field read as its stripped payload: `@PID:`, `@Date:`, `@ChildAge:`.
   * The value is what follows the first occurrence of the key, after the
   * whitespace there (which may run over line breaks), up to the end of
   * that line, stripped.
   */
  function TextField(content: string, key: string): (r: Option<string>)
    ensures r.None? <==> !Contains(content, key)
    ensures r.Some? ==> r.value == [] || (!IsSpace(r.value[0]) && !IsSpace(r.value[|r.value| - 1]))
  {
    FieldPayload(content, key)
  }

  /**
   * The value of a present field: the text after the first key is cut into
   * whitespace, the rest of the line where it stops, and what follows, and
   * the value is that rest of the line, stripped.
   */
  lemma TextFieldValue(content: string, key: string)
    ensures TextField(content, key).Some? ==>
      exists w, u, t :: KeyPayload(content, key, w, u, t) && TextField(content, key).value == Strip(u)
  {
    if Contains(content, key) {
      FieldPayloadSplit(content, key);
    }
  }

  /** The whitespace after a key may include line breaks: the value then sits on a later line. */
  lemma PayloadOnNextLine(pre: string, key: string, ws: string, v: string, post: string)
    requires !Contains(pre, key) && key != [] && forall k :: 0 < k < |key| ==> key[k] != key[0]
    requires forall k :: 0 <= k < |ws| ==> IsSpace(ws[k])
    requires v != [] && !IsSpace(v[0]) && '\n' !in v
    requires post == [] || post[0] == '\n'
    ensures TextField(pre + key + (ws + v + post), key) == Some(Strip(v))
  {
    var s := pre + key + (ws + v + post);
    FirstAfter(pre, key, ws + v + post);
    assert s[|pre| + |key|..] == ws + v + post;
    assert PayloadSplit(s[|pre| + |key|..], ws, v, post);
    FieldPayloadValue(s, key, |pre|, ws, v, post);
  }

  /** For instance `@PID:` at the end of a line and the value indented on the next. */
  lemma PidOnNextLine()
    ensures Pid("@PID:\n  x") == Some("x")
  {
    PayloadOnNextLine("", "@PID:", "\n  ", "x", "");
    assert "" + "@PID:" + ("\n  " + "x" + "") == "@PID:\n  x";
  }

  function Pid(content: string): Option<string> { TextField(content, "@PID:") }

  function Date(content: string): Option<string> { TextField(content, "@Date:") }

  function ChildAge(content: string): Option<string> { TextField(content, "@ChildAge:") }

  /**
   * A field read as a comma list: the stripped payload split on `,` with the
   * elements left untrimmed, or `[]` when the field is absent.
   */
  function ListField(content: string, key: string): (r: seq<string>)
    ensures !Contains(content, key) ==> r == []
    ensures Contains(content, key) ==> r != [] && Join(r, ',') == FieldPayload(content, key).value
    ensures forall k :: 0 <= k < |r| ==> ',' !in r[k]
  {
    match FieldPayload(content, key)
    case None => []
    case Some(p) => JoinSplit(p, ','); Split(p, ',')
  }

  function Languages(content: string): seq<string> { ListField(content, "@Languages:") }

  function Options(content: string): seq<string> { ListField(content, "@Options:") }

  function Types(content: string): seq<string> { ListField(content, "@Types:") }

  /** Splitting yields one piece exactly when the separator does not occur. */
  lemma SplitSingle(s: string, sep: char)
    ensures |Split(s, sep)| == 1 <==> sep !in s
  {
  }

  /**
   * `@Media:`: the first comma field stripped as the id, the second stripped
   * as the type, or no type when the payload has no comma.
   */
  function MediaField(content: string): (r: Option<Media>)
    ensures r.None? <==> !Contains(content, "@Media:")
    ensures r.Some? ==> ',' !in r.value.id
    ensures r.Some? ==> (r.value.mediaType.None? <==> ',' !in FieldPayload(content, "@Media:").value)
    ensures r.Some? && r.value.mediaType.Some? ==> ',' !in r.value.mediaType.value
  {
    match FieldPayload(content, "@Media:")
    case None => None
    case Some(p) =>
      var fields := Split(p, ',');
      SplitSingle(p, ',');
      StripSub(fields[0]);
      if |fields| > 1 then StripSub(fields[1]); Some(Media(Strip(fields[0]), Some(Strip(fields[1]))))
      else Some(Media(Strip(fields[0]), None))
  }

  /** Stripping keeps only characters of the original. */
  lemma StripSub(s: string)
    ensures forall c :: c in Strip(s) ==> c in s
  {
    StripSlice(s);
    var a := |s| - |LStrip(s)|;
    forall c | c in Strip(s) ensures c in s {
      var i :| 0 <= i < |Strip(s)| && Strip(s)[i] == c;
      assert s[a + i] == c;
    }
  }

  // ---------------------------------------------------------------------
  // Participants
  // ---------------------------------------------------------------------

  /**
   * One `@Participants:` part: stripped and split at its first space into
   * code and name; `None` where the unpacking raises (no space).
   */
  function Entry(part: string): (r: Option<(string, string)>)
    ensures r.None? <==> ' ' !in Strip(part)
    ensures r.Some? ==> Strip(part) == r.value.0 + " " + r.value.1 && ' ' !in r.value.0
    ensures r.Some? ==> r.value.1 != [] && !IsSpace(r.value.1[|r.value.1| - 1])
  {
    var t := Strip(part);
    match SplitOnce(t, ' ')
    case None => None
    case Some((c, n)) =>
      assert t[|t| - 1] == (c + " " + n)[|t| - 1];
      Some((c, n))
  }

  /** All parts split into code and name. */
  predicate AllEntries(parts: seq<string>) {
    forall k :: 0 <= k < |parts| ==> Entry(parts[k]).Some?
  }

  /** The code and name of every part, in order. */
  function Pairs(parts: seq<string>): (r: seq<(string, string)>)
    requires AllEntries(parts)
    ensures |r| == |parts| && forall k :: 0 <= k < |parts| ==> r[k] == Entry(parts[k]).value
  {
    seq(|parts|, k requires 0 <= k < |parts| => Entry(parts[k]).value)
  }

  /** The pairs of one more part. */
  lemma PairsSnoc(parts: seq<string>, i: nat)
    requires i < |parts| && AllEntries(parts[..i]) && Entry(parts[i]).Some?
    ensures AllEntries(parts[..i + 1])
    ensures Pairs(parts[..i + 1]) == Pairs(parts[..i]) + [Entry(parts[i]).value]
  {
    assert forall k :: 0 <= k < i ==> parts[..i + 1][k] == parts[..i][k];
  }

  /**
   * `@Participants:`: the ordered code-to-name dictionary, `{}` without the
   * field, and `None` where a part without a space makes the reader raise.
   */
  function Participants(content: string): Option<Dict<string, string>> {
    match FieldPayload(content, "@Participants:")
    case None => Some(Empty())
    case Some(p) =>
      var parts := Split(p, ',');
      if AllEntries(parts) then Some(PutAll(Empty(), Pairs(parts))) else None
  }

  /**
   * What the participants read gives: a failure exactly when some comma
   * part (stripped) has no space; otherwise the codes are exactly the keys,
   * and each code maps to the name of the last part with that code.
   */
  lemma ParticipantsFacts(content: string, p: string)
    requires FieldPayload(content, "@Participants:") == Some(p)
    ensures Participants(content).None? <==> exists k :: 0 <= k < |Split(p, ',')| && ' ' !in Strip(Split(p, ',')[k])
    ensures Participants(content).Some? ==>
      Participants(content).value.values.Keys == KeysOf(Pairs(Split(p, ',')))
    ensures Participants(content).Some? ==> var es := Pairs(Split(p, ','));
      forall k :: 0 <= k < |es| && LastOfKey(es, k) ==> Participants(content).value.values[es[k].0] == es[k].1
  {
    var parts := Split(p, ',');
    ReadEntries(parts, Participants(content));
    if Participants(content).None? {
      var k :| 0 <= k < |parts| && ' ' !in Strip(parts[k]);
      assert ' ' !in Strip(Split(p, ',')[k]);
    } else {
      forall k | 0 <= k < |Split(p, ',')| ensures ' ' in Strip(Split(p, ',')[k]) {
        assert !(0 <= k < |parts| && ' ' !in Strip(parts[k]));
      }
    }
  }

  lemma ReadEntries(parts: seq<string>, r: Option<Dict<string, string>>)
    requires r == if AllEntries(parts) then Some(PutAll(Empty(), Pairs(parts))) else None
    ensures r.None? <==> exists k :: 0 <= k < |parts| && ' ' !in Strip(parts[k])
    ensures r.Some? ==> r.value.values.Keys == KeysOf(Pairs(parts))
    ensures r.Some? ==> var es := Pairs(parts);
      forall k :: 0 <= k < |es| && LastOfKey(es, k) ==> r.value.values[es[k].0] == es[k].1
  {
    AllEntriesIff(parts);
    if AllEntries(parts) {
      PutAllKeys(Empty(), Pairs(parts));
      PutAllLast(Empty(), Pairs(parts));
    }
  }

  /** Every comma part reads as an entry exactly when each holds a space once stripped. */
  lemma AllEntriesIff(parts: seq<string>)
    ensures AllEntries(parts) <==> forall k :: 0 <= k < |parts| ==> ' ' in Strip(parts[k])
  {
    if AllEntries(parts) {
      forall k | 0 <= k < |parts| ensures ' ' in Strip(parts[k]) { assert Entry(parts[k]).Some?; }
    } else {
      var k :| 0 <= k < |parts| && Entry(parts[k]).None?;
      assert ' ' !in Strip(parts[k]);
    }
  }

  /** Every name ends in a non-space character, so `name.split()` is never empty. */
  predicate GoodNames(names: map<string, string>) {
    forall c :: c in names ==> names[c] != [] && !IsSpace(names[c][|names[c]| - 1])
  }

  /** Assigning names with a first word keeps all names so. */
  lemma {:induction false} PutAllNames(d: Dict<string, string>, es: seq<(string, string)>)
    requires GoodNames(d.values)
    requires forall k :: 0 <= k < |es| ==> es[k].1 != [] && !IsSpace(es[k].1[|es[k].1| - 1])
    ensures GoodNames(PutAll(d, es).values)
    decreases |es|
  {
    if es != [] {
      PutAllNames(d, es[..|es| - 1]);
    }
  }

  /** The participants dictionary is well formed and every name has a first word. */
  lemma ParticipantsValid(content: string)
    ensures Participants(content).Some? ==> Valid(Participants(content).value)
    ensures Participants(content).Some? ==> GoodNames(Participants(content).value.values)
  {
    match FieldPayload(content, "@Participants:")
    case None =>
    case Some(p) =>
      var parts := Split(p, ',');
      if AllEntries(parts) {
        var d := PutAll(Empty(), Pairs(parts));
        assert Participants(content) == Some(d);
        assert Valid(d) by { PutAllValid(Empty(), Pairs(parts)); }
        assert GoodNames(d.values) by { PutAllNames(Empty(), Pairs(parts)); }
      }
  }

  /** A string that ends in a non-space character has a first word. */
  lemma {:induction false} WordsNonEmpty(s: string)
    requires s != [] && !IsSpace(s[|s| - 1])
    ensures Words(s) != []
    decreases |s|
  {
    if IsSpace(s[0]) {
      assert s[1..][|s[1..]| - 1] == s[|s| - 1];
      WordsNonEmpty(s[1..]);
    }
  }

  /** The first word of the name of the first code (in dictionary order) containing `CHI`. */
  function FirstChildName(keys: seq<string>, names: map<string, string>): (r: Option<string>)
    requires forall k :: 0 <= k < |keys| ==> keys[k] in names
    requires GoodNames(names)
    ensures r.None? <==> forall k :: 0 <= k < |keys| ==> !Contains(keys[k], "CHI")
    ensures r.Some? ==> exists k :: (0 <= k < |keys| && Contains(keys[k], "CHI") &&
      (forall j :: 0 <= j < k ==> !Contains(keys[j], "CHI")) &&
      Words(names[keys[k]]) != [] && r.value == Words(names[keys[k]])[0])
  {
    if keys == [] then None
    else if Contains(keys[0], "CHI") then
      WordsNonEmpty(names[keys[0]]);
      Some(Words(names[keys[0]])[0])
    else
      var r := FirstChildName(keys[1..], names);
      FirstChildShift(keys, names, r);
      r
  }

  /** A first code without `CHI` shifts the first child code by one. */
  lemma FirstChildShift(keys: seq<string>, names: map<string, string>, r: Option<string>)
    requires keys != [] && !Contains(keys[0], "CHI")
    requires forall k :: 0 <= k < |keys| ==> keys[k] in names
    requires r.None? <==> forall k :: 0 <= k < |keys[1..]| ==> !Contains(keys[1..][k], "CHI")
    requires r.Some? ==> exists k :: (0 <= k < |keys[1..]| && Contains(keys[1..][k], "CHI") &&
      (forall j :: 0 <= j < k ==> !Contains(keys[1..][j], "CHI")) &&
      Words(names[keys[1..][k]]) != [] && r.value == Words(names[keys[1..][k]])[0])
    ensures r.None? <==> forall k :: 0 <= k < |keys| ==> !Contains(keys[k], "CHI")
    ensures r.Some? ==> exists k :: (0 <= k < |keys| && Contains(keys[k], "CHI") &&
      (forall j :: 0 <= j < k ==> !Contains(keys[j], "CHI")) &&
      Words(names[keys[k]]) != [] && r.value == Words(names[keys[k]])[0])
  {
    var t := keys[1..];
    NoChildShift(keys);
    if r.Some? {
      var k :| 0 <= k < |t| && Contains(t[k], "CHI") &&
        (forall j :: 0 <= j < k ==> !Contains(t[j], "CHI")) &&
        Words(names[t[k]]) != [] && r.value == Words(names[t[k]])[0];
      assert t[k] == keys[k + 1];
      forall j | 0 <= j < k + 1 ensures !Contains(keys[j], "CHI") {
        if 0 < j { assert keys[j] == t[j - 1]; }
      }
    }
  }

  /** Dropping a first key that names no child leaves "no key names a child" unchanged. */
  lemma NoChildShift(keys: seq<string>)
    requires keys != [] && !Contains(keys[0], "CHI")
    ensures (forall k :: 0 <= k < |keys[1..]| ==> !Contains(keys[1..][k], "CHI")) <==>
      (forall k :: 0 <= k < |keys| ==> !Contains(keys[k], "CHI"))
  {
    assert forall k :: 1 <= k < |keys| ==> keys[k] == keys[1..][k - 1];
  }

  /**
   * The child's name: the `@ChildName:` payload when present; else the
   * first word of the first `CHI` participant's name; else no name.  The
   * outer `None` is the failure of the participants read underneath.
   */
  function ChildName(content: string): (r: Option<Option<string>>)
    ensures r.None? <==> !Contains(content, "@ChildName:") && Participants(content).None?
    ensures Contains(content, "@ChildName:") ==> r == Some(FieldPayload(content, "@ChildName:"))
  {
    match FieldPayload(content, "@ChildName:")
    case Some(n) => Some(Some(n))
    case None =>
      match Participants(content)
      case None => None
      case Some(d) =>
        ParticipantsValid(content);
        assert forall k :: 0 <= k < |d.keys| ==> d.keys[k] in d.values;
        Some(FirstChildName(d.keys, d.values))
  }

  // ---------------------------------------------------------------------
  // Utterances
  // ---------------------------------------------------------------------

  /**
   * A `*` line: split at its first `:`, the speaker without the star and
   * stripped, the text with every time mark removed and stripped, and the
   * first time mark; `None` where the line has no `:`.
   */
  function UtteranceOf(line: string): (r: Option<Utterance>)
    requires StartsWith(line, "*")
    ensures r.None? <==> ':' !in line
  {
    match SplitOnce(line, ':')
    case None => None
    case Some((spk, text)) =>
      assert line[0] == '*' && spk != [];
      Some(Utterance(Strip(spk[1..]), Strip(RemovePairs(text, 0)), FirstTimestamp(text, 0)))
  }

  /**
   * A line `*raw:rest` whose speaker part holds no `:` reads as the
   * stripped speaker, the text after the first `:` with every time mark
   * removed and stripped, and the first time mark of that text.
   */
  lemma UtteranceFields(raw: string, rest: string)
    requires ':' !in raw
    ensures UtteranceOf("*" + raw + ":" + rest) ==
      Some(Utterance(Strip(raw), Strip(RemovePairs(rest, 0)), FirstTimestamp(rest, 0)))
  {
    var line := "*" + raw + ":" + rest;
    assert ':' !in "*" + raw;
    assert line == ("*" + raw) + [':'] + rest;
    SplitOnceAt("*" + raw, ':', rest);
    assert ("*" + raw)[1..] == raw;
  }

  /** The lines that start with `*`, in order. */
  function StarLines(lines: seq<string>): (r: seq<string>)
    ensures forall k :: 0 <= k < |r| ==> StartsWith(r[k], "*")
  {
    if lines == [] then []
    else if StartsWith(lines[|lines| - 1], "*") then StarLines(lines[..|lines| - 1]) + [lines[|lines| - 1]]
    else StarLines(lines[..|lines| - 1])
  }

  /** The loop over the lines, read from the first line to line `|lines|`. */
  function UtterancesOf(lines: seq<string>): Option<seq<Utterance>> {
    if lines == [] then Some([])
    else match UtterancesOf(lines[..|lines| - 1])
      case None => None
      case Some(us) =>
        var line := lines[|lines| - 1];
        if StartsWith(line, "*") then
          match UtteranceOf(line)
          case None => None
          case Some(u) => Some(us + [u])
        else Some(us)
  }

  /**
   * The utterances are exactly the `*` lines, in file order, each read by
   * `UtteranceOf`; the read fails exactly when some `*` line has no `:`.
   */
  lemma {:induction false} UtterancesShape(lines: seq<string>)
    ensures UtterancesOf(lines).Some? <==>
      forall k :: 0 <= k < |StarLines(lines)| ==> ':' in StarLines(lines)[k]
    ensures UtterancesOf(lines).Some? ==>
      |UtterancesOf(lines).value| == |StarLines(lines)| &&
      forall k :: 0 <= k < |StarLines(lines)| ==>
        UtteranceOf(StarLines(lines)[k]) == Some(UtterancesOf(lines).value[k])
  {
    if lines != [] {
      var init := lines[..|lines| - 1];
      var line := lines[|lines| - 1];
      UtterancesShape(init);
      var si := StarLines(init);
      if StartsWith(line, "*") {
        assert StarLines(lines) == si + [line];
        assert forall k :: 0 <= k < |si| ==> StarLines(lines)[k] == si[k];
        assert StarLines(lines)[|si|] == line;
        if UtterancesOf(lines).Some? {
          var us := UtterancesOf(init).value;
          var u := UtteranceOf(line).value;
          assert UtterancesOf(lines).value == us + [u];
          assert forall k :: 0 <= k < |us| ==> (us + [u])[k] == us[k];
        }
      } else {
        assert StarLines(lines) == si;
      }
    }
  }

  /** Once a prefix of the lines fails, the whole read fails. */
  lemma {:induction false} UtterancesFailPersists(lines: seq<string>, i: nat)
    requires i <= |lines| && UtterancesOf(lines[..i]).None?
    ensures UtterancesOf(lines).None?
    decreases |lines| - i
  {
    if i < |lines| {
      assert lines[..i + 1][..i] == lines[..i];
      UtterancesFailPersists(lines, i + 1);
    } else {
      assert lines[..i] == lines;
    }
  }

  /** The utterances of the whole content, split on `\n`. */
  function Utterances(content: string): Option<seq<Utterance>> {
    UtterancesOf(Split(content, '\n'))
  }

  // ---------------------------------------------------------------------
  // The record
  // ---------------------------------------------------------------------

  /**
   * The record `read_cha` builds, or `None` for a missing file and for the
   * errors the extractors raise (all caught by the reader).
   */
  function ReadChaOf(filePath: string, file: Option<string>): (r: Option<ChaData>)
    ensures r.Some? <==> file.Some? && Participants(file.value).Some? && Utterances(file.value).Some?
  {
    match file
    case None => None
    case Some(c) =>
      match (Participants(c), ChildName(c), Utterances(c))
      case (Some(ps), Some(name), Some(us)) =>
        Some(ChaData(c, Metadata(filePath, "cha", Encoding(c), Pid(c), Languages(c), ps,
          Options(c), MediaField(c), Date(c), ChildAge(c), name, Types(c), us)))
      case _ => None
  }

  /** The child-name lookup never fails on its own: it fails only with the participants. */
  lemma ChildNameFailsWithParticipants(content: string)
    ensures ChildName(content).None? ==> Participants(content).None?
  {
  }

  /** The participants loop, filling the dictionary part by part. */
  method ExtractParticipants(content: string) returns (r: Option<Dict<string, string>>)
    ensures r == Participants(content)
  {
    match FieldPayload(content, "@Participants:")
    case None =>
      return Some(Empty());
    case Some(p) =>
      var parts := Split(p, ',');
      var d := Empty();
      var i := 0;
      while i < |parts|
        invariant 0 <= i <= |parts|
        invariant AllEntries(parts[..i])
        invariant d == PutAll(Empty(), Pairs(parts[..i]))
      {
        match Entry(parts[i])
        case None =>
          assert !AllEntries(parts);
          return None;
        case Some((code, name)) =>
          PairsSnoc(parts, i);
          PutAllSnoc(Empty(), Pairs(parts[..i]), (code, name));
          d := Put(d, code, name);
        i := i + 1;
      }
      assert parts[..i] == parts;
      return Some(d);
  }

  /** The utterance loop over the lines of the content. */
  method ExtractUtterances(content: string) returns (r: Option<seq<Utterance>>)
    ensures r == Utterances(content)
  {
    var lines := Split(content, '\n');
    var us: seq<Utterance> := [];
    var i := 0;
    while i < |lines|
      invariant 0 <= i <= |lines|
      invariant UtterancesOf(lines[..i]) == Some(us)
    {
      var line := lines[i];
      assert lines[..i + 1][..i] == lines[..i];
      if StartsWith(line, "*") {
        match UtteranceOf(line)
        case None =>
          UtterancesFailPersists(lines, i + 1);
          return None;
        case Some(u) =>
          us := us + [u];
      }
      i := i + 1;
    }
    assert lines[..i] == lines;
    return Some(us);
  }

  /**
   * The reader object: `data` holds the last transcript read successfully.
   */
  class Reader {
    var data: Option<ChaData>

    constructor()
      ensures data == None
    {
      data := None;
    }

    /**
     * `read_cha`: the record for the file (`None` when it is missing), stored
     * in `data` on success; on failure `data` keeps its old value.
     */
    method ReadCha(filePath: string, file: Option<string>) returns (r: Option<ChaData>)
      modifies this
      ensures r == ReadChaOf(filePath, file)
      ensures data == if r.Some? then r else old(data)
    {
      if file.None? {
        return None;
      }
      var c := file.value;
      var ps := ExtractParticipants(c);
      var name := ChildName(c);
      var us := ExtractUtterances(c);
      if ps.None? || name.None? || us.None? {
        return None;
      }
      r := Some(ChaData(c, Metadata(filePath, "cha", Encoding(c), Pid(c), Languages(c), ps.value,
        Options(c), MediaField(c), Date(c), ChildAge(c), name.value, Types(c), us.value)));
      data := r;
    }
  }
}
