/**
 * Age-quarter bucketing of processed corpus data: an age string becomes a
 * `YYY..Q` label (years and the quarter of the year the months fall in), and
 * every transcript with an age is filed under its label, its utterance
 * dictionaries merged into the bucket's.
 */
module AgeGroups {
  import opened Wrappers
  import opened Text
  import opened Dicts
  import CR = ChatReader
  import Post
  import Brend

  // ---------------------------------------------------------------------
  // The age label
  // ---------------------------------------------------------------------

  /** The label returned when the age cannot be read. */
  const Fallback := "00Y00Q"

  /** Python's `s[i:j]` for `0 <= i <= j`: the bounds are clamped to the length. */
  function Slice(s: string, i: nat, j: nat): (r: string)
    requires i <= j
    ensures |r| <= j - i && (j <= |s| ==> |r| == j - i && r == s[i..j])
  {
    var a := if i <= |s| then i else |s|;
    var b := if j <= |s| then j else |s|;
    s[a..b]
  }

  /**
   * The years and months read from an age: tokens 0 and 2 of a text that
   * mentions `years`, characters 0-2 and 2-4 otherwise; `None` where Python
   * raises `IndexError` or `ValueError`.
   */
  function YearsMonths(age: string): (r: Option<(int, int)>)
    ensures Contains(age, "years") && |Words(age)| < 3 ==> r.None?
    ensures !Contains(age, "years") && |age| <= 2 ==> r.None?
  {
    if Contains(age, "years") then
      var parts := Words(age);
      if |parts| < 3 then None
      else
        match (ParseInt(parts[0]), ParseInt(parts[2]))
        case (Some(y), Some(m)) => Some((y, m))
        case _ => None
    else
      match (ParseInt(Slice(age, 0, 2)), ParseInt(Slice(age, 2, 4)))
      case (Some(y), Some(m)) => Some((y, m))
      case _ => None
  }

  /** `months // 3 + 1`: Dafny's division by 3 floors, as Python's `//` does. */
  function Quarter(months: int): (q: int)
    ensures 3 * (q - 1) <= months < 3 * q
  {
    months / 3 + 1
  }

  /** `get_age_quarter`: `f"{years:02d}Y{quarter:02d}Q"`, or the fallback label. */
  function AgeQuarter(age: string): (r: string)
    ensures |r| >= 6 && r[|r| - 1] == 'Q'
    ensures YearsMonths(age).None? ==> r == Fallback
  {
    match YearsMonths(age)
    case None => Fallback
    case Some((y, m)) => Pad2(y) + "Y" + Pad2(Quarter(m)) + "Q"
  }

  /** The text `ys years ms rest`. */
  function YearsText(ys: string, ms: string, rest: string): string {
    ys + " years " + ms + rest
  }

  /** A word and a space in front of the rest. */
  lemma WordThenSpace(w: string, t: string)
    requires w != [] && NoSpace(w)
    ensures Words(w + [' '] + t) == [w] + Words(t)
  {
    WordsCons(w, ' ', t);
    WordsSkipSpace([' '], t);
  }

  /** A word followed by nothing or by whitespace. */
  lemma WordThenRest(w: string, rest: string)
    requires w != [] && NoSpace(w)
    requires rest == [] || IsSpace(rest[0])
    ensures Words(w + rest) == [w] + Words(rest)
  {
    if rest == [] {
      assert w + rest == w;
      WordsSingle(w);
    } else {
      assert rest == [rest[0]] + rest[1..];
      assert w + rest == w + [rest[0]] + rest[1..];
      WordsCons(w, rest[0], rest[1..]);
    }
  }

  lemma {:induction false} ThreeWords(a: string, b: string, c: string, rest: string)
    requires a != [] && NoSpace(a) && b != [] && NoSpace(b) && c != [] && NoSpace(c)
    requires rest == [] || IsSpace(rest[0])
    ensures var ws := Words(a + [' '] + (b + [' '] + (c + rest)));
      |ws| >= 3 && ws[0] == a && ws[1] == b && ws[2] == c
  {
    var t2 := c + rest;
    WordThenSpace(a, b + [' '] + t2);
    WordThenSpace(b, t2);
    WordThenRest(c, rest);
  }

  /** The words of `ys years ms rest` start with `ys`, `years` and `ms`. */
  lemma WordsOfYears(ys: string, ms: string, rest: string)
    requires ys != [] && NoSpace(ys) && ms != [] && NoSpace(ms)
    requires rest == [] || IsSpace(rest[0])
    ensures var ws := Words(YearsText(ys, ms, rest));
      |ws| >= 3 && ws[0] == ys && ws[2] == ms
  {
    var y := "years";
    assert NoSpace(y);
    assert YearsText(ys, ms, rest) == ys + [' '] + (y + [' '] + (ms + rest));
    ThreeWords(ys, y, ms, rest);
  }

  lemma YearsTextMentionsYears(ys: string, ms: string, rest: string)
    ensures Contains(YearsText(ys, ms, rest), "years")
  {
    var s := YearsText(ys, ms, rest);
    assert s[|ys| + 1..|ys| + 6] == "years";
    assert OccursAt(s, "years", |ys| + 1);
  }

  /** In the `years` form the years and months are the first and third words. */
  lemma YearsMonthsOfText(ys: string, ms: string, rest: string)
    requires ys != [] && AllDigits(ys) && ms != [] && AllDigits(ms)
    requires rest == [] || IsSpace(rest[0])
    ensures YearsMonths(YearsText(ys, ms, rest)) == Some((DigitsValue(ys) as int, DigitsValue(ms) as int))
  {
    assert NoSpace(ys) && NoSpace(ms);
    WordsOfYears(ys, ms, rest);
    YearsTextMentionsYears(ys, ms, rest);
    ParseDigits(ys);
    ParseDigits(ms);
  }

  /** In the `years` form the label is built from the first and third words. */
  lemma YearsForm(ys: string, ms: string, rest: string)
    requires ys != [] && AllDigits(ys) && ms != [] && AllDigits(ms)
    requires rest == [] || IsSpace(rest[0])
    ensures AgeQuarter(YearsText(ys, ms, rest)) ==
      Pad2(DigitsValue(ys)) + "Y" + Pad2(Quarter(DigitsValue(ms))) + "Q"
  {
    YearsMonthsOfText(ys, ms, rest);
  }

  /** Without `years` the label is built from characters 0-2 and 2-4. */
  lemma CompactForm(yy: string, mm: string, rest: string)
    requires |yy| == 2 && AllDigits(yy) && |mm| == 2 && AllDigits(mm)
    requires !Contains(yy + mm + rest, "years")
    ensures AgeQuarter(yy + mm + rest) == Pad2(DigitsValue(yy)) + "Y" + Pad2(Quarter(DigitsValue(mm))) + "Q"
  {
    var s := yy + mm + rest;
    assert Slice(s, 0, 2) == yy;
    assert Slice(s, 2, 4) == mm;
    ParseDigits(yy);
    ParseDigits(mm);
  }

  /** A `years` text of fewer than three words is an `IndexError`. */
  lemma FewWords(age: string)
    requires Contains(age, "years") && |Words(age)| < 3
    ensures AgeQuarter(age) == Fallback
  {
  }

  /** A compact age of at most two characters has no months. */
  lemma TooShort(age: string)
    requires !Contains(age, "years") && |age| <= 2
    ensures AgeQuarter(age) == Fallback
  {
    assert Slice(age, 2, 4) == [];
  }

  /** The age text `extract_age` of the Post corpus writes is read back as its years and quarter. */
  lemma PostAgeQuarter(y: string, mo: string, d: string)
    requires Post.Triple((y, mo, d))
    ensures AgeQuarter(Post.AgeText(y, mo, d)) == Pad2(DigitsValue(y)) + "Y" + Pad2(Quarter(DigitsValue(mo))) + "Q"
  {
    assert Post.AgeText(y, mo, d) == YearsText(y, mo, " months " + d + " days");
    YearsForm(y, mo, " months " + d + " days");
  }

  /** The age text of the Brend corpus, for a non-negative age, is read back as its years and quarter. */
  lemma BrendAgeQuarter(years: nat, months: nat, days: int)
    ensures AgeQuarter(Brend.AgeText(years, months, days)) == Pad2(years) + "Y" + Pad2(Quarter(months)) + "Q"
  {
    var ys := IntToString(years);
    var ms := Pad2(months);
    assert Brend.AgeText(years, months, days) == YearsText(ys, ms, " months " + Pad2(days) + " days");
    YearsForm(ys, ms, " months " + Pad2(days) + " days");
    NatToStringValue(years);
    Pad2Value(months);
  }

  /** Month 12 is not folded back into the year: months 12 to 14 are a fifth quarter. */
  lemma MonthTwelve(years: nat, months: nat, days: int)
    requires 12 <= months <= 14
    ensures AgeQuarter(Brend.AgeText(years, months, days)) == Pad2(years) + "Y" + "05" + "Q"
  {
    BrendAgeQuarter(years, months, days);
    assert Quarter(months) == 5;
    assert Pad2(5) == "05";
  }

  /** Months 6 to 8 (month 7 among them) are the third quarter. */
  lemma ThirdQuarter(years: nat, months: nat, days: int)
    requires 6 <= months <= 8
    ensures AgeQuarter(Brend.AgeText(years, months, days)) == Pad2(years) + "Y" + "03" + "Q"
  {
    BrendAgeQuarter(years, months, days);
    assert Quarter(months) == 3;
    assert Pad2(3) == "03";
  }

  // ---------------------------------------------------------------------
  // dict.update
  // ---------------------------------------------------------------------

  /** `d.items()` in order: the listed keys that are mapped, with their values. */
  function Items<K, V>(keys: seq<K>, values: map<K, V>): seq<(K, V)>
    decreases |keys|
  {
    if keys == [] then []
    else
      var k := keys[|keys| - 1];
      Items(keys[..|keys| - 1], values) + (if k in values then [(k, values[k])] else [])
  }

  /** `a.update(b)`: the pairs of `b` assigned into `a` in `b`'s order. */
  function Update<K, V>(a: Dict<K, V>, b: Dict<K, V>): Dict<K, V> {
    PutAll(a, Items(b.keys, b.values))
  }

  /** For a well-formed dictionary the items are its keys in order, each with its value. */
  lemma {:induction false} ItemsOfValid<K, V>(keys: seq<K>, values: map<K, V>)
    requires forall i :: 0 <= i < |keys| ==> keys[i] in values
    ensures |Items(keys, values)| == |keys|
    ensures forall i :: 0 <= i < |keys| ==> Items(keys, values)[i] == (keys[i], values[keys[i]])
    decreases |keys|
  {
    if keys != [] {
      var init := keys[..|keys| - 1];
      ItemsOfValid(init, values);
      assert forall i :: 0 <= i < |init| ==> init[i] == keys[i];
    }
  }

  /** After `a.update(b)` a key of `b` has `b`'s value. */
  lemma UpdateNewer<K, V>(a: Dict<K, V>, b: Dict<K, V>, key: K)
    requires Valid(b) && key in b.values
    ensures key in Update(a, b).values && Update(a, b).values[key] == b.values[key]
  {
    KeysStored(b);
    ItemsOfValid(b.keys, b.values);
    var es := Items(b.keys, b.values);
    var k :| 0 <= k < |b.keys| && b.keys[k] == key;
    assert es[k] == (key, b.values[key]);
    assert LastOfKey(es, k) by {
      forall j | k < j < |es| ensures es[j].0 != es[k].0 { assert b.keys[j] != b.keys[k]; }
    }
    PutAllLast(a, es);
  }

  /** After `a.update(b)` a key of `a` that `b` lacks keeps `a`'s value. */
  lemma UpdateOlder<K, V>(a: Dict<K, V>, b: Dict<K, V>, key: K)
    requires Valid(b) && key in a.values && key !in b.values
    ensures key in Update(a, b).values && Update(a, b).values[key] == a.values[key]
  {
    KeysStored(b);
    ItemsOfValid(b.keys, b.values);
    PutAllUntouched(a, Items(b.keys, b.values), key);
  }

  /** The keys after `a.update(b)` are those of `a` and those of `b`. */
  lemma UpdateKeys<K, V>(a: Dict<K, V>, b: Dict<K, V>)
    requires Valid(b)
    ensures Update(a, b).values.Keys == a.values.Keys + b.values.Keys
  {
    KeysStored(b);
    ItemsOfValid(b.keys, b.values);
    var es := Items(b.keys, b.values);
    PutAllKeys(a, es);
    assert KeysOf(es) == b.values.Keys by {
      forall x | x in KeysOf(es) ensures x in b.values.Keys {
        var k :| 0 <= k < |es| && es[k].0 == x;
      }
      forall x | x in b.values.Keys ensures x in KeysOf(es) {
        var k :| 0 <= k < |b.keys| && b.keys[k] == x;
        assert es[k].0 == x;
      }
    }
  }

  /** A run of updates into an empty dictionary, left to right. */
  function Unions<K, V>(ds: seq<Dict<K, V>>): Dict<K, V>
    decreases |ds|
  {
    if ds == [] then Empty() else Update(Unions(ds[..|ds| - 1]), ds[|ds| - 1])
  }

  /** A key has the value of the last dictionary that holds it. */
  lemma {:induction false} UnionsLatest<K, V>(ds: seq<Dict<K, V>>, k: nat, key: K)
    requires forall i :: 0 <= i < |ds| ==> Valid(ds[i])
    requires k < |ds| && key in ds[k].values
    requires forall j :: k < j < |ds| ==> key !in ds[j].values
    ensures key in Unions(ds).values && Unions(ds).values[key] == ds[k].values[key]
    decreases |ds|
  {
    var init := ds[..|ds| - 1];
    if k == |ds| - 1 {
      UpdateNewer(Unions(init), ds[k], key);
    } else {
      UnionsLatest(init, k, key);
      UpdateOlder(Unions(init), ds[|ds| - 1], key);
    }
  }

  /** Some dictionary of the run holds `key`. */
  predicate HeldBySome<K, V>(ds: seq<Dict<K, V>>, key: K) {
    exists i :: 0 <= i < |ds| && key in ds[i].values
  }

  lemma HeldBySomeSnoc<K, V>(ds: seq<Dict<K, V>>, key: K)
    requires ds != []
    ensures HeldBySome(ds, key) <==> HeldBySome(ds[..|ds| - 1], key) || key in ds[|ds| - 1].values
  {
    var init := ds[..|ds| - 1];
    if HeldBySome(ds, key) {
      var i :| 0 <= i < |ds| && key in ds[i].values;
      if i < |init| {
        assert init[i] == ds[i];
      }
    }
    if HeldBySome(init, key) {
      var i :| 0 <= i < |init| && key in init[i].values;
      assert ds[i] == init[i];
    }
  }

  /** The keys of the union are the keys of the dictionaries. */
  lemma {:induction false} UnionsKeys<K, V>(ds: seq<Dict<K, V>>)
    requires forall i :: 0 <= i < |ds| ==> Valid(ds[i])
    ensures forall key :: key in Unions(ds).values <==> HeldBySome(ds, key)
    decreases |ds|
  {
    if ds != [] {
      var init := ds[..|ds| - 1];
      UnionsKeys(init);
      UpdateKeys(Unions(init), ds[|ds| - 1]);
      forall key ensures key in Unions(ds).values <==> HeldBySome(ds, key) {
        HeldBySomeSnoc(ds, key);
      }
    }
  }

  // ---------------------------------------------------------------------
  // Grouping transcripts by age label
  // ---------------------------------------------------------------------

  /**
   * A transcript of the processed data: its metadata and its two utterance
   * dictionaries.  `childAge` is `None` when the key is missing or holds
   * `None`; `childName` is `None` when the key is missing and `Some(None)`
   * when it holds `None`.
   */
  datatype FileData = FileData(
    childAge: Option<string>,
    filePath: string,
    childName: Option<Option<string>>,
    childrenData: Dict<nat, CR.Utterance>,
    adultsData: Dict<nat, CR.Utterance>)

  /** A child of a corpus; `files` is `None` when the entry has no `files` key. */
  datatype ChildData = ChildData(name: string, files: Option<seq<FileData>>)

  datatype Corpus = Corpus(name: string, children: seq<ChildData>)

  /** The summary of a transcript kept in its bucket's `files` list. */
  datatype FileInfo = FileInfo(
    filePath: string,
    childName: Option<string>,
    childAge: string,
    ageGroup: string,
    childExample: string,
    adultExample: string)

  datatype Bucket = Bucket(
    childrenData: Dict<nat, CR.Utterance>,
    adultsData: Dict<nat, CR.Utterance>,
    files: seq<FileInfo>)

  const NewBucket: Bucket := Bucket(Empty(), Empty(), [])

  /** A transcript whose `child_age` is present and not empty. */
  predicate Aged(f: FileData) {
    f.childAge.Some? && f.childAge.value != []
  }

  /** The text of the first utterance in the dictionary, or `default` when it is empty. */
  function Example(d: Dict<nat, CR.Utterance>, default: string): string {
    if d.keys != [] && d.keys[0] in d.values then d.values[d.keys[0]].text else default
  }

  function Info(f: FileData, q: string): FileInfo
    requires Aged(f)
  {
    FileInfo(
      f.filePath,
      if f.childName.None? then Some("N/A") else f.childName.value,
      f.childAge.value,
      q,
      Example(f.childrenData, "No hay expresiones de niños"),
      Example(f.adultsData, "No hay expresiones de adultos"))
  }

  /** The bucket after one more transcript: both updates and the appended summary. */
  function AddFile(b: Bucket, f: FileData, q: string): Bucket
    requires Aged(f)
  {
    Bucket(Update(b.childrenData, f.childrenData), Update(b.adultsData, f.adultsData), b.files + [Info(f, q)])
  }

  /** One transcript of the pass: skipped without an age, otherwise added to its label's bucket. */
  function Step(g: Dict<string, Bucket>, f: FileData): Dict<string, Bucket> {
    if !Aged(f) then g
    else
      var q := AgeQuarter(f.childAge.value);
      var b := if q in g.values then g.values[q] else NewBucket;
      Put(g, q, AddFile(b, f, q))
  }

  /** The buckets after the pass goes on from `g` over the transcripts, in order. */
  function GroupInto(g: Dict<string, Bucket>, fs: seq<FileData>): Dict<string, Bucket>
    decreases |fs|
  {
    if fs == [] then g else Step(GroupInto(g, fs[..|fs| - 1]), fs[|fs| - 1])
  }

  /** The buckets after the whole pass. */
  function Grouped(fs: seq<FileData>): Dict<string, Bucket> {
    GroupInto(Empty(), fs)
  }

  /** Going on over `a` and then `b` is going on over `a + b`. */
  lemma {:induction false} GroupIntoAppend(g: Dict<string, Bucket>, a: seq<FileData>, b: seq<FileData>)
    ensures GroupInto(g, a + b) == GroupInto(GroupInto(g, a), b)
    decreases |b|
  {
    if b == [] {
      assert a + b == a;
    } else {
      var init := b[..|b| - 1];
      GroupIntoAppend(g, a, init);
      assert (a + b)[..|a + b| - 1] == a + init;
    }
  }

  function ChildFiles(c: ChildData): seq<FileData> {
    if c.files.Some? then c.files.value else []
  }

  /** The transcripts of the children, in order. */
  function CorpusFiles(cs: seq<ChildData>): seq<FileData>
    decreases |cs|
  {
    if cs == [] then [] else CorpusFiles(cs[..|cs| - 1]) + ChildFiles(cs[|cs| - 1])
  }

  /** The transcripts of all corpora, in the order the pass visits them. */
  function AllFiles(corpora: seq<Corpus>): seq<FileData>
    decreases |corpora|
  {
    if corpora == [] then [] else AllFiles(corpora[..|corpora| - 1]) + CorpusFiles(corpora[|corpora| - 1].children)
  }

  lemma GroupIntoSnoc(g: Dict<string, Bucket>, fs: seq<FileData>, k: nat)
    requires k < |fs|
    ensures GroupInto(g, fs[..k + 1]) == Step(GroupInto(g, fs[..k]), fs[k])
  {
    assert fs[..k + 1][..k] == fs[..k];
  }

  lemma CorpusFilesSnoc(cs: seq<ChildData>, j: nat)
    requires j < |cs|
    ensures CorpusFiles(cs[..j + 1]) == CorpusFiles(cs[..j]) + ChildFiles(cs[j])
  {
    assert cs[..j + 1][..j] == cs[..j];
  }

  /**
   * The body of the innermost loop: a transcript with an age has its label's
   * bucket created when missing, then updated with its dictionaries and summary.
   */
  method AddTranscript(groups: Dict<string, Bucket>, file: FileData) returns (r: Dict<string, Bucket>)
    ensures r == Step(groups, file)
  {
    var age := if file.childAge.Some? then file.childAge.value else "";
    if age == [] {
      r := groups;
    } else {
      var q := AgeQuarter(age);
      r := groups;
      if q !in r.values {
        r := Put(r, q, NewBucket);
      }
      var b := r.values[q];
      assert b == if q in groups.values then groups.values[q] else NewBucket;
      PutOver(groups, q, NewBucket, AddFile(b, file, q));
      r := Put(r, q, AddFile(b, file, q));
    }
  }

  /** The innermost loop: the transcripts of one child, in order. */
  method AddTranscripts(groups: Dict<string, Bucket>, files: seq<FileData>) returns (r: Dict<string, Bucket>)
    ensures r == GroupInto(groups, files)
  {
    r := groups;
    var k := 0;
    while k < |files|
      invariant 0 <= k <= |files|
      invariant r == GroupInto(groups, files[..k])
    {
      r := AddTranscript(r, files[k]);
      GroupIntoSnoc(groups, files, k);
      k := k + 1;
    }
    assert files[..|files|] == files;
  }

  /** `group_data_by_age`: the nested loops over corpora, children and transcripts. */
  method GroupDataByAge(corpora: seq<Corpus>) returns (groups: Dict<string, Bucket>)
    ensures groups == Grouped(AllFiles(corpora))
  {
    groups := Empty();
    var i := 0;
    while i < |corpora|
      invariant 0 <= i <= |corpora|
      invariant groups == Grouped(AllFiles(corpora[..i]))
    {
      var children := corpora[i].children;
      ghost var atCorpus := groups;
      var j := 0;
      while j < |children|
        invariant 0 <= j <= |children|
        invariant groups == GroupInto(atCorpus, CorpusFiles(children[..j]))
      {
        if children[j].files.Some? {
          groups := AddTranscripts(groups, children[j].files.value);
        }
        CorpusFilesSnoc(children, j);
        GroupIntoAppend(atCorpus, CorpusFiles(children[..j]), ChildFiles(children[j]));
        j := j + 1;
      }
      assert children[..|children|] == children;
      assert AllFiles(corpora[..i + 1]) == AllFiles(corpora[..i]) + CorpusFiles(children) by {
        assert corpora[..i + 1][..i] == corpora[..i];
      }
      GroupIntoAppend(Empty(), AllFiles(corpora[..i]), CorpusFiles(children));
      i := i + 1;
    }
    assert corpora[..|corpora|] == corpora;
  }

  // ---------------------------------------------------------------------
  // What the buckets hold
  // ---------------------------------------------------------------------

  /** The transcripts filed under label `q`, in order. */
  function InBucket(fs: seq<FileData>, q: string): (ws: seq<FileData>)
    ensures forall i :: 0 <= i < |ws| ==> Aged(ws[i]) && AgeQuarter(ws[i].childAge.value) == q
    decreases |fs|
  {
    if fs == [] then []
    else
      var f := fs[|fs| - 1];
      InBucket(fs[..|fs| - 1], q) + (if Aged(f) && AgeQuarter(f.childAge.value) == q then [f] else [])
  }

  function ChildrenOf(ws: seq<FileData>): seq<Dict<nat, CR.Utterance>> {
    seq(|ws|, i requires 0 <= i < |ws| => ws[i].childrenData)
  }

  function AdultsOf(ws: seq<FileData>): seq<Dict<nat, CR.Utterance>> {
    seq(|ws|, i requires 0 <= i < |ws| => ws[i].adultsData)
  }

  /** The summaries of the transcripts, in order. */
  function Infos(ws: seq<FileData>, q: string): seq<FileInfo>
    requires forall i :: 0 <= i < |ws| ==> Aged(ws[i])
  {
    seq(|ws|, i requires 0 <= i < |ws| => Info(ws[i], q))
  }

  /** The bucket made of the given transcripts: the unions of their dictionaries and their summaries. */
  function BucketOf(ws: seq<FileData>, q: string): Bucket
    requires forall i :: 0 <= i < |ws| ==> Aged(ws[i])
  {
    Bucket(Unions(ChildrenOf(ws)), Unions(AdultsOf(ws)), Infos(ws, q))
  }

  lemma BucketSnoc(ws: seq<FileData>, f: FileData, q: string)
    requires forall i :: 0 <= i < |ws| ==> Aged(ws[i])
    requires Aged(f)
    ensures BucketOf(ws + [f], q) == AddFile(BucketOf(ws, q), f, q)
  {
    var vs := ws + [f];
    assert ChildrenOf(vs)[..|ws|] == ChildrenOf(ws);
    assert AdultsOf(vs)[..|ws|] == AdultsOf(ws);
    assert Infos(vs, q) == Infos(ws, q) + [Info(f, q)];
  }

  /** `g` holds one bucket per label of `fs`, made of the transcripts with that label. */
  ghost predicate Describes(g: Dict<string, Bucket>, fs: seq<FileData>) {
    Valid(g) &&
    (forall q :: q in g.values <==> InBucket(fs, q) != []) &&
    (forall q :: q in g.values ==> g.values[q] == BucketOf(InBucket(fs, q), q))
  }

  lemma InBucketSnoc(fs: seq<FileData>, f: FileData, q: string)
    ensures InBucket(fs + [f], q) ==
      InBucket(fs, q) + (if Aged(f) && AgeQuarter(f.childAge.value) == q then [f] else [])
  {
    assert (fs + [f])[..|fs|] == fs;
  }

  /** A transcript without an age changes neither the buckets nor the description. */
  lemma SkipDescribes(g: Dict<string, Bucket>, fs: seq<FileData>, f: FileData)
    requires Describes(g, fs) && !Aged(f)
    ensures Describes(Step(g, f), fs + [f])
  {
    forall q ensures InBucket(fs + [f], q) == InBucket(fs, q) { InBucketSnoc(fs, f, q); }
  }

  /** The bucket of the transcript's label after the step. */
  lemma AddedBucket(g: Dict<string, Bucket>, fs: seq<FileData>, f: FileData, q0: string)
    requires Describes(g, fs) && Aged(f) && q0 == AgeQuarter(f.childAge.value)
    ensures q0 in Step(g, f).values && Step(g, f).values[q0] == BucketOf(InBucket(fs + [f], q0), q0)
  {
    InBucketSnoc(fs, f, q0);
    if q0 !in g.values {
      assert InBucket(fs, q0) == [];
      assert BucketOf([], q0) == NewBucket;
    }
    BucketSnoc(InBucket(fs, q0), f, q0);
  }

  /** The other buckets are left as they were. */
  lemma OtherBucket(g: Dict<string, Bucket>, fs: seq<FileData>, f: FileData, q0: string, q: string)
    requires Describes(g, fs) && Aged(f) && q0 == AgeQuarter(f.childAge.value) && q != q0
    ensures q in Step(g, f).values <==> InBucket(fs + [f], q) != []
    ensures q in Step(g, f).values ==> Step(g, f).values[q] == BucketOf(InBucket(fs + [f], q), q)
  {
    InBucketSnoc(fs, f, q);
    assert InBucket(fs + [f], q) == InBucket(fs, q);
    var b := if q0 in g.values then g.values[q0] else NewBucket;
    var h := Put(g, q0, AddFile(b, f, q0));
    assert Step(g, f) == h;
    assert (q in h.values <==> q in g.values) && (q in g.values ==> h.values[q] == g.values[q]);
  }

  /** One step of the pass keeps the description. */
  lemma StepDescribes(g: Dict<string, Bucket>, fs: seq<FileData>, f: FileData)
    requires Describes(g, fs)
    ensures Describes(Step(g, f), fs + [f])
  {
    if Aged(f) {
      var q0 := AgeQuarter(f.childAge.value);
      var b := if q0 in g.values then g.values[q0] else NewBucket;
      PutValid(g, q0, AddFile(b, f, q0));
      AddedBucket(g, fs, f, q0);
      forall q | q != q0
        ensures (q in Step(g, f).values <==> InBucket(fs + [f], q) != []) &&
          (q in Step(g, f).values ==> Step(g, f).values[q] == BucketOf(InBucket(fs + [f], q), q))
      {
        OtherBucket(g, fs, f, q0, q);
      }
    } else {
      SkipDescribes(g, fs, f);
    }
  }

  /**
   * The buckets after the pass: one per label some transcript with an age
   * has, and each holds exactly the transcripts with that label, in order.
   */
  lemma {:induction false} GroupedBuckets(fs: seq<FileData>)
    ensures Describes(Grouped(fs), fs)
    decreases |fs|
  {
    if fs != [] {
      var init := fs[..|fs| - 1];
      var f := fs[|fs| - 1];
      GroupedBuckets(init);
      StepDescribes(Grouped(init), init, f);
      GroupIntoSnoc(Empty(), fs, |fs| - 1);
      assert fs[..|fs|] == fs == init + [f];
    }
  }

  /** The summaries in a bucket list its transcripts one by one, in order. */
  lemma BucketFiles(fs: seq<FileData>, q: string)
    requires q in Grouped(fs).values
    ensures var files := Grouped(fs).values[q].files;
      var ws := InBucket(fs, q);
      |files| == |ws| && forall k :: 0 <= k < |ws| ==> files[k] == Info(ws[k], q)
  {
    GroupedBuckets(fs);
  }

  /** A transcript is in a bucket exactly when it has an age and that age has the bucket's label. */
  lemma {:induction false} InBucketMembers(fs: seq<FileData>, q: string, f: FileData)
    ensures f in InBucket(fs, q) <==> f in fs && Aged(f) && AgeQuarter(f.childAge.value) == q
    decreases |fs|
  {
    if fs != [] {
      var init := fs[..|fs| - 1];
      var last := fs[|fs| - 1];
      var extra := if Aged(last) && AgeQuarter(last.childAge.value) == q then [last] else [];
      assert InBucket(fs, q) == InBucket(init, q) + extra;
      InBucketMembers(init, q, f);
      InLastSplit(fs, f);
    }
  }

  lemma InLastSplit<T>(s: seq<T>, x: T)
    requires s != []
    ensures x in s <==> x in s[..|s| - 1] || x == s[|s| - 1]
  {
    assert s == s[..|s| - 1] + [s[|s| - 1]];
  }

  /**
   * An utterance key of a bucket's children holds the value of the last
   * transcript of the bucket that has the key: later transcripts overwrite.
   */
  lemma BucketChildrenLatest(fs: seq<FileData>, q: string, k: nat, key: nat)
    requires forall i :: 0 <= i < |fs| ==> Valid(fs[i].childrenData)
    requires q in Grouped(fs).values
    requires var ws := InBucket(fs, q);
      k < |ws| && key in ws[k].childrenData.values &&
      forall j :: k < j < |ws| ==> key !in ws[j].childrenData.values
    ensures key in Grouped(fs).values[q].childrenData.values
    ensures Grouped(fs).values[q].childrenData.values[key] == InBucket(fs, q)[k].childrenData.values[key]
  {
    GroupedBuckets(fs);
    var ws := InBucket(fs, q);
    forall i | 0 <= i < |ws| ensures Valid(ChildrenOf(ws)[i]) {
      InBucketMembers(fs, q, ws[i]);
    }
    UnionsLatest(ChildrenOf(ws), k, key);
  }

  /** The same for the adults' utterances. */
  lemma BucketAdultsLatest(fs: seq<FileData>, q: string, k: nat, key: nat)
    requires forall i :: 0 <= i < |fs| ==> Valid(fs[i].adultsData)
    requires q in Grouped(fs).values
    requires var ws := InBucket(fs, q);
      k < |ws| && key in ws[k].adultsData.values &&
      forall j :: k < j < |ws| ==> key !in ws[j].adultsData.values
    ensures key in Grouped(fs).values[q].adultsData.values
    ensures Grouped(fs).values[q].adultsData.values[key] == InBucket(fs, q)[k].adultsData.values[key]
  {
    GroupedBuckets(fs);
    var ws := InBucket(fs, q);
    forall i | 0 <= i < |ws| ensures Valid(AdultsOf(ws)[i]) {
      InBucketMembers(fs, q, ws[i]);
    }
    UnionsLatest(AdultsOf(ws), k, key);
  }

  /** The keys of a bucket's children are those of its transcripts' children. */
  lemma BucketChildrenKeys(fs: seq<FileData>, q: string, key: nat)
    requires forall i :: 0 <= i < |fs| ==> Valid(fs[i].childrenData)
    requires q in Grouped(fs).values
    ensures key in Grouped(fs).values[q].childrenData.values <==>
      exists k :: 0 <= k < |InBucket(fs, q)| && key in InBucket(fs, q)[k].childrenData.values
  {
    GroupedBuckets(fs);
    var ws := InBucket(fs, q);
    forall i | 0 <= i < |ws| ensures Valid(ChildrenOf(ws)[i]) {
      InBucketMembers(fs, q, ws[i]);
    }
    UnionsKeys(ChildrenOf(ws));
    assert HeldBySome(ChildrenOf(ws), key) <==> exists k :: 0 <= k < |ws| && key in ws[k].childrenData.values by {
      if HeldBySome(ChildrenOf(ws), key) {
        var k :| 0 <= k < |ChildrenOf(ws)| && key in ChildrenOf(ws)[k].values;
        assert key in ws[k].childrenData.values;
      }
      if exists k :: 0 <= k < |ws| && key in ws[k].childrenData.values {
        var k :| 0 <= k < |ws| && key in ws[k].childrenData.values;
        assert key in ChildrenOf(ws)[k].values;
      }
    }
  }

  /** A transcript with an age lands in the bucket of its label and in no other; one without is skipped. */
  lemma FileInOneBucket(fs: seq<FileData>, f: FileData)
    requires f in fs
    ensures Aged(f) ==> var q := AgeQuarter(f.childAge.value);
      q in Grouped(fs).values && f in InBucket(fs, q) &&
      forall q' :: q' != q ==> f !in InBucket(fs, q')
    ensures !Aged(f) ==> forall q :: f !in InBucket(fs, q)
  {
    GroupedBuckets(fs);
    forall q ensures f in InBucket(fs, q) <==> Aged(f) && AgeQuarter(f.childAge.value) == q {
      InBucketMembers(fs, q, f);
    }
  }
}
