/**
 * The iconicity table: spreadsheet rows re-keyed by their `word` cell,
 * answering look-ups and inclusive range queries on the rating and on the
 * proportion of participants who know the word.
 */
module Iconicity {
  import opened Wrappers
  import opened Dicts
  import opened Records

  /** The stored record of a word; `propKnwn` is copied from the `prop_known` column. */
  datatype WordRecord = WordRecord(nRatings: Cell, n: Cell, propKnwn: Cell, rating: Cell, ratingSd: Cell)

  /** A row is kept only with all six columns. */
  predicate HasAllKeys(row: Row) {
    "word" in row && "n_ratings" in row && "n" in row && "prop_known" in row && "rating" in row && "rating_sd" in row
  }

  function RecordOf(row: Row): (r: WordRecord)
    requires HasAllKeys(row)
    ensures r.propKnwn == row["prop_known"] && r.rating == row["rating"] && r.ratingSd == row["rating_sd"]
    ensures r.nRatings == row["n_ratings"] && r.n == row["n"]
  {
    WordRecord(row["n_ratings"], row["n"], row["prop_known"], row["rating"], row["rating_sd"])
  }

  /** `_process_data`: the rows in order, each kept row assigned under its word. */
  function Process(rows: seq<Row>): Dict<Cell, WordRecord> {
    if rows == [] then Empty()
    else
      var last := rows[|rows| - 1];
      var d := Process(rows[..|rows| - 1]);
      if HasAllKeys(last) then Put(d, last["word"], RecordOf(last)) else d
  }

  /** Row `i` exists and is kept. */
  predicate KeptAt(rows: seq<Row>, i: int) {
    0 <= i < |rows| && HasAllKeys(rows[i])
  }

  lemma {:induction false} ProcessValid(rows: seq<Row>)
    ensures Valid(Process(rows))
    decreases |rows|
  {
    if rows != [] {
      var last := rows[|rows| - 1];
      ProcessValid(rows[..|rows| - 1]);
      if HasAllKeys(last) {
        PutValid(Process(rows[..|rows| - 1]), last["word"], RecordOf(last));
      }
    }
  }

  /** The stored words are exactly the words of the kept rows. */
  lemma {:induction false} ProcessKeys(rows: seq<Row>)
    ensures forall w :: w in Process(rows).values <==>
      exists i :: KeptAt(rows, i) && rows[i]["word"] == w
    decreases |rows|
  {
    if rows != [] {
      var init := rows[..|rows| - 1];
      ProcessKeys(init);
      forall w ensures w in Process(rows).values <==> exists i :: KeptAt(rows, i) && rows[i]["word"] == w {
        if w in Process(init).values {
          var i :| KeptAt(init, i) && init[i]["word"] == w;
          assert rows[i] == init[i];
        }
        if exists i :: KeptAt(rows, i) && rows[i]["word"] == w {
          var i :| KeptAt(rows, i) && rows[i]["word"] == w;
          if i < |init| { assert KeptAt(init, i) && init[i]["word"] == w; }
        }
      }
    }
  }

  /** No later kept row carries the word of row `i`. */
  predicate LastKept(rows: seq<Row>, i: int)
    requires KeptAt(rows, i)
  {
    forall j :: i < j < |rows| && KeptAt(rows, j) ==> rows[j]["word"] != rows[i]["word"]
  }

  /** A word's record comes from the last kept row carrying it. */
  lemma {:induction false} ProcessLast(rows: seq<Row>)
    ensures forall i :: KeptAt(rows, i) && LastKept(rows, i) ==>
      rows[i]["word"] in Process(rows).values && Process(rows).values[rows[i]["word"]] == RecordOf(rows[i])
    decreases |rows|
  {
    if rows != [] {
      var init := rows[..|rows| - 1];
      ProcessLast(init);
      forall i | KeptAt(rows, i) && LastKept(rows, i)
        ensures rows[i]["word"] in Process(rows).values && Process(rows).values[rows[i]["word"]] == RecordOf(rows[i])
      {
        if i < |init| {
          assert rows[i] == init[i];
          assert LastKept(init, i) by {
            forall j | i < j < |init| && KeptAt(init, j) ensures init[j]["word"] != init[i]["word"] {
              assert rows[j] == init[j];
              assert KeptAt(rows, j);
            }
          }
        }
      }
    }
  }

  /** A row missing a column leaves the table as it was. */
  lemma IncompleteRowIgnored(rows: seq<Row>, row: Row)
    requires !HasAllKeys(row)
    ensures Process(rows + [row]) == Process(rows)
  {
    assert (rows + [row])[..|rows|] == rows;
  }

  // ---------------------------------------------------------------------
  // Range queries
  // ---------------------------------------------------------------------

  /** The column a range query looks at. */
  datatype Field = Rating | PropKnwn

  function FieldOf(r: WordRecord, f: Field): Cell {
    match f
    case Rating => r.rating
    case PropKnwn => r.propKnwn
  }

  /**
   * `(lo is None or v >= lo) and (hi is None or v <= hi)`: `None` when a
   * bound is given and the value is text, which raises a TypeError.
   */
  function InRange(v: Cell, lo: Option<real>, hi: Option<real>): (r: Option<bool>)
    ensures r.None? <==> v.Str? && (lo.Some? || hi.Some?)
    ensures r == Some(true) <==> (lo.None? || (v.Num? && v.value >= lo.value)) && (hi.None? || (v.Num? && v.value <= hi.value))
  {
    if lo.None? && hi.None? then Some(true)
    else match v
      case Str(_) => None
      case Num(x) => Some((lo.None? || x >= lo.value) && (hi.None? || x <= hi.value))
  }

  /** Every one of `ks` is a stored word. */
  predicate AllStored(d: Dict<Cell, WordRecord>, ks: seq<Cell>) {
    forall i :: 0 <= i < |ks| ==> ks[i] in d.values
  }

  /** The filtering loop over the words `ks`, in order, building a fresh dictionary. */
  function FilterFrom(d: Dict<Cell, WordRecord>, ks: seq<Cell>, f: Field, lo: Option<real>, hi: Option<real>): Option<Dict<Cell, WordRecord>>
    requires AllStored(d, ks)
  {
    if ks == [] then Some(Empty())
    else
      var w := ks[|ks| - 1];
      match FilterFrom(d, ks[..|ks| - 1], f, lo, hi)
      case None => None
      case Some(acc) =>
        match InRange(FieldOf(d.values[w], f), lo, hi)
        case None => None
        case Some(keep) => if keep then Some(Put(acc, w, d.values[w])) else Some(acc)
  }

  /** An error at word `ks[i]`. */
  predicate FailsAt(d: Dict<Cell, WordRecord>, ks: seq<Cell>, f: Field, lo: Option<real>, hi: Option<real>, i: int)
    requires AllStored(d, ks)
  {
    0 <= i < |ks| && InRange(FieldOf(d.values[ks[i]], f), lo, hi).None?
  }

  /** Word `ks[i]` passes the bounds. */
  predicate PassesAt(d: Dict<Cell, WordRecord>, ks: seq<Cell>, f: Field, lo: Option<real>, hi: Option<real>, i: int)
    requires AllStored(d, ks)
  {
    0 <= i < |ks| && InRange(FieldOf(d.values[ks[i]], f), lo, hi) == Some(true)
  }

  /** The query errs exactly when some value is text under a bound. */
  lemma {:induction false} FilterNone(d: Dict<Cell, WordRecord>, ks: seq<Cell>, f: Field, lo: Option<real>, hi: Option<real>)
    requires AllStored(d, ks)
    ensures FilterFrom(d, ks, f, lo, hi).None? <==> exists i :: FailsAt(d, ks, f, lo, hi, i)
    decreases |ks|
  {
    if ks != [] {
      var init := ks[..|ks| - 1];
      assert AllStored(d, init);
      FilterNone(d, init, f, lo, hi);
      if FilterFrom(d, init, f, lo, hi).None? {
        var i :| FailsAt(d, init, f, lo, hi, i);
        assert FailsAt(d, ks, f, lo, hi, i);
      } else {
        assert forall i :: FailsAt(d, ks, f, lo, hi, i) && i < |init| ==> FailsAt(d, init, f, lo, hi, i);
        if InRange(FieldOf(d.values[ks[|ks| - 1]], f), lo, hi).None? {
          assert FailsAt(d, ks, f, lo, hi, |init|);
        }
      }
    }
  }

  /**
   * A query that does not err keeps exactly the words that pass, each with
   * its record unchanged, in a well-formed dictionary.
   */
  lemma FilterKeeps(d: Dict<Cell, WordRecord>, ks: seq<Cell>, f: Field, lo: Option<real>, hi: Option<real>)
    requires AllStored(d, ks)
    ensures FilterFrom(d, ks, f, lo, hi).Some? ==> Valid(FilterFrom(d, ks, f, lo, hi).value)
    ensures FilterFrom(d, ks, f, lo, hi).Some? ==> forall w ::
      (w in FilterFrom(d, ks, f, lo, hi).value.values <==> exists i :: PassesAt(d, ks, f, lo, hi, i) && ks[i] == w)
    ensures FilterFrom(d, ks, f, lo, hi).Some? ==> forall w :: w in FilterFrom(d, ks, f, lo, hi).value.values ==>
      w in d.values && FilterFrom(d, ks, f, lo, hi).value.values[w] == d.values[w]
  {
    FilterValid(d, ks, f, lo, hi);
    FilterMembers(d, ks, f, lo, hi);
    FilterRecords(d, ks, f, lo, hi);
  }

  /** What the loop builds is a well-formed dictionary. */
  lemma {:induction false} FilterValid(d: Dict<Cell, WordRecord>, ks: seq<Cell>, f: Field, lo: Option<real>, hi: Option<real>)
    requires AllStored(d, ks)
    ensures FilterFrom(d, ks, f, lo, hi).Some? ==> Valid(FilterFrom(d, ks, f, lo, hi).value)
    decreases |ks|
  {
    if ks != [] && FilterFrom(d, ks, f, lo, hi).Some? {
      var init := ks[..|ks| - 1];
      var w := ks[|ks| - 1];
      assert AllStored(d, init);
      FilterValid(d, init, f, lo, hi);
      var acc := FilterFrom(d, init, f, lo, hi).value;
      if InRange(FieldOf(d.values[w], f), lo, hi) == Some(true) {
        PutValid(acc, w, d.values[w]);
      }
    }
  }

  /** The loop keeps exactly the words that pass. */
  lemma {:induction false} FilterMembers(d: Dict<Cell, WordRecord>, ks: seq<Cell>, f: Field, lo: Option<real>, hi: Option<real>)
    requires AllStored(d, ks)
    ensures FilterFrom(d, ks, f, lo, hi).Some? ==> forall w ::
      (w in FilterFrom(d, ks, f, lo, hi).value.values <==> exists i :: PassesAt(d, ks, f, lo, hi, i) && ks[i] == w)
    decreases |ks|
  {
    if ks != [] && FilterFrom(d, ks, f, lo, hi).Some? {
      assert AllStored(d, ks[..|ks| - 1]);
      FilterMembers(d, ks[..|ks| - 1], f, lo, hi);
      FilterKeepsStep(d, ks, ks[..|ks| - 1], f, lo, hi);
    }
  }

  /** The loop copies each kept word's record unchanged. */
  lemma {:induction false} FilterRecords(d: Dict<Cell, WordRecord>, ks: seq<Cell>, f: Field, lo: Option<real>, hi: Option<real>)
    requires AllStored(d, ks)
    ensures FilterFrom(d, ks, f, lo, hi).Some? ==> forall w :: w in FilterFrom(d, ks, f, lo, hi).value.values ==>
      w in d.values && FilterFrom(d, ks, f, lo, hi).value.values[w] == d.values[w]
    decreases |ks|
  {
    if ks != [] && FilterFrom(d, ks, f, lo, hi).Some? {
      assert AllStored(d, ks[..|ks| - 1]);
      FilterRecords(d, ks[..|ks| - 1], f, lo, hi);
    }
  }

  /** One more word: the words kept are those kept before, and the new one if it passes. */
  lemma FilterKeepsStep(d: Dict<Cell, WordRecord>, ks: seq<Cell>, init: seq<Cell>, f: Field, lo: Option<real>, hi: Option<real>)
    requires AllStored(d, ks) && ks != [] && FilterFrom(d, ks, f, lo, hi).Some?
    requires init == ks[..|ks| - 1] && AllStored(d, init)
    requires forall w :: (w in FilterFrom(d, init, f, lo, hi).value.values <==>
      exists i :: PassesAt(d, init, f, lo, hi, i) && init[i] == w)
    ensures forall w :: (w in FilterFrom(d, ks, f, lo, hi).value.values <==>
      exists i :: PassesAt(d, ks, f, lo, hi, i) && ks[i] == w)
  {
    var last := ks[|ks| - 1];
    var r := FilterFrom(d, ks, f, lo, hi).value;
    var acc := FilterFrom(d, init, f, lo, hi).value;
    var keep := PassesAt(d, ks, f, lo, hi, |ks| - 1);
    assert r.values.Keys == if keep then acc.values.Keys + {last} else acc.values.Keys;
    forall x ensures x in r.values <==> exists i :: PassesAt(d, ks, f, lo, hi, i) && ks[i] == x {
      PassesSnoc(d, ks, init, f, lo, hi, x);
    }
  }

  /** A word passes somewhere in `ks` when it passes in all but the last, or is the last and passes. */
  lemma PassesSnoc(d: Dict<Cell, WordRecord>, ks: seq<Cell>, init: seq<Cell>, f: Field, lo: Option<real>, hi: Option<real>, x: Cell)
    requires AllStored(d, ks) && ks != [] && init == ks[..|ks| - 1] && AllStored(d, init)
    ensures (exists i :: PassesAt(d, ks, f, lo, hi, i) && ks[i] == x) <==>
      (exists i :: PassesAt(d, init, f, lo, hi, i) && init[i] == x) ||
      (PassesAt(d, ks, f, lo, hi, |ks| - 1) && ks[|ks| - 1] == x)
  {
    if exists i :: PassesAt(d, init, f, lo, hi, i) && init[i] == x {
      var i :| PassesAt(d, init, f, lo, hi, i) && init[i] == x;
      assert PassesAt(d, ks, f, lo, hi, i);
    }
    if exists i :: PassesAt(d, ks, f, lo, hi, i) && ks[i] == x {
      var i :| PassesAt(d, ks, f, lo, hi, i) && ks[i] == x;
      if i < |init| { assert PassesAt(d, init, f, lo, hi, i) && init[i] == x; }
    }
  }

  /** One turn of the filtering loop, from the words before position `i` to those up to it. */
  lemma FilterStep(d: Dict<Cell, WordRecord>, ks: seq<Cell>, i: nat, f: Field, lo: Option<real>, hi: Option<real>,
                   acc: Dict<Cell, WordRecord>)
    requires AllStored(d, ks) && i < |ks| && AllStored(d, ks[..i])
    requires FilterFrom(d, ks[..i], f, lo, hi) == Some(acc)
    ensures AllStored(d, ks[..i + 1])
    ensures InRange(FieldOf(d.values[ks[i]], f), lo, hi).None? ==> FilterFrom(d, ks[..i + 1], f, lo, hi).None?
    ensures InRange(FieldOf(d.values[ks[i]], f), lo, hi) == Some(true) ==>
      FilterFrom(d, ks[..i + 1], f, lo, hi) == Some(Put(acc, ks[i], d.values[ks[i]]))
    ensures InRange(FieldOf(d.values[ks[i]], f), lo, hi) == Some(false) ==>
      FilterFrom(d, ks[..i + 1], f, lo, hi) == Some(acc)
  {
    assert ks[..i + 1][..i] == ks[..i];
    assert ks[..i + 1][i] == ks[i];
  }

  /** One turn of the filtering loop: the failed comparison, or the words kept so far. */
  method FilterTurn(d: Dict<Cell, WordRecord>, ks: seq<Cell>, i: nat, f: Field, lo: Option<real>, hi: Option<real>,
                    acc: Dict<Cell, WordRecord>) returns (next: Option<Dict<Cell, WordRecord>>)
    requires AllStored(d, ks) && i < |ks| && AllStored(d, ks[..i])
    requires FilterFrom(d, ks[..i], f, lo, hi) == Some(acc)
    ensures AllStored(d, ks[..i + 1])
    ensures next == FilterFrom(d, ks[..i + 1], f, lo, hi)
  {
    var w := ks[i];
    FilterStep(d, ks, i, f, lo, hi, acc);
    var ok := InRange(FieldOf(d.values[w], f), lo, hi);
    if ok.None? {
      return None;
    }
    if ok.value {
      return Some(Put(acc, w, d.values[w]));
    }
    return Some(acc);
  }

  /** The query over the whole table, in its order. */
  function Filter(d: Dict<Cell, WordRecord>, f: Field, lo: Option<real>, hi: Option<real>): Option<Dict<Cell, WordRecord>>
    requires Valid(d)
  {
    KeysStored(d);
    FilterFrom(d, d.keys, f, lo, hi)
  }

  /** The filtering loop over the stored words in insertion order, stopping at the first failed comparison. */
  method FilterLoop(d: Dict<Cell, WordRecord>, f: Field, lo: Option<real>, hi: Option<real>) returns (r: Option<Dict<Cell, WordRecord>>)
    requires Valid(d)
    ensures r == Filter(d, f, lo, hi)
  {
    var ks := d.keys;
    KeysStored(d);
    var acc := Empty();
    var i := 0;
    while i < |ks|
      invariant 0 <= i <= |ks|
      invariant AllStored(d, ks[..i])
      invariant FilterFrom(d, ks[..i], f, lo, hi) == Some(acc)
    {
      var next := FilterTurn(d, ks, i, f, lo, hi, acc);
      if next.None? {
        assert Filter(d, f, lo, hi).None? by {
          FailurePersists(d, ks, i + 1, f, lo, hi);
          assert ks[..|ks|] == ks;
        }
        return None;
      }
      acc := next.value;
      i := i + 1;
    }
    assert Filter(d, f, lo, hi) == Some(acc) by { assert ks[..i] == ks; }
    r := Some(acc);
  }

  /** With no bounds every word passes, so nothing is dropped and the order is kept. */
  lemma {:induction false} FilterUnboundedKeepsAll(d: Dict<Cell, WordRecord>, ks: seq<Cell>, f: Field)
    requires AllStored(d, ks) && Distinct(ks)
    ensures FilterFrom(d, ks, f, None, None).Some?
    ensures FilterFrom(d, ks, f, None, None).value.keys == ks
    decreases |ks|
  {
    if ks != [] {
      var init := ks[..|ks| - 1];
      assert AllStored(d, init);
      assert Distinct(init);
      FilterUnboundedKeepsAll(d, init, f);
      FilterKeeps(d, init, f, None, None);
      var w := ks[|ks| - 1];
      assert w !in FilterFrom(d, init, f, None, None).value.values by {
        forall i | 0 <= i < |init| ensures init[i] != w {
          assert ks[i] == init[i];
        }
      }
    }
  }

  // ---------------------------------------------------------------------
  // The model object
  // ---------------------------------------------------------------------

  class Model {
    var wordData: Dict<Cell, WordRecord>

    predicate Valid()
      reads this
    {
      Dicts.Valid(wordData)
    }

    /** `__init__` with `_process_data`: the rows are read in order. */
    constructor(dataDict: seq<Row>)
      ensures wordData == Process(dataDict)
      ensures Valid()
    {
      var d := Empty();
      var i := 0;
      while i < |dataDict|
        invariant 0 <= i <= |dataDict|
        invariant d == Process(dataDict[..i])
      {
        var row := dataDict[i];
        assert dataDict[..i + 1][..i] == dataDict[..i];
        assert dataDict[..i + 1][i] == row;
        if HasAllKeys(row) {
          d := Put(d, row["word"], WordRecord(row["n_ratings"], row["n"], row["prop_known"], row["rating"], row["rating_sd"]));
        }
        i := i + 1;
      }
      assert dataDict[..i] == dataDict;
      ProcessValid(dataDict);
      wordData := d;
    }

    /** `get_word_data`: the stored record, or `None` for an unknown word. */
    method GetWordData(word: Cell) returns (r: Option<WordRecord>)
      ensures r.None? <==> word !in wordData.values
      ensures r.Some? ==> r.value == wordData.values[word]
    {
      if word in wordData.values {
        return Some(wordData.values[word]);
      }
      return None;
    }

    /** `get_all_words`: the stored words, each once, in insertion order. */
    method GetAllWords() returns (r: seq<Cell>)
      requires Valid()
      ensures Distinct(r)
      ensures forall w :: w in r <==> w in wordData.values
    {
      r := wordData.keys;
      KeysStored(wordData);
    }

    /** The loop shared by the two range queries. */
    method FilterWords(f: Field, lo: Option<real>, hi: Option<real>) returns (r: Option<Dict<Cell, WordRecord>>)
      requires Valid()
      ensures r == Filter(wordData, f, lo, hi)
    {
      r := FilterLoop(wordData, f, lo, hi);
    }

    /** `get_words_by_rating`: the words with `lo <= rating <= hi`, absent bounds imposing nothing. */
    method GetWordsByRating(minRating: Option<real> := None, maxRating: Option<real> := None) returns (r: Option<Dict<Cell, WordRecord>>)
      requires Valid()
      ensures r == Filter(wordData, Rating, minRating, maxRating)
    {
      r := FilterWords(Rating, minRating, maxRating);
    }

    /** `get_words_by_known_proportion`: the same rule on `prop_knwn`. */
    method GetWordsByKnownProportion(minProp: Option<real> := None, maxProp: Option<real> := None) returns (r: Option<Dict<Cell, WordRecord>>)
      requires Valid()
      ensures r == Filter(wordData, PropKnwn, minProp, maxProp)
    {
      r := FilterWords(PropKnwn, minProp, maxProp);
    }
  }

  /** Once the loop has raised, the whole query has. */
  lemma {:induction false} FailurePersists(d: Dict<Cell, WordRecord>, ks: seq<Cell>, n: nat, f: Field, lo: Option<real>, hi: Option<real>)
    requires AllStored(d, ks) && n <= |ks|
    requires AllStored(d, ks[..n]) && FilterFrom(d, ks[..n], f, lo, hi).None?
    ensures FilterFrom(d, ks[..|ks|], f, lo, hi).None?
    decreases |ks| - n
  {
    if n < |ks| {
      assert ks[..n + 1][..n] == ks[..n];
      assert AllStored(d, ks[..n + 1]);
      FailurePersists(d, ks, n + 1, f, lo, hi);
    }
  }
}
