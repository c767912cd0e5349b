/**
 * The formatter that splits a transcript's utterances into child and adult
 * maps keyed by 1-based position in the whole file, and re-keys CSV rows
 * 1..n.  Its three maps are fields that later calls update in place and
 * never clear.
 */
module Formatter {
  import opened Wrappers
  import opened Records
  import CR = ChatReader

  /** `is_children`: only the exact code `CHI` is the child. */
  predicate IsChildren(code: string) {
    code == "CHI"
  }

  /** The element at 1-based position `i`. */
  function At<T>(s: seq<T>, i: nat): T
    requires 1 <= i <= |s|
  {
    s[i - 1]
  }

  /** The positions 1..n. */
  function Positions(n: nat): (r: set<nat>)
    ensures forall i :: i in r <==> 1 <= i <= n
  {
    if n == 0 then {} else Positions(n - 1) + {n}
  }

  /** The entries a call stores in the child map: each child utterance under its position. */
  function ChildPart(us: seq<CR.Utterance>): map<nat, CR.Utterance> {
    map i | i in Positions(|us|) && IsChildren(At(us, i).speaker) :: At(us, i)
  }

  /** The entries a call stores in the adult map. */
  function AdultPart(us: seq<CR.Utterance>): map<nat, CR.Utterance> {
    map i | i in Positions(|us|) && !IsChildren(At(us, i).speaker) :: At(us, i)
  }

  /** Rows re-keyed from 1 in row order. */
  function Indexed(rows: seq<Row>): (r: map<nat, Row>)
    ensures r.Keys == Positions(|rows|)
    ensures forall i :: 1 <= i <= |rows| ==> r[i] == At(rows, i)
  {
    map i | i in Positions(|rows|) :: At(rows, i)
  }

  /**
   * On a fresh formatter the two maps split the positions: their keys are
   * disjoint, together exactly 1..n, and each key holds the utterance at that
   * position, in the child map exactly when its speaker is `CHI`.
   */
  lemma PartitionFacts(us: seq<CR.Utterance>)
    ensures ChildPart(us).Keys !! AdultPart(us).Keys
    ensures ChildPart(us).Keys + AdultPart(us).Keys == Positions(|us|)
    ensures forall i :: 1 <= i <= |us| ==>
      (i in ChildPart(us) <==> At(us, i).speaker == "CHI") &&
      (i in ChildPart(us) ==> ChildPart(us)[i] == At(us, i)) &&
      (i in AdultPart(us) ==> AdultPart(us)[i] == At(us, i))
  {
  }

  /**
   * `is_children` compares the whole code exactly: every other speaker,
   * `chi` or `CHI2` included, lands in the adult part.
   */
  lemma AdultIff(us: seq<CR.Utterance>, i: nat)
    requires 1 <= i <= |us|
    ensures i in AdultPart(us) <==> At(us, i).speaker != "CHI"
    ensures i in AdultPart(us) <==> !IsChildren(At(us, i).speaker)
  {
  }

  /** One more utterance adds exactly its own entry to one of the two parts. */
  lemma PartsSnoc(us: seq<CR.Utterance>, u: CR.Utterance)
    ensures IsChildren(u.speaker) ==>
      ChildPart(us + [u]) == ChildPart(us)[|us| + 1 := u] && AdultPart(us + [u]) == AdultPart(us)
    ensures !IsChildren(u.speaker) ==>
      AdultPart(us + [u]) == AdultPart(us)[|us| + 1 := u] && ChildPart(us + [u]) == ChildPart(us)
  {
    var vs := us + [u];
    assert forall i :: 1 <= i <= |us| ==> At(vs, i) == At(us, i);
    assert At(vs, |vs|) == u;
  }

  /** Writing over a union is writing over its right-hand side. */
  lemma UnionUpdate<K, V>(a: map<K, V>, b: map<K, V>, k: K, v: V)
    ensures (a + b)[k := v] == a + b[k := v]
  {
  }

  /** Keys are whole-file positions: two child lines around an adult line get keys 1 and 3. */
  lemma KeysArePositions(a: CR.Utterance, b: CR.Utterance, c: CR.Utterance)
    requires a.speaker == "CHI" && b.speaker == "MOT" && c.speaker == "CHI"
    ensures ChildPart([a, b, c]).Keys == {1, 3}
    ensures AdultPart([a, b, c]).Keys == {2}
  {
    var us := [a, b, c];
    assert us[0] == a && us[1] == b && us[2] == c;
    assert 1 in ChildPart(us) && 3 in ChildPart(us) && 2 in AdultPart(us);
  }

  class DataFormatter {
    const reader: CR.Reader
    var childrenData: map<nat, CR.Utterance>
    var adultsData: map<nat, CR.Utterance>
    var dataDict: map<nat, Row>

    constructor()
      ensures fresh(reader) && reader.data == None
      ensures childrenData == map[] && adultsData == map[] && dataDict == map[]
    {
      reader := new CR.Reader();
      childrenData := map[];
      adultsData := map[];
      dataDict := map[];
    }

    /**
     * `format_csv_data_from`, given what the CSV loader returned: the rows
     * re-keyed from 1, stored in `dataDict`; `None` leaves everything as is.
     */
    method FormatCsvDataFrom(rows: Option<seq<Row>>) returns (r: Option<map<nat, Row>>)
      modifies this
      ensures rows.None? ==> r.None? && dataDict == old(dataDict)
      ensures rows.Some? ==> dataDict == Indexed(rows.value) && r == Some(dataDict)
      ensures childrenData == old(childrenData) && adultsData == old(adultsData)
    {
      if rows.None? {
        return None;
      }
      dataDict := Indexed(rows.value);
      return Some(dataDict);
    }

    /**
     * `format_cha_data_from`: the transcript is read by `reader`; each of its
     * utterances is written over the child or adult map at its position, and
     * both maps are returned.  A failed read returns `(None, None)` and
     * changes neither map.
     */
    method FormatChaDataFrom(filePath: string, file: Option<string>)
      returns (children: Option<map<nat, CR.Utterance>>, adults: Option<map<nat, CR.Utterance>>)
      modifies this, reader
      ensures reader.data == (if CR.ReadChaOf(filePath, file).Some? then CR.ReadChaOf(filePath, file) else old(reader.data))
      ensures CR.ReadChaOf(filePath, file).None? ==>
        children.None? && adults.None? && childrenData == old(childrenData) && adultsData == old(adultsData)
      ensures CR.ReadChaOf(filePath, file).Some? ==>
        var us := CR.ReadChaOf(filePath, file).value.metadata.utterances;
        && childrenData == old(childrenData) + ChildPart(us)
        && adultsData == old(adultsData) + AdultPart(us)
        && children == Some(childrenData) && adults == Some(adultsData)
      ensures dataDict == old(dataDict)
    {
      var data := reader.ReadCha(filePath, file);
      if data.None? {
        return None, None;
      }
      Partition(data.value.metadata.utterances);
      return Some(childrenData), Some(adultsData);
    }

    /** The `enumerate(utterances)` loop. */
    method Partition(us: seq<CR.Utterance>)
      modifies this
      ensures childrenData == old(childrenData) + ChildPart(us)
      ensures adultsData == old(adultsData) + AdultPart(us)
      ensures dataDict == old(dataDict)
    {
      var i := 0;
      while i < |us|
        invariant 0 <= i <= |us|
        invariant childrenData == old(childrenData) + ChildPart(us[..i])
        invariant adultsData == old(adultsData) + AdultPart(us[..i])
        invariant dataDict == old(dataDict)
      {
        var u := us[i];
        PartsSnoc(us[..i], u);
        assert us[..i + 1] == us[..i] + [u];
        if IsChildren(u.speaker) {
          UnionUpdate(old(childrenData), ChildPart(us[..i]), i + 1, u);
          childrenData := childrenData[i + 1 := u];
        } else {
          UnionUpdate(old(adultsData), AdultPart(us[..i]), i + 1, u);
          adultsData := adultsData[i + 1 := u];
        }
        i := i + 1;
      }
      assert us[..i] == us;
    }

    method GetChildrenData() returns (r: map<nat, CR.Utterance>)
      ensures r == childrenData
    {
      return childrenData;
    }

    method GetAdultsData() returns (r: map<nat, CR.Utterance>)
      ensures r == adultsData
    {
      return adultsData;
    }

    method GetData() returns (r: map<nat, Row>)
      ensures r == dataDict
    {
      return dataDict;
    }
  }

  /**
   * A reused formatter can hold one position in both maps: a child line at
   * position 1 from an earlier file and an adult line at position 1 from
   * the next stay side by side.
   */
  lemma ReuseOverlap(u: CR.Utterance, v: CR.Utterance)
    requires u.speaker == "CHI" && v.speaker == "MOT"
    ensures 1 in (map[] + ChildPart([u])) + ChildPart([v])
    ensures 1 in (map[] + AdultPart([u])) + AdultPart([v])
  {
    assert [u][0] == u && [v][0] == v;
    assert 1 in ChildPart([u]);
    assert 1 in AdultPart([v]);
  }

  /** A later call overwrites keys 1..m and keeps the larger keys of earlier calls. */
  lemma SecondCallKeeps(old_: map<nat, CR.Utterance>, us: seq<CR.Utterance>, k: nat)
    requires k in old_ && k > |us|
    ensures k in old_ + ChildPart(us) && (old_ + ChildPart(us))[k] == old_[k]
    ensures k in old_ + AdultPart(us) && (old_ + AdultPart(us))[k] == old_[k]
  {
  }
}
