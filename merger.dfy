/**
 * The dictionary merger: word dictionaries are collected in order; the merge
 * keeps the words every dictionary has, uniting their field maps left to
 * right, and hands back for each dictionary the words that were not common.
 */
module Merger {
  import opened Dicts

  /** The fields recorded for one word. */
  type Fields<V> = map<string, V>

  /** A word dictionary: words to their fields, in insertion order. */
  type WordDict<V> = Dict<string, Fields<V>>

  /** The argument of `add_dictionary`: a dictionary or any other value. */
  datatype Arg<V> = IsDict(d: WordDict<V>) | NotDict

  predicate AllValid<V>(ds: seq<WordDict<V>>) {
    forall i :: 0 <= i < |ds| ==> Valid(ds[i])
  }

  // ---------------------------------------------------------------------
  // What the merge computes
  // ---------------------------------------------------------------------

  /** Every word of every dictionary. */
  function AllWords<V>(ds: seq<WordDict<V>>): set<string> {
    if ds == [] then {} else AllWords(ds[..|ds| - 1]) + ds[|ds| - 1].values.Keys
  }

  lemma {:induction false} AllWordsIff<V>(ds: seq<WordDict<V>>)
    ensures forall w :: w in AllWords(ds) <==> exists i :: 0 <= i < |ds| && w in ds[i].values
    decreases |ds|
  {
    if ds != [] {
      var init := ds[..|ds| - 1];
      AllWordsIff(init);
      forall w | w in AllWords(ds) ensures exists i :: 0 <= i < |ds| && w in ds[i].values {
        if w in AllWords(init) {
          var i :| 0 <= i < |init| && w in init[i].values;
          assert ds[i] == init[i];
        } else {
          assert w in ds[|ds| - 1].values;
        }
      }
      forall w | exists i :: 0 <= i < |ds| && w in ds[i].values ensures w in AllWords(ds) {
        var i :| 0 <= i < |ds| && w in ds[i].values;
        if i < |init| { assert init[i] == ds[i]; }
      }
    }
  }

  /** Word `w` is in every dictionary. */
  predicate InAll<V>(ds: seq<WordDict<V>>, w: string) {
    forall i :: 0 <= i < |ds| ==> w in ds[i].values
  }

  /** The words common to all dictionaries (none when there is no dictionary). */
  function Common<V>(ds: seq<WordDict<V>>): set<string> {
    set w | w in AllWords(ds) && InAll(ds, w)
  }

  /** With at least one dictionary, a word is common exactly when every dictionary has it. */
  lemma CommonIff<V>(ds: seq<WordDict<V>>, w: string)
    requires ds != []
    ensures w in Common(ds) <==> InAll(ds, w)
  {
    AllWordsIff(ds);
    if InAll(ds, w) { assert w in ds[0].values; }
  }

  /** `merged_data.update(d[w])` for each dictionary in turn, from `{}`. */
  function MergedFields<V>(ds: seq<WordDict<V>>, w: string): Fields<V>
    requires InAll(ds, w)
  {
    if ds == [] then map[] else MergedFields(ds[..|ds| - 1], w) + ds[|ds| - 1].values[w]
  }

  /** The merged dictionary: each common word with its united fields. */
  function Merged<V>(ds: seq<WordDict<V>>): map<string, Fields<V>> {
    map w | w in Common(ds) :: MergedFields(ds, w)
  }

  /** A merged word has a field exactly when some dictionary gives it that field. */
  lemma {:induction false} MergedFieldsKeys<V>(ds: seq<WordDict<V>>, w: string)
    requires InAll(ds, w)
    ensures forall f :: f in MergedFields(ds, w) <==> exists i :: 0 <= i < |ds| && f in ds[i].values[w]
    decreases |ds|
  {
    if ds != [] {
      var init := ds[..|ds| - 1];
      MergedFieldsKeys(init, w);
      forall f | f in MergedFields(ds, w) ensures exists i :: 0 <= i < |ds| && f in ds[i].values[w] {
        if f !in ds[|ds| - 1].values[w] {
          assert f in MergedFields(init, w);
          var i :| 0 <= i < |init| && f in init[i].values[w];
          assert ds[i] == init[i];
        }
      }
      forall f | exists i :: 0 <= i < |ds| && f in ds[i].values[w] ensures f in MergedFields(ds, w) {
        var i :| 0 <= i < |ds| && f in ds[i].values[w];
        if i < |init| { assert init[i] == ds[i]; }
      }
    }
  }

  /** A field's merged value is the one of the last dictionary giving that field. */
  lemma {:induction false} MergedFieldsLast<V>(ds: seq<WordDict<V>>, w: string, i: nat, f: string)
    requires InAll(ds, w) && i < |ds| && f in ds[i].values[w]
    requires forall j :: i < j < |ds| ==> f !in ds[j].values[w]
    ensures f in MergedFields(ds, w) && MergedFields(ds, w)[f] == ds[i].values[w][f]
    decreases |ds|
  {
    var init := ds[..|ds| - 1];
    if i < |init| {
      assert init[i] == ds[i];
      MergedFieldsLast(init, w, i, f);
    }
  }

  /** The words of `ks` (all in `d`) that are not in `c`, assigned in order into a fresh dictionary. */
  function LeftoverFrom<V>(d: WordDict<V>, ks: seq<string>, c: set<string>): WordDict<V>
    requires forall i :: 0 <= i < |ks| ==> ks[i] in d.values
  {
    if ks == [] then Empty()
    else
      var w := ks[|ks| - 1];
      var acc := LeftoverFrom(d, ks[..|ks| - 1], c);
      if w !in c then Put(acc, w, d.values[w]) else acc
  }

  /** One turn of the leftover loop, from the keys before position `j` to those up to it. */
  lemma LeftoverStep<V>(d: WordDict<V>, j: nat, c: set<string>)
    requires Valid(d) && j < |d.keys| && forall i :: 0 <= i < |d.keys| ==> d.keys[i] in d.values
    ensures LeftoverFrom(d, d.keys[..j + 1], c) ==
      if d.keys[j] !in c then Put(LeftoverFrom(d, d.keys[..j], c), d.keys[j], d.values[d.keys[j]])
      else LeftoverFrom(d, d.keys[..j], c)
  {
    assert d.keys[..j + 1][..j] == d.keys[..j];
    assert d.keys[..j + 1][j] == d.keys[j];
  }

  /** The sub-dictionary of the words of `d` not in `c`. */
  function Leftover<V>(d: WordDict<V>, c: set<string>): WordDict<V>
    requires Valid(d)
  {
    KeysStored(d);
    LeftoverFrom(d, d.keys, c)
  }

  /** The leftover part holds exactly the words not in `c`, with their fields unchanged. */
  lemma {:induction false} LeftoverFacts<V>(d: WordDict<V>, ks: seq<string>, c: set<string>)
    requires forall i :: 0 <= i < |ks| ==> ks[i] in d.values
    ensures Valid(LeftoverFrom(d, ks, c))
    ensures forall w :: w in LeftoverFrom(d, ks, c).values <==> w in ks && w !in c
    ensures forall w :: w in LeftoverFrom(d, ks, c).values ==> LeftoverFrom(d, ks, c).values[w] == d.values[w]
    decreases |ks|
  {
    if ks != [] {
      var init := ks[..|ks| - 1];
      var w := ks[|ks| - 1];
      LeftoverFacts(d, init, c);
      if w !in c {
        PutValid(LeftoverFrom(d, init, c), w, d.values[w]);
      }
      assert ks == init + [w];
      assert forall x :: x in ks <==> x in init || x == w;
    }
  }

  /** The unmerged list: each dictionary's leftover part in order, empty parts left out. */
  function Unmerged<V>(ds: seq<WordDict<V>>, c: set<string>): seq<WordDict<V>>
    requires AllValid(ds)
  {
    if ds == [] then []
    else
      var u := Leftover(ds[|ds| - 1], c);
      Unmerged(ds[..|ds| - 1], c) + (if u.values != map[] then [u] else [])
  }

  /** Every unmerged part is non-empty and is the leftover part of one of the dictionaries. */
  lemma {:induction false} UnmergedParts<V>(ds: seq<WordDict<V>>, c: set<string>)
    requires AllValid(ds)
    ensures |Unmerged(ds, c)| <= |ds|
    ensures forall k :: 0 <= k < |Unmerged(ds, c)| ==>
      (Unmerged(ds, c)[k].values != map[] && exists i :: 0 <= i < |ds| && Unmerged(ds, c)[k] == Leftover(ds[i], c))
    decreases |ds|
  {
    if ds != [] {
      var init := ds[..|ds| - 1];
      UnmergedParts(init, c);
      var r := Unmerged(ds, c);
      forall k | 0 <= k < |r| ensures r[k].values != map[] && exists i :: 0 <= i < |ds| && r[k] == Leftover(ds[i], c) {
        if k < |Unmerged(init, c)| {
          var i :| 0 <= i < |init| && Unmerged(init, c)[k] == Leftover(init[i], c);
          assert ds[i] == init[i];
        } else {
          assert r[k] == Leftover(ds[|ds| - 1], c);
        }
      }
    }
  }

  /** Nothing added: nothing merged and nothing left over. */
  lemma MergeOfNothing<V>()
    ensures Merged<V>([]) == map[]
    ensures Unmerged<V>([], Common<V>([])) == []
  {
    assert Common<V>([]) == {};
  }

  /**
   * Every word of every dictionary lands either among the merged words or
   * in that dictionary's leftover part, never both.
   */
  lemma KeyPartition<V>(ds: seq<WordDict<V>>, i: nat, w: string)
    requires AllValid(ds) && i < |ds| && w in ds[i].values
    ensures w in Merged(ds) <==> w !in Leftover(ds[i], Common(ds)).values
  {
    assert Valid(ds[i]);
    KeysStored(ds[i]);
    LeftoverFacts(ds[i], ds[i].keys, Common(ds));
  }

  /** One dictionary merges into itself, with nothing left over. */
  lemma MergeOfOne<V>(d: WordDict<V>)
    requires Valid(d)
    ensures Merged([d]) == d.values
    ensures Unmerged([d], Common([d])) == []
  {
    var ds := [d];
    forall w ensures w in Common(ds) <==> w in d.values {
      CommonIff(ds, w);
    }
    forall w | w in Common(ds) ensures MergedFields(ds, w) == d.values[w] {
      assert ds[..0] == [];
      assert MergedFields(ds, w) == map[] + d.values[w];
    }
    KeysStored(d);
    LeftoverFacts(d, d.keys, Common(ds));
    assert Leftover(d, Common(ds)).values == map[];
    assert ds[..0] == [];
  }

  // ---------------------------------------------------------------------
  // The merger object
  // ---------------------------------------------------------------------

  class WordDictionaryMerger<V> {
    var dictionaries: seq<WordDict<V>>

    predicate Valid()
      reads this
    {
      AllValid(dictionaries)
    }

    constructor()
      ensures dictionaries == []
      ensures Valid()
    {
      dictionaries := [];
    }

    /** `add_dictionary`: `false` (a ValueError) for a non-dictionary; otherwise the dictionary is appended. */
    method AddDictionary(arg: Arg<V>) returns (ok: bool)
      requires arg.IsDict? ==> Dicts.Valid(arg.d)
      requires Valid()
      modifies this
      ensures ok <==> arg.IsDict?
      ensures dictionaries == if ok then old(dictionaries) + [arg.d] else old(dictionaries)
      ensures Valid()
    {
      if arg.NotDict? {
        return false;
      }
      dictionaries := dictionaries + [arg.d];
      return true;
    }

    /** `obtain_merge`: the merged dictionary and the unmerged parts; the added dictionaries stay as they are. */
    method ObtainMerge() returns (merged: map<string, Fields<V>>, unmerged: seq<WordDict<V>>)
      requires Valid()
      ensures merged == Merged(dictionaries)
      ensures unmerged == Unmerged(dictionaries, Common(dictionaries))
    {
      var ds := dictionaries;
      if |ds| == 0 {
        MergeOfNothing<V>();
        return map[], [];
      }
      var allWords := CollectWords(ds);
      var common := CommonWords(ds, allWords);
      merged := MergeWords(ds, common);
      unmerged := CollectLeftovers(ds, common);
    }
  }

  /** `all_words.update(d.keys())` for each dictionary. */
  method CollectWords<V>(ds: seq<WordDict<V>>) returns (allWords: set<string>)
    ensures allWords == AllWords(ds)
  {
    allWords := {};
    var i := 0;
    while i < |ds|
      invariant 0 <= i <= |ds|
      invariant allWords == AllWords(ds[..i])
    {
      assert ds[..i + 1][..i] == ds[..i];
      allWords := allWords + ds[i].values.Keys;
      i := i + 1;
    }
    assert ds[..i] == ds;
  }

  /** The leftover of each dictionary, in order, the empty ones dropped. */
  method CollectLeftovers<V>(ds: seq<WordDict<V>>, common: set<string>) returns (unmerged: seq<WordDict<V>>)
    requires AllValid(ds)
    ensures unmerged == Unmerged(ds, common)
  {
    unmerged := [];
    var i := 0;
    while i < |ds|
      invariant 0 <= i <= |ds|
      invariant AllValid(ds[..i])
      invariant unmerged == Unmerged(ds[..i], common)
    {
      assert ds[..i + 1][..i] == ds[..i];
      assert ds[..i + 1][i] == ds[i];
      var u := LeftoverOf(ds[i], common);
      if u.values != map[] {
        unmerged := unmerged + [u];
      }
      i := i + 1;
    }
    assert ds[..i] == ds;
  }

  /** `common_words.intersection_update(d.keys())` for each dictionary, starting from all words. */
  method CommonWords<V>(ds: seq<WordDict<V>>, allWords: set<string>) returns (common: set<string>)
    requires allWords == AllWords(ds)
    ensures common == Common(ds)
  {
    common := allWords;
    var i := 0;
    while i < |ds|
      invariant 0 <= i <= |ds|
      invariant forall w :: w in common <==> w in allWords && forall k :: 0 <= k < i ==> w in ds[k].values
    {
      common := common * ds[i].values.Keys;
      i := i + 1;
    }
  }

  /** The loop over the common words, in whatever order the set yields them. */
  method MergeWords<V>(ds: seq<WordDict<V>>, common: set<string>) returns (merged: map<string, Fields<V>>)
    requires common == Common(ds)
    ensures merged == Merged(ds)
  {
    merged := map[];
    var rest := common;
    while rest != {}
      invariant rest <= common
      invariant merged.Keys == common - rest
      invariant forall w :: w in merged ==> w in Common(ds) && merged[w] == MergedFields(ds, w)
      decreases |rest|
    {
      var w :| w in rest;
      var data := MergeWord(ds, w);
      merged := merged[w := data];
      rest := rest - {w};
    }
  }

  /** The inner loop: `merged_data.update(d[w])` over the dictionaries. */
  method MergeWord<V>(ds: seq<WordDict<V>>, w: string) returns (data: Fields<V>)
    requires InAll(ds, w)
    ensures data == MergedFields(ds, w)
  {
    data := map[];
    var k := 0;
    while k < |ds|
      invariant 0 <= k <= |ds|
      invariant InAll(ds[..k], w)
      invariant data == MergedFields(ds[..k], w)
    {
      assert ds[..k + 1][..k] == ds[..k];
      assert ds[..k + 1][k] == ds[k];
      data := data + ds[k].values[w];
      k := k + 1;
    }
    assert ds[..k] == ds;
  }

  /** `for word, data in d.items(): if word not in common: unmerged_dict[word] = data`. */
  method LeftoverOf<V>(d: WordDict<V>, c: set<string>) returns (u: WordDict<V>)
    requires Valid(d)
    ensures u == Leftover(d, c)
  {
    KeysStored(d);
    u := Empty();
    var j := 0;
    while j < |d.keys|
      invariant 0 <= j <= |d.keys|
      invariant u == LeftoverFrom(d, d.keys[..j], c)
    {
      var w := d.keys[j];
      LeftoverStep(d, j, c);
      if w !in c {
        u := Put(u, w, d.values[w]);
      }
      j := j + 1;
    }
    assert d.keys[..j] == d.keys;
  }
}
