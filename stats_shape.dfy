/**
 * The shape check the statistics plotter runs on its input: a dictionary of
 * age groups, each a dictionary with `adults` and `children`, each of which
 * holds the seven statistics fields.
 */
module StatsShape {
  import opened Wrappers
  import opened Text

  /**
   * A Python value as far as the check can tell them apart: a dictionary (its
   * items in order), a string, a list or set (its elements), or anything
   * else (a number, `None`), on which `in` raises `TypeError`.
   */
  datatype Value =
    | Obj(items: seq<(string, Value)>)
    | Str(s: string)
    | Items(elems: seq<Value>)
    | Scalar

  const RequiredFields: seq<string> := [
    "total_words", "iconic_words", "non_iconic_words",
    "total_iconic_occurrences", "total_non_iconic_occurrences",
    "unique_iconic_words", "unique_non_iconic_words"]

  /** A dictionary's key test. */
  predicate HasKey(items: seq<(string, Value)>, k: string) {
    exists i :: 0 <= i < |items| && items[i].0 == k
  }

  /** `d[k]` on a dictionary that has the key. */
  function Lookup(items: seq<(string, Value)>, k: string): (v: Value)
    requires HasKey(items, k)
    ensures exists i :: 0 <= i < |items| && items[i] == (k, v)
  {
    if items[0].0 == k then items[0].1 else Lookup(items[1..], k)
  }

  /** A Python dictionary holds each key once; the `Obj` items of real input do too. */
  predicate UniqueKeys(items: seq<(string, Value)>) {
    forall i, j :: 0 <= i < j < |items| ==> items[i].0 != items[j].0
  }

  /** With each key held once, `d[k]` is the value stored with `k`. */
  lemma {:induction false} LookupUnique(items: seq<(string, Value)>, k: string, i: nat)
    requires UniqueKeys(items) && i < |items| && items[i].0 == k
    ensures HasKey(items, k) && Lookup(items, k) == items[i].1
  {
    if i > 0 {
      assert items[0].0 != k;
      assert items[1..][i - 1] == items[i];
      LookupUnique(items[1..], k, i - 1);
    }
  }

  /** Python's `field in v`: key test, substring test, element test, or `None` for `TypeError`. */
  function In(field: string, v: Value): (r: Option<bool>)
    ensures r.None? <==> v.Scalar?
  {
    match v
    case Obj(items) => Some(HasKey(items, field))
    case Str(s) => Some(Contains(s, field))
    case Items(elems) => Some(Str(field) in elems)
    case Scalar => None
  }

  /** `all(field in v for field in fields)`: stops at the first field that is missing. */
  function AllIn(fields: seq<string>, v: Value): (r: Option<bool>)
    ensures r == Some(true) <==> forall k :: 0 <= k < |fields| ==> In(fields[k], v) == Some(true)
    ensures r.None? <==> fields != [] && v.Scalar?
  {
    if fields == [] then Some(true)
    else
      match In(fields[0], v)
      case None => None
      case Some(false) => Some(false)
      case Some(true) =>
        var r := AllIn(fields[1..], v);
        assert forall k :: 1 <= k < |fields| ==> fields[k] == fields[1..][k - 1];
        r
  }

  /** The checks on one age group's statistics, `adults` first. */
  function StatsOk(stats: Value): Option<bool> {
    if !stats.Obj? then Some(false)
    else if !HasKey(stats.items, "adults") || !HasKey(stats.items, "children") then Some(false)
    else
      match AllIn(RequiredFields, Lookup(stats.items, "adults"))
      case None => None
      case Some(false) => Some(false)
      case Some(true) => AllIn(RequiredFields, Lookup(stats.items, "children"))
  }

  /** The loop over the age groups, returning at the first failing one. */
  function GroupsOk(groups: seq<(string, Value)>): Option<bool>
    decreases |groups|
  {
    if groups == [] then Some(true)
    else
      match StatsOk(groups[0].1)
      case None => None
      case Some(false) => Some(false)
      case Some(true) => GroupsOk(groups[1..])
  }

  /** `_validate_data`: `Some(b)` for a returned `b`, `None` when `TypeError` escapes. */
  function ValidateData(data: Value): (r: Option<bool>)
    ensures !data.Obj? ==> r == Some(false)
  {
    if !data.Obj? then Some(false) else GroupsOk(data.items)
  }

  // ---------------------------------------------------------------------
  // The shape as a predicate
  // ---------------------------------------------------------------------

  /** A group's statistics name every required field. */
  predicate Complete(v: Value) {
    forall k :: 0 <= k < |RequiredFields| ==> In(RequiredFields[k], v) == Some(true)
  }

  predicate StatsShaped(stats: Value) {
    stats.Obj? && HasKey(stats.items, "adults") && HasKey(stats.items, "children") &&
    Complete(Lookup(stats.items, "adults")) && Complete(Lookup(stats.items, "children"))
  }

  predicate WellShaped(data: Value) {
    data.Obj? && forall i :: 0 <= i < |data.items| ==> StatsShaped(data.items[i].1)
  }

  /** The loop passes exactly when every age group is shaped. */
  lemma {:induction false} GroupsOkIff(groups: seq<(string, Value)>)
    ensures GroupsOk(groups) == Some(true) <==> forall i :: 0 <= i < |groups| ==> StatsShaped(groups[i].1)
    decreases |groups|
  {
    if groups != [] {
      GroupsOkIff(groups[1..]);
      assert forall i :: 1 <= i < |groups| ==> groups[i] == groups[1..][i - 1];
    }
  }

  /** The check accepts exactly the well-shaped data. */
  lemma ValidateIff(data: Value)
    ensures ValidateData(data) == Some(true) <==> WellShaped(data)
  {
    if data.Obj? {
      GroupsOkIff(data.items);
    }
  }

  /** An age group whose `adults` or `children` entry is a scalar. */
  predicate ScalarGroup(stats: Value) {
    stats.Obj? &&
    ((HasKey(stats.items, "adults") && Lookup(stats.items, "adults").Scalar?) ||
     (HasKey(stats.items, "children") && Lookup(stats.items, "children").Scalar?))
  }

  /** A `TypeError` escapes only from a group whose `adults` or `children` entry is a scalar. */
  lemma {:induction false} ErrorFromScalar(groups: seq<(string, Value)>)
    requires GroupsOk(groups).None?
    ensures exists i :: 0 <= i < |groups| && ScalarGroup(groups[i].1)
    decreases |groups|
  {
    if StatsOk(groups[0].1).None? {
      assert ScalarGroup(groups[0].1);
    } else {
      ErrorFromScalar(groups[1..]);
      var i :| 0 <= i < |groups[1..]| && ScalarGroup(groups[1..][i].1);
      assert groups[i + 1] == groups[1..][i];
    }
  }

  /** The earlier group decides: a group that fails before a scalar one gives `False`, not an error. */
  lemma FirstFailureWins(bad: (string, Value), rest: seq<(string, Value)>)
    requires StatsOk(bad.1) == Some(false)
    ensures GroupsOk([bad] + rest) == Some(false)
  {
    assert ([bad] + rest)[0] == bad;
  }
}
