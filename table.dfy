/**
 * The `known_faces` table of the recognizer: a dictionary from a person's name
 * to a face record. Python dictionaries iterate in insertion order, and that
 * order decides which entry a search meets first, so the table is modelled as
 * a sequence of entries, oldest first, whose names are pairwise distinct.
 */
module FaceTable {
  import opened Wrappers
  import opened Features

  /**
   * One registered person: the averaged vector (`features`), the individual
   * vectors (`all_features`, absent from records written by older versions of
   * the data file), the registration time stamp and the number of images used.
   */
  datatype FaceRecord = FaceRecord(
    features: FeatureVector,
    allFeatures: Option<seq<FeatureVector>>,
    registeredAt: string,
    imageCount: int)

  /** A dictionary item `(name, record)`. */
  datatype Entry = Entry(name: string, record: FaceRecord)

  /** The dictionary's items in insertion order. */
  type Table = seq<Entry>

  /** `name in known_faces`. */
  predicate HasName(t: Table, name: string) {
    exists e :: e in t && e.name == name
  }

  /** Dictionary keys are unique. */
  predicate DistinctNames(t: Table) {
    forall i, j :: 0 <= i < j < |t| ==> t[i].name != t[j].name
  }

  /**
   * `del known_faces[name]`: the table without the entry for `name`, the other
   * entries keeping their order.
   */
  function Remove(t: Table, name: string): (r: Table)
    ensures forall e :: e in r <==> e in t && e.name != name
    ensures forall m :: HasName(r, m) <==> HasName(t, m) && m != name
    ensures DistinctNames(t) ==> DistinctNames(r)
    ensures !HasName(t, name) ==> r == t
    decreases |t|
  {
    if |t| == 0 then []
    else if t[0].name == name then Remove(t[1..], name)
    else
      var rest := Remove(t[1..], name);
      [t[0]] + rest
  }

  /**
   * With distinct names, deleting the name at position `k` removes exactly that
   * entry: what is left is the entries before and after it, in order.
   */
  lemma {:induction false} RemoveAt(t: Table, k: nat)
    requires DistinctNames(t) && k < |t|
    ensures Remove(t, t[k].name) == t[..k] + t[k + 1..]
  {
    TailDistinct(t);
    var n := t[k].name;
    if k == 0 {
      HeadNotInTail(t);
      assert t[..0] + t[1..] == t[1..];
    } else {
      var tail := t[1..];
      assert t[0].name != n;
      var rest := Remove(tail, n);
      assert Remove(t, n) == [t[0]] + rest;
      assert tail[k - 1] == t[k];
      RemoveAt(tail, k - 1);
      assert rest == tail[..k - 1] + tail[k..];
      SplitAround(t, k);
    }
  }

  /** Cutting out position `k > 0` of `t` is keeping the head and cutting position `k - 1` of the tail. */
  lemma SplitAround(t: Table, k: nat)
    requires 0 < k < |t|
    ensures [t[0]] + (t[1..][..k - 1] + t[1..][k..]) == t[..k] + t[k + 1..]
  {
    assert t[1..][..k - 1] == t[1..k];
    assert t[1..][k..] == t[k + 1..];
    assert [t[0]] + t[1..k] == t[..k];
  }

  lemma TailDistinct(t: Table)
    requires DistinctNames(t) && |t| > 0
    ensures DistinctNames(t[1..])
  {
    var tail := t[1..];
    forall i, j | 0 <= i < j < |tail| ensures tail[i].name != tail[j].name {
      assert tail[i] == t[i + 1] && tail[j] == t[j + 1];
    }
  }

  lemma HeadNotInTail(t: Table)
    requires DistinctNames(t) && |t| > 0
    ensures !HasName(t[1..], t[0].name)
  {
    var tail := t[1..];
    forall e | e in tail ensures e.name != t[0].name {
      var i :| 0 <= i < |tail| && tail[i] == e;
      assert e == t[i + 1];
    }
  }

  /** Adding a new name at the end and deleting it again restores the table. */
  lemma {:induction false} AddThenRemove(t: Table, e: Entry)
    requires !HasName(t, e.name)
    ensures Remove(t + [e], e.name) == t
  {
    if |t| == 0 {
      assert [] + [e] == [e];
      assert [e][1..] == [];
    } else {
      assert t[0].name != e.name;
      assert (t + [e])[1..] == t[1..] + [e];
      AddThenRemove(t[1..], e);
    }
  }

  /** Adding an entry under a new name keeps the names distinct and adds exactly that name. */
  lemma AddKeepsDistinct(t: Table, e: Entry)
    requires DistinctNames(t) && !HasName(t, e.name)
    ensures DistinctNames(t + [e])
    ensures forall m :: HasName(t + [e], m) <==> HasName(t, m) || m == e.name
  {
    forall m | HasName(t + [e], m) && m != e.name ensures HasName(t, m) {
      var k :| 0 <= k < |t| + 1 && (t + [e])[k].name == m;
      assert t[k].name == m;
    }
    forall m | HasName(t, m) ensures HasName(t + [e], m) {
      var k :| 0 <= k < |t| && t[k].name == m;
      assert (t + [e])[k].name == m;
    }
    assert (t + [e])[|t|].name == e.name;
  }
}
