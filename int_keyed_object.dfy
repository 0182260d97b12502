/** A JavaScript object whose keys are integers, as the engine's `slotPointsMap`
    (App.tsx). Assigning `obj[k] = v` adds or overwrites key k, and
    `Object.entries` lists array-index keys (the integers 0 to 2^32 - 2) in
    ascending order whatever the order of assignment; so the object is modelled by its entry list, kept strictly
    ascending by key. */
module IntKeyedObject {
  import opened Types

  type Entries<V> = seq<(int, V)>

  predicate Ascending<V>(e: Entries<V>) {
    forall i, j :: 0 <= i < j < |e| ==> e[i].0 < e[j].0
  }

  /** `obj[k]`: the value stored under k, if any. */
  function Get<V>(e: Entries<V>, k: int): Option<V> {
    if e == [] then None
    else if e[0].0 == k then Some(e[0].1)
    else Get(e[1..], k)
  }

  function Keys<V>(e: Entries<V>): set<int> {
    set i | 0 <= i < |e| :: e[i].0
  }

  /** `obj[k] = v`: afterwards k holds v, every other key is as before, and the
      entries stay in ascending key order. */
  function Put<V>(e: Entries<V>, k: int, v: V): (r: Entries<V>)
    requires Ascending(e)
    ensures Ascending(r)
    ensures Keys(r) == Keys(e) + {k}
  {
    if e == [] then
      assert Keys([(k, v)]) == {k} by { KeysCons((k, v), []); }
      [(k, v)]
    else
      KeysCons(e[0], e[1..]);
      assert e == [e[0]] + e[1..];
      if k < e[0].0 then
        KeysCons((k, v), e);
        AscendingCons((k, v), e);
        [(k, v)] + e
      else if k == e[0].0 then
        KeysCons((k, v), e[1..]);
        AscendingCons((k, v), e[1..]);
        [(k, v)] + e[1..]
      else
        var rest := Put(e[1..], k, v);
        KeysCons(e[0], rest);
        KeysOfAscendingAbove(e);
        KeysAbove(rest, e[0].0);
        AscendingCons(e[0], rest);
        [e[0]] + rest
  }

  /** Putting before an ascending list an entry with a smaller key keeps it ascending. */
  lemma AscendingCons<V>(x: (int, V), e: Entries<V>)
    requires Ascending(e)
    requires e != [] ==> x.0 < e[0].0
    ensures Ascending([x] + e)
  {
  }

  lemma KeysOfAscendingAbove<V>(e: Entries<V>)
    requires e != [] && Ascending(e)
    ensures forall key :: key in Keys(e[1..]) ==> e[0].0 < key
  {
  }

  lemma KeysAbove<V>(e: Entries<V>, lo: int)
    requires forall key :: key in Keys(e) ==> lo < key
    ensures e != [] ==> lo < e[0].0
  {
    if e != [] { assert e[0].0 in Keys(e); }
  }

  /** After `obj[k] = v`, k holds v and every other key holds what it held. */
  lemma {:induction false} PutGet<V>(e: Entries<V>, k: int, v: V, j: int)
    requires Ascending(e)
    ensures Get(Put(e, k, v), j) == if j == k then Some(v) else Get(e, j)
  {
    if e != [] && k > e[0].0 {
      var r := Put(e, k, v);
      assert r[1..] == Put(e[1..], k, v);
      PutGet(e[1..], k, v, j);
      if j != e[0].0 {
        AscendingTail(e);
      }
    } else if e != [] {
      assert Put(e, k, v)[1..] == (if k < e[0].0 then e else e[1..]);
    }
  }

  lemma AscendingTail<V>(e: Entries<V>)
    requires e != [] && Ascending(e)
    ensures Ascending(e[1..])
  {
  }

  lemma KeysCons<V>(x: (int, V), e: Entries<V>)
    ensures Keys([x] + e) == {x.0} + Keys(e)
  {
    var r := [x] + e;
    forall key | key in Keys(r) ensures key in {x.0} + Keys(e) {
      var i :| 0 <= i < |r| && r[i].0 == key;
      if i > 0 { assert e[i - 1].0 == key; }
    }
    forall key | key in Keys(e) ensures key in Keys(r) {
      var i :| 0 <= i < |e| && e[i].0 == key;
      assert r[i + 1].0 == key;
    }
    assert r[0].0 == x.0;
  }

  /** In an ascending entry list, looking a key up finds exactly the entry at
      the one position that carries it. */
  lemma {:induction false} GetAt<V>(e: Entries<V>, i: int)
    requires Ascending(e) && 0 <= i < |e|
    ensures Get(e, e[i].0) == Some(e[i].1)
  {
    if i > 0 {
      GetAt(e[1..], i - 1);
    }
  }

  lemma {:induction false} GetSomeIffKey<V>(e: Entries<V>, k: int)
    ensures Get(e, k).Some? <==> k in Keys(e)
  {
    if e != [] {
      GetSomeIffKey(e[1..], k);
      assert e == [e[0]] + e[1..];
      KeysCons(e[0], e[1..]);
    }
  }

  /** An ascending entry list has one entry per key. */
  lemma {:induction false} KeysCount<V>(e: Entries<V>)
    requires Ascending(e)
    ensures |Keys(e)| == |e|
  {
    if e != [] {
      assert e == [e[0]] + e[1..];
      KeysCons(e[0], e[1..]);
      KeysCount(e[1..]);
      assert e[0].0 !in Keys(e[1..]);
    }
  }

  /** The position of a key in the entry list. */
  function IndexOf<V>(e: Entries<V>, k: int): (i: int)
    requires k in Keys(e)
    ensures 0 <= i < |e| && e[i].0 == k
  {
    assert e == [e[0]] + e[1..];
    KeysCons(e[0], e[1..]);
    if e[0].0 == k then 0 else 1 + IndexOf(e[1..], k)
  }

  /** Writing a one-entry object: a smaller key goes in front, the same key
      replaces the value. */
  lemma PutSingle<V>(k0: int, v0: V, k: int, v: V)
    ensures k < k0 ==> Put([(k0, v0)], k, v) == [(k, v), (k0, v0)]
    ensures k == k0 ==> Put([(k0, v0)], k, v) == [(k, v)]
  {
    assert [(k0, v0)][1..] == [];
  }
}
