/** A keyed store with an id counter: the shape shared by the in-memory
    repositories (`HashMap` plus `currentID`) and by the identity-generating
    relational tables behind the JPA repositories. */
module Stores {
  import opened Outcomes

  datatype Store<T> = Store(rows: map<int, T>, counter: nat)

  /** Every key in use was handed out by the counter. `Insert` keeps this, and
      so do writes under keys already present. */
  ghost predicate Valid<T>(s: Store<T>)
  {
    forall k :: k in s.rows ==> 1 <= k <= s.counter
  }

  /** `map.containsKey(id) ? Optional.of(map.get(id)) : Optional.empty()` */
  function Find<T>(s: Store<T>, id: int): Option<T>
  {
    if id in s.rows then Some(s.rows[id]) else None
  }

  /** The id the next `Insert` hands out: `++currentID`. */
  function NextId<T>(s: Store<T>): (id: int)
    ensures id > s.counter
    ensures Valid(s) ==> id !in s.rows
  {
    s.counter + 1
  }

  /** Stores `v` under a fresh id and advances the counter. */
  function Insert<T>(s: Store<T>, v: T): (r: Store<T>)
    ensures r.counter == s.counter + 1
    ensures Find(r, NextId(s)) == Some(v)
    ensures forall k :: k != NextId(s) ==> Find(r, k) == Find(s, k)
    ensures Valid(s) ==> Valid(r) && |r.rows| == |s.rows| + 1
  {
    Store(s.rows[s.counter + 1 := v], s.counter + 1)
  }

  /** `map.put(id, v)`: overwrites or adds the entry at `id`, nothing else. */
  function Put<T>(s: Store<T>, id: int, v: T): (r: Store<T>)
    ensures r.counter == s.counter
    ensures Find(r, id) == Some(v)
    ensures forall k :: k != id ==> Find(r, k) == Find(s, k)
    ensures Valid(s) && id in s.rows ==> Valid(r) && |r.rows| == |s.rows|
  {
    Store(s.rows[id := v], s.counter)
  }

  /** `map.remove(id)`: drops the entry at `id`, nothing else. */
  function Remove<T>(s: Store<T>, id: int): (r: Store<T>)
    ensures r.counter == s.counter
    ensures Find(r, id) == None
    ensures forall k :: k != id ==> Find(r, k) == Find(s, k)
    ensures Valid(s) ==> Valid(r)
    ensures id in s.rows ==> |r.rows| == |s.rows| - 1
    ensures id !in s.rows ==> r == s
  {
    Store(s.rows - {id}, s.counter)
  }

  /** A finite non-empty set of integers has a least element. */
  lemma {:induction false} LeastExists(ks: set<int>)
    requires ks != {}
    ensures exists m :: m in ks && forall k :: k in ks ==> m <= k
    decreases |ks|
  {
    if forall y :: y !in ks {
      assert false;  // extensionality: such a set equals {}
    }
    var x :| x in ks;
    if ks != {x} {
      var rest := ks - {x};
      LeastExists(rest);
      var m :| m in rest && forall k :: k in rest ==> m <= k;
      var least := if x < m then x else m;
      forall k | k in ks
        ensures least <= k
      {
        if k != x {
          assert k in rest;
        }
      }
      assert least in ks;
    } else {
      assert forall k :: k in ks ==> x <= k;
    }
  }

  function Least(ks: set<int>): (m: int)
    requires ks != {}
    ensures m in ks && forall k :: k in ks ==> m <= k
  {
    LeastExists(ks);
    var m :| m in ks && forall k :: k in ks ==> m <= k;
    m
  }

  /** The keys of a store in ascending order, each once. */
  function SortedKeys(ks: set<int>): (r: seq<int>)
    ensures forall k :: k in r <==> k in ks
    ensures forall i, j :: 0 <= i < j < |r| ==> r[i] < r[j]
    ensures |r| == |ks|
    decreases |ks|
  {
    if ks == {} then []
    else
      var m := Least(ks);
      [m] + SortedKeys(ks - {m})
  }

  function ValuesAt<T>(rows: map<int, T>, ks: seq<int>): (r: seq<T>)
    requires forall i :: 0 <= i < |ks| ==> ks[i] in rows
    ensures |r| == |ks|
    ensures forall i :: 0 <= i < |r| ==> r[i] == rows[ks[i]]
  {
    if ks == [] then [] else [rows[ks[0]]] + ValuesAt(rows, ks[1..])
  }

  /** `new ArrayList<>(map.values())`: one element per stored entry, in
      ascending key order (the order of a `HashMap` is unspecified, and
      ascending key order is one it may take). */
  function FindAll<T>(s: Store<T>): (r: seq<T>)
    ensures |r| == |s.rows|
    ensures forall i :: 0 <= i < |r| ==>
      SortedKeys(s.rows.Keys)[i] in s.rows && r[i] == s.rows[SortedKeys(s.rows.Keys)[i]]
  {
    ValuesAt(s.rows, SortedKeys(s.rows.Keys))
  }

  /** `FindAll` lists exactly the stored values. */
  lemma FindAllExact<T>(s: Store<T>, v: T)
    ensures v in FindAll(s) <==> exists k :: k in s.rows && s.rows[k] == v
  {
    var ks := SortedKeys(s.rows.Keys);
    if k :| k in s.rows && s.rows[k] == v {
      var i :| 0 <= i < |ks| && ks[i] == k;
      assert FindAll(s)[i] == v;
    }
  }
}
