/** The id-counter map every in-memory store keeps: entities by id, and the
    counter that hands out the next id (`idCounter`, starting at 1). */
module IdStore {

  datatype Store<T> = Store(items: map<int, T>, nextId: int)

  /** The store's invariant: every stored id was handed out earlier. */
  ghost predicate Valid<T>(s: Store<T>) {
    s.nextId >= 1 && forall k :: k in s.items ==> 1 <= k < s.nextId
  }

  /** Every entry sits under its own id. */
  ghost predicate Keyed<T>(s: Store<T>, idOf: T -> int) {
    forall k :: k in s.items ==> idOf(s.items[k]) == k
  }

  /** A fresh store: nothing stored, the counter at 1. */
  function Empty<T>(): (s: Store<T>)
    ensures Valid(s) && s.items == map[] && s.nextId == 1
  {
    Store(map[], 1)
  }

  /** `put(idCounter++, v)`: stores under the counter and advances it. The
      id taken is not in use, and no stored entry changes. */
  function Add<T>(s: Store<T>, v: T): (r: Store<T>)
    ensures Valid(s) ==> Valid(r) && s.nextId !in s.items
    ensures r.items.Keys == s.items.Keys + {s.nextId}
    ensures r.items[s.nextId] == v
    ensures forall k :: k in s.items && k != s.nextId ==> r.items[k] == s.items[k]
    ensures r.nextId == s.nextId + 1
  {
    Store(s.items[s.nextId := v], s.nextId + 1)
  }

  /** `put(k, v)` without touching the counter. */
  function Put<T>(s: Store<T>, k: int, v: T): (r: Store<T>)
    ensures Valid(s) && k in s.items ==> Valid(r)
    ensures r.items.Keys == s.items.Keys + {k}
    ensures r.items[k] == v
    ensures forall j :: j in s.items && j != k ==> r.items[j] == s.items[j]
    ensures r.nextId == s.nextId
  {
    Store(s.items[k := v], s.nextId)
  }

  /** `remove(k)`: a no-op on an absent key; the counter is kept, so the id is
      never handed out again. */
  function Remove<T>(s: Store<T>, k: int): (r: Store<T>)
    ensures Valid(s) ==> Valid(r)
    ensures r.items.Keys == s.items.Keys - {k}
    ensures forall j :: j in r.items ==> r.items[j] == s.items[j]
    ensures r.nextId == s.nextId
  {
    Store(s.items - {k}, s.nextId)
  }

  /** The entities of a map, as a set. */
  function ValuesOf<T>(m: map<int, T>): (r: set<T>)
    ensures forall k :: k in m ==> m[k] in r
    ensures forall v :: v in r ==> exists k :: k in m && m[k] == v
  {
    set k | k in m :: m[k]
  }

  /** `new ArrayList<>(map.values())`, as the set of stored entities. */
  function Values<T>(s: Store<T>): (r: set<T>)
    ensures forall k :: k in s.items ==> s.items[k] in r
    ensures forall v :: v in r ==> exists k :: k in s.items && s.items[k] == v
  {
    ValuesOf(s.items)
  }

  /** When every entry sits under its own id, each listed entity is the one
      stored under its id: the listing invents nothing. */
  lemma ValuesAreStored<T>(s: Store<T>, idOf: T -> int)
    requires Keyed(s, idOf)
    ensures forall v :: v in Values(s) ==> idOf(v) in s.items && s.items[idOf(v)] == v
  {
  }

  /** When every entry sits under its own id, no two entries are equal, so
      the listing holds exactly as many entities as the map. */
  lemma ValuesCount<T>(s: Store<T>, idOf: T -> int)
    requires Valid(s) && Keyed(s, idOf)
    ensures |Values(s)| == |s.items|
  {
    KeyedValuesCount(s.items, idOf, s.nextId);
  }

  /** The same, for a map whose keys lie in 0 .. n - 1, by induction on n. */
  lemma {:induction false} KeyedValuesCount<T>(m: map<int, T>, idOf: T -> int, n: nat)
    requires forall k :: k in m ==> 0 <= k < n && idOf(m[k]) == k
    ensures |ValuesOf(m)| == |m|
    decreases n
  {
    if n == 0 {
      NothingListed(m);
    } else if n - 1 in m {
      var p := m - {n - 1};
      KeyedBelow(m, p, idOf, n);
      KeyedValuesCount(p, idOf, n - 1);
      ValuesOfWithout(m, n - 1, idOf);
    } else {
      KeyedValuesCount(m, idOf, n - 1);
    }
  }

  /** Taking out the key n - 1 leaves keys below n - 1, each entry still
      under its own id. */
  lemma KeyedBelow<T>(m: map<int, T>, p: map<int, T>, idOf: T -> int, n: int)
    requires forall k :: k in m ==> 0 <= k < n && idOf(m[k]) == k
    requires p == m - {n - 1}
    ensures forall k :: k in p ==> 0 <= k < n - 1 && idOf(p[k]) == k
  {
  }

  /** A map without keys lists nothing. */
  lemma NothingListed<T>(m: map<int, T>)
    requires forall k :: k !in m
    ensures |ValuesOf(m)| == |m| == 0
  {
    assert forall k :: k in m.Keys ==> false;
    assert m.Keys == {};
    assert ValuesOf(m) == {};
  }

  /** Taking out an entry whose entity no other entry holds shrinks both the
      map and its listing by one. */
  lemma ValuesOfWithout<T>(m: map<int, T>, k: int, idOf: T -> int)
    requires k in m
    requires forall j :: j in m ==> idOf(m[j]) == j
    ensures |ValuesOf(m)| == |ValuesOf(m - {k})| + 1
    ensures |m| == |m - {k}| + 1
  {
    var p := m - {k};
    forall x | x in ValuesOf(m) ensures x in ValuesOf(p) + {m[k]} {
      var j :| j in m && m[j] == x;
      if j != k { assert p[j] == x; }
    }
    forall x | x in ValuesOf(p) ensures x in ValuesOf(m) {
      var j :| j in p && p[j] == x;
      assert m[j] == x;
    }
    assert ValuesOf(m) == ValuesOf(p) + {m[k]};
  }

  /** The ids lo, lo + 1, ..., lo + n - 1. */
  function IdRange(lo: int, n: nat): (r: set<int>)
    ensures forall i :: i in r <==> lo <= i < lo + n
    decreases n
  {
    if n == 0 then {} else {lo} + IdRange(lo + 1, n - 1)
  }

  /** Successive adds, as a caller issuing one create after another. */
  function AddAll<T>(s: Store<T>, vs: seq<T>): Store<T>
    decreases |vs|
  {
    if |vs| == 0 then s else AddAll(Add(s, vs[0]), vs[1..])
  }

  /** Successive adds take the ids nextId, nextId + 1, ... in order: from a
      fresh store the ids are 1, 2, 3, ...; the i-th value is stored under
      the i-th id. */
  lemma {:induction false} AddAllIds<T>(s: Store<T>, vs: seq<T>)
    ensures AddAll(s, vs).nextId == s.nextId + |vs|
    ensures AddAll(s, vs).items.Keys == s.items.Keys + IdRange(s.nextId, |vs|)
    ensures forall i :: 0 <= i < |vs| ==> AddAll(s, vs).items[s.nextId + i] == vs[i]
    decreases |vs|
  {
    if |vs| > 0 {
      var s1 := Add(s, vs[0]);
      AddAllIds(s1, vs[1..]);
      assert AddAll(s, vs) == AddAll(s1, vs[1..]);
      assert IdRange(s.nextId, |vs|) == {s.nextId} + IdRange(s1.nextId, |vs[1..]|);
    }
    forall i | 0 <= i < |vs|
      ensures AddAll(s, vs).items[s.nextId + i] == vs[i]
    {
      AddAllValue(s, vs, i);
    }
  }

  /** The i-th of successive adds lands under nextId + i and stays there. */
  lemma {:induction false} AddAllValue<T>(s: Store<T>, vs: seq<T>, i: int)
    requires 0 <= i < |vs|
    ensures s.nextId + i in AddAll(s, vs).items
    ensures AddAll(s, vs).items[s.nextId + i] == vs[i]
    decreases |vs|
  {
    var s1 := Add(s, vs[0]);
    assert AddAll(s, vs) == AddAll(s1, vs[1..]);
    if i == 0 {
      AddAllKeeps(s1, vs[1..], s.nextId);
    } else {
      AddAllValue(s1, vs[1..], i - 1);
      assert vs[1..][i - 1] == vs[i];
    }
  }

  /** Later adds leave an id below the counter alone. */
  lemma {:induction false} AddAllKeeps<T>(s: Store<T>, vs: seq<T>, k: int)
    requires k in s.items && k < s.nextId
    ensures k in AddAll(s, vs).items && AddAll(s, vs).items[k] == s.items[k]
    decreases |vs|
  {
    if |vs| > 0 {
      AddAllKeeps(Add(s, vs[0]), vs[1..], k);
    }
  }

  /** A removed id never comes back, however many adds follow. */
  lemma RemovedIdNeverReused<T>(s: Store<T>, k: int, vs: seq<T>)
    requires Valid(s) && k in s.items
    ensures k !in AddAll(Remove(s, k), vs).items
  {
    AddAllIds(Remove(s, k), vs);
  }
}
