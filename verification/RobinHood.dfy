/** What makes a Robin Hood table correct, on the sequence of its slots.

    `Table` is the representation invariant; the lemmas say why an early exit from a probe is exact and
    why the steps of insertion (place, displace) and of deletion (shift back, clear) keep it. */
module RobinHood {
  import opened Common

  type uint32 = x: int | 0 <= x < 0x1_0000_0000

  datatype Entry<K, V> = Empty | Used(key: K, value: V, hash: uint32, distance: nat)

  // ----- cyclic slot arithmetic -----

  function Home(hash: uint32, n: nat): (r: nat)
    requires n > 0
    ensures r < n
  {
    hash % n
  }

  function Next(i: nat, n: nat): (r: nat)
    requires i < n
    ensures r < n
  {
    if i + 1 == n then 0 else i + 1
  }

  function Prev(i: nat, n: nat): (r: nat)
    requires i < n
    ensures r < n
  {
    if i == 0 then n - 1 else i - 1
  }

  // How far slot i lies after slot `from`.
  function Dist(from: nat, i: nat, n: nat): (d: nat)
    requires from < n && i < n
    ensures d < n
  {
    if from <= i then i - from else i + n - from
  }

  // ----- the representation invariant -----

  ghost predicate Placed<K, V>(t: seq<Entry<K, V>>, h: K -> uint32, i: nat)
    requires i < |t|
  {
    t[i].Used? ==> t[i].hash == h(t[i].key) && t[i].distance == Dist(Home(t[i].hash, |t|), i, |t|)
  }

  // An entry away from home has a neighbour before it that is at most one step less far away.
  ghost predicate Ordered<K, V>(t: seq<Entry<K, V>>, i: nat)
    requires i < |t|
  {
    t[i].Used? && t[i].distance > 0 ==>
      t[Prev(i, |t|)].Used? && t[i].distance <= t[Prev(i, |t|)].distance + 1
  }

  ghost predicate SameKey<K, V>(t: seq<Entry<K, V>>, i: nat, k: K)
    requires i < |t|
  {
    t[i].Used? && t[i].key == k
  }

  ghost predicate Absent<K, V>(t: seq<Entry<K, V>>, k: K) {
    forall i: nat :: i < |t| ==> !SameKey(t, i, k)
  }

  ghost predicate Table<K, V>(t: seq<Entry<K, V>>, h: K -> uint32) {
    && |t| > 0
    && (forall i: nat :: i < |t| ==> Placed(t, h, i))
    && (forall i: nat :: i < |t| ==> Ordered(t, i))
    && (forall i: nat, j: nat :: i < |t| && j < |t| && t[i].Used? && SameKey(t, j, t[i].key) ==> i == j)
  }

  // The table represents the finite map m.
  ghost predicate Holds<K, V>(t: seq<Entry<K, V>>, m: map<K, V>) {
    && (forall i: nat :: i < |t| && t[i].Used? ==> t[i].key in m && m[t[i].key] == t[i].value)
    && (forall k :: k in m ==> !Absent(t, k))
  }

  // ----- lookup: early exits are exact -----

  // Walking back from an entry at distance d, the entry e slots before is there and at distance d - e or more.
  lemma {:induction false} BackChain<K, V>(t: seq<Entry<K, V>>, h: K -> uint32, i: nat, j: nat)
    requires Table(t, h) && i < |t| && t[i].Used? && j < |t| && Dist(j, i, |t|) <= t[i].distance
    ensures t[j].Used? && t[j].distance >= t[i].distance - Dist(j, i, |t|)
    decreases Dist(j, i, |t|)
  {
    if j != i {
      var p := Prev(i, |t|);
      assert Ordered(t, i);
      assert Dist(j, p, |t|) == Dist(j, i, |t|) - 1;
      BackChain(t, h, p, j);
    }
  }

  // A probe that has passed the slots from home up to idx, and finds idx empty or held by an entry nearer
  // to its own home, has proved the key absent.
  lemma EarlyExit<K, V>(t: seq<Entry<K, V>>, h: K -> uint32, k: K, idx: nat)
    requires Table(t, h) && idx < |t|
    requires var home := Home(h(k), |t|);
      && (forall j: nat :: j < |t| && Dist(home, j, |t|) < Dist(home, idx, |t|) ==> !SameKey(t, j, k))
      && (t[idx].Empty? || t[idx].distance < Dist(home, idx, |t|))
    ensures Absent(t, k)
  {
    var home := Home(h(k), |t|);
    forall i: nat | i < |t| ensures !SameKey(t, i, k) {
      if SameKey(t, i, k) {
        assert Placed(t, h, i);
        assert Dist(idx, i, |t|) == Dist(home, i, |t|) - Dist(home, idx, |t|);
        BackChain(t, h, i, idx);
        assert false;
      }
    }
  }

  // A table with fewer keys than slots has an empty slot: this is what ends every probe loop.
  lemma SomeEmpty<K, V>(t: seq<Entry<K, V>>, h: K -> uint32, m: map<K, V>)
    requires Table(t, h) && Holds(t, m) && |m| < |t|
    ensures exists e: nat :: e < |t| && t[e].Empty?
  {
    if forall e: nat :: e < |t| ==> t[e].Used? {
      KeysOfPrefix(t, h, m, |t|);
      assert false;
    }
  }

  lemma {:induction false} KeysOfPrefix<K, V>(t: seq<Entry<K, V>>, h: K -> uint32, m: map<K, V>, n: nat)
    requires Table(t, h) && Holds(t, m) && n <= |t| && forall i: nat :: i < n ==> t[i].Used?
    ensures n <= |m|
  {
    var keys := set i: nat | i < n :: t[i].key;
    PrefixCard(t, h, n);
    assert keys <= m.Keys;
    SubsetSize(keys, m.Keys);
  }

  lemma {:induction false} PrefixCard<K, V>(t: seq<Entry<K, V>>, h: K -> uint32, n: nat)
    requires Table(t, h) && n <= |t| && forall i: nat :: i < n ==> t[i].Used?
    ensures |set i: nat | i < n :: t[i].key| == n
  {
    if n > 0 {
      PrefixCard(t, h, n - 1);
      var before := set i: nat | i < n - 1 :: t[i].key;
      assert (set i: nat | i < n :: t[i].key) == before + {t[n - 1].key};
      if t[n - 1].key in before {
        var i: nat :| i < n - 1 && t[i].key == t[n - 1].key;
        assert SameKey(t, i, t[n - 1].key);
      }
    }
  }

  // Nor more keys than slots.
  lemma {:induction false} AtMostSlots<K, V>(t: seq<Entry<K, V>>, h: K -> uint32, m: map<K, V>)
    requires Table(t, h) && Holds(t, m)
    ensures |m| <= |t|
  {
    KeysAmong(t, m.Keys, |t|);
  }

  lemma {:induction false} KeysAmong<K, V>(t: seq<Entry<K, V>>, ks: set<K>, n: nat)
    requires n <= |t| && forall k :: k in ks ==> exists i: nat :: i < n && SameKey(t, i, k)
    ensures |ks| <= n
  {
    if n == 0 {
      assert ks == {};
    } else {
      var rest := if t[n - 1].Used? then ks - {t[n - 1].key} else ks;
      forall k | k in rest ensures exists i: nat :: i < n - 1 && SameKey(t, i, k) {
        var i: nat :| i < n && SameKey(t, i, k);
        assert i < n - 1;
      }
      KeysAmong(t, rest, n - 1);
    }
  }

  // A slot where backward shifting ends: empty, or with an entry at home.
  predicate IsAnchor<K, V>(t: seq<Entry<K, V>>, i: nat)
    requires i < |t|
  {
    t[i].Empty? || t[i].distance == 0
  }

  ghost predicate Anchored<K, V>(t: seq<Entry<K, V>>) {
    exists i: nat :: i < |t| && IsAnchor(t, i)
  }

  // Putting an entry anywhere into a table with an empty slot e leaves an anchor: e, or the slot after it.
  lemma AnchorStays<K, V>(t: seq<Entry<K, V>>, h: K -> uint32, e: nat, idx: nat, c: Entry<K, V>)
    requires Table(t, h) && |t| > 1 && e < |t| && t[e].Empty? && idx < |t|
    ensures Anchored(t[idx := c])
  {
    assert Ordered(t, Next(e, |t|));
    assert IsAnchor(t[idx := c], if idx == e then Next(e, |t|) else e);
  }

  // ----- insertion -----

  // An entry c on its way at slot idx may be put there: its distance fits and its neighbour allows it.
  ghost predicate Fits<K, V>(t: seq<Entry<K, V>>, h: K -> uint32, c: Entry<K, V>, idx: nat) {
    && idx < |t| && c.Used? && c.hash == h(c.key)
    && c.distance == Dist(Home(c.hash, |t|), idx, |t|)
    && (c.distance > 0 ==> t[Prev(idx, |t|)].Used? && c.distance <= t[Prev(idx, |t|)].distance + 1)
  }

  // Placing c into an empty slot, or over an entry nearer to its home, keeps the invariant.
  lemma PutKeepsTable<K, V>(t: seq<Entry<K, V>>, h: K -> uint32, c: Entry<K, V>, idx: nat)
    requires Table(t, h) && Fits(t, h, c, idx) && Absent(t, c.key) && |t| > 1
    requires t[idx].Empty? || t[idx].distance < c.distance
    ensures Table(t[idx := c], h)
    ensures t[idx].Used? ==> Absent(t[idx := c], t[idx].key)
  {
    var t' := t[idx := c];
    var n := |t|;
    forall i: nat | i < n ensures Placed(t', h, i) { assert Placed(t, h, i); }
    forall i: nat | i < n ensures Ordered(t', i) { assert Ordered(t, i); }
    forall i: nat, j: nat | i < n && j < n && t'[i].Used? && SameKey(t', j, t'[i].key) ensures i == j {
      assert !SameKey(t, i, c.key) && !SameKey(t, j, c.key);
      if i != idx && j != idx { assert SameKey(t, j, t[i].key); }
    }
    if t[idx].Used? {
      forall j: nat | j < n ensures !SameKey(t', j, t[idx].key) {
        if j == idx { assert !SameKey(t, idx, c.key); } else { assert SameKey(t, j, t[idx].key) ==> j == idx; }
      }
    }
  }

  // After passing or displacing the entry at idx, what is carried fits the next slot's neighbour condition.
  lemma AdvanceFits<K, V>(t: seq<Entry<K, V>>, h: K -> uint32, c: Entry<K, V>, idx: nat)
    requires |t| > 1 && idx < |t| && t[idx].Used?
    requires c.Used? && c.hash == h(c.key) && c.distance == Dist(Home(c.hash, |t|), idx, |t|)
    requires c.distance <= t[idx].distance && c.distance + 1 < |t|
    ensures Fits(t, h, c.(distance := c.distance + 1), Next(idx, |t|))
  {
  }

  // What is carried never comes back round to its home while some slot e is empty.
  lemma DistanceBound<K, V>(t: seq<Entry<K, V>>, h: K -> uint32, c: Entry<K, V>, idx: nat, e: nat)
    requires Table(t, h) && Fits(t, h, c, idx) && t[idx].Used? && e < |t| && t[e].Empty?
    ensures c.distance + 1 < |t|
  {
    if c.distance + 1 == |t| {
      BackChain(t, h, Prev(idx, |t|), e);
      assert false;
    }
  }

  // The table together with the carried entry represents m.
  ghost predicate Carrying<K, V>(t: seq<Entry<K, V>>, c: Entry<K, V>, m: map<K, V>) {
    && (forall i: nat :: i < |t| && t[i].Used? ==> t[i].key in m && m[t[i].key] == t[i].value)
    && c.Used? && c.key in m && m[c.key] == c.value
    && (forall k :: k in m ==> k == c.key || !Absent(t, k))
  }

  lemma PutKeepsMap<K, V>(t: seq<Entry<K, V>>, c: Entry<K, V>, m: map<K, V>, idx: nat)
    requires Carrying(t, c, m) && idx < |t|
    ensures t[idx].Empty? ==> Holds(t[idx := c], m)
    ensures t[idx].Used? ==> Carrying(t[idx := c], t[idx], m)
  {
    var t' := t[idx := c];
    forall k | k in m ensures (t[idx].Used? && k == t[idx].key) || !Absent(t', k) {
      if k == c.key {
        assert SameKey(t', idx, k);
      } else {
        var i: nat :| i < |t| && SameKey(t, i, k);
        assert i != idx ==> SameKey(t', i, k);
      }
    }
  }

  // Overwriting the value of a key that is there.
  lemma UpdateValue<K, V>(t: seq<Entry<K, V>>, h: K -> uint32, m: map<K, V>, idx: nat, v: V)
    requires Table(t, h) && Holds(t, m) && idx < |t| && t[idx].Used?
    ensures Table(t[idx := t[idx].(value := v)], h)
    ensures Holds(t[idx := t[idx].(value := v)], m[t[idx].key := v])
  {
    var t' := t[idx := t[idx].(value := v)];
    forall i: nat, k | i < |t| ensures SameKey(t', i, k) <==> SameKey(t, i, k) { }
    forall i: nat | i < |t| ensures Placed(t', h, i) && Ordered(t', i) { assert Placed(t, h, i) && Ordered(t, i); }
    forall i: nat | i < |t| && t'[i].Used? ensures t'[i].key in m && m[t[idx].key := v][t'[i].key] == t'[i].value {
      assert SameKey(t, idx, t[i].key) ==> i == idx;
    }
    forall k | k in m[t[idx].key := v] ensures !Absent(t', k) {
      if k == t[idx].key { assert SameKey(t', idx, k); } else {
        var i: nat :| i < |t| && SameKey(t, i, k);
        assert SameKey(t', i, k);
      }
    }
  }

  // ----- deletion by backward shift -----

  // The table with slot `hole` to be ignored: it last held an entry at distance d.
  ghost predicate Holed<K, V>(t: seq<Entry<K, V>>, h: K -> uint32, hole: nat, d: nat) {
    && hole < |t|
    && (forall i: nat :: i < |t| && i != hole ==> Placed(t, h, i))
    && (forall i: nat :: i < |t| && i != hole && Prev(i, |t|) != hole ==> Ordered(t, i))
    && (forall i: nat, j: nat | i < |t| && j < |t| && i != hole && j != hole && t[i].Used? ::
          SameKey(t, j, t[i].key) ==> i == j)
    && (d > 0 ==> t[Prev(hole, |t|)].Used? && d <= t[Prev(hole, |t|)].distance + 1)
    && (t[Next(hole, |t|)].Used? ==> t[Next(hole, |t|)].distance <= d + 1)
  }

  ghost predicate HoledMap<K, V>(t: seq<Entry<K, V>>, hole: nat, m: map<K, V>) {
    && (forall i: nat :: i < |t| && i != hole && t[i].Used? ==> t[i].key in m && m[t[i].key] == t[i].value)
    && (forall k :: k in m ==> exists i: nat :: i < |t| && i != hole && SameKey(t, i, k))
  }

  // Taking an entry out opens a hole where it was.
  lemma OpenHole<K, V>(t: seq<Entry<K, V>>, h: K -> uint32, m: map<K, V>, hole: nat)
    requires Table(t, h) && Holds(t, m) && hole < |t| && |t| > 1 && t[hole].Used?
    ensures Holed(t, h, hole, t[hole].distance)
    ensures HoledMap(t, hole, m - {t[hole].key})
  {
    assert Ordered(t, hole) && Ordered(t, Next(hole, |t|));
    assert SameKey(t, hole, t[hole].key);
    forall i: nat | i < |t| && i != hole && t[i].Used? ensures t[i].key != t[hole].key {
      assert SameKey(t, i, t[hole].key) ==> i == hole;
    }
    forall k | k in m - {t[hole].key} ensures exists i: nat :: i < |t| && i != hole && SameKey(t, i, k) {
      var i: nat :| i < |t| && SameKey(t, i, k);
      assert i != hole;
    }
  }

  // Moving the next entry, which is away from home, one slot back moves the hole one slot on.
  lemma ShiftBack<K, V>(t: seq<Entry<K, V>>, h: K -> uint32, m: map<K, V>, hole: nat, d: nat)
    requires Holed(t, h, hole, d) && HoledMap(t, hole, m) && |t| > 2
    requires var next := Next(hole, |t|); t[next].Used? && t[next].distance > 0
    ensures var next := Next(hole, |t|);
      var t' := t[hole := t[next].(distance := t[next].distance - 1)];
      Holed(t', h, next, t[next].distance) && HoledMap(t', next, m)
  {
    var n, next := |t|, Next(hole, |t|);
    var t' := t[hole := t[next].(distance := t[next].distance - 1)];
    assert Placed(t, h, next);
    forall i: nat | i < n && i != next ensures Placed(t', h, i) { assert i != hole ==> Placed(t, h, i); }
    ShiftOrder(t, h, hole, d);
    ShiftKeys(t, h, m, hole, d);
  }

  lemma ShiftOrder<K, V>(t: seq<Entry<K, V>>, h: K -> uint32, hole: nat, d: nat)
    requires Holed(t, h, hole, d) && |t| > 2
    requires t[Next(hole, |t|)].Used? && t[Next(hole, |t|)].distance > 0
    ensures var next := Next(hole, |t|);
      var t' := t[hole := t[next].(distance := t[next].distance - 1)];
      && (forall i: nat :: i < |t| && i != next && Prev(i, |t|) != next ==> Ordered(t', i))
      && (t'[Next(next, |t|)].Used? ==> t'[Next(next, |t|)].distance <= t[next].distance + 1)
  {
    var n, next := |t|, Next(hole, |t|);
    var t' := t[hole := t[next].(distance := t[next].distance - 1)];
    assert Ordered(t, Next(next, n));
    forall i: nat | i < n && i != next && Prev(i, n) != next ensures Ordered(t', i) {
      assert i != hole ==> Ordered(t, i);
    }
  }

  // It moves the key with it, and no other.
  lemma ShiftKeys<K, V>(t: seq<Entry<K, V>>, h: K -> uint32, m: map<K, V>, hole: nat, d: nat)
    requires Holed(t, h, hole, d) && HoledMap(t, hole, m) && |t| > 2
    requires t[Next(hole, |t|)].Used? && t[Next(hole, |t|)].distance > 0
    ensures var next := Next(hole, |t|);
      var t' := t[hole := t[next].(distance := t[next].distance - 1)];
      && HoledMap(t', next, m)
      && forall i: nat, j: nat | i < |t| && j < |t| && i != next && j != next && t'[i].Used? ::
           SameKey(t', j, t'[i].key) ==> i == j
  {
    var n, next := |t|, Next(hole, |t|);
    var t' := t[hole := t[next].(distance := t[next].distance - 1)];
    forall i: nat, j: nat | i < n && j < n && i != next && j != next && t'[i].Used? && SameKey(t', j, t'[i].key)
      ensures i == j
    {
      var i0, j0 := if i == hole then next else i, if j == hole then next else j;
      assert SameKey(t, j0, t[i0].key);
    }
    forall k | k in m ensures exists i: nat :: i < n && i != next && SameKey(t', i, k) {
      var i: nat :| i < n && i != hole && SameKey(t, i, k);
      assert SameKey(t', if i == next then hole else i, k);
    }
  }

  // When the next slot is empty or at home the hole can simply be cleared.
  lemma CloseHole<K, V>(t: seq<Entry<K, V>>, h: K -> uint32, m: map<K, V>, hole: nat, d: nat)
    requires Holed(t, h, hole, d) && HoledMap(t, hole, m) && |t| > 1
    requires var next := Next(hole, |t|); t[next].Empty? || t[next].distance == 0
    ensures Table(t[hole := Empty], h) && Holds(t[hole := Empty], m)
  {
    var t' := t[hole := Empty];
    forall i: nat | i < |t| ensures Placed(t', h, i) { assert i != hole ==> Placed(t, h, i); }
    forall i: nat | i < |t| ensures Ordered(t', i) {
      if i != hole && Prev(i, |t|) != hole { assert Ordered(t, i); } else { assert i == hole || i == Next(hole, |t|); }
    }
    forall i: nat, j: nat | i < |t| && j < |t| && t'[i].Used? && SameKey(t', j, t'[i].key) ensures i == j {
      assert SameKey(t, j, t[i].key);
    }
    forall k | k in m ensures !Absent(t', k) {
      var i: nat :| i < |t| && i != hole && SameKey(t, i, k);
      assert SameKey(t', i, k);
    }
  }
}
