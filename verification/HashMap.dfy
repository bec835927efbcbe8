/** The string hash map: an open-addressing Robin Hood table that grows, refining a finite map.

    The hash is an arbitrary function of the key.  Whether the heap satisfies an allocation is up to the
    environment (the `growOk` and `copyOk` parameters).  Slots are numbered by 32-bit integers, so a table of more
    than 2^32 entries is used as one of 2^32: the rest of it is never touched and is not represented here. */
module HashMap {
  import opened Common
  import opened RobinHood
  import Bits

  // NoSlot: the key is new and every slot that can be addressed is taken.
  datatype Status = Ok | NoMemory | NoSlot

  const INITIAL_CAPACITY := 16
  const LOAD_PERCENT := 75
  const MAX_SLOTS := 0x1_0000_0000

  // The capacities that doubling leads to; beyond 2^33 the load limit is never reached.
  ghost predicate CapacityOk(capacity: nat) {
    Bits.IsPow2(capacity) && INITIAL_CAPACITY <= capacity <= 2 * MAX_SLOTS
  }

  // The slots of a table that an index can reach.
  function Reach(capacity: nat): nat { Min(capacity, MAX_SLOTS) }

  // The mask that is capacity - 1, in 32 bits.
  function Mask(capacity: nat): nat
    requires capacity > 0
  {
    (capacity - 1) % WORD32
  }

  lemma MaskSelects(x: nat, capacity: nat)
    requires CapacityOk(capacity)
    ensures Bits.And(x, Mask(capacity)) == x % Reach(capacity)
  {
    MaskOfReach(capacity);
    var k: nat :| Reach(capacity) == Bits.Pow2(k);
    Bits.MaskIsModulo(x, k);
  }

  lemma MaskOfReach(capacity: nat)
    requires CapacityOk(capacity)
    ensures Bits.IsPow2(Reach(capacity)) && Mask(capacity) == Reach(capacity) - 1
  {
    if capacity > MAX_SLOTS {
      BeyondReach(capacity);
      Bits.WordSizes();
      assert Bits.Pow2(32) == MAX_SLOTS;
    }
  }

  lemma BeyondReach(capacity: nat)
    requires CapacityOk(capacity) && capacity > MAX_SLOTS
    ensures capacity == 2 * MAX_SLOTS
  {
    Bits.WordSizes();
    var k: nat :| capacity == Bits.Pow2(k);
    if k <= 32 { Bits.Pow2Grows(k, 32); } else { Bits.Pow2Grows(33, k); }
  }

  // hash & (uint32_t)(capacity - 1)
  method Slot(hash: uint32, capacity: nat) returns (idx: nat)
    requires CapacityOk(capacity)
    ensures Reach(capacity) > 0 && idx == Home(hash, Reach(capacity))
  {
    MaskSelects(hash, capacity);
    idx := Bits.And(hash, Mask(capacity));
  }

  // (idx + 1) & (uint32_t)(capacity - 1)
  method Step(idx: nat, capacity: nat) returns (next: nat)
    requires CapacityOk(capacity) && idx < Reach(capacity)
    ensures next == Next(idx, Reach(capacity))
  {
    var x := if idx + 1 == WORD32 then 0 else idx + 1;  // uint32_t addition
    MaskSelects(x, capacity);
    SmallModulo(x, Reach(capacity));
    next := Bits.And(x, Mask(capacity));
  }

  lemma SmallModulo(x: nat, n: nat)
    requires 0 < n && x <= n
    ensures x % n == if x == n then 0 else x
  {
    if x == n { Bits.DivModUnique(x, n, 1, 0); } else { Bits.DivModUnique(x, n, 0, x); }
  }

  // What holds at the head of the insertion loop.  c is carried to slot idx, slot e is empty or already has the key,
  // and `at` is where the key itself was put, or |t| while it is still the one carried and nothing is written yet.
  ghost predicate Inserting<K, V>(t0: seq<Entry<K, V>>, t: seq<Entry<K, V>>, h: K -> uint32, m: map<K, V>,
                                  key: K, value: V, c: Entry<K, V>, idx: nat, e: nat, at: nat) {
    && |t| == |t0| > 1 && idx < |t| && e < |t| && at <= |t| && (t[e].Empty? || (at == |t| && SameKey(t, e, key)))
    && Table(t, h) && Fits(t, h, c, idx)
    && var n, home := |t|, Home(h(key), |t|);
       if at == n then
         && t == t0 && c.key == key && c.value == value
         && forall j: nat :: j < n && Dist(home, j, n) < Dist(home, idx, n) ==> !SameKey(t, j, key)
       else
         && key !in m && SameKey(t, at, key) && Dist(idx, e, n) < Dist(at, e, n)
         && Absent(t, c.key) && Carrying(t, c, m[key := value])
  }

  // Where insertion first writes: the key has been proved absent.
  lemma KeyIsNew<K, V>(t0: seq<Entry<K, V>>, t: seq<Entry<K, V>>, h: K -> uint32, m: map<K, V>,
                       key: K, value: V, c: Entry<K, V>, idx: nat, e: nat, at: nat)
    requires Holds(t0, m) && Inserting(t0, t, h, m, key, value, c, idx, e, at)
    requires t[idx].Empty? || t[idx].distance < c.distance
    ensures Absent(t, c.key) && key !in m && Carrying(t, c, m[key := value])
  {
    if at == |t| {
      EarlyExit(t, h, key, idx);
      forall i: nat | i < |t| && t[i].Used? ensures t[i].key != key { assert !SameKey(t, i, key); }
    }
  }

  lemma PlaceEntry<K, V>(t0: seq<Entry<K, V>>, t: seq<Entry<K, V>>, h: K -> uint32, m: map<K, V>,
                         key: K, value: V, c: Entry<K, V>, idx: nat, e: nat, at: nat)
    requires Holds(t0, m) && Inserting(t0, t, h, m, key, value, c, idx, e, at) && t[idx].Empty?
    ensures Table(t[idx := c], h) && Holds(t[idx := c], m[key := value]) && key !in m && Anchored(t[idx := c])
  {
    KeyIsNew(t0, t, h, m, key, value, c, idx, e, at);
    PutKeepsTable(t, h, c, idx);
    PutKeepsMap(t, c, m[key := value], idx);
    assert t[e].Empty?;
    AnchorStays(t, h, e, idx, c);
  }

  lemma ReplaceValue<K, V>(t0: seq<Entry<K, V>>, t: seq<Entry<K, V>>, h: K -> uint32, m: map<K, V>,
                           key: K, value: V, c: Entry<K, V>, idx: nat, e: nat, at: nat)
    requires Holds(t0, m) && Inserting(t0, t, h, m, key, value, c, idx, e, at) && SameKey(t, idx, key) && Anchored(t0)
    ensures key in m
    ensures var t' := t[idx := t[idx].(value := value)]; Table(t', h) && Holds(t', m[key := value]) && Anchored(t')
  {
    assert at == |t|;
    UpdateValue(t, h, m, idx, value);
    var i: nat :| i < |t| && IsAnchor(t, i);
    assert IsAnchor(t[idx := t[idx].(value := value)], i);
  }

  lemma PassEntry<K, V>(t0: seq<Entry<K, V>>, t: seq<Entry<K, V>>, h: K -> uint32, m: map<K, V>,
                        key: K, value: V, c: Entry<K, V>, idx: nat, e: nat, at: nat)
    requires Inserting(t0, t, h, m, key, value, c, idx, e, at)
    requires t[idx].Used? && c.distance <= t[idx].distance && !SameKey(t, idx, key)
    ensures Inserting(t0, t, h, m, key, value, c.(distance := c.distance + 1), Next(idx, |t|), e, at)
    ensures Dist(Next(idx, |t|), e, |t|) < Dist(idx, e, |t|)
  {
    if t[e].Empty? {
      DistanceBound(t, h, c, idx, e);
    } else {
      assert Placed(t, h, e) && idx != e;
    }
    AdvanceFits(t, h, c, idx);
  }

  lemma DisplaceEntry<K, V>(t0: seq<Entry<K, V>>, t: seq<Entry<K, V>>, h: K -> uint32, m: map<K, V>,
                            key: K, value: V, c: Entry<K, V>, idx: nat, e: nat, at: nat)
    requires Holds(t0, m) && Inserting(t0, t, h, m, key, value, c, idx, e, at)
    requires t[idx].Used? && t[idx].distance < c.distance && !SameKey(t, idx, key)
    ensures Inserting(t0, t[idx := c], h, m, key, value, t[idx].(distance := t[idx].distance + 1), Next(idx, |t|), e,
                      if at == |t| then idx else at)
    ensures Dist(Next(idx, |t|), e, |t|) < Dist(idx, e, |t|)
  {
    var t', tmp := t[idx := c], t[idx];
    KeyIsNew(t0, t, h, m, key, value, c, idx, e, at);
    PutKeepsTable(t, h, c, idx);
    PutKeepsMap(t, c, m[key := value], idx);
    assert t[e].Empty?;
    DistanceBound(t, h, c, idx, e);
    assert Placed(t, h, idx);
    AdvanceFits(t', h, tmp, idx);
    assert SameKey(t', if at == |t| then idx else at, key);
    assert Absent(t', tmp.key) && Carrying(t', tmp, m[key := value]);
    var moved := tmp.(distance := tmp.distance + 1);
    assert forall i: nat :: i < |t| ==> (SameKey(t', i, tmp.key) <==> SameKey(t', i, moved.key));
  }

  // Where insertion of a key ends at the latest.
  lemma SomeEnd<K, V>(t: seq<Entry<K, V>>, h: K -> uint32, m: map<K, V>, key: K) returns (e: nat)
    requires Table(t, h) && Holds(t, m) && (key in m || |m| < |t|)
    ensures e < |t| && (t[e].Empty? || SameKey(t, e, key))
  {
    if key in m {
      e :| e < |t| && SameKey(t, e, key);
    } else {
      SomeEmpty(t, h, m);
      e :| e < |t| && t[e].Empty?;
    }
  }

  // Robin Hood insertion; false means an existing key's value was replaced.
  method InsertEntry<K(==), V>(entries: array<Entry<K, V>>, capacity: nat, key: K, value: V, hash: uint32,
                               ghost h: K -> uint32, ghost m: map<K, V>)
    returns (inserted: bool)
    requires CapacityOk(capacity) && entries.Length == Reach(capacity) && Anchored(entries[..])
    requires Table(entries[..], h) && Holds(entries[..], m) && (key in m || |m| < entries.Length) && hash == h(key)
    modifies entries
    ensures Table(entries[..], h) && Holds(entries[..], m[key := value]) && Anchored(entries[..])
    ensures inserted <==> key !in m
  {
    ghost var n: nat := entries.Length;
    ghost var e := SomeEnd(entries[..], h, m, key);
    ghost var at: nat := n;
    var idx: nat := Slot(hash, capacity);
    var incoming := Used(key, value, hash, 0);
    while true
      invariant idx < n
      invariant Inserting(old(entries[..]), entries[..], h, m, key, value, incoming, idx, e, at)
      decreases Dist(idx, e, n)
    {
      ghost var t := entries[..];
      if entries[idx].Empty? {
        PlaceEntry(old(entries[..]), t, h, m, key, value, incoming, idx, e, at);
        entries[idx] := incoming;
        assert entries[..] == t[idx := incoming];
        return true;
      }
      if entries[idx].hash == hash && entries[idx].key == key {
        ReplaceValue(old(entries[..]), t, h, m, key, value, incoming, idx, e, at);
        entries[idx] := entries[idx].(value := value);
        assert entries[..] == t[idx := t[idx].(value := value)];
        return false;
      }
      assert !SameKey(t, idx, key) by { assert Placed(t, h, idx); }
      if incoming.distance > entries[idx].distance {
        DisplaceEntry(old(entries[..]), t, h, m, key, value, incoming, idx, e, at);
        var tmp := entries[idx];
        entries[idx] := incoming;
        assert entries[..] == t[idx := incoming];
        incoming := tmp;
        if at == n { at := idx; }
      } else {
        PassEntry(old(entries[..]), t, h, m, key, value, incoming, idx, e, at);
      }
      incoming := incoming.(distance := incoming.distance + 1);
      idx := Step(idx, capacity);
    }
  }

  // What holds at the head of the shift loop: slot `hole` is to be ignored, and the loop ends at slot e at the latest.
  // If e is the hole itself, the next entry is at most one slot away from home, so that e will end the loop next time.
  ghost predicate Deleting<K, V>(t: seq<Entry<K, V>>, h: K -> uint32, rest: map<K, V>, hole: nat, d: nat, e: nat) {
    && |t| > 2 && hole < |t| && e < |t| && (if hole == e then d == 0 else IsAnchor(t, e))
    && Holed(t, h, hole, d) && HoledMap(t, hole, rest)
  }

  lemma ShiftEntry<K, V>(t: seq<Entry<K, V>>, h: K -> uint32, rest: map<K, V>, hole: nat, d: nat, e: nat)
    requires Deleting(t, h, rest, hole, d, e)
    requires var next := Next(hole, |t|); t[next].Used? && t[next].distance > 0
    ensures var next := Next(hole, |t|);
      && Deleting(t[hole := t[next].(distance := t[next].distance - 1)], h, rest, next, t[next].distance, e)
      && Dist(Next(next, |t|), e, |t|) < Dist(next, e, |t|)
  {
    ShiftBack(t, h, rest, hole, d);
  }

  // Moves the entry behind the hole one slot back.
  method ShiftOne<K(==), V>(entries: array<Entry<K, V>>, empty: nat, next: nat, ghost h: K -> uint32,
                            ghost rest: map<K, V>, ghost d: nat, ghost e: nat)
    requires empty < entries.Length && next == Next(empty, entries.Length)
    requires entries[next].Used? && entries[next].distance > 0 && Deleting(entries[..], h, rest, empty, d, e)
    modifies entries
    ensures Deleting(entries[..], h, rest, next, old(entries[next]).distance, e)
    ensures Dist(Next(next, entries.Length), e, entries.Length) < Dist(next, e, entries.Length)
  {
    ghost var t := entries[..];
    ShiftEntry(t, h, rest, empty, d, e);
    entries[empty] := entries[next].(distance := entries[next].distance - 1);
    assert entries[..] == t[empty := t[next].(distance := t[next].distance - 1)];
  }

  // Moves entries that are away from home one slot back until one is at home or missing.
  method ShiftLoop<K(==), V>(entries: array<Entry<K, V>>, capacity: nat, idx: nat, ghost h: K -> uint32,
                             ghost rest: map<K, V>, ghost d0: nat, ghost e: nat)
    returns (empty: nat, ghost d: nat)
    requires CapacityOk(capacity) && entries.Length == Reach(capacity)
    requires Deleting(entries[..], h, rest, idx, d0, e)
    modifies entries
    ensures Deleting(entries[..], h, rest, empty, d, e)
    ensures var next := entries[Next(empty, entries.Length)]; next.Empty? || next.distance == 0
  {
    ghost var n := entries.Length;
    empty, d := idx, d0;
    var next: nat := Step(idx, capacity);
    while entries[next].Used? && entries[next].distance > 0
      invariant empty < n && next == Next(empty, n)
      invariant Deleting(entries[..], h, rest, empty, d, e)
      decreases Dist(next, e, n)
    {
      ghost var d' := entries[next].distance;
      ShiftOne(entries, empty, next, h, rest, d, e);
      empty, d := next, d';
      next := Step(next, capacity);
    }
  }

  // Backward-shift deletion of the entry in slot idx.
  method DeleteAt<K(==), V>(entries: array<Entry<K, V>>, capacity: nat, idx: nat, ghost h: K -> uint32,
                            ghost m: map<K, V>)
    requires CapacityOk(capacity) && entries.Length == Reach(capacity) && Anchored(entries[..])
    requires Table(entries[..], h) && Holds(entries[..], m)
    requires idx < entries.Length && entries[idx].Used?
    modifies entries
    ensures Table(entries[..], h) && Holds(entries[..], m - {old(entries[idx].key)}) && Anchored(entries[..])
  {
    ghost var t, rest := entries[..], m - {entries[idx].key};
    ghost var e: nat :| e < |t| && IsAnchor(t, e);
    OpenHole(t, h, m, idx);
    var empty, d := ShiftLoop(entries, capacity, idx, h, rest, t[idx].distance, e);
    t := entries[..];
    CloseHole(t, h, rest, empty, d);
    entries[empty] := Empty;
    assert entries[..] == t[empty := Empty];
    assert IsAnchor(entries[..], empty);
  }

  // Re-inserts every entry of a table into a larger, initially empty one.
  method Rehash<K(==), V>(entries: array<Entry<K, V>>, newCap: nat, ghost h: K -> uint32, ghost m: map<K, V>)
    returns (bigger: array<Entry<K, V>>)
    requires CapacityOk(newCap) && |m| < Reach(newCap)
    requires entries.Length == 0 ==> m == map[]
    requires entries.Length > 0 ==> Table(entries[..], h) && Holds(entries[..], m)
    ensures fresh(bigger) && bigger.Length == Reach(newCap)
    ensures Table(bigger[..], h) && Holds(bigger[..], m) && Anchored(bigger[..])
  {
    bigger := new Entry<K, V>[Reach(newCap)](_ => Empty);
    ghost var g: map<K, V> := map[];
    ghost var t := entries[..];
    EmptyTable(bigger[..], h);
    for i := 0 to entries.Length
      invariant fresh(bigger) && bigger.Length == Reach(newCap) && entries[..] == t
      invariant Table(bigger[..], h) && Holds(bigger[..], g) && Anchored(bigger[..])
      invariant Gathered(t, g, i) && g.Keys <= m.Keys
    {
      if entries[i].Used? {
        var x := entries[i];
        assert x == t[i] && Placed(t, h, i);
        GatheredStep(t, h, m, g, i);
        SubsetSize(g.Keys, m.Keys);
        var inserted := InsertEntry(bigger, newCap, x.key, x.value, x.hash, h, g);
        g := g[x.key := x.value];
      }
    }
    GatheredAll(t, m, g);
  }

  // No slot ends a probe from `home`: all are taken, by entries that are as far from home as the probe or farther.
  ghost predicate NothingStops<K, V>(t: seq<Entry<K, V>>, home: nat) {
    forall j: nat :: j < |t| && home < |t| ==> t[j].Used? && Dist(home, j, |t|) <= t[j].distance
  }

  // A probe from `home` for a key has passed d slots.
  ghost predicate Passed<K, V>(t: seq<Entry<K, V>>, key: K, home: nat, d: nat) {
    forall j: nat :: j < |t| && home < |t| && Dist(home, j, |t|) < d ==>
      !SameKey(t, j, key) && t[j].Used? && Dist(home, j, |t|) <= t[j].distance
  }

  lemma PassOne<K, V>(t: seq<Entry<K, V>>, key: K, home: nat, idx: nat)
    requires home < |t| && idx < |t| && Passed(t, key, home, Dist(home, idx, |t|))
    requires t[idx].Used? && Dist(home, idx, |t|) <= t[idx].distance && !SameKey(t, idx, key)
    ensures Passed(t, key, home, Dist(home, idx, |t|) + 1)
  {
  }

  datatype Sought = Found | Missing | Endless

  class Map<K(==), V> {
    const hashOf: K -> uint32
    var capacity: nat
    var entries: array<Entry<K, V>>  // the slots within reach, none before the first insertion
    var count: nat
    ghost var contents: map<K, V>    // the finite map this table stands for

    ghost predicate Valid()
      reads this, entries
    {
      && count == |contents| && count * 100 <= capacity * LOAD_PERCENT
      && entries.Length == Reach(capacity)
      && (capacity > 0 ==>
            && CapacityOk(capacity) && Anchored(entries[..])
            && Table(entries[..], hashOf) && Holds(entries[..], contents))
    }

    constructor (hashOf: K -> uint32)
      ensures Valid() && fresh(entries) && contents == map[]
      ensures this.hashOf == hashOf
    {
      this.hashOf := hashOf;
      capacity, entries := 0, new Entry<K, V>[0];
      count := 0;
      contents := map[];
    }

    // The key is missing, and nothing tells the probe so.
    ghost predicate NeverEnds(key: K)
      reads this, entries
    {
      entries.Length > 0 && key !in contents && NothingStops(entries[..], Home(hashOf(key), entries.Length))
    }

    // The probe that get, contains and remove share.  With 2^32 keys, and only then, it may go round for ever: after
    // 2^32 steps its index and its 32-bit distance are what they were at the start.
    method Probe(key: K) returns (r: Sought, idx: nat)
      requires Valid() && capacity > 0
      ensures r == Found <==> key in contents
      ensures r == Found ==> idx < entries.Length && entries[idx].Used? && entries[idx].key == key
      ensures r == Endless <==> NeverEnds(key)
      ensures r == Endless ==> count == MAX_SLOTS
    {
      var n := entries.Length;
      var hash := hashOf(key);
      ghost var t, home := entries[..], Home(hash, n);
      idx := Slot(hash, capacity);
      var distance := 0;
      while distance < n
        invariant idx < n && distance <= n && (distance < n ==> distance == Dist(home, idx, n))
        invariant Passed(t, key, home, distance)
        decreases n - distance
      {
        if entries[idx].Empty? || distance > entries[idx].distance {
          EarlyExit(t, hashOf, key, idx);
          return Missing, idx;
        }
        if entries[idx].hash == hash && entries[idx].key == key {
          assert SameKey(t, idx, key);
          return Found, idx;
        }
        assert Placed(t, hashOf, idx);
        PassOne(t, key, home, idx);
        distance := distance + 1;
        idx := Step(idx, capacity);
      }
      GoneRound(t, hashOf, contents, home);
      CountFits(t, hashOf, contents, capacity);
      return Endless, idx;
    }

    method Get(key: K) returns (value: Option<V>, endless: bool)
      requires Valid()
      ensures value == if key in contents then Some(contents[key]) else None
      ensures (endless <==> NeverEnds(key)) && (endless ==> count == MAX_SLOTS)
    {
      if capacity == 0 { return None, false; }
      var r, idx := Probe(key);
      return if r == Found then Some(entries[idx].value) else None, r == Endless;
    }

    method Contains(key: K) returns (found: bool, endless: bool)
      requires Valid()
      ensures found <==> key in contents
      ensures (endless <==> NeverEnds(key)) && (endless ==> count == MAX_SLOTS)
    {
      if capacity == 0 { return false, false; }
      var r, idx := Probe(key);
      return r == Found, r == Endless;
    }

    // Doubles the table and re-inserts every entry.
    method Grow(growOk: bool) returns (ok: bool)
      requires Valid() && MustGrow()
      modifies this
      ensures Valid() && contents == old(contents) && count == old(count)
      ensures ok == growOk
      ensures ok ==> fresh(entries) && (count + 1) * 100 <= capacity * LOAD_PERCENT && count < entries.Length
      ensures ok ==> capacity == if old(capacity) > 0 then old(capacity) * 2 else INITIAL_CAPACITY
      ensures !ok ==> entries == old(entries) && capacity == old(capacity)
    {
      var newCap := if capacity > 0 then capacity * 2 else INITIAL_CAPACITY;
      if !growOk { return false; }
      CountFits(entries[..], hashOf, contents, capacity);
      DoubledIsPow2(capacity, newCap);
      var bigger := Rehash(entries, newCap, hashOf, contents);
      capacity, entries := newCap, bigger;
      return true;
    }

    predicate MustGrow()
      reads this
    {
      capacity == 0 || (count + 1) * 100 > capacity * LOAD_PERCENT
    }

    // A new key when 2^32 are there has no slot; see NoTableHoldsMore for why nothing the source does there can be
    // right.
    method Set(key: K, value: V, growOk: bool, copyOk: bool) returns (r: Status)
      requires Valid()
      modifies this, entries
      ensures Valid() && (entries == old(entries) || fresh(entries))
      // the table is doubled exactly when one more entry would make it more than three quarters full
      ensures capacity ==
        if !growOk || (old(count) + 1) * 4 <= old(capacity) * 3 then old(capacity)
        else if old(capacity) > 0 then old(capacity) * 2 else 16
      ensures capacity == old(capacity) <==> entries == old(entries)
      ensures r == NoMemory <==> !copyOk || (!growOk && (old(count) + 1) * 4 > old(capacity) * 3)
      ensures r == NoSlot <==> r != NoMemory && old(count) == MAX_SLOTS && key !in old(contents)
      ensures contents == if r == Ok then old(contents)[key := value] else old(contents)
    {
      if MustGrow() {
        var grown := Grow(growOk);
        if !grown { return NoMemory; }
      }
      var hash := hashOf(key);
      if !copyOk { return NoMemory; }
      CountFits(entries[..], hashOf, contents, capacity);
      var known, _ := Contains(key);
      if count == MAX_SLOTS && !known { return NoSlot; }
      var inserted := InsertEntry(entries, capacity, key, value, hash, hashOf, contents);
      if inserted {
        count := count + 1;
      }
      contents := contents[key := value];
      return Ok;
    }

    // Removal by backward shift.
    method Remove(key: K) returns (removed: Option<V>, endless: bool)
      requires Valid()
      modifies this, entries
      ensures Valid() && entries == old(entries)
      ensures contents == old(contents) - {key}
      ensures removed == if key in old(contents) then Some(old(contents)[key]) else None
      ensures (endless <==> old(NeverEnds(key))) && (endless ==> old(count) == MAX_SLOTS)
    {
      if capacity == 0 { return None, false; }
      var r, idx := Probe(key);
      if r != Found { return None, r == Endless; }
      removed, endless := Some(entries[idx].value), false;
      DeleteAt(entries, capacity, idx, hashOf, contents);
      count := count - 1;
      contents := contents - {key};
    }
  }

  // A probe that has passed every slot met a full table.
  lemma GoneRound<K, V>(t: seq<Entry<K, V>>, h: K -> uint32, m: map<K, V>, home: nat)
    requires Table(t, h) && Holds(t, m) && home < |t| && NothingStops(t, home)
    ensures |m| == |t|
  {
    KeysOfPrefix(t, h, m, |t|);
    AtMostSlots(t, h, m);
  }

  // A table has no more keys than slots, and beyond 2^32 slots fewer than the load limit.
  lemma CountFits<K, V>(t: seq<Entry<K, V>>, h: K -> uint32, m: map<K, V>, capacity: nat)
    requires |t| == Reach(capacity) && (capacity > 0 ==> CapacityOk(capacity) && Table(t, h) && Holds(t, m))
    requires |m| * 100 <= capacity * LOAD_PERCENT
    ensures |m| <= |t| && (|m| == |t| > 0 ==> |t| == MAX_SLOTS)
    ensures (|m| + 1) * 100 > capacity * LOAD_PERCENT ==> capacity <= MAX_SLOTS
  {
    if capacity > 0 { AtMostSlots(t, h, m); }
    if capacity > MAX_SLOTS { BeyondReach(capacity); }
  }

  // However entries are moved about, no table of n slots holds more than n keys: with all slots taken, no
  // insertion of a new key can give the right table.
  lemma NoTableHoldsMore<K, V>(t: seq<Entry<K, V>>, h: K -> uint32, m: map<K, V>, key: K, value: V,
                               t': seq<Entry<K, V>>)
    requires Table(t, h) && Holds(t, m) && |m| == |t| == |t'| && key !in m
    ensures !(Table(t', h) && Holds(t', m[key := value]))
  {
    var m' := m[key := value];
    assert m'.Keys == m.Keys + {key};
    assert |m'| == |m'.Keys| == |m| + 1;
    if Table(t', h) && Holds(t', m') {
      AtMostSlots(t', h, m');
      assert false;
    }
  }

  function FirstNumbers(n: nat): (m: map<nat, int>)
    ensures forall k: nat :: k in m <==> k < n
    ensures forall k :: k in m ==> m[k] == 0
  {
    if n == 0 then map[] else FirstNumbers(n - 1)[n - 1 := 0]
  }

  // n keys with the same home, each as far from it as there were keys before it.
  function Pile(n: nat): seq<Entry<nat, int>> {
    seq(n, i requires 0 <= i < n => Used(i, 0, 0, i))
  }

  // A full table where nothing stops the probe for a key that is missing.
  lemma ProbeGoesRound(n: nat)
    requires n > 1
    ensures Table(Pile(n), (_: nat) => 0) && Holds(Pile(n), FirstNumbers(n)) && Anchored(Pile(n))
    ensures |FirstNumbers(n)| == n && n !in FirstNumbers(n) && NothingStops(Pile(n), Home(0, n))
  {
    var t, m := Pile(n), FirstNumbers(n);
    assert Home(0, n) == 0 && IsAnchor(t, 0);
    forall k | k in m ensures !Absent(t, k) { assert SameKey(t, k, k); }
    GoneRound(t, (_: nat) => 0, m, 0);
  }

  lemma DoubledIsPow2(n: nat, n': nat)
    requires if n > 0 then Bits.IsPow2(n) && n' == n * 2 else n' == INITIAL_CAPACITY
    ensures Bits.IsPow2(n')
  {
    if n > 0 {
      var k: nat :| n == Bits.Pow2(k);
      assert n' == Bits.Pow2(k + 1);
    } else {
      assert Bits.Pow2(3) == 8;
      assert n' == Bits.Pow2(4);
    }
  }

  lemma EmptyTable<K, V>(t: seq<Entry<K, V>>, h: K -> uint32)
    requires |t| > 0 && forall i :: 0 <= i < |t| ==> t[i].Empty?
    ensures Table(t, h) && Holds(t, map[]) && Anchored(t)
  {
    assert IsAnchor(t, 0);
  }

  // g holds exactly the entries of the first i slots.
  ghost predicate Gathered<K, V>(t: seq<Entry<K, V>>, g: map<K, V>, i: nat)
    requires i <= |t|
  {
    && (forall j: nat :: j < i && t[j].Used? ==> t[j].key in g && g[t[j].key] == t[j].value)
    && (forall k :: k in g ==> exists j: nat :: j < i && SameKey(t, j, k))
  }

  lemma GatheredStep<K, V>(t: seq<Entry<K, V>>, h: K -> uint32, m: map<K, V>, g: map<K, V>, i: nat)
    requires Table(t, h) && Holds(t, m) && i < |t| && t[i].Used? && Gathered(t, g, i) && g.Keys <= m.Keys
    ensures t[i].key !in g && Gathered(t, g[t[i].key := t[i].value], i + 1)
    ensures g[t[i].key := t[i].value].Keys <= m.Keys
  {
    var g' := g[t[i].key := t[i].value];
    forall k | k in g' ensures exists j: nat :: j < i + 1 && SameKey(t, j, k) {
      if k == t[i].key { assert SameKey(t, i, k); } else { var j: nat :| j < i && SameKey(t, j, k); }
    }
  }

  lemma GatheredAll<K, V>(t: seq<Entry<K, V>>, m: map<K, V>, g: map<K, V>)
    requires (t == [] ==> m == map[]) && (t != [] ==> Holds(t, m)) && Gathered(t, g, |t|) && g.Keys <= m.Keys
    ensures g == m
  {
    forall k | k in m ensures k in g && g[k] == m[k] {
      var j: nat :| j < |t| && SameKey(t, j, k);
    }
  }
}
