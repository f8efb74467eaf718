/** Open addressing with linear probing: the theory shared by the order book's
    id map (with tombstones) and the execution management system's id map (without). */
module Probing {
  import opened Machine

  datatype Slot<V> = Empty | Tomb(key: u64) | Live(key: u64, value: V)

  /** How many probe steps lead from `home` to slot `i`. */
  function Dist(home: nat, i: nat, cap: nat): (d: nat)
    requires home < cap && i < cap
    ensures d < cap
  {
    if home <= i then i - home else i + cap - home
  }

  /** The slot the probe loop is at after `n` steps. */
  function ProbeIndex(home: nat, n: nat, cap: nat): (i: nat)
    requires home < cap
    ensures i < cap
  {
    if n == 0 then home else (ProbeIndex(home, n - 1, cap) + 1) % cap
  }

  lemma WrapStep(i: nat, cap: nat)
    requires i < cap
    ensures (i + 1) % cap == if i + 1 == cap then 0 else i + 1
  {
    if i + 1 < cap {
      assert (i + 1) / cap == 0;
    }
  }

  /** One step of the loop `index = (index + 1) % capacity` towards a slot further on. */
  lemma NextIndex(home: nat, i: nat, target: nat, cap: nat)
    requires home < cap && i < cap && target < cap
    requires Dist(home, i, cap) < Dist(home, target, cap)
    ensures Dist(home, (i + 1) % cap, cap) == Dist(home, i, cap) + 1
  {
    WrapStep(i, cap);
  }

  /** The probe loop visits every slot: slot `i` after exactly Dist(home, i) steps. */
  lemma {:induction false} ProbeReaches(home: nat, i: nat, cap: nat)
    requires home < cap && i < cap
    ensures ProbeIndex(home, Dist(home, i, cap), cap) == i
    decreases Dist(home, i, cap)
  {
    if i != home {
      var before := if i == 0 then cap - 1 else i - 1;
      ProbeReaches(home, before, cap);
      WrapStep(before, cap);
    }
  }

  /** The loop of a lookup leaves at an empty slot or at a live slot of its key. */
  predicate FindStops<V>(slot: Slot<V>, id: u64) {
    slot.Empty? || (slot.Live? && slot.key == id)
  }

  /** The loop of an insertion leaves at a slot that is not live or has its key. */
  predicate InsertStops<V>(slot: Slot<V>, id: u64) {
    !slot.Live? || slot.key == id
  }

  /** The lookup loop for `id` leaves after finitely many steps. */
  ghost predicate FindHalts<V>(slots: seq<Slot<V>>, id: u64)
    requires |slots| > 0
  {
    exists n: nat :: FindStops(slots[ProbeIndex(id % |slots|, n, |slots|)], id)
  }

  /** A lookup loop, which has no step bound of its own, leaves exactly when some slot
      stops it, and then within one round of the table. */
  lemma FindHaltsIff<V>(slots: seq<Slot<V>>, id: u64)
    requires |slots| > 0
    ensures FindHalts(slots, id) <==> exists i :: 0 <= i < |slots| && FindStops(slots[i], id)
    ensures FindHalts(slots, id) ==>
              exists n: nat :: n < |slots| && FindStops(slots[ProbeIndex(id % |slots|, n, |slots|)], id)
  {
    var cap := |slots|;
    var home := id % cap;
    forall i | 0 <= i < cap && FindStops(slots[i], id)
      ensures exists n: nat :: n < cap && FindStops(slots[ProbeIndex(home, n, cap)], id)
    {
      ProbeReaches(home, i, cap);
    }
  }

  /** No slot between a live key's home and its own slot is empty. */
  ghost predicate Chained<V>(slots: seq<Slot<V>>) {
    forall i, j :: 0 <= i < |slots| && 0 <= j < |slots| && slots[j].Live?
      && Dist(slots[j].key % |slots|, i, |slots|) < Dist(slots[j].key % |slots|, j, |slots|)
      ==> !slots[i].Empty?
  }

  /** A live slot holds what the map says of its key. */
  ghost predicate Agrees<V>(slots: seq<Slot<V>>, m: map<u64, V>) {
    forall i :: 0 <= i < |slots| && slots[i].Live? ==> slots[i].key in m && slots[i].value == m[slots[i].key]
  }

  ghost predicate UniqueKeys<V>(slots: seq<Slot<V>>) {
    forall i, j :: 0 <= i < j < |slots| && slots[i].Live? && slots[j].Live? ==> slots[i].key != slots[j].key
  }

  ghost predicate Covers<V>(slots: seq<Slot<V>>, m: map<u64, V>) {
    forall id :: id in m ==> exists i :: 0 <= i < |slots| && slots[i] == Live(id, m[id])
  }

  /** The live slots hold exactly the map `m`, each key in one slot, and lookups can reach them. */
  ghost predicate Represents<V>(slots: seq<Slot<V>>, m: map<u64, V>) {
    Chained(slots) && Agrees(slots, m) && UniqueKeys(slots) && Covers(slots, m)
  }

  lemma EmptyTable<V>(slots: seq<Slot<V>>)
    requires forall i :: 0 <= i < |slots| ==> slots[i].Empty?
    ensures Represents(slots, map[])
    ensures |EmptySlots(slots)| == |slots|
  {
    assert EmptySlots(slots) == Range(|slots|);
  }

  /** Slot `i` is where the lookup loop for `id` leaves. */
  ghost predicate FirstFindStop<V>(slots: seq<Slot<V>>, id: u64, i: nat)
    requires i < |slots|
  {
    && FindStops(slots[i], id)
    && forall j :: 0 <= j < |slots| && Dist(id % |slots|, j, |slots|) < Dist(id % |slots|, i, |slots|) ==>
        !FindStops(slots[j], id)
  }

  /** Slot `i` is where the insertion loop for `id` leaves. */
  ghost predicate FirstInsertStop<V>(slots: seq<Slot<V>>, id: u64, i: nat)
    requires i < |slots|
  {
    && InsertStops(slots[i], id)
    && forall j :: 0 <= j < |slots| && Dist(id % |slots|, j, |slots|) < Dist(id % |slots|, i, |slots|) ==>
        !InsertStops(slots[j], id)
  }

  /** The loop's answer is right: an empty slot says the key is absent, a live one holds its value. */
  lemma FirstStop<V>(slots: seq<Slot<V>>, m: map<u64, V>, id: u64, i: nat)
    requires i < |slots| && Represents(slots, m) && FirstFindStop(slots, id, i)
    ensures slots[i].Empty? <==> id !in m
    ensures id in m ==> slots[i] == Live(id, m[id])
  {
    if id in m {
      var j :| 0 <= j < |slots| && slots[j] == Live(id, m[id]);
      assert FindStops(slots[j], id);
      assert i == j;
    }
  }

  /** In a table that represents a map, a lookup terminates exactly when its key is in the map
      or an empty slot is left. */
  lemma FindHaltsWhen<V>(slots: seq<Slot<V>>, m: map<u64, V>, id: u64)
    requires |slots| > 0 && Represents(slots, m)
    ensures FindHalts(slots, id) <==> id in m || EmptySlots(slots) != {}
  {
    FindHaltsIff(slots, id);
    if id in m {
      var j :| 0 <= j < |slots| && slots[j] == Live(id, m[id]);
      assert FindStops(slots[j], id);
    } else if i :| i in EmptySlots(slots) {
      assert FindStops(slots[i], id);
    } else {
      forall i | 0 <= i < |slots| ensures !FindStops(slots[i], id) {
        assert i !in EmptySlots(slots);
      }
    }
  }

  lemma CoversAfter<V>(slots: seq<Slot<V>>, slots': seq<Slot<V>>, m: map<u64, V>, m': map<u64, V>, i: nat)
    requires i < |slots| && |slots'| == |slots| && Covers(slots, m)
    requires forall j :: 0 <= j < |slots| && j != i ==> slots'[j] == slots[j]
    requires forall k :: k in m' && !(slots'[i] == Live(k, m'[k])) ==>
               k in m && m[k] == m'[k] && slots[i] != Live(k, m[k])
    ensures Covers(slots', m')
  {
    forall k | k in m' ensures exists j :: 0 <= j < |slots'| && slots'[j] == Live(k, m'[k]) {
      if slots'[i] != Live(k, m'[k]) {
        var j :| 0 <= j < |slots| && slots[j] == Live(k, m[k]);
        assert slots'[j] == slots[j];
      }
    }
  }

  /** Chains survive when no slot becomes empty and no other slot goes live. */
  lemma ChainedAfter<V>(slots: seq<Slot<V>>, slots': seq<Slot<V>>)
    requires |slots'| == |slots| && Chained(slots)
    requires forall j :: 0 <= j < |slots| && slots'[j].Empty? ==> slots[j].Empty?
    requires forall j :: 0 <= j < |slots| && slots'[j].Live? ==> slots[j].Live? && slots'[j].key == slots[j].key
    ensures Chained(slots')
  {
  }

  /** Writing a new key into the first slot that stops its insertion. */
  lemma KeyInserted<V>(slots: seq<Slot<V>>, m: map<u64, V>, id: u64, v: V, i: nat)
    requires i < |slots| && Represents(slots, m) && id !in m
    requires FirstInsertStop(slots, id, i)
    ensures !slots[i].Live?
    ensures Represents(slots[i := Live(id, v)], m[id := v])
    ensures EmptySlots(slots[i := Live(id, v)]) == EmptySlots(slots) - {i}
  {
    var slots' := slots[i := Live(id, v)];
    assert Agrees(slots', m[id := v]) && UniqueKeys(slots');
    assert Chained(slots');
    CoversAfter(slots, slots', m, m[id := v], i);
  }

  /** Turning a live slot into a tombstone removes its key and empties no slot. */
  lemma KeyErased<V>(slots: seq<Slot<V>>, m: map<u64, V>, id: u64, i: nat)
    requires i < |slots| && Represents(slots, m) && id in m && slots[i] == Live(id, m[id])
    ensures Represents(slots[i := Tomb(id)], m - {id})
    ensures EmptySlots(slots[i := Tomb(id)]) == EmptySlots(slots)
  {
    var slots' := slots[i := Tomb(id)];
    assert Agrees(slots', m - {id}) && UniqueKeys(slots');
    ChainedAfter(slots, slots');
    CoversAfter(slots, slots', m, m - {id}, i);
  }

  /** The effect of an insertion: the first slot that stops it is overwritten. */
  ghost predicate SlotWritten<V>(slots: seq<Slot<V>>, slots': seq<Slot<V>>, id: u64, v: V) {
    exists i :: 0 <= i < |slots| && FirstInsertStop(slots, id, i) && slots' == slots[i := Live(id, v)]
  }

  lemma WrittenAt<V>(slots: seq<Slot<V>>, slots': seq<Slot<V>>, id: u64, v: V, i: nat)
    requires i < |slots| && FirstInsertStop(slots, id, i) && slots' == slots[i := Live(id, v)]
    ensures SlotWritten(slots, slots', id, v)
  {
  }

  /** The effect of an erasure: the first slot that stops the lookup, unless empty, becomes a tombstone. */
  ghost predicate SlotErased<V>(slots: seq<Slot<V>>, slots': seq<Slot<V>>, id: u64) {
    exists i :: 0 <= i < |slots| && FirstFindStop(slots, id, i)
                && slots' == if slots[i].Empty? then slots else slots[i := Tomb(id)]
  }

  /** What a finished insertion of a new key has done. */
  lemma KeyStored<V>(slots: seq<Slot<V>>, slots': seq<Slot<V>>, m: map<u64, V>, id: u64, v: V)
    requires Represents(slots, m) && id !in m && SlotWritten(slots, slots', id, v)
    ensures Represents(slots', m[id := v])
    ensures |EmptySlots(slots')| >= |EmptySlots(slots)| - 1
  {
    var i :| 0 <= i < |slots| && FirstInsertStop(slots, id, i) && slots' == slots[i := Live(id, v)];
    KeyInserted(slots, m, id, v, i);
  }

  /** What a finished lookup has found. */
  lemma KeyFound(slots: seq<Slot<nat>>, m: map<u64, nat>, id: u64, n: int)
    requires Represents(slots, m)
    requires exists i :: 0 <= i < |slots| && FirstFindStop(slots, id, i)
                         && n == if slots[i].Empty? then NIL else slots[i].value
    ensures n == if id in m then m[id] else NIL
  {
    var i :| 0 <= i < |slots| && FirstFindStop(slots, id, i) && n == if slots[i].Empty? then NIL else slots[i].value;
    FirstStop(slots, m, id, i);
  }

  /** What a finished erasure has done. */
  lemma KeyRemoved<V>(slots: seq<Slot<V>>, slots': seq<Slot<V>>, m: map<u64, V>, id: u64)
    requires Represents(slots, m) && id in m && SlotErased(slots, slots', id)
    ensures Represents(slots', m - {id})
    ensures |EmptySlots(slots')| == |EmptySlots(slots)|
  {
    var i :| 0 <= i < |slots| && FirstFindStop(slots, id, i)
             && slots' == if slots[i].Empty? then slots else slots[i := Tomb(id)];
    FirstStop(slots, m, id, i);
    KeyErased(slots, m, id, i);
  }

  ghost function EmptySlots<V>(slots: seq<Slot<V>>): (s: set<nat>) {
    set i: nat | i < |slots| && slots[i].Empty?
  }

  ghost function LiveSlots<V>(slots: seq<Slot<V>>): (s: set<nat>) {
    set i: nat | i < |slots| && slots[i].Live?
  }

  /** Live slots have different keys, so no more of them than keys. */
  lemma {:induction false} LiveSlotBound<V>(slots: seq<Slot<V>>, s: set<nat>, keys: set<u64>)
    requires UniqueKeys(slots)
    requires s <= LiveSlots(slots)
    requires forall i :: i in s ==> slots[i].key in keys
    ensures |s| <= |keys|
    decreases |s|
  {
    if s != {} {
      var i :| i in s;
      LiveSlotBound(slots, s - {i}, keys - {slots[i].key});
    }
  }

  /** A table larger than its map always has a slot that stops an insertion. */
  lemma InsertHasRoom<V>(slots: seq<Slot<V>>, m: map<u64, V>)
    requires Represents(slots, m) && |m| < |slots|
    ensures exists i :: 0 <= i < |slots| && !slots[i].Live?
  {
    if forall i :: 0 <= i < |slots| ==> slots[i].Live? {
      LiveSlotBound(slots, Range(|slots|), m.Keys);
    }
  }

  ghost function Range(n: nat): (s: set<nat>)
    ensures |s| == n
    ensures forall i :: i in s <==> 0 <= i < n
  {
    if n == 0 then {} else Range(n - 1) + {n - 1}
  }
}
