/**
 One shard of the bounded in-process cache (`atomicLocalShard`): a map, an append-only clock of
 write records with a hand, and eviction and compaction loops over that clock.

 The shard refines a plain queue of live keys ordered by their last write.
 */
module AtomicLocal {
  import opened Wrappers

  datatype Entry<+V> = Entry(value: V, expiresAt: int, size: nat, generation: nat)

  /** A clock record: the key that was written and the generation of that write. */
  datatype Slot<+K> = Slot(key: K, generation: nat)

  datatype Cell<+K, +V> = Cell(key: K, entry: Entry<V>)

  datatype SetResult = Stored | InvalidValue | InvalidKey | EntryTooLarge | StaleWrite | ConflictingWrite

  /** Limits and admission rules; a rule that is not configured never objects. 0 means no limit. */
  datatype Config<!K, !V> = Config(
    maxEntries: nat,
    maxBytes: nat,
    defaultTtl: int,
    keyOf: V -> K,
    validKey: K -> bool,
    validValue: V -> bool,
    sizeOf: V -> int,
    superseded: V -> bool,
    stale: (V, V) -> bool,
    conflict: (V, V) -> bool)

  /** Slack of the clock over twice the live entries (`atomicLocalOrderSlack`). */
  const SLACK := 1024

  // ---------------------------------------------------------------- the queue

  type Queue<K, V> = seq<Cell<K, V>>

  ghost function Without<K, V>(q: Queue<K, V>, key: K): Queue<K, V> {
    if q == [] then [] else (if q[0].key == key then [] else [q[0]]) + Without(q[1..], key)
  }

  function TotalSize<K, V>(q: Queue<K, V>): nat {
    if q == [] then 0 else q[0].entry.size + TotalSize(q[1..])
  }

  predicate Over(entries: int, bytes: int, maxEntries: nat, maxBytes: nat) {
    (maxEntries > 0 && entries > maxEntries) || (maxBytes > 0 && bytes > maxBytes)
  }

  predicate QueueOver<K, V>(q: Queue<K, V>, maxEntries: nat, maxBytes: nat) {
    Over(|q|, TotalSize(q), maxEntries, maxBytes)
  }

  /** Drops the oldest cells until the limits hold. */
  function Evict<K, V>(q: Queue<K, V>, maxEntries: nat, maxBytes: nat): Queue<K, V> {
    if q != [] && QueueOver(q, maxEntries, maxBytes) then Evict(q[1..], maxEntries, maxBytes) else q
  }

  /** A write moves its key to the back and then evicts from the front. */
  ghost function Written<K, V>(q: Queue<K, V>, cell: Cell<K, V>, maxEntries: nat, maxBytes: nat): Queue<K, V> {
    Evict(Without(q, cell.key) + [cell], maxEntries, maxBytes)
  }

  /** Eviction leaves a suffix within the limits: only the oldest go. */
  lemma {:induction false} EvictSuffix<K, V>(q: Queue<K, V>, maxEntries: nat, maxBytes: nat)
    ensures var r := Evict(q, maxEntries, maxBytes);
            |r| <= |q| && r == q[|q| - |r|..] && !QueueOver(r, maxEntries, maxBytes)
    decreases |q|
  {
    if q != [] && QueueOver(q, maxEntries, maxBytes) {
      EvictSuffix(q[1..], maxEntries, maxBytes);
    }
  }

  /** No more goes than necessary: every longer suffix is over a limit. */
  lemma {:induction false} EvictMinimal<K, V>(q: Queue<K, V>, maxEntries: nat, maxBytes: nat, m: nat)
    requires m < |q| - |Evict(q, maxEntries, maxBytes)|
    ensures QueueOver(q[m..], maxEntries, maxBytes)
    decreases |q|
  {
    if m == 0 {
      assert q[0..] == q;
    } else {
      assert q[1..][m - 1..] == q[m..];
      EvictMinimal(q[1..], maxEntries, maxBytes, m - 1);
    }
  }

  /** After a write the written key is last, every key is held once, and the limits hold. */
  lemma WrittenIsNewest<K, V>(q: Queue<K, V>, cell: Cell<K, V>, maxEntries: nat, maxBytes: nat)
    requires maxBytes == 0 || cell.entry.size <= maxBytes
    requires DistinctKeys(q)
    ensures var r := Written(q, cell, maxEntries, maxBytes);
            && r != [] && r[|r| - 1] == cell
            && DistinctKeys(r)
            && (maxEntries == 0 || |r| <= maxEntries) && (maxBytes == 0 || TotalSize(r) <= maxBytes)
  {
    var all := Without(q, cell.key) + [cell];
    assert DistinctKeys(all) by {
      WithoutKeeps(q, cell.key);
      WithoutDistinct(q, cell.key);
    }
    EvictSuffix(all, maxEntries, maxBytes);
    assert all[|all| - 1..] == [cell];
    if Evict(all, maxEntries, maxBytes) == [] {
      EvictMinimal(all, maxEntries, maxBytes, |all| - 1);
      assert false;
    }
  }

  ghost predicate DistinctKeys<K, V>(q: Queue<K, V>) {
    forall i, j | 0 <= i < j < |q| :: q[i].key != q[j].key
  }

  lemma {:induction false} WithoutKeeps<K, V>(q: Queue<K, V>, key: K)
    ensures forall c | c in q && c.key != key :: c in Without(q, key)
    ensures forall i | 0 <= i < |Without(q, key)| :: Without(q, key)[i] in q && Without(q, key)[i].key != key
  {
    if q != [] {
      assert q == [q[0]] + q[1..];
      WithoutKeeps(q[1..], key);
    }
  }

  lemma {:induction false} WithoutAbsent<K, V>(q: Queue<K, V>, key: K)
    requires forall c | c in q :: c.key != key
    ensures Without(q, key) == q
  {
    if q != [] {
      WithoutAbsent(q[1..], key);
      assert q == [q[0]] + q[1..];
    }
  }

  lemma {:induction false} WithoutDistinct<K, V>(q: Queue<K, V>, key: K)
    requires DistinctKeys(q)
    ensures DistinctKeys(Without(q, key))
  {
    if q != [] {
      WithoutDistinct(q[1..], key);
      WithoutKeeps(q[1..], key);
      assert forall c | c in q[1..] :: c.key != q[0].key;
    }
  }

  lemma {:induction false} TotalSizeAppend<K, V>(p: Queue<K, V>, q: Queue<K, V>)
    ensures TotalSize(p + q) == TotalSize(p) + TotalSize(q)
  {
    if p == [] {
      assert p + q == q;
    } else {
      assert (p + q)[1..] == p[1..] + q;
      TotalSizeAppend(p[1..], q);
    }
  }

  /** Removing the only cell of a key takes away one cell and its size. */
  lemma {:induction false} WithoutOne<K, V>(q: Queue<K, V>, cell: Cell<K, V>)
    requires cell in q && DistinctKeys(q)
    ensures |Without(q, cell.key)| == |q| - 1
    ensures TotalSize(Without(q, cell.key)) == TotalSize(q) - cell.entry.size
  {
    assert q == [q[0]] + q[1..];
    if q[0].key == cell.key {
      assert forall c | c in q[1..] :: c.key != cell.key;
      WithoutAbsent(q[1..], cell.key);
      assert Without(q, cell.key) == q[1..];
    } else {
      WithoutOne(q[1..], cell);
      TotalSizeAppend([q[0]], Without(q[1..], cell.key));
    }
  }

  // ---------------------------------------------------------------- the clock

  /** The record belongs to the write that is still stored. */
  predicate Current<K, V>(items: map<K, Entry<V>>, slot: Slot<K>) {
    slot.key in items && items[slot.key].generation == slot.generation
  }

  /** The live keys in clock order. */
  ghost function Cells<K, V>(items: map<K, Entry<V>>, slots: seq<Slot<K>>): Queue<K, V> {
    if slots == [] then []
    else (if Current(items, slots[0]) then [Cell(slots[0].key, items[slots[0].key])] else []) + Cells(items, slots[1..])
  }

  /** The records that survive a compaction. */
  ghost function CurrentSlots<K, V>(items: map<K, Entry<V>>, slots: seq<Slot<K>>): seq<Slot<K>> {
    if slots == [] then []
    else (if Current(items, slots[0]) then [slots[0]] else []) + CurrentSlots(items, slots[1..])
  }

  ghost predicate Increasing<K>(slots: seq<Slot<K>>, generation: nat) {
    slots == []
    || (&& slots[0].generation <= generation
        && (forall slot | slot in slots[1..] :: slots[0].generation < slot.generation)
        && Increasing(slots[1..], generation))
  }

  lemma {:induction false} IncreasingAppend<K>(slots: seq<Slot<K>>, generation: nat, slot: Slot<K>)
    requires Increasing(slots, generation) && slot.generation == generation + 1
    ensures Increasing(slots + [slot], generation + 1)
    ensures forall s | s in slots :: s.generation <= generation
  {
    if slots != [] {
      IncreasingAppend(slots[1..], generation, slot);
      assert (slots + [slot])[1..] == slots[1..] + [slot];
      assert slots == [slots[0]] + slots[1..];
    }
  }

  /** Every stored entry has its record on the clock. */
  ghost predicate Recorded<K, V>(items: map<K, Entry<V>>, slots: seq<Slot<K>>) {
    forall key | key in items :: Slot(key, items[key].generation) in slots
  }

  lemma {:induction false} CellsAre<K, V>(items: map<K, Entry<V>>, slots: seq<Slot<K>>, generation: nat)
    requires Increasing(slots, generation)
    ensures forall c | c in Cells(items, slots) :: c.key in items && c.entry == items[c.key]
    ensures forall c | c in Cells(items, slots) :: Slot(c.key, c.entry.generation) in slots
    ensures forall slot | slot in slots && Current(items, slot) ::
        Cell(slot.key, items[slot.key]) in Cells(items, slots)
    ensures DistinctKeys(Cells(items, slots))
  {
    if slots != [] {
      CellsAre(items, slots[1..], generation);
      assert slots == [slots[0]] + slots[1..];
      assert forall slot | slot in slots[1..] :: slots[0].generation < slot.generation;
    }
  }

  /** A key is live in the queue exactly when the map stores it, with the same entry. */
  lemma QueueHoldsItems<K, V>(items: map<K, Entry<V>>, slots: seq<Slot<K>>, generation: nat)
    requires Increasing(slots, generation) && Recorded(items, slots)
    ensures forall key :: key in items <==> exists c :: c in Cells(items, slots) && c.key == key
    ensures forall key | key in items :: Cell(key, items[key]) in Cells(items, slots)
  {
    CellsAre(items, slots, generation);
    forall key | key in items ensures Cell(key, items[key]) in Cells(items, slots) {
      assert Current(items, Slot(key, items[key].generation));
    }
  }

  lemma {:induction false} CellsRemove<K, V>(items: map<K, Entry<V>>, slots: seq<Slot<K>>, key: K)
    ensures Cells(items - {key}, slots) == Without(Cells(items, slots), key)
  {
    if slots != [] {
      CellsRemove(items, slots[1..], key);
      var rest := Cells(items, slots[1..]);
      var first := Cells(items, slots)[..|Cells(items, slots)| - |rest|];
      assert Cells(items, slots) == first + rest;
      if Current(items, slots[0]) {
        assert (first + rest)[1..] == rest;
      } else {
        assert first + rest == rest;
      }
    }
  }

  /** A newer write of a key retires every earlier record of it. */
  lemma {:induction false} CellsOverwrite<K, V>(items: map<K, Entry<V>>, slots: seq<Slot<K>>, key: K, entry: Entry<V>)
    requires forall slot | slot in slots :: slot.generation < entry.generation
    ensures Cells(items[key := entry], slots) == Without(Cells(items, slots), key)
  {
    CellsRemove(items, slots, key);
    CellsSame(items[key := entry], items - {key}, slots);
  }

  lemma {:induction false} CellsSame<K, V>(items: map<K, Entry<V>>, other: map<K, Entry<V>>, slots: seq<Slot<K>>)
    requires forall slot | slot in slots :: Current(items, slot) == Current(other, slot)
    requires forall slot | slot in slots && Current(items, slot) && Current(other, slot) ::
        items[slot.key] == other[slot.key]
    ensures Cells(items, slots) == Cells(other, slots)
  {
    if slots != [] {
      CellsSame(items, other, slots[1..]);
    }
  }

  lemma {:induction false} CellsAppend<K, V>(items: map<K, Entry<V>>, left: seq<Slot<K>>, right: seq<Slot<K>>)
    ensures Cells(items, left + right) == Cells(items, left) + Cells(items, right)
  {
    if left == [] {
      assert left + right == right;
    } else {
      assert (left + right)[1..] == left[1..] + right;
      CellsAppend(items, left[1..], right);
    }
  }

  lemma {:induction false} CurrentSlotsAppend<K, V>(items: map<K, Entry<V>>, left: seq<Slot<K>>, right: seq<Slot<K>>)
    ensures CurrentSlots(items, left + right) == CurrentSlots(items, left) + CurrentSlots(items, right)
  {
    if left == [] {
      assert left + right == right;
    } else {
      assert (left + right)[1..] == left[1..] + right;
      CurrentSlotsAppend(items, left[1..], right);
    }
  }

  lemma {:induction false} CurrentSlotStays<K, V>(items: map<K, Entry<V>>, slots: seq<Slot<K>>, slot: Slot<K>)
    requires slot in slots && Current(items, slot)
    ensures slot in CurrentSlots(items, slots)
  {
    if slots[0] != slot {
      CurrentSlotStays(items, slots[1..], slot);
    }
  }

  lemma {:induction false} KeptSlotIsCurrent<K, V>(items: map<K, Entry<V>>, slots: seq<Slot<K>>, slot: Slot<K>)
    requires slot in CurrentSlots(items, slots)
    ensures slot in slots && Current(items, slot)
  {
    if slot in CurrentSlots(items, slots[1..]) {
      KeptSlotIsCurrent(items, slots[1..], slot);
    }
  }

  /** Compaction keeps the queue and leaves one record per live key. */
  lemma {:induction false} CurrentSlotsKeep<K, V>(items: map<K, Entry<V>>, slots: seq<Slot<K>>, generation: nat)
    requires Increasing(slots, generation)
    ensures Cells(items, CurrentSlots(items, slots)) == Cells(items, slots)
    ensures |CurrentSlots(items, slots)| == |Cells(items, slots)|
    ensures Increasing(CurrentSlots(items, slots), generation)
  {
    if slots != [] {
      assert slots == [slots[0]] + slots[1..];
      assert forall slot | slot in slots[1..] :: slots[0].generation < slot.generation;
      CurrentSlotsKeep(items, slots[1..], generation);
      var rest := CurrentSlots(items, slots[1..]);
      forall slot | slot in rest ensures slots[0].generation < slot.generation {
        KeptSlotIsCurrent(items, slots[1..], slot);
      }
      assert Current(items, slots[0]) ==> CurrentSlots(items, slots)[1..] == rest;
      assert !Current(items, slots[0]) ==> CurrentSlots(items, slots) == rest;
      CellsAppend(items, if Current(items, slots[0]) then [slots[0]] else [], rest);
    }
  }

  // ---------------------------------------------------------------- steps of the shard on values

  /** The map, the unconsumed clock and the counters agree. */
  ghost predicate Agree<K, V>(items: map<K, Entry<V>>, slots: seq<Slot<K>>, generation: nat, entries: int, bytes: int) {
    && Increasing(slots, generation)
    && Recorded(items, slots)
    && entries == |Cells(items, slots)| && bytes == TotalSize(Cells(items, slots))
  }

  lemma StoreKeeps<K, V>(items: map<K, Entry<V>>, slots: seq<Slot<K>>, generation: nat, entries: int, bytes: int,
                         key: K, entry: Entry<V>)
    requires Agree(items, slots, generation, entries, bytes) && entry.generation == generation + 1
    ensures Cells(items[key := entry], slots + [Slot(key, generation + 1)])
        == Without(Cells(items, slots), key) + [Cell(key, entry)]
    ensures Agree(items[key := entry], slots + [Slot(key, generation + 1)], generation + 1,
                  if key in items then entries else entries + 1,
                  bytes + entry.size - if key in items then items[key].size else 0)
  {
    var queue, slot := Cells(items, slots), Slot(key, generation + 1);
    IncreasingAppend(slots, generation, slot);
    RemoveKeeps(items, slots, generation, entries, bytes, key);
    CellsOverwrite(items, slots, key, entry);
    CellsAppend(items[key := entry], slots, [slot]);
    TotalSizeAppend(Without(queue, key), [Cell(key, entry)]);
    assert slot in slots + [slot];
  }

  lemma RemoveKeeps<K, V>(items: map<K, Entry<V>>, slots: seq<Slot<K>>, generation: nat, entries: int, bytes: int,
                          key: K)
    requires Agree(items, slots, generation, entries, bytes)
    ensures Cells(items - {key}, slots) == Without(Cells(items, slots), key)
    ensures Agree(items - {key}, slots, generation,
                  if key in items then entries - 1 else entries,
                  bytes - if key in items then items[key].size else 0)
  {
    CellsAre(items, slots, generation);
    QueueHoldsItems(items, slots, generation);
    CellsRemove(items, slots, key);
    if key in items {
      WithoutOne(Cells(items, slots), Cell(key, items[key]));
    } else {
      WithoutAbsent(Cells(items, slots), key);
    }
  }

  /** Passing a record that is no longer current changes nothing. */
  lemma SkipKeeps<K, V>(items: map<K, Entry<V>>, slots: seq<Slot<K>>, generation: nat, entries: int, bytes: int)
    requires slots != [] && Agree(items, slots, generation, entries, bytes) && !Current(items, slots[0])
    ensures Cells(items, slots[1..]) == Cells(items, slots)
    ensures Agree(items, slots[1..], generation, entries, bytes)
  {
    assert slots == [slots[0]] + slots[1..];
  }

  /** Passing a current record and removing its key takes the head off the queue. */
  lemma EvictHeadKeeps<K, V>(items: map<K, Entry<V>>, slots: seq<Slot<K>>, generation: nat, entries: int, bytes: int)
    requires slots != [] && Agree(items, slots, generation, entries, bytes) && Current(items, slots[0])
    ensures var key := slots[0].key;
            && Cells(items, slots) != []
            && Cells(items - {key}, slots[1..]) == Cells(items, slots)[1..]
            && Agree(items - {key}, slots[1..], generation, entries - 1, bytes - items[key].size)
  {
    var key, rest := slots[0].key, slots[1..];
    assert slots == [slots[0]] + rest;
    assert forall slot | slot in rest :: slots[0].generation < slot.generation;
    CellsAre(items, rest, generation);
    CellsRemove(items, rest, key);
    WithoutAbsent(Cells(items, rest), key);
    assert Cells(items, slots) == [Cell(key, items[key])] + Cells(items, rest);
  }

  lemma CompactKeeps<K, V>(items: map<K, Entry<V>>, slots: seq<Slot<K>>, generation: nat, entries: int, bytes: int)
    requires Agree(items, slots, generation, entries, bytes)
    ensures var kept := CurrentSlots(items, slots);
            && Cells(items, kept) == Cells(items, slots) && |kept| == entries
            && Agree(items, kept, generation, entries, bytes)
  {
    CurrentSlotsKeep(items, slots, generation);
    forall key | key in items ensures Slot(key, items[key].generation) in CurrentSlots(items, slots) {
      CurrentSlotStays(items, slots, Slot(key, items[key].generation));
    }
  }

  /** Storing an entry, appending its record behind the hand and counting it keeps everything in agreement. */
  lemma StoredAgrees<K, V>(items: map<K, Entry<V>>, order: seq<Slot<K>>, hand: nat, generation: nat, entries: int,
                           bytes: int, key: K, entry: Entry<V>, items': map<K, Entry<V>>, order': seq<Slot<K>>,
                           entries': int, bytes': int)
    requires hand <= |order| && Agree(items, order[hand..], generation, entries, bytes)
    requires entry.generation == generation + 1
    requires items' == items[key := entry] && order' == order + [Slot(key, generation + 1)]
    requires entries' == if key in items then entries else entries + 1
    requires bytes' == bytes + entry.size - if key in items then items[key].size else 0
    ensures Agree(items', order'[hand..], generation + 1, entries', bytes')
    ensures Cells(items', order'[hand..]) == Without(Cells(items, order[hand..]), key) + [Cell(key, entry)]
  {
    assert order'[hand..] == order[hand..] + [Slot(key, generation + 1)];
    StoreKeeps(items, order[hand..], generation, entries, bytes, key, entry);
  }

  /** One record of the compaction: a current one moves to the end of the kept prefix, any other stays behind. */
  lemma MoveStep<K, V>(items: map<K, Entry<V>>, order: seq<Slot<K>>, was: seq<Slot<K>>, hand: nat, i: nat, kept: nat)
    requires hand <= i < |order| == |was| && kept <= i - hand
    requires order[i..] == was[i..] && order[..kept] == CurrentSlots(items, was[hand..i])
    ensures order[i + 1..] == was[i + 1..]
    ensures if Current(items, order[i])
            then CurrentSlots(items, was[hand..i + 1]) == order[kept := order[i]][..kept + 1]
                 && order[kept := order[i]][i + 1..] == was[i + 1..]
            else CurrentSlots(items, was[hand..i + 1]) == order[..kept]
  {
    assert order[i] == order[i..][0] == was[i];
    assert order[i + 1..] == order[i..][1..] == was[i..][1..] == was[i + 1..];
    assert was[hand..i + 1] == was[hand..i] + [order[i]];
    CurrentSlotsAppend(items, was[hand..i], [order[i]]);
    if Current(items, order[i]) {
      assert order[kept := order[i]][..kept + 1] == order[..kept] + [order[i]];
      assert order[kept := order[i]][i + 1..] == order[i + 1..];
    }
  }

  /** The counters decide the limits of the queue, and an empty clock is never over them. */
  lemma OverIsQueueOver<K, V>(items: map<K, Entry<V>>, slots: seq<Slot<K>>, generation: nat, entries: int, bytes: int,
                              maxEntries: nat, maxBytes: nat)
    requires Agree(items, slots, generation, entries, bytes)
    ensures Over(entries, bytes, maxEntries, maxBytes) == QueueOver(Cells(items, slots), maxEntries, maxBytes)
    ensures Over(entries, bytes, maxEntries, maxBytes) ==> slots != []
  {
  }

  // ---------------------------------------------------------------- the shard

  function SizeOf<K, V>(cfg: Config<K, V>, value: V): nat {
    if cfg.sizeOf(value) < 0 then 0 else cfg.sizeOf(value)
  }

  function ExpiresAt<K, V>(cfg: Config<K, V>, ttl: int, now: int): int {
    var effective := if ttl == 0 then cfg.defaultTtl else ttl;
    if effective > 0 then now + effective else 0
  }

  /** The checks a write passes before it is stored, in their order. */
  function Admission<K(==), V>(cfg: Config<K, V>, items: map<K, Entry<V>>, value: V): SetResult {
    var key := cfg.keyOf(value);
    if !cfg.validValue(value) then InvalidValue
    else if !cfg.validKey(key) then InvalidKey
    else if cfg.maxBytes > 0 && SizeOf(cfg, value) > cfg.maxBytes then EntryTooLarge
    else if cfg.superseded(value) then StaleWrite
    else if key in items && cfg.stale(items[key].value, value) then StaleWrite
    else if key in items && cfg.conflict(items[key].value, value) then ConflictingWrite
    else Stored
  }

  predicate Expired<V>(entry: Entry<V>, now: int) {
    entry.expiresAt > 0 && now >= entry.expiresAt
  }

  class Shard<K(==), V> {
    const cfg: Config<K, V>
    var items: map<K, Entry<V>>
    var order: seq<Slot<K>>
    var hand: nat
    var entries: int
    var bytes: int
    var generation: nat
    var evictions: nat

    /** The live keys in the order of their last write. */
    ghost function Live(): Queue<K, V>
      reads this
      requires hand <= |order|
    {
      Cells(items, order[hand..])
    }

    ghost predicate Sound()
      reads this
    {
      hand <= |order| && Agree(items, order[hand..], generation, entries, bytes)
    }

    /** What holds between operations: the limits, and a clock proportional to the live keys. */
    ghost predicate Valid()
      reads this
    {
      && Sound()
      && !QueueOver(Live(), cfg.maxEntries, cfg.maxBytes)
      && |order| - hand <= 2 * entries + SLACK
    }

    constructor (cfg: Config<K, V>)
      ensures Valid() && this.cfg == cfg && Live() == []
    {
      this.cfg := cfg;
      items, order, hand, entries, bytes, generation, evictions := map[], [], 0, 0, 0, 0, 0;
    }

    /** The read half of Get: the stored value, unless it is missing or has expired. */
    method Get(key: K, now: int) returns (value: Option<V>, expired: Option<nat>)
      requires Valid()
      ensures value.Some? <==> cfg.validKey(key) && exists c :: c in Live() && c.key == key && !Expired(c.entry, now)
      ensures value.Some? ==> exists c :: c in Live() && c.key == key && c.entry.value == value.value
      ensures expired.Some? <==> cfg.validKey(key) && exists c :: c in Live() && c.key == key && Expired(c.entry, now)
      ensures expired.Some? ==> key in items && items[key].generation == expired.value
    {
      QueueHoldsItems(items, order[hand..], generation);
      CellsAre(items, order[hand..], generation);
      value, expired := None, None;
      if cfg.validKey(key) && key in items {
        ghost var cell := Cell(key, items[key]);
        assert cell in Live() && cell.key == key;
        if Expired(items[key], now) {
          expired := Some(items[key].generation);
        } else {
          value := Some(items[key].value);
        }
      }
    }

    /**
     The second half of Get, under the write lock: removes the entry Get saw expired, and nothing
     when the key has been written or removed since.
     */
    method Expire(key: K, seen: nat, now: int)
      requires Valid()
      modifies this
      ensures Valid()
      ensures key in old(items) && old(items)[key].generation == seen && Expired(old(items)[key], now)
              ==> Live() == Without(old(Live()), key)
      ensures !(key in old(items) && old(items)[key].generation == seen && Expired(old(items)[key], now))
              ==> unchanged(this)
    {
      if key in items && items[key].generation == seen && Expired(items[key], now) {
        var _ := DeleteLocked(key);
        CompactOrderLocked();
      }
    }

    method Delete(key: K)
      requires Valid()
      modifies this
      ensures Valid()
      ensures Live() == if cfg.validKey(key) then Without(old(Live()), key) else old(Live())
    {
      if !cfg.validKey(key) {
        return;
      }
      var deleted := DeleteLocked(key);
      if deleted {
        CompactOrderLocked();
      }
    }

    method SetWithTtl(value: V, ttl: int, now: int) returns (result: SetResult)
      requires Valid()
      modifies this
      ensures Valid()
      ensures result == Admission(cfg, old(items), value)
      ensures result != Stored ==> unchanged(this)
      ensures result == Stored ==>
        var key := cfg.keyOf(value);
        var entry := Entry(value, ExpiresAt(cfg, ttl, now), SizeOf(cfg, value), old(generation) + 1);
        && Live() == Written(old(Live()), Cell(key, entry), cfg.maxEntries, cfg.maxBytes)
        && key in items && items[key] == entry
    {
      result := Admission(cfg, items, value);
      if result != Stored {
        return;
      }
      Insert(cfg.keyOf(value), Entry(value, ExpiresAt(cfg, ttl, now), SizeOf(cfg, value), generation + 1));
    }

    /** An admitted write: store, evict, compact. */
    method Insert(key: K, entry: Entry<V>)
      requires Valid() && entry.generation == generation + 1 && (cfg.maxBytes == 0 || entry.size <= cfg.maxBytes)
      modifies this
      ensures Valid()
      ensures Live() == Written(old(Live()), Cell(key, entry), cfg.maxEntries, cfg.maxBytes)
      ensures key in items && items[key] == entry
    {
      ghost var queue := Live();
      CellsAre(items, order[hand..], generation);
      StoreLocked(key, entry);
      WrittenIsNewest(queue, Cell(key, entry), cfg.maxEntries, cfg.maxBytes);
      var rebuilt := EvictLocked();
      CompactOrderLocked();
      StoredCell(Cell(key, entry));
    }

    /** A live cell is stored. */
    lemma StoredCell(cell: Cell<K, V>)
      requires Sound() && cell in Live()
      ensures cell.key in items && items[cell.key] == cell.entry
    {
      CellsAre(items, order[hand..], generation);
    }

    /** What is stored is live, once. */
    lemma LiveCell(key: K)
      requires Sound() && key in items
      ensures Cell(key, items[key]) in Live()
      ensures forall c | c in Live() && c.key == key :: c.entry == items[key]
    {
      QueueHoldsItems(items, order[hand..], generation);
      CellsAre(items, order[hand..], generation);
    }

    /** Stores the entry and appends its clock record. */
    method StoreLocked(key: K, entry: Entry<V>)
      requires Sound() && entry.generation == generation + 1
      modifies this`items, this`order, this`entries, this`bytes, this`generation
      ensures Sound() && Live() == Without(old(Live()), key) + [Cell(key, entry)]
    {
      ghost var i, o, g, e, b := items, order, generation, entries, bytes;
      CountEntry(key, entry);
      items, order, generation := items[key := entry], order + [Slot(key, generation + 1)], generation + 1;
      StoredAgrees(i, o, hand, g, e, b, key, entry, items, order, entries, bytes);
    }

    /** Brings the counters up to date for a write of the key. */
    method CountEntry(key: K, entry: Entry<V>)
      modifies this`entries, this`bytes
      ensures entries == if key in items then old(entries) else old(entries) + 1
      ensures bytes == old(bytes) + entry.size - if key in items then items[key].size else 0
    {
      if key in items {
        bytes := bytes + entry.size - items[key].size;
      } else {
        entries := entries + 1;
        bytes := bytes + entry.size;
      }
    }

    method DeleteLocked(key: K) returns (deleted: bool)
      requires Sound()
      modifies this
      ensures Sound() && deleted == (key in old(items))
      ensures Live() == Without(old(Live()), key)
      ensures order == old(order) && hand == old(hand) && generation == old(generation) && evictions == old(evictions)
      ensures !deleted ==> unchanged(this)
      ensures entries <= old(entries) && bytes <= old(bytes)
    {
      RemoveKeeps(items, order[hand..], generation, entries, bytes, key);
      deleted := key in items;
      if !deleted {
        assert items - {key} == items;
        return;
      }
      entries := entries - 1;
      bytes := bytes - items[key].size;
      items := items - {key};
    }

    /**
     Advances the hand over the clock, evicting the oldest live keys until the limits hold.
     `rebuilt` reports the branch that refills the clock from the map: it is never taken.
     */
    method EvictLocked() returns (rebuilt: bool)
      requires Sound()
      modifies this
      ensures Sound() && !rebuilt
      ensures Live() == Evict(old(Live()), cfg.maxEntries, cfg.maxBytes)
      ensures !QueueOver(Live(), cfg.maxEntries, cfg.maxBytes)
      ensures evictions == old(evictions) + |old(Live())| - |Live()|
      ensures generation == old(generation)
    {
      rebuilt := false;
      while Over(entries, bytes, cfg.maxEntries, cfg.maxBytes)
        invariant Sound() && !rebuilt && generation == old(generation)
        invariant |Live()| <= |old(Live())| && evictions == old(evictions) + |old(Live())| - |Live()|
        invariant Evict(Live(), cfg.maxEntries, cfg.maxBytes) == Evict(old(Live()), cfg.maxEntries, cfg.maxBytes)
        decreases |order| - hand
      {
        OverIsQueueOver(items, order[hand..], generation, entries, bytes, cfg.maxEntries, cfg.maxBytes);
        if hand >= |order| {
          rebuilt := true;
          break;
        }
        PassHand();
      }
      OverIsQueueOver(items, order[hand..], generation, entries, bytes, cfg.maxEntries, cfg.maxBytes);
      if hand > 1024 && hand * 2 > |order| {
        order, hand := order[hand..], 0;
        assert order[0..] == order;
      }
    }

    /** Moves the hand over one record; a current record loses its key, the oldest of the queue. */
    method PassHand()
      requires Sound() && hand < |order|
      modifies this`items, this`entries, this`bytes, this`evictions, this`hand
      ensures Sound() && hand == old(hand) + 1
      ensures if evictions == old(evictions) then Live() == old(Live())
              else evictions == old(evictions) + 1 && old(Live()) != [] && Live() == old(Live())[1..]
    {
      var candidate := order[hand];
      if candidate.key !in items || items[candidate.key].generation != candidate.generation {
        SkipHead();
        return;
      }
      EvictHead();
    }

    /** Passes a record that is no longer current. */
    method SkipHead()
      requires Sound() && hand < |order| && !Current(items, order[hand])
      modifies this`hand
      ensures Sound() && hand == old(hand) + 1 && Live() == old(Live())
    {
      ghost var slots := order[hand..];
      assert slots[0] == order[hand] && slots[1..] == order[hand + 1..];
      SkipKeeps(items, slots, generation, entries, bytes);
      hand := hand + 1;
    }

    /** Passes a current record and removes its key. */
    method EvictHead()
      requires Sound() && hand < |order| && Current(items, order[hand])
      modifies this`items, this`entries, this`bytes, this`evictions, this`hand
      ensures Sound() && hand == old(hand) + 1 && evictions == old(evictions) + 1
      ensures old(Live()) != [] && Live() == old(Live())[1..]
    {
      ghost var slots := order[hand..];
      assert slots[0] == order[hand] && slots[1..] == order[hand + 1..];
      EvictHeadKeeps(items, slots, generation, entries, bytes);
      var key := order[hand].key;
      entries := entries - 1;
      bytes := bytes - items[key].size;
      items := items - {key};
      hand, evictions := hand + 1, evictions + 1;
    }

    /** Keeps only the current records once the clock outgrows the live keys. */
    method CompactOrderLocked()
      requires Sound()
      modifies this`order, this`hand
      ensures Sound() && Live() == old(Live())
      ensures |order| - hand <= 2 * entries + SLACK
    {
      if |order| - hand <= 2 * entries + SLACK {
        return;
      }
      ghost var slots := order[hand..];
      var kept := MoveCurrent();
      order, hand := order[..kept], 0;
      assert order[0..] == order;
      CompactKeeps(items, slots, generation, entries, bytes);
    }

    /** Moves the current records behind the hand to the front of the clock, in order. */
    method MoveCurrent() returns (kept: nat)
      requires hand <= |order|
      modifies this`order
      ensures kept <= |order| && order[..kept] == CurrentSlots(items, old(order)[hand..])
    {
      kept := 0;
      for i := hand to |order|
        invariant kept <= i - hand && |order| == |old(order)|
        invariant order[i..] == old(order)[i..]
        invariant order[..kept] == CurrentSlots(items, old(order)[hand..i])
      {
        var slot := order[i];
        MoveStep(items, order, old(order), hand, i, kept);
        if slot.key in items && items[slot.key].generation == slot.generation {
          order := order[kept := slot];
          kept := kept + 1;
        }
      }
      assert old(order)[hand..|old(order)|] == old(order)[hand..];
    }
  }

  /**
   A stored value is a hit for exactly its time to live: the given one, or the default for 0, and for ever when
   that is not positive.
   */
  method SetThenGet<K(==), V>(shard: Shard<K, V>, value: V, ttl: int, now: nat, later: int)
    returns (result: SetResult, found: Option<V>)
    requires shard.Valid()
    modifies shard
    ensures shard.Valid()
    ensures result == Stored ==>
              var effective := if ttl == 0 then shard.cfg.defaultTtl else ttl;
              found == if effective <= 0 || later < now + effective then Some(value) else None
  {
    result := shard.SetWithTtl(value, ttl, now);
    var key := shard.cfg.keyOf(value);
    if result == Stored {
      shard.LiveCell(key);
    }
    var expired;
    found, expired := shard.Get(key, later);
    if found.Some? && result == Stored {
      ghost var c :| c in shard.Live() && c.key == key && c.entry.value == found.value;
      shard.StoredCell(c);
    }
  }
}
