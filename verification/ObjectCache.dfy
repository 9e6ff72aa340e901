/** The object cache: its memory accounts, its references, and eviction (cache.c). */
module ObjectCache {
  import opened Bytes

  type Oid = nat

  datatype Flags = Raw | Parsed

  // Kinds of objects.
  const COMMIT := 1
  const TREE := 2
  const TAG := 4

  /** A cached object; each holder, and the cache if it stores it, counts one reference. */
  class Obj {
    const oid: Oid
    const kind: nat
    const size: nat
    var flags: Flags
    var refcount: nat

    constructor (oid: Oid, kind: nat, size: nat, flags: Flags)
      ensures this.oid == oid && this.kind == kind && this.size == size && this.flags == flags && refcount == 0
    {
      this.oid, this.kind, this.size, this.flags, refcount := oid, kind, size, flags, 0;
    }
  }

  /** What all caches share. */
  class Globals {
    var enabled: bool
    var maxStorage: int
    var current: int
    var maxObjectSize: seq<nat>

    constructor ()
      ensures enabled && maxStorage == 256 * 1024 * 1024 && current == 0
      ensures maxObjectSize == [0, 4096, 4096, 0, 4096, 0, 0, 0]
    {
      enabled, maxStorage, current := true, 256 * 1024 * 1024, 0;
      maxObjectSize := [0, 4096, 4096, 0, 4096, 0, 0, 0];
    }
  }

  // ---- Sizes ----------------------------------------------------------------

  ghost function Total(m: map<Oid, Obj>): nat
    decreases |m|
  {
    if m == map[] then 0
    else
      var k :| k in m;
      m[k].size + Total(m - {k})
  }

  lemma {:induction false} TotalWithout(m: map<Oid, Obj>, k: Oid)
    requires k in m
    ensures Total(m) == m[k].size + Total(m - {k})
    decreases |m|
  {
    var j :| j in m && Total(m) == m[j].size + Total(m - {j});
    if j != k {
      TotalWithout(m - {j}, k);
      TotalWithout(m - {k}, j);
      assert m - {j} - {k} == m - {k} - {j};
    }
  }

  lemma TotalOfNone()
    ensures Total(map[]) == 0
  {
  }

  lemma TotalWith(m: map<Oid, Obj>, k: Oid, o: Obj)
    ensures k !in m ==> Total(m[k := o]) == Total(m) + o.size
    ensures k in m ==> Total(m[k := o]) == Total(m) - m[k].size + o.size
  {
    TotalWithout(m[k := o], k);
    assert m[k := o] - {k} == m - {k};
    if k in m {
      TotalWithout(m, k);
    } else {
      assert m - {k} == m;
    }
  }

  // ---- The cache ------------------------------------------------------------

  class Cache {
    const globals: Globals
    var entries: map<Oid, Obj>
    var used: int

    // Whether the cache stores this very object.
    ghost predicate Stores(o: Obj)
      reads this`entries
    {
      o.oid in entries && entries[o.oid] == o
    }

    // What is stored is filed under its id and is among the objects at hand.
    ghost predicate Filed(all: set<Obj>)
      reads this`entries
    {
      forall k :: k in entries ==> entries[k].oid == k && entries[k] in all
    }

    // The references to an object that are not the cache's own.
    ghost function Held(o: Obj): int
      reads this`entries, o`refcount
    {
      o.refcount - if Stores(o) then 1 else 0
    }

    // The accounts are right, and every object has the cache's reference if the cache stores it.
    ghost predicate Valid(all: set<Obj>)
      reads this, all`refcount
    {
      && Filed(all) && used == Total(entries)
      && forall o :: o in all ==> Held(o) >= 0
    }

    constructor (globals: Globals, ghost all: set<Obj>)
      ensures Valid(all) && this.globals == globals && entries == map[]
    {
      this.globals, entries, used := globals, map[], 0;
    }

    method Clear(ghost all: set<Obj>)
      requires Valid(all)
      modifies this`entries, this`used, globals`current, all`refcount
      ensures Valid(all) && entries == map[]
      ensures globals.current - used == old(globals.current - used)
      ensures forall o :: o in all ==> Held(o) == old(Held(o))
    {
      hide Total;
      TotalOfNone();
      if |entries| == 0 {
        return;
      }
      var rest := entries;
      while rest != map[]
        modifies all`refcount
        invariant forall k :: k in rest ==> k in entries && rest[k] == entries[k]
        invariant forall o :: o in all ==>
          o.refcount == old(Held(o)) + if Stores(o) && o.oid in rest then 1 else 0
        decreases |rest|
      {
        var k :| k in rest;
        rest[k].refcount := rest[k].refcount - 1;
        rest := rest - {k};
      }
      entries := map[];
      globals.current := globals.current - used;
      used := 0;
    }

    // The keys of the table, each in one bucket.
    ghost predicate LaidOut(slots: seq<Option<Oid>>)
      reads this`entries
    {
      && (forall k :: k in entries ==> Some(k) in slots)
      && (forall i, j :: 0 <= i < j < |slots| && slots[i].Some? ==> slots[i] != slots[j])
    }

    // Takes an entry out of the table; its memory is accounted for later.
    method Evict(k: Oid, ghost slots: seq<Option<Oid>>, ghost all: set<Obj>) returns (size: nat)
      requires k in entries && Filed(all) && LaidOut(slots) && Held(entries[k]) >= 0
      modifies this`entries, all`refcount
      ensures entries == old(entries) - {k} && size == old(entries)[k].size
      ensures |entries| == |old(entries)| - 1 && LaidOut(slots)
      ensures Total(old(entries)) == Total(entries) + size
      ensures Filed(all) && forall o :: o in all ==> Held(o) == old(Held(o))
    {
      var evict := entries[k];
      TotalWithout(entries, k);
      hide Total;
      evict.refcount := evict.refcount - 1;
      assert (entries - {k}).Keys == entries.Keys - {k};
      entries := entries - {k};
      size := evict.size;
    }

    // How far on from `pos` the bucket `target` lies, going round.
    ghost function Distance(pos: nat, target: nat, n: nat): nat
      requires pos < n && target < n
    {
      if pos <= target then target - pos else target + n - pos
    }

    ghost function SlotOf(slots: seq<Option<Oid>>): (i: nat)
      requires entries != map[] && LaidOut(slots)
      reads this`entries
      ensures i < |slots| && slots[i].Some? && slots[i].value in entries
    {
      var k :| k in entries;
      var i :| 0 <= i < |slots| && slots[i] == Some(k);
      i
    }

    // The first entry found going round the buckets from `start`, and the bucket after it.
    method NextEntry(slots: seq<Option<Oid>>, start: nat) returns (k: Oid, pos: nat)
      requires entries != map[] && LaidOut(slots) && start < |slots|
      ensures k in entries && pos < |slots|
    {
      pos := start;
      ghost var target := SlotOf(slots);
      while true
        invariant pos < |slots|
        decreases Distance(pos, target, |slots|)
      {
        var slot := slots[pos];
        pos := if pos + 1 == |slots| then 0 else pos + 1;
        if slot.Some? && slot.value in entries {
          return slot.value, pos;
        }
      }
    }

    // Takes out `count` entries, going round the buckets from `seed`.
    method EvictSome(count: nat, seed: nat, slots: seq<Option<Oid>>, ghost all: set<Obj>) returns (evicted: nat)
      requires 0 < count <= |entries| && Filed(all) && LaidOut(slots)
      requires forall o :: o in all ==> Held(o) >= 0
      modifies this`entries, all`refcount
      ensures entries.Keys <= old(entries).Keys && |entries| == |old(entries)| - count
      ensures forall k :: k in entries ==> entries[k] == old(entries)[k]
      ensures Filed(all) && Total(old(entries)) == Total(entries) + evicted
      ensures forall o :: o in all ==> Held(o) == old(Held(o))
    {
      hide Total, Held, LaidOut;
      evicted := 0;
      var left := count;
      ghost var some := SlotOf(slots);
      var pos: nat := seed % |slots|;
      while left > 0
        invariant left <= |entries| && |entries| == |old(entries)| - count + left
        invariant entries.Keys <= old(entries).Keys
        invariant forall k :: k in entries ==> entries[k] == old(entries)[k]
        invariant Filed(all) && LaidOut(slots) && pos < |slots|
        invariant Total(old(entries)) == Total(entries) + evicted
        invariant forall o :: o in all ==> Held(o) == old(Held(o))
      {
        var k;
        k, pos := NextEntry(slots, pos);
        left := left - 1;
        var size := Evict(k, slots, all);
        evicted := evicted + size;
      }
    }

    /** Evicts eight entries, going round the buckets from a random one, or clears a smaller table. */
    method EvictEntries(seed: nat, slots: seq<Option<Oid>>, ghost all: set<Obj>)
      requires Valid(all) && LaidOut(slots)
      modifies this`entries, this`used, globals`current, all`refcount
      ensures Valid(all) && entries.Keys <= old(entries).Keys
      ensures forall k :: k in entries ==> entries[k] == old(entries)[k]
      ensures |entries| == if |old(entries)| < 8 then 0 else |old(entries)| - 8
      ensures globals.current - used == old(globals.current - used)
      ensures forall o :: o in all ==> Held(o) == old(Held(o))
    {
      hide Total, Held;
      var evictCount := 8;
      if evictCount > |entries| {
        Clear(all);
        return;
      }
      var evicted := EvictSome(evictCount, seed, slots, all);
      used := used - evicted;
      globals.current := globals.current - evicted;
    }

    ghost predicate Wanted(o: Obj)
      requires o.kind < |globals.maxObjectSize|
      reads globals
    {
      globals.enabled && o.size < globals.maxObjectSize[o.kind]
    }

    method Get(oid: Oid, flags: Option<Flags>, ghost all: set<Obj>) returns (r: Option<Obj>)
      requires Valid(all)
      modifies all`refcount
      ensures Valid(all)
      ensures r == (if globals.enabled && oid in entries && (flags.None? || flags.value == entries[oid].flags)
                    then Some(entries[oid]) else None)
      ensures forall o :: o in all ==> Held(o) == old(Held(o)) + if r == Some(o) then 1 else 0
    {
      r := None;
      if globals.enabled && oid in entries {
        var entry := entries[oid];
        if flags.None? || entry.flags == flags.value {
          entry.refcount := entry.refcount + 1;
          r := Some(entry);
        }
      }
    }

    // Files an object under an id that is not taken.
    method PutNew(entry: Obj, ghost all: set<Obj>)
      requires Filed(all) && used == Total(entries) && entry in all && entry.oid !in entries
      requires forall o :: o in all ==> Held(o) >= 0
      modifies this`entries, this`used, globals`current, entry`refcount
      ensures Valid(all) && entries == old(entries)[entry.oid := entry]
      ensures globals.current - used == old(globals.current - used)
      ensures forall o :: o in all ==> Held(o) == old(Held(o))
    {
      hide Total;
      TotalWith(entries, entry.oid, entry);
      entries := entries[entry.oid := entry];
      entry.refcount := entry.refcount + 1;
      used := used + entry.size;
      globals.current := globals.current + entry.size;
    }

    // Files an object in the place of one of the same id and size.
    method PutOver(stored: Obj, entry: Obj, ghost all: set<Obj>)
      requires Filed(all) && used == Total(entries) && entry in all && stored != entry
      requires entry.oid in entries && entries[entry.oid] == stored && stored.size == entry.size
      requires forall o :: o in all ==> Held(o) >= 0
      modifies this`entries, entry`refcount, stored`refcount
      ensures Valid(all) && entries == old(entries)[entry.oid := entry]
      ensures forall o :: o in all ==> Held(o) == old(Held(o))
    {
      hide Total;
      TotalWith(entries, entry.oid, entry);
      stored.refcount := stored.refcount - 1;
      entry.refcount := entry.refcount + 1;
      entries := entries[entry.oid := entry];
    }

    // Files an object that the caller has counted already; the one the caller is to use comes back.
    method Put(entry: Obj, ghost all: set<Obj>) returns (r: Obj)
      requires Filed(all) && used == Total(entries) && entry in all
      requires forall o :: o in all ==> Held(o) >= 0
      requires Held(entry) >= 1
      requires forall o :: o in all && o.oid == entry.oid ==> o.size == entry.size
      modifies this`entries, this`used, globals`current, all`refcount
      ensures Valid(all)
      ensures globals.current - used == old(globals.current - used)
      ensures entries.Keys == old(entries).Keys + {entry.oid}
      ensures forall k :: k in entries && k != entry.oid ==> entries[k] == old(entries)[k]
      ensures if entry.oid in old(entries) && (entry.flags == Raw || old(entries)[entry.oid].flags == Parsed)
              then entries[entry.oid] == old(entries)[entry.oid] else entries[entry.oid] == entry
      ensures r == if entries[entry.oid].flags == entry.flags then entries[entry.oid] else entry
      ensures forall o :: o in all ==>
                Held(o) == old(Held(o)) + (if o == r then 1 else 0) - (if o == entry then 1 else 0)
    {
      hide Total;
      r := entry;
      if entry.oid !in entries {
        PutNew(entry, all);
      } else {
        var stored := entries[entry.oid];
        if stored.flags == entry.flags {
          entry.refcount := entry.refcount - 1;
          stored.refcount := stored.refcount + 1;
          r := stored;
        } else if stored.flags == Raw && entry.flags == Parsed {
          PutOver(stored, entry, all);
        }
      }
    }

    // Softens the load on the cache first.
    method MakeRoomAndPut(entry: Obj, seed: nat, slots: seq<Option<Oid>>, ghost all: set<Obj>) returns (r: Obj)
      requires Valid(all) && LaidOut(slots) && entry in all && Held(entry) >= 1
      requires forall o :: o in all && o.oid == entry.oid ==> o.size == entry.size
      modifies this`entries, this`used, globals`current, all`refcount
      ensures Valid(all)
      ensures globals.current - used == old(globals.current - used)
      ensures entry.oid in entries && r == if entries[entry.oid].flags == entry.flags then entries[entry.oid] else entry
      ensures entries.Keys <= old(entries).Keys + {entry.oid}
      ensures forall k :: k in entries && k != entry.oid ==> entries[k] == old(entries)[k]
      ensures old(globals.current) <= globals.maxStorage ==> entries.Keys == old(entries).Keys + {entry.oid}
      ensures old(globals.current) > globals.maxStorage ==>
                |entries| <= 1 + if |old(entries)| < 8 then 0 else |old(entries)| - 8
      ensures forall o :: o in all ==>
                Held(o) == old(Held(o)) + (if o == r then 1 else 0) - (if o == entry then 1 else 0)
    {
      hide Total, Held;
      if globals.current > globals.maxStorage {
        EvictEntries(seed, slots, all);
      }
      ghost var kept := entries;
      r := Put(entry, all);
      assert |kept.Keys + {entry.oid}| <= |kept.Keys| + 1;
    }

    // Gives the caller a reference.
    method Hold(entry: Obj, ghost all: set<Obj>)
      requires Valid(all) && entry in all
      modifies entry`refcount
      ensures Valid(all)
      ensures Held(entry) >= 1 && forall o :: o in all ==> Held(o) == old(Held(o)) + if o == entry then 1 else 0
    {
      hide Total;
      entry.refcount := entry.refcount + 1;
    }

    /** Stores an object: accounts stay right, and the caller gains one reference to what comes back, and no other. */
    method Store(entry: Obj, seed: nat, slots: seq<Option<Oid>>, ghost all: set<Obj>) returns (r: Obj)
      requires Valid(all) && LaidOut(slots) && entry in all && entry.kind < |globals.maxObjectSize|
      requires forall o :: o in all && o.oid == entry.oid ==> o.size == entry.size
      modifies this`entries, this`used, globals`current, all`refcount
      ensures Valid(all)
      ensures globals.current - used == old(globals.current - used)
      ensures Wanted(entry) ==>
                entry.oid in entries && r == if entries[entry.oid].flags == entry.flags then entries[entry.oid] else entry
      ensures Wanted(entry) && old(globals.current) <= globals.maxStorage ==>
                entries.Keys == old(entries).Keys + {entry.oid}
                && forall k :: k in old(entries) && k != entry.oid ==> entries[k] == old(entries)[k]
      ensures Wanted(entry) && old(globals.current) > globals.maxStorage ==>
                |entries| <= 1 + if |old(entries)| < 8 then 0 else |old(entries)| - 8
      ensures !Wanted(entry) ==> r == entry && entries == if !globals.enabled && old(used) > 0 then map[] else old(entries)
      ensures forall o :: o in all ==> Held(o) == old(Held(o)) + if o == r then 1 else 0
    {
      hide Total, Held, LaidOut;
      Hold(entry, all);
      if !globals.enabled && used > 0 {
        Clear(all);
        return entry;
      }
      if !(globals.enabled && entry.size < globals.maxObjectSize[entry.kind]) {
        return entry;
      }
      r := MakeRoomAndPut(entry, seed, slots, all);
    }
  }

  /** As things are set at first, only commits, trees and tags are stored, and only below 4096 bytes. */
  lemma StoredAtFirst(cache: Cache, o: Obj)
    requires cache.globals.enabled && cache.globals.maxObjectSize == [0, 4096, 4096, 0, 4096, 0, 0, 0] && o.kind < 8
    ensures cache.Wanted(o) <==> (o.kind == COMMIT || o.kind == TREE || o.kind == TAG) && o.size < 4096
  {
    var sizes := cache.globals.maxObjectSize;
    assert sizes[0] == 0 && sizes[1] == 4096 && sizes[2] == 4096 && sizes[3] == 0;
    assert sizes[4] == 4096 && sizes[5] == 0 && sizes[6] == 0 && sizes[7] == 0;
  }

  // ---- All caches together --------------------------------------------------

  function Sum(s: seq<int>): int {
    if s == [] then 0 else Sum(s[..|s| - 1]) + s[|s| - 1]
  }

  lemma {:induction false} SumWith(s: seq<int>, i: nat, x: int)
    requires i < |s|
    ensures Sum(s[i := x]) == Sum(s) - s[i] + x
  {
    var n := |s| - 1;
    if i < n {
      SumWith(s[..n], i, x);
      assert s[i := x][..n] == s[..n][i := x];
    } else {
      assert s[i := x][..n] == s[..n];
    }
  }

  ghost function Uses(caches: seq<Cache>): (r: seq<int>)
    reads caches
    ensures |r| == |caches| && forall i :: 0 <= i < |r| ==> r[i] == caches[i].used
  {
    if caches == [] then [] else Uses(caches[..|caches| - 1]) + [caches[|caches| - 1].used]
  }

  /** What a user asks of one of the caches. */
  datatype Call = StoreCall(entry: Obj, seed: nat) | GetCall(oid: Oid, flags: Option<Flags>) | ClearCall | EvictCall(seed: nat)

  // A call that cache `i` can be asked: the object to store is one of its own, of a known kind, and equal ids mean equal sizes.
  ghost predicate Fits(call: Call, all: set<Obj>, kinds: nat) {
    call.StoreCall? ==>
      && call.entry in all && call.entry.kind < kinds
      && forall o :: o in all && o.oid == call.entry.oid ==> o.size == call.entry.size
  }

  // Different caches, which share no object.
  ghost predicate Apart(caches: seq<Cache>, alls: seq<set<Obj>>, globals: Globals) {
    && |caches| == |alls|
    && (forall i :: 0 <= i < |caches| ==> caches[i].globals == globals)
    && (forall i, j :: 0 <= i < j < |caches| ==> caches[i] != caches[j])
    && (forall i, j :: 0 <= i < j < |alls| ==> alls[i] !! alls[j])
  }

  ghost function Objects(alls: seq<set<Obj>>): set<Obj> {
    set i, o | 0 <= i < |alls| && o in alls[i] :: o
  }

  /** The accounts of every cache are right, and the shared counter is the sum of what all of them use. */
  ghost predicate InBalance(caches: seq<Cache>, alls: seq<set<Obj>>, globals: Globals)
    requires |caches| == |alls|
    reads globals, caches, Objects(alls)`refcount
  {
    && (forall i :: 0 <= i < |caches| ==> alls[i] <= Objects(alls) && caches[i].Valid(alls[i]))
    && globals.current == Sum(Uses(caches))
  }

  /** Any call on one cache keeps its accounts right and gives the caller the one reference to what it returns. */
  method Answer(cache: Cache, call: Call, slots: seq<Option<Oid>>, ghost all: set<Obj>) returns (r: Option<Obj>)
    requires cache.Valid(all) && cache.LaidOut(slots) && Fits(call, all, |cache.globals.maxObjectSize|)
    modifies cache`entries, cache`used, cache.globals`current, all`refcount
    ensures cache.Valid(all)
    ensures cache.globals.current - cache.used == old(cache.globals.current - cache.used)
    ensures r.Some? ==> r.value in all
    ensures forall o :: o in all ==> cache.Held(o) == old(cache.Held(o)) + if r == Some(o) then 1 else 0
  {
    hide Total, Cache.Held, Cache.LaidOut;
    r := None;
    match call {
      case StoreCall(entry, seed) =>
        var stored := cache.Store(entry, seed, slots, all);
        r := Some(stored);
      case GetCall(oid, flags) =>
        r := cache.Get(oid, flags, all);
      case ClearCall =>
        cache.Clear(all);
      case EvictCall(seed) =>
        cache.EvictEntries(seed, slots, all);
    }
  }

  /** The same among several caches: the others are not touched, and the shared counter stays their sum. */
  method Perform(cache: Cache, call: Call, slots: seq<Option<Oid>>,
                 ghost globals: Globals, ghost caches: seq<Cache>, ghost alls: seq<set<Obj>>, ghost i: nat)
    returns (r: Option<Obj>)
    requires Apart(caches, alls, globals) && InBalance(caches, alls, globals)
    requires i < |caches| && caches[i] == cache
    requires cache.LaidOut(slots) && Fits(call, alls[i], |globals.maxObjectSize|)
    modifies cache`entries, cache`used, globals`current, alls[i]`refcount
    ensures InBalance(caches, alls, globals)
    ensures r.Some? ==> r.value in alls[i]
    ensures forall o :: o in alls[i] ==> cache.Held(o) == old(cache.Held(o)) + if r == Some(o) then 1 else 0
  {
    hide Cache.Valid, Cache.LaidOut, Cache.Held, Fits, Sum, Uses;
    ghost var before := Uses(caches);
    r := Answer(cache, call, slots, alls[i]);
    forall j | 0 <= j < |caches| ensures caches[j].Valid(alls[j]) && alls[j] <= Objects(alls) {
    }
    SumWith(before, i, cache.used);
    assert Uses(caches) == before[i := cache.used];
  }

  ghost function Members(caches: seq<Cache>): set<Cache> {
    set c | c in caches
  }

  // Every key has one bucket, whenever it is asked for and whatever keys there are.
  ghost predicate IsLayout(layout: (nat, set<Oid>) -> seq<Option<Oid>>) {
    forall n, keys :: Spreads(layout(n, keys), keys)
  }

  ghost predicate Spreads(slots: seq<Option<Oid>>, keys: set<Oid>) {
    && (forall k :: k in keys ==> Some(k) in slots)
    && (forall i, j :: 0 <= i < j < |slots| && slots[i].Some? ==> slots[i] != slots[j])
  }

  // The references that callers were given to an object.
  ghost function Given(results: seq<Option<Obj>>, o: Obj): nat {
    if results == [] then 0
    else Given(results[..|results| - 1], o) + if results[|results| - 1] == Some(o) then 1 else 0
  }

  /**
    Over every run of calls on any number of caches the accounts stay right, the shared counter
    is the sum of what all of them use, and every reference that is not a cache's own was given to a caller.
  */
  method RunCalls(caches: seq<Cache>, calls: seq<(nat, Call)>, layout: (nat, set<Oid>) -> seq<Option<Oid>>,
                  ghost globals: Globals, ghost alls: seq<set<Obj>>)
    returns (results: seq<Option<Obj>>)
    requires Apart(caches, alls, globals) && InBalance(caches, alls, globals) && IsLayout(layout)
    requires forall c :: c in calls ==> c.0 < |caches| && Fits(c.1, alls[c.0], |globals.maxObjectSize|)
    modifies Members(caches)`entries, Members(caches)`used, globals`current, Objects(alls)`refcount
    ensures InBalance(caches, alls, globals)
    ensures |results| == |calls|
    ensures forall i, o :: 0 <= i < |caches| && o in alls[i] ==>
              caches[i].Held(o) == old(caches[i].Held(o)) + Given(results, o)
  {
    hide InBalance, Cache.Held, Fits;
    results := [];
    for n := 0 to |calls|
      invariant |results| == n
      invariant InBalance(caches, alls, globals)
      invariant forall i, o :: 0 <= i < |caches| && o in alls[i] ==>
                  caches[i].Held(o) == old(caches[i].Held(o)) + Given(results, o)
    {
      var (i, call) := calls[n];
      assert calls[n] in calls;
      var cache := caches[i];
      var slots := layout(n, cache.entries.Keys);
      assert Spreads(slots, cache.entries.Keys);
      var r := Perform(cache, call, slots, globals, caches, alls, i);
      ghost var before := results;
      results := results + [r];
      assert results[..n] == before;
    }
  }
}
