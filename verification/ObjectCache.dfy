/**
 The object cache of libgit2 (`cache.c`): a hash table of reference-counted objects with
 memory accounting, RAW-to-PARSED upgrades and random-start eviction. Locking is a matter
 of each operation being one step; the hash table is an array of optional slots.
 */
module ObjectCache {
  import opened Common

  type Oid = seq<byte>

  datatype Flags = Any | Raw | Parsed

  /** `git_cached_obj`. `freed` records that the memory has been given back. */
  class CachedObj {
    const oid: Oid
    const otype: nat
    const size: nat
    var flags: Flags
    var refcount: int
    var freed: bool

    constructor (oid: Oid, otype: nat, size: nat, flags: Flags)
      ensures this.oid == oid && this.otype == otype && this.size == size && this.flags == flags
      ensures refcount == 0 && !freed
    {
      this.oid, this.otype, this.size, this.flags := oid, otype, size, flags;
      refcount, freed := 0, false;
    }

    method Incref()
      modifies this`refcount
      ensures refcount == old(refcount) + 1
    {
      refcount := refcount + 1;
    }

    /** `git_cached_obj_decref`. */
    method Decref()
      modifies this`refcount, this`freed
      ensures refcount == old(refcount) - 1
      ensures freed == (old(freed) || refcount == 0)
    {
      refcount := refcount - 1;
      if refcount == 0 {
        freed := true;
      }
    }
  }

  // ------------------------------------------------------------ the table

  /** The key is a pointer to the oid inside some object, its owner. */
  datatype Slot = Vacant | Occupied(owner: CachedObj, obj: CachedObj)

  function Count(slots: seq<Slot>): (n: nat)
    ensures n <= |slots|
  {
    if slots == [] then 0
    else Count(slots[..|slots| - 1]) + if slots[|slots| - 1].Occupied? then 1 else 0
  }

  function SizeSum(slots: seq<Slot>): nat {
    if slots == [] then 0
    else SizeSum(slots[..|slots| - 1]) + if slots[|slots| - 1].Occupied? then slots[|slots| - 1].obj.size else 0
  }

  function SlotSize(s: Slot): nat {
    if s.Occupied? then s.obj.size else 0
  }

  function SlotCount(s: Slot): nat {
    if s.Occupied? then 1 else 0
  }

  lemma {:induction false} SumsAfterUpdate(slots: seq<Slot>, i: nat, s: Slot)
    requires i < |slots|
    ensures SizeSum(slots[i := s]) == SizeSum(slots) - SlotSize(slots[i]) + SlotSize(s)
    ensures Count(slots[i := s]) == Count(slots) - SlotCount(slots[i]) + SlotCount(s)
  {
    var n := |slots| - 1;
    if i == n {
      assert slots[i := s][..n] == slots[..n];
    } else {
      assert slots[i := s][..n] == slots[..n][i := s];
      SumsAfterUpdate(slots[..n], i, s);
    }
  }

  lemma {:induction false} NoneOccupied(slots: seq<Slot>)
    requires forall i :: 0 <= i < |slots| ==> slots[i].Vacant?
    ensures Count(slots) == 0 && SizeSum(slots) == 0
  {
    if slots != [] {
      NoneOccupied(slots[..|slots| - 1]);
    }
  }

  /** The objects in the table. */
  ghost function Mapped(slots: seq<Slot>): set<CachedObj> {
    set i | 0 <= i < |slots| && slots[i].Occupied? :: slots[i].obj
  }

  /** Every key is the stored entry's own oid and no oid is stored twice. */
  ghost predicate WellKeyed(slots: seq<Slot>) {
    && (forall i :: 0 <= i < |slots| && slots[i].Occupied? ==> slots[i].owner == slots[i].obj)
    && (forall i, j :: 0 <= i < j < |slots| && slots[i].Occupied? && slots[j].Occupied? ==>
          slots[i].obj.oid != slots[j].obj.oid)
  }

  lemma MappedAfterVacating(slots: seq<Slot>, i: nat)
    requires i < |slots| && slots[i].Occupied? && WellKeyed(slots)
    ensures WellKeyed(slots[i := Vacant]) && Mapped(slots[i := Vacant]) == Mapped(slots) - {slots[i].obj}
  {
    var slots' := slots[i := Vacant];
    forall o | o in Mapped(slots) && o != slots[i].obj
      ensures o in Mapped(slots')
    {
      var j :| 0 <= j < |slots| && slots[j].Occupied? && slots[j].obj == o;
      assert slots'[j] == slots[j];
    }
    forall o | o in Mapped(slots')
      ensures o in Mapped(slots) && o != slots[i].obj
    {
      var j :| 0 <= j < |slots'| && slots'[j].Occupied? && slots'[j].obj == o;
      assert slots[j] == slots'[j];
    }
  }

  lemma MappedAfterFilling(slots: seq<Slot>, i: nat, o: CachedObj)
    requires i < |slots| && WellKeyed(slots)
    requires forall j :: 0 <= j < |slots| && j != i && slots[j].Occupied? ==> slots[j].obj.oid != o.oid
    ensures var slots' := slots[i := Occupied(o, o)];
            && WellKeyed(slots')
            && Mapped(slots') == (if slots[i].Occupied? then Mapped(slots) - {slots[i].obj} else Mapped(slots)) + {o}
  {
    var slots' := slots[i := Occupied(o, o)];
    assert slots'[i].obj == o;
    if slots[i].Occupied? {
      MappedAfterVacating(slots, i);
      assert slots' == slots[i := Vacant][i := Occupied(o, o)];
      VacantFilled(slots[i := Vacant], i, o);
    } else {
      VacantFilled(slots, i, o);
    }
  }

  lemma VacantFilled(slots: seq<Slot>, i: nat, o: CachedObj)
    requires i < |slots| && slots[i].Vacant?
    ensures Mapped(slots[i := Occupied(o, o)]) == Mapped(slots) + {o}
  {
    var slots' := slots[i := Occupied(o, o)];
    assert slots'[i].obj == o;
    forall x | x in Mapped(slots)
      ensures x in Mapped(slots')
    {
      var j :| 0 <= j < |slots| && slots[j].Occupied? && slots[j].obj == x;
      assert slots'[j] == slots[j];
    }
    forall x | x in Mapped(slots') && x != o
      ensures x in Mapped(slots)
    {
      var j :| 0 <= j < |slots'| && slots'[j].Occupied? && slots'[j].obj == x;
      assert slots[j] == slots'[j];
    }
  }

  /** One outside reference passed from `from` to `to`. */
  ghost function Transferred(holders: map<CachedObj, nat>, from: CachedObj, to: CachedObj): map<CachedObj, nat>
    requires from in holders && to in holders && holders[from] > 0
  {
    var given := holders[from := holders[from] - 1];
    given[to := given[to] + 1]
  }

  // ---------------------------------------------------- process-wide state

  class Globals {
    var enabled: bool            // git_cache__enabled
    var maxStorage: int          // git_cache__max_storage
    var currentStorage: int      // git_cache__current_storage
    var maxObjectSize: seq<nat>  // by object type

    constructor (enabled: bool, maxStorage: int, maxObjectSize: seq<nat>)
      requires |maxObjectSize| == 8
      ensures this.enabled == enabled && this.maxStorage == maxStorage && this.maxObjectSize == maxObjectSize
      ensures currentStorage == 0
    {
      this.enabled, this.maxStorage, this.maxObjectSize := enabled, maxStorage, maxObjectSize;
      currentStorage := 0;
    }
  }

  // ------------------------------------------------------------- the cache

  class Cache {
    const globals: Globals
    ghost const sizeOf: Oid -> nat  // an object's size depends on its oid alone
    var slots: seq<Slot>
    var usedMemory: int
    ghost var holders: map<CachedObj, nat>  // references held outside the table, for every object
    ghost var seen: set<CachedObj>          // the objects that have been referenced at some time

    /**
     Each object's count is what is held outside plus one if it is in `table`. One that has
     been referenced is freed exactly when no reference is left, so none is leaked.
     */
    ghost predicate Counted(table: seq<Slot>)
      reads this`holders, this`seen, holders.Keys
    {
      && WellKeyed(table) && Mapped(table) <= seen <= holders.Keys
      && forall o :: o in holders ==>
           && o.refcount == holders[o] + (if o in Mapped(table) then 1 else 0)
           && (o.refcount > 0 ==> o in seen)
           && (o.freed <==> o in seen && o.refcount == 0)
           && o.size == sizeOf(o.oid)
    }

    /** Whoever has left the table is freed exactly if nobody else holds it. */
    ghost predicate Disposed(before: set<CachedObj>)
      reads this`slots, this`holders, before
    {
      forall o :: o in before && o !in Mapped(slots) ==> o in holders && (o.freed <==> holders[o] == 0)
    }

    lemma LeaversAreDisposed(before: set<CachedObj>)
      requires Counted(slots) && before <= seen
      ensures Disposed(before)
    {
      hide WellKeyed, Mapped;
    }

    ghost predicate TableSize()
      reads this`slots
    {
      slots == [] || exists k: nat :: k <= 32 && |slots| == Pow2(k)
    }

    ghost predicate Valid()
      reads this, holders.Keys
    {
      Counted(slots) && usedMemory == SizeSum(slots) && TableSize()
    }

    constructor (globals: Globals, ghost sizeOf: Oid -> nat)
      ensures Valid() && this.globals == globals && this.sizeOf == sizeOf
      ensures holders == map[] && seen == {} && slots == []
    {
      this.globals, this.sizeOf := globals, sizeOf;
      slots, usedMemory, holders, seen := [], 0, map[], {};
    }

    /** What makes mapped objects safe to use. */
    lemma MappedIsAlive(o: CachedObj)
      requires Valid() && o in Mapped(slots)
      ensures o in holders && !o.freed && o.refcount >= 1
    {
    }

    /** An object read from the object database, not yet referenced by anyone. */
    method NewObject(oid: Oid, otype: nat, size: nat, flags: Flags) returns (o: CachedObj)
      requires Valid() && size == sizeOf(oid)
      modifies this`holders
      ensures Valid() && fresh(o) && holders == old(holders)[o := 0]
      ensures o.oid == oid && o.otype == otype && o.size == size && o.flags == flags && !o.freed
    {
      hide WellKeyed, SizeSum, Count;
      o := new CachedObj(oid, otype, size, flags);
      holders := holders[o := 0];
    }

    /** A reference for someone outside. */
    method Hold(o: CachedObj)
      requires Counted(slots) && o in holders && !o.freed
      modifies this`holders, this`seen, o`refcount
      ensures Counted(slots) && holders == old(holders)[o := old(holders)[o] + 1] && seen == old(seen) + {o}
    {
      hide WellKeyed, Mapped;
      o.Incref();
      holders := holders[o := holders[o] + 1];
      seen := seen + {o};
    }

    /** A reference given back by someone outside; the last one frees the object. */
    method Release(o: CachedObj)
      requires Counted(slots) && o in holders && holders[o] > 0
      modifies this`holders, o`refcount, o`freed
      ensures Counted(slots) && holders == old(holders)[o := old(holders)[o] - 1]
      ensures o.freed <==> holders[o] == 0 && o !in Mapped(slots)
    {
      hide WellKeyed, Mapped;
      o.Decref();
      holders := holders[o := holders[o] - 1];
    }

    /** The table's reference given back, seen with slot `i` of `table` vacated. */
    method DropMapped(o: CachedObj, ghost table: seq<Slot>, ghost i: nat)
      requires Counted(table) && i < |table| && table[i].Occupied? && table[i].obj == o
      modifies o`refcount, o`freed
      ensures Counted(table[i := Vacant])
      ensures o.freed <==> holders[o] == 0
    {
      MappedAfterVacating(table, i);
      hide WellKeyed;
      assert o in Mapped(table);
      o.Decref();
    }

    /** `clear_cache`. */
    method Clear()
      requires Valid()
      modifies this`slots, this`usedMemory, globals`currentStorage, holders.Keys
      ensures Valid() && Count(slots) == 0 && usedMemory == 0 && |slots| == |old(slots)|
      ensures Mapped(slots) == {} && Disposed(old(Mapped(slots)))
      ensures globals.currentStorage == old(globals.currentStorage) - old(usedMemory)
    {
      hide WellKeyed, Mapped;
      ghost var before := Mapped(slots);
      if Count(slots) == 0 {
        EmptyHasNoSize(slots);
        NothingMapped(slots);
        return;
      }
      DropAll();
      NoneOccupied(slots);
      NothingMapped(slots);
      LeaversAreDisposed(before);
      globals.currentStorage := globals.currentStorage - usedMemory;
      usedMemory := 0;
    }

    /** Gives back every reference of the table, then empties it. */
    method DropAll()
      requires Counted(slots)
      modifies this`slots, holders.Keys
      ensures Counted(slots) && |slots| == |old(slots)|
      ensures forall i :: 0 <= i < |slots| ==> slots[i].Vacant?
    {
      hide Counted;
      ghost var table := slots;
      for i := 0 to |slots|
        invariant slots == old(slots) && |table| == |slots| && Counted(table)
        invariant forall j :: 0 <= j < i ==> table[j].Vacant?
        invariant forall j :: i <= j < |slots| ==> table[j] == slots[j]
      {
        if slots[i].Occupied? {
          SlotIsKnown(table, i);
          DropMapped(slots[i].obj, table, i);
          table := table[i := Vacant];
        }
      }
      slots := seq(|slots|, _ => Vacant);
      assert slots == table;
    }

    lemma OneObjectOfAnOid(table: seq<Slot>, i: nat)
      requires WellKeyed(table) && i < |table| && table[i].Occupied?
      ensures table[i].owner == table[i].obj
      ensures forall o :: o in Mapped(table) && o.oid == table[i].obj.oid ==> o == table[i].obj
    {
    }

    lemma SlotIsKnown(table: seq<Slot>, i: nat)
      requires Counted(table) && i < |table| && table[i].Occupied?
      ensures !table[i].obj.freed && table[i].obj in seen
      ensures table[i].obj in holders && table[i].obj in Mapped(table)
      ensures table[i].obj.refcount == holders[table[i].obj] + 1
    {
    }

    /** `cache_evict_entries`: with at least eight entries exactly eight go, else all. */
    method Evict(rand: nat)
      requires Valid() && rand < 0x1_0000_0000
      modifies this`slots, this`usedMemory, globals`currentStorage, holders.Keys
      ensures Valid() && Mapped(slots) <= old(Mapped(slots)) && |slots| == |old(slots)|
      ensures Disposed(old(Mapped(slots)))
      ensures Count(slots) == if old(Count(slots)) >= 8 then old(Count(slots)) - 8 else 0
      ensures globals.currentStorage == old(globals.currentStorage) - (old(usedMemory) - usedMemory)
    {
      hide WellKeyed, Mapped;
      var evictCount := 8;
      if evictCount > Count(slots) {
        Clear();
        return;
      }
      var evictedMemory := EvictFrom(rand, evictCount);
      usedMemory := usedMemory - evictedMemory;
      globals.currentStorage := globals.currentStorage - evictedMemory;
    }

    /** The probing loop: every slot comes up in turn, the seed wrapping at 2^32. */
    method EvictFrom(rand: nat, count: nat) returns (evictedMemory: int)
      requires Counted(slots) && TableSize() && rand < 0x1_0000_0000 && count <= Count(slots)
      modifies this`slots, holders.Keys
      ensures Counted(slots) && TableSize() && |slots| == |old(slots)| && Mapped(slots) <= old(Mapped(slots))
      ensures Disposed(old(Mapped(slots)))
      ensures Count(slots) == old(Count(slots)) - count
      ensures SizeSum(slots) == old(SizeSum(slots)) - evictedMemory
    {
      hide Counted, Mapped, Pow2;
      ghost var before := Mapped(slots);
      MappedAreSeen(slots);
      var seed := rand;
      var evictCount := count;
      evictedMemory := 0;
      while evictCount > 0
        invariant Counted(slots) && TableSize() && |slots| == |old(slots)| && Mapped(slots) <= old(Mapped(slots))
        invariant 0 <= seed < 0x1_0000_0000 && 0 <= evictCount <= count
        invariant Count(slots) == old(Count(slots)) - (count - evictCount)
        invariant SizeSum(slots) == old(SizeSum(slots)) - evictedMemory
        decreases evictCount, if Count(slots) > 0 then Gap(slots, seed) else 0
      {
        var pos := seed % |slots|;
        ghost var k: nat :| k <= 32 && |slots| == Pow2(k);
        if slots[pos].Vacant? {
          GapShrinks(slots, seed, k);
        }
        seed := (seed + 1) % 0x1_0000_0000;
        if slots[pos].Occupied? {
          evictCount := evictCount - 1;
          evictedMemory := evictedMemory + slots[pos].obj.size;
          SlotIsKnown(slots, pos);
          Vacate(pos);
        }
      }
      LeaversAreDisposed(before);
    }

    lemma MappedAreSeen(table: seq<Slot>)
      requires Counted(table)
      ensures Mapped(table) <= seen
    {
    }

    /** Gives back the reference of one slot and empties the slot. */
    method Vacate(pos: nat)
      requires Counted(slots) && pos < |slots| && slots[pos].Occupied?
      modifies this`slots, slots[pos].obj`refcount, slots[pos].obj`freed
      ensures Counted(slots) && slots == old(slots)[pos := Vacant] && Mapped(slots) <= old(Mapped(slots))
      ensures Count(slots) == old(Count(slots)) - 1
      ensures SizeSum(slots) == old(SizeSum(slots)) - old(slots)[pos].obj.size
    {
      hide Counted;
      SumsAfterUpdate(slots, pos, Vacant);
      assert WellKeyed(slots) by { CountedIsKeyed(slots); }
      MappedAfterVacating(slots, pos);
      DropMapped(slots[pos].obj, slots, pos);
      slots := slots[pos := Vacant];
    }

    /** `kh_get`: the slot holding `oid`, or `kh_end`. */
    method Find(oid: Oid) returns (pos: nat)
      ensures pos <= |slots|
      ensures pos < |slots| ==> slots[pos].Occupied? && slots[pos].owner.oid == oid
      ensures pos == |slots| ==> forall i :: 0 <= i < |slots| && slots[i].Occupied? ==> slots[i].owner.oid != oid
    {
      pos := 0;
      while pos < |slots|
        invariant pos <= |slots|
        invariant forall i :: 0 <= i < pos && slots[i].Occupied? ==> slots[i].owner.oid != oid
      {
        if slots[pos].Occupied? && slots[pos].owner.oid == oid {
          return;
        }
        pos := pos + 1;
      }
    }

    /** `kh_put`: some vacant slot, in a table that may have been enlarged for it. */
    method FindVacant() returns (pos: nat)
      requires Counted(slots) && TableSize() && |slots| <= 0x8000_0000
      modifies this`slots
      ensures Counted(slots) && TableSize() && pos < |slots| && slots[pos].Vacant?
      ensures Mapped(slots) == Mapped(old(slots)) && SizeSum(slots) == SizeSum(old(slots))
      ensures Count(slots) == Count(old(slots)) && old(slots) <= slots
    {
      hide Counted, Mapped;
      var grow: bool :| Count(slots) == |slots| ==> grow;
      if grow {
        Grow();
      }
      pos := 0;
      assert slots[..0] == [];
      while slots[pos].Occupied?
        invariant pos < |slots| && Count(slots[..pos]) == pos
        decreases |slots| - pos
      {
        assert slots[..pos + 1][..pos] == slots[..pos];
        assert slots[..|slots|] == slots;
        pos := pos + 1;
      }
    }

    /** Doubles the table, from four slots on. */
    method Grow()
      requires Counted(slots) && TableSize() && |slots| <= 0x8000_0000
      modifies this`slots
      ensures Counted(slots) && TableSize() && |old(slots)| < |slots|
      ensures Mapped(slots) == Mapped(old(slots)) && SizeSum(slots) == SizeSum(old(slots))
      ensures Count(slots) == Count(old(slots)) && old(slots) <= slots
    {
      var extra := if slots == [] then 4 else |slots|;
      VacanciesCountNothing(slots, extra);
      LargerTable(extra);
      slots := slots + seq(extra, _ => Vacant);
    }

    lemma LargerTable(extra: nat)
      requires TableSize() && |slots| <= 0x8000_0000 && extra == if slots == [] then 4 else |slots|
      ensures exists k: nat :: k <= 32 && |slots| + extra == Pow2(k)
    {
      if slots == [] {
        assert Pow2(2) == 4;
      } else {
        var k: nat :| k <= 32 && |slots| == Pow2(k);
        Pow2Of32();
        assert k < 32;
        assert Pow2(k + 1) == |slots| + extra;
      }
    }

    /** Stores an object in a slot whose former reference has been dropped. */
    method MapAt(pos: nat, o: CachedObj)
      requires pos < |slots| && Counted(slots[pos := Vacant]) && o in seen && !o.freed
      requires forall j :: 0 <= j < |slots| && j != pos && slots[j].Occupied? ==> slots[j].obj.oid != o.oid
      modifies this`slots, o`refcount
      ensures Counted(slots) && slots == old(slots)[pos := Occupied(o, o)]
      ensures Mapped(slots) == Mapped(old(slots)[pos := Vacant]) + {o}
    {
      var vacated := slots[pos := Vacant];
      assert slots[pos := Occupied(o, o)] == vacated[pos := Occupied(o, o)];
      NotMapped(vacated, o);
      MappedAfterFilling(vacated, pos, o);
      hide WellKeyed, Mapped;
      o.Incref();
      slots := slots[pos := Occupied(o, o)];
    }

    lemma NotMapped(table: seq<Slot>, o: CachedObj)
      requires forall j :: 0 <= j < |table| && table[j].Occupied? ==> table[j].obj.oid != o.oid
      ensures o !in Mapped(table)
    {
    }

    /** `cache_get`: a reference to the stored object if its flags are acceptable. */
    method Get(oid: Oid, flags: Flags) returns (entry: CachedObj?)
      requires Valid()
      modifies this`holders, this`seen, holders.Keys
      ensures Valid() && slots == old(slots) && holders.Keys == old(holders.Keys) && seen == old(seen)
      ensures entry == null ==> holders == old(holders)
      ensures !globals.enabled ==> entry == null
      ensures entry != null ==> entry in Mapped(slots) && entry.oid == oid && !entry.freed
      ensures entry != null ==> (flags == Any || entry.flags == flags)
      ensures entry != null ==> holders == old(holders)[entry := old(holders)[entry] + 1]
      ensures entry == null && globals.enabled ==>
                forall o :: o in Mapped(slots) && o.oid == oid ==> flags != Any && o.flags != flags
    {
      hide WellKeyed, Mapped, Counted, SizeSum, Count, TableSize;
      if !globals.enabled {
        return null;
      }
      CountedIsKeyed(slots);
      AbsentOid(slots, oid);
      var pos := Find(oid);
      if pos == |slots| {
        return null;
      }
      entry := slots[pos].obj;
      SlotIsKnown(slots, pos);
      OneObjectOfAnOid(slots, pos);
      if flags != Any && entry.flags != flags {
        return null;
      }
      Hold(entry);
    }

    /** `cache_should_store`. */
    predicate ShouldStore(o: CachedObj)
      requires o.otype < |globals.maxObjectSize|
      reads globals
    {
      globals.enabled && o.size < globals.maxObjectSize[o.otype]
    }

    /**
     What storing `entry` in `table` comes to. With no object of that oid it is added; a stored
     one of the same flags is handed out and stays; a raw one gives way to a parsed one; in any
     other case the table stays and the caller keeps its own object.
     */
    ghost predicate Outcome(entry: CachedObj, table: seq<Slot>, result: CachedObj)
      reads this`slots, entry, Mapped(table)
    {
      if forall o :: o in Mapped(table) ==> o.oid != entry.oid then
        result == entry && Mapped(slots) == Mapped(table) + {entry} && Count(slots) == Count(table) + 1
      else
        exists stored :: stored in Mapped(table) && stored.oid == entry.oid &&
          if stored.flags == entry.flags then result == stored && slots == table
          else if stored.flags == Raw && entry.flags == Parsed then
            result == entry && Mapped(slots) == Mapped(table) - {stored} + {entry} && Count(slots) == Count(table)
          else result == entry && slots == table
    }

    /** The part of `cache_store` that needs the lock; the caller holds `entry`. */
    method Insert(entry: CachedObj) returns (result: CachedObj)
      requires Valid() && |slots| <= 0x8000_0000
      requires entry in holders && holders[entry] > 0 && !entry.freed
      modifies this`slots, this`usedMemory, this`holders, this`seen, globals`currentStorage, holders.Keys
      ensures Valid() && seen == old(seen)
      ensures result in old(holders) && result in holders && result.oid == entry.oid && !result.freed
      ensures holders == Transferred(old(holders), entry, result)
      ensures Outcome(entry, old(slots), result)
      ensures Mapped(slots) <= old(Mapped(slots)) + {entry}
      ensures forall o :: o in old(Mapped(slots)) && o !in Mapped(slots) ==>
                o.oid == entry.oid && o.flags == Raw && entry.flags == Parsed && result == entry
      ensures result == entry || (result in old(Mapped(slots)) && result.flags == entry.flags)
      ensures exists o :: o in Mapped(slots) && o.oid == entry.oid
      ensures entry.flags == Parsed && (forall o :: o in old(Mapped(slots)) ==> o.flags != Any) ==> result in Mapped(slots)
      ensures globals.currentStorage - old(globals.currentStorage) == usedMemory - old(usedMemory)
    {
      hide SizeSum, Count, Mapped, Counted, TableSize;
      HeldIsAlive(entry);
      CountedIsKeyed(slots);
      AbsentOid(slots, entry.oid);
      var pos := Find(entry.oid);
      if pos == |slots| {
        InsertNew(entry);
        return entry;
      }
      var stored := slots[pos].obj;
      SlotIsKnown(slots, pos);
      CountedIsKeyed(slots);
      if stored.flags == entry.flags {
        HandOver(entry, stored);
        return stored;
      }
      if stored.flags == Raw && entry.flags == Parsed {
        OneObjectAnOid(pos, entry);
        Upgrade(pos, entry);
      }
      return entry;
    }

    /** The caller's reference moves from its own copy to the stored object. */
    method HandOver(entry: CachedObj, stored: CachedObj)
      requires Counted(slots) && entry in holders && holders[entry] > 0
      requires stored in holders && stored in Mapped(slots)
      modifies this`holders, this`seen, entry`refcount, entry`freed, stored`refcount
      ensures Counted(slots) && !stored.freed && stored in holders && seen == old(seen)
      ensures holders == Transferred(old(holders), entry, stored)
    {
      hide WellKeyed, Mapped;
      Release(entry);
      Hold(stored);
    }

    lemma OneObjectAnOid(pos: nat, o: CachedObj)
      requires WellKeyed(slots) && pos < |slots| && slots[pos].Occupied?
      requires slots[pos].obj.oid == o.oid && slots[pos].obj != o
      ensures o !in Mapped(slots)
    {
    }

    /** The not-found branch. */
    method InsertNew(entry: CachedObj)
      requires Valid() && |slots| <= 0x8000_0000
      requires entry in seen && !entry.freed
      requires forall i :: 0 <= i < |slots| && slots[i].Occupied? ==> slots[i].owner.oid != entry.oid
      modifies this`slots, this`usedMemory, globals`currentStorage, entry`refcount
      ensures Valid() && Mapped(slots) == Mapped(old(slots)) + {entry} && !entry.freed
      ensures Count(slots) == Count(old(slots)) + 1
      ensures globals.currentStorage - old(globals.currentStorage) == usedMemory - old(usedMemory)
    {
      hide SizeSum, Count, Mapped, Counted;
      CountedIsKeyed(slots);
      AbsentOid(slots, entry.oid);
      var pos := FindVacant();
      CountedIsKeyed(slots);
      AbsentOid(slots, entry.oid);
      assert slots[pos := Vacant] == slots;
      SumsAfterUpdate(slots, pos, Occupied(entry, entry));
      MapAt(pos, entry);
      usedMemory := usedMemory + entry.size;
      globals.currentStorage := globals.currentStorage + entry.size;
    }

    /** The RAW-to-PARSED branch: key and value change over, the memory stays accounted for. */
    method Upgrade(pos: nat, entry: CachedObj)
      requires Valid() && pos < |slots| && slots[pos].Occupied? && slots[pos].obj.oid == entry.oid
      requires entry in seen && !entry.freed && entry !in Mapped(slots)
      modifies this`slots, entry`refcount, slots[pos].obj`refcount, slots[pos].obj`freed
      ensures Valid() && usedMemory == old(usedMemory) && !entry.freed
      ensures var replaced := old(slots)[pos].obj; replaced in holders && (replaced.freed <==> holders[replaced] == 0)
      ensures Mapped(slots) == Mapped(old(slots)) - {old(slots)[pos].obj} + {entry}
      ensures Count(slots) == Count(old(slots))
    {
      hide SizeSum, Count, Mapped;
      SlotIsKnown(slots, pos);
      CountedIsKeyed(slots);
      MappedAfterVacating(slots, pos);
      SumsAfterUpdate(slots, pos, Occupied(entry, entry));
      DropMapped(slots[pos].obj, slots, pos);
      MapAt(pos, entry);
    }

    /** `git_cache_store_raw` and `git_cache_store_parsed`, the flags being set already. */
    method Store(entry: CachedObj, rand: nat) returns (result: CachedObj, ghost kept: seq<Slot>)
      requires Valid() && rand < 0x1_0000_0000 && |slots| <= 0x8000_0000
      requires entry in holders && !entry.freed && entry.otype < |globals.maxObjectSize|
      modifies this`slots, this`usedMemory, this`holders, this`seen, globals`currentStorage, holders.Keys
      ensures Valid() && seen == old(seen) + {entry}
      ensures Disposed(old(Mapped(slots))) && Mapped(slots) <= old(Mapped(slots)) + {entry}
      ensures globals.enabled && old(globals.currentStorage) <= globals.maxStorage ==>
                forall o :: o in old(Mapped(slots)) && o !in Mapped(slots) ==>
                  o.oid == entry.oid && o.flags == Raw && entry.flags == Parsed && result == entry
      ensures result in old(holders) && result in holders && result.oid == entry.oid && !result.freed
      ensures holders == old(holders)[result := old(holders)[result] + 1]
      ensures result == entry || (result in old(Mapped(slots)) && result.flags == entry.flags)
      ensures var wanted := globals.enabled && entry.size < globals.maxObjectSize[entry.otype];
              && Softened(wanted, old(slots), old(usedMemory), old(globals.currentStorage), kept)
              && (wanted ==> Outcome(entry, kept, result) && exists o :: o in Mapped(slots) && o.oid == entry.oid)
              && (!wanted ==> slots == kept && result == entry)
      ensures globals.currentStorage - old(globals.currentStorage) == usedMemory - old(usedMemory)
    {
      hide SizeSum, Count, Mapped, WellKeyed, TableSize, Counted, Disposed, Outcome;
      ghost var before := Mapped(slots);
      MappedAreSeen(slots);
      Hold(entry);
      var goOn := Prepare(entry, rand);
      kept := slots;
      HeldIsAlive(entry);
      result := entry;
      if goOn {
        result := Insert(entry);
      }
      LeaversAreDisposed(before);
    }

    /**
     What is left in the table before an object is stored. A disabled cache that still holds
     something is cleared. Above the storage limit eight objects go, or all if there are fewer,
     but only for an object that will be stored. Otherwise nothing changes.
     */
    ghost predicate Softened(wanted: bool, before: seq<Slot>, memory: int, storage: int, after: seq<Slot>)
      reads globals`enabled, globals`maxStorage
    {
      && Mapped(after) <= Mapped(before) && |after| == |before|
      && if !globals.enabled && memory > 0 then Count(after) == 0
         else if wanted && storage > globals.maxStorage then
           Count(after) == if Count(before) >= 8 then Count(before) - 8 else 0
         else after == before
    }

    /** The checks of `cache_store` and the eviction that softens the load. */
    method Prepare(entry: CachedObj, rand: nat) returns (goOn: bool)
      requires Valid() && rand < 0x1_0000_0000 && entry.otype < |globals.maxObjectSize|
      modifies this`slots, this`usedMemory, globals`currentStorage, holders.Keys
      ensures Valid() && |slots| == |old(slots)| && Mapped(slots) <= old(Mapped(slots))
      ensures goOn == (globals.enabled && entry.size < globals.maxObjectSize[entry.otype])
      ensures Softened(goOn, old(slots), old(usedMemory), old(globals.currentStorage), slots)
      ensures globals.currentStorage - old(globals.currentStorage) == usedMemory - old(usedMemory)
    {
      hide SizeSum, Count, Mapped, Counted, TableSize;
      if !globals.enabled && usedMemory > 0 {
        Clear();
        return false;
      }
      if !ShouldStore(entry) {
        return false;
      }
      if globals.currentStorage > globals.maxStorage {
        Evict(rand);
      }
      return true;
    }

    /** An object someone holds has not been freed. */
    lemma HeldIsAlive(o: CachedObj)
      requires Valid() && o in holders && holders[o] > 0
      ensures !o.freed && o.refcount >= 1 && o in seen
    {
    }

    lemma AbsentOid(table: seq<Slot>, oid: Oid)
      requires WellKeyed(table)
      ensures (forall i :: 0 <= i < |table| && table[i].Occupied? ==> table[i].owner.oid != oid) <==>
              (forall o :: o in Mapped(table) ==> o.oid != oid)
      ensures (forall o :: o in Mapped(table) ==> o.oid != oid) ==>
              (forall i :: 0 <= i < |table| && table[i].Occupied? ==> table[i].obj.oid != oid)
    {
    }

    lemma CountedIsKeyed(table: seq<Slot>)
      requires Counted(table)
      ensures WellKeyed(table)
    {
    }
  }

  lemma {:induction false} EmptyHasNoSize(slots: seq<Slot>)
    requires Count(slots) == 0
    ensures SizeSum(slots) == 0
  {
    if slots != [] {
      EmptyHasNoSize(slots[..|slots| - 1]);
    }
  }

  lemma NothingMapped(slots: seq<Slot>)
    requires Count(slots) == 0
    ensures Mapped(slots) == {}
  {
  }

  // --------------------------------------------------------------- probing

  /** The last occupied slot: a goal every round of probing comes across. */
  ghost function Goal(slots: seq<Slot>): (i: nat)
    requires Count(slots) > 0
    ensures i < |slots| && slots[i].Occupied?
  {
    if slots[|slots| - 1].Occupied? then |slots| - 1 else Goal(slots[..|slots| - 1])
  }

  /** How far the goal lies ahead of the probe, going round the table. */
  ghost function Gap(slots: seq<Slot>, seed: nat): nat
    requires Count(slots) > 0
  {
    var pos := seed % |slots|;
    if Goal(slots) >= pos then Goal(slots) - pos else Goal(slots) + |slots| - pos
  }

  lemma RemainderStep(a: nat, n: nat)
    requires n > 0
    ensures (a + 1) % n == if a % n == n - 1 then 0 else a % n + 1
  {
    var q, r := a / n, a % n;
    assert a == n * q + r;
    if r == n - 1 {
      assert a + 1 == n * (q + 1) + 0;
      RemainderIs(a + 1, n, q + 1, 0);
    } else {
      RemainderIs(a + 1, n, q, r + 1);
    }
  }

  /** Wrapping at 2^32 does not disturb the round: the table size divides 2^32. */
  lemma SeedStep(seed: nat, k: nat)
    requires seed < 0x1_0000_0000 && k <= 32
    ensures var n := Pow2(k);
            (seed + 1) % 0x1_0000_0000 % n == if seed % n == n - 1 then 0 else seed % n + 1
  {
    hide Pow2;
    if seed + 1 == 0x1_0000_0000 {
      LastProbe(k);
      RemainderIs(0, Pow2(k), 0, 0);
    } else {
      RemainderIs(seed + 1, 0x1_0000_0000, 0, seed + 1);
      RemainderStep(seed, Pow2(k));
    }
  }

  /** The largest seed probes the last slot. */
  lemma LastProbe(k: nat)
    requires k <= 32
    ensures 0xffff_ffff % Pow2(k) == Pow2(k) - 1
  {
    hide Pow2;
    var n, m := Pow2(k), Pow2(32 - k);
    Pow2Splits(k, 32);
    Pow2Of32();
    Successor(n, m - 1);
    RemainderIs(0xffff_ffff, n, m - 1, n - 1);
  }

  /** A probe that finds nothing brings the goal one step closer. */
  lemma GapShrinks(slots: seq<Slot>, seed: nat, k: nat)
    requires Count(slots) > 0 && |slots| == Pow2(k) && k <= 32 && seed < 0x1_0000_0000
    requires slots[seed % |slots|].Vacant?
    ensures Gap(slots, (seed + 1) % 0x1_0000_0000) < Gap(slots, seed)
  {
    hide Goal, Count, Pow2;
    SeedStep(seed, k);
  }

  lemma {:induction false} VacanciesCountNothing(slots: seq<Slot>, extra: nat)
    ensures var slots' := slots + seq(extra, _ => Vacant);
            && Count(slots') == Count(slots) && SizeSum(slots') == SizeSum(slots)
            && Mapped(slots') == Mapped(slots) && (WellKeyed(slots) ==> WellKeyed(slots'))
  {
    var slots' := slots + seq(extra, _ => Vacant);
    VacanciesSum(slots, extra);
    forall o | o in Mapped(slots)
      ensures o in Mapped(slots')
    {
      var i :| 0 <= i < |slots| && slots[i].Occupied? && slots[i].obj == o;
      assert slots'[i] == slots[i];
    }
  }

  lemma {:induction false} VacanciesSum(slots: seq<Slot>, extra: nat)
    ensures var slots' := slots + seq(extra, _ => Vacant);
            Count(slots') == Count(slots) && SizeSum(slots') == SizeSum(slots)
  {
    var slots' := slots + seq(extra, _ => Vacant);
    if extra == 0 {
      assert slots' == slots;
    } else {
      VacanciesSum(slots, extra - 1);
      assert slots'[..|slots'| - 1] == slots + seq(extra - 1, _ => Vacant);
    }
  }
}
