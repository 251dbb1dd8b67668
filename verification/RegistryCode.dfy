/** The code of the registries: a linked list of entries, searched and edited in loops (linux/ipcdrv/ipcsem.c; the
    functions in ipcmutex.c, ipcevent.c and ipcshm.c are the same). */
module RegistryCode {
  import opened Registry
  import opened Scan

  class Entry {
    /** The address of the entry. Close compares it; the model compares references. */
    ghost const handle: nat
    const name: string
    var ownerCount: int

    constructor (ghost handle: nat, name: string)
      ensures this.handle == handle && this.name == name && ownerCount == 0
    {
      this.handle := handle;
      this.name := name;
      ownerCount := 0;
    }
  }

  ghost function SlotOf(e: Entry): Slot
    reads e
  {
    Slot(e.handle, e.name, e.ownerCount)
  }

  ghost function Slots(list: seq<Entry>): (s: seq<Slot>)
    reads list
    ensures |s| == |list| && forall i | 0 <= i < |s| :: s[i] == SlotOf(list[i])
  {
    seq(|list|, i requires 0 <= i < |list| reads list => SlotOf(list[i]))
  }

  class EntryList {
    var list: seq<Entry>

    /** Every entry ever allocated, in order; the n-th has address n. */
    ghost var issued: seq<Entry>

    ghost predicate Valid()
      reads this, list
    {
      && (forall i | 0 <= i < |issued| :: issued[i].handle == i + 1)
      && (forall i | 0 <= i < |list| :: list[i] in issued)
      && Inv(Contents())
    }

    ghost function Contents(): Reg
      reads this, list
    {
      Reg(Slots(list), |issued| + 1)
    }

    constructor ()
      ensures Valid() && Contents() == EMPTY && list == [] && issued == []
    {
      list := [];
      issued := [];
    }

    /** ipc_sem_create */
    method Create(name: string) returns (entry: Entry)
      requires Valid()
      modifies this, list
      ensures Valid() && Contents() == Open(old(Contents()), name).0
      ensures entry in list && entry.handle == Open(old(Contents()), name).1
      ensures old(issued) <= issued && forall e | e in issued :: e in old(issued) || fresh(e)
    {
      hide Registry.Inv, Slots;
      var i := Search(name);
      if i < |list| {
        entry := list[i];
        OpenKeepsInv(Contents(), name);
        Adjust(i, 1);
      } else {
        entry := Add(name);
      }
    }

    /** The search loop of create. */
    method Search(name: string) returns (i: nat)
      requires Valid()
      ensures i == Spot(Contents(), name)
    {
      i := 0;
      while i < |list|
        invariant i <= |list| && forall j | 0 <= j < i :: list[j].name != name
      {
        if list[i].name == name { break; }
        i := i + 1;
      }
      FirstIs(Contents().slots, 0, Named(name), i);
    }

    method Add(name: string) returns (entry: Entry)
      requires Valid() && Spot(Contents(), name) == |list|
      modifies this
      ensures Valid() && Contents() == Open(old(Contents()), name).0
      ensures list == old(list) + [entry] && issued == old(issued) + [entry] && fresh(entry)
      ensures entry.handle == old(Contents()).next
    {
      OpenKeepsInv(Contents(), name);
      entry := new Entry(|issued| + 1, name);
      list := list + [entry];
      issued := issued + [entry];
      entry.ownerCount := entry.ownerCount + 1;
      assert Slots(list) == old(Slots(list)) + [Slot(old(|issued|) + 1, name, 1)];
    }

    /** Entries are distinct, so a change of one count changes one slot. */
    lemma Counted(was: seq<Slot>, p: nat, d: int)
      requires p < |list| == |was| && Distinct(Handles(Reg(was, 0)))
      requires forall i | 0 <= i < |was| :: was[i].handle == list[i].handle && was[i].name == list[i].name
      requires forall i | 0 <= i < |was| && list[i] != list[p] :: list[i].ownerCount == was[i].count
      requires list[p].ownerCount == was[p].count + d
      ensures Slots(list) == was[p := was[p].(count := was[p].count + d)]
    {
      forall i | 0 <= i < |list| && i != p ensures Slots(list)[i] == was[i] {
        assert Handles(Reg(was, 0))[i] != Handles(Reg(was, 0))[p];
      }
    }

    /** atomic_inc and atomic_dec on the count of one entry. */
    method Adjust(p: nat, d: int)
      requires Valid() && p < |list|
      modifies list[p]
      ensures Contents() == Recount(old(Contents()), p, d)
    {
      ghost var was := Contents().slots;
      list[p].ownerCount := list[p].ownerCount + d;
      Counted(was, p, d);
    }

    /** Comparing references is comparing addresses. */
    lemma SameEntry(a: Entry, b: Entry)
      requires Valid() && a in issued && b in issued
      ensures a == b <==> a.handle == b.handle
    {
      var i :| 0 <= i < |issued| && issued[i] == a;
      var j :| 0 <= j < |issued| && issued[j] == b;
    }

    /** Where the search of close stops. */
    lemma HandleAtPosition(handle: Entry, p: nat)
      requires Valid() && handle in issued && p < |list| && list[p] == handle
      ensures At(Contents(), handle.handle) == p
    {
      HandleAt(Contents(), p);
    }

    lemma NoSuchHandle(handle: Entry)
      requires Valid() && handle in issued && forall j | 0 <= j < |list| :: list[j] != handle
      ensures Registry.Close(Contents(), handle.handle) == (Contents(), -EINVAL)
    {
      AtFound(Contents(), handle.handle);
      if At(Contents(), handle.handle) < |list| { SameEntry(list[At(Contents(), handle.handle)], handle); }
    }

    /** An entry is in the list once. */
    lemma NotAgain(handle: Entry, pos: nat)
      requires Valid() && pos < |list|
      ensures list[pos] == handle ==> forall j | 0 <= j < pos :: list[j] != handle
    {
      hide Slots;
      assert forall j | 0 <= j < pos :: Handles(Contents())[j] != Handles(Contents())[pos];
    }

    /** ipc_sem_close. The loop goes on when it has found an entry that is still owned. */
    method Close(handle: Entry) returns (error: int)
      requires Valid() && handle in issued
      modifies this`list, list
      ensures Valid() && issued == old(issued)
      ensures (Contents(), error) == Registry.Close(old(Contents()), handle.handle)
      ensures forall e | e in list :: e in old(list)
    {
      hide Registry.Close, Registry.Inv, Slots;
      ghost var was := Contents();
      CloseKeepsInv(was, handle.handle);
      error := -EINVAL;
      var pos := 0;
      while pos < |list|
        invariant pos <= |list| && list == old(list) && issued == old(issued)
        invariant error == -EINVAL || error == -EBUSY
        invariant error == -EINVAL ==> Contents() == was && forall j | 0 <= j < pos :: list[j] != handle
        invariant error == -EBUSY ==> (Contents(), error) == Registry.Close(was, handle.handle)
                                      && exists j | 0 <= j < pos :: list[j] == handle
      {
        NotAgain(handle, pos);
        if list[pos] == handle {
          error := CloseAt(handle, pos, error);
          if error == 0 { return; }
        }
        pos := pos + 1;
      }
      if error == -EINVAL { NoSuchHandle(handle); }
    }

    /** The body of the loop for the entry it looks for. */
    method CloseAt(handle: Entry, pos: nat, was: int) returns (error: int)
      requires Valid() && handle in issued && pos < |list| && list[pos] == handle
      modifies this`list, handle
      ensures Valid() && issued == old(issued) && (error == 0 || error == -EBUSY)
      ensures (Contents(), error) == Registry.Close(old(Contents()), handle.handle)
      ensures list == if error == 0 then old(list)[..pos] + old(list)[pos + 1..] else old(list)
    {
      hide Slots, Registry.Inv;
      HandleAtPosition(handle, pos);
      CloseKeepsInv(Contents(), handle.handle);
      ghost var before := Contents();
      Adjust(pos, -1);
      if handle.ownerCount == 0 {
        list := list[..pos] + list[pos + 1..];
        error := 0;
        assert Contents().slots == before.slots[..pos] + before.slots[pos + 1..];
      } else {
        error := -EBUSY;
      }
    }

    /** Some entry of the list is owned. */
    static ghost predicate AnyOwned(list: seq<Entry>)
      reads list
    {
      exists i | 0 <= i < |list| :: list[i].ownerCount != 0
    }

    static lemma AnyOwnedPush(list: seq<Entry>, k: nat)
      requires k < |list|
      ensures AnyOwned(list[..k + 1]) <==> AnyOwned(list[..k]) || list[k].ownerCount != 0
    {
      if AnyOwned(list[..k]) {
        var i :| 0 <= i < k && list[..k][i].ownerCount != 0;
        assert list[..k + 1][i].ownerCount != 0;
      } else if list[k].ownerCount != 0 {
        assert list[..k + 1][k].ownerCount != 0;
      }
    }

    static lemma AnyOwnedSlots(list: seq<Entry>)
      ensures AnyOwned(list) <==> exists i | 0 <= i < |list| :: Slots(list)[i].count != 0
    {
      if i :| 0 <= i < |list| && list[i].ownerCount != 0 { assert Slots(list)[i].count != 0; }
    }

    /** ipc_sem_close_all: takes entries off the list whether they are owned or not. */
    method CloseAll() returns (error: int)
      requires Valid()
      modifies this`list
      ensures Valid() && list == [] && issued == old(issued)
      ensures (Contents(), error) == Registry.CloseAll(old(Contents()))
    {
      var usedCounter := Empty();
      AnyOwnedSlots(old(list));
      error := if usedCounter > 0 then -EBUSY else 0;
    }

    method Empty() returns (usedCounter: nat)
      modifies this`list
      ensures list == []
      ensures usedCounter > 0 <==> AnyOwned(old(list))
    {
      ghost var was := list;
      ghost var k: nat := 0;
      usedCounter := 0;
      while list != []
        invariant k <= |was| && list == was[k..]
        invariant usedCounter > 0 <==> AnyOwned(was[..k])
        decreases |list|
      {
        var entry := list[0];
        AnyOwnedPush(was, k);
        if entry.ownerCount != 0 { usedCounter := usedCounter + 1; }
        list := list[1..];
        k := k + 1;
      }
      assert was[..k] == was;
    }
  }
}
