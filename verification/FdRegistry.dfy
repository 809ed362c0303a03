/**
 * The table of file descriptors that the main loop polls, with their callbacks: a map of limited
 * size, kept in an array of slots.
 */
module FdRegistry {
  import opened CText

  const FD_REG_MAX: nat := 32

  datatype Callback = JsonAccept | JsonConnection | OtherCallback(id: int)

  datatype Entry = Entry(cb: Option<Callback>, ref: int)

  // A slot is free if its descriptor is zero.
  datatype Slot = Slot(fd: int, entry: Entry)

  ghost predicate NoDuplicates(slots: seq<Slot>) {
    && (forall i :: 0 <= i < |slots| ==> slots[i].fd >= 0)
    && (forall i, j :: 0 <= i < j < |slots| && slots[i].fd != 0 ==> slots[i].fd != slots[j].fd)
  }

  /** The registered descriptors. */
  ghost function Entries(slots: seq<Slot>): map<int, Entry> {
    if slots == [] then map[]
    else
      var last := slots[|slots| - 1];
      var before := Entries(slots[..|slots| - 1]);
      if last.fd == 0 then before else before[last.fd := last.entry]
  }

  lemma {:induction false} EntriesAreSlots(slots: seq<Slot>)
    requires NoDuplicates(slots)
    ensures forall i :: 0 <= i < |slots| && slots[i].fd != 0 ==>
              slots[i].fd in Entries(slots) && Entries(slots)[slots[i].fd] == slots[i].entry
    ensures forall fd :: fd in Entries(slots) ==> fd > 0 && exists i :: 0 <= i < |slots| && slots[i].fd == fd
    decreases |slots|
  {
    if slots != [] {
      EntriesAreSlots(slots[..|slots| - 1]);
      assert slots[|slots| - 1] in slots;
    }
  }

  /** The table is full exactly if no slot is free. */
  lemma {:induction false} FullTable(slots: seq<Slot>)
    requires NoDuplicates(slots)
    ensures |Entries(slots)| <= |slots|
    ensures |Entries(slots)| == |slots| <==> forall i :: 0 <= i < |slots| ==> slots[i].fd != 0
    decreases |slots|
  {
    if slots != [] {
      var n := |slots| - 1;
      FullTable(slots[..n]);
      EntriesAreSlots(slots[..n]);
      if slots[n].fd != 0 {
        assert slots[n].fd !in Entries(slots[..n]);
      }
    }
  }

  lemma OtherSlots(slots: seq<Slot>, i: nat, s: Slot, g: int)
    requires i < |slots| && NoDuplicates(slots) && NoDuplicates(slots[i := s])
    requires (s.fd == slots[i].fd || slots[i].fd == 0 || s.fd == 0)
    requires s.fd != g
    ensures var now := slots[i := s];
            && (g in Entries(now) <==> g in Entries(slots) && g != slots[i].fd)
            && (g in Entries(now) ==> Entries(now)[g] == Entries(slots)[g])
  {
    hide Entries;
    var now := slots[i := s];
    EntriesAreSlots(slots);
    EntriesAreSlots(now);
    if g in Entries(now) {
      var j :| 0 <= j < |now| && now[j].fd == g;
      assert slots[j] == now[j];
    }
    if g in Entries(slots) && g != slots[i].fd {
      var j :| 0 <= j < |slots| && slots[j].fd == g;
      assert slots[j] == now[j];
    }
  }

  /** Freeing the slot of a descriptor removes it. */
  lemma SlotFreed(slots: seq<Slot>, i: nat)
    requires i < |slots| && NoDuplicates(slots) && slots[i].fd != 0
    ensures var now := slots[i := slots[i].(fd := 0)];
              NoDuplicates(now) && Entries(now) == Entries(slots) - {slots[i].fd}
  {
    hide Entries;
    var now := slots[i := slots[i].(fd := 0)];
    EntriesAreSlots(slots);
    EntriesAreSlots(now);
    forall fd: int
      ensures fd in Entries(now) <==> fd in Entries(slots) && fd != slots[i].fd
      ensures fd in Entries(now) ==> Entries(now)[fd] == Entries(slots)[fd]
    {
      if fd != 0 {
        OtherSlots(slots, i, slots[i].(fd := 0), fd);
      }
    }
  }

  lemma StillDistinct(slots: seq<Slot>, i: nat, fd: int, entry: Entry)
    requires i < |slots| && NoDuplicates(slots) && fd > 0
    requires slots[i].fd == fd || (slots[i].fd == 0 && forall j :: 0 <= j < |slots| ==> slots[j].fd != fd)
    ensures NoDuplicates(slots[i := Slot(fd, entry)])
  {
  }

  /** Storing an unknown descriptor in a free slot, or a known one in its own, adds or replaces its entry. */
  lemma SlotSet(slots: seq<Slot>, i: nat, fd: int, entry: Entry)
    requires i < |slots| && NoDuplicates(slots) && fd > 0
    requires slots[i].fd == fd || (slots[i].fd == 0 && forall j :: 0 <= j < |slots| ==> slots[j].fd != fd)
    ensures var now := slots[i := Slot(fd, entry)]; NoDuplicates(now) && Entries(now) == Entries(slots)[fd := entry]
  {
    hide Entries, NoDuplicates;
    var now := slots[i := Slot(fd, entry)];
    StillDistinct(slots, i, fd, entry);
    EntriesAreSlots(slots);
    EntriesAreSlots(now);
    assert now[i] == Slot(fd, entry);
    forall g: int | g != fd
      ensures g in Entries(now) <==> g in Entries(slots)
      ensures g in Entries(now) ==> Entries(now)[g] == Entries(slots)[g]
    {
      OtherSlots(slots, i, Slot(fd, entry), g);
    }
  }

  class Registry {
    const slots: array<Slot>

    ghost predicate Valid()
      reads this, slots
    {
      slots.Length == FD_REG_MAX && NoDuplicates(slots[..])
    }

    ghost function Contents(): map<int, Entry>
      reads this, slots
    {
      Entries(slots[..])
    }

    constructor ()
      ensures Valid() && fresh(slots) && Contents() == map[]
    {
      slots := new Slot[FD_REG_MAX](_ => Slot(0, Entry(None, 0)));
      new;
      NoneUsed(slots[..]);
    }

    /** Registers, re-registers or, without a callback, deregisters a descriptor; 0 or -1. */
    method Register(fd: int, cb: Option<Callback>, ref: int) returns (r: int)
      requires Valid()
      modifies slots
      ensures Valid()
      ensures r == if fd > 0 && (fd in old(Contents()) || (cb.Some? && |old(Contents())| < 32)) then 0 else -1
      ensures Contents() == if r != 0 then old(Contents())
                            else if cb == None then old(Contents()) - {fd}
                            else old(Contents())[fd := Entry(cb, ref)]
    {
      hide Entries, NoDuplicates;
      if fd <= 0 {
        return -1;
      }
      ghost var was := slots[..];
      Slots(was);
      var free := -1;
      for i := 0 to FD_REG_MAX
        invariant slots[..] == was
        invariant forall j :: 0 <= j < i ==> was[j].fd != fd
        invariant -1 <= free < i && (free >= 0 ==> cb.Some? && was[free].fd == 0)
        invariant free < 0 && cb.Some? ==> forall j :: 0 <= j < i ==> was[j].fd != 0
        modifies slots
      {
        assert was[i] == slots[i];
        if slots[i].fd == fd {
          if cb == None {
            SlotFreed(was, i);
            slots[i] := slots[i].(fd := 0);
          } else {
            SlotSet(was, i, fd, Entry(cb, ref));
            slots[i] := Slot(fd, Entry(cb, ref));
          }
          assert slots[..] == was[i := slots[i]];
          return 0;
        } else if cb != None && slots[i].fd == 0 && free < 0 {
          free := i;
        }
      }
      if free < 0 {
        return -1;
      }
      SlotSet(was, free, fd, Entry(cb, ref));
      slots[free] := Slot(fd, Entry(cb, ref));
      assert slots[..] == was[free := slots[free]];
      r := 0;
    }
  }

  /** Which descriptors are registered, and when there is room, in terms of the slots. */
  lemma Slots(slots: seq<Slot>)
    requires NoDuplicates(slots)
    ensures forall fd :: fd in Entries(slots) ==> exists i :: 0 <= i < |slots| && slots[i].fd == fd
    ensures forall i :: 0 <= i < |slots| && slots[i].fd != 0 ==> slots[i].fd in Entries(slots)
    ensures |Entries(slots)| < |slots| <==> exists i :: 0 <= i < |slots| && slots[i].fd == 0
  {
    hide Entries;
    EntriesAreSlots(slots);
    FullTable(slots);
  }

  lemma {:induction false} NoneUsed(slots: seq<Slot>)
    requires forall i :: 0 <= i < |slots| ==> slots[i].fd == 0
    ensures NoDuplicates(slots) && Entries(slots) == map[]
    decreases |slots|
  {
    if slots != [] {
      NoneUsed(slots[..|slots| - 1]);
    }
  }
}
