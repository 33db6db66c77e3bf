/**
 Installing the Mach traps in the system call table and taking them out again.  Every
 trap has its own entry to install, a variable for the slot it got, and a place for the
 entry it displaced.
 */
module SyscallWire {
  import opened Machine

  const NO_SYSCALL := -1

  /** A table entry: free for loadable calls, reserved, or in use by a handler. */
  datatype Sysent = Loadable(tag: nat) | Reserved(tag: nat) | Handler(id: nat, narg: nat)

  predicate Installable(sy: Sysent) {
    sy.Loadable? || sy.Reserved?
  }

  /** The slots of `table` from `from` on that are free for loadable calls, lowest first. */
  ghost function FreeSlots(table: seq<Sysent>, from: nat): seq<int>
    decreases |table| - from
  {
    if from >= |table| then []
    else if table[from].Loadable? then [from] + FreeSlots(table, from + 1)
    else FreeSlots(table, from + 1)
  }

  /** Every free slot is there. */
  lemma {:induction false} FreeSlotsAll(table: seq<Sysent>, from: nat, k: int)
    ensures k in FreeSlots(table, from) <==> from <= k < |table| && table[k].Loadable?
    decreases |table| - from
  {
    if from >= |table| {
    } else {
      FreeSlotsAll(table, from + 1, k);
    }
  }

  /** They are in ascending order, so that the first is the lowest and none is there twice. */
  lemma {:induction false} FreeSlotsAscend(table: seq<Sysent>, from: nat, i: nat, j: nat)
    requires i < j < |FreeSlots(table, from)|
    ensures FreeSlots(table, from)[i] < FreeSlots(table, from)[j]
    decreases |table| - from
  {
    if !table[from].Loadable? {
      FreeSlotsAscend(table, from + 1, i, j);
    } else if i > 0 {
      FreeSlotsAscend(table, from + 1, i - 1, j - 1);
    } else {
      var rest := FreeSlots(table, from + 1);
      assert rest[j - 1] in rest;
      FreeSlotsAll(table, from + 1, rest[j - 1]);
    }
  }

  /** A handler in the lowest free slot leaves the others. */
  lemma {:induction false} TakeLowest(table: seq<Sysent>, from: nat, sy: Sysent)
    requires FreeSlots(table, from) != [] && sy.Handler?
    ensures var s := FreeSlots(table, from)[0];
      from <= s < |table| && FreeSlots(table[s := sy], from) == FreeSlots(table, from)[1..]
    decreases |table| - from
  {
    if table[from].Loadable? {
      SameFree(table, table[from := sy], from + 1);
    } else {
      TakeLowest(table, from + 1, sy);
    }
  }

  lemma {:induction false} SameFree(table: seq<Sysent>, table': seq<Sysent>, from: nat)
    requires |table| == |table'| && forall k :: from <= k < |table| ==> table[k] == table'[k]
    ensures FreeSlots(table, from) == FreeSlots(table', from)
    decreases |table| - from
  {
    if from >= |table| {
    } else {
      SameFree(table, table', from + 1);
    }
  }

  /** The slot that a registration gets, or NO_SYSCALL: without a slot given the lowest
      free one, an explicit slot if it is free or reserved. */
  ghost function SlotFor(table: seq<Sysent>, offset: int): int {
    if offset == NO_SYSCALL then
      if FreeSlots(table, 1) == [] then NO_SYSCALL else FreeSlots(table, 1)[0]
    else if 0 <= offset < |table| && Installable(table[offset]) then offset
    else NO_SYSCALL
  }

  /** kern_syscall_register() */
  method Register(sysent: array<Sysent>, offset: int, sy: Sysent) returns (error: int, slot: int, saved: Sysent)
    modifies sysent
    ensures error == if SlotFor(old(sysent[..]), offset) != NO_SYSCALL then 0
                     else if offset == NO_SYSCALL then ENFILE
                     else if 0 <= offset < sysent.Length then EEXIST else EINVAL
    ensures error == 0 ==>
      && slot == SlotFor(old(sysent[..]), offset)
      && 0 <= slot < sysent.Length && Installable(old(sysent[slot]))
      && saved == old(sysent[slot])
      && sysent[..] == old(sysent[..])[slot := sy]
    ensures error != 0 ==> sysent[..] == old(sysent[..])
    ensures offset == NO_SYSCALL ==>
      error == if exists k :: 1 <= k < sysent.Length && old(sysent[k]).Loadable? then 0 else ENFILE
    ensures offset != NO_SYSCALL ==>
      error == if offset < 0 || offset >= sysent.Length then EINVAL
               else if old(sysent[offset]).Handler? then EEXIST else 0
    ensures error == 0 && offset != NO_SYSCALL ==> slot == offset
    ensures error == 0 && offset == NO_SYSCALL ==>
      old(sysent[slot]).Loadable? && forall k :: 1 <= k < slot ==> !old(sysent[k]).Loadable?
  {
    slot, saved := offset, Loadable(0);
    if offset == NO_SYSCALL {
      slot := 1;
      while slot < sysent.Length && !sysent[slot].Loadable?
        invariant 1 <= slot
        invariant forall k :: 1 <= k < slot && k < sysent.Length ==> !sysent[k].Loadable?
        invariant FreeSlots(sysent[..], 1) == FreeSlots(sysent[..], slot)
      {
        slot := slot + 1;
      }
      if slot >= sysent.Length {
        return ENFILE, offset, saved;
      }
    } else if offset < 0 || offset >= sysent.Length {
      return EINVAL, offset, saved;
    } else if !Installable(sysent[offset]) {
      return EEXIST, offset, saved;
    }
    saved := sysent[slot];
    sysent[slot] := sy;
    error := 0;
  }

  // ---- Which tables come from which ----

  /** The first `n` traps of `entries` are wired into `table`, which was `start` before:
      `offsets[i]` is NO_SYSCALL or a slot of its own, and `olds[i]` is what stood there. */
  ghost predicate Wired(start: seq<Sysent>, table: seq<Sysent>, entries: seq<Sysent>,
                        offsets: seq<int>, olds: seq<Sysent>, n: nat)
  {
    && n <= |entries| == |offsets| == |olds|
    && |table| == |start|
    && (forall i :: 0 <= i < n && offsets[i] != NO_SYSCALL ==>
          && 0 <= offsets[i] < |start|
          && Installable(start[offsets[i]])
          && table[offsets[i]] == entries[i]
          && olds[i] == start[offsets[i]])
    && (forall i, j :: 0 <= i < j < n && offsets[i] != NO_SYSCALL ==> offsets[i] != offsets[j])
    && (forall k :: 0 <= k < |start| ==> k in offsets[..n] || table[k] == start[k])
  }

  predicate Indices(order: seq<nat>, n: nat) {
    forall k :: 0 <= k < |order| ==> order[k] < n
  }

  /** Taking out the traps `order` names, one after the other, where `refused` are the
      slots that kern_syscall_deregister() will not give back. */
  function Unwire(table: seq<Sysent>, offsets: seq<int>, olds: seq<Sysent>, order: seq<nat>, refused: set<int>)
    : (r: seq<Sysent>)
    requires |offsets| == |olds| && Indices(order, |offsets|)
    ensures |r| == |table|
    decreases |order|
  {
    if order == [] then table
    else
      var s := offsets[order[0]];
      var t := if 0 <= s < |table| && s !in refused then table[s := olds[order[0]]] else table;
      Unwire(t, offsets, olds, order[1..], refused)
  }

  /** What stands in slot `k` afterwards. */
  lemma {:induction false} UnwireSlot(start: seq<Sysent>, table: seq<Sysent>, offsets: seq<int>, olds: seq<Sysent>,
                                      order: seq<nat>, refused: set<int>, k: nat)
    requires |offsets| == |olds| && |table| == |start| && k < |table|
    requires Indices(order, |offsets|)
    requires forall i :: 0 <= i < |offsets| && 0 <= offsets[i] < |start| ==> olds[i] == start[offsets[i]]
    ensures Unwire(table, offsets, olds, order, refused)[k]
         == if k !in refused && exists p :: 0 <= p < |order| && offsets[order[p]] == k then start[k] else table[k]
    decreases |order|
  {
    if order == [] {
    } else {
      var s := offsets[order[0]];
      var t := if 0 <= s < |table| && s !in refused then table[s := olds[order[0]]] else table;
      UnwireSlot(start, t, offsets, olds, order[1..], refused, k);
      assert forall p :: 1 <= p < |order| ==> order[p] == order[1..][p - 1];
    }
  }

  /** `order` names every one of `n` traps. */
  ghost predicate Covers(order: seq<nat>, n: nat) {
    Indices(order, n) && forall i :: 0 <= i < n ==> i in order
  }

  /** Deregistering all traps, in any order, restores the table, except for the slots that
      were refused: those keep the trap. */
  lemma UnwireRestores(start: seq<Sysent>, table: seq<Sysent>, entries: seq<Sysent>,
                       offsets: seq<int>, olds: seq<Sysent>, order: seq<nat>, refused: set<int>)
    requires Wired(start, table, entries, offsets, olds, |entries|)
    requires forall i :: 0 <= i < |offsets| ==> offsets[i] >= NO_SYSCALL
    requires Covers(order, |entries|)
    ensures var r := Unwire(table, offsets, olds, order, refused);
      forall k :: 0 <= k < |start| ==> r[k] == if k in refused then table[k] else start[k]
  {
    forall k | 0 <= k < |start|
      ensures Unwire(table, offsets, olds, order, refused)[k] == if k in refused then table[k] else start[k]
    {
      UnwireSlot(start, table, offsets, olds, order, refused, k);
      if k in offsets[..|entries|] {
        var i :| 0 <= i < |entries| && offsets[i] == k;
        assert i in order;
        var p :| 0 <= p < |order| && order[p] == i;
      }
    }
  }

  /** The table is back exactly as it was if and only if no wired slot was refused: a
      handler never equals the free entry it displaced. */
  lemma RestoredIffNotRefused(start: seq<Sysent>, table: seq<Sysent>, entries: seq<Sysent>,
                              offsets: seq<int>, olds: seq<Sysent>, order: seq<nat>, refused: set<int>)
    requires Wired(start, table, entries, offsets, olds, |entries|)
    requires forall i :: 0 <= i < |offsets| ==> offsets[i] >= NO_SYSCALL
    requires forall i :: 0 <= i < |entries| ==> entries[i].Handler?
    requires Covers(order, |entries|)
    ensures Unwire(table, offsets, olds, order, refused) == start
       <==> forall i :: 0 <= i < |offsets| && offsets[i] != NO_SYSCALL ==> offsets[i] !in refused
  {
    var r := Unwire(table, offsets, olds, order, refused);
    UnwireRestores(start, table, entries, offsets, olds, order, refused);
    if r == start {
      forall i | 0 <= i < |offsets| && offsets[i] != NO_SYSCALL ensures offsets[i] !in refused {
        assert table[offsets[i]] == entries[i];
      }
    } else {
      var k :| 0 <= k < |start| && r[k] != start[k];
      assert k in offsets[..|entries|];
      var i :| 0 <= i < |entries| && offsets[i] == k;
    }
  }

  /** The order in which the module takes its fourteen traps out, numbered in the order in
      which it wires them; it is not quite the reverse. */
  const MODULE_ORDER: seq<nat> := [13, 12, 11, 10, 9, 7, 8, 6, 5, 4, 3, 2, 1, 0]

  lemma ModuleOrderCovers()
    ensures Covers(MODULE_ORDER, 14) && |MODULE_ORDER| == 14
    ensures exists p :: 0 <= p < 14 && MODULE_ORDER[p] != 13 - p
  {
    assert MODULE_ORDER[5] == 7;
  }

  /** What trap `i` gets out of the free slots. */
  function NthSlot(free: seq<int>, i: nat): int {
    if i < |free| then free[i] else NO_SYSCALL
  }

  function Rest(free: seq<int>, i: nat): seq<int> {
    if i < |free| then free[i..] else []
  }

  /** One trap's wiring, as wire_one() leaves it. */
  ghost predicate WiredOne(table: seq<Sysent>, table': seq<Sysent>, sy: Sysent, slot: int, old_sy: Sysent) {
    if slot == NO_SYSCALL then table' == table
    else
      && 0 <= slot < |table| && Installable(table[slot]) && old_sy == table[slot]
      && table' == table[slot := sy]
  }

  /** Wiring one more: its slot cannot be one that is taken, since no handler is installable. */
  lemma WiredNext(start: seq<Sysent>, table: seq<Sysent>, table': seq<Sysent>, entries: seq<Sysent>,
                  offsets: seq<int>, offsets': seq<int>, olds: seq<Sysent>, olds': seq<Sysent>, i: nat)
    requires i < |entries| && Wired(start, table, entries, offsets, olds, i)
    requires forall k :: 0 <= k < |entries| ==> entries[k].Handler?
    requires |offsets'| == |olds'| == |entries|
    requires forall k :: 0 <= k < |entries| && k != i ==> offsets'[k] == offsets[k] && olds'[k] == olds[k]
    requires WiredOne(table, table', entries[i], offsets'[i], olds'[i])
    ensures Wired(start, table', entries, offsets', olds', i + 1)
  {
  }

  /** The first `n` traps have taken the lowest of the slots that were free, the others none. */
  ghost predicate InTurn(free: seq<int>, table: seq<Sysent>, offsets: seq<int>, n: nat) {
    && FreeSlots(table, 1) == Rest(free, n)
    && forall k :: 0 <= k < |offsets| ==> offsets[k] == if k < n then NthSlot(free, k) else NO_SYSCALL
  }

  lemma NextInTurn(free: seq<int>, table: seq<Sysent>, table': seq<Sysent>, offsets: seq<int>, offsets': seq<int>,
                   sy: Sysent, old_sy: Sysent, i: nat)
    requires i < |offsets| == |offsets'| && sy.Handler? && InTurn(free, table, offsets, i)
    requires offsets' == offsets[i := SlotFor(table, offsets[i])]
    requires WiredOne(table, table', sy, offsets'[i], old_sy)
    ensures InTurn(free, table', offsets', i + 1)
  {
    if FreeSlots(table, 1) != [] {
      TakeLowest(table, 1, sy);
    }
  }

  /** What the traps have got in the end: the lower free slots, each a later one, and none
      is left free below them, nor anywhere if a trap went without. */
  lemma InTurnMeaning(start: seq<Sysent>, table: seq<Sysent>, offsets: seq<int>)
    requires InTurn(FreeSlots(start, 1), table, offsets, |offsets|)
    ensures forall i, j :: 0 <= i < j < |offsets| && offsets[j] != NO_SYSCALL ==> NO_SYSCALL < offsets[i] < offsets[j]
    ensures forall i :: 0 <= i < |offsets| && offsets[i] != NO_SYSCALL ==>
      1 <= offsets[i] < |start| && start[offsets[i]].Loadable?
    ensures forall i, k :: 0 <= i < |offsets| && 1 <= k < |table| && (offsets[i] == NO_SYSCALL || k < offsets[i]) ==>
      !table[k].Loadable?
  {
    var free := FreeSlots(start, 1);
    forall i | 0 <= i < |free| ensures 1 <= free[i] < |start| && start[free[i]].Loadable? {
      assert free[i] in free;
      FreeSlotsAll(start, 1, free[i]);
    }
    forall i: nat, j: nat | i < j < |free| ensures free[i] < free[j] {
      FreeSlotsAscend(start, 1, i, j);
    }
    forall i, k | 0 <= i < |offsets| && 1 <= k < |table| && (offsets[i] == NO_SYSCALL || k < offsets[i])
      ensures !table[k].Loadable?
    {
      FreeSlotsAll(table, 1, k);
    }
  }

  /** The module's static variables over the system call table. */
  class Wiring {
    const sysent: array<Sysent>
    const entries: seq<Sysent>
    var offsets: seq<int>
    var olds: seq<Sysent>

    constructor (sysent: array<Sysent>, entries: seq<Sysent>)
      ensures this.sysent == sysent && this.entries == entries
      ensures |offsets| == |olds| == |entries| && forall i :: 0 <= i < |offsets| ==> offsets[i] == NO_SYSCALL
    {
      this.sysent, this.entries := sysent, entries;
      offsets := seq(|entries|, _ => NO_SYSCALL);
      olds := seq(|entries|, _ => Loadable(0));
    }

    /** wire_one(): a failure leaves NO_SYSCALL. */
    method WireOne(i: nat)
      requires i < |entries| == |offsets| == |olds|
      modifies this, sysent
      ensures |offsets| == |old(offsets)| && |olds| == |old(olds)|
      ensures forall k :: 0 <= k < |olds| && k != i ==> olds[k] == old(olds)[k]
      ensures WiredOne(old(sysent[..]), sysent[..], entries[i], offsets[i], olds[i])
      ensures offsets == old(offsets)[i := SlotFor(old(sysent[..]), old(offsets)[i])]
    {
      var error, slot, saved := Register(sysent, offsets[i], entries[i]);
      if error != 0 {
        offsets := offsets[i := NO_SYSCALL];
        return;
      }
      offsets := offsets[i := slot];
      olds := olds[i := saved];
    }

    /** mach_syscall_wire_register(), from whatever the offsets were before. */
    method RegisterAll()
      requires |entries| == |offsets| == |olds|
      requires forall i :: 0 <= i < |entries| ==> entries[i].Handler?
      modifies this, sysent
      ensures Wired(old(sysent[..]), sysent[..], entries, offsets, olds, |entries|)
      ensures forall i :: 0 <= i < |offsets| ==> offsets[i] >= NO_SYSCALL
      // from the first registration on: the traps take the free slots in ascending order,
      // and only those beyond the last free slot get none
      ensures (forall i :: 0 <= i < |offsets| ==> old(offsets)[i] == NO_SYSCALL) ==>
        && (forall i :: 0 <= i < |offsets| ==> offsets[i] == NthSlot(FreeSlots(old(sysent[..]), 1), i))
        && (forall i, j :: 0 <= i < j < |offsets| && offsets[j] != NO_SYSCALL ==> NO_SYSCALL < offsets[i] < offsets[j])
        && (forall i, k ::
              0 <= i < |offsets| && 1 <= k < sysent.Length && (offsets[i] == NO_SYSCALL || k < offsets[i]) ==>
                !sysent[k].Loadable?)
      ensures forall i :: 0 <= i < |offsets| && offsets[i] != NO_SYSCALL ==>
        && 0 <= offsets[i] < sysent.Length && sysent[offsets[i]] == entries[i]
        && olds[i] == old(sysent[..])[offsets[i]] && !olds[i].Handler?
    {
      ghost var start, free := sysent[..], FreeSlots(sysent[..], 1);
      ghost var unset := forall i :: 0 <= i < |offsets| ==> offsets[i] == NO_SYSCALL;
      for i := 0 to |entries|
        invariant |entries| == |offsets| == |olds|
        invariant Wired(start, sysent[..], entries, offsets, olds, i)
        invariant forall k :: 0 <= k < i ==> offsets[k] >= NO_SYSCALL
        invariant unset ==> InTurn(free, sysent[..], offsets, i)
      {
        ghost var table, before, beforeOlds := sysent[..], offsets, olds;
        WireOne(i);
        WiredNext(start, table, sysent[..], entries, before, offsets, beforeOlds, olds, i);
        if unset {
          NextInTurn(free, table, sysent[..], before, offsets, entries[i], olds[i], i);
        }
      }
      if unset {
        InTurnMeaning(start, sysent[..], offsets);
      }
    }

    /** unwire_one(): kern_syscall_deregister() puts the displaced entry back unless it
        refuses.  The offset keeps its value. */
    method UnwireOne(i: nat, refused: set<int>)
      requires i < |offsets| == |olds|
      requires offsets[i] != NO_SYSCALL ==> 0 <= offsets[i] < sysent.Length
      modifies sysent
      ensures sysent[..] == if offsets[i] != NO_SYSCALL && offsets[i] !in refused
                            then old(sysent[..])[offsets[i] := olds[i]] else old(sysent[..])
    {
      if offsets[i] == NO_SYSCALL {
        return;
      }
      if offsets[i] !in refused {
        sysent[offsets[i]] := olds[i];
      }
    }

    /** mach_syscall_wire_deregister(), the traps taken in a given order. */
    method DeregisterAll(order: seq<nat>, refused: set<int>)
      requires |offsets| == |olds| && Indices(order, |offsets|)
      requires forall i :: 0 <= i < |offsets| ==> NO_SYSCALL <= offsets[i] < sysent.Length
      modifies sysent
      ensures sysent[..] == Unwire(old(sysent[..]), offsets, olds, order, refused)
    {
      ghost var start := sysent[..];
      for p := 0 to |order|
        invariant Unwire(sysent[..], offsets, olds, order[p..], refused)
               == Unwire(start, offsets, olds, order, refused)
      {
        assert order[p..][0] == order[p] && order[p..][1..] == order[p + 1..];
        UnwireOne(order[p], refused);
      }
      assert order[|order|..] == [];
    }
  }
}
