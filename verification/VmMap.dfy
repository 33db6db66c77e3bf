/**
 A VM map as mach_vm_allocate sees it: a list of entries in address order and the bytes
 that are mapped.  Addresses and sizes are unsigned 64-bit values and may wrap around.
 */
module VmMap {
  import opened Machine

  function TruncPage(a: nat): nat {
    a - a % 0x1000
  }

  /** round_page() on 64 bits: it wraps to 0 in the last page, and of a sum that wraps
      around it takes what is left. */
  function RoundPage(a: nat): nat {
    TruncPage((a + PAGE_SIZE - 1) % 0x1_0000_0000_0000_0000)
  }

  lemma RoundPageWraps(a: nat)
    ensures RoundPage(a % 0x1_0000_0000_0000_0000) == RoundPage(a)
  {
    var q, r := a / 0x1_0000_0000_0000_0000, a % 0x1_0000_0000_0000_0000;
    assert a + PAGE_SIZE - 1 == q * 0x1_0000_0000_0000_0000 + (r + PAGE_SIZE - 1);
    assert (a + PAGE_SIZE - 1) % 0x1_0000_0000_0000_0000 == (r + PAGE_SIZE - 1) % 0x1_0000_0000_0000_0000;
  }

  datatype Range = Range(start: nat, end: nat)

  predicate Apart(a: Range, b: Range) {
    a.end <= b.start || b.end <= a.start
  }

  ghost predicate Aligned(r: Range) {
    OnPage(r.start) && OnPage(r.end)
  }

  /** The entries of a map: in address order, page-aligned, pairwise disjoint, within
      [lo, hi]. */
  ghost predicate WellPlaced(es: seq<Range>, lo: nat, hi: nat) {
    && (forall e <- es :: lo <= e.start < e.end <= hi && Aligned(e))
    && (forall i, j :: 0 <= i < j < |es| ==> es[i].end <= es[j].start)
  }

  ghost predicate Mapped(es: seq<Range>, a: int) {
    exists e <- es :: e.start <= a < e.end
  }

  /** A range of `size` bytes at `a` meets no entry. */
  ghost predicate Gap(es: seq<Range>, a: nat, size: nat) {
    forall e <- es :: Apart(e, Range(a, a + size))
  }

  /** `es'` is `es` with `r` put in somewhere. */
  ghost predicate Added(es: seq<Range>, r: Range, es': seq<Range>) {
    exists i :: 0 <= i <= |es| && es' == Insert(es, i, r)
  }

  function Insert(es: seq<Range>, i: nat, r: Range): seq<Range>
    requires i <= |es|
  {
    es[..i] + [r] + es[i..]
  }

  lemma InsertPlaced(es: seq<Range>, i: nat, r: Range, lo: nat, hi: nat)
    requires WellPlaced(es, lo, hi) && i <= |es|
    requires lo <= r.start < r.end <= hi && Aligned(r)
    requires forall k :: 0 <= k < i ==> es[k].end <= r.start
    requires i < |es| ==> r.end <= es[i].start
    ensures WellPlaced(Insert(es, i, r), lo, hi)
    ensures forall a :: Mapped(Insert(es, i, r), a) <==> Mapped(es, a) || r.start <= a < r.end
  {
  }

  /** Once the entries below are skipped, one comparison tells whether [start, end) is free. */
  lemma GapAt(es: seq<Range>, lo: nat, hi: nat, i: nat, start: nat, end: nat)
    requires WellPlaced(es, lo, hi) && i <= |es| && start <= end
    requires forall k :: 0 <= k < i ==> es[k].end <= start
    requires i < |es| ==> start < es[i].end
    ensures Gap(es, start, end - start) <==> i == |es| || end <= es[i].start
  {
    if i < |es| {
      assert es[i] in es;
      if end <= es[i].start {
        forall e | e in es ensures Apart(e, Range(start, end)) {
          var k :| 0 <= k < |es| && es[k] == e;
        }
      } else {
        assert !Apart(es[i], Range(start, start + (end - start)));
      }
    }
  }

  /** What is left of `e` without [s, t). */
  function ClipOne(e: Range, s: nat, t: nat): seq<Range> {
    (if e.start < s then [Range(e.start, if e.end < s then e.end else s)] else []) +
    (if e.end > t then [Range(if e.start > t then e.start else t, e.end)] else [])
  }

  function Clip(es: seq<Range>, s: nat, t: nat): seq<Range> {
    if es == [] then [] else ClipOne(es[0], s, t) + Clip(es[1..], s, t)
  }

  lemma ClipOnePlaced(e: Range, s: nat, t: nat)
    requires e.start < e.end && Aligned(e) && s <= t && OnPage(s) && OnPage(t)
    ensures WellPlaced(ClipOne(e, s, t), e.start, e.end)
  {
  }

  lemma RestPlaced(es: seq<Range>, lo: nat, hi: nat)
    requires WellPlaced(es, lo, hi) && es != []
    ensures lo <= es[0].start < es[0].end <= hi && Aligned(es[0])
    ensures WellPlaced(es[1..], es[0].end, hi)
  {
    assert es[0] in es;
    forall x | x in es[1..] ensures es[0].end <= x.start < x.end <= hi && Aligned(x) {
      var i :| 0 <= i < |es[1..]| && es[1..][i] == x;
      assert es[i + 1] == x && x in es;
    }
  }

  lemma {:induction false} ClipPlaced(es: seq<Range>, s: nat, t: nat, lo: nat, hi: nat)
    requires WellPlaced(es, lo, hi) && s <= t && OnPage(s) && OnPage(t)
    ensures WellPlaced(Clip(es, s, t), lo, hi)
  {
    if es == [] {
    } else {
      RestPlaced(es, lo, hi);
      ClipOnePlaced(es[0], s, t);
      ClipPlaced(es[1..], s, t, es[0].end, hi);
      JoinPlaced(ClipOne(es[0], s, t), Clip(es[1..], s, t), lo, es[0].start, es[0].end, hi);
    }
  }

  lemma JoinPlaced(head: seq<Range>, tail: seq<Range>, lo: nat, from: nat, mid: nat, hi: nat)
    requires WellPlaced(head, from, mid) && WellPlaced(tail, mid, hi) && lo <= from <= mid <= hi
    ensures WellPlaced(head + tail, lo, hi)
  {
  }

  lemma {:induction false} ClipMapped(es: seq<Range>, s: nat, t: nat, a: int)
    requires s <= t && forall e <- es :: e.start < e.end
    ensures Mapped(Clip(es, s, t), a) <==> Mapped(es, a) && !(s <= a < t)
  {
    if es == [] {
    } else {
      assert es[0] in es && forall e <- es[1..] :: e in es;
      ClipMapped(es[1..], s, t, a);
      ClipOneMapped(es[0], s, t, a);
      JoinMapped(ClipOne(es[0], s, t), Clip(es[1..], s, t), a);
      assert es == [es[0]] + es[1..];
      JoinMapped([es[0]], es[1..], a);
      assert Mapped([es[0]], a) <==> es[0].start <= a < es[0].end by {
        assert es[0] in [es[0]];
      }
    }
  }

  lemma ClipOneMapped(e: Range, s: nat, t: nat, a: int)
    requires s <= t && e.start < e.end
    ensures Mapped(ClipOne(e, s, t), a) <==> e.start <= a < e.end && !(s <= a < t)
  {
  }

  lemma JoinMapped(x: seq<Range>, y: seq<Range>, a: int)
    ensures Mapped(x + y, a) <==> Mapped(x, a) || Mapped(y, a)
  {
  }

  predicate Within(a: nat, start: nat, end: nat) {
    start <= a < end
  }

  function Zeros(start: nat, end: nat): (m: map<nat, Byte>)
    ensures forall a :: a in m <==> Within(a, start, end)
  {
    map a: nat | start <= a < end && Within(a, start, end) :: 0
  }

  function Removed(m: map<nat, Byte>, start: nat, end: nat): (r: map<nat, Byte>)
    ensures forall a: nat :: a in r <==> a in m && !Within(a, start, end)
    ensures forall a: nat :: a in r ==> r[a] == m[a]
  {
    map a: nat | a in m && !Within(a, start, end) :: m[a]
  }

  /** There is room for `size` bytes at `a`, in [lo, hi] and not below `start`. */
  ghost predicate FreeAt(es: seq<Range>, lo: nat, hi: nat, start: nat, size: nat, a: nat) {
    start <= a && lo <= a && a + size <= hi && OnPage(a) && Gap(es, a, size)
  }

  /** There is room somewhere. */
  ghost predicate HasRoom(es: seq<Range>, lo: nat, hi: nat, start: nat, size: nat) {
    size > 0 && exists a: nat :: FreeAt(es, lo, hi, start, size, a)
  }

  /** `a` is the lowest address with room. */
  ghost predicate LowestFree(es: seq<Range>, lo: nat, hi: nat, start: nat, size: nat, a: nat) {
    && FreeAt(es, lo, hi, start, size, a)
    && forall b: nat :: FreeAt(es, lo, hi, start, size, b) ==> a <= b
  }

  /** No address from `from` up to `a` has a gap of `size` bytes. */
  ghost predicate NoneBelow(es: seq<Range>, from: nat, a: nat, size: nat) {
    forall b: nat :: from <= b < a ==> !Gap(es, b, size)
  }

  /** An entry that is met at `a` is met up to its end. */
  lemma NoneInside(es: seq<Range>, i: nat, a: nat, size: nat)
    requires i < |es| && es[i].start < a + size
    ensures NoneBelow(es, a, es[i].end, size)
  {
    forall b: nat | a <= b < es[i].end ensures !Gap(es, b, size) {
      assert es[i] in es && !Apart(es[i], Range(b, b + size));
    }
  }

  /** The first gap is the lowest room, or there is none. */
  lemma FirstGap(es: seq<Range>, lo: nat, hi: nat, start: nat, size: nat, a: nat)
    requires Gap(es, a, size) && OnPage(a) && start <= a && lo <= a
    requires NoneBelow(es, if start < lo then lo else start, a, size)
    ensures a + size <= hi ==> LowestFree(es, lo, hi, start, size, a)
    ensures a + size > hi ==> !HasRoom(es, lo, hi, start, size)
  {
  }

  class Map {
    const min: nat
    const max: nat
    var entries: seq<Range>
    var bytes: map<nat, Byte>     // the contents of what is mapped

    ghost predicate Valid()
      reads this
    {
      && min <= max < WORD && OnPage(min) && OnPage(max)
      && WellPlaced(entries, min, max)
      && (forall a: nat :: a in bytes <==> Mapped(entries, a))
    }

    constructor (min: nat, max: nat)
      requires min <= max < WORD && OnPage(min) && OnPage(max)
      ensures Valid() && this.min == min && this.max == max && entries == [] && bytes == map[]
    {
      this.min, this.max, entries, bytes := min, max, [], map[];
    }

    /** What vm_map_findspace() answers when there is no room. */
    function NoSpace(size: nat): nat
      requires size < WORD && max < WORD
    {
      (max - size + 1) % 0x1_0000_0000_0000_0000
    }

    /** It is not a page address, so it is told from any that was found. */
    lemma NoSpaceOffPage(size: nat)
      requires Valid() && size < WORD && OnPage(size)
      ensures !OnPage(NoSpace(size))
    {
    }

    /** The first address from `from` on where `size` bytes meet no entry. */
    method SkipEntries(from: nat, size: nat) returns (a: nat)
      requires Valid() && OnPage(from) && from <= max
      ensures from <= a <= max && OnPage(a)
      ensures Gap(entries, a, size) && NoneBelow(entries, from, a, size)
    {
      a := from;
      var i := 0;
      while i < |entries| && entries[i].start < a + size
        invariant 0 <= i <= |entries| && from <= a <= max && OnPage(a)
        invariant forall k :: 0 <= k < i ==> entries[k].end <= a
        invariant NoneBelow(entries, from, a, size)
      {
        assert entries[i] in entries;
        if entries[i].end > a {
          NoneInside(entries, i, a, size);
          a := entries[i].end;
        }
        i := i + 1;
      }
      GapAt(entries, min, max, i, a, a + size);
    }

    /** vm_map_findspace(): the lowest room for `size` bytes at or above `start`. */
    method FindSpace(start: nat, size: nat) returns (a: nat)
      requires Valid() && OnPage(start) && size < WORD && OnPage(size)
      ensures a == NoSpace(size) || LowestFree(entries, min, max, start, size, a)
      ensures size > 0 ==> (a == NoSpace(size) <==> !HasRoom(entries, min, max, start, size))
      ensures size == 0 ==> (a == NoSpace(size) <==> start >= max || min == max)
    {
      NoSpaceOffPage(size);
      var from := if start < min then min else start;
      if from >= max || size > max - from {
        return NoSpace(size);
      }
      a := SkipEntries(from, size);
      FirstGap(entries, min, max, start, size, a);
      if a + size > max {
        a := NoSpace(size);
      }
    }

    /** vm_map_insert() of fresh zero-filled memory. */
    method InsertRange(start: nat, end: nat) returns (failed: bool)
      requires Valid() && OnPage(start) && OnPage(end)
      modifies this
      ensures Valid()
      ensures failed <==> !(min <= start < end <= max && Gap(old(entries), start, end - start))
      ensures failed ==> entries == old(entries) && bytes == old(bytes)
      ensures !failed ==> Added(old(entries), Range(start, end), entries)
      ensures !failed ==> bytes == old(bytes) + Zeros(start, end)
    {
      if !(min <= start < end <= max) {
        return true;
      }
      var i := 0;
      while i < |entries| && entries[i].end <= start
        invariant 0 <= i <= |entries|
        invariant forall k :: 0 <= k < i ==> entries[k].end <= start
      {
        i := i + 1;
      }
      GapAt(entries, min, max, i, start, end);
      if i < |entries| && entries[i].start < end {
        return true;
      }
      InsertPlaced(entries, i, Range(start, end), min, max);
      entries := Insert(entries, i, Range(start, end));
      bytes := bytes + Zeros(start, end);
      return false;
    }

    /** vm_map_remove() */
    method RemoveRange(start: nat, end: nat)
      requires Valid() && start <= end && OnPage(start) && OnPage(end)
      modifies this
      ensures Valid()
      ensures bytes == Removed(old(bytes), start, end)
    {
      ClipPlaced(entries, start, end, min, max);
      forall a: nat ensures Mapped(Clip(entries, start, end), a) <==> Mapped(entries, a) && !(start <= a < end) {
        ClipMapped(entries, start, end, a);
      }
      entries := Clip(entries, start, end);
      bytes := Removed(bytes, start, end);
    }

    /** The common end of mach_vm_allocate(): the checks of the range, and its insertion. */
    method AllocateAt(daddr: nat, size: nat) returns (err: int)
      requires Valid() && daddr < WORD && size < WORD && OnPage(daddr) && OnPage(size)
      modifies this
      ensures Valid()
      ensures err == if daddr < min || daddr + size > max then EINVAL
                     else if size == 0 || !Gap(old(entries), daddr, size) then EFAULT else 0
      ensures err != 0 ==> entries == old(entries) && bytes == old(bytes)
      ensures err == 0 ==> Added(old(entries), Range(daddr, daddr + size), entries)
      ensures err == 0 ==> bytes == old(bytes) + Zeros(daddr, daddr + size)
    {
      var end := (daddr + size) % 0x1_0000_0000_0000_0000;
      if daddr < min || end > max {
        return EINVAL;
      }
      if end < daddr {
        return EINVAL;
      }
      var failed := InsertRange(daddr, end);
      if failed {
        return EFAULT;
      }
      return 0;
    }

    /** The address to allocate at: the caller's, or one that has room. */
    method Choose(addr: nat, size: nat, anywhere: bool, start: nat) returns (full: bool, daddr: nat)
      requires Valid() && addr < WORD && size < WORD && OnPage(start) && OnPage(size)
      ensures full <==> anywhere && if size == 0 then start >= max || min == max
                                    else !HasRoom(entries, min, max, start, size)
      ensures !full ==> if anywhere then LowestFree(entries, min, max, start, size, daddr)
                        else daddr == TruncPage(addr)
      ensures !full ==> OnPage(daddr) && daddr < WORD
    {
      daddr := TruncPage(addr);
      full := false;
      if anywhere {
        daddr := FindSpace(start, size);
        full := daddr == NoSpace(size);
      }
    }

    /** mach_vm_allocate(): `addr` is the caller's address before and `addr'` after. */
    method Allocate(addr: nat, size0: nat, anywhere: bool, start: nat) returns (err: int, addr': nat)
      requires Valid() && addr < WORD && size0 < WORD && OnPage(start)
      modifies this
      ensures Valid()
      ensures err != 0 ==> addr' == addr && entries == old(entries) && bytes == old(bytes)
      ensures var size := RoundPage(size0);
        err == 0 ==>
          && size > 0
          && OnPage(addr') && min <= addr' && addr' + size <= max && Gap(old(entries), addr', size)
          && (if anywhere then LowestFree(old(entries), min, max, start, size, addr') else addr' == TruncPage(addr))
          && Added(old(entries), Range(addr', addr' + size), entries)
          && bytes == old(bytes) + Zeros(addr', addr' + size)
      ensures var size := RoundPage(size0);
        if !anywhere then
          var a := TruncPage(addr);
          err == if a < min || a + size > max then EINVAL
                 else if size == 0 || !Gap(old(entries), a, size) then EFAULT else 0
        else if size == 0 then
          err == if start >= max || min == max then ENOMEM else EFAULT
        else
          err == if HasRoom(old(entries), min, max, start, size) then 0 else ENOMEM
    {
      var size := RoundPage(size0);
      RoundPageMeaning(size0);
      var full, daddr := Choose(addr, size, anywhere, start);
      if full {
        return ENOMEM, addr;
      }
      err := AllocateAt(daddr, size);
      addr' := if err == 0 then daddr else addr;
    }
  }

  /** trunc_page() gives the greatest multiple of the page size that is not above `a`. */
  lemma TruncPageMeaning(a: nat)
    ensures OnPage(TruncPage(a)) && TruncPage(a) <= a < TruncPage(a) + PAGE_SIZE
  {
  }

  /** A range meets no entry if and only if none of its addresses is mapped. */
  lemma GapMeaning(m: Map, a: nat, size: nat)
    requires m.Valid() && size > 0
    ensures Gap(m.entries, a, size) <==> forall k: nat :: a <= k < a + size ==> k !in m.bytes
  {
    if !Gap(m.entries, a, size) {
      var e :| e in m.entries && !Apart(e, Range(a, a + size));
      var k := if e.start <= a then a else e.start;
      assert Mapped(m.entries, k);
    }
  }

  /** What room and the lowest free address are, in terms of what is mapped. */
  lemma RoomMeaning(m: Map, start: nat, size: nat, a: nat)
    requires m.Valid() && size > 0
    ensures FreeAt(m.entries, m.min, m.max, start, size, a) <==>
      && start <= a && m.min <= a && a + size <= m.max && a % 0x1000 == 0
      && forall k: nat :: a <= k < a + size ==> k !in m.bytes
    ensures HasRoom(m.entries, m.min, m.max, start, size) <==>
            exists b: nat :: FreeAt(m.entries, m.min, m.max, start, size, b)
    ensures LowestFree(m.entries, m.min, m.max, start, size, a) <==>
      && FreeAt(m.entries, m.min, m.max, start, size, a)
      && forall b: nat :: FreeAt(m.entries, m.min, m.max, start, size, b) ==> a <= b
  {
    GapMeaning(m, a, size);
  }

  /** round_page() gives the least multiple of the page size that is not below `a`, unless
      that does not fit in 64 bits. */
  lemma RoundPageMeaning(a: nat)
    requires a < WORD
    ensures OnPage(RoundPage(a))
    ensures if a + PAGE_SIZE - 1 < WORD then a <= RoundPage(a) < a + PAGE_SIZE else RoundPage(a) == 0
  {
  }
}
