/**
 Copy objects: the kernel buffers that carry out-of-line message data from the sender's
 map to the receiver's.  vm_map_copyin() makes one, vm_map_copyout() or
 vm_map_copy_discard() frees it.
 */
module CopyObjects {
  import opened Machine
  import opened VmMap

  const HEADER: nat := 64      // sizeof(struct vm_map_copy)

  // an object that holds neither a buffer nor a VM object is Other
  datatype Kind = KernelBuffer | Other

  /** A copy object: `size` bytes of kernel memory for its header and its data. */
  class Copy {
    const kind: Kind
    const size: nat
    const data: seq<Byte>

    constructor (size: nat, data: seq<Byte>)
      ensures this.size == size && this.data == data && kind == KernelBuffer
    {
      this.kind, this.size, this.data := KernelBuffer, size, data;
    }
  }

  /** A block of kernel memory that a kernel caller sends, and how often it was freed. */
  class Block {
    const addr: nat
    const data: seq<Byte>
    ghost var freed: nat

    constructor (addr: nat, data: seq<Byte>)
      ensures this.addr == addr && this.data == data && freed == 0
    {
      this.addr, this.data, freed := addr, data, 0;
    }

    method Free()
      modifies this
      ensures freed == old(freed) + 1
    {
      freed := freed + 1;
    }
  }

  /** The kernel heap's account of copy objects: which were made, and how often each was
      passed to free(). */
  class Heap {
    ghost var made: set<Copy>
    ghost var freed: multiset<Copy>

    constructor ()
      ensures Valid() && made == {} && freed == multiset{}
    {
      made, freed := {}, multiset{};
    }

    /** Only objects that were made are freed, and none twice. */
    ghost predicate Valid()
      reads this
    {
      forall c: Copy :: c in freed ==> c in made && freed[c] == 1
    }

    ghost function Live(): set<Copy>
      reads this
    {
      set c | c in made && c !in freed
    }

    method Alloc(size: nat, data: seq<Byte>) returns (copy: Copy)
      modifies this
      ensures fresh(copy) && copy.kind == KernelBuffer && copy.size == size && copy.data == data
      ensures made == old(made) + {copy} && freed == old(freed)
    {
      copy := new Copy(size, data);
      made := made + {copy};
    }

    method Free(copy: Copy)
      modifies this
      ensures made == old(made) && freed == old(freed) + multiset{copy}
    {
      freed := freed + multiset{copy};
    }
  }

  ghost predicate AllMapped(m: map<nat, Byte>, a: nat, len: nat) {
    forall i :: a <= i < a + len ==> i in m
  }

  ghost function Contents(m: map<nat, Byte>, a: nat, len: nat): (s: seq<Byte>)
    requires AllMapped(m, a, len)
    ensures |s| == len && forall i :: 0 <= i < len ==> s[i] == m[a + i]
  {
    seq(len, i requires 0 <= i < len => m[a + i])
  }

  /** copyin(): reads up to the first address that is not mapped. */
  method ReadRange(src: Map, a: nat, len: nat) returns (fault: bool, data: seq<Byte>)
    ensures fault <==> !AllMapped(src.bytes, a, len)
    ensures !fault ==> data == Contents(src.bytes, a, len)
  {
    data := [];
    for i := 0 to len
      invariant |data| == i
      invariant forall k :: a <= k < a + i ==> k in src.bytes
      invariant forall k :: 0 <= k < i ==> data[k] == src.bytes[a + k]
    {
      if a + i !in src.bytes {
        return true, [];
      }
      data := data + [src.bytes[a + i]];
    }
    return false, data;
  }

  /** `m` with `data` written from `a` on. */
  function Overwritten(m: map<nat, Byte>, a: nat, data: seq<Byte>): (r: map<nat, Byte>)
    ensures r.Keys == m.Keys
  {
    map k | k in m :: if Within(k, a, a + |data|) then data[k - a] else m[k]
  }

  /** copyout() to memory that is mapped; it may still fault, after `limit` bytes. */
  method WriteRange(dst: Map, a: nat, data: seq<Byte>, limit: nat) returns (fault: bool, ghost n: nat)
    requires dst.Valid()
    modifies dst`bytes
    ensures dst.Valid()
    ensures fault <==> limit < |data|
    ensures n == if fault then limit else |data|
    ensures dst.bytes == Overwritten(old(dst.bytes), a, data[..n])
  {
    fault := limit < |data|;
    n := if fault then limit else |data|;
    dst.bytes := Overwritten(dst.bytes, a, if fault then data[..limit] else data);
    assert forall k: nat :: k in dst.bytes.Keys <==> k in old(dst.bytes).Keys;
  }

  /** A mapped range ends below the top of the map, so nothing wraps around. */
  lemma MappedFits(m: Map, a: nat, len: nat)
    requires m.Valid() && len > 0 && AllMapped(m.bytes, a, len)
    ensures a + len <= m.max && a + len <= RoundPage(a + len)
    ensures !Refused(a, len) && CopySize(len) == HEADER + len
  {
    assert a + len - 1 in m.bytes && Mapped(m.entries, a + len - 1);
    BelowAligned(a + len, m.max);
    RoundPageMeaning(a + len);
  }

  lemma BelowAligned(a: nat, max: nat)
    requires a <= max < WORD && OnPage(max)
    ensures a <= WORD - PAGE_SIZE
  {
  }

  /** The size asked of the kernel for an object with `len` bytes; the sum is not checked. */
  function CopySize(len: nat): nat {
    (HEADER + len) % 0x1_0000_0000_0000_0000
  }

  /** The range test of vm_map_copyin(); the sum wraps around, which RoundPage sees to. */
  predicate Refused(addr: nat, len: nat): (r: bool)
    ensures r <==> RoundPage((addr + len) % 0x1_0000_0000_0000_0000) < addr
  {
    RoundPageWraps(addr + len);
    RoundPage(addr + len) < addr
  }

  /** The object has room for its header and the data if and only if the sum fits in 64 bits,
      as it does for the 32-bit lengths of messages.  The range test does not see to it. */
  lemma CopySizeHolds(len: nat)
    requires len < WORD
    ensures HEADER + len <= CopySize(len) <==> HEADER + len < WORD
    ensures len < 0x1_0000_0000 ==> CopySize(len) == HEADER + len
    ensures exists n: nat :: n < WORD && !Refused(0, n) && CopySize(n) < HEADER
  {
    assert !Refused(0, WORD - 1) && CopySize(WORD - 1) < HEADER;
  }

  /** vm_map_copyin_internal() from a user map.  `memory` says whether the kernel has
      memory. */
  method CopyInInternal(src: Map, addr: nat, len: nat, destroy: bool, heap: Heap, memory: bool)
    returns (kr: int, copy: Copy?)
    requires src.Valid() && len > 0 && TruncPage(addr) <= RoundPage(addr + len)
    modifies src, heap
    ensures src.Valid()
    ensures kr == if !memory then KERN_RESOURCE_SHORTAGE
                  else if !AllMapped(old(src.bytes), addr, len) then EFAULT
                  else KERN_SUCCESS
    ensures copy != null <==> kr == KERN_SUCCESS
    ensures copy != null ==>
      && fresh(copy) && copy.kind == KernelBuffer && copy.size == CopySize(len)
      && copy.data == Contents(old(src.bytes), addr, len)
    ensures heap.Live() == old(heap.Live()) + if copy == null then {} else {copy}
    ensures old(heap.Valid()) ==> heap.Valid()
    ensures forall c: Copy :: old(allocated(c)) ==> heap.freed[c] == old(heap.freed)[c]
    ensures copy == null || !destroy ==> src.bytes == old(src.bytes) && src.entries == old(src.entries)
    ensures copy != null && destroy ==>
      src.bytes == Removed(old(src.bytes), TruncPage(addr), RoundPage(addr + len))
  {
    if !memory {
      return KERN_RESOURCE_SHORTAGE, null;
    }
    var fault, data := ReadRange(src, addr, len);
    copy := heap.Alloc(CopySize(len), data);
    if fault {
      heap.Free(copy);
      return EFAULT, null;
    }
    if destroy {
      src.RemoveRange(TruncPage(addr), RoundPage(addr + len));
    }
    return KERN_SUCCESS, copy;
  }

  /** vm_map_copyin() from a user map. */
  method CopyIn(src: Map, addr: nat, len: nat, destroy: bool, heap: Heap, memory: bool)
    returns (kr: int, copy: Copy?)
    requires src.Valid() && addr < WORD && len < WORD
    modifies src, heap
    ensures src.Valid()
    ensures kr == if len == 0 then KERN_SUCCESS
                  else if Refused(addr, len) then KERN_INVALID_ADDRESS
                  else if !memory then KERN_RESOURCE_SHORTAGE
                  else if !AllMapped(old(src.bytes), addr, len) then EFAULT
                  else KERN_SUCCESS
    // a range that is mapped is never refused, and its object has room for all of it
    ensures copy != null <==> len > 0 && memory && AllMapped(old(src.bytes), addr, len)
    ensures copy != null ==>
      && fresh(copy) && copy.kind == KernelBuffer && copy.size == HEADER + len
      && kr == KERN_SUCCESS && copy.data == Contents(old(src.bytes), addr, len)
    ensures heap.Live() == old(heap.Live()) + if copy == null then {} else {copy}
    ensures old(heap.Valid()) ==> heap.Valid()
    ensures forall c: Copy :: old(allocated(c)) ==> heap.freed[c] == old(heap.freed)[c]
    ensures copy == null || !destroy ==> src.bytes == old(src.bytes) && src.entries == old(src.entries)
    ensures copy != null && destroy ==>
      src.bytes == Removed(old(src.bytes), TruncPage(addr), RoundPage(addr + len))
  {
    if len == 0 {
      return KERN_SUCCESS, null;
    }
    if AllMapped(src.bytes, addr, len) {
      MappedFits(src, addr, len);
    }
    if Refused(addr, len) {
      return KERN_INVALID_ADDRESS, null;
    }
    kr, copy := CopyInInternal(src, addr, len, destroy, heap, memory);
  }

  /** vm_map_copyin() from the kernel's map.  It frees the caller's block unless the request
      is empty or refused; `destroy` makes no difference. */
  method CopyInKernel(block: Block, len: nat, destroy: bool, heap: Heap, memory: bool)
    returns (kr: int, copy: Copy?)
    requires block.addr < WORD && len <= |block.data| && len < WORD
    modifies block, heap
    ensures kr == if len == 0 then KERN_SUCCESS
                  else if Refused(block.addr, len) then KERN_INVALID_ADDRESS
                  else if !memory then KERN_RESOURCE_SHORTAGE
                  else KERN_SUCCESS
    ensures copy != null <==> kr == KERN_SUCCESS && len > 0
    ensures copy != null ==>
      fresh(copy) && copy.kind == KernelBuffer && copy.size == CopySize(len) && copy.data == block.data[..len]
    ensures block.freed == old(block.freed) + if len == 0 || Refused(block.addr, len) then 0 else 1
    ensures heap.freed == old(heap.freed)
    ensures heap.made == old(heap.made) + if copy == null then {} else {copy}
  {
    if len == 0 {
      return KERN_SUCCESS, null;
    }
    if Refused(block.addr, len) {
      return KERN_INVALID_ADDRESS, null;
    }
    if !memory {
      block.Free();
      return KERN_RESOURCE_SHORTAGE, null;
    }
    copy := heap.Alloc(CopySize(len), block.data[..len]);
    block.Free();
    return KERN_SUCCESS, copy;
  }

  /** What a copyout that has found space has done to a map: one new page-aligned range of
      `round_page(len)` bytes that meets no entry, the first `n` bytes of the data at its
      start, zeros behind. */
  ghost predicate Delivered(entries: seq<Range>, data: seq<Byte>, n: nat, at: nat,
                            entries': seq<Range>, bytes': map<nat, Byte>)
  {
    var size := RoundPage(|data|);
    && OnPage(at) && n <= |data| <= size < |data| + PAGE_SIZE
    && Gap(entries, at, size)
    && Added(entries, Range(at, at + size), entries')
    && AllMapped(bytes', at, n)
    && Contents(bytes', at, n) == data[..n]
    && forall k: nat :: Within(k, at + n, at + size) ==> k in bytes' && bytes'[k] == 0
  }

  /** Nothing of `bytes` has changed in `bytes'`. */
  ghost predicate Extends(bytes: map<nat, Byte>, bytes': map<nat, Byte>) {
    forall k <- bytes :: k in bytes' && bytes'[k] == bytes[k]
  }

  /** The receiver's map has room for `len` bytes, rounded up to pages. */
  ghost predicate Room(dst: Map, entries: seq<Range>, start: nat, len: nat) {
    HasRoom(entries, dst.min, dst.max, start, RoundPage(len))
  }

  /** The result without room; a length that rounds to 0 gets as far as the insertion. */
  function NoRoom(dst: Map, start: nat, len: nat): int {
    if RoundPage(len) == 0 && start < dst.max && dst.min < dst.max then EFAULT else ENOMEM
  }

  /** The allocation of a copyout: a new page-aligned range of zeros that meets no entry. */
  ghost predicate Allocated(entries: seq<Range>, bytes: map<nat, Byte>, len: nat, at: nat,
                            entries': seq<Range>, bytes': map<nat, Byte>)
  {
    var size := RoundPage(len);
    && OnPage(at) && len <= size < len + PAGE_SIZE
    && Gap(entries, at, size)
    && Added(entries, Range(at, at + size), entries')
    && bytes' == bytes + Zeros(at, at + size)
  }

  method AllocateRounded(dst: Map, len: nat, start: nat) returns (kr: int, addr: nat)
    requires dst.Valid() && len < WORD && OnPage(start)
    modifies dst
    ensures dst.Valid()
    ensures kr == if Room(dst, old(dst.entries), start, len) then 0 else NoRoom(dst, start, len)
    ensures kr != 0 ==> addr == 0 && dst.bytes == old(dst.bytes) && dst.entries == old(dst.entries)
    ensures kr == 0 ==> Allocated(old(dst.entries), old(dst.bytes), len, addr, dst.entries, dst.bytes)
  {
    RoundPageMeaning(len);
    RoundTwice(len);
    kr, addr := dst.Allocate(0, RoundPage(len), true, start);
  }

  /** vm_map_copyout_kernel_buffer() up to the release of the object: `limit` is how many
      bytes the write can place before it faults. */
  method Place(dst: Map, data: seq<Byte>, start: nat, limit: nat) returns (kr: int, addr: nat)
    requires dst.Valid() && |data| < WORD && OnPage(start)
    modifies dst
    ensures dst.Valid() && Extends(old(dst.bytes), dst.bytes)
    ensures kr == if !Room(dst, old(dst.entries), start, |data|) then NoRoom(dst, start, |data|)
                  else if limit < |data| then KERN_INVALID_ADDRESS else KERN_SUCCESS
    ensures kr == KERN_SUCCESS ==> Delivered(old(dst.entries), data, |data|, addr, dst.entries, dst.bytes)
    ensures kr == KERN_INVALID_ADDRESS ==> Delivered(old(dst.entries), data, limit, addr, dst.entries, dst.bytes)
    ensures kr in {ENOMEM, EFAULT} ==>
      addr == 0 && dst.bytes == old(dst.bytes) && dst.entries == old(dst.entries)
  {
    kr, addr := AllocateRounded(dst, |data|, start);
    if kr != 0 {
      return;
    }
    ghost var zeroed := dst.bytes;
    var fault, n := WriteRange(dst, addr, data, limit);
    WriteDelivers(old(dst.entries), old(dst.bytes), zeroed, data, n, addr, dst.entries, dst.bytes);
    if fault {
      kr := KERN_INVALID_ADDRESS;
    }
  }

  /** vm_map_copyout() into the current map: place the data and free the object. */
  method CopyOut(dst: Map, copy: Copy, heap: Heap, start: nat, limit: nat) returns (kr: int, addr: nat)
    requires dst.Valid() && |copy.data| < WORD && OnPage(start)
    modifies dst, heap
    ensures dst.Valid() && heap.made == old(heap.made) && Extends(old(dst.bytes), dst.bytes)
    ensures kr == if copy.kind != KernelBuffer then KERN_NOT_SUPPORTED
                  else if !Room(dst, old(dst.entries), start, |copy.data|) then NoRoom(dst, start, |copy.data|)
                  else if limit < |copy.data| then KERN_INVALID_ADDRESS else KERN_SUCCESS
    ensures kr == KERN_SUCCESS ==>
      Delivered(old(dst.entries), copy.data, |copy.data|, addr, dst.entries, dst.bytes)
    ensures kr == KERN_INVALID_ADDRESS ==>
      Delivered(old(dst.entries), copy.data, limit, addr, dst.entries, dst.bytes)
    ensures kr != KERN_SUCCESS && kr != KERN_INVALID_ADDRESS ==>
      addr == 0 && dst.bytes == old(dst.bytes) && dst.entries == old(dst.entries)
    // the object is freed if and only if the range is allocated, written or not
    ensures heap.freed == old(heap.freed)
                          + if copy.kind == KernelBuffer && Room(dst, old(dst.entries), start, |copy.data|)
                            then multiset{copy} else multiset{}
  {
    if copy.kind != KernelBuffer {
      return KERN_NOT_SUPPORTED, 0;
    }
    kr, addr := Place(dst, copy.data, start, limit);
    if kr == KERN_SUCCESS || kr == KERN_INVALID_ADDRESS {
      heap.Free(copy);
    }
  }

  lemma RoundTwice(a: nat)
    requires a < WORD
    ensures RoundPage(a) < WORD && RoundPage(RoundPage(a)) == RoundPage(a)
  {
  }

  /** Writing the first bytes of the data to the start of a fresh range delivers them, and
      touches nothing else. */
  lemma WriteDelivers(entries: seq<Range>, bytes: map<nat, Byte>, zeroed: map<nat, Byte>, data: seq<Byte>, n: nat,
                      at: nat, entries': seq<Range>, bytes': map<nat, Byte>)
    requires forall k: nat :: k in bytes <==> Mapped(entries, k)
    requires n <= |data| && Allocated(entries, bytes, |data|, at, entries', zeroed)
    requires bytes' == Overwritten(zeroed, at, data[..n])
    ensures Delivered(entries, data, n, at, entries', bytes') && Extends(bytes, bytes')
  {
    NewRange(entries, bytes, at, RoundPage(|data|));
  }

  ghost predicate Unused(bytes: map<nat, Byte>, a: nat, size: nat) {
    forall k: nat :: Within(k, a, a + size) ==> k !in bytes
  }

  /** A range that meets no entry holds no byte yet. */
  lemma NewRange(es: seq<Range>, bytes: map<nat, Byte>, a: nat, size: nat)
    requires forall k: nat :: k in bytes <==> Mapped(es, k)
    requires Gap(es, a, size)
    ensures Unused(bytes, a, size)
  {
  }

  /** vm_map_copy_discard() */
  method Discard(copy: Copy?, heap: Heap)
    modifies heap
    ensures heap.made == old(heap.made)
    ensures heap.freed == old(heap.freed) + if copy == null then multiset{} else multiset{copy}
  {
    if copy != null {
      heap.Free(copy);
    }
  }

  /** The receiver's use of them: it discards the object when the copyout fails.  That
      frees the object once, except when there is room and the write faults: then it is
      freed twice. */
  method Receive(dst: Map, copy: Copy?, heap: Heap, start: nat, limit: nat) returns (kr: int, addr: nat)
    requires dst.Valid() && OnPage(start) && (copy != null ==> |copy.data| < WORD)
    modifies dst, heap
    ensures dst.Valid() && heap.made == old(heap.made) && Extends(old(dst.bytes), dst.bytes)
    ensures copy == null ==> kr == KERN_SUCCESS && heap.freed == old(heap.freed)
    ensures copy != null ==>
      var room := copy.kind == KernelBuffer && Room(dst, old(dst.entries), start, |copy.data|);
      && (kr == KERN_SUCCESS <==> room && limit >= |copy.data|)
      && heap.freed == old(heap.freed)[copy := old(heap.freed)[copy]
                                               + if room && limit < |copy.data| then 2 else 1]
    ensures copy != null && kr == KERN_SUCCESS ==>
      Delivered(old(dst.entries), copy.data, |copy.data|, addr, dst.entries, dst.bytes)
  {
    kr, addr := KERN_SUCCESS, 0;
    if copy != null {
      kr, addr := CopyOut(dst, copy, heap, start, limit);
      if kr != KERN_SUCCESS {
        Discard(copy, heap);
        addr := 0;
      }
    }
  }

  /** Send and receive.  What arrives is what the source held at copyin, even when the
      source was removed then, and nothing that is mapped at the time of the copyout is
      touched.  `entries` and `bytes` are the receiver's map at that time: sender and
      receiver may be the same, and then it lacks what the copyin removed. */
  method Transfer(src: Map, addr: nat, len: nat, destroy: bool, memory: bool,
                  dst: Map, start: nat, limit: nat, heap: Heap)
    returns (kr: int, at: nat, ghost entries: seq<Range>, ghost bytes: map<nat, Byte>)
    requires src.Valid() && dst.Valid() && addr < WORD && 0 < len < WORD
    requires OnPage(start) && heap.Valid()
    modifies src, dst, heap
    ensures src.Valid() && dst.Valid() && Extends(bytes, dst.bytes)
    ensures WellPlaced(entries, dst.min, dst.max) && forall a: nat :: a in bytes <==> Mapped(entries, a)
    ensures var copied := memory && AllMapped(old(src.bytes), addr, len);
      var left := if copied && destroy then Removed(old(src.bytes), TruncPage(addr), RoundPage(addr + len))
                  else old(src.bytes);
      var room := Room(dst, entries, start, len);
      && (if src == dst then bytes == left
          else src.bytes == left && bytes == old(dst.bytes) && entries == old(dst.entries))
      && (kr == KERN_SUCCESS <==> copied && room && limit >= len)
      // every object made has been freed, and not twice unless there was room and no write
      && heap.Live() == old(heap.Live())
      && (heap.Valid() <==> !(copied && room && limit < len))
    ensures kr == KERN_SUCCESS ==>
      Delivered(entries, Contents(old(src.bytes), addr, len), len, at, dst.entries, dst.bytes)
  {
    var copy;
    kr, copy := CopyIn(src, addr, len, destroy, heap, memory);
    at, entries, bytes := 0, dst.entries, dst.bytes;
    if copy != null {
      kr, at := Receive(dst, copy, heap, start, limit);
    }
  }

  /** The object of a one-byte message is freed twice: the receiver has room, but its
      memory cannot be written. */
  method FaultFreesTwice() returns (heap: Heap)
    ensures fresh(heap) && !heap.Valid()
  {
    heap := new Heap();
    var src := new Map(0, 0x2000);
    var _ := src.InsertRange(0, 0x1000);
    var dst := new Map(0, 0x1000);
    assert FreeAt(dst.entries, 0, 0x1000, 0, RoundPage(1), 0);
    var kr, at, entries, bytes := Transfer(src, 0, 1, false, true, dst, 0, 0, heap);
  }
}
