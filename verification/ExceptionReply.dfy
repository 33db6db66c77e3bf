/**
 The reply of host_get_exception_ports and host_swap_exception_ports.  The reply structure
 reserves room for 32 elements in each of three arrays; the server sends `count` elements
 of each, packed one behind the other.  It does so by moving its pointer to the reply
 back, so that writing the field of an array lands where the packed array belongs.
 */
module ExceptionReply {
  import opened Machine

  const CAPACITY: nat := 32
  const ROOM: nat := 128          // bytes of one array in the reply structure
  const MACH_PORT_NULL: nat := 0

  /** _WALIGN_(x) */
  function WordAlign(x: nat): (r: nat)
    ensures x <= r < x + 8 && r % 8 == 0
  {
    (x + 7) / 8 * 8
  }

  /** The bytes that one array takes in the reply: the least multiple of 8 with room for
      `count` elements of 4. */
  function Stride(count: nat): (r: nat)
    ensures r % 8 == 0 && 4 * count <= r < 4 * count + 8
  {
    WordAlign(4 * count)
  }

  /** `m` with `data` at offset `a`. */
  function Put(m: seq<Byte>, a: nat, data: seq<Byte>): (r: seq<Byte>)
    requires a + |data| <= |m|
    ensures |r| == |m|
  {
    m[..a] + data + m[a + |data|..]
  }

  /** Where a reader finds array `j`: `base` is the offset of the first array. */
  function ReadArray(m: seq<Byte>, base: nat, count: nat, j: nat): seq<Byte>
    requires count <= CAPACITY && j < 3 && base + 3 * ROOM <= |m|
  {
    m[base + j * Stride(count)..base + j * Stride(count) + 4 * count]
  }

  /** The reply that holds the masks already and gets the other two arrays. */
  ghost function Packed(m: seq<Byte>, base: nat, count: nat, behaviors: seq<Byte>, flavors: seq<Byte>): seq<Byte>
    requires count <= CAPACITY && base + 3 * ROOM <= |m| && |behaviors| == |flavors| == ROOM
  {
    Put(Put(m, base + Stride(count), behaviors[..4 * count]), base + 2 * Stride(count), flavors[..4 * count])
  }

  lemma PutTwice(m: seq<Byte>, p: nat, b: seq<Byte>, q: nat, f: seq<Byte>)
    requires p + |b| <= q && q + |f| <= |m|
    ensures var r := Put(Put(m, p, b), q, f);
      && r[..p] == m[..p] && r[p..p + |b|] == b
      && r[q..q + |f|] == f && r[q + |f|..] == m[q + |f|..]
  {
  }

  /** Sequences that agree below `q` agree on every part below `q`. */
  lemma Inner(r: seq<Byte>, m: seq<Byte>, q: nat, lo: nat, hi: nat)
    requires lo <= hi <= q <= |m| && q <= |r|
    ensures r[..q] == m[..q] ==> r[lo..hi] == m[lo..hi]
  {
  }

  /** A reader with the same stride recovers all three arrays, and packing touches nothing
      in front of the second array. */
  lemma PackedRead(m: seq<Byte>, base: nat, count: nat, behaviors: seq<Byte>, flavors: seq<Byte>)
    requires count <= CAPACITY && base + 3 * ROOM <= |m| && |behaviors| == |flavors| == ROOM
    ensures var r := Packed(m, base, count, behaviors, flavors);
      && |r| == |m|
      && ReadArray(r, base, count, 0) == ReadArray(m, base, count, 0)
      && ReadArray(r, base, count, 1) == behaviors[..4 * count]
      && ReadArray(r, base, count, 2) == flavors[..4 * count]
      && r[..base + Stride(count)] == m[..base + Stride(count)]
      && r[base + 2 * Stride(count) + 4 * count..] == m[base + 2 * Stride(count) + 4 * count..]
  {
    var s, n := Stride(count), 4 * count;
    var r := Packed(m, base, count, behaviors, flavors);
    PutTwice(m, base + s, behaviors[..n], base + 2 * s, flavors[..n]);
    Inner(r, m, base + s, base, base + n);
  }

  /** Packing never needs more than the structure has. */
  lemma PackedFits(count: nat)
    requires count <= CAPACITY
    ensures 4 * count <= Stride(count) <= ROOM
  {
  }

  /** memcpy() into the reply. */
  method CopyBytes(reply: array<Byte>, at: nat, data: seq<Byte>)
    requires at + |data| <= reply.Length
    modifies reply
    ensures reply[..] == Put(old(reply[..]), at, data)
  {
    for i := 0 to |data|
      invariant forall k :: 0 <= k < i ==> reply[at + k] == data[k]
      invariant forall k :: 0 <= k < reply.Length && !(at <= k < at + i) ==> reply[k] == old(reply[k])
    {
      reply[at + i] := data[i];
    }
  }

  /** The 32 port descriptors: null names, then the handlers that there are. */
  method FillDescriptors(names: array<nat>, count: nat, handlers: seq<nat>)
    requires names.Length == CAPACITY && |handlers| == CAPACITY
    modifies names
    ensures forall i :: 0 <= i < CAPACITY ==> names[i] == if i < count then handlers[i] else MACH_PORT_NULL
  {
    for i := 0 to CAPACITY
      invariant forall k :: 0 <= k < i ==> names[k] == MACH_PORT_NULL
    {
      names[i] := MACH_PORT_NULL;
    }
    var j := if count < CAPACITY then count else CAPACITY;
    for i := 0 to j
      invariant forall k :: 0 <= k < CAPACITY ==> names[k] == if k < i then handlers[k] else MACH_PORT_NULL
    {
      names[i] := handlers[i];
    }
  }

  /** One array written through the moved pointer: `outP` is its offset, `field` that of
      the array in the structure. */
  method PackField(reply: array<Byte>, outP: int, field: nat, data: seq<Byte>, n: nat, ghost at: nat)
    requires n <= |data| && at == outP + field && at + n <= reply.Length
    modifies reply
    ensures reply[..] == Put(old(reply[..]), at, data[..n])
  {
    CopyBytes(reply, outP + field, data[..n]);
  }

  /** Packing the arrays of a reply whose masks are in place.  `base` is the offset of the
      masks, so that the structure is base + 384 bytes long. */
  method Pack(reply: array<Byte>, base: nat, count: nat, behaviors: seq<Byte>, flavors: seq<Byte>)
    returns (size: nat)
    requires count <= CAPACITY && reply.Length >= base + 3 * ROOM && |behaviors| == |flavors| == ROOM
    modifies reply
    ensures reply[..] == Packed(old(reply[..]), base, count, behaviors, flavors)
    ensures size == base + 3 * Stride(count) && size <= base + 3 * ROOM
    ensures size == base + 3 * ((4 * count + 7) / 8 * 8)
  {
    PackedFits(count);
    ghost var m := reply[..];
    var sizeofReply := base + 384;
    var outP := 0;                                // offset of the moving pointer
    var delta := WordAlign(4 * count);
    size := sizeofReply - 384 + delta;
    outP := outP + delta - ROOM;
    PackField(reply, outP, base + ROOM, behaviors, 4 * count, base + Stride(count));
    assert reply[..] == Put(m, base + Stride(count), behaviors[..4 * count]);
    delta := WordAlign(4 * count);
    size := size + delta;
    outP := outP + delta - ROOM;
    PackField(reply, outP, base + 2 * ROOM, flavors, 4 * count, base + 2 * Stride(count));
    size := size + WordAlign(4 * count);
  }
}
