/**
 mach_vm_copy: copying a range of the caller's address space within itself, one page at
 a time through a kernel buffer, from the low end to the high end.
 */
module PageCopy {
  import opened Machine

  const PAGES: nat := 0x10_0000_0000_0000          // WORD / PAGE_SIZE

  /** The address of page `p`. */
  function Base(p: nat): nat {
    p * 0x1000
  }

  /** The page of address `a`. */
  function PageOf(a: nat): nat {
    a / 0x1000
  }

  /** The contents of page `p`. */
  function GetPage(m: seq<Byte>, p: nat): (r: seq<Byte>)
    requires |m| == WORD && p < PAGES
    ensures |r| == PAGE_SIZE
  {
    m[Base(p)..Base(p + 1)]
  }

  function PutPage(m: seq<Byte>, p: nat, page: seq<Byte>): (r: seq<Byte>)
    requires |m| == WORD && p < PAGES && |page| == PAGE_SIZE
    ensures |r| == |m|
  {
    m[..Base(p)] + page + m[Base(p + 1)..]
  }

  function CopyPage(m: seq<Byte>, s: nat, d: nat): (r: seq<Byte>)
    requires |m| == WORD && s < PAGES && d < PAGES
    ensures |r| == |m|
  {
    PutPage(m, d, GetPage(m, s))
  }

  /** The page after `p`; addresses are 64-bit. */
  function Next(p: nat): (r: nat)
    requires p < PAGES
    ensures r < PAGES
  {
    if p + 1 == PAGES then 0 else p + 1
  }

  /** Which pages the process may read and write.  No process has the top page. */
  datatype Access = Access(readable: set<nat>, writable: set<nat>)

  ghost predicate UserOnly(acc: Access) {
    PAGES - 1 !in acc.readable && PAGES - 1 !in acc.writable
  }

  predicate CanCopy(acc: Access, s: nat, d: nat) {
    s in acc.readable && d in acc.writable
  }

  datatype Result = Result(mem: seq<Byte>, ok: bool)

  /** `n` page copies from page `s` on to page `d` on, up to the first page that may not be
      read or written. */
  ghost function CopyPages(m: seq<Byte>, acc: Access, s: nat, d: nat, n: nat): (r: Result)
    requires |m| == WORD && s < PAGES && d < PAGES
    ensures |r.mem| == |m|
    decreases n
  {
    if n == 0 then Result(m, true)
    else if !CanCopy(acc, s, d) then Result(m, false)
    else CopyPages(CopyPage(m, s, d), acc, Next(s), Next(d), n - 1)
  }

  /** How often the loop body runs: the test comes after the body and `size` is unsigned,
      so that a size of zero goes through all the pages there are. */
  function Turns(size: nat): nat {
    if size == 0 then PAGES else PageOf(size)
  }

  method CopyIn(mem: array<Byte>, acc: Access, src: nat, buf: array<Byte>) returns (fault: bool)
    requires mem.Length == WORD && buf.Length == PAGE_SIZE && buf != mem
    requires PageOf(src) < PAGES && OnPage(src)
    modifies buf
    ensures fault <==> PageOf(src) !in acc.readable
    ensures !fault ==> buf[..] == GetPage(mem[..], PageOf(src))
  {
    if PageOf(src) !in acc.readable {
      return true;
    }
    ghost var p := PageOf(src);
    assert src == Base(p);
    forall i | 0 <= i < PAGE_SIZE {
      buf[i] := mem[src + i];
    }
    return false;
  }

  method CopyOut(buf: array<Byte>, mem: array<Byte>, acc: Access, dst: nat) returns (fault: bool)
    requires mem.Length == WORD && buf.Length == PAGE_SIZE && buf != mem
    requires PageOf(dst) < PAGES && OnPage(dst)
    modifies mem
    ensures fault <==> PageOf(dst) !in acc.writable
    ensures mem[..] == if fault then old(mem[..]) else PutPage(old(mem[..]), PageOf(dst), buf[..])
  {
    if PageOf(dst) !in acc.writable {
      return true;
    }
    ghost var p := PageOf(dst);
    assert dst == Base(p);
    forall i | 0 <= i < PAGE_SIZE {
      mem[dst + i] := buf[i];
    }
    return false;
  }

  /** The two copies of one turn. */
  method CopyThrough(mem: array<Byte>, acc: Access, src: nat, dst: nat, tmpbuf: array<Byte>) returns (fault: bool)
    requires mem.Length == WORD && tmpbuf.Length == PAGE_SIZE && tmpbuf != mem
    requires PageOf(src) < PAGES && OnPage(src)
    requires PageOf(dst) < PAGES && OnPage(dst)
    modifies mem, tmpbuf
    ensures fault <==> !CanCopy(acc, PageOf(src), PageOf(dst))
    ensures mem[..] == if fault then old(mem[..]) else CopyPage(old(mem[..]), PageOf(src), PageOf(dst))
  {
    fault := CopyIn(mem, acc, src, tmpbuf);
    assert mem[..] == old(mem[..]);
    if !fault {
      fault := CopyOut(tmpbuf, mem, acc, dst);
    }
  }

  /** The loop: the body comes before the test of what is left. */
  method CopyAll(mem: array<Byte>, acc: Access, src0: nat, size0: nat, dst0: nat) returns (fault: bool)
    requires mem.Length == WORD
    requires src0 < WORD && dst0 < WORD && size0 < WORD
    requires OnPage(src0) && OnPage(dst0) && OnPage(size0)
    modifies mem
    ensures Result(mem[..], !fault) == CopyPages(old(mem[..]), acc, PageOf(src0), PageOf(dst0), Turns(size0))
  {
    var src: nat, dst: nat, size: nat := src0, dst0, size0;
    var tmpbuf := new Byte[PAGE_SIZE];
    ghost var left: nat, s: nat, d: nat := Turns(size), PageOf(src), PageOf(dst);
    ghost var goal := CopyPages(mem[..], acc, s, d, left);
    while true
      invariant s < PAGES && d < PAGES && src == Base(s) && dst == Base(d)
      invariant size < WORD && OnPage(size) && left == Turns(size)
      invariant CopyPages(mem[..], acc, s, d, left) == goal
      decreases left
    {
      Address(src, s);
      Address(dst, d);
      LessToGo(size);
      fault := CopyThrough(mem, acc, src, dst, tmpbuf);
      if fault {
        return;
      }
      src, dst, size := Add(src, PAGE_SIZE), Add(dst, PAGE_SIZE), Subtract(size, PAGE_SIZE);
      left, s, d := left - 1, Next(s), Next(d);
      if size == 0 {
        break;
      }
    }
  }

  method MachVmCopy(mem: array<Byte>, acc: Access, src: nat, size: nat, dst: nat) returns (kr: int)
    requires mem.Length == WORD
    requires src < WORD && dst < WORD && size < WORD
    modifies mem
    ensures !OnPage(src) || !OnPage(dst) || !OnPage(size) ==> kr == KERN_INVALID_ARGUMENT && mem[..] == old(mem[..])
    ensures OnPage(src) && OnPage(dst) && OnPage(size) ==>
              var r := CopyPages(old(mem[..]), acc, PageOf(src), PageOf(dst), Turns(size));
              mem[..] == r.mem && kr == if r.ok then KERN_SUCCESS else KERN_FAILURE
    ensures OnPage(src) && OnPage(dst) && OnPage(size) && UserOnly(acc) ==>
      (kr == KERN_SUCCESS <==>
        && 0 < size && src + size < WORD && dst + size < WORD
        && (forall a: nat :: src <= a < src + size ==> PageOf(a) in acc.readable)
        && (forall a: nat :: dst <= a < dst + size ==> PageOf(a) in acc.writable))
    ensures kr == KERN_SUCCESS && UserOnly(acc) ==>
      src + size <= WORD && dst + size <= WORD && Copies(old(mem[..]), mem[..], src, dst, size)
  {
    if !OnPage(src) || !OnPage(dst) || !OnPage(size) {
      return KERN_INVALID_ARGUMENT;
    }
    if UserOnly(acc) {
      CopySucceeds(mem[..], acc, src, dst, size);
      if CopyPages(mem[..], acc, PageOf(src), PageOf(dst), Turns(size)).ok {
        CopyLaw(mem[..], acc, src, dst, size);
      }
    }
    var fault := CopyAll(mem, acc, src, size, dst);
    return if fault then KERN_FAILURE else KERN_SUCCESS;
  }

  /** Addition and subtraction of unsigned 64-bit values. */
  function Add(a: nat, b: nat): nat {
    (a + b) % 0x1_0000_0000_0000_0000
  }

  function Subtract(a: nat, b: nat): nat {
    (a - b) % 0x1_0000_0000_0000_0000
  }

  lemma Address(a: nat, p: nat)
    requires a == Base(p) && p < PAGES
    ensures PageOf(a) == p && OnPage(a)
    ensures Add(a, PAGE_SIZE) == Base(Next(p))
  {
  }

  lemma LessToGo(size: nat)
    requires size < WORD && OnPage(size)
    ensures var next := Subtract(size, PAGE_SIZE);
      && next < WORD && OnPage(next)
      && Turns(size) == if next == 0 then 1 else 1 + Turns(next)
  {
  }

  // ---- What the copy means ----

  /** The copy succeeds exactly when every page of the source may be read and every page of
      the destination written, and then neither range reaches the top page of the address
      space. */
  lemma {:induction false} SucceedsWhenAccessible(m: seq<Byte>, acc: Access, s: nat, d: nat, n: nat)
    requires |m| == WORD && s < PAGES && d < PAGES && UserOnly(acc) && n > 0
    ensures CopyPages(m, acc, s, d, n).ok <==>
      && s + n < PAGES && d + n < PAGES
      && (forall p: nat :: s <= p < s + n ==> p in acc.readable)
      && (forall p: nat :: d <= p < d + n ==> p in acc.writable)
    decreases n
  {
    if n == 1 {
    } else if s in acc.readable && d in acc.writable {
      SucceedsWhenAccessible(CopyPage(m, s, d), acc, Next(s), Next(d), n - 1);
    }
  }

  /** `m'` is `m` with page `s` copied to page `d`. */
  ghost predicate Copied(m: seq<Byte>, m': seq<Byte>, s: nat, d: nat) {
    && |m| == |m'| == WORD && s < PAGES && d < PAGES
    && forall a {:trigger m'[a]} :: 0 <= a < WORD ==>
         m'[a] == if Base(d) <= a < Base(d + 1) then m[Base(s) + (a - Base(d))] else m[a]
  }

  lemma CopyPageCopied(m: seq<Byte>, s: nat, d: nat)
    requires |m| == WORD && s < PAGES && d < PAGES
    ensures Copied(m, CopyPage(m, s, d), s, d)
  {
  }

  /** The memories a copy of `n` pages goes through. */
  ghost predicate Memories(ms: seq<seq<Byte>>, s: nat, d: nat, n: nat) {
    && |ms| == n + 1 && s + n < PAGES && d + n < PAGES
    && |ms[0]| == |ms[n]| == WORD
    && forall k :: 0 <= k < n ==> Turn(ms, s, d, k)
  }

  /** From memory `k` to the next, page s + k is copied to page d + k. */
  ghost predicate Turn(ms: seq<seq<Byte>>, s: nat, d: nat, k: nat)
    requires k + 1 < |ms|
  {
    Copied(ms[k], ms[k + 1], s + k, d + k)
  }

  lemma {:induction false} CopyMemories(m: seq<Byte>, acc: Access, s: nat, d: nat, n: nat) returns (ms: seq<seq<Byte>>)
    requires |m| == WORD && s + n < PAGES && d + n < PAGES && CopyPages(m, acc, s, d, n).ok
    ensures Memories(ms, s, d, n) && ms[0] == m && ms[n] == CopyPages(m, acc, s, d, n).mem
    decreases n
  {
    if n == 0 {
      ms := [m];
    } else {
      var rest := CopyMemories(CopyPage(m, s, d), acc, s + 1, d + 1, n - 1);
      ms := [m] + rest;
      Prepended(m, rest, s, d, n);
    }
  }

  lemma Prepended(m: seq<Byte>, rest: seq<seq<Byte>>, s: nat, d: nat, n: nat)
    requires n > 0 && |m| == WORD && s < PAGES && d < PAGES
    requires Memories(rest, s + 1, d + 1, n - 1) && rest[0] == CopyPage(m, s, d)
    ensures Memories([m] + rest, s, d, n)
  {
    var ms := [m] + rest;
    CopyPageCopied(m, s, d);
    assert Turn(ms, s, d, 0);
    forall k: nat | 0 < k < n ensures Turn(ms, s, d, k) {
      assert Turn(rest, s + 1, d + 1, k - 1);
    }
  }

  lemma {:induction false} OutsideUnchanged(ms: seq<seq<Byte>>, s: nat, d: nat, n: nat, k: nat, a: nat)
    requires Memories(ms, s, d, n) && k <= n
    requires a < WORD && !(Base(d) <= a < Base(d + k))
    ensures |ms[k]| == WORD && ms[k][a] == ms[0][a]
  {
    if k == 0 {
    } else {
      OutsideUnchanged(ms, s, d, n, k - 1, a);
      assert Turn(ms, s, d, k - 1);
    }
  }

  /** Where byte `i` of the destination comes from.  Copying down or in place is memmove.
      Copying up repeats the first dst - src bytes. */
  ghost function Origin(src: nat, dst: nat, i: nat): nat {
    if dst <= src then src + i else src + i % (dst - src)
  }

  lemma Multiple(k: int, d: nat)
    requires k >= 1
    ensures k * d >= d
  {
  }

  lemma Distribute(a: int, b: int, d: int)
    ensures (a - b) * d == a * d - b * d
  {
  }

  lemma QuotientUnique(d: nat, q: int, r: nat, q': int, r': nat)
    requires r < d && r' < d && q * d + r == q' * d + r'
    ensures r == r'
  {
    Distribute(q, q', d);
    Distribute(q', q, d);
    if q > q' {
      Multiple(q - q', d);
    } else if q < q' {
      Multiple(q' - q, d);
    }
  }

  lemma Division(x: nat, d: nat)
    requires d > 0
    ensures x == x / d * d + x % d && 0 <= x % d < d
  {
  }

  /** A byte a whole period further on has the same origin. */
  lemma SameOrigin(src: nat, dst: nat, i: nat)
    requires dst > src && i >= dst - src
    ensures Origin(src, dst, i) == Origin(src, dst, i - (dst - src))
  {
    var d := dst - src;
    var x := i - d;
    Division(i, d);
    Division(x, d);
    assert (x / d + 1) * d == x / d * d + d;
    QuotientUnique(d, x / d + 1, x % d, i / d, i % d);
  }

  /** The first bytes come from where they say. */
  lemma FirstOrigin(src: nat, dst: nat, i: nat)
    requires dst > src ==> i < dst - src
    ensures Origin(src, dst, i) == src + i
  {
  }

  lemma OriginBound(src: nat, dst: nat, i: nat)
    ensures Origin(src, dst, i) <= src + i
  {
  }

  /** One law for disjoint and overlapping ranges: after `k` pages, byte `i` holds what was
      at its origin in the beginning. */
  lemma {:induction false} CopiedByte(ms: seq<seq<Byte>>, s: nat, d: nat, n: nat, k: nat, i: nat)
    requires Memories(ms, s, d, n) && k <= n && i < Base(k)
    ensures |ms[k]| == WORD && Base(d) + i < WORD && Origin(Base(s), Base(d), i) < WORD
    ensures ms[k][Base(d) + i] == ms[0][Origin(Base(s), Base(d), i)]
  {
    var src, dst := Base(s), Base(d);
    assert Turn(ms, s, d, k - 1);
    OriginBound(src, dst, i);
    if i < Base(k - 1) {
      CopiedByte(ms, s, d, n, k - 1, i);
    } else if dst > src && i >= dst - src {
      CopiedByte(ms, s, d, n, k - 1, i - (dst - src));
      SameOrigin(src, dst, i);
    } else {
      OutsideUnchanged(ms, s, d, n, k - 1, src + i);
      FirstOrigin(src, dst, i);
    }
  }

  lemma MemoriesLaw(ms: seq<seq<Byte>>, s: nat, d: nat, n: nat)
    requires Memories(ms, s, d, n)
    ensures Copies(ms[0], ms[n], Base(s), Base(d), Base(n))
  {
    forall i | 0 <= i < Base(n) ensures CopiedAt(ms[0], ms[n], Base(s), Base(d), i) {
      CopiedByte(ms, s, d, n, n, i);
    }
    forall a | 0 <= a < WORD && !(Base(d) <= a < Base(d) + Base(n)) ensures ms[n][a] == ms[0][a] {
      OutsideUnchanged(ms, s, d, n, n, a);
    }
  }

  ghost predicate CopiedAt(m: seq<Byte>, t: seq<Byte>, src: nat, dst: nat, i: nat) {
    && Origin(src, dst, i) < |m| && dst + i < |t|
    && t[dst + i] == m[Origin(src, dst, i)]
  }

  /** `t` is `m` after `size` bytes were copied from `src` to `dst`, lowest page first. */
  ghost predicate Copies(m: seq<Byte>, t: seq<Byte>, src: nat, dst: nat, size: nat) {
    && |t| == |m|
    && (forall i: nat :: i < size ==> CopiedAt(m, t, src, dst, i))
    && (forall a :: 0 <= a < |m| && !(dst <= a < dst + size) ==> t[a] == m[a])
  }

  /** The same said of every byte of memory. */
  lemma CopiesMeaning(m: seq<Byte>, t: seq<Byte>, src: nat, dst: nat, size: nat)
    requires Copies(m, t, src, dst, size) && src + size <= |m| && dst + size <= |m|
    ensures forall a {:trigger t[a]} :: 0 <= a < |m| ==>
      t[a] == if !(dst <= a < dst + size) then m[a]
              else if dst <= src then m[src + (a - dst)]
              else m[src + (a - dst) % (dst - src)]
  {
    forall a {:trigger t[a]} | 0 <= a < |m|
      ensures t[a] == if !(dst <= a < dst + size) then m[a]
                      else if dst <= src then m[src + (a - dst)]
                      else m[src + (a - dst) % (dst - src)]
    {
      if dst <= a < dst + size {
        assert CopiedAt(m, t, src, dst, a - dst);
      }
    }
  }

  /** What a successful mach_vm_copy of `size` bytes does to the whole of memory. */
  lemma CopyLaw(m: seq<Byte>, acc: Access, src: nat, dst: nat, size: nat)
    requires |m| == WORD && UserOnly(acc)
    requires src < WORD && dst < WORD && size < WORD
    requires OnPage(src) && OnPage(dst) && OnPage(size)
    requires CopyPages(m, acc, PageOf(src), PageOf(dst), Turns(size)).ok
    ensures size > 0 && src + size < WORD && dst + size < WORD
    ensures Copies(m, CopyPages(m, acc, PageOf(src), PageOf(dst), Turns(size)).mem, src, dst, size)
    ensures var t := CopyPages(m, acc, PageOf(src), PageOf(dst), Turns(size)).mem;
      && |t| == |m|
      && forall a {:trigger t[a]} :: 0 <= a < |m| ==>
           t[a] == if !(dst <= a < dst + size) then m[a]
                   else if dst <= src then m[src + (a - dst)]
                   else m[src + (a - dst) % (dst - src)]
  {
    var s, d, n := PageOf(src), PageOf(dst), Turns(size);
    SucceedsWhenAccessible(m, acc, s, d, n);
    assert src == Base(s) && dst == Base(d) && size == Base(n);
    var ms := CopyMemories(m, acc, s, d, n);
    MemoriesLaw(ms, s, d, n);
    CopiesMeaning(m, CopyPages(m, acc, s, d, n).mem, src, dst, size);
  }

  /** When it succeeds, in bytes: the source may be read, the destination written, and there
      is something to copy. */
  lemma CopySucceeds(m: seq<Byte>, acc: Access, src: nat, dst: nat, size: nat)
    requires |m| == WORD && UserOnly(acc)
    requires src < WORD && dst < WORD && size < WORD
    requires OnPage(src) && OnPage(dst) && OnPage(size)
    ensures CopyPages(m, acc, PageOf(src), PageOf(dst), Turns(size)).ok <==>
      && 0 < size && src + size < WORD && dst + size < WORD
      && (forall a: nat :: src <= a < src + size ==> PageOf(a) in acc.readable)
      && (forall a: nat :: dst <= a < dst + size ==> PageOf(a) in acc.writable)
  {
    var s, d, n := PageOf(src), PageOf(dst), Turns(size);
    SucceedsWhenAccessible(m, acc, s, d, n);
    PagesOfRange(src, size, acc.readable);
    PagesOfRange(dst, size, acc.writable);
  }

  /** A set of pages holds a range of bytes if and only if it holds its pages. */
  lemma PagesOfRange(src: nat, size: nat, pages: set<nat>)
    requires OnPage(src) && OnPage(size)
    ensures (forall a: nat :: src <= a < src + size ==> PageOf(a) in pages) <==>
            (forall p: nat :: PageOf(src) <= p < PageOf(src) + PageOf(size) ==> p in pages)
  {
    if forall a: nat :: src <= a < src + size ==> PageOf(a) in pages {
      forall p: nat | PageOf(src) <= p < PageOf(src) + PageOf(size) ensures p in pages {
        assert PageOf(Base(p)) == p;
      }
    }
  }

  /** A request for no bytes fails, whatever the addresses. */
  lemma ZeroSizeFails(m: seq<Byte>, acc: Access, s: nat, d: nat)
    requires |m| == WORD && s < PAGES && d < PAGES && UserOnly(acc)
    ensures !CopyPages(m, acc, s, d, Turns(0)).ok
  {
    SucceedsWhenAccessible(m, acc, s, d, PAGES);
  }

  /** A copy that fails at page `k` has done the `k` pages before it. */
  lemma {:induction false} FailureKeepsPrefix(m: seq<Byte>, acc: Access, s: nat, d: nat, n: nat, k: nat)
    requires |m| == WORD && s + k < PAGES && d + k < PAGES
    requires k < n
    requires forall p: nat :: s <= p < s + k ==> p in acc.readable
    requires forall p: nat :: d <= p < d + k ==> p in acc.writable
    requires s + k !in acc.readable || d + k !in acc.writable
    ensures var r := CopyPages(m, acc, s, d, n);
      !r.ok && r.mem == CopyPages(m, acc, s, d, k).mem
    decreases k
  {
    if k == 0 {
    } else {
      FailureKeepsPrefix(CopyPage(m, s, d), acc, s + 1, d + 1, n - 1, k - 1);
    }
  }
}
