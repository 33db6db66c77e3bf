/**
 The predecessor walk over the threaded binary search tree that holds the entries of a
 VM map.  An entry's `left` and `right` are either a child or a thread: with no left
 child, `left` points at the in-order predecessor, with no right child, `right` points
 at the in-order successor.  The map's header stands before the least entry and after
 the greatest one.  No tag says whether a pointer is a child or a thread: the walk has
 only one comparison of `start` to find out.
 */
module ThreadedTree {

  class Entry {
    var left: Entry
    var right: Entry
    var start: nat

    constructor (start: nat)
      ensures left == right == this && this.start == start
    {
      left, right, this.start := this, this, start;
    }
  }

  /** The tree that the pointers spell out. */
  datatype Shape = Leaf | Node(l: Shape, e: Entry, r: Shape)

  ghost function InOrder(t: Shape): seq<Entry> {
    match t
    case Leaf => []
    case Node(l, e, r) => InOrder(l) + [e] + InOrder(r)
  }

  ghost function Elements(t: Shape): set<Entry> {
    match t
    case Leaf => {}
    case Node(l, e, r) => {e} + Elements(l) + Elements(r)
  }

  ghost function First(t: Shape): (e: Entry)
    requires t.Node?
    ensures e in Elements(t)
  {
    if t.l.Leaf? then t.e else First(t.l)
  }

  ghost function Last(t: Shape): (e: Entry)
    requires t.Node?
    ensures e in Elements(t)
  {
    if t.r.Leaf? then t.e else Last(t.r)
  }

  /** The pointers of the entries of `t` are its children, or threads; `lo` and `hi` are
      the neighbours of the whole of `t`. */
  ghost predicate Threaded(t: Shape, lo: Entry, hi: Entry)
    reads Elements(t)
  {
    match t
    case Leaf => true
    case Node(l, e, r) =>
      && e.left == (if l.Leaf? then lo else l.e)
      && e.right == (if r.Leaf? then hi else r.e)
      && Threaded(l, lo, e)
      && Threaded(r, e, hi)
  }

  /** A search tree on `start`, with no two equal starts. */
  ghost predicate Ordered(t: Shape)
    reads Elements(t)
  {
    match t
    case Leaf => true
    case Node(l, e, r) =>
      && (forall x <- Elements(l) :: x.start < e.start)
      && (forall x <- Elements(r) :: e.start < x.start)
      && Ordered(l)
      && Ordered(r)
  }

  /** A well-formed map: the header's right thread leads to the least entry. */
  ghost predicate WellFormed(header: Entry, t: Shape)
    reads header, Elements(t)
  {
    && Threaded(t, header, header)
    && Ordered(t)
    && (t.Node? ==> header.right == First(t))
  }

  /** The entry before `e` in the order of `t`, where `lo` comes before all of `t`. */
  ghost function Before(t: Shape, lo: Entry, e: Entry): Entry
    requires e in Elements(t)
  {
    if e == t.e then if t.l.Leaf? then lo else Last(t.l)
    else if e in Elements(t.l) then Before(t.l, lo, e)
    else Before(t.r, t.e, e)
  }

  lemma {:induction false} FirstIsLeast(t: Shape)
    requires t.Node? && Ordered(t)
    ensures forall x <- Elements(t) :: First(t).start <= x.start
  {
    if t.l.Leaf? {
    } else {
      FirstIsLeast(t.l);
    }
  }

  /** The subtree under `e`, with its neighbours.  If it has no left child then its left
      neighbour is the predecessor, and going right from there leads to a root that is
      not below `e`. */
  lemma {:induction false} Locate(t: Shape, lo: Entry, hi: Entry, e: Entry)
    returns (s: Shape, slo: Entry, shi: Entry)
    requires Threaded(t, lo, hi) && Ordered(t) && e in Elements(t)
    ensures s.Node? && s.e == e && Threaded(s, slo, shi) && Ordered(s)
    ensures Before(t, lo, e) == if s.l.Leaf? then slo else Last(s.l)
    ensures s.l.Leaf? ==> (slo == lo && e == First(t)) || slo.right.start >= e.start
  {
    if e == t.e {
      s, slo, shi := t, lo, hi;
    } else if e in Elements(t.l) {
      s, slo, shi := Locate(t.l, lo, t.e, e);
    } else {
      s, slo, shi := Locate(t.r, t.e, hi, e);
      FirstIsLeast(t.r);
      assert t.r.e in Elements(t.r);
    }
  }

  /** The walk itself: it terminates in every well-formed map and gives the predecessor. */
  method EntryPred(header: Entry, ghost t: Shape, entry: Entry) returns (prior: Entry)
    requires WellFormed(header, t) && entry in Elements(t)
    ensures prior == Before(t, header, entry)
    ensures prior == header || (prior in Elements(t) && prior.start < entry.start)
    ensures forall x <- Elements(t) :: x.start < entry.start ==> prior in Elements(t) && x.start <= prior.start
  {
    NothingBetween(t, header, entry);
    ghost var s, slo, shi := Locate(t, header, header, entry);
    prior := entry.left;
    if prior.right.start < entry.start {
      ghost var sub, slo' := s.l.r, prior;
      prior := prior.right;
      while prior.right != entry
        invariant sub.Node? && sub.e == prior && Last(sub) == Last(s.l)
        invariant Threaded(sub, slo', entry)
        invariant forall x <- Elements(sub) :: x.start < entry.start
        decreases sub
      {
        sub, slo' := sub.r, prior;
        prior := prior.right;
      }
    }
  }

  /** What `Before` means in the order of the addresses: nothing lies between. */
  lemma {:induction false} NothingBetween(t: Shape, lo: Entry, e: Entry)
    requires Ordered(t) && e in Elements(t)
    ensures var p := Before(t, lo, e);
      && (p == lo || (p in Elements(t) && p.start < e.start))
      && forall x <- Elements(t) :: x.start < e.start ==> p in Elements(t) && x.start <= p.start
  {
    if e == t.e {
      if t.l.Node? {
        LastIsGreatest(t.l);
      }
    } else if e in Elements(t.l) {
      NothingBetween(t.l, lo, e);
    } else {
      NothingBetween(t.r, t.e, e);
    }
  }

  lemma {:induction false} LastIsGreatest(t: Shape)
    requires t.Node? && Ordered(t)
    ensures forall x <- Elements(t) :: x.start <= Last(t).start
  {
    if t.r.Leaf? {
    } else {
      LastIsGreatest(t.r);
    }
  }

  lemma {:induction false} InOrderEnds(t: Shape)
    requires t.Node?
    ensures InOrder(t)[0] == First(t)
    ensures InOrder(t)[|InOrder(t)| - 1] == Last(t)
  {
    if t.l.Leaf? {
    } else {
      InOrderEnds(t.l);
    }
    if t.r.Leaf? {
    } else {
      InOrderEnds(t.r);
    }
  }

  lemma {:induction false} InOrderIn(t: Shape, i: nat)
    requires i < |InOrder(t)|
    ensures InOrder(t)[i] in Elements(t)
  {
    var n := |InOrder(t.l)|;
    if i < n {
      InOrderIn(t.l, i);
    } else if i > n {
      InOrderIn(t.r, i - n - 1);
    }
  }

  /** The listing has every entry, and no other. */
  lemma {:induction false} InOrderAll(t: Shape, e: Entry)
    ensures e in InOrder(t) <==> e in Elements(t)
  {
    match t
    case Leaf =>
    case Node(l, _, r) =>
      InOrderAll(l, e);
      InOrderAll(r, e);
  }

  /** In the in-order listing, the predecessor is the element one place before. */
  lemma {:induction false} BeforeInOrder(t: Shape, lo: Entry, i: nat)
    requires Ordered(t) && i < |InOrder(t)|
    ensures InOrder(t)[i] in Elements(t)
    ensures Before(t, lo, InOrder(t)[i]) == if i == 0 then lo else InOrder(t)[i - 1]
  {
    var n, e := |InOrder(t.l)|, InOrder(t)[i];
    InOrderIn(t, i);
    if i < n {
      InOrderIn(t.l, i);
      assert e == InOrder(t.l)[i];
      BeforeInOrder(t.l, lo, i);
      assert i > 0 ==> InOrder(t)[i - 1] == InOrder(t.l)[i - 1];
    } else if i == n {
      if t.l.Node? {
        InOrderEnds(t.l);
        assert InOrder(t)[n - 1] == InOrder(t.l)[n - 1];
      }
    } else {
      var k := i - n - 1;
      InOrderIn(t.r, k);
      assert e == InOrder(t.r)[k];
      BeforeInOrder(t.r, t.e, k);
      assert k > 0 ==> InOrder(t)[i - 1] == InOrder(t.r)[k - 1];
    }
  }

  /** A chain of walks that starts at the greatest entry and stops at the header. */
  ghost predicate BackwardChain(header: Entry, t: Shape, chain: seq<Entry>)
    requires t.Node?
  {
    && |chain| >= 1
    && chain[0] == Last(t)
    && chain[|chain| - 1] == header
    && forall k :: 0 <= k < |chain| - 1 ==> chain[k] in Elements(t) && chain[k + 1] == Before(t, header, chain[k])
  }

  /** Iterating the walk from the greatest entry lists all entries once, in reverse. */
  lemma {:induction false} BackwardVisitsAll(header: Entry, t: Shape, chain: seq<Entry>)
    requires t.Node? && Ordered(t) && header !in Elements(t)
    requires BackwardChain(header, t, chain)
    ensures |chain| == |InOrder(t)| + 1
    ensures forall k :: 0 <= k < |InOrder(t)| ==> chain[k] == InOrder(t)[|InOrder(t)| - 1 - k]
  {
    var order, k := InOrder(t), 0;
    InOrderEnds(t);
    while k < |chain| - 1
      invariant 0 <= k < |chain| && k <= |order|
      invariant k < |order| ==> chain[k] == order[|order| - 1 - k]
      invariant k == |order| ==> chain[k] == header
      invariant forall j :: 0 <= j < k ==> chain[j] == order[|order| - 1 - j]
    {
      BeforeInOrder(t, header, |order| - 1 - k);
      k := k + 1;
    }
    if k < |order| {
      InOrderIn(t, |order| - 1 - k);
      assert false;
    }
  }

  /** The reversed listing with the header behind it. */
  ghost function Backward(header: Entry, t: Shape, k: nat): seq<Entry>
    requires k <= |InOrder(t)|
  {
    if k == 0 then [header] else [InOrder(t)[k - 1]] + Backward(header, t, k - 1)
  }

  lemma {:induction false} BackwardAt(header: Entry, t: Shape, k: nat, j: nat)
    requires k <= |InOrder(t)| && j <= k
    ensures |Backward(header, t, k)| == k + 1
    ensures Backward(header, t, k)[j] == if j < k then InOrder(t)[k - 1 - j] else header
  {
    if k == 0 {
    } else {
      BackwardAt(header, t, k - 1, if j > 0 then j - 1 else 0);
    }
  }

  /** Conversely the reversed listing, followed by the header, is what the walks give. */
  lemma ReverseIsBackwardChain(header: Entry, t: Shape)
    requires t.Node? && Ordered(t)
    ensures BackwardChain(header, t, Backward(header, t, |InOrder(t)|))
  {
    var n := |InOrder(t)|;
    var chain := Backward(header, t, n);
    InOrderEnds(t);
    BackwardAt(header, t, n, 0);
    BackwardAt(header, t, n, n);
    forall k | 0 <= k < |chain| - 1
      ensures chain[k] in Elements(t) && chain[k + 1] == Before(t, header, chain[k])
    {
      BackwardAt(header, t, n, k);
      BackwardAt(header, t, n, k + 1);
      BeforeInOrder(t, header, n - 1 - k);
    }
  }
}
