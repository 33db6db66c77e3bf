/**
 vfs.pivot: making an already mounted file system the root.  A pivot moves the target
 mount to the head of the mount list, hands it the root flag, sets the global root
 vnode and walks every process and prison to repoint what still names the old root.
 Each of these is a holder of a vnode, and each holder owns one use count.
 */
module RootPivot {
  import opened Machine

  type Vnode = nat
  type Mount = nat

  const MAXPATHLEN := 1024

  /** A process's current and root directory. */
  datatype Pwd = Pwd(cdir: Vnode, rdir: Vnode)

  datatype MountInfo = MountInfo(rootfs: bool, onName: string, busy: int)

  type Errno = e: int | e != 0 witness EINVAL

  /** What namei() answers. */
  datatype Lookup = NoEntry(error: Errno) | Found(vp: Vnode)

  datatype Request = Request(lookup: Lookup, busyError: int)

  datatype State = State(
    mountlist: seq<Mount>,
    mounts: map<Mount, MountInfo>,
    vmount: map<Vnode, Mount>,
    mountRoots: set<Vnode>,
    rootvnode: Vnode,
    procs: seq<Pwd>,
    prisons: seq<Vnode>,
    other: map<Vnode, nat>,
    usecount: map<Vnode, int>)
  {
    /** Everything that names a vnode exists. */
    ghost predicate Closed() {
      && usecount.Keys == other.Keys == vmount.Keys
      && rootvnode in usecount
      && (forall p <- procs :: p.cdir in usecount && p.rdir in usecount)
      && (forall v <- prisons :: v in usecount)
      && (forall v <- vmount :: vmount[v] in mountlist)
      && (forall m :: m in mountlist <==> m in mounts)
    }

    ghost function Holders(v: Vnode): int
      requires v in other
    {
      (if rootvnode == v then 1 else 0) + CountPwds(procs, v) + Count(prisons, v) + other[v]
    }

    /** The ledger: a vnode's use count is the number of its holders. */
    ghost predicate Balanced()
      requires Closed()
    {
      forall v <- usecount :: usecount[v] == Holders(v)
    }

    /** Exactly one mount is the root file system; it heads the list and it is the mount
        of the global root vnode. */
    ghost predicate OneRoot()
      requires Closed()
    {
      && NoDuplicates(mountlist)
      && mountlist != []
      && mountlist[0] == vmount[rootvnode]
      && forall m <- mountlist :: mounts[m].rootfs <==> m == mountlist[0]
    }

    ghost predicate Valid() {
      Closed() && Balanced() && OneRoot()
    }
  }

  ghost predicate NoDuplicates(s: seq<nat>) {
    forall i, j :: 0 <= i < j < |s| ==> s[i] != s[j]
  }

  ghost function Count(s: seq<Vnode>, v: Vnode): nat {
    if s == [] then 0 else Count(s[..|s| - 1], v) + if s[|s| - 1] == v then 1 else 0
  }

  ghost function CountPwds(s: seq<Pwd>, v: Vnode): nat {
    if s == [] then 0
    else CountPwds(s[..|s| - 1], v)
         + (if s[|s| - 1].cdir == v then 1 else 0) + (if s[|s| - 1].rdir == v then 1 else 0)
  }

  function Repoint(v: Vnode, olddp: Vnode, newdp: Vnode): Vnode {
    if v == olddp then newdp else v
  }

  function RepointPwd(p: Pwd, olddp: Vnode, newdp: Vnode): Pwd {
    Pwd(Repoint(p.cdir, olddp, newdp), Repoint(p.rdir, olddp, newdp))
  }

  ghost function RepointAll(s: seq<Vnode>, olddp: Vnode, newdp: Vnode): (r: seq<Vnode>)
    ensures |r| == |s| && forall i :: 0 <= i < |s| ==> r[i] == Repoint(s[i], olddp, newdp)
  {
    seq(|s|, i requires 0 <= i < |s| => Repoint(s[i], olddp, newdp))
  }

  ghost function RepointPwds(s: seq<Pwd>, olddp: Vnode, newdp: Vnode): (r: seq<Pwd>)
    ensures |r| == |s| && forall i :: 0 <= i < |s| ==> r[i] == RepointPwd(s[i], olddp, newdp)
  {
    seq(|s|, i requires 0 <= i < |s| => RepointPwd(s[i], olddp, newdp))
  }

  /** `k` holders move from `olddp` to `newdp`. */
  ghost function Shift(uses: map<Vnode, int>, olddp: Vnode, newdp: Vnode, k: int): map<Vnode, int>
    requires olddp in uses && newdp in uses && olddp != newdp
  {
    uses[olddp := uses[olddp] - k][newdp := uses[newdp] + k]
  }

  function Without(s: seq<Mount>, m: Mount): seq<Mount> {
    if s == [] then [] else (if s[0] == m then [] else [s[0]]) + Without(s[1..], m)
  }

  // ---- What one request does ----

  predicate Accepts(s: State, r: Request)
    requires r.lookup.Found? ==> r.lookup.vp in s.vmount && s.vmount[r.lookup.vp] in s.mounts
  {
    && r.lookup.Found?
    && r.lookup.vp in s.mountRoots
    && !s.mounts[s.vmount[r.lookup.vp]].rootfs
    && r.busyError == 0
  }

  predicate Sensible(s: State, r: Request) {
    r.lookup.Found? ==> r.lookup.vp in s.vmount && s.vmount[r.lookup.vp] in s.mounts
  }

  function PivotError(s: State, r: Request): int
    requires Sensible(s, r)
  {
    if r.lookup.NoEntry? then r.lookup.error
    else if r.lookup.vp !in s.mountRoots || s.mounts[s.vmount[r.lookup.vp]].rootfs then EINVAL
    else r.busyError
  }

  ghost function HandOver(mounts: map<Mount, MountInfo>, oldmp: Mount, newmp: Mount): map<Mount, MountInfo>
    requires oldmp in mounts && newmp in mounts
  {
    var cleared := mounts[oldmp := mounts[oldmp].(rootfs := false)];
    cleared[newmp := cleared[newmp].(rootfs := true, onName := "/")]
  }

  /** The holders of the old root among the processes and prisons, and the global root
      itself, have moved to `newdp`. */
  ghost function Moved(s: State, newdp: Vnode): State {
    s.(rootvnode := newdp,
       procs := RepointPwds(s.procs, s.rootvnode, newdp),
       prisons := RepointAll(s.prisons, s.rootvnode, newdp))
  }

  /** How many they are. */
  ghost function Movers(s: State): int {
    CountPwds(s.procs, s.rootvnode) + Count(s.prisons, s.rootvnode) + 1
  }

  /** The state after a pivot to `newdp`. */
  ghost function Pivoted(s: State, newdp: Vnode): State
    requires newdp in s.vmount && newdp in s.usecount && s.vmount[newdp] in s.mounts
    requires s.rootvnode in s.vmount && s.rootvnode in s.usecount && s.vmount[s.rootvnode] in s.mounts
    requires newdp != s.rootvnode
  {
    var newmp := s.vmount[newdp];
    Moved(s, newdp).(mountlist := [newmp] + Without(s.mountlist, newmp),
                     mounts := HandOver(s.mounts, s.vmount[s.rootvnode], newmp),
                     usecount := Shift(s.usecount, s.rootvnode, newdp, Movers(s)))
  }

  ghost function After(s: State, r: Request): State
    requires s.Valid() && Sensible(s, r)
  {
    if Accepts(s, r) then Pivoted(s, r.lookup.vp) else s
  }

  // ---- Counting ----

  lemma {:induction false} CountRepoint(s: seq<Vnode>, olddp: Vnode, newdp: Vnode, v: Vnode)
    requires olddp != newdp
    ensures Count(RepointAll(s, olddp, newdp), v)
         == if v == olddp then 0 else if v == newdp then Count(s, newdp) + Count(s, olddp) else Count(s, v)
  {
    if s == [] {
    } else {
      var r, n := RepointAll(s, olddp, newdp), |s| - 1;
      assert r[..n] == RepointAll(s[..n], olddp, newdp);
      CountRepoint(s[..n], olddp, newdp, v);
    }
  }

  lemma {:induction false} CountRepointPwds(s: seq<Pwd>, olddp: Vnode, newdp: Vnode, v: Vnode)
    requires olddp != newdp
    ensures CountPwds(RepointPwds(s, olddp, newdp), v)
         == if v == olddp then 0
            else if v == newdp then CountPwds(s, newdp) + CountPwds(s, olddp) else CountPwds(s, v)
  {
    if s == [] {
    } else {
      var r, n := RepointPwds(s, olddp, newdp), |s| - 1;
      assert r[..n] == RepointPwds(s[..n], olddp, newdp);
      CountRepointPwds(s[..n], olddp, newdp, v);
    }
  }

  lemma {:induction false} CountPrefix(s: seq<Vnode>, i: nat, v: Vnode)
    requires i < |s|
    ensures Count(s[..i + 1], v) == Count(s[..i], v) + if s[i] == v then 1 else 0
    ensures Count(s[..i + 1], v) <= Count(s, v)
    decreases |s| - i
  {
    assert s[..i + 1][..i] == s[..i];
    if i + 1 < |s| {
      CountPrefix(s, i + 1, v);
    } else {
      assert s[..i + 1] == s;
    }
  }

  lemma {:induction false} CountPwdsPrefix(s: seq<Pwd>, i: nat, v: Vnode)
    requires i < |s|
    ensures CountPwds(s[..i + 1], v)
         == CountPwds(s[..i], v) + (if s[i].cdir == v then 1 else 0) + (if s[i].rdir == v then 1 else 0)
    ensures CountPwds(s[..i + 1], v) <= CountPwds(s, v)
    decreases |s| - i
  {
    assert s[..i + 1][..i] == s[..i];
    if i + 1 < |s| {
      CountPwdsPrefix(s, i + 1, v);
    } else {
      assert s[..i + 1] == s;
    }
  }

  // ---- The mount list ----

  lemma {:induction false} WithoutMembers(s: seq<Mount>, m: Mount)
    ensures forall x :: x in Without(s, m) <==> x in s && x != m
    ensures NoDuplicates(s) ==> NoDuplicates(Without(s, m))
  {
    if s == [] {
    } else {
      WithoutMembers(s[1..], m);
      if NoDuplicates(s) {
        NoDuplicatesTail(s);
        PrependNew(s[0], Without(s[1..], m));
      }
    }
  }

  lemma PrependNew(x: nat, s: seq<nat>)
    requires x !in s && NoDuplicates(s)
    ensures NoDuplicates([x] + s)
  {
  }

  lemma NoDuplicatesTail(s: seq<nat>)
    requires NoDuplicates(s) && s != []
    ensures NoDuplicates(s[1..]) && s[0] !in s[1..]
  {
  }

  /** Moving a listed mount to the head loses none, and keeps the order of the others. */
  lemma {:induction false} MoveToHead(s: seq<Mount>, m: Mount)
    requires NoDuplicates(s) && m in s
    ensures multiset([m] + Without(s, m)) == multiset(s)
    ensures Without([m] + Without(s, m), m) == Without(s, m)
  {
    WithoutAgain(s, m);
    assert ([m] + Without(s, m))[1..] == Without(s, m);
    WithoutLosesOne(s, m);
  }

  lemma {:induction false} WithoutLosesOne(s: seq<Mount>, m: Mount)
    requires NoDuplicates(s) && m in s
    ensures multiset{m} + multiset(Without(s, m)) == multiset(s)
  {
    assert s == [s[0]] + s[1..];
    NoDuplicatesTail(s);
    if s[0] == m {
      WithoutAbsent(s[1..], m);
    } else {
      WithoutLosesOne(s[1..], m);
    }
  }

  lemma {:induction false} WithoutAbsent(s: seq<Mount>, m: Mount)
    requires m !in s
    ensures Without(s, m) == s
  {
    if s == [] {
    } else {
      WithoutAbsent(s[1..], m);
    }
  }

  lemma WithoutAgain(s: seq<Mount>, m: Mount)
    ensures Without(Without(s, m), m) == Without(s, m)
  {
    WithoutMembers(s, m);
    WithoutAbsent(Without(s, m), m);
  }

  // ---- Pivots keep the invariant ----

  /** How many hold a vnode once the holders of the old root have moved. */
  lemma MovedHolders(s: State, newdp: Vnode, v: Vnode)
    requires newdp != s.rootvnode && v in s.other
    ensures Moved(s, newdp).Holders(v)
         == s.Holders(v) + if v == s.rootvnode then -Movers(s) else if v == newdp then Movers(s) else 0
  {
    CountRepoint(s.prisons, s.rootvnode, newdp, v);
    CountRepointPwds(s.procs, s.rootvnode, newdp, v);
  }

  lemma PivotBalanced(s: State, newdp: Vnode, v: Vnode)
    requires s.Valid() && newdp in s.vmount && newdp != s.rootvnode && v in s.usecount
    ensures Pivoted(s, newdp).usecount[v] == Pivoted(s, newdp).Holders(v)
  {
    MovedHolders(s, newdp, v);
  }

  lemma RepointedKnown(procs: seq<Pwd>, prisons: seq<Vnode>, known: set<Vnode>, olddp: Vnode, newdp: Vnode)
    requires newdp in known
    requires forall p <- procs :: p.cdir in known && p.rdir in known
    requires forall v <- prisons :: v in known
    ensures forall p <- RepointPwds(procs, olddp, newdp) :: p.cdir in known && p.rdir in known
    ensures forall v <- RepointAll(prisons, olddp, newdp) :: v in known
  {
    var ps, vs := RepointPwds(procs, olddp, newdp), RepointAll(prisons, olddp, newdp);
    forall p | p in ps ensures p.cdir in known && p.rdir in known {
      var i :| 0 <= i < |ps| && ps[i] == p;
      assert procs[i] in procs;
    }
    forall v | v in vs ensures v in known {
      var i :| 0 <= i < |vs| && vs[i] == v;
      assert prisons[i] in prisons;
    }
  }

  lemma PivotClosed(s: State, newdp: Vnode)
    requires s.Closed() && newdp in s.vmount && newdp != s.rootvnode
    ensures Pivoted(s, newdp).Closed()
  {
    WithoutMembers(s.mountlist, s.vmount[newdp]);
    RepointedKnown(s.procs, s.prisons, s.usecount.Keys, s.rootvnode, newdp);
  }

  lemma PivotAllBalanced(s: State, newdp: Vnode)
    requires s.Valid() && newdp in s.vmount && newdp != s.rootvnode
    ensures Pivoted(s, newdp).Closed() && Pivoted(s, newdp).Balanced()
  {
    var t := Pivoted(s, newdp);
    PivotClosed(s, newdp);
    forall v | v in t.usecount ensures t.usecount[v] == t.Holders(v) {
      PivotBalanced(s, newdp, v);
    }
  }

  /** The root flag leaves the old mount and arrives at the new one, now at the head. */
  lemma PivotOneRoot(s: State, newdp: Vnode)
    requires s.Closed() && s.OneRoot() && newdp in s.vmount && newdp != s.rootvnode
    requires !s.mounts[s.vmount[newdp]].rootfs
    requires Pivoted(s, newdp).Closed()
    ensures Pivoted(s, newdp).OneRoot()
  {
    WithoutMembers(s.mountlist, s.vmount[newdp]);
    PrependNew(s.vmount[newdp], Without(s.mountlist, s.vmount[newdp]));
  }

  /** A request, whatever its outcome, keeps the ledger and the single root. */
  lemma RequestKeepsValid(s: State, r: Request)
    requires s.Valid() && Sensible(s, r)
    ensures After(s, r).Valid()
  {
    if Accepts(s, r) {
      assert r.lookup.vp != s.rootvnode;
      PivotAllBalanced(s, r.lookup.vp);
      PivotOneRoot(s, r.lookup.vp);
    }
  }

  ghost predicate AllSensible(s: State, rs: seq<Request>) {
    forall r <- rs :: r.lookup.Found? ==> r.lookup.vp in s.vmount
  }

  lemma SensibleRest(s: State, rs: seq<Request>)
    requires s.Valid() && AllSensible(s, rs) && rs != []
    ensures Sensible(s, rs[0]) && AllSensible(After(s, rs[0]), rs[1..])
  {
  }

  ghost function Run(s: State, rs: seq<Request>): State
    requires s.Valid() && AllSensible(s, rs)
    decreases |rs|
  {
    if rs == [] then s
    else
      SensibleRest(s, rs);
      RequestKeepsValid(s, rs[0]);
      Run(After(s, rs[0]), rs[1..])
  }

  lemma RequestKeepsRest(s: State, r: Request)
    requires s.Valid() && Sensible(s, r)
    ensures After(s, r).other == s.other
    ensures multiset(After(s, r).mountlist) == multiset(s.mountlist)
  {
    if Accepts(s, r) {
      MoveToHead(s.mountlist, s.vmount[r.lookup.vp]);
    }
  }

  /** Over any sequence of pivots: the ledger balances, there is one root, and no mount
      is lost. */
  lemma {:induction false} RunKeepsValid(s: State, rs: seq<Request>)
    requires s.Valid() && AllSensible(s, rs)
    ensures Run(s, rs).Valid()
    ensures Run(s, rs).other == s.other
    ensures multiset(Run(s, rs).mountlist) == multiset(s.mountlist)
    decreases |rs|
  {
    if rs == [] {
    } else {
      SensibleRest(s, rs);
      RequestKeepsValid(s, rs[0]);
      RequestKeepsRest(s, rs[0]);
      RunKeepsValid(After(s, rs[0]), rs[1..]);
    }
  }

  /** After a pivot no process and no prison holds the old root, nor does the global root:
      what is left of its count are the other references. */
  lemma OldRootReleased(s: State, r: Request)
    requires s.Valid() && Sensible(s, r) && Accepts(s, r)
    ensures var t, olddp := After(s, r), s.rootvnode;
      && (forall p <- t.procs :: p.cdir != olddp && p.rdir != olddp)
      && olddp !in t.prisons
      && t.rootvnode != olddp
      && t.usecount[olddp] == t.other[olddp]
      && t.mounts[s.vmount[olddp]].onName == s.mounts[s.vmount[olddp]].onName
  {
  }

  // ---- The kernel's steps ----

  /** What a pivot from `s` to `newdp` comes to, field by field.  The use counts follow from
      the ledger: each is the number of holders. */
  ghost predicate PivotedTo(s: State, t: State, newdp: Vnode)
    requires newdp in s.vmount
  {
    && t.Valid() && t.other == s.other && t.vmount == s.vmount && t.mountRoots == s.mountRoots
    && newdp != s.rootvnode && t.rootvnode == newdp
    && HoldersMoved(s, t, s.rootvnode, newdp)
    && HandedOver(s.mounts, t.mounts, s.vmount[newdp])
    && exists k :: Headed(s.mountlist, t.mountlist, s.vmount[newdp], k)
  }

  ghost predicate HoldersMoved(s: State, t: State, olddp: Vnode, newdp: Vnode) {
    && |t.procs| == |s.procs|
    && (forall i :: 0 <= i < |s.procs| ==>
          && t.procs[i].cdir == (if s.procs[i].cdir == olddp then newdp else s.procs[i].cdir)
          && t.procs[i].rdir == (if s.procs[i].rdir == olddp then newdp else s.procs[i].rdir))
    && |t.prisons| == |s.prisons|
    && (forall i :: 0 <= i < |s.prisons| ==> t.prisons[i] == if s.prisons[i] == olddp then newdp else s.prisons[i])
  }

  /** The root flag and the name "/" go to `newmp`; only the flag is taken from the others. */
  ghost predicate HandedOver(before: map<Mount, MountInfo>, after: map<Mount, MountInfo>, newmp: Mount) {
    && after.Keys == before.Keys
    && forall m <- before ::
         && after[m].rootfs == (m == newmp)
         && after[m].onName == (if m == newmp then "/" else before[m].onName)
         && after[m].busy == before[m].busy
  }

  /** `t` is `s` with its element `k`, which is `m`, moved to the head. */
  ghost predicate Headed(s: seq<Mount>, t: seq<Mount>, m: Mount, k: int) {
    0 <= k < |s| && s[k] == m && t == [m] + s[..k] + s[k + 1..]
  }

  lemma {:induction false} WithoutAt(s: seq<Mount>, m: Mount) returns (k: nat)
    requires NoDuplicates(s) && m in s
    ensures k < |s| && s[k] == m && Without(s, m) == s[..k] + s[k + 1..]
  {
    NoDuplicatesTail(s);
    if s[0] == m {
      k := 0;
      WithoutAbsent(s[1..], m);
    } else {
      k := WithoutAt(s[1..], m);
      k := k + 1;
      assert s[..k] == [s[0]] + s[1..][..k - 1];
      assert s[k + 1..] == s[1..][k..];
    }
  }

  lemma PivotHandsOver(s: State, newdp: Vnode)
    requires s.Closed() && s.OneRoot() && newdp in s.vmount && newdp != s.rootvnode
    ensures HandedOver(s.mounts, Pivoted(s, newdp).mounts, s.vmount[newdp])
  {
  }

  lemma PivotMoves(s: State, newdp: Vnode)
    requires s.Closed() && newdp in s.vmount && newdp != s.rootvnode
    ensures HoldersMoved(s, Pivoted(s, newdp), s.rootvnode, newdp)
  {
  }

  lemma PivotHeads(s: State, newdp: Vnode)
    requires s.Closed() && NoDuplicates(s.mountlist) && newdp in s.vmount && newdp != s.rootvnode
    ensures exists k :: Headed(s.mountlist, Pivoted(s, newdp).mountlist, s.vmount[newdp], k)
  {
    var k := WithoutAt(s.mountlist, s.vmount[newdp]);
    assert Headed(s.mountlist, Pivoted(s, newdp).mountlist, s.vmount[newdp], k);
  }

  lemma PivotMeaning(s: State, newdp: Vnode)
    requires s.Valid() && newdp in s.vmount && !s.mounts[s.vmount[newdp]].rootfs
    ensures newdp != s.rootvnode && PivotedTo(s, Pivoted(s, newdp), newdp)
  {
    PivotAllBalanced(s, newdp);
    PivotOneRoot(s, newdp);
    PivotHandsOver(s, newdp);
    PivotMoves(s, newdp);
    PivotHeads(s, newdp);
  }

  ghost predicate NamedRoot(s: State, m: Mount) {
    m in s.mountlist && m in s.mounts && s.mounts[m].onName == "/"
  }

  /** The new root's name is "/" afterwards, and it alone has it if and only if no other
      mount had it before: the name of the old root, for one, is not changed. */
  lemma OnlyRootName(s: State, r: Request)
    requires s.Valid() && Sensible(s, r) && Accepts(s, r)
    ensures var t, newmp := After(s, r), s.vmount[r.lookup.vp];
      && t.mountlist[0] == newmp && NamedRoot(t, newmp)
      && ((forall m: Mount :: NamedRoot(t, m) ==> m == newmp) <==> (forall m: Mount :: NamedRoot(s, m) ==> m == newmp))
  {
    var t, newmp := After(s, r), s.vmount[r.lookup.vp];
    WithoutMembers(s.mountlist, newmp);
    assert forall m: Mount :: m != newmp ==> NamedRoot(t, m) == NamedRoot(s, m);
  }

  /** What the ledger and the single root give the swap. */
  lemma ReadyToSwap(s: State, newdp: Vnode)
    requires s.Valid() && newdp in s.vmount
    ensures s.rootvnode in s.usecount && s.rootvnode in s.vmount && newdp in s.usecount
    ensures s.vmount[newdp] in s.mounts && s.vmount[s.rootvnode] in s.mounts
    ensures s.mounts[s.vmount[s.rootvnode]].rootfs
    ensures s.usecount[newdp] >= 0
    ensures s.usecount[s.rootvnode] >= CountPwds(s.procs, s.rootvnode) + Count(s.prisons, s.rootvnode) + 1
  {
  }

  ghost function Busied(mounts: map<Mount, MountInfo>, m: Mount, delta: int): map<Mount, MountInfo>
    requires m in mounts
  {
    mounts[m := mounts[m].(busy := mounts[m].busy + delta)]
  }

  lemma BusyCancels(mounts: map<Mount, MountInfo>, oldmp: Mount, newmp: Mount)
    requires oldmp in mounts && newmp in mounts && oldmp != newmp
    ensures Busied(HandOver(Busied(mounts, newmp, 1), oldmp, newmp), newmp, -1) == HandOver(mounts, oldmp, newmp)
  {
  }

  class Kernel {
    var mountlist: seq<Mount>
    var mounts: map<Mount, MountInfo>
    var vmount: map<Vnode, Mount>
    var mountRoots: set<Vnode>
    var rootvnode: Vnode
    var procs: seq<Pwd>
    var prisons: seq<Vnode>
    var usecount: map<Vnode, int>
    ghost var other: map<Vnode, nat>

    ghost function Abs(): State
      reads this
    {
      State(mountlist, mounts, vmount, mountRoots, rootvnode, procs, prisons, other, usecount)
    }

    method Vref(v: Vnode)
      requires v in usecount
      modifies this`usecount
      ensures usecount == old(usecount)[v := old(usecount)[v] + 1]
    {
      usecount := usecount[v := usecount[v] + 1];
    }

    /** Releasing a vnode that nobody holds is the error to exclude. */
    method Vrele(v: Vnode)
      requires v in usecount && usecount[v] > 0
      modifies this`usecount
      ensures usecount == old(usecount)[v := old(usecount)[v] - 1]
    {
      usecount := usecount[v := usecount[v] - 1];
    }

    /** One holder moves from `olddp` to `newdp`. */
    method MoveRef(olddp: Vnode, newdp: Vnode, ghost start: map<Vnode, int>, ghost k: nat)
      requires olddp != newdp && olddp in start && newdp in start
      requires usecount == Shift(start, olddp, newdp, k) && start[olddp] > k
      modifies this`usecount
      ensures usecount == Shift(start, olddp, newdp, k + 1)
    {
      Vref(newdp);
      Vrele(olddp);
    }

    method RepointProcs(olddp: Vnode, newdp: Vnode)
      requires olddp != newdp && olddp in usecount && newdp in usecount
      requires usecount[olddp] >= CountPwds(procs, olddp)
      modifies this`procs, this`usecount
      ensures procs == RepointPwds(old(procs), olddp, newdp)
      ensures usecount == Shift(old(usecount), olddp, newdp, CountPwds(old(procs), olddp))
    {
      for i := 0 to |procs|
        invariant |procs| == |old(procs)|
        invariant forall j :: 0 <= j < i ==> procs[j] == RepointPwd(old(procs)[j], olddp, newdp)
        invariant forall j :: i <= j < |procs| ==> procs[j] == old(procs)[j]
        invariant usecount == Shift(old(usecount), olddp, newdp, CountPwds(old(procs)[..i], olddp))
      {
        ghost var k := CountPwds(old(procs)[..i], olddp);
        CountPwdsPrefix(old(procs), i, olddp);
        var p := procs[i];
        if p.cdir == olddp {
          MoveRef(olddp, newdp, old(usecount), k);
          k := k + 1;
          p := p.(cdir := newdp);
        }
        if p.rdir == olddp {
          MoveRef(olddp, newdp, old(usecount), k);
          p := p.(rdir := newdp);
        }
        procs := procs[i := p];
      }
      assert old(procs)[..|procs|] == old(procs);
    }

    method RepointPrisons(olddp: Vnode, newdp: Vnode)
      requires olddp != newdp && olddp in usecount && newdp in usecount
      requires usecount[olddp] >= Count(prisons, olddp)
      modifies this`prisons, this`usecount
      ensures prisons == RepointAll(old(prisons), olddp, newdp)
      ensures usecount == Shift(old(usecount), olddp, newdp, Count(old(prisons), olddp))
    {
      for i := 0 to |prisons|
        invariant |prisons| == |old(prisons)|
        invariant forall j :: 0 <= j < i ==> prisons[j] == Repoint(old(prisons)[j], olddp, newdp)
        invariant forall j :: i <= j < |prisons| ==> prisons[j] == old(prisons)[j]
        invariant usecount == Shift(old(usecount), olddp, newdp, Count(old(prisons)[..i], olddp))
      {
        CountPrefix(old(prisons), i, olddp);
        if prisons[i] == olddp {
          MoveRef(olddp, newdp, old(usecount), Count(old(prisons)[..i], olddp));
          prisons := prisons[i := newdp];
        }
      }
      assert old(prisons)[..|prisons|] == old(prisons);
    }

    /** Repoint every process, the global root vnode and every prison from `olddp` to
        `newdp`, moving one use count with each. */
    method MountCheckDirs(olddp: Vnode, newdp: Vnode)
      requires olddp != newdp && olddp in usecount && newdp in usecount
      requires usecount[olddp] >= CountPwds(procs, olddp) + Count(prisons, olddp)
                                  + if rootvnode == olddp then 1 else 0
      modifies this`procs, this`prisons, this`rootvnode, this`usecount
      ensures procs == RepointPwds(old(procs), olddp, newdp)
      ensures prisons == RepointAll(old(prisons), olddp, newdp)
      ensures rootvnode == Repoint(old(rootvnode), olddp, newdp)
      ensures usecount == Shift(old(usecount), olddp, newdp,
                                CountPwds(old(procs), olddp) + Count(old(prisons), olddp)
                                + if old(rootvnode) == olddp then 1 else 0)
    {
      RepointProcs(olddp, newdp);
      if rootvnode == olddp {
        MoveRef(olddp, newdp, old(usecount), CountPwds(old(procs), olddp));
        rootvnode := newdp;
      }
      RepointPrisons(olddp, newdp);
    }

    /** The new mount goes to the head of the list and takes the root flag and the name. */
    method MoveRootFlag(oldmp: Mount, newmp: Mount)
      requires oldmp in mounts && newmp in mounts
      modifies this`mountlist, this`mounts
      ensures mountlist == [newmp] + Without(old(mountlist), newmp)
      ensures mounts == HandOver(old(mounts), oldmp, newmp)
    {
      mountlist := [newmp] + Without(mountlist, newmp);
      mounts := mounts[oldmp := mounts[oldmp].(rootfs := false)];
      mounts := mounts[newmp := mounts[newmp].(rootfs := true, onName := "/")];
    }

    /** The swap itself, entered with the new root's lookup reference held. */
    method Swap(newdp: Vnode)
      requires newdp in vmount && newdp in usecount && rootvnode in usecount && rootvnode in vmount
      requires newdp != rootvnode && vmount[newdp] != vmount[rootvnode]
      requires vmount[newdp] in mounts && vmount[rootvnode] in mounts
      requires usecount[newdp] > 0
      requires usecount[rootvnode] >= CountPwds(procs, rootvnode) + Count(prisons, rootvnode) + 1
      modifies this`mountlist, this`mounts, this`rootvnode, this`procs, this`prisons, this`usecount
      ensures mountlist == [vmount[newdp]] + Without(old(mountlist), vmount[newdp])
      ensures mounts == HandOver(old(mounts), vmount[old(rootvnode)], vmount[newdp])
      ensures rootvnode == newdp
      ensures procs == RepointPwds(old(procs), old(rootvnode), newdp)
      ensures prisons == RepointAll(old(prisons), old(rootvnode), newdp)
      ensures usecount == Shift(old(usecount)[newdp := old(usecount)[newdp] - 1], old(rootvnode), newdp,
                                CountPwds(old(procs), old(rootvnode)) + Count(old(prisons), old(rootvnode)) + 1)
    {
      var newmp := vmount[newdp];
      var olddp := rootvnode;
      var oldmp := vmount[olddp];
      MoveRootFlag(oldmp, newmp);

      // The global root vnode is set before the walk, so the walk does not move its count.
      Vref(newdp);
      rootvnode := newdp;
      MountCheckDirs(olddp, newdp);
      Vrele(olddp);       // the old global root reference
      Vrele(newdp);       // the lookup reference
    }

    /** The references and the walk in the wrong order: the walk moves the global root too. */
    method WalkFirst(newdp: Vnode)
      requires newdp in usecount && rootvnode in usecount && newdp != rootvnode
      requires usecount[rootvnode] >= Movers(Abs())
      modifies this`rootvnode, this`procs, this`prisons, this`usecount
      ensures Abs() == Moved(old(Abs()), newdp).(usecount := usecount)
      ensures usecount == Shift(old(usecount)[newdp := old(usecount)[newdp] + 2], old(rootvnode), newdp,
                                Movers(old(Abs())))
    {
      var olddp := rootvnode;
      Vref(newdp);                       // the lookup reference
      Vref(newdp);
      MountCheckDirs(olddp, newdp);
      rootvnode := newdp;
    }

    /** Why the global root vnode is set before the walk.  With the walk first, the release
        of the old root takes a reference of someone else's, or finds none (`unheld`), and
        the new root is left with a count that nobody holds. */
    method SwapWalkFirst(newdp: Vnode) returns (unheld: bool)
      requires Abs().Closed() && Abs().Balanced() && newdp in usecount && newdp != rootvnode
      modifies this`rootvnode, this`procs, this`prisons, this`usecount
      ensures Abs() == Moved(old(Abs()), newdp).(usecount := usecount)
      ensures usecount.Keys == old(usecount.Keys)
      ensures unheld <==> Abs().Holders(old(rootvnode)) == 0
      ensures !unheld ==> usecount[old(rootvnode)] == Abs().Holders(old(rootvnode)) - 1
      ensures usecount[newdp] == Abs().Holders(newdp) + 1
    {
      var olddp := rootvnode;
      MovedHolders(Abs(), newdp, olddp);
      MovedHolders(Abs(), newdp, newdp);
      WalkFirst(newdp);
      unheld := usecount[olddp] == 0;
      if !unheld {
        Vrele(olddp);
      }
      Vrele(newdp);
    }

    /** The swap with the new mount pinned, which keeps it from being unmounted meanwhile. */
    method SwapPinned(newdp: Vnode)
      requires newdp in vmount && newdp in usecount && rootvnode in usecount && rootvnode in vmount
      requires newdp != rootvnode && vmount[newdp] != vmount[rootvnode]
      requires vmount[newdp] in mounts && vmount[rootvnode] in mounts
      requires usecount[newdp] > 0
      requires usecount[rootvnode] >= Movers(Abs())
      modifies this`mountlist, this`mounts, this`rootvnode, this`procs, this`prisons, this`usecount
      ensures mountlist == [vmount[newdp]] + Without(old(mountlist), vmount[newdp])
      ensures mounts == HandOver(old(mounts), vmount[old(rootvnode)], vmount[newdp])
      ensures rootvnode == newdp
      ensures procs == RepointPwds(old(procs), old(rootvnode), newdp)
      ensures prisons == RepointAll(old(prisons), old(rootvnode), newdp)
      ensures usecount == Shift(old(usecount)[newdp := old(usecount)[newdp] - 1], old(rootvnode), newdp,
                                Movers(old(Abs())))
    {
      var newmp := vmount[newdp];
      SetBusy(newmp, 1);
      Swap(newdp);
      SetBusy(newmp, -1);
      BusyCancels(old(mounts), vmount[old(rootvnode)], newmp);
    }

    /** From the lookup's vnode on: the two refusals, the pin of the mount, the swap. */
    method PivotFound(newdp: Vnode, busyError: int) returns (error: int)
      requires newdp in vmount && newdp in usecount && rootvnode in usecount && rootvnode in vmount
      requires vmount[newdp] in mounts && vmount[rootvnode] in mounts
      requires mounts[vmount[rootvnode]].rootfs
      requires usecount[newdp] >= 0
      requires usecount[rootvnode] >= CountPwds(procs, rootvnode) + Count(prisons, rootvnode) + 1
      modifies this`mountlist, this`mounts, this`rootvnode, this`procs, this`prisons, this`usecount
      ensures error == if newdp !in mountRoots || old(mounts)[vmount[newdp]].rootfs then EINVAL else busyError
      ensures error != 0 ==> Abs() == old(Abs())
      ensures error == 0 ==> newdp != old(rootvnode) && Abs() == Pivoted(old(Abs()), newdp)
    {
      Vref(newdp);                       // namei() returns it referenced
      assert old(usecount)[newdp := old(usecount)[newdp] + 1][newdp := old(usecount)[newdp]] == old(usecount);
      var newmp := vmount[newdp];
      if newdp !in mountRoots || mounts[newmp].rootfs {
        Vrele(newdp);
        return EINVAL;
      }
      if busyError != 0 {
        Vrele(newdp);
        return busyError;
      }
      SwapPinned(newdp);
      return 0;
    }

    /** One write to vfs.pivot.  The outcomes of the path lookup and of vfs_busy() are
        parameters. */
    method PivotTo(lookup: Lookup, busyError: int) returns (error: int)
      requires Abs().Valid() && Sensible(Abs(), Request(lookup, busyError))
      modifies this
      ensures Abs() == After(old(Abs()), Request(lookup, busyError))
      ensures error == old(PivotError(Abs(), Request(lookup, busyError)))
      // success is for the root of a mount that is not the root file system and can be pinned
      ensures error == 0 <==>
        && lookup.Found? && busyError == 0
        && lookup.vp in old(mountRoots) && !old(mounts)[old(vmount)[lookup.vp]].rootfs
      ensures error == 0 ==> PivotedTo(old(Abs()), Abs(), lookup.vp)
      ensures error != 0 ==>
        && Abs() == old(Abs())
        && error == if lookup.NoEntry? then lookup.error
                    else if lookup.vp !in mountRoots || mounts[vmount[lookup.vp]].rootfs then EINVAL else busyError
    {
      if lookup.NoEntry? {
        return lookup.error;
      }
      ReadyToSwap(Abs(), lookup.vp);
      error := PivotFound(lookup.vp, busyError);
      if error == 0 {
        PivotMeaning(old(Abs()), lookup.vp);
      }
    }

    /** The handler of the sysctl: a write of a path, from init or with privilege.  The
        copy of the path and the privilege check are parameters. */
    method SysctlPivot(write: bool, len: nat, copyError: int, byInit: bool, privError: int,
                       lookup: Lookup, busyError: int)
      returns (error: int)
      requires Abs().Valid() && Sensible(Abs(), Request(lookup, busyError))
      modifies this
      ensures var allowed := write && 0 < len < MAXPATHLEN && copyError == 0 && (byInit || privError == 0);
        if allowed then
          Abs() == After(old(Abs()), Request(lookup, busyError))
          && error == old(PivotError(Abs(), Request(lookup, busyError)))
        else Abs() == old(Abs())
      ensures error == 0 <==>
        && write && 0 < len < MAXPATHLEN && copyError == 0 && (byInit || privError == 0)
        && lookup.Found? && busyError == 0
        && lookup.vp in old(mountRoots) && !old(mounts)[old(vmount)[lookup.vp]].rootfs
      ensures if error == 0 then PivotedTo(old(Abs()), Abs(), lookup.vp) else Abs() == old(Abs())
      ensures !write || len == 0 || len >= MAXPATHLEN ==> error == EINVAL
      ensures write && 0 < len < MAXPATHLEN && copyError != 0 ==> error == copyError
      ensures write && 0 < len < MAXPATHLEN && copyError == 0 && !byInit && privError != 0 ==> error == privError
    {
      if !write {
        return EINVAL;
      }
      if len == 0 || len >= MAXPATHLEN {
        return EINVAL;
      }
      if copyError != 0 {
        return copyError;
      }
      if !byInit {
        if privError != 0 {
          return privError;
        }
      }
      error := PivotTo(lookup, busyError);
    }

    method SetBusy(m: Mount, delta: int)
      requires m in mounts
      modifies this`mounts
      ensures mounts == Busied(old(mounts), m, delta)
    {
      mounts := mounts[m := mounts[m].(busy := mounts[m].busy + delta)];
    }
  }
}
