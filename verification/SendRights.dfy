/**
 Ownership of send rights on three paths that run concurrently: the kext load request,
 the device-event watches and the swap of a host special port.  A thread copies a right
 under a lock, drops the lock, and spends the right later; meanwhile another thread may
 swap the slot the right was copied from and release the old one.

 A state is one kernel with any number of threads; one event is one atomic step of one
 thread, chosen by the scheduler.  Every access to a port goes through operations that
 crash on a freed port, as do releases and sends that no right backs.
 */
module SendRights {

  type Port = nat

  /** A slot: no port, a dead name, or a send right. */
  datatype Right = Null | Dead | Live(p: Port)

  /** The port's own counters. A port whose reference count reaches 0 is freed. */
  datatype PortState = PortState(active: bool, srights: int, refs: int)

  datatype Which = Bootstrap | Kextd

  /** Where a thread is, with the rights it holds. */
  datatype Pc =
    | Idle
      // sys_host_set_special_port_trap
    | SetCopied(which: Which, right: Right)   // copied in, slot not yet swapped
    | SetSwapped(prev: Right)                 // slot swapped, old right not yet released
      // iokit_kextd_send
    | KextCopied(p: Port)                     // copied under the host lock, lock dropped
    | KextMessage(p: Port)                    // message built around the right
      // ioreg_watch_register over iokit_notify_copyin_port
    | WatchCopied(p: Port)                    // copied in, watch not yet linked
      // ioreg_emit_event: pass 1, holding the watch lock
    | Walk(i: nat, snap: seq<Port>)           // next watch to look at
    | WalkAlive(i: nat, snap: seq<Port>)      // watch i was seen alive and matches
    | WalkPrune(i: nat, snap: seq<Port>, p: Port) // dead watch unlinked, right not yet released
      // ioreg_emit_event: pass 2, no lock held
    | Sending(snap: seq<Port>)                // iokit_notify_send not yet begun for the first
    | SendAlive(p: Port, snap: seq<Port>)     // seen alive
    | SendFailed(p: Port, snap: seq<Port>)    // dead, or no memory: right to be released
    | SendMessage(p: Port, snap: seq<Port>)   // message built around the right

  datatype State = State(
    ports: map<Port, PortState>,
    elsewhere: map<Port, nat>,       // rights in the name tables of tasks
    slot: map<Which, Right>,         // realhost.special[]
    watches: seq<Port>,
    watchLock: bool,
    queued: multiset<Port>,          // destinations of messages in flight
    dropping: multiset<Port>,        // references given up, ip_release() still to come
    threads: seq<Pc>)

  datatype Outcome = Crash | Ok(s: State)

  // ---- The port operations ----

  /** ipc_port_copy_send() on a valid port: live port -> one more right, dead port -> Dead. */
  function CopySend(s: State, p: Port): Outcome {
    if p !in s.ports then Crash
    else
      var q := s.ports[p];
      if !q.active then Ok(s)
      else if q.srights <= 0 || q.refs <= 0 then Crash
      else Ok(s.(ports := s.ports[p := q.(srights := q.srights + 1, refs := q.refs + 1)]))
  }

  /** ip_release(): the last reference frees the port. */
  function Unref(s: State, p: Port): Outcome {
    if p !in s.ports || s.ports[p].refs <= 0 then Crash
    else
      var q := s.ports[p];
      if q.refs == 1 then Ok(s.(ports := s.ports - {p}, elsewhere := s.elsewhere - {p}))
      else Ok(s.(ports := s.ports[p := q.(refs := q.refs - 1)]))
  }

  /** ipc_port_release_send() up to where it unlocks the port: a live port has one send right
      less.  The ip_release() that follows is a step of its own, before which any thread may
      run, the releasing one included. */
  function ReleaseSend(s: State, p: Port): Outcome {
    if p !in s.ports then Crash
    else
      var q := s.ports[p];
      var t := s.(dropping := s.dropping + multiset{p});
      if !q.active then Ok(t)
      else if q.srights <= 0 then Crash
      else Ok(t.(ports := s.ports[p := q.(srights := q.srights - 1)]))
  }

  /** One of the outstanding ip_release() calls. */
  function Dropped(s: State, p: Port): Outcome {
    if p in s.dropping then Unref(s.(dropping := s.dropping - multiset{p}), p) else Ok(s)
  }

  /** A task names a right to the live port `p`, so that ipc_object_copyin() can copy it. */
  predicate Denotes(s: State, p: Port) {
    p in s.ports && s.ports[p].active && p in s.elsewhere && s.elsewhere[p] > 0
  }

  function At(o: Outcome, i: nat, pc: Pc): Outcome {
    if o.Ok? && i < |o.s.threads| then Ok(o.s.(threads := o.s.threads[i := pc])) else o
  }

  /** ipc_mqueue_send_always(): the message takes the right; for a dead port the message
      is destroyed and the reference given up. */
  function Send(s: State, p: Port): Outcome {
    if p !in s.ports then Crash
    else
      var q := s.ports[p];
      if !q.active then Ok(s.(dropping := s.dropping + multiset{p}))
      else if q.srights <= 0 || q.refs <= 0 then Crash
      else Ok(s.(queued := s.queued + multiset{p}))
  }

  // ---- Steps ----

  datatype Event =
    | SetBegin(i: nat, which: Which, right: Right)
    | SetSwap(i: nat)
    | SetRelease(i: nat)
    | KextCopy(i: nat)
    | KextAlloc(i: nat, ok: bool)
    | KextSend(i: nat)
    | WatchCopyIn(i: nat, p: Port)
    | WatchLink(i: nat)
    | EmitBegin(i: nat)
    | WalkLook(i: nat, matches: bool)
    | WalkCopy(i: nat)
    | WalkRelease(i: nat)
    | WalkEnd(i: nat)
    | SendLook(i: nat)
    | SendAlloc(i: nat, ok: bool)
    | SendRelease(i: nat)
    | SendSend(i: nat)
      // the rest of the system
    | PortBorn(p: Port)
    | PortDies(p: Port)
    | UserCopies(p: Port)
    | UserDrops(p: Port)
    | Receive(p: Port)
    | Drop(p: Port)

  function Without(s: seq<Port>, k: nat): seq<Port>
    requires k < |s|
  {
    s[..k] + s[k + 1..]
  }

  // ---- sys_host_set_special_port_trap ----

  /** A null name, a dead name or a right is copied in ... */
  function BeginSet(s: State, i: nat, which: Which, right: Right): Outcome
    requires i < |s.threads|
  {
    if s.threads[i] != Idle then Ok(s)
    else if right.Live? then
      if Denotes(s, right.p) then At(CopySend(s, right.p), i, SetCopied(which, right)) else Ok(s)
    else At(Ok(s), i, SetCopied(which, right))
  }

  /** ... swapped into the slot under the host lock ... */
  function SwapSlot(s: State, i: nat): Outcome
    requires i < |s.threads|
  {
    var pc := s.threads[i];
    if pc.SetCopied? && pc.which in s.slot then
      At(Ok(s.(slot := s.slot[pc.which := pc.right])), i, SetSwapped(s.slot[pc.which]))
    else Ok(s)
  }

  /** ... and the old right is released without the lock. */
  function ReleaseOld(s: State, i: nat): Outcome
    requires i < |s.threads|
  {
    var pc := s.threads[i];
    if !pc.SetSwapped? then Ok(s)
    else At(if pc.prev.Live? then ReleaseSend(s, pc.prev.p) else Ok(s), i, Idle)
  }

  // ---- iokit_kextd_send ----

  /** Look at the slot and copy its right, under the host lock. */
  function CopyKextd(s: State, i: nat): Outcome
    requires i < |s.threads|
  {
    if s.threads[i] == Idle && Kextd in s.slot && s.slot[Kextd].Live? then
      var p := s.slot[Kextd].p;
      At(CopySend(s, p), i, if p in s.ports && s.ports[p].active then KextCopied(p) else Idle)
    else Ok(s)
  }

  /** Allocate and fill the message; without memory the right is released. */
  function AllocKextd(s: State, i: nat, ok: bool): Outcome
    requires i < |s.threads|
  {
    var pc := s.threads[i];
    if !pc.KextCopied? then Ok(s)
    else if ok then At(Ok(s), i, KextMessage(pc.p))
    else At(ReleaseSend(s, pc.p), i, Idle)
  }

  function SendKextd(s: State, i: nat): Outcome
    requires i < |s.threads|
  {
    var pc := s.threads[i];
    if pc.KextMessage? then At(Send(s, pc.p), i, Idle) else Ok(s)
  }

  // ---- Watches ----

  /** iokit_notify_copyin_port */
  function CopyInWatch(s: State, i: nat, p: Port): Outcome
    requires i < |s.threads|
  {
    if s.threads[i] == Idle && Denotes(s, p) then At(CopySend(s, p), i, WatchCopied(p)) else Ok(s)
  }

  function LinkWatch(s: State, i: nat): Outcome
    requires i < |s.threads|
  {
    var pc := s.threads[i];
    if pc.WatchCopied? && !s.watchLock then At(Ok(s.(watches := s.watches + [pc.p])), i, Idle) else Ok(s)
  }

  /** Pass 1 takes the watch lock ... */
  function BeginEmit(s: State, i: nat): Outcome
    requires i < |s.threads|
  {
    if s.threads[i] == Idle && !s.watchLock then At(Ok(s.(watchLock := true)), i, Walk(0, [])) else Ok(s)
  }

  /** ... unlinks a watch whose port died, skips one that does not match ... */
  function LookAtWatch(s: State, i: nat, matches: bool): Outcome
    requires i < |s.threads|
  {
    var pc := s.threads[i];
    if !pc.Walk? || pc.i >= |s.watches| then Ok(s)
    else
      var p := s.watches[pc.i];
      if p !in s.ports then Crash
      else if !s.ports[p].active then
        At(Ok(s.(watches := Without(s.watches, pc.i))), i, WalkPrune(pc.i, pc.snap, p))
      else At(Ok(s), i, if matches then WalkAlive(pc.i, pc.snap) else Walk(pc.i + 1, pc.snap))
  }

  /** ... copies the right of one that does, unless its port has died since ... */
  function CopyWatch(s: State, i: nat): Outcome
    requires i < |s.threads|
  {
    var pc := s.threads[i];
    if !pc.WalkAlive? then Ok(s)
    else if pc.i >= |s.watches| then Crash
    else
      var p := s.watches[pc.i];
      At(CopySend(s, p), i,
         Walk(pc.i + 1, if p in s.ports && s.ports[p].active then pc.snap + [p] else pc.snap))
  }

  function PruneWatch(s: State, i: nat): Outcome
    requires i < |s.threads|
  {
    var pc := s.threads[i];
    if pc.WalkPrune? then At(ReleaseSend(s, pc.p), i, Walk(pc.i, pc.snap)) else Ok(s)
  }

  /** ... and drops the lock. */
  function EndWalk(s: State, i: nat): Outcome
    requires i < |s.threads|
  {
    var pc := s.threads[i];
    if pc.Walk? && pc.i >= |s.watches| then At(Ok(s.(watchLock := false)), i, Sending(pc.snap)) else Ok(s)
  }

  /** Pass 2 calls iokit_notify_send for each snapshot: is the port still alive? */
  function LookAtSnapshot(s: State, i: nat): Outcome
    requires i < |s.threads|
  {
    var pc := s.threads[i];
    if !pc.Sending? then Ok(s)
    else if pc.snap == [] then At(Ok(s), i, Idle)
    else
      var p := pc.snap[0];
      if p !in s.ports then Crash
      else At(Ok(s), i, if s.ports[p].active then SendAlive(p, pc.snap[1..]) else SendFailed(p, pc.snap[1..]))
  }

  function AllocNotify(s: State, i: nat, ok: bool): Outcome
    requires i < |s.threads|
  {
    var pc := s.threads[i];
    if !pc.SendAlive? then Ok(s)
    else At(Ok(s), i, if ok then SendMessage(pc.p, pc.snap) else SendFailed(pc.p, pc.snap))
  }

  function ReleaseSnapshot(s: State, i: nat): Outcome
    requires i < |s.threads|
  {
    var pc := s.threads[i];
    if pc.SendFailed? then At(ReleaseSend(s, pc.p), i, Sending(pc.snap)) else Ok(s)
  }

  function SendNotify(s: State, i: nat): Outcome
    requires i < |s.threads|
  {
    var pc := s.threads[i];
    if pc.SendMessage? then At(Send(s, pc.p), i, Sending(pc.snap)) else Ok(s)
  }

  // ---- The rest of the system ----

  /** A new port, with its receive right and one send right; the identity of a freed port
      may come back. */
  function Born(s: State, p: Port): Outcome {
    if p in s.ports then Ok(s)
    else Ok(s.(ports := s.ports[p := PortState(true, 1, 2)], elsewhere := s.elsewhere[p := 1]))
  }

  /** The receive right is gone; its reference is given up. */
  function Dies(s: State, p: Port): Outcome {
    if p in s.ports && s.ports[p].active then
      Ok(s.(ports := s.ports[p := s.ports[p].(active := false)], dropping := s.dropping + multiset{p}))
    else Ok(s)
  }

  function UserCopy(s: State, p: Port): Outcome {
    if !Denotes(s, p) then Ok(s)
    else
      var o := CopySend(s, p);
      if o.Crash? then Crash else Ok(o.s.(elsewhere := o.s.elsewhere[p := s.elsewhere[p] + 1]))
  }

  function UserDrop(s: State, p: Port): Outcome {
    if p in s.elsewhere && s.elsewhere[p] > 0 then
      ReleaseSend(s.(elsewhere := s.elsewhere[p := s.elsewhere[p] - 1]), p)
    else Ok(s)
  }

  function Received(s: State, p: Port): Outcome {
    if p in s.queued then ReleaseSend(s.(queued := s.queued - multiset{p}), p) else Ok(s)
  }

  /** One step. An event that is not enabled changes nothing. */
  function Step(s: State, e: Event): Outcome {
    match e
    case PortBorn(p) => Born(s, p)
    case PortDies(p) => Dies(s, p)
    case UserCopies(p) => UserCopy(s, p)
    case UserDrops(p) => UserDrop(s, p)
    case Receive(p) => Received(s, p)
    case Drop(p) => Dropped(s, p)
    case _ => if e.i < |s.threads| then ThreadStep(s, e) else Ok(s)
  }

  predicate OfThread(e: Event) {
    !e.PortBorn? && !e.PortDies? && !e.UserCopies? && !e.UserDrops? && !e.Receive? && !e.Drop?
  }

  function ThreadStep(s: State, e: Event): Outcome
    requires OfThread(e) && e.i < |s.threads|
  {
    match e
    case SetBegin(i, which, right) => BeginSet(s, i, which, right)
    case SetSwap(i) => SwapSlot(s, i)
    case SetRelease(i) => ReleaseOld(s, i)
    case KextCopy(i) => CopyKextd(s, i)
    case KextAlloc(i, ok) => AllocKextd(s, i, ok)
    case KextSend(i) => SendKextd(s, i)
    case WatchCopyIn(i, p) => CopyInWatch(s, i, p)
    case WatchLink(i) => LinkWatch(s, i)
    case EmitBegin(i) => BeginEmit(s, i)
    case WalkLook(i, matches) => LookAtWatch(s, i, matches)
    case WalkCopy(i) => CopyWatch(s, i)
    case WalkRelease(i) => PruneWatch(s, i)
    case WalkEnd(i) => EndWalk(s, i)
    case SendLook(i) => LookAtSnapshot(s, i)
    case SendAlloc(i, ok) => AllocNotify(s, i, ok)
    case SendRelease(i) => ReleaseSnapshot(s, i)
    case SendSend(i) => SendNotify(s, i)
  }

  function Run(s: State, es: seq<Event>): Outcome
    decreases |es|
  {
    if es == [] then Ok(s)
    else
      var o := Step(s, es[0]);
      if o.Crash? then Crash else Run(o.s, es[1..])
  }

  // ---- The ledger ----

  function One(b: bool): nat {
    if b then 1 else 0
  }

  /** Rights to `p` held by a thread at `pc`. */
  ghost function PcRefs(pc: Pc, p: Port): nat {
    match pc
    case Idle => 0
    case SetCopied(_, r) => One(r == Live(p))
    case SetSwapped(r) => One(r == Live(p))
    case KextCopied(q) => One(q == p)
    case KextMessage(q) => One(q == p)
    case WatchCopied(q) => One(q == p)
    case Walk(_, snap) => multiset(snap)[p]
    case WalkAlive(_, snap) => multiset(snap)[p]
    case WalkPrune(_, snap, q) => multiset(snap)[p] + One(q == p)
    case Sending(snap) => multiset(snap)[p]
    case SendAlive(q, snap) => multiset(snap)[p] + One(q == p)
    case SendFailed(q, snap) => multiset(snap)[p] + One(q == p)
    case SendMessage(q, snap) => multiset(snap)[p] + One(q == p)
  }

  ghost function ThreadRefs(ts: seq<Pc>, p: Port): nat {
    if ts == [] then 0 else PcRefs(ts[0], p) + ThreadRefs(ts[1..], p)
  }

  ghost function SlotRefs(slot: map<Which, Right>, p: Port): nat {
    One(Bootstrap in slot && slot[Bootstrap] == Live(p)) + One(Kextd in slot && slot[Kextd] == Live(p))
  }

  /** All the rights to `p` that host slots, watches, messages and threads hold. */
  ghost function Held(s: State, p: Port): nat {
    SlotRefs(s.slot, p) + multiset(s.watches)[p] + s.queued[p] + ThreadRefs(s.threads, p)
  }

  /** The reference count of a port is the receive right plus the rights in name tables
      plus the `held` rights plus the references given up but not yet dropped; while it is
      alive its send-right count is the rights in name tables and the `held` ones; nobody
      holds a freed port. */
  ghost predicate PortBalanced(s: State, p: Port, held: int) {
    && (p in s.ports <==> p in s.elsewhere)
    && (p !in s.ports ==> held == 0 && p !in s.dropping)
    && (p in s.ports ==>
          && s.ports[p].refs == One(s.ports[p].active) + s.elsewhere[p] + held + s.dropping[p]
          && s.ports[p].refs > 0
          && (s.ports[p].active ==> s.ports[p].srights == s.elsewhere[p] + held))
  }

  ghost predicate Balanced(s: State) {
    forall p: Port :: PortBalanced(s, p, Held(s, p))
  }

  predicate Walking(pc: Pc) {
    pc.Walk? || pc.WalkAlive? || pc.WalkPrune?
  }

  /** At most one thread is in pass 1, it holds the lock, and its place in the list is valid. */
  ghost predicate Locked(s: State) {
    && (forall i :: 0 <= i < |s.threads| && Walking(s.threads[i]) ==> s.watchLock)
    && (forall i, j :: 0 <= i < j < |s.threads| ==> !(Walking(s.threads[i]) && Walking(s.threads[j])))
    && (forall i :: 0 <= i < |s.threads| && s.threads[i].WalkAlive? ==> s.threads[i].i < |s.watches|)
  }

  ghost predicate Inv(s: State) {
    Balanced(s) && Locked(s)
  }

  lemma {:induction false} ThreadUpdate(ts: seq<Pc>, i: nat, pc: Pc, p: Port)
    requires i < |ts|
    ensures PcRefs(ts[i], p) <= ThreadRefs(ts, p)
    ensures ThreadRefs(ts[i := pc], p) == ThreadRefs(ts, p) - PcRefs(ts[i], p) + PcRefs(pc, p)
  {
    if i == 0 {
      assert ts[i := pc][1..] == ts[1..];
    } else {
      assert ts[i := pc][1..] == ts[1..][i - 1 := pc];
      ThreadUpdate(ts[1..], i - 1, pc, p);
    }
  }

  // ---- The port operations keep the ledger ----

  ghost predicate SameRest(s: State, t: State) {
    && t.slot == s.slot && t.watches == s.watches && t.watchLock == s.watchLock
    && t.queued == s.queued && t.threads == s.threads
  }

  /** A copy adds one right to a live port. */
  lemma CopySendLedger(s: State, q: Port, p: Port, heldQ: int, heldP: int)
    requires PortBalanced(s, q, heldQ) && PortBalanced(s, p, heldP) && (q == p ==> heldQ == heldP)
    requires q in s.ports && (s.ports[q].active ==> heldQ + s.elsewhere[q] > 0)
    ensures var o := CopySend(s, q);
      && o.Ok? && SameRest(s, o.s) && o.s.elsewhere == s.elsewhere
      && PortBalanced(o.s, p, heldP + One(q == p && s.ports[q].active))
  {
  }

  /** A release turns a right into a reference to be dropped, dead or alive. */
  lemma ReleaseSendLedger(s: State, q: Port, p: Port, heldQ: int, heldP: int)
    requires PortBalanced(s, q, heldQ) && PortBalanced(s, p, heldP) && (q == p ==> heldQ == heldP)
    requires heldQ > 0
    ensures var o := ReleaseSend(s, q);
      && o.Ok? && SameRest(s, o.s)
      && PortBalanced(o.s, p, heldP - One(q == p))
  {
  }

  /** The drop that follows takes the reference away, and frees the port with the last one. */
  lemma DroppedLedger(s: State, q: Port, p: Port, heldQ: int, heldP: int)
    requires PortBalanced(s, q, heldQ) && PortBalanced(s, p, heldP) && (q == p ==> heldQ == heldP)
    requires heldQ >= 0
    ensures Dropped(s, q).Ok? && SameRest(s, Dropped(s, q).s) && PortBalanced(Dropped(s, q).s, p, heldP)
  {
    if q in s.dropping {
      var t := s.(dropping := s.dropping - multiset{q});
      assert t.dropping[p] == s.dropping[p] - One(q == p);
      assert q in s.ports && s.ports[q].refs >= s.dropping[q];
    }
  }

  /** A send moves a right into the message, or gives it up with a dead port. */
  lemma SendLedger(s: State, q: Port, p: Port, heldQ: int, heldP: int)
    requires PortBalanced(s, q, heldQ) && PortBalanced(s, p, heldP) && (q == p ==> heldQ == heldP)
    requires heldQ > 0
    ensures var o := Send(s, q);
      && o.Ok? && o.s.threads == s.threads && o.s.slot == s.slot
      && o.s.watches == s.watches && o.s.watchLock == s.watchLock
      && PortBalanced(o.s, p, heldP - One(q == p) + (o.s.queued[p] - s.queued[p]))
  {
  }

  // ---- Steps keep the ledger ----

  ghost predicate BalancedAt(s: State, p: Port) {
    PortBalanced(s, p, Held(s, p))
  }

  ghost predicate Fine(o: Outcome, p: Port) {
    o.Ok? && BalancedAt(o.s, p)
  }

  /** Thread `i` moves on: what it now holds more or less must be in the counters already. */
  lemma Moved(s: State, i: nat, pc: Pc, p: Port)
    requires i < |s.threads|
    requires PortBalanced(s, p, Held(s, p) - PcRefs(s.threads[i], p) + PcRefs(pc, p))
    ensures Fine(At(Ok(s), i, pc), p)
  {
    ThreadUpdate(s.threads, i, pc, p);
  }

  /** What a thread holds is part of the ledger. */
  lemma HeldByThread(s: State, i: nat, p: Port)
    requires i < |s.threads|
    ensures PcRefs(s.threads[i], p) <= Held(s, p)
  {
    ThreadUpdate(s.threads, i, Idle, p);
  }

  /** Copying a right and keeping it. */
  lemma CopyKept(s: State, i: nat, q: Port, pc: Pc, p: Port)
    requires i < |s.threads| && BalancedAt(s, q) && BalancedAt(s, p) && q in s.ports
    requires s.ports[q].active ==> Held(s, q) + s.elsewhere[q] > 0
    requires PcRefs(pc, p) == PcRefs(s.threads[i], p) + One(q == p && s.ports[q].active)
    ensures Fine(At(CopySend(s, q), i, pc), p)
  {
    CopySendLedger(s, q, p, Held(s, q), Held(s, p));
    Moved(CopySend(s, q).s, i, pc, p);
  }

  /** Releasing a right the thread holds. */
  lemma Released(s: State, i: nat, q: Port, pc: Pc, p: Port)
    requires i < |s.threads| && BalancedAt(s, q) && BalancedAt(s, p) && PcRefs(s.threads[i], q) > 0
    requires PcRefs(pc, p) == PcRefs(s.threads[i], p) - One(q == p)
    ensures Fine(At(ReleaseSend(s, q), i, pc), p)
  {
    HeldByThread(s, i, q);
    ReleaseSendLedger(s, q, p, Held(s, q), Held(s, p));
    Moved(ReleaseSend(s, q).s, i, pc, p);
  }

  /** Sending with a right the thread holds. */
  lemma Sent(s: State, i: nat, q: Port, pc: Pc, p: Port)
    requires i < |s.threads| && BalancedAt(s, q) && BalancedAt(s, p) && PcRefs(s.threads[i], q) > 0
    requires PcRefs(pc, p) == PcRefs(s.threads[i], p) - One(q == p)
    ensures Fine(At(Send(s, q), i, pc), p)
  {
    HeldByThread(s, i, q);
    SendLedger(s, q, p, Held(s, q), Held(s, p));
    var t := Send(s, q).s;
    assert Held(t, p) == Held(s, p) + (t.queued[p] - s.queued[p]);
    Moved(t, i, pc, p);
  }

  lemma SetKeeps(s: State, i: nat, which: Which, right: Right, p: Port)
    requires i < |s.threads| && BalancedAt(s, p) && (right.Live? ==> BalancedAt(s, right.p))
    ensures Fine(BeginSet(s, i, which, right), p)
  {
    if s.threads[i] == Idle {
      if !right.Live? {
        Moved(s, i, SetCopied(which, right), p);
      } else if Denotes(s, right.p) {
        CopyKept(s, i, right.p, SetCopied(which, right), p);
      }
    }
  }

  lemma SwapKeeps(s: State, i: nat, p: Port)
    requires i < |s.threads| && BalancedAt(s, p)
    ensures Fine(SwapSlot(s, i), p)
  {
    var pc := s.threads[i];
    if pc.SetCopied? && pc.which in s.slot {
      var t := s.(slot := s.slot[pc.which := pc.right]);
      assert SlotRefs(t.slot, p)
          == SlotRefs(s.slot, p) - One(s.slot[pc.which] == Live(p)) + One(pc.right == Live(p)) by {
        assert pc.which == Bootstrap || pc.which == Kextd;
      }
      Moved(t, i, SetSwapped(s.slot[pc.which]), p);
    }
  }

  lemma ReleaseOldKeeps(s: State, i: nat, p: Port)
    requires i < |s.threads| && Balanced(s)
    ensures Fine(ReleaseOld(s, i), p)
  {
    assert BalancedAt(s, p);
    var pc := s.threads[i];
    if pc.SetSwapped? {
      if pc.prev.Live? {
        assert BalancedAt(s, pc.prev.p);
        Released(s, i, pc.prev.p, Idle, p);
      } else {
        Moved(s, i, Idle, p);
      }
    }
  }

  lemma CopyKextdKeeps(s: State, i: nat, p: Port)
    requires i < |s.threads| && Balanced(s)
    ensures Fine(CopyKextd(s, i), p)
  {
    assert BalancedAt(s, p);
    if s.threads[i] == Idle && Kextd in s.slot && s.slot[Kextd].Live? {
      var q := s.slot[Kextd].p;
      assert BalancedAt(s, q);
      assert Held(s, q) > 0;
      CopyKept(s, i, q, if s.ports[q].active then KextCopied(q) else Idle, p);
    }
  }

  lemma KextdKeeps(s: State, i: nat, ok: bool, p: Port)
    requires i < |s.threads| && Balanced(s)
    ensures Fine(AllocKextd(s, i, ok), p)
    ensures Fine(SendKextd(s, i), p)
  {
    assert BalancedAt(s, p);
    var pc := s.threads[i];
    if pc.KextCopied? {
      assert BalancedAt(s, pc.p);
      Released(s, i, pc.p, Idle, p);
      Moved(s, i, KextMessage(pc.p), p);
    } else if pc.KextMessage? {
      assert BalancedAt(s, pc.p);
      Sent(s, i, pc.p, Idle, p);
    }
  }

  lemma CopyInWatchKeeps(s: State, i: nat, q: Port, p: Port)
    requires i < |s.threads| && Balanced(s)
    ensures Fine(CopyInWatch(s, i, q), p)
  {
    assert BalancedAt(s, p) && BalancedAt(s, q);
    if s.threads[i] == Idle && Denotes(s, q) {
      CopyKept(s, i, q, WatchCopied(q), p);
    }
  }

  lemma LinkWatchKeeps(s: State, i: nat, p: Port)
    requires i < |s.threads| && BalancedAt(s, p)
    ensures Fine(LinkWatch(s, i), p)
  {
    var pc := s.threads[i];
    if pc.WatchCopied? && !s.watchLock {
      var t := s.(watches := s.watches + [pc.p]);
      assert Held(t, p) == Held(s, p) + One(pc.p == p);
      Moved(t, i, Idle, p);
    }
  }

  lemma WalkEndsKeep(s: State, i: nat, p: Port)
    requires i < |s.threads| && BalancedAt(s, p)
    ensures Fine(BeginEmit(s, i), p)
    ensures Fine(EndWalk(s, i), p)
  {
    var pc := s.threads[i];
    if pc == Idle {
      Moved(s.(watchLock := true), i, Walk(0, []), p);
    } else if pc.Walk? {
      Moved(s.(watchLock := false), i, Sending(pc.snap), p);
    }
  }

  lemma WatchHeld(s: State, k: nat)
    requires k < |s.watches| && BalancedAt(s, s.watches[k])
    ensures Held(s, s.watches[k]) > 0 && s.watches[k] in s.ports
  {
  }

  lemma RemoveOne(s: seq<Port>, k: nat, p: Port)
    requires k < |s|
    ensures multiset(Without(s, k))[p] == multiset(s)[p] - One(s[k] == p)
  {
    assert s == s[..k] + [s[k]] + s[k + 1..];
  }

  lemma LookAtWatchKeeps(s: State, i: nat, matches: bool, p: Port)
    requires i < |s.threads| && BalancedAt(s, p)
    requires var pc := s.threads[i]; pc.Walk? && pc.i < |s.watches| ==> BalancedAt(s, s.watches[pc.i])
    ensures Fine(LookAtWatch(s, i, matches), p)
  {
    var pc := s.threads[i];
    if pc.Walk? && pc.i < |s.watches| {
      var q := s.watches[pc.i];
      WatchHeld(s, pc.i);
      if s.ports[q].active {
        Moved(s, i, if matches then WalkAlive(pc.i, pc.snap) else Walk(pc.i + 1, pc.snap), p);
      } else {
        Unlinked(s, i, p);
      }
    }
  }

  lemma Unlinked(s: State, i: nat, p: Port)
    requires i < |s.threads| && BalancedAt(s, p)
    requires s.threads[i].Walk? && s.threads[i].i < |s.watches|
    ensures var pc := s.threads[i];
      Fine(At(Ok(s.(watches := Without(s.watches, pc.i))), i, WalkPrune(pc.i, pc.snap, s.watches[pc.i])), p)
  {
    var pc := s.threads[i];
    var t := s.(watches := Without(s.watches, pc.i));
    RemoveOne(s.watches, pc.i, p);
    assert Held(t, p) == Held(s, p) - One(s.watches[pc.i] == p);
    Moved(t, i, WalkPrune(pc.i, pc.snap, s.watches[pc.i]), p);
  }

  lemma PruneWatchKeeps(s: State, i: nat, p: Port)
    requires i < |s.threads| && Balanced(s)
    ensures Fine(PruneWatch(s, i), p)
  {
    assert BalancedAt(s, p);
    var pc := s.threads[i];
    if pc.WalkPrune? {
      assert BalancedAt(s, pc.p);
      Released(s, i, pc.p, Walk(pc.i, pc.snap), p);
    }
  }

  lemma CopyWatchKeeps(s: State, i: nat, p: Port)
    requires i < |s.threads| && Balanced(s)
    requires s.threads[i].WalkAlive? ==> s.threads[i].i < |s.watches|
    ensures Fine(CopyWatch(s, i), p)
  {
    assert BalancedAt(s, p);
    var pc := s.threads[i];
    if pc.WalkAlive? {
      var q := s.watches[pc.i];
      assert BalancedAt(s, q);
      WatchHeld(s, pc.i);
      assert multiset(pc.snap + [q])[p] == multiset(pc.snap)[p] + One(q == p);
      CopyKept(s, i, q, Walk(pc.i + 1, if s.ports[q].active then pc.snap + [q] else pc.snap), p);
    }
  }

  lemma TakeFirst(s: seq<Port>, p: Port)
    requires s != []
    ensures multiset(s)[p] == multiset(s[1..])[p] + One(s[0] == p)
  {
    assert s == [s[0]] + s[1..];
  }

  lemma LookAtSnapshotKeeps(s: State, i: nat, p: Port)
    requires i < |s.threads| && Balanced(s)
    ensures Fine(LookAtSnapshot(s, i), p)
  {
    assert BalancedAt(s, p);
    var pc := s.threads[i];
    if pc.Sending? {
      if pc.snap == [] {
        Moved(s, i, Idle, p);
      } else {
        var q, rest := pc.snap[0], pc.snap[1..];
        TakeFirst(pc.snap, p);
        TakeFirst(pc.snap, q);
        assert BalancedAt(s, q);
        HeldByThread(s, i, q);
        Moved(s, i, if s.ports[q].active then SendAlive(q, rest) else SendFailed(q, rest), p);
      }
    }
  }

  lemma NotifyKeeps(s: State, i: nat, ok: bool, p: Port)
    requires i < |s.threads| && Balanced(s)
    ensures Fine(AllocNotify(s, i, ok), p)
    ensures Fine(ReleaseSnapshot(s, i), p)
    ensures Fine(SendNotify(s, i), p)
  {
    assert BalancedAt(s, p);
    var pc := s.threads[i];
    if pc.SendAlive? {
      Moved(s, i, if ok then SendMessage(pc.p, pc.snap) else SendFailed(pc.p, pc.snap), p);
    } else if pc.SendFailed? {
      assert BalancedAt(s, pc.p);
      Released(s, i, pc.p, Sending(pc.snap), p);
    } else if pc.SendMessage? {
      assert BalancedAt(s, pc.p);
      Sent(s, i, pc.p, Sending(pc.snap), p);
    }
  }

  /** An operation on the port tables alone leaves what is held as it was. */
  lemma SameHeld(s: State, t: State, p: Port)
    requires SameRest(s, t)
    ensures Held(t, p) == Held(s, p)
  {
  }

  lemma BornLedger(s: State, q: Port, p: Port, heldQ: int, heldP: int)
    requires PortBalanced(s, q, heldQ) && PortBalanced(s, p, heldP) && (q == p ==> heldQ == heldP)
    ensures Born(s, q).Ok? && SameRest(s, Born(s, q).s) && PortBalanced(Born(s, q).s, p, heldP)
  {
  }

  lemma DiesLedger(s: State, q: Port, p: Port, heldQ: int, heldP: int)
    requires PortBalanced(s, q, heldQ) && PortBalanced(s, p, heldP) && (q == p ==> heldQ == heldP)
    requires heldQ >= 0
    ensures Dies(s, q).Ok? && SameRest(s, Dies(s, q).s) && PortBalanced(Dies(s, q).s, p, heldP)
  {
  }

  lemma UserCopyLedger(s: State, q: Port, p: Port, heldQ: int, heldP: int)
    requires PortBalanced(s, q, heldQ) && PortBalanced(s, p, heldP) && (q == p ==> heldQ == heldP)
    requires heldQ >= 0
    ensures UserCopy(s, q).Ok? && SameRest(s, UserCopy(s, q).s) && PortBalanced(UserCopy(s, q).s, p, heldP)
  {
  }

  lemma UserDropLedger(s: State, q: Port, p: Port, heldQ: int, heldP: int)
    requires PortBalanced(s, q, heldQ) && PortBalanced(s, p, heldP) && (q == p ==> heldQ == heldP)
    requires heldQ >= 0
    ensures UserDrop(s, q).Ok? && SameRest(s, UserDrop(s, q).s) && PortBalanced(UserDrop(s, q).s, p, heldP)
  {
    if q in s.elsewhere && s.elsewhere[q] > 0 {
      var t := s.(elsewhere := s.elsewhere[q := s.elsewhere[q] - 1]);
      ReleaseSendLedger(t, q, p, heldQ + 1, heldP + One(q == p));
    }
  }

  lemma ReceivedKeeps(s: State, q: Port, p: Port)
    requires BalancedAt(s, q) && BalancedAt(s, p)
    ensures Fine(Received(s, q), p)
  {
    if q in s.queued {
      var t := s.(queued := s.queued - multiset{q});
      assert Held(t, p) == Held(s, p) - One(q == p);
      assert Held(t, q) == Held(s, q) - 1;
      ReleaseSendLedger(t, q, p, Held(s, q), Held(s, p));
    }
  }

  lemma BornKeeps(s: State, q: Port, p: Port)
    requires BalancedAt(s, q) && BalancedAt(s, p)
    ensures Fine(Born(s, q), p)
  {
    BornLedger(s, q, p, Held(s, q), Held(s, p));
    SameHeld(s, Born(s, q).s, p);
  }

  lemma DiesKeeps(s: State, q: Port, p: Port)
    requires BalancedAt(s, q) && BalancedAt(s, p)
    ensures Fine(Dies(s, q), p)
  {
    DiesLedger(s, q, p, Held(s, q), Held(s, p));
    SameHeld(s, Dies(s, q).s, p);
  }

  lemma UserCopyKeeps(s: State, q: Port, p: Port)
    requires BalancedAt(s, q) && BalancedAt(s, p)
    ensures Fine(UserCopy(s, q), p)
  {
    UserCopyLedger(s, q, p, Held(s, q), Held(s, p));
    SameHeld(s, UserCopy(s, q).s, p);
  }

  lemma UserDropKeeps(s: State, q: Port, p: Port)
    requires BalancedAt(s, q) && BalancedAt(s, p)
    ensures Fine(UserDrop(s, q), p)
  {
    UserDropLedger(s, q, p, Held(s, q), Held(s, p));
    SameHeld(s, UserDrop(s, q).s, p);
  }

  lemma DroppedKeeps(s: State, q: Port, p: Port)
    requires BalancedAt(s, q) && BalancedAt(s, p)
    ensures Fine(Dropped(s, q), p)
  {
    DroppedLedger(s, q, p, Held(s, q), Held(s, p));
    SameHeld(s, Dropped(s, q).s, p);
  }

  predicate OfReleases(e: Event) {
    e.UserDrops? || e.Receive? || e.Drop?
  }

  lemma ReleaseStepBalanced(s: State, e: Event, p: Port)
    requires OfReleases(e) && BalancedAt(s, e.p) && BalancedAt(s, p)
    ensures Fine(Step(s, e), p)
  {
    match e
    case UserDrops(q) => UserDropKeeps(s, q, p);
    case Receive(q) => ReceivedKeeps(s, q, p);
    case Drop(q) => DroppedKeeps(s, q, p);
  }

  lemma SystemStepBalanced(s: State, e: Event, p: Port)
    requires !OfThread(e) && !OfReleases(e) && BalancedAt(s, e.p) && BalancedAt(s, p)
    ensures Fine(Step(s, e), p)
  {
    match e
    case PortBorn(q) => BornKeeps(s, q, p);
    case PortDies(q) => DiesKeeps(s, q, p);
    case UserCopies(q) => UserCopyKeeps(s, q, p);
  }

  predicate OfHostPaths(e: Event) {
    e.SetBegin? || e.SetSwap? || e.SetRelease? || e.KextCopy? || e.KextAlloc? || e.KextSend?
  }

  lemma HostStepBalanced(s: State, e: Event, p: Port)
    requires Balanced(s) && OfThread(e) && e.i < |s.threads| && OfHostPaths(e)
    ensures Fine(ThreadStep(s, e), p)
  {
    match e
    case SetBegin(i, which, right) =>
      assert BalancedAt(s, p) && (right.Live? ==> BalancedAt(s, right.p));
      SetKeeps(s, i, which, right, p);
    case SetSwap(i) => assert BalancedAt(s, p); SwapKeeps(s, i, p);
    case SetRelease(i) => ReleaseOldKeeps(s, i, p);
    case KextCopy(i) => CopyKextdKeeps(s, i, p);
    case KextAlloc(i, ok) => KextdKeeps(s, i, ok, p);
    case KextSend(i) => KextdKeeps(s, i, true, p);
  }

  lemma WatchStepBalanced(s: State, e: Event, p: Port)
    requires Balanced(s) && OfThread(e) && e.i < |s.threads| && !OfHostPaths(e)
    requires s.threads[e.i].WalkAlive? ==> s.threads[e.i].i < |s.watches|
    ensures Fine(ThreadStep(s, e), p)
  {
    assert BalancedAt(s, p);
    match e
    case WatchCopyIn(i, q) => CopyInWatchKeeps(s, i, q, p);
    case WatchLink(i) => LinkWatchKeeps(s, i, p);
    case EmitBegin(i) => WalkEndsKeep(s, i, p);
    case WalkLook(i, matches) =>
      var pc := s.threads[i];
      assert pc.Walk? && pc.i < |s.watches| ==> BalancedAt(s, s.watches[pc.i]);
      LookAtWatchKeeps(s, i, matches, p);
    case WalkCopy(i) => CopyWatchKeeps(s, i, p);
    case WalkRelease(i) => PruneWatchKeeps(s, i, p);
    case WalkEnd(i) => WalkEndsKeep(s, i, p);
    case SendLook(i) => LookAtSnapshotKeeps(s, i, p);
    case SendAlloc(i, ok) => NotifyKeeps(s, i, ok, p);
    case SendRelease(i) => NotifyKeeps(s, i, true, p);
    case SendSend(i) => NotifyKeeps(s, i, true, p);
  }

  /** How thread `i` may change the lock and the list of watches. */
  ghost predicate LockStep(s: State, t: State, i: nat) {
    && i < |s.threads|
    && |t.threads| == |s.threads|
    && (forall j :: 0 <= j < |s.threads| && j != i ==> t.threads[j] == s.threads[j])
    && var before, after := s.threads[i], t.threads[i];
       if Walking(before) then
         && (Walking(after) ==> t.watchLock)
         && (after.WalkAlive? ==> after.i < |t.watches|)
       else if Walking(after) then
         !s.watchLock && t.watchLock && !after.WalkAlive?
       else
         t.watchLock == s.watchLock && (s.watchLock ==> t.watches == s.watches)
  }

  /** What the lock discipline says of one thread. */
  ghost predicate OwnLock(s: State, i: nat) {
    && i < |s.threads|
    && (Walking(s.threads[i]) ==> s.watchLock)
    && (s.threads[i].WalkAlive? ==> s.threads[i].i < |s.watches|)
  }

  lemma LockStepKeeps(s: State, t: State, i: nat)
    requires Locked(s) && LockStep(s, t, i)
    ensures Locked(t)
  {
  }

  /** The port operations do not touch threads, watches or the lock. */
  lemma OperationsKeepRest(s: State, p: Port)
    ensures CopySend(s, p).Ok? ==> SameRest(s, CopySend(s, p).s)
    ensures ReleaseSend(s, p).Ok? ==> SameRest(s, ReleaseSend(s, p).s)
    ensures Send(s, p).Ok? ==> Send(s, p).s.threads == s.threads && Send(s, p).s.watches == s.watches
                               && Send(s, p).s.watchLock == s.watchLock
  {
  }

  lemma SetLockStep(s: State, i: nat, which: Which, right: Right)
    requires OwnLock(s, i)
    ensures BeginSet(s, i, which, right).Ok? ==> LockStep(s, BeginSet(s, i, which, right).s, i)
  {
    OperationsKeepRest(s, if right.Live? then right.p else 0);
  }

  lemma SwapLockStep(s: State, i: nat)
    requires OwnLock(s, i)
    ensures SwapSlot(s, i).Ok? ==> LockStep(s, SwapSlot(s, i).s, i)
    ensures ReleaseOld(s, i).Ok? ==> LockStep(s, ReleaseOld(s, i).s, i)
  {
    var pc := s.threads[i];
    OperationsKeepRest(s, if pc.SetSwapped? && pc.prev.Live? then pc.prev.p else 0);
  }

  lemma CopyKextdLockStep(s: State, i: nat)
    requires OwnLock(s, i)
    ensures CopyKextd(s, i).Ok? ==> LockStep(s, CopyKextd(s, i).s, i)
  {
  }

  lemma KextdLockStep(s: State, i: nat, ok: bool)
    requires OwnLock(s, i)
    ensures AllocKextd(s, i, ok).Ok? ==> LockStep(s, AllocKextd(s, i, ok).s, i)
    ensures SendKextd(s, i).Ok? ==> LockStep(s, SendKextd(s, i).s, i)
  {
    var pc := s.threads[i];
    OperationsKeepRest(s, if pc.KextCopied? || pc.KextMessage? then pc.p else 0);
  }

  lemma WatchLockStep(s: State, i: nat, p: Port)
    requires OwnLock(s, i)
    ensures CopyInWatch(s, i, p).Ok? ==> LockStep(s, CopyInWatch(s, i, p).s, i)
    ensures LinkWatch(s, i).Ok? ==> LockStep(s, LinkWatch(s, i).s, i)
  {
  }

  lemma WalkLockStep(s: State, i: nat, matches: bool)
    requires OwnLock(s, i)
    ensures BeginEmit(s, i).Ok? ==> LockStep(s, BeginEmit(s, i).s, i)
    ensures EndWalk(s, i).Ok? ==> LockStep(s, EndWalk(s, i).s, i)
    ensures LookAtWatch(s, i, matches).Ok? ==> LockStep(s, LookAtWatch(s, i, matches).s, i)
  {
  }

  lemma CopyWatchLockStep(s: State, i: nat)
    requires OwnLock(s, i)
    ensures CopyWatch(s, i).Ok? ==> LockStep(s, CopyWatch(s, i).s, i)
    ensures PruneWatch(s, i).Ok? ==> LockStep(s, PruneWatch(s, i).s, i)
  {
    var pc := s.threads[i];
    OperationsKeepRest(s, if pc.WalkAlive? && pc.i < |s.watches| then s.watches[pc.i] else 0);
    OperationsKeepRest(s, if pc.WalkPrune? then pc.p else 0);
  }

  lemma NotifyLockStep(s: State, i: nat, ok: bool)
    requires OwnLock(s, i)
    ensures LookAtSnapshot(s, i).Ok? ==> LockStep(s, LookAtSnapshot(s, i).s, i)
    ensures AllocNotify(s, i, ok).Ok? ==> LockStep(s, AllocNotify(s, i, ok).s, i)
  {
  }

  lemma SendLockStep(s: State, i: nat)
    requires OwnLock(s, i)
    ensures ReleaseSnapshot(s, i).Ok? ==> LockStep(s, ReleaseSnapshot(s, i).s, i)
    ensures SendNotify(s, i).Ok? ==> LockStep(s, SendNotify(s, i).s, i)
  {
    var pc := s.threads[i];
    OperationsKeepRest(s, if pc.SendFailed? || pc.SendMessage? then pc.p else 0);
  }

  lemma HostStepLockStep(s: State, e: Event)
    requires OfThread(e) && OwnLock(s, e.i) && OfHostPaths(e)
    ensures ThreadStep(s, e).Ok? ==> LockStep(s, ThreadStep(s, e).s, e.i)
  {
    match e
    case SetBegin(i, which, right) => SetLockStep(s, i, which, right);
    case SetSwap(i) => SwapLockStep(s, i);
    case SetRelease(i) => SwapLockStep(s, i);
    case KextCopy(i) => CopyKextdLockStep(s, i);
    case KextAlloc(i, ok) => KextdLockStep(s, i, ok);
    case KextSend(i) => KextdLockStep(s, i, true);
  }

  lemma WatchStepLockStep(s: State, e: Event)
    requires OfThread(e) && OwnLock(s, e.i) && !OfHostPaths(e)
    ensures ThreadStep(s, e).Ok? ==> LockStep(s, ThreadStep(s, e).s, e.i)
  {
    match e
    case WatchCopyIn(i, q) => WatchLockStep(s, i, q);
    case WatchLink(i) => WatchLockStep(s, i, 0);
    case EmitBegin(i) => WalkLockStep(s, i, true);
    case WalkLook(i, matches) => WalkLockStep(s, i, matches);
    case WalkCopy(i) => CopyWatchLockStep(s, i);
    case WalkRelease(i) => CopyWatchLockStep(s, i);
    case WalkEnd(i) => WalkLockStep(s, i, true);
    case SendLook(i) => NotifyLockStep(s, i, true);
    case SendAlloc(i, ok) => NotifyLockStep(s, i, ok);
    case SendRelease(i) => SendLockStep(s, i);
    case SendSend(i) => SendLockStep(s, i);
  }

  lemma SystemStepKeepsLocks(s: State, e: Event)
    requires !OfThread(e) && Step(s, e).Ok?
    ensures var t := Step(s, e).s;
      t.threads == s.threads && t.watches == s.watches && t.watchLock == s.watchLock
  {
  }

  // ---- Every run ----

  lemma StepKeeps(s: State, e: Event)
    requires Inv(s)
    ensures Step(s, e).Ok? && Inv(Step(s, e).s)
  {
    if OfThread(e) && e.i >= |s.threads| {
      assert Step(s, e) == Ok(s);
    } else {
      forall p: Port ensures Fine(Step(s, e), p) {
        if !OfThread(e) {
          assert BalancedAt(s, e.p) && BalancedAt(s, p);
          if OfReleases(e) {
            ReleaseStepBalanced(s, e, p);
          } else {
            SystemStepBalanced(s, e, p);
          }
        } else if OfHostPaths(e) {
          HostStepBalanced(s, e, p);
        } else {
          WatchStepBalanced(s, e, p);
        }
      }
      assert Fine(Step(s, e), 0);
      var t := Step(s, e).s;
      if OfThread(e) {
        if OfHostPaths(e) {
          HostStepLockStep(s, e);
        } else {
          WatchStepLockStep(s, e);
        }
        LockStepKeeps(s, t, e.i);
      } else {
        SystemStepKeepsLocks(s, e);
      }
      forall p: Port ensures PortBalanced(t, p, Held(t, p)) {
        assert Fine(Step(s, e), p);
      }
    }
  }

  /** No run crashes: whatever the interleaving, no thread touches a freed port, no release
      or send lacks its reference, and the ledger balances in every state. */
  lemma {:induction false} RunSafe(s: State, es: seq<Event>)
    requires Inv(s)
    ensures Run(s, es).Ok? && Inv(Run(s, es).s)
    decreases |es|
  {
    if es == [] {
    } else {
      StepKeeps(s, es[0]);
      RunSafe(Step(s, es[0]).s, es[1..]);
    }
  }

  /** No ports, empty slots, no watches, no messages and any number of idle threads. */
  ghost predicate Start(s: State) {
    && s.ports == map[] && s.elsewhere == map[] && s.slot == map[Bootstrap := Null, Kextd := Null]
    && s.watches == [] && !s.watchLock && s.queued == multiset{} && s.dropping == multiset{}
    && forall i :: 0 <= i < |s.threads| ==> s.threads[i] == Idle
  }

  lemma {:induction false} IdleHoldNothing(ts: seq<Pc>, p: Port)
    requires forall i :: 0 <= i < |ts| ==> ts[i] == Idle
    ensures ThreadRefs(ts, p) == 0
  {
    if ts == [] {
    } else {
      IdleHoldNothing(ts[1..], p);
    }
  }

  lemma StartSafe(s: State, es: seq<Event>)
    requires Start(s)
    ensures Run(s, es).Ok? && Inv(Run(s, es).s)
  {
    forall p: Port ensures PortBalanced(s, p, Held(s, p)) {
      IdleHoldNothing(s.threads, p);
    }
    RunSafe(s, es);
  }

  /** A right that a thread holds after it dropped the lock keeps its port, whatever became
      of the slot or watch it was copied from. */
  lemma HeldPortUsable(s: State, i: nat, p: Port)
    requires Inv(s) && i < |s.threads| && PcRefs(s.threads[i], p) > 0
    ensures p in s.ports && s.ports[p].refs > 0
    ensures s.ports[p].active ==> s.ports[p].srights > 0
  {
    HeldByThread(s, i, p);
    assert PortBalanced(s, p, Held(s, p));
  }

  /** When every call has returned, no drop is outstanding and every message is received,
      all the references left are accounted for by the slots, the watches and the name
      tables: nothing leaked. */
  lemma QuietMeansNoLeak(s: State, p: Port)
    requires Inv(s) && p in s.ports && s.queued == multiset{} && p !in s.dropping
    requires forall i :: 0 <= i < |s.threads| ==> s.threads[i] == Idle
    ensures p in s.elsewhere
    ensures s.ports[p].refs == One(s.ports[p].active) + s.elsewhere[p] + SlotRefs(s.slot, p) + multiset(s.watches)[p]
  {
    IdleHoldNothing(s.threads, p);
    assert PortBalanced(s, p, Held(s, p));
  }

  // ---- What the calls do ----

  ghost function ActivePorts(s: State): set<Port> {
    set p | p in s.ports && s.ports[p].active
  }

  /** A load request takes the right of the kextd slot, of no other, if it is to a live port. */
  lemma KextCopyAnswers(s: State, i: nat)
    requires Inv(s) && i < |s.threads| && s.threads[i] == Idle
    ensures var o := Step(s, KextCopy(i));
      && o.Ok? && ActivePorts(o.s) == ActivePorts(s)
      && o.s == if Kextd in s.slot && s.slot[Kextd].Live? && s.slot[Kextd].p in ActivePorts(s)
                then s.(ports := o.s.ports, threads := s.threads[i := KextCopied(s.slot[Kextd].p)]) else s
  {
    StepKeeps(s, KextCopy(i));
  }

  /** With memory the right goes into a message to its port, without it is released. */
  lemma KextAllocAnswers(s: State, i: nat, ok: bool)
    requires Inv(s) && i < |s.threads| && s.threads[i].KextCopied?
    ensures var o, p := Step(s, KextAlloc(i, ok)), s.threads[i].p;
      && o.Ok? && ActivePorts(o.s) == ActivePorts(s)
      && (ok ==> o.s == s.(threads := s.threads[i := KextMessage(p)]))
      && (!ok ==> o.s == s.(ports := o.s.ports, threads := s.threads[i := Idle], dropping := s.dropping + multiset{p}))
  {
    StepKeeps(s, KextAlloc(i, ok));
  }

  /** The message is queued once on a live port, and on no other. */
  lemma KextSendAnswers(s: State, i: nat)
    requires Inv(s) && i < |s.threads| && s.threads[i].KextMessage?
    ensures var o, p := Step(s, KextSend(i)), s.threads[i].p;
      && o.Ok?
      && o.s == if p in ActivePorts(s)
                then s.(threads := s.threads[i := Idle], queued := s.queued + multiset{p})
                else s.(threads := s.threads[i := Idle], dropping := s.dropping + multiset{p})
  {
    StepKeeps(s, KextSend(i));
  }

  lemma {:induction false} RunJoin(s: State, a: seq<Event>, b: seq<Event>)
    ensures Run(s, a + b) == if Run(s, a).Crash? then Crash else Run(Run(s, a).s, b)
    decreases |a|
  {
    if a == [] {
      assert a + b == b;
    } else {
      assert (a + b)[1..] == a[1..] + b;
      if Step(s, a[0]).Ok? {
        RunJoin(Step(s, a[0]).s, a[1..], b);
      }
    }
  }

  function Then(o: Outcome, e: Event): Outcome {
    if o.Crash? then Crash else Step(o.s, e)
  }

  lemma RunThree(s: State, a: Event, b: Event, c: Event)
    ensures Run(s, [a] + [b] + [c]) == Then(Then(Step(s, a), b), c)
  {
    RunJoin(s, [a], [b]);
    RunJoin(s, [a] + [b], [c]);
    assert [a][1..] == [] && [b][1..] == [] && [c][1..] == [];
  }

  lemma TwiceUpdated(ts: seq<Pc>, i: nat, a: Pc, b: Pc)
    requires i < |ts|
    ensures ts[i := a][i := b] == ts[i := b]
    ensures ts[i] == b ==> ts[i := b] == ts
  {
  }

  /** A thread without a right has nothing to send. */
  lemma KextSkips(s: State, i: nat, ok: bool)
    requires i < |s.threads| && s.threads[i] == Idle
    ensures Step(s, KextAlloc(i, ok)) == Ok(s) && Step(s, KextSend(i)) == Ok(s)
  {
  }

  function Request(i: nat, ok: bool): seq<Event> {
    [KextCopy(i)] + [KextAlloc(i, ok)] + [KextSend(i)]
  }

  /** A whole load request that nobody interrupts.  Without a live port in the kextd slot it
      does nothing ... */
  lemma RequestWithoutKextd(s: State, i: nat, ok: bool)
    requires Inv(s) && i < |s.threads| && s.threads[i] == Idle
    requires !(Kextd in s.slot && s.slot[Kextd].Live? && s.slot[Kextd].p in ActivePorts(s))
    ensures Run(s, Request(i, ok)) == Ok(s)
  {
    RunThree(s, KextCopy(i), KextAlloc(i, ok), KextSend(i));
    KextCopyAnswers(s, i);
    KextSkips(s, i, ok);
  }

  /** ... without memory it leaves a right to be dropped ... */
  lemma RequestWithoutMemory(s: State, i: nat)
    requires Inv(s) && i < |s.threads| && s.threads[i] == Idle
    requires Kextd in s.slot && s.slot[Kextd].Live? && s.slot[Kextd].p in ActivePorts(s)
    ensures var o := Run(s, Request(i, false));
      && o.Ok? && ActivePorts(o.s) == ActivePorts(s)
      && o.s == s.(ports := o.s.ports, dropping := s.dropping + multiset{s.slot[Kextd].p})
  {
    RunThree(s, KextCopy(i), KextAlloc(i, false), KextSend(i));
    KextCopyAnswers(s, i);
    StepKeeps(s, KextCopy(i));
    var s1 := Step(s, KextCopy(i)).s;
    KextAllocAnswers(s1, i, false);
    TwiceUpdated(s.threads, i, s1.threads[i], Idle);
    KextSkips(Step(s1, KextAlloc(i, false)).s, i, false);
  }

  /** ... and otherwise there is one message more on the port of that slot. */
  lemma RequestReachesKextd(s: State, i: nat)
    requires Inv(s) && i < |s.threads| && s.threads[i] == Idle
    requires Kextd in s.slot && s.slot[Kextd].Live? && s.slot[Kextd].p in ActivePorts(s)
    ensures var o := Run(s, Request(i, true));
      && o.Ok? && ActivePorts(o.s) == ActivePorts(s)
      && o.s == s.(ports := o.s.ports, queued := s.queued + multiset{s.slot[Kextd].p})
  {
    RunThree(s, KextCopy(i), KextAlloc(i, true), KextSend(i));
    KextCopyAnswers(s, i);
    StepKeeps(s, KextCopy(i));
    var s1 := Step(s, KextCopy(i)).s;
    KextAllocAnswers(s1, i, true);
    StepKeeps(s1, KextAlloc(i, true));
    var s2 := Step(s1, KextAlloc(i, true)).s;
    KextSendAnswers(s2, i);
    TwiceUpdated(s.threads, i, s1.threads[i], s2.threads[i]);
    TwiceUpdated(s.threads, i, s2.threads[i], Idle);
  }

  ghost predicate Trace(ss: seq<State>, es: seq<Event>) {
    |ss| == |es| + 1 && forall k :: 0 <= k < |es| ==> Took(ss, es, k)
  }

  ghost predicate Took(ss: seq<State>, es: seq<Event>, k: nat)
    requires k < |es| && k + 1 < |ss|
  {
    Step(ss[k], es[k]) == Ok(ss[k + 1])
  }

  lemma {:induction false} TraceInv(ss: seq<State>, es: seq<Event>, n: nat)
    requires Trace(ss, es) && n < |ss| && Inv(ss[0])
    ensures Inv(ss[n]) && |ss[n].threads| == |ss[0].threads|
  {
    if n == 0 {
    } else {
      TraceInv(ss, es, n - 1);
      assert Took(ss, es, n - 1);
      StepKeeps(ss[n - 1], es[n - 1]);
      OthersKeep(ss[n - 1], es[n - 1], 0);
    }
  }

  /** A step moves one thread at most. */
  lemma OthersKeep(s: State, e: Event, i: nat)
    requires Inv(s)
    ensures var o := Step(s, e);
      && o.Ok? && |o.s.threads| == |s.threads|
      && (i < |s.threads| && !(OfThread(e) && e.i == i) ==> o.s.threads[i] == s.threads[i])
  {
    StepKeeps(s, e);
    if !OfThread(e) {
      SystemStepKeepsLocks(s, e);
    } else if e.i < |s.threads| {
      if OfHostPaths(e) {
        HostStepLockStep(s, e);
      } else {
        WatchStepLockStep(s, e);
      }
    }
  }

  predicate HoldsForKextd(pc: Pc, p: Port) {
    pc == KextCopied(p) || pc == KextMessage(p)
  }

  ghost predicate TakesFromKextd(s: State, e: Event, i: nat, p: Port)
    requires i < |s.threads|
  {
    e == KextCopy(i) && s.threads[i] == Idle && Kextd in s.slot && s.slot[Kextd] == Live(p) && p in ActivePorts(s)
  }

  lemma HostRightFrom(s: State, e: Event, p: Port)
    requires OfThread(e) && OfHostPaths(e) && e.i < |s.threads| && ThreadStep(s, e).Ok?
    requires var t := ThreadStep(s, e).s; e.i < |t.threads| && HoldsForKextd(t.threads[e.i], p)
    ensures HoldsForKextd(s.threads[e.i], p) || TakesFromKextd(s, e, e.i, p)
  {
    match e
    case SetBegin(_, _, right) => OperationsKeepRest(s, if right.Live? then right.p else 0);
    case _ =>
  }

  lemma WatchRightFrom(s: State, e: Event, p: Port)
    requires OfThread(e) && !OfHostPaths(e) && e.i < |s.threads| && ThreadStep(s, e).Ok?
    requires var t := ThreadStep(s, e).s; e.i < |t.threads| && HoldsForKextd(t.threads[e.i], p)
    ensures HoldsForKextd(s.threads[e.i], p)
  {
    match e
    case WatchCopyIn(_, q) => OperationsKeepRest(s, q);
    case _ =>
  }

  /** Within a load request a thread gets its right from the kextd slot and from nowhere else. */
  lemma KextRightFrom(s: State, e: Event, i: nat, p: Port)
    requires Inv(s) && i < |s.threads| && Step(s, e).Ok?
    requires i < |Step(s, e).s.threads| && HoldsForKextd(Step(s, e).s.threads[i], p)
    ensures HoldsForKextd(s.threads[i], p) || TakesFromKextd(s, e, i, p)
  {
    if OfThread(e) && e.i == i {
      if OfHostPaths(e) {
        HostRightFrom(s, e, p);
      } else {
        WatchRightFrom(s, e, p);
      }
    } else {
      OthersKeep(s, e, i);
    }
  }

  lemma KextRightBefore(ss: seq<State>, es: seq<Event>, i: nat, p: Port, k: nat)
    requires Trace(ss, es) && Inv(ss[0]) && i < |ss[0].threads| && k < |es|
    requires i < |ss[k + 1].threads| && HoldsForKextd(ss[k + 1].threads[i], p)
    ensures i < |ss[k].threads| && (HoldsForKextd(ss[k].threads[i], p) || TakesFromKextd(ss[k], es[k], i, p))
  {
    TraceInv(ss, es, k);
    assert Took(ss, es, k);
    KextRightFrom(ss[k], es[k], i, p);
  }

  /** However the threads are interleaved: the right that a load request sends with was, at
      an instant inside that request, the live right in the kextd slot. */
  lemma {:induction false} KextOrigin(ss: seq<State>, es: seq<Event>, i: nat, p: Port, n: nat) returns (c: nat)
    requires Trace(ss, es) && Inv(ss[0]) && i < |ss[0].threads| && !HoldsForKextd(ss[0].threads[i], p)
    requires n < |ss| && i < |ss[n].threads| && HoldsForKextd(ss[n].threads[i], p)
    ensures c < n && es[c] == KextCopy(i) && Kextd in ss[c].slot && ss[c].slot[Kextd] == Live(p)
    ensures p in ActivePorts(ss[c])
    ensures forall k :: c < k <= n ==> i < |ss[k].threads| && HoldsForKextd(ss[k].threads[i], p)
  {
    KextRightBefore(ss, es, i, p, n - 1);
    if HoldsForKextd(ss[n - 1].threads[i], p) {
      c := KextOrigin(ss, es, i, p, n - 1);
    } else {
      c := n - 1;
    }
  }

  /** The host trap copies the right it was given, if the task has it ... */
  lemma SetCopyAnswers(s: State, i: nat, which: Which, right: Right)
    requires Inv(s) && i < |s.threads| && s.threads[i] == Idle
    ensures var o := Step(s, SetBegin(i, which, right));
      && o.Ok? && ActivePorts(o.s) == ActivePorts(s)
      && o.s == if !right.Live? || (right.p in ActivePorts(s) && right.p in s.elsewhere && s.elsewhere[right.p] > 0)
                then s.(ports := o.s.ports, threads := s.threads[i := SetCopied(which, right)]) else s
  {
    StepKeeps(s, SetBegin(i, which, right));
  }

  /** ... puts it into the slot that was named, taking out what was there ... */
  lemma SetSwapAnswers(s: State, i: nat)
    requires i < |s.threads| && s.threads[i].SetCopied? && s.threads[i].which in s.slot
    ensures var which, right := s.threads[i].which, s.threads[i].right;
      Step(s, SetSwap(i)) == Ok(s.(slot := s.slot[which := right], threads := s.threads[i := SetSwapped(s.slot[which])]))
  {
  }

  /** ... and releases that. */
  lemma SetReleaseAnswers(s: State, i: nat)
    requires Inv(s) && i < |s.threads| && s.threads[i].SetSwapped?
    ensures var o, prev := Step(s, SetRelease(i)), s.threads[i].prev;
      && o.Ok? && ActivePorts(o.s) == ActivePorts(s)
      && o.s == s.(ports := o.s.ports, threads := s.threads[i := Idle],
                   dropping := if prev.Live? then s.dropping + multiset{prev.p} else s.dropping)
  {
    StepKeeps(s, SetRelease(i));
    var prev := s.threads[i].prev;
    if prev.Live? {
      assert Step(s, SetRelease(i)) == At(ReleaseSend(s, prev.p), i, Idle);
    } else {
      assert Step(s, SetRelease(i)) == At(Ok(s), i, Idle);
    }
  }

  /** A watch is registered with the right it was given, behind the others. */
  lemma WatchAnswers(s: State, i: nat, p: Port)
    requires Inv(s) && i < |s.threads|
    ensures s.threads[i] == Idle ==>
      var o := Step(s, WatchCopyIn(i, p));
      && o.Ok? && ActivePorts(o.s) == ActivePorts(s)
      && o.s == if p in ActivePorts(s) && p in s.elsewhere && s.elsewhere[p] > 0
                then s.(ports := o.s.ports, threads := s.threads[i := WatchCopied(p)]) else s
    ensures s.threads[i] == WatchCopied(p) && !s.watchLock ==>
      Step(s, WatchLink(i)) == Ok(s.(watches := s.watches + [p], threads := s.threads[i := Idle]))
  {
    StepKeeps(s, WatchCopyIn(i, p));
  }

  /** A whole host_set_special_port call that nobody interrupts: the slot that was named has
      the new right, the other slot is as it was, and the old right is to be dropped. */
  lemma SetRequest(s: State, i: nat, which: Which, right: Right)
    requires Inv(s) && i < |s.threads| && s.threads[i] == Idle && which in s.slot
    requires right.Live? ==> right.p in ActivePorts(s) && right.p in s.elsewhere && s.elsewhere[right.p] > 0
    ensures var o, prev := Run(s, [SetBegin(i, which, right)] + [SetSwap(i)] + [SetRelease(i)]), s.slot[which];
      && o.Ok? && ActivePorts(o.s) == ActivePorts(s)
      && o.s == s.(ports := o.s.ports, slot := s.slot[which := right],
                   dropping := if prev.Live? then s.dropping + multiset{prev.p} else s.dropping)
  {
    RunThree(s, SetBegin(i, which, right), SetSwap(i), SetRelease(i));
    SetCopyAnswers(s, i, which, right);
    StepKeeps(s, SetBegin(i, which, right));
    var s1 := Step(s, SetBegin(i, which, right)).s;
    SetSwapAnswers(s1, i);
    StepKeeps(s1, SetSwap(i));
    SetReleaseAnswers(Step(s1, SetSwap(i)).s, i);
  }

  /** Ports come to life with one right in a name table, and die when their receive right goes. */
  lemma PortAnswers(s: State, p: Port)
    requires Inv(s)
    ensures var o := Step(s, PortBorn(p));
      && o.Ok?
      && (p !in s.ports ==> o.s == s.(ports := o.s.ports, elsewhere := s.elsewhere[p := 1])
                            && ActivePorts(o.s) == ActivePorts(s) + {p})
      && (p in s.ports ==> o.s == s)
    ensures var o := Step(s, PortDies(p));
      && o.Ok? && ActivePorts(o.s) == ActivePorts(s) - {p}
      && o.s == s.(ports := o.s.ports,
                   dropping := if p in ActivePorts(s) then s.dropping + multiset{p} else s.dropping)
  {
    StepKeeps(s, PortBorn(p));
    StepKeeps(s, PortDies(p));
  }

  /** Tasks copy ... */
  lemma UserCopyAnswers(s: State, p: Port)
    requires Inv(s)
    ensures var o := Step(s, UserCopies(p));
      && o.Ok? && ActivePorts(o.s) == ActivePorts(s)
      && o.s == if p in ActivePorts(s) && p in s.elsewhere && s.elsewhere[p] > 0
                then s.(ports := o.s.ports, elsewhere := s.elsewhere[p := s.elsewhere[p] + 1]) else s
  {
    StepKeeps(s, UserCopies(p));
  }

  /** ... and drop the rights they name ... */
  lemma UserDropAnswers(s: State, p: Port)
    requires Inv(s)
    ensures var o := Step(s, UserDrops(p));
      && o.Ok? && ActivePorts(o.s) == ActivePorts(s)
      && o.s == if p in s.elsewhere && s.elsewhere[p] > 0
                then s.(ports := o.s.ports, elsewhere := s.elsewhere[p := s.elsewhere[p] - 1],
                        dropping := s.dropping + multiset{p}) else s
  {
    StepKeeps(s, UserDrops(p));
  }

  /** ... and a message that is received is no longer queued. */
  lemma ReceiveAnswers(s: State, p: Port)
    requires Inv(s)
    ensures var o := Step(s, Receive(p));
      && o.Ok? && ActivePorts(o.s) == ActivePorts(s)
      && o.s == if p in s.queued
                then s.(ports := o.s.ports, queued := s.queued - multiset{p}, dropping := s.dropping + multiset{p}) else s
  {
    StepKeeps(s, Receive(p));
  }

  // ---- A device event ----

  /** In pass 1 a live watch is passed, by way of a copy of its right if it matches; a dead
      one is unlinked. */
  lemma LookAnswers(s: State, i: nat, matches: bool)
    requires Inv(s) && i < |s.threads| && s.threads[i].Walk? && s.threads[i].i < |s.watches|
    ensures var o, pc := Step(s, WalkLook(i, matches)), s.threads[i];
      var p := s.watches[pc.i];
      && o.Ok?
      && o.s == if p in ActivePorts(s)
                then s.(threads := s.threads[i := if matches then WalkAlive(pc.i, pc.snap) else Walk(pc.i + 1, pc.snap)])
                else s.(watches := s.watches[..pc.i] + s.watches[pc.i + 1..],
                        threads := s.threads[i := WalkPrune(pc.i, pc.snap, p)])
  {
    StepKeeps(s, WalkLook(i, matches));
  }

  /** The copy is kept for pass 2, unless the port has died since. */
  lemma CopyAnswers(s: State, i: nat)
    requires Inv(s) && i < |s.threads| && s.threads[i].WalkAlive?
    ensures var o, pc := Step(s, WalkCopy(i)), s.threads[i];
      && o.Ok? && ActivePorts(o.s) == ActivePorts(s) && pc.i < |s.watches|
      && var snap := if s.watches[pc.i] in ActivePorts(s) then pc.snap + [s.watches[pc.i]] else pc.snap;
      o.s == s.(ports := o.s.ports, threads := s.threads[i := Walk(pc.i + 1, snap)])
  {
    StepKeeps(s, WalkCopy(i));
  }

  /** The right of an unlinked watch is released. */
  lemma PruneAnswers(s: State, i: nat)
    requires Inv(s) && i < |s.threads| && s.threads[i].WalkPrune?
    ensures var o, pc := Step(s, WalkRelease(i)), s.threads[i];
      && o.Ok? && ActivePorts(o.s) == ActivePorts(s)
      && o.s == s.(ports := o.s.ports, dropping := s.dropping + multiset{pc.p},
                   threads := s.threads[i := Walk(pc.i, pc.snap)])
  {
    StepKeeps(s, WalkRelease(i));
  }

  /** Pass 1 takes the lock, unless somebody has it, and gives it back at the end. */
  lemma LockAnswers(s: State, i: nat)
    requires i < |s.threads|
    ensures s.threads[i] == Idle ==>
      Step(s, EmitBegin(i)) == Ok(if s.watchLock then s else s.(watchLock := true, threads := s.threads[i := Walk(0, [])]))
    ensures s.threads[i].Walk? && s.threads[i].i >= |s.watches| ==>
      Step(s, WalkEnd(i)) == Ok(s.(watchLock := false, threads := s.threads[i := Sending(s.threads[i].snap)]))
  {
  }

  /** In pass 2 the right of a live port goes into a message if there is memory; otherwise it
      is released. */
  lemma NotifyAnswers(s: State, i: nat, ok: bool)
    requires Inv(s) && i < |s.threads|
    ensures var pc := s.threads[i];
      && (pc.Sending? && pc.snap == [] ==> Step(s, SendLook(i)) == Ok(s.(threads := s.threads[i := Idle])))
      && (pc.Sending? && pc.snap != [] ==>
            var p, rest := pc.snap[0], pc.snap[1..];
            Step(s, SendLook(i)) ==
              Ok(s.(threads := s.threads[i := if p in ActivePorts(s) then SendAlive(p, rest) else SendFailed(p, rest)])))
      && (pc.SendAlive? ==>
            Step(s, SendAlloc(i, ok)) ==
              Ok(s.(threads := s.threads[i := if ok then SendMessage(pc.p, pc.snap) else SendFailed(pc.p, pc.snap)])))
  {
    StepKeeps(s, SendLook(i));
  }

  /** A message is queued once on a live port, and on no other. */
  lemma SpendAnswers(s: State, i: nat)
    requires Inv(s) && i < |s.threads| && s.threads[i].SendMessage?
    ensures var o, pc := Step(s, SendSend(i)), s.threads[i];
      && o.Ok?
      && o.s == if pc.p in ActivePorts(s)
                then s.(threads := s.threads[i := Sending(pc.snap)], queued := s.queued + multiset{pc.p})
                else s.(threads := s.threads[i := Sending(pc.snap)], dropping := s.dropping + multiset{pc.p})
  {
    StepKeeps(s, SendSend(i));
  }

  /** The right of a send that failed is released. */
  lemma SendReleaseAnswers(s: State, i: nat)
    requires Inv(s) && i < |s.threads| && s.threads[i].SendFailed?
    ensures var o, pc := Step(s, SendRelease(i)), s.threads[i];
      && o.Ok? && ActivePorts(o.s) == ActivePorts(s)
      && o.s == s.(ports := o.s.ports, threads := s.threads[i := Sending(pc.snap)],
                   dropping := s.dropping + multiset{pc.p})
  {
    StepKeeps(s, SendRelease(i));
  }

  /** The watches on live ports, and the others. */
  ghost function Alive(ws: seq<Port>, live: set<Port>): seq<Port> {
    if ws == [] then [] else (if ws[0] in live then [ws[0]] else []) + Alive(ws[1..], live)
  }

  ghost function Gone(ws: seq<Port>, live: set<Port>): seq<Port> {
    if ws == [] then [] else (if ws[0] in live then [] else [ws[0]]) + Gone(ws[1..], live)
  }

  /** The watches on live ports that match. */
  ghost function Picked(ws: seq<Port>, live: set<Port>, ms: seq<bool>): seq<Port>
    requires |ms| == |ws|
  {
    if ws == [] then [] else (if ws[0] in live && ms[0] then [ws[0]] else []) + Picked(ws[1..], live, ms[1..])
  }

  /** Pass 1 alone; `ms` says which watches match. */
  function WalkEvents(i: nat, ms: seq<bool>): seq<Event> {
    if ms == [] then []
    else Turn(i, ms[0]) + WalkEvents(i, ms[1..])
  }

  /** Pass 2 alone, for `n` snapshots, with memory. */
  function SendEvents(i: nat, n: nat): seq<Event> {
    if n == 0 then [] else SendTurn(i) + SendEvents(i, n - 1)
  }

  /** A thread between two watches has nothing to copy or to release. */
  lemma WalkSkips(s: State, i: nat)
    requires i < |s.threads| && s.threads[i].Walk?
    ensures Step(s, WalkCopy(i)) == Ok(s) && Step(s, WalkRelease(i)) == Ok(s)
  {
  }

  lemma PassesTurn(s: State, i: nat)
    requires Inv(s) && i < |s.threads| && s.threads[i].Walk? && s.threads[i].i < |s.watches|
    requires s.watches[s.threads[i].i] in ActivePorts(s)
    ensures var o, pc := Run(s, [WalkLook(i, false)] + [WalkCopy(i)] + [WalkRelease(i)]), s.threads[i];
      o.Ok? && Inv(o.s) && o.s == s.(threads := s.threads[i := Walk(pc.i + 1, pc.snap)])
  {
    RunThree(s, WalkLook(i, false), WalkCopy(i), WalkRelease(i));
    LookAnswers(s, i, false);
    StepKeeps(s, WalkLook(i, false));
    WalkSkips(Step(s, WalkLook(i, false)).s, i);
  }

  lemma PicksTurn(s: State, i: nat)
    requires Inv(s) && i < |s.threads| && s.threads[i].Walk? && s.threads[i].i < |s.watches|
    requires s.watches[s.threads[i].i] in ActivePorts(s)
    ensures var o, pc := Run(s, [WalkLook(i, true)] + [WalkCopy(i)] + [WalkRelease(i)]), s.threads[i];
      && o.Ok? && Inv(o.s) && ActivePorts(o.s) == ActivePorts(s)
      && o.s == s.(ports := o.s.ports, threads := s.threads[i := Walk(pc.i + 1, pc.snap + [s.watches[pc.i]])])
  {
    var pc := s.threads[i];
    RunThree(s, WalkLook(i, true), WalkCopy(i), WalkRelease(i));
    LookAnswers(s, i, true);
    StepKeeps(s, WalkLook(i, true));
    var s1 := Step(s, WalkLook(i, true)).s;
    CopyAnswers(s1, i);
    StepKeeps(s1, WalkCopy(i));
    TwiceUpdated(s.threads, i, s1.threads[i], Walk(pc.i + 1, pc.snap + [s.watches[pc.i]]));
    WalkSkips(Step(s1, WalkCopy(i)).s, i);
  }

  lemma UnlinksTurn(s: State, i: nat, m: bool)
    requires Inv(s) && i < |s.threads| && s.threads[i].Walk? && s.threads[i].i < |s.watches|
    requires s.watches[s.threads[i].i] !in ActivePorts(s)
    ensures var o, pc := Run(s, [WalkLook(i, m)] + [WalkCopy(i)] + [WalkRelease(i)]), s.threads[i];
      && o.Ok? && Inv(o.s) && ActivePorts(o.s) == ActivePorts(s)
      && o.s == s.(ports := o.s.ports, watches := s.watches[..pc.i] + s.watches[pc.i + 1..],
                   dropping := s.dropping + multiset{s.watches[pc.i]}, threads := s.threads[i := Walk(pc.i, pc.snap)])
  {
    var pc := s.threads[i];
    RunThree(s, WalkLook(i, m), WalkCopy(i), WalkRelease(i));
    LookAnswers(s, i, m);
    StepKeeps(s, WalkLook(i, m));
    var s1 := Step(s, WalkLook(i, m)).s;
    assert Step(s1, WalkCopy(i)) == Ok(s1);
    PruneAnswers(s1, i);
    StepKeeps(s1, WalkRelease(i));
    TwiceUpdated(s.threads, i, s1.threads[i], Walk(pc.i, pc.snap));
  }

  /** What pass 1 makes of the watch it has come to. */
  ghost predicate TurnDone(s: State, t: State, i: nat, m: bool)
    requires i < |s.threads| && s.threads[i].Walk? && s.threads[i].i < |s.watches|
  {
    var pc := s.threads[i];
    var p := s.watches[pc.i];
    && ActivePorts(t) == ActivePorts(s)
    && t == if p in ActivePorts(s)
            then s.(ports := t.ports, threads := s.threads[i := Walk(pc.i + 1, if m then pc.snap + [p] else pc.snap)])
            else s.(ports := t.ports, watches := s.watches[..pc.i] + s.watches[pc.i + 1..],
                    dropping := s.dropping + multiset{p}, threads := s.threads[i := Walk(pc.i, pc.snap)])
  }

  function Turn(i: nat, m: bool): seq<Event> {
    [WalkLook(i, m)] + [WalkCopy(i)] + [WalkRelease(i)]
  }

  lemma WatchTurn(s: State, i: nat, m: bool)
    requires Inv(s) && i < |s.threads| && s.threads[i].Walk? && s.threads[i].i < |s.watches|
    ensures var o := Run(s, Turn(i, m));
      o.Ok? && Inv(o.s) && TurnDone(s, o.s, i, m)
  {
    if s.watches[s.threads[i].i] !in ActivePorts(s) {
      UnlinksTurn(s, i, m);
    } else if m {
      PicksTurn(s, i);
    } else {
      PassesTurn(s, i);
    }
  }

  /** What pass 1 makes of all the watches it has not come to yet. */
  ghost predicate WalkDone(s: State, t: State, i: nat, ms: seq<bool>)
    requires i < |s.threads| && s.threads[i].Walk? && s.threads[i].i + |ms| == |s.watches|
  {
    var pc, live := s.threads[i], ActivePorts(s);
    var ws := s.watches[pc.i..];
    && ActivePorts(t) == live
    && t == s.(ports := t.ports, watches := s.watches[..pc.i] + Alive(ws, live),
               dropping := s.dropping + multiset(Gone(ws, live)),
               threads := s.threads[i := Walk(pc.i + |Alive(ws, live)|, pc.snap + Picked(ws, live, ms))])
  }

  lemma NothingToWalk(s: State, i: nat)
    requires i < |s.threads| && s.threads[i].Walk? && s.threads[i].i == |s.watches|
    ensures WalkDone(s, s, i, [])
  {
    var pc := s.threads[i];
    assert s.watches == s.watches[..pc.i] + Alive([], ActivePorts(s));
    assert pc.snap + [] == pc.snap;
    assert s.threads == s.threads[i := Walk(pc.i, pc.snap)];
  }

  lemma LiveTurnFirst(s: State, s1: State, t: State, i: nat, ms: seq<bool>)
    requires i < |s.threads| == |s1.threads| && s.threads[i].Walk? && ms != []
    requires s.threads[i].i + |ms| == |s.watches| && s.watches[s.threads[i].i] in ActivePorts(s)
    requires TurnDone(s, s1, i, ms[0]) && WalkDone(s1, t, i, ms[1..])
    ensures WalkDone(s, t, i, ms)
  {
    var pc, live := s.threads[i], ActivePorts(s);
    var ws := s.watches[pc.i..];
    assert s1.watches[pc.i + 1..] == ws[1..];
    assert s.watches[..pc.i + 1] + Alive(ws[1..], live) == s.watches[..pc.i] + Alive(ws, live);
    assert Gone(ws, live) == Gone(ws[1..], live);
    assert |Alive(ws, live)| == 1 + |Alive(ws[1..], live)|;
    assert s1.threads[i].snap + Picked(ws[1..], live, ms[1..]) == pc.snap + Picked(ws, live, ms);
    TwiceUpdated(s.threads, i, s1.threads[i], t.threads[i]);
  }

  lemma MoreDropping(dropping: multiset<Port>, p: Port, rest: seq<Port>)
    ensures dropping + multiset{p} + multiset(rest) == dropping + multiset([p] + rest)
  {
  }

  lemma DeadTurnFirst(s: State, s1: State, t: State, i: nat, ms: seq<bool>)
    requires i < |s.threads| == |s1.threads| && s.threads[i].Walk? && ms != []
    requires s.threads[i].i + |ms| == |s.watches| && s.watches[s.threads[i].i] !in ActivePorts(s)
    requires TurnDone(s, s1, i, ms[0]) && WalkDone(s1, t, i, ms[1..])
    ensures WalkDone(s, t, i, ms)
  {
    var pc, live := s.threads[i], ActivePorts(s);
    var ws := s.watches[pc.i..];
    assert s1.watches[pc.i..] == ws[1..];
    assert s1.watches[..pc.i] == s.watches[..pc.i];
    assert Alive(ws, live) == Alive(ws[1..], live);
    assert Picked(ws, live, ms) == Picked(ws[1..], live, ms[1..]);
    MoreDropping(s.dropping, ws[0], Gone(ws[1..], live));
    assert t.dropping == s.dropping + multiset(Gone(ws, live));
    TwiceUpdated(s.threads, i, s1.threads[i], t.threads[i]);
  }

  lemma {:induction false} WalkDoes(s: State, i: nat, ms: seq<bool>)
    requires Inv(s) && i < |s.threads| && s.threads[i].Walk? && s.threads[i].i + |ms| == |s.watches|
    ensures var o := Run(s, WalkEvents(i, ms));
      o.Ok? && Inv(o.s) && WalkDone(s, o.s, i, ms)
    decreases |ms|
  {
    if ms == [] {
      NothingToWalk(s, i);
    } else {
      WatchTurn(s, i, ms[0]);
      var s1 := Run(s, Turn(i, ms[0])).s;
      RunJoin(s, Turn(i, ms[0]), WalkEvents(i, ms[1..]));
      WalkDoes(s1, i, ms[1..]);
      var t := Run(s1, WalkEvents(i, ms[1..])).s;
      if s.watches[s.threads[i].i] in ActivePorts(s) {
        LiveTurnFirst(s, s1, t, i, ms);
      } else {
        DeadTurnFirst(s, s1, t, i, ms);
      }
    }
  }

  function SendTurn(i: nat): seq<Event> {
    [SendLook(i)] + [SendAlloc(i, true)] + [SendSend(i)]
  }

  lemma SendTurnDoes(s: State, i: nat)
    requires Inv(s) && i < |s.threads| && s.threads[i].Sending? && s.threads[i].snap != []
    requires s.threads[i].snap[0] in ActivePorts(s)
    ensures var o, snap := Run(s, SendTurn(i)), s.threads[i].snap;
      && o.Ok? && Inv(o.s) && ActivePorts(o.s) == ActivePorts(s)
      && o.s == s.(queued := s.queued + multiset{snap[0]}, threads := s.threads[i := Sending(snap[1..])])
  {
    RunThree(s, SendLook(i), SendAlloc(i, true), SendSend(i));
    NotifyAnswers(s, i, true);
    StepKeeps(s, SendLook(i));
    var s1 := Step(s, SendLook(i)).s;
    NotifyAnswers(s1, i, true);
    StepKeeps(s1, SendAlloc(i, true));
    var s2 := Step(s1, SendAlloc(i, true)).s;
    SpendAnswers(s2, i);
    StepKeeps(s2, SendSend(i));
    TwiceUpdated(s.threads, i, s1.threads[i], s2.threads[i]);
    TwiceUpdated(s.threads, i, s2.threads[i], Sending(s.threads[i].snap[1..]));
  }

  /** What pass 2 makes of its snapshots. */
  ghost predicate SendDone(s: State, t: State, i: nat)
    requires i < |s.threads| && s.threads[i].Sending?
  {
    t == s.(queued := s.queued + multiset(s.threads[i].snap), threads := s.threads[i := Sending([])])
  }

  lemma SendTurnFirst(s: State, s1: State, t: State, i: nat)
    requires i < |s.threads| == |s1.threads| && s.threads[i].Sending? && s.threads[i].snap != []
    requires var snap := s.threads[i].snap;
      s1 == s.(queued := s.queued + multiset{snap[0]}, threads := s.threads[i := Sending(snap[1..])])
    requires SendDone(s1, t, i)
    ensures SendDone(s, t, i)
  {
    var snap := s.threads[i].snap;
    assert snap == [snap[0]] + snap[1..];
    TwiceUpdated(s.threads, i, s1.threads[i], Sending([]));
  }

  lemma TailLive(snap: seq<Port>, live: set<Port>)
    requires snap != [] && forall p <- snap :: p in live
    ensures snap[0] in live && forall p <- snap[1..] :: p in live
  {
  }

  lemma {:induction false} SendsDo(s: State, i: nat)
    requires Inv(s) && i < |s.threads| && s.threads[i].Sending?
    requires forall p <- s.threads[i].snap :: p in ActivePorts(s)
    ensures var o := Run(s, SendEvents(i, |s.threads[i].snap|));
      o.Ok? && Inv(o.s) && SendDone(s, o.s, i)
    decreases |s.threads[i].snap|
  {
    var snap := s.threads[i].snap;
    if snap == [] {
      assert s.threads == s.threads[i := Sending([])];
    } else {
      SendTurnDoes(s, i);
      var s1 := Run(s, SendTurn(i)).s;
      RunJoin(s, SendTurn(i), SendEvents(i, |snap| - 1));
      TailLive(snap, ActivePorts(s));
      SendsDo(s1, i);
      SendTurnFirst(s, s1, Run(s1, SendEvents(i, |snap| - 1)).s, i);
    }
  }

  lemma {:induction false} PickedLive(ws: seq<Port>, live: set<Port>, ms: seq<bool>)
    requires |ms| == |ws|
    ensures forall p <- Picked(ws, live, ms) :: p in live
  {
    if ws == [] {
    } else {
      PickedLive(ws[1..], live, ms[1..]);
    }
  }

  /** A whole device event that nobody interrupts, with memory: every live watch that matches
      gets one message, no other watch gets any, the dead watches are gone, the live ones
      stay in their order, and the lock is free again. */
  lemma EmitDelivers(s: State, i: nat, ms: seq<bool>)
    requires Inv(s) && i < |s.threads| && s.threads[i] == Idle && !s.watchLock && |ms| == |s.watches|
    ensures var live := ActivePorts(s);
      var picked := Picked(s.watches, live, ms);
      var o := Run(s, [EmitBegin(i)] + WalkEvents(i, ms) + [WalkEnd(i)] + SendEvents(i, |picked|) + [SendLook(i)]);
      && o.Ok? && ActivePorts(o.s) == live
      && o.s == s.(ports := o.s.ports, watches := Alive(s.watches, live),
                   queued := s.queued + multiset(picked),
                   dropping := s.dropping + multiset(Gone(s.watches, live)))
  {
    var live := ActivePorts(s);
    var picked := Picked(s.watches, live, ms);
    WalkPass(s, i, ms);
    PickedLive(s.watches, live, ms);
    var first := [EmitBegin(i)] + WalkEvents(i, ms) + [WalkEnd(i)];
    var s1 := Run(s, first).s;
    SendsDo(s1, i);
    var s2 := Run(s1, SendEvents(i, |picked|)).s;
    NotifyAnswers(s2, i, true);
    RunJoin(s, first, SendEvents(i, |picked|));
    RunJoin(s, first + SendEvents(i, |picked|), [SendLook(i)]);
    RunOne(s2, SendLook(i));
    assert s.threads[i := Idle] == s.threads;
  }

  lemma RunOne(s: State, e: Event)
    ensures Run(s, [e]) == Step(s, e)
  {
    assert [e][1..] == [];
  }

  /** Pass 1, from taking the lock to giving it back. */
  lemma WalkPass(s: State, i: nat, ms: seq<bool>)
    requires Inv(s) && i < |s.threads| && s.threads[i] == Idle && !s.watchLock && |ms| == |s.watches|
    ensures var o, live := Run(s, [EmitBegin(i)] + WalkEvents(i, ms) + [WalkEnd(i)]), ActivePorts(s);
      && o.Ok? && Inv(o.s) && ActivePorts(o.s) == live
      && o.s == s.(ports := o.s.ports, watches := Alive(s.watches, live),
                   dropping := s.dropping + multiset(Gone(s.watches, live)),
                   threads := s.threads[i := Sending(Picked(s.watches, live, ms))])
  {
    WalkBegins(s, i);
    var s1 := Run(s, [EmitBegin(i)]).s;
    WalkDoes(s1, i, ms);
    var s2 := Run(s1, WalkEvents(i, ms)).s;
    WalkedFromFirst(s1, s2, i, ms);
    WalkEnds(s2, i);
    RunJoin(s, [EmitBegin(i)], WalkEvents(i, ms));
    RunJoin(s, [EmitBegin(i)] + WalkEvents(i, ms), [WalkEnd(i)]);
    TwiceUpdated(s.threads, i, s1.threads[i], s2.threads[i]);
    TwiceUpdated(s.threads, i, s2.threads[i], Sending(s2.threads[i].snap));
  }

  lemma WalkedFromFirst(s: State, t: State, i: nat, ms: seq<bool>)
    requires i < |s.threads| && s.threads[i] == Walk(0, []) && |ms| == |s.watches| && WalkDone(s, t, i, ms)
    ensures var live := ActivePorts(s);
      && ActivePorts(t) == live
      && t == s.(ports := t.ports, watches := Alive(s.watches, live),
                 dropping := s.dropping + multiset(Gone(s.watches, live)),
                 threads := s.threads[i := Walk(|Alive(s.watches, live)|, Picked(s.watches, live, ms))])
  {
    assert s.watches[0..] == s.watches;
    assert s.watches[..0] + Alive(s.watches, ActivePorts(s)) == Alive(s.watches, ActivePorts(s));
    assert [] + Picked(s.watches, ActivePorts(s), ms) == Picked(s.watches, ActivePorts(s), ms);
  }

  lemma WalkBegins(s: State, i: nat)
    requires Inv(s) && i < |s.threads| && s.threads[i] == Idle && !s.watchLock
    ensures var o := Run(s, [EmitBegin(i)]);
      o.Ok? && Inv(o.s) && o.s == s.(watchLock := true, threads := s.threads[i := Walk(0, [])])
  {
    LockAnswers(s, i);
    StepKeeps(s, EmitBegin(i));
    RunOne(s, EmitBegin(i));
  }

  lemma WalkEnds(s: State, i: nat)
    requires Inv(s) && i < |s.threads| && s.threads[i].Walk? && s.threads[i].i >= |s.watches|
    ensures var o := Run(s, [WalkEnd(i)]);
      o.Ok? && Inv(o.s) && o.s == s.(watchLock := false, threads := s.threads[i := Sending(s.threads[i].snap)])
  {
    LockAnswers(s, i);
    StepKeeps(s, WalkEnd(i));
    RunOne(s, WalkEnd(i));
  }
}
