/**
 The bus-quiescence counter.  Every device probe is bracketed by a start and an end event.
 `busy` counts the open brackets, `gen` the returns to zero, and mach_wait_quiet sleeps
 until `busy` is zero or a deadline has passed.

 A state holds any number of probing and waiting threads; an event is one atomic step of
 one of them.  The end event takes three steps when it brings `busy` to zero: the
 decrement, the increment of `gen` and the wakeup.  The waiter's test of `busy` and its
 going to sleep are two steps.
 */
module BusState {
  import opened Machine

  datatype EndPc = Outside | Decremented | Bumped

  /** A probing thread: its open brackets, and its place in the end event. */
  datatype Prober = Prober(depth: nat, pc: EndPc)

  datatype WaitPc = Idle | Testing | AboutToSleep | Asleep | Woken(error: int) | Returned(code: int)

  /** A waiting thread, and how often it has gone to sleep. */
  datatype Waiter = Waiter(pc: WaitPc, sleeps: nat)

  datatype State = State(busy: int, gen: int, probers: seq<Prober>, waiters: seq<Waiter>)

  datatype Event =
    | Start(i: nat)
    | End(i: nat)              // the fetch-and-add of -1
    | Bump(i: nat)
    | Wakeup(i: nat)
    | Call(w: nat)
    | Test(w: nat)
    | Sleep(w: nat)
    | Interrupt(w: nat, error: int)   // tsleep() returns EINTR or ERESTART
    | Deadline(w: nat)                // tsleep() returns EWOULDBLOCK
    | React(w: nat)                   // the two tests of tsleep()'s result

  function WakeAll(ws: seq<Waiter>): (r: seq<Waiter>)
    ensures |r| == |ws|
    ensures forall k :: 0 <= k < |ws| ==> r[k] == if ws[k].pc == Asleep then ws[k].(pc := Woken(0)) else ws[k]
  {
    if ws == [] then []
    else [if ws[0].pc == Asleep then ws[0].(pc := Woken(0)) else ws[0]] + WakeAll(ws[1..])
  }

  predicate OfProber(e: Event) {
    e.Start? || e.End? || e.Bump? || e.Wakeup?
  }

  function ProbeStep(s: State, e: Event): State
    requires OfProber(e) && e.i < |s.probers|
  {
    var p := s.probers[e.i];
    match e
    case Start(i) =>
      if p.pc != Outside then s
      else s.(busy := s.busy + 1, probers := s.probers[i := p.(depth := p.depth + 1)])
    case End(i) =>
      if p.pc != Outside || p.depth == 0 then s
      else s.(busy := s.busy - 1,
              probers := s.probers[i := Prober(p.depth - 1, if s.busy == 1 then Decremented else Outside)])
    case Bump(i) =>
      if p.pc != Decremented then s else s.(gen := s.gen + 1, probers := s.probers[i := p.(pc := Bumped)])
    case Wakeup(i) =>
      if p.pc != Bumped then s
      else s.(waiters := WakeAll(s.waiters), probers := s.probers[i := p.(pc := Outside)])
  }

  function WaitStep(s: State, e: Event): State
    requires !OfProber(e) && e.w < |s.waiters|
  {
    var t := s.waiters[e.w];
    var pc :=
      match (e, t.pc)
      case (Call(_), Idle) => Testing
      case (Call(_), Returned(_)) => Testing
      case (Test(_), Testing) => if s.busy != 0 then AboutToSleep else Returned(0)
      case (Sleep(_), AboutToSleep) => Asleep
      case (Interrupt(_, error), Asleep) =>
        if error != 0 && error != EWOULDBLOCK then Woken(error) else t.pc
      case (Deadline(_), Asleep) => Woken(EWOULDBLOCK)
      case (React(_), Woken(error)) =>
        if error == EWOULDBLOCK then Returned(0) else if error != 0 then Returned(error) else Testing
      case _ => t.pc;
    s.(waiters := s.waiters[e.w := Waiter(pc, t.sleeps + if t.pc == AboutToSleep && pc == Asleep then 1 else 0)])
  }

  /** One step. An event that is not enabled changes nothing. */
  function Step(s: State, e: Event): State {
    if OfProber(e) then if e.i < |s.probers| then ProbeStep(s, e) else s
    else if e.w < |s.waiters| then WaitStep(s, e) else s
  }

  function Run(s: State, es: seq<Event>): State
    decreases |es|
  {
    if es == [] then s else Run(Step(s, es[0]), es[1..])
  }

  // ---- Counting ----

  ghost function OpenBrackets(ps: seq<Prober>): nat {
    if ps == [] then 0 else ps[0].depth + OpenBrackets(ps[1..])
  }

  /** Threads between their decrement and their increment of `gen`. */
  ghost function Pending(ps: seq<Prober>): nat {
    if ps == [] then 0 else (if ps[0].pc == Decremented then 1 else 0) + Pending(ps[1..])
  }

  lemma {:induction false} ProberUpdate(ps: seq<Prober>, i: nat, p: Prober)
    requires i < |ps|
    ensures OpenBrackets(ps[i := p]) == OpenBrackets(ps) - ps[i].depth + p.depth
    ensures Pending(ps[i := p])
         == Pending(ps) - (if ps[i].pc == Decremented then 1 else 0) + if p.pc == Decremented then 1 else 0
    ensures ps[i].depth <= OpenBrackets(ps)
  {
    if i == 0 {
      assert ps[i := p][1..] == ps[1..];
    } else {
      assert ps[i := p][1..] == ps[1..][i - 1 := p];
      ProberUpdate(ps[1..], i - 1, p);
    }
  }

  /** How often `busy` went from 1 to 0 along a run. */
  ghost function Drops(s: State, es: seq<Event>): nat
    decreases |es|
  {
    if es == [] then 0
    else (if s.busy == 1 && Step(s, es[0]).busy == 0 then 1 else 0) + Drops(Step(s, es[0]), es[1..])
  }

  ghost predicate Balanced(s: State) {
    s.busy == OpenBrackets(s.probers)
  }

  lemma StepBalanced(s: State, e: Event)
    requires Balanced(s)
    ensures Balanced(Step(s, e)) && Step(s, e).busy >= 0
    ensures Step(s, e).gen + Pending(Step(s, e).probers)
         == s.gen + Pending(s.probers) + if s.busy == 1 && Step(s, e).busy == 0 then 1 else 0
  {
    if OfProber(e) && e.i < |s.probers| {
      ProberUpdate(s.probers, e.i, Step(s, e).probers[e.i]);
    }
  }

  /** In every run, `busy` is the number of open brackets, hence never negative, and `gen`
      with the increments still to come is the number of returns to zero. */
  lemma {:induction false} RunBalanced(s: State, es: seq<Event>)
    requires Balanced(s)
    ensures Balanced(Run(s, es)) && Run(s, es).busy >= 0
    ensures Run(s, es).gen + Pending(Run(s, es).probers) == s.gen + Pending(s.probers) + Drops(s, es)
    decreases |es|
  {
    if es == [] {
    } else {
      StepBalanced(s, es[0]);
      RunBalanced(Step(s, es[0]), es[1..]);
    }
  }

  // ---- Nested brackets of one thread ----

  /** The probes of a device tree: a bracket around the probes it causes, then the next. */
  datatype Forest = Nothing | Probe(children: Forest, next: Forest)

  function Roots(f: Forest): nat {
    if f.Nothing? then 0 else 1 + Roots(f.next)
  }

  /** The events of thread `i` going through `f` alone. */
  function Events(f: Forest, i: nat): seq<Event> {
    if f.Nothing? then [] else [Start(i)] + Events(f.children, i) + [End(i), Bump(i), Wakeup(i)] + Events(f.next, i)
  }

  lemma {:induction false} RunJoin(s: State, a: seq<Event>, b: seq<Event>)
    ensures Run(s, a + b) == Run(Run(s, a), b)
    decreases |a|
  {
    if a == [] {
      assert a + b == b;
    } else {
      assert (a + b)[1..] == a[1..] + b;
      RunJoin(Step(s, a[0]), a[1..], b);
    }
  }

  lemma EndRun(s: State, i: nat)
    requires i < |s.probers| && s.probers[i].pc == Outside && s.probers[i].depth > 0
    ensures var t := Run(s, [End(i), Bump(i), Wakeup(i)]);
      && t.busy == s.busy - 1
      && t.gen == s.gen + (if s.busy == 1 then 1 else 0)
      && t.probers == s.probers[i := Prober(s.probers[i].depth - 1, Outside)]
  {
    var s1 := Step(s, End(i));
    var s2 := Step(s1, Bump(i));
    var s3 := Step(s2, Wakeup(i));
    assert [Wakeup(i)][1..] == [];
    assert Run(s2, [Wakeup(i)]) == s3;
    assert [Bump(i), Wakeup(i)][1..] == [Wakeup(i)];
    assert Run(s1, [Bump(i), Wakeup(i)]) == s3;
    assert [End(i), Bump(i), Wakeup(i)][1..] == [Bump(i), Wakeup(i)];
  }

  /** A forest of nested brackets leaves `busy` as it was.  Started from zero it raises
      `gen` by the number of root brackets, started from above zero not at all. */
  lemma {:induction false} ForestRun(s: State, f: Forest, i: nat)
    requires i < |s.probers| && s.probers[i].pc == Outside && s.busy >= 0
    ensures var t := Run(s, Events(f, i));
      && t.busy == s.busy
      && t.probers == s.probers
      && t.gen == s.gen + if s.busy == 0 then Roots(f) else 0
    decreases f
  {
    if f.Nothing? {
    } else {
      var s1 := Step(s, Start(i));
      ForestRun(s1, f.children, i);
      var s2 := Run(s1, Events(f.children, i));
      EndRun(s2, i);
      var s3 := Run(s2, [End(i), Bump(i), Wakeup(i)]);
      ForestRun(s3, f.next, i);
      RunJoin(s, [Start(i)], Events(f.children, i));
      RunJoin(s, [Start(i)] + Events(f.children, i), [End(i), Bump(i), Wakeup(i)]);
      RunJoin(s, [Start(i)] + Events(f.children, i) + [End(i), Bump(i), Wakeup(i)], Events(f.next, i));
      assert [Start(i)][1..] == [];
      assert Run(s, [Start(i)]) == s1;
    }
  }

  /** The counters as one thread updates them in place. */
  class Counters {
    var busy: int
    var gen: int

    method MatchStart()
      modifies this
      ensures busy == old(busy) + 1 && gen == old(gen)
    {
      busy := busy + 1;
    }

    method MatchEnd() returns (wakeup: bool)
      modifies this
      ensures busy == old(busy) - 1
      ensures wakeup == (old(busy) == 1) && gen == old(gen) + if wakeup then 1 else 0
    {
      var before := busy;
      busy := busy - 1;
      wakeup := before == 1;
      if wakeup {
        gen := gen + 1;
      }
    }

    /** device_probe_and_attach() for every device of a forest, and for the children that
        each attach brings. */
    method ProbeAll(f: Forest)
      requires busy >= 0
      modifies this
      ensures busy == old(busy)
      ensures gen == old(gen) + if old(busy) == 0 then Roots(f) else 0
      decreases f
    {
      if f.Probe? {
        MatchStart();
        ProbeAll(f.children);
        var _ := MatchEnd();
        ProbeAll(f.next);
      }
    }
  }

  // ---- Waiters ----

  ghost predicate Trace(ss: seq<State>, es: seq<Event>) {
    && |ss| == |es| + 1
    && (forall k :: 0 <= k < |es| ==> ss[k + 1] == Step(ss[k], es[k]))
    && (forall k :: 0 <= k < |ss| ==> |ss[k].waiters| == |ss[0].waiters| && |ss[k].probers| == |ss[0].probers|)
  }

  predicate InCall(pc: WaitPc) {
    !pc.Idle? && !pc.Returned?
  }

  /** Waiter `w` is inside one call of mach_wait_quiet from the event `c` until the state `m`. */
  ghost predicate CallSpan(ss: seq<State>, es: seq<Event>, w: nat, c: nat, m: nat)
    requires Trace(ss, es) && w < |ss[0].waiters|
  {
    c < m < |ss| && es[c] == Call(w) && forall k :: c < k < m ==> InCall(ss[k].waiters[w].pc)
  }

  /** How a waiter's place changes in one step, and for what reason. */
  lemma WaiterStep(s: State, e: Event, w: nat)
    requires w < |s.waiters|
    ensures |Step(s, e).waiters| == |s.waiters|
    ensures var before, after := s.waiters[w].pc, Step(s, e).waiters[w].pc;
      && (!InCall(before) && InCall(after) ==> e == Call(w) && after == Testing)
      && (!InCall(before) && !InCall(after) ==> after == before)
      && (InCall(before) && !InCall(after) ==> after.Returned?)
      && (InCall(before) && after == Returned(0) ==>
            (before == Testing && s.busy == 0) || before == Woken(EWOULDBLOCK))
      && (after == Woken(EWOULDBLOCK) ==> before == after || e == Deadline(w))
  {
  }

  /** The waiter's own steps: a quiet bus gives success at once, a busy one a sleep, the
      deadline success, an interrupt its error, and a wakeup another test. */
  lemma WaiterAnswers(s: State, w: nat, error: int)
    requires w < |s.waiters|
    ensures var pc := s.waiters[w].pc;
      && (pc.Idle? || pc.Returned? ==> Step(s, Call(w)).waiters[w].pc == Testing)
      && (pc == Testing ==> Step(s, Test(w)).waiters[w].pc == if s.busy == 0 then Returned(0) else AboutToSleep)
      && (pc == AboutToSleep ==> Step(s, Sleep(w)).waiters[w].pc == Asleep)
      && (pc == Asleep ==> Step(s, Deadline(w)).waiters[w].pc == Woken(EWOULDBLOCK))
      && (pc == Asleep && error != 0 && error != EWOULDBLOCK ==>
            Step(s, Interrupt(w, error)).waiters[w].pc == Woken(error))
      && (pc.Woken? ==>
            Step(s, React(w)).waiters[w].pc ==
              (if pc.error == 0 then Testing else Returned(if pc.error == EWOULDBLOCK then 0 else pc.error)))
  {
  }

  /** Whence an error: from an interrupt, or the call has not returned with it. */
  lemma ErrorStep(s: State, e: Event, w: nat, code: int)
    requires w < |s.waiters| && code != 0
    ensures |Step(s, e).waiters| == |s.waiters|
    ensures var before, after := s.waiters[w].pc, Step(s, e).waiters[w].pc;
      && (after == Woken(code) && before != after ==>
            (e == Interrupt(w, code) && code != EWOULDBLOCK) || (e == Deadline(w) && code == EWOULDBLOCK))
      && (after == Woken(code) ==> InCall(before))
      && (after == Returned(code) && before != after ==> before == Woken(code) && code != EWOULDBLOCK)
      && (InCall(after) && !InCall(before) ==> e == Call(w))
  {
  }

  /** The past of a waiter with an error. */
  lemma {:induction false} ErrorHistory(ss: seq<State>, es: seq<Event>, w: nat, n: nat, code: int)
    returns (c: nat, j: nat, m: nat)
    requires Trace(ss, es) && w < |ss[0].waiters| && n < |ss| && ss[0].waiters[w].pc == Idle && code != 0
    ensures InCall(ss[n].waiters[w].pc) ==> c < n && CallSpan(ss, es, w, c, n)
    ensures ss[n].waiters[w].pc == Woken(code) ==>
      c < j < n && (es[j] == Interrupt(w, code) || es[j] == Deadline(w)) && (code == EWOULDBLOCK <==> es[j] == Deadline(w))
    ensures ss[n].waiters[w].pc == Returned(code) ==>
      && m <= n && CallSpan(ss, es, w, c, m) && c < j < m
      && es[j] == Interrupt(w, code) && code != EWOULDBLOCK
      && forall k :: m <= k <= n ==> ss[k].waiters[w].pc == Returned(code)
  {
    if n == 0 {
      c, j, m := 0, 0, 0;
    } else {
      c, j, m := ErrorHistory(ss, es, w, n - 1, code);
      assert ss[n] == Step(ss[n - 1], es[n - 1]);
      ErrorStep(ss[n - 1], es[n - 1], w, code);
      var before, after := ss[n - 1].waiters[w].pc, ss[n].waiters[w].pc;
      if InCall(before) {
        SpanGrows(ss, es, w, c, n - 1);
        m := if InCall(after) then m else n;
        j := if after == Woken(code) && before != after then n - 1 else j;
      } else if InCall(after) {
        c := n - 1;
      }
    }
  }

  /** A call that returns an error was interrupted with that error, inside the call; the
      deadline is never an error. */
  lemma ErrorHasCause(ss: seq<State>, es: seq<Event>, w: nat, code: int)
    returns (c: nat, j: nat, m: nat)
    requires Trace(ss, es) && w < |ss[0].waiters| && ss[0].waiters[w].pc == Idle
    requires ss[|es|].waiters[w].pc == Returned(code) && code != 0
    ensures CallSpan(ss, es, w, c, m) && c < j < m
    ensures es[j] == Interrupt(w, code) && code != EWOULDBLOCK
    ensures forall k :: m <= k < |ss| ==> ss[k].waiters[w].pc == Returned(code)
  {
    c, j, m := ErrorHistory(ss, es, w, |es|, code);
  }

  /** What a waiter's place says about the past of its current or last call. */
  lemma {:induction false} History(ss: seq<State>, es: seq<Event>, w: nat, n: nat)
    returns (c: nat, j: nat, m: nat)
    requires Trace(ss, es) && w < |ss[0].waiters| && n < |ss| && ss[0].waiters[w].pc == Idle
    ensures InCall(ss[n].waiters[w].pc) ==> c < n && CallSpan(ss, es, w, c, n)
    ensures ss[n].waiters[w].pc == Woken(EWOULDBLOCK) ==> c < j < n && es[j] == Deadline(w)
    ensures ss[n].waiters[w].pc == Returned(0) ==>
      && m <= n && CallSpan(ss, es, w, c, m) && c < j < m
      && (forall k :: m <= k <= n ==> ss[k].waiters[w].pc == Returned(0))
      && (ss[j].busy == 0 || es[j] == Deadline(w))
  {
    if n == 0 {
      c, j, m := 0, 0, 0;
    } else {
      c, j, m := History(ss, es, w, n - 1);
      assert ss[n] == Step(ss[n - 1], es[n - 1]);
      WaiterStep(ss[n - 1], es[n - 1], w);
      var before, after := ss[n - 1].waiters[w].pc, ss[n].waiters[w].pc;
      if InCall(before) {
        SpanGrows(ss, es, w, c, n - 1);
        m := if InCall(after) then m else n;
        j := if before == Testing || (after == Woken(EWOULDBLOCK) && before != after) then n - 1 else j;
      } else if InCall(after) {
        c := n - 1;
      }
    }
  }

  lemma SpanGrows(ss: seq<State>, es: seq<Event>, w: nat, c: nat, n: nat)
    requires Trace(ss, es) && w < |ss[0].waiters| && n < |es|
    requires CallSpan(ss, es, w, c, n) && InCall(ss[n].waiters[w].pc)
    ensures CallSpan(ss, es, w, c, n + 1)
  {
  }

  /** A call that returns success saw the bus quiet at some instant inside the call, or
      its deadline passed inside the call. */
  lemma SuccessHasCause(ss: seq<State>, es: seq<Event>, w: nat)
    returns (c: nat, j: nat, m: nat)
    requires Trace(ss, es) && w < |ss[0].waiters| && ss[0].waiters[w].pc == Idle
    requires ss[|es|].waiters[w].pc == Returned(0)
    ensures CallSpan(ss, es, w, c, m) && c < j < m
    ensures forall k :: m <= k < |ss| ==> ss[k].waiters[w].pc == Returned(0)
    ensures ss[j].busy == 0 || es[j] == Deadline(w)
  {
    c, j, m := History(ss, es, w, |es|);
  }

  /** A waiter asleep when prober `t` brings `busy` to zero has left that sleep by the time
      `t` has left its end event. */
  lemma {:induction false} SleeperReleased(ss: seq<State>, es: seq<Event>, w: nat, t: nat, i: nat, m: nat)
    requires Trace(ss, es) && w < |ss[0].waiters| && t < |ss[0].probers| && i < m < |ss|
    requires es[i] == End(t) && ss[i].busy == 1 && ss[i].probers[t].pc == Outside && ss[i].probers[t].depth > 0
    requires ss[i].waiters[w].pc == Asleep
    ensures ss[m].waiters[w].sleeps >= ss[i].waiters[w].sleeps
    ensures ss[m].waiters[w].pc == Asleep && ss[m].waiters[w].sleeps == ss[i].waiters[w].sleeps
            ==> ss[m].probers[t].pc != Outside
    decreases m
  {
    if m == i + 1 {
      assert ss[m] == Step(ss[i], es[i]);
    } else {
      SleeperReleased(ss, es, w, t, i, m - 1);
      assert ss[m] == Step(ss[m - 1], es[m - 1]);
    }
  }

  // ---- Wakeups that nobody hears ----

  /** No bracket is open and no end event is under way. */
  ghost predicate Quiet(s: State) {
    s.busy == 0 && forall i :: 0 <= i < |s.probers| ==> s.probers[i].pc == Outside
  }

  /** Waiter `w` goes to sleep at event `j` and sleeps on up to state `n`. */
  ghost predicate SleepSpan(ss: seq<State>, es: seq<Event>, w: nat, j: nat, n: nat)
    requires Trace(ss, es) && w < |ss[0].waiters|
  {
    && j < n < |ss| && es[j] == Sleep(w) && ss[j].waiters[w].pc == AboutToSleep
    && forall k :: j < k <= n ==> ss[k].waiters[w].pc == Asleep
  }

  /** A step into quiet that wakes nobody was taken in quiet. */
  lemma QuietBefore(s: State, e: Event, w: nat)
    requires w < |s.waiters| && s.busy >= 0 && Quiet(Step(s, e))
    requires (s.waiters[w].pc == Asleep && Step(s, e).waiters[w].pc == Asleep) || e == Sleep(w)
    ensures Quiet(s)
  {
    var t := Step(s, e);
    if OfProber(e) && e.i < |s.probers| {
      var i := e.i;
      assert t.probers[i].pc == Outside;
      forall k | 0 <= k < |s.probers| ensures s.probers[k].pc == Outside {
        assert k != i ==> t.probers[k] == s.probers[k];
      }
    }
  }

  lemma {:induction false} TraceBalanced(ss: seq<State>, es: seq<Event>, n: nat)
    requires Trace(ss, es) && n < |ss| && Balanced(ss[0])
    ensures Balanced(ss[n]) && ss[n].busy >= 0
  {
    if n == 0 {
    } else {
      TraceBalanced(ss, es, n - 1);
      StepBalanced(ss[n - 1], es[n - 1]);
    }
  }

  /** What is quiet in a sleep was quiet all through it. */
  lemma {:induction false} QuietSince(ss: seq<State>, es: seq<Event>, w: nat, j: nat, n: nat, k: nat)
    requires Trace(ss, es) && w < |ss[0].waiters| && Balanced(ss[0])
    requires SleepSpan(ss, es, w, j, n) && Quiet(ss[n]) && j <= k <= n
    ensures Quiet(ss[k])
    decreases n - k
  {
    if k == n {
    } else {
      QuietSince(ss, es, w, j, n, k + 1);
      TraceBalanced(ss, es, k);
      QuietBefore(ss[k], es[k], w);
    }
  }

  /** A waiter is asleep on a quiet bus at some point of a sleep if and only if the bus was
      quiet already when it went to sleep: a return to zero within the sleep would have
      ended it. */
  lemma AsleepInQuiet(ss: seq<State>, es: seq<Event>, w: nat, j: nat)
    requires Trace(ss, es) && w < |ss[0].waiters| && Balanced(ss[0])
    requires j < |es| && es[j] == Sleep(w) && ss[j].waiters[w].pc == AboutToSleep
    ensures (exists n: nat :: SleepSpan(ss, es, w, j, n) && Quiet(ss[n])) <==> Quiet(ss[j])
  {
    if Quiet(ss[j]) {
      assert ss[j + 1] == Step(ss[j], es[j]);
      assert SleepSpan(ss, es, w, j, j + 1) && Quiet(ss[j + 1]);
    }
    if n: nat :| SleepSpan(ss, es, w, j, n) && Quiet(ss[n]) {
      QuietSince(ss, es, w, j, n, j);
    }
  }

  /** Where `busy` came to zero. */
  lemma {:induction false} LastDrop(ss: seq<State>, es: seq<Event>, i: nat, j: nat) returns (d: nat)
    requires Trace(ss, es) && i <= j < |ss| && Balanced(ss[0])
    requires ss[i].busy != 0 && ss[j].busy == 0
    ensures i <= d < j && ss[d].busy == 1 && ss[d + 1].busy == 0
    decreases j
  {
    assert ss[j] == Step(ss[j - 1], es[j - 1]);
    TraceBalanced(ss, es, j - 1);
    if ss[j - 1].busy != 0 {
      d := j - 1;
    } else {
      d := LastDrop(ss, es, i, j - 1);
    }
  }

  /** Where prober `t` left its end event. */
  lemma {:induction false} LeavesByWakeup(ss: seq<State>, es: seq<Event>, t: nat, d: nat, j: nat) returns (u: nat)
    requires Trace(ss, es) && t < |ss[0].probers| && d < j < |ss|
    requires ss[d].probers[t].pc != Outside && ss[j].probers[t].pc == Outside
    ensures d <= u < j && es[u] == Wakeup(t) && ss[u].probers[t].pc == Bumped
    decreases j
  {
    assert ss[j] == Step(ss[j - 1], es[j - 1]);
    if ss[j - 1].probers[t].pc != Outside {
      u := j - 1;
    } else {
      u := LeavesByWakeup(ss, es, t, d, j - 1);
    }
  }

  /** Where a waiter that is about to sleep has found the bus busy. */
  lemma {:induction false} LastTest(ss: seq<State>, es: seq<Event>, w: nat, j: nat) returns (i: nat)
    requires Trace(ss, es) && w < |ss[0].waiters| && j < |ss|
    requires ss[0].waiters[w].pc == Idle && ss[j].waiters[w].pc == AboutToSleep
    ensures i < j && es[i] == Test(w) && ss[i].busy != 0
    ensures forall k :: i < k <= j ==> ss[k].waiters[w].pc == AboutToSleep
    decreases j
  {
    assert ss[j] == Step(ss[j - 1], es[j - 1]);
    if ss[j - 1].waiters[w].pc != AboutToSleep {
      i := j - 1;
    } else {
      i := LastTest(ss, es, w, j - 1);
    }
  }

  /** How a waiter comes to sleep on a quiet bus: a return to zero (event `d`) and its wakeup
      (event `u`) both fell between its test of `busy` (event `i`) and its going to sleep. */
  lemma WakeupMissed(ss: seq<State>, es: seq<Event>, w: nat, j: nat, n: nat)
    returns (i: nat, t: nat, d: nat, u: nat)
    requires Trace(ss, es) && w < |ss[0].waiters| && Balanced(ss[0]) && ss[0].waiters[w].pc == Idle
    requires SleepSpan(ss, es, w, j, n) && Quiet(ss[n])
    ensures t < |ss[0].probers| && i < d < u < j
    ensures es[i] == Test(w) && ss[i].busy != 0
    ensures forall k :: i < k <= j ==> ss[k].waiters[w].pc == AboutToSleep
    ensures es[d] == End(t) && ss[d].busy == 1 && ss[d + 1].busy == 0
    ensures es[u] == Wakeup(t) && ss[u].probers[t].pc == Bumped
  {
    QuietSince(ss, es, w, j, n, j);
    i := LastTest(ss, es, w, j);
    assert ss[i + 1] == Step(ss[i], es[i]);
    d := LastDrop(ss, es, i + 1, j);
    assert ss[d + 1] == Step(ss[d], es[d]);
    t := es[d].i;
    assert ss[d + 1].probers[t].pc == Decremented;
    u := LeavesByWakeup(ss, es, t, d + 1, j);
  }

  /** One thread that probes and one that waits, on a quiet bus. */
  function OneProber(): State {
    State(0, 0, [Prober(0, Outside)], [Waiter(Idle, 0)])
  }

  /** The only probe ends between the test and the sleep. */
  function ProbeEndsBeforeSleep(): seq<Event> {
    [Start(0), Call(0), Test(0)] + [End(0), Bump(0), Wakeup(0)] + [Sleep(0)]
  }

  /** An input for a missed wakeup. */
  lemma MissedWakeupRun()
    ensures Run(OneProber(), ProbeEndsBeforeSleep()) == State(0, 1, [Prober(0, Outside)], [Waiter(Asleep, 1)])
  {
  }
}
