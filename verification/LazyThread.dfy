/**
 mach_thread_init_lazy: giving a thread its Mach state on demand.  Any number of callers
 race on one thread's pointer; each allocates and initialises a record of its own and
 then tries to publish it with one compare-and-swap from null.  The losers' records leak.
 */
module LazyThread {
  import opened Machine

  type Id = nat

  /** The record of the Mach state; `steps` says how much of it is initialised: the lock,
      the back pointer, the activation, the reference count, the IPC part. */
  const INITIALISED := 5
  datatype Record = Record(steps: nat, ofThread: bool)

  datatype Pc =
    | Idle
    | SawNull                      // td_machdata was null
    | Filling(id: Id)              // allocated, being initialised
    | Ready(id: Id)                // about to compare-and-swap
    | Returned(error: int)

  datatype State = State(
    machdata: Option,
    records: map<Id, Record>,
    leaked: set<Id>,
    next: Id,
    callers: seq<Pc>)

  datatype Option = None | Some(id: Id)

  datatype Event =
    | Enter(i: nat)
    | Alloc(i: nat, memory: bool)
    | Fill(i: nat)
    | Swap(i: nat)

  function Step(s: State, e: Event): State {
    if e.i >= |s.callers| then s
    else
      match (e, s.callers[e.i])
      case (Enter(i), Idle) => Move(s, i, if s.machdata.Some? then Returned(0) else SawNull)
      case (Enter(i), Returned(_)) => Move(s, i, if s.machdata.Some? then Returned(0) else SawNull)
      case (Alloc(i, memory), SawNull) =>
        if !memory then Move(s, i, Returned(ENOMEM))
        else Move(s.(records := s.records[s.next := Record(0, false)], next := s.next + 1), i, Filling(s.next))
      case (Fill(i), Filling(id)) =>
        if id !in s.records then s
        else
          var r := s.records[id];
          var r' := Record(r.steps + 1, r.ofThread || r.steps == 1);
          Move(s.(records := s.records[id := r']), i, if r'.steps == INITIALISED then Ready(id) else Filling(id))
      case (Swap(i), Ready(id)) =>
        if s.machdata.None? then Move(s.(machdata := Some(id)), i, Returned(0))
        else Move(s.(leaked := s.leaked + {id}), i, Returned(0))
      case _ => s
  }

  function Move(s: State, i: nat, pc: Pc): State
    requires i < |s.callers|
  {
    s.(callers := s.callers[i := pc])
  }

  function Run(s: State, es: seq<Event>): State
    decreases |es|
  {
    if es == [] then s else Run(Step(s, es[0]), es[1..])
  }

  // ---- Where the records are ----

  function One(b: bool): nat {
    if b then 1 else 0
  }

  predicate AtWorkOn(pc: Pc, id: Id) {
    pc == Filling(id) || pc == Ready(id)
  }

  ghost function Workers(cs: seq<Pc>, id: Id): nat {
    if cs == [] then 0 else One(AtWorkOn(cs[0], id)) + Workers(cs[1..], id)
  }

  ghost function InProgress(cs: seq<Pc>): nat {
    if cs == [] then 0 else One(cs[0].Filling? || cs[0].Ready?) + InProgress(cs[1..])
  }

  ghost function Places(s: State, id: Id): nat {
    One(s.machdata == Some(id)) + One(id in s.leaked) + Workers(s.callers, id)
  }

  lemma {:induction false} CallersUpdate(cs: seq<Pc>, i: nat, pc: Pc, id: Id)
    requires i < |cs|
    ensures Workers(cs[i := pc], id) == Workers(cs, id) - One(AtWorkOn(cs[i], id)) + One(AtWorkOn(pc, id))
    ensures Workers(cs, id) >= One(AtWorkOn(cs[i], id))
    ensures InProgress(cs[i := pc])
         == InProgress(cs) - One(cs[i].Filling? || cs[i].Ready?) + One(pc.Filling? || pc.Ready?)
  {
    if i == 0 {
      assert cs[i := pc][1..] == cs[1..];
    } else {
      assert cs[i := pc][1..] == cs[1..][i - 1 := pc];
      CallersUpdate(cs[1..], i - 1, pc, id);
    }
  }

  lemma TwoWorkers(cs: seq<Pc>, i: nat, j: nat, id: Id)
    requires i < |cs| && j < |cs| && i != j && AtWorkOn(cs[i], id) && AtWorkOn(cs[j], id)
    ensures Workers(cs, id) >= 2
  {
    CallersUpdate(cs, i, Idle, id);
    CallersUpdate(cs[i := Idle], j, Idle, id);
  }

  ghost predicate Complete(s: State, id: Id) {
    id in s.records && s.records[id] == Record(INITIALISED, true)
  }

  ghost predicate CallerOk(s: State, pc: Pc) {
    match pc
    case Filling(id) =>
      id in s.records && s.records[id].steps < INITIALISED && (s.records[id].steps >= 2 ==> s.records[id].ofThread)
    case Ready(id) => Complete(s, id)
    case Returned(error) => error == 0 ==> s.machdata.Some?
    case _ => true
  }

  /** Every record is in exactly one place: published, leaked, or with one caller at work
      on it.  What is published is complete and belongs to the thread. */
  ghost predicate Inv(s: State) {
    && (forall id: Id :: id in s.records <==> id < s.next)
    && (forall id: Id :: Places(s, id) == One(id in s.records))
    && (forall i :: 0 <= i < |s.callers| ==> CallerOk(s, s.callers[i]))
    && (s.machdata.Some? ==> Complete(s, s.machdata.id))
    && (s.leaked != {} ==> s.machdata.Some?)
    && s.next == One(s.machdata.Some?) + |s.leaked| + InProgress(s.callers)
  }

  lemma EnterKeeps(s: State, i: nat)
    requires Inv(s)
    ensures Inv(Step(s, Enter(i)))
  {
    var t := Step(s, Enter(i));
    if i < |s.callers| {
      forall id: Id ensures Places(t, id) == Places(s, id) {
        CallersUpdate(s.callers, i, t.callers[i], id);
      }
      CallersUpdate(s.callers, i, t.callers[i], 0);
    }
  }

  lemma AllocPlaces(s: State, i: nat, id: Id)
    requires Inv(s) && i < |s.callers| && s.callers[i] == SawNull
    ensures var t := Step(s, Alloc(i, true)); Places(t, id) == One(id in t.records)
  {
    CallersUpdate(s.callers, i, Filling(s.next), id);
    assert Places(s, id) == One(id in s.records);
  }

  lemma NoMemoryKeeps(s: State, i: nat)
    requires Inv(s)
    ensures Inv(Step(s, Alloc(i, false)))
  {
    var t := Step(s, Alloc(i, false));
    if i < |s.callers| {
      forall id: Id ensures Places(t, id) == Places(s, id) {
        CallersUpdate(s.callers, i, t.callers[i], id);
      }
      CallersUpdate(s.callers, i, t.callers[i], 0);
    }
  }

  lemma AllocKeeps(s: State, i: nat)
    requires Inv(s)
    ensures Inv(Step(s, Alloc(i, true)))
  {
    var t := Step(s, Alloc(i, true));
    if i < |s.callers| && s.callers[i] == SawNull {
      forall id: Id ensures Places(t, id) == One(id in t.records) {
        AllocPlaces(s, i, id);
      }
      CallersUpdate(s.callers, i, t.callers[i], 0);
      forall j | 0 <= j < |t.callers| ensures CallerOk(t, t.callers[j]) {
        assert CallerOk(s, s.callers[j]);
      }
    }
  }

  lemma FillKeeps(s: State, i: nat)
    requires Inv(s)
    ensures Inv(Step(s, Fill(i)))
  {
    var t := Step(s, Fill(i));
    if i < |s.callers| && s.callers[i].Filling? {
      var at := s.callers[i].id;
      assert CallerOk(s, s.callers[i]);
      assert Places(s, at) == 1;
      CallersUpdate(s.callers, i, t.callers[i], at);
      forall id: Id ensures Places(t, id) == One(id in t.records) {
        CallersUpdate(s.callers, i, t.callers[i], id);
        assert Places(s, id) == One(id in s.records);
      }
      forall j | 0 <= j < |t.callers| ensures CallerOk(t, t.callers[j]) {
        assert CallerOk(s, s.callers[j]);
        if j != i && AtWorkOn(s.callers[j], at) {
          TwoWorkers(s.callers, i, j, at);
        }
      }
    }
  }

  lemma SwapKeeps(s: State, i: nat)
    requires Inv(s)
    ensures Inv(Step(s, Swap(i)))
  {
    var t := Step(s, Swap(i));
    if i < |s.callers| && s.callers[i].Ready? {
      var at := s.callers[i].id;
      assert CallerOk(s, s.callers[i]);
      assert Places(s, at) == 1;
      CallersUpdate(s.callers, i, t.callers[i], at);
      forall id: Id ensures Places(t, id) == One(id in t.records) {
        CallersUpdate(s.callers, i, t.callers[i], id);
        assert Places(s, id) == One(id in s.records);
      }
      forall j | 0 <= j < |t.callers| ensures CallerOk(t, t.callers[j]) {
        assert CallerOk(s, s.callers[j]);
      }
    }
  }

  /** A caller that finds the state answers 0, one that finds none goes on to allocate. */
  lemma EnterAnswers(s: State, i: nat)
    requires i < |s.callers| && (s.callers[i].Idle? || s.callers[i].Returned?)
    ensures var pc := if s.machdata == None then SawNull else Returned(0);
      Step(s, Enter(i)) == s.(callers := s.callers[i := pc])
  {
  }

  /** Only a caller without memory answers ENOMEM; one with memory has a record of its own. */
  lemma AllocAnswers(s: State, i: nat, memory: bool)
    requires Inv(s) && i < |s.callers| && s.callers[i] == SawNull
    ensures var t := Step(s, Alloc(i, memory));
      && t.machdata == s.machdata && t.leaked == s.leaked
      && (!memory ==> t.callers == s.callers[i := Returned(ENOMEM)] && t.records == s.records)
      && (memory ==> exists id: Id ::
            t.callers == s.callers[i := Filling(id)] && id !in s.records && t.records.Keys == s.records.Keys + {id})
  {
    if memory {
      assert Step(s, Alloc(i, true)).callers == s.callers[i := Filling(s.next)];
    }
  }

  /** A record is initialised in as many steps as it has parts, and then it is ready. */
  lemma FillAnswers(s: State, i: nat)
    requires Inv(s) && i < |s.callers| && s.callers[i].Filling?
    ensures var t, id := Step(s, Fill(i)), s.callers[i].id;
      && id in s.records && id in t.records
      && t.records[id].steps == s.records[id].steps + 1 <= INITIALISED
      && t.callers == s.callers[i := if t.records[id].steps == INITIALISED then Ready(id) else Filling(id)]
      && (t.records[id].steps == INITIALISED ==> Complete(t, id))
      && forall k <- s.records :: k != id ==> k in t.records && t.records[k] == s.records[k]
  {
    assert CallerOk(s, s.callers[i]);
  }

  /** The first to swap publishes its own record, and every later one leaks it; both answer 0. */
  lemma SwapAnswers(s: State, i: nat)
    requires i < |s.callers| && s.callers[i].Ready?
    ensures var t, id := Step(s, Swap(i)), s.callers[i].id;
      && t.callers == s.callers[i := Returned(0)] && t.records == s.records
      && (s.machdata == None ==> t.machdata == Some(id) && t.leaked == s.leaked)
      && (s.machdata != None ==> t.machdata == s.machdata && t.leaked == s.leaked + {id})
  {
  }

  /** Whichever step it is, it moves one caller, and an answer is 0 unless memory was lacking. */
  lemma AnswersOnly(s: State, e: Event, i: nat)
    requires i < |s.callers|
    ensures var t := Step(s, e);
      && |t.callers| == |s.callers|
      && (e.i != i ==> t.callers[i] == s.callers[i])
      && (t.callers[i].Returned? && t.callers[i] != s.callers[i] ==>
            t.callers[i] == Returned(if e == Alloc(i, false) then ENOMEM else 0))
  {
  }

  lemma StepInv(s: State, e: Event)
    requires Inv(s)
    ensures Inv(Step(s, e))
    ensures s.machdata.Some? ==> Step(s, e).machdata == s.machdata
  {
    match e
    case Enter(i) => EnterKeeps(s, i);
    case Alloc(i, memory) =>
      if memory {
        AllocKeeps(s, i);
      } else {
        NoMemoryKeeps(s, i);
      }
    case Fill(i) => FillKeeps(s, i);
    case Swap(i) => SwapKeeps(s, i);
  }

  /** In every run: once the pointer is set it never changes and what it points at stays
      complete; a caller that got 0 finds it set; and the records allocated are the
      published one, the leaked ones and those in progress. */
  lemma {:induction false} RunInv(s: State, es: seq<Event>)
    requires Inv(s)
    ensures var t := Run(s, es);
      && Inv(t)
      && (s.machdata.Some? ==> t.machdata == s.machdata)
      && (t.machdata.Some? ==> Complete(t, t.machdata.id))
      && (forall i :: 0 <= i < |t.callers| && t.callers[i] == Returned(0) ==> t.machdata.Some?)
      && |t.records| == One(t.machdata.Some?) + |t.leaked| + InProgress(t.callers)
    decreases |es|
  {
    if es == [] {
      CountBelow(s.records.Keys, s.next);
      forall i | 0 <= i < |s.callers| && s.callers[i] == Returned(0) ensures s.machdata.Some? {
        assert CallerOk(s, s.callers[i]);
      }
    } else {
      StepInv(s, es[0]);
      RunInv(Step(s, es[0]), es[1..]);
    }
  }

  lemma {:induction false} CountBelow(ids: set<nat>, n: nat)
    requires forall id: nat :: id in ids <==> id < n
    ensures |ids| == n
  {
    if n > 0 {
      CountBelow(ids - {n - 1}, n - 1);
    } else {
      assert ids == {};
    }
  }

  /** Nothing published, nothing allocated, nobody inside. */
  lemma StartInv(s: State)
    requires s.machdata == None && s.records == map[] && s.leaked == {} && s.next == 0
    requires forall i :: 0 <= i < |s.callers| ==> s.callers[i] == Idle
    ensures Inv(s)
  {
    forall id: Id ensures Places(s, id) == 0 {
      IdleAtWork(s.callers, id);
    }
    IdleAtWork(s.callers, 0);
  }

  /** Every run from there, with any number of callers. */
  lemma StartRun(s: State, es: seq<Event>)
    requires s.machdata == None && s.records == map[] && s.leaked == {} && s.next == 0
    requires forall i :: 0 <= i < |s.callers| ==> s.callers[i] == Idle
    ensures var t := Run(s, es);
      && Inv(t)
      && (t.machdata.Some? ==> Complete(t, t.machdata.id))
      && (forall i :: 0 <= i < |t.callers| && t.callers[i] == Returned(0) ==> t.machdata.Some?)
      && |t.records| == One(t.machdata.Some?) + |t.leaked| + InProgress(t.callers)
  {
    StartInv(s);
    RunInv(s, es);
  }

  lemma {:induction false} IdleAtWork(cs: seq<Pc>, id: Id)
    requires forall i :: 0 <= i < |cs| ==> cs[i] == Idle
    ensures Workers(cs, id) == 0 && InProgress(cs) == 0
  {
    if cs == [] {
    } else {
      IdleAtWork(cs[1..], id);
    }
  }
}
