/**
 proc_listpids: the process ids that match a filter, as many as fit the caller's buffer,
 in the order of the process list.
 */
module PidListing {
  import opened Machine

  const PID_SIZE: nat := 4
  const WORD32: int := 0x1_0000_0000

  datatype Filter = AllPids | TtyOnly | UidOnly | RuidOnly | PpidOnly

  datatype Cred = NoCred | Cred(uid: nat, ruid: nat)

  /** `ppid` is the parent's id if there is a parent. */
  datatype Parent = NoParent | Parent(pid: int)

  datatype Proc = Proc(pid: int, parent: Parent, traced: bool, oppid: int, cred: Cred)

  /** A signed 32-bit id compared with an unsigned 32-bit flavor is converted first. */
  predicate SameId(pid: int, flavor: nat) {
    pid % WORD32 == flavor
  }

  predicate Matches(p: Proc, filter: Filter, flavor: nat) {
    match filter
    case AllPids => true
    case TtyOnly => false
    case PpidOnly => (p.parent.Parent? && SameId(p.parent.pid, flavor) && !p.traced) || SameId(p.oppid, flavor)
    case UidOnly => p.cred.Cred? && p.cred.uid == flavor
    case RuidOnly => p.cred.Cred? && p.cred.ruid == flavor
  }

  /** What each filter asks of a process, `flavor` being a user id or, converted to unsigned,
      the id of a parent or of the original parent. */
  lemma FilterMeaning(p: Proc, flavor: nat)
    requires flavor < WORD32
    ensures Matches(p, AllPids, flavor) && !Matches(p, TtyOnly, flavor)
    ensures Matches(p, UidOnly, flavor) <==> p.cred.Cred? && p.cred.uid == flavor
    ensures Matches(p, RuidOnly, flavor) <==> p.cred.Cred? && p.cred.ruid == flavor
    ensures forall id :: -0x8000_0000 <= id < 0x8000_0000 ==>
      (SameId(id, flavor) <==> id == if flavor < 0x8000_0000 then flavor else flavor - WORD32)
    ensures Matches(p, PpidOnly, flavor) <==>
      SameId(p.oppid, flavor) || (p.parent.Parent? && SameId(p.parent.pid, flavor) && !p.traced)
  {
  }

  /** The ids of all matching processes, in list order. */
  function Matching(procs: seq<Proc>, filter: Filter, flavor: nat): seq<int> {
    if procs == [] then []
    else
      var front := Matching(procs[..|procs| - 1], filter, flavor);
      var p := procs[|procs| - 1];
      if Matches(p, filter, flavor) then front + [p.pid] else front
  }

  lemma {:induction false} MatchingPrefix(procs: seq<Proc>, filter: Filter, flavor: nat, i: nat)
    requires i <= |procs|
    ensures Matching(procs[..i], filter, flavor) <= Matching(procs, filter, flavor)
    decreases |procs|
  {
    if i < |procs| {
      var front := procs[..|procs| - 1];
      assert front[..i] == procs[..i];
      MatchingPrefix(front, filter, flavor, i);
    } else {
      assert procs[..i] == procs;
    }
  }

  /** `Matching` keeps the order and loses no match: the position of every matching process
      is the number of matches before it. */
  lemma {:induction false} MatchingAt(procs: seq<Proc>, filter: Filter, flavor: nat, i: nat)
    requires i < |procs| && Matches(procs[i], filter, flavor)
    ensures var at := |Matching(procs[..i], filter, flavor)|;
      at < |Matching(procs, filter, flavor)| && Matching(procs, filter, flavor)[at] == procs[i].pid
  {
    assert procs[..i + 1][..i] == procs[..i];
    MatchingPrefix(procs, filter, flavor, i + 1);
  }

  /** Every listed id is that of a matching process. */
  lemma {:induction false} MatchingSound(procs: seq<Proc>, filter: Filter, flavor: nat, k: nat)
    returns (i: nat)
    requires k < |Matching(procs, filter, flavor)|
    ensures i < |procs| && Matches(procs[i], filter, flavor)
    ensures procs[i].pid == Matching(procs, filter, flavor)[k] && k == |Matching(procs[..i], filter, flavor)|
  {
    var n := |procs| - 1;
    if k < |Matching(procs[..n], filter, flavor)| {
      i := MatchingSound(procs[..n], filter, flavor, k);
      assert procs[..n][..i] == procs[..i];
    } else {
      i := n;
    }
  }

  function Min(a: nat, b: nat): nat {
    if a < b then a else b
  }

  /** `retval` is the byte count reported to the caller, `out` the ids copied out to it;
      `copyError` is the result of that copy. */
  method ListPids(filter: Filter, flavor: nat, haveBuffer: bool, buffersize: nat,
                  procs: seq<Proc>, nprocs: nat, copyError: int)
    returns (err: int, retval: nat, out: seq<int>)
    requires flavor < WORD32 && buffersize < WORD32
    ensures filter == TtyOnly ==> err == EINVAL
    ensures filter != TtyOnly && !haveBuffer ==> err == 0 && retval == (nprocs + 30) * PID_SIZE && out == []
    ensures filter != TtyOnly && haveBuffer && buffersize < PID_SIZE ==> err == ENOMEM
    ensures filter != TtyOnly && haveBuffer && buffersize >= PID_SIZE ==>
      var all := Matching(procs, filter, flavor);
      var room := Min(nprocs + 30, buffersize / PID_SIZE);
      && err == copyError
      && (err == 0 ==> out == all[..Min(room, |all|)] && retval == |out| * PID_SIZE && retval <= buffersize)
    ensures err != 0 ==> retval == 0 && out == []
  {
    retval, out := 0, [];
    if filter == TtyOnly {
      return EINVAL, 0, [];
    }
    if !haveBuffer {
      return 0, (nprocs + 30) * PID_SIZE, [];
    }
    if buffersize < PID_SIZE {
      return ENOMEM, 0, [];
    }
    var maxpidcount := buffersize / PID_SIZE;
    var numpids := nprocs + 30;
    if numpids > maxpidcount {
      numpids := maxpidcount;
    }
    var buf := new int[numpids];
    var count := Collect(procs, filter, flavor, buf);
    err := copyError;
    if err == 0 {
      retval := count * PID_SIZE;
      out := buf[..count];
    }
  }

  /** The walk: it ends with the list or when the buffer is full. */
  method Collect(procs: seq<Proc>, filter: Filter, flavor: nat, buf: array<int>) returns (count: nat)
    requires buf.Length > 0
    modifies buf
    ensures var all := Matching(procs, filter, flavor);
      count == Min(buf.Length, |all|) && buf[..count] == all[..count]
  {
    count := 0;
    ghost var seen := 0;
    for i := 0 to |procs|
      invariant count < buf.Length && seen == i
      invariant buf[..count] == Matching(procs[..i], filter, flavor)
    {
      var p := procs[i];
      assert procs[..i + 1][..i] == procs[..i];
      seen := i + 1;
      if Matches(p, filter, flavor) {
        buf[count] := p.pid;
        count := count + 1;
      }
      if count >= buf.Length {
        break;
      }
    }
    assert buf[..count] == Matching(procs[..seen], filter, flavor);
    assert procs[..|procs|] == procs;
    MatchingPrefix(procs, filter, flavor, seen);
    assert count < buf.Length ==> seen == |procs|;
  }
}
