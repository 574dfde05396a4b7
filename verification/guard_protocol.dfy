/** The write-session protocol of the kernel guard, as a transition system over the guarded inodes. */
module GuardProtocol {
  import opened Bytes

  const MAX_ENTRIES := 64

  datatype Inode = Inode(dev: nat, ino: nat)

  /** Who may write, and the token that ends the session. */
  datatype Holder = Holder(tgid: nat, token: nat)

  datatype Guarded = Guarded(start: nat, length: nat, holder: Option<Holder>)

  type Table = map<Inode, Guarded>

  datatype Errno = OK | EINVAL | ENOENT | EBUSY | EPERM | ENOSPC | ENOTTY | EFAULT | ENAMETOOLONG

  // ---------- the sections under the lock ----------

  function Register(t: Table, id: Inode, start: nat, length: nat): (Table, Errno) {
    if id in t || |t| < MAX_ENTRIES then (t[id := Guarded(start, length, None)], OK) else (t, ENOSPC)
  }

  function Unregister(t: Table, id: Inode): Table {
    t - {id}
  }

  predicate Holds(t: Table, id: Inode, tgid: nat) {
    id in t && t[id].holder.Some? && t[id].holder.value.tgid == tgid
  }

  predicate Free(t: Table, id: Inode) {
    id in t ==> t[id].holder.None?
  }

  function Begin(t: Table, target: Option<Inode>, tgid: nat, token: nat): (Table, Errno) {
    if target.None? || target.value !in t then (t, ENOENT)
    else
      var id := target.value;
      if !Free(t, id) && !Holds(t, id, tgid) then (t, EBUSY)
      else (t[id := t[id].(holder := Some(Holder(tgid, token)))], OK)
  }

  function End(t: Table, target: Option<Inode>, tgid: nat, token: nat): (Table, Errno) {
    if target.None? || target.value !in t then (t, ENOENT)
    else
      var id := target.value;
      if t[id].holder != Some(Holder(tgid, token)) then (t, EPERM)
      else (t[id := t[id].(holder := None)], OK)
  }

  /** The permission hooks: a guarded inode is denied to everybody but the holder of its session. */
  predicate Deny(t: Table, inode: Option<Inode>, tgid: nat) {
    inode.Some? && inode.value in t && !Holds(t, inode.value, tgid)
  }

  // ---------- the system ----------

  datatype Request = RegisterRequest(start: nat, length: nat) | UnregisterRequest

  /** A thread that has resolved its path and waits for the lock. */
  datatype Pending = Pending(request: Request, id: Inode)

  /** What a waiting registration or unregistration does once it has the lock. */
  function Committed(t: Table, p: Pending): (Table, Errno) {
    match p.request
    case RegisterRequest(start, length) => Register(t, p.id, start, length)
    case UnregisterRequest => (Unregister(t, p.id), OK)
  }

  datatype System = System(table: Table, pending: map<nat, Pending>)

  /** Registration resolves its path before it takes the lock, so other events can come in between; the
      other calls resolve under the lock. What a path resolves to is up to the environment. */
  datatype Event =
    | Resolve(thread: nat, request: Request, id: Inode)
    | Commit(thread: nat)
    | BeginWrite(tgid: nat, target: Option<Inode>, token: nat)
    | EndWrite(tgid: nat, target: Option<Inode>, token: nat)
    | Query(target: Option<Inode>)
    | Check(tgid: nat, inode: Option<Inode>)

  datatype Answer = Silent | Result(errno: Errno) | Report(entry: Guarded) | Verdict(denied: bool)

  function Step(sys: System, ev: Event): (System, Answer) {
    match ev
    case Resolve(thread, request, id) =>
      if thread in sys.pending then (sys, Silent)
      else (sys.(pending := sys.pending[thread := Pending(request, id)]), Silent)
    case Commit(thread) =>
      if thread !in sys.pending then (sys, Silent)
      else
        var (t, errno) := Committed(sys.table, sys.pending[thread]);
        (System(t, sys.pending - {thread}), Result(errno))
    case BeginWrite(tgid, target, token) =>
      var (t, errno) := Begin(sys.table, target, tgid, token);
      (sys.(table := t), Result(errno))
    case EndWrite(tgid, target, token) =>
      var (t, errno) := End(sys.table, target, tgid, token);
      (sys.(table := t), Result(errno))
    case Query(target) =>
      (sys, if target.Some? && target.value in sys.table then Report(sys.table[target.value]) else Result(ENOENT))
    case Check(tgid, inode) =>
      (sys, Verdict(Deny(sys.table, inode, tgid)))
  }

  /** The states of a system under a sequence of events of any threads. */
  ghost predicate IsRun(states: seq<System>, events: seq<Event>) {
    && |states| == |events| + 1
    && forall i :: 0 <= i < |events| ==> states[i + 1] == Step(states[i], events[i]).0
  }

  // ---------- exclusion ----------

  /** The holder's own end of the session with the live token, or a registration or unregistration of the
      inode by anybody. */
  ghost predicate Releases(sys: System, ev: Event, id: Inode, tgid: nat) {
    || (ev.EndWrite? && ev.tgid == tgid && ev.target == Some(id)
        && Holds(sys.table, id, tgid) && sys.table[id].holder.value.token == ev.token)
    || (ev.Commit? && ev.thread in sys.pending && sys.pending[ev.thread].id == id)
  }

  /** A session survives an event exactly if the event does not release it; released, it is free. */
  lemma SessionSurvives(sys: System, ev: Event, id: Inode, tgid: nat)
    requires Holds(sys.table, id, tgid)
    ensures Holds(Step(sys, ev).0.table, id, tgid) <==> !Releases(sys, ev, id, tgid)
    ensures Releases(sys, ev, id, tgid) ==> Free(Step(sys, ev).0.table, id)
  {
  }

  /** While a session is held, another group's attempts fail and its accesses are denied. */
  ghost predicate ShutsOut(sys: System, ev: Event, id: Inode, tgid: nat) {
    var (next, answer) := Step(sys, ev);
    && (ev.BeginWrite? && ev.target == Some(id) && ev.tgid != tgid ==> answer == Result(EBUSY) && next == sys)
    && (ev.EndWrite? && ev.target == Some(id) && ev.tgid != tgid ==> answer == Result(EPERM) && next == sys)
    && (ev.Check? && ev.inode == Some(id) ==> answer == Verdict(ev.tgid != tgid))
    && (ev.BeginWrite? && ev.target == Some(id) && ev.tgid == tgid ==> answer == Result(OK))
  }

  /** Exclusion over whole runs: as long as nothing releases the session, it is held after every event and
      every other group is shut out by every event. */
  lemma {:induction false} Exclusion(states: seq<System>, events: seq<Event>, id: Inode, tgid: nat, n: nat)
    requires IsRun(states, events) && n <= |events|
    requires Holds(states[0].table, id, tgid)
    requires forall i :: 0 <= i < n ==> !Releases(states[i], events[i], id, tgid)
    ensures Holds(states[n].table, id, tgid)
    ensures forall i :: 0 <= i < n ==> ShutsOut(states[i], events[i], id, tgid)
  {
    if n != 0 {
      Exclusion(states, events, id, tgid, n - 1);
      SessionSurvives(states[n - 1], events[n - 1], id, tgid);
    }
  }

  lemma FirstRelease(states: seq<System>, events: seq<Event>, id: Inode, tgid: nat) returns (i: nat)
    requires IsRun(states, events)
    requires Holds(states[0].table, id, tgid) && !Holds(states[|events|].table, id, tgid)
    ensures i < |events| && Releases(states[i], events[i], id, tgid) && Free(states[i + 1].table, id)
    ensures forall j :: 0 <= j < i ==> !Releases(states[j], events[j], id, tgid)
  {
    i := 0;
    while i < |events| && !Releases(states[i], events[i], id, tgid)
      invariant i <= |events| && forall j :: 0 <= j < i ==> !Releases(states[j], events[j], id, tgid)
    {
      i := i + 1;
    }
    Exclusion(states, events, id, tgid, i);
    SessionSurvives(states[i], events[i], id, tgid);
  }

  ghost predicate Grants(sys: System, ev: Event, id: Inode, tgid: nat) {
    ev.BeginWrite? && ev.tgid == tgid && ev.target == Some(id) && Step(sys, ev).1 == Result(OK)
  }

  /** A session comes about only by its holder's own successful begin. */
  lemma {:induction false} SomeGrant(states: seq<System>, events: seq<Event>, id: Inode, tgid: nat, lo: nat,
          hi: nat) returns (j: nat)
    requires IsRun(states, events) && lo <= hi <= |events|
    requires !Holds(states[lo].table, id, tgid) && Holds(states[hi].table, id, tgid)
    ensures lo <= j < hi && Grants(states[j], events[j], id, tgid)
    decreases hi
  {
    if Holds(states[hi - 1].table, id, tgid) {
      j := SomeGrant(states, events, id, tgid, lo, hi - 1);
    } else {
      j := hi - 1;
    }
  }

  /** Authority passes from one group to another only by a release followed by the other's own begin. */
  lemma Handover(states: seq<System>, events: seq<Event>, id: Inode, p: nat, q: nat)
    requires IsRun(states, events) && p != q
    requires Holds(states[0].table, id, p) && Holds(states[|events|].table, id, q)
    ensures exists i, j :: 0 <= i < j < |events|
              && Releases(states[i], events[i], id, p) && Grants(states[j], events[j], id, q)
  {
    var i := FirstRelease(states, events, id, p);
    var j := SomeGrant(states, events, id, q, i + 1, |events|);
  }

  // ---------- registrations ----------

  /** A commit of a registration of the inode, and one that succeeds. */
  ghost predicate Registers(sys: System, ev: Event, id: Inode, start: nat, length: nat) {
    && ev.Commit? && ev.thread in sys.pending
    && sys.pending[ev.thread] == Pending(RegisterRequest(start, length), id)
    && Step(sys, ev).1 == Result(OK)
  }

  /** A registration takes effect without a session, succeeds exactly if the inode is known or a slot is free,
      and its range is what every query reports until the inode is registered or unregistered again. */
  lemma {:induction false} RegistrationPersists(
    states: seq<System>, events: seq<Event>, id: Inode, start: nat, length: nat, n: nat)
    requires IsRun(states, events) && 1 <= n <= |events|
    requires Registers(states[0], events[0], id, start, length)
    requires forall i :: 1 <= i < n ==> events[i].Commit? ==> !Concerns(states[i], events[i], id)
    ensures id in states[0].table || |states[0].table| < MAX_ENTRIES
    ensures Free(states[1].table, id)
    ensures id in states[n].table && states[n].table[id].start == start && states[n].table[id].length == length
    ensures Step(states[n], Query(Some(id))) == (states[n], Report(states[n].table[id]))
  {
    if n > 1 {
      RegistrationPersists(states, events, id, start, length, n - 1);
    }
  }

  /** A commit of an unregistration of the inode. */
  ghost predicate Unregisters(sys: System, ev: Event, id: Inode) {
    ev.Commit? && ev.thread in sys.pending && sys.pending[ev.thread] == Pending(UnregisterRequest, id)
  }

  /** An unregistration always succeeds and frees the place of the inode; until the next registration the inode
      is not guarded: queries, begins and ends find nothing, and every group may access it. */
  lemma {:induction false} UnregistrationPersists(
    states: seq<System>, events: seq<Event>, id: Inode, n: nat, tgid: nat, token: nat)
    requires IsRun(states, events) && 1 <= n <= |events|
    requires Unregisters(states[0], events[0], id)
    requires forall i :: 1 <= i < n ==> events[i].Commit? ==> !Concerns(states[i], events[i], id)
    ensures Step(states[0], events[0]).1 == Result(OK)
    ensures |states[1].table| == |states[0].table| - if id in states[0].table then 1 else 0
    ensures id !in states[n].table
    ensures Step(states[n], Query(Some(id))) == (states[n], Result(ENOENT))
    ensures Step(states[n], BeginWrite(tgid, Some(id), token)) == (states[n], Result(ENOENT))
    ensures Step(states[n], EndWrite(tgid, Some(id), token)) == (states[n], Result(ENOENT))
    ensures Step(states[n], Check(tgid, Some(id))) == (states[n], Verdict(false))
  {
    RemoveSize(states[0].table, id);
    if n > 1 {
      UnregistrationPersists(states, events, id, n - 1, tgid, token);
    }
  }

  // ---------- what events leave alone ----------

  /** The event is a call about the inode. */
  predicate Concerns(sys: System, ev: Event, id: Inode) {
    || (ev.Commit? && ev.thread in sys.pending && sys.pending[ev.thread].id == id)
    || ((ev.BeginWrite? || ev.EndWrite?) && ev.target == Some(id))
  }

  /** An inode is guarded, and its session kept, independently of all calls about other inodes. */
  lemma {:induction false} OthersUntouched(states: seq<System>, events: seq<Event>, id: Inode, n: nat)
    requires IsRun(states, events) && n <= |events|
    requires forall i :: 0 <= i < n ==> !Concerns(states[i], events[i], id)
    ensures id in states[n].table <==> id in states[0].table
    ensures id in states[n].table ==> states[n].table[id] == states[0].table[id]
  {
    if n != 0 {
      OthersUntouched(states, events, id, n - 1);
    }
  }

  /** No run guards more inodes than there are slots. */
  lemma {:induction false} Bounded(states: seq<System>, events: seq<Event>, n: nat)
    requires IsRun(states, events) && n <= |events| && |states[0].table| <= MAX_ENTRIES
    ensures |states[n].table| <= MAX_ENTRIES
  {
    if n != 0 {
      Bounded(states, events, n - 1);
      StepBounded(states[n - 1], events[n - 1]);
    }
  }

  lemma UpdateSize(t: Table, id: Inode, g: Guarded)
    ensures |t[id := g]| == if id in t then |t| else |t| + 1
  {
    var t' := t[id := g];
    if id in t {
      assert t'.Keys == t.Keys;
    } else {
      assert t'.Keys == t.Keys + {id};
    }
    assert |t'| == |t'.Keys| && |t| == |t.Keys|;
  }

  lemma RemoveSize(t: Table, id: Inode)
    ensures |t - {id}| == |t| - if id in t then 1 else 0
  {
    var t' := t - {id};
    assert t.Keys == t'.Keys + if id in t then {id} else {};
    assert |t'| == |t'.Keys| && |t| == |t.Keys|;
  }

  lemma StepBounded(sys: System, ev: Event)
    requires |sys.table| <= MAX_ENTRIES
    ensures |Step(sys, ev).0.table| <= MAX_ENTRIES
  {
    var t := sys.table;
    match ev
    case Resolve(_, _, _) =>
    case Commit(thread) =>
      if thread in sys.pending {
        var p := sys.pending[thread];
        match p.request
        case RegisterRequest(start, length) => UpdateSize(t, p.id, Guarded(start, length, None));
        case UnregisterRequest => RemoveSize(t, p.id);
      }
    case BeginWrite(tgid, target, token) =>
      if target.Some? && target.value in t {
        UpdateSize(t, target.value, t[target.value].(holder := Some(Holder(tgid, token))));
      }
    case EndWrite(_, target, _) =>
      if target.Some? && target.value in t {
        UpdateSize(t, target.value, t[target.value].(holder := None));
      }
    case Query(_) =>
    case Check(_, _) =>
  }
}
