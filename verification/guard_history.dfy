/** What the guard answers, told from what was asked and answered before: no table, no slots. */
module GuardHistory {
  import opened Bytes
  import opened GuardProtocol

  datatype Range = Range(start: nat, length: nat)

  /** The threads that wait at the start, and the events with their answers. */
  datatype Trace = Trace(pending: map<nat, Pending>, events: seq<Event>, answers: seq<Answer>) {
    ghost predicate Valid() {
      |answers| == |events|
    }

    /** What a thread waits for after n events: its first request since it last committed. */
    ghost function Waiting(thread: nat, n: nat): Option<Pending>
      requires n <= |events|
    {
      if n == 0 then if thread in pending then Some(pending[thread]) else None
      else
        var before := Waiting(thread, n - 1);
        match events[n - 1]
        case Resolve(t, request, id) => if t == thread && before.None? then Some(Pending(request, id)) else before
        case Commit(t) => if t == thread then None else before
        case _ => before
    }

    ghost predicate Granted(n: nat)
      requires Valid() && n < |events|
    {
      answers[n] == Result(OK)
    }

    /** Event n carries out a registration or unregistration of the inode. */
    ghost predicate Commits(id: Inode, n: nat)
      requires n < |events|
    {
      events[n].Commit? && Waiting(events[n].thread, n).Some? && Waiting(events[n].thread, n).value.id == id
    }

    ghost function Carried(n: nat): Request
      requires n < |events| && events[n].Commit? && Waiting(events[n].thread, n).Some?
    {
      Waiting(events[n].thread, n).value.request
    }

    /** The range an inode was last registered with, unless it was unregistered since. */
    ghost function LastRange(id: Inode, n: nat): Option<Range>
      requires Valid() && n <= |events|
    {
      if n == 0 then None
      else if Commits(id, n - 1) && Carried(n - 1).UnregisterRequest? then None
      else if Commits(id, n - 1) && Granted(n - 1) then Some(Range(Carried(n - 1).start, Carried(n - 1).length))
      else LastRange(id, n - 1)
    }

    /** The latest granted begin on an inode, unless an end was granted or the inode was registered or
        unregistered since. */
    ghost function LastGrant(id: Inode, n: nat): Option<Holder>
      requires Valid() && n <= |events|
    {
      if n == 0 then None
      else
        var ev := events[n - 1];
        if ev.BeginWrite? && ev.target == Some(id) && Granted(n - 1) then Some(Holder(ev.tgid, ev.token))
        else if ev.EndWrite? && ev.target == Some(id) && Granted(n - 1) then None
        else if Commits(id, n - 1) then None
        else LastGrant(id, n - 1)
    }

    /** The inodes registered and not unregistered since. */
    ghost function Known(n: nat): set<Inode>
      requires Valid() && n <= |events|
    {
      if n == 0 then {}
      else if events[n - 1].Commit? && Waiting(events[n - 1].thread, n - 1).Some? then
        var id := Waiting(events[n - 1].thread, n - 1).value.id;
        if Carried(n - 1).UnregisterRequest? then Known(n - 1) - {id}
        else if Granted(n - 1) then Known(n - 1) + {id}
        else Known(n - 1)
      else Known(n - 1)
    }

    ghost predicate GrantedTo(id: Inode, tgid: nat, n: nat)
      requires Valid() && n <= |events|
    {
      LastGrant(id, n).Some? && LastGrant(id, n).value.tgid == tgid
    }

    /** What a commit is to be answered. */
    ghost function RightCommit(thread: nat, n: nat): Answer
      requires Valid() && n <= |events|
    {
      if Waiting(thread, n).None? then Silent
      else
        var p := Waiting(thread, n).value;
        if p.request.UnregisterRequest? || p.id in Known(n) || |Known(n)| < 64 then Result(OK) else Result(ENOSPC)
    }

    ghost function RightBegin(tgid: nat, id: Inode, n: nat): Errno
      requires Valid() && n <= |events|
    {
      if id !in Known(n) then ENOENT
      else if LastGrant(id, n).None? || GrantedTo(id, tgid, n) then OK
      else EBUSY
    }

    ghost function RightEnd(tgid: nat, id: Inode, token: nat, n: nat): Errno
      requires Valid() && n <= |events|
    {
      if id !in Known(n) then ENOENT
      else if LastGrant(id, n) == Some(Holder(tgid, token)) then OK
      else EPERM
    }

    ghost function RightQuery(id: Inode, n: nat): Answer
      requires Valid() && n <= |events|
    {
      match LastRange(id, n)
      case None => Result(ENOENT)
      case Some(range) => Report(Guarded(range.start, range.length, LastGrant(id, n)))
    }

    /** The answer to event n that what came before calls for. */
    ghost function Right(n: nat): Answer
      requires Valid() && n < |events|
    {
      match events[n]
      case Resolve(_, _, _) => Silent
      case Commit(thread) => RightCommit(thread, n)
      case BeginWrite(tgid, target, _) => Result(if target.None? then ENOENT else RightBegin(tgid, target.value, n))
      case EndWrite(tgid, target, token) =>
        Result(if target.None? then ENOENT else RightEnd(tgid, target.value, token, n))
      case Query(target) => if target.None? then Result(ENOENT) else RightQuery(target.value, n)
      case Check(tgid, inode) =>
        Verdict(inode.Some? && inode.value in Known(n) && !GrantedTo(inode.value, tgid, n))
    }
  }

  /** The trace is what a run from an empty table shows. */
  ghost predicate Shows(states: seq<System>, tr: Trace) {
    && tr.Valid() && IsRun(states, tr.events)
    && states[0] == System(map[], tr.pending)
    && forall i :: 0 <= i < |tr.events| ==> tr.answers[i] == Step(states[i], tr.events[i]).1
  }

  // ---------- the state is the history ----------

  function HolderOf(t: Table, id: Inode): Option<Holder> {
    if id in t then t[id].holder else None
  }

  function RangeOf(t: Table, id: Inode): Option<Range> {
    if id in t then Some(Range(t[id].start, t[id].length)) else None
  }

  lemma BeginEntry(t: Table, target: Option<Inode>, tgid: nat, token: nat, id: Inode)
    ensures var (t', errno) := Begin(t, target, tgid, token);
            && t'.Keys == t.Keys && RangeOf(t', id) == RangeOf(t, id)
            && var granted := target == Some(id) && errno == OK;
            HolderOf(t', id) == if granted then Some(Holder(tgid, token)) else HolderOf(t, id)
  {
  }

  lemma EndEntry(t: Table, target: Option<Inode>, tgid: nat, token: nat, id: Inode)
    ensures var (t', errno) := End(t, target, tgid, token);
            && t'.Keys == t.Keys && RangeOf(t', id) == RangeOf(t, id)
            && HolderOf(t', id) == if target == Some(id) && errno == OK then None else HolderOf(t, id)
  {
  }

  lemma RegisterEntry(t: Table, who: Inode, start: nat, length: nat, id: Inode)
    ensures var (t', errno) := Register(t, who, start, length);
            && t'.Keys == (if errno == OK then t.Keys + {who} else t.Keys)
            && RangeOf(t', id) == (if who == id && errno == OK then Some(Range(start, length)) else RangeOf(t, id))
            && HolderOf(t', id) == if who == id then None else HolderOf(t, id)
  {
  }

  lemma UnregisterEntry(t: Table, who: Inode, id: Inode)
    ensures var t' := Unregister(t, who);
            && t'.Keys == t.Keys - {who}
            && RangeOf(t', id) == (if who == id then None else RangeOf(t, id))
            && HolderOf(t', id) == if who == id then None else HolderOf(t, id)
  {
  }

  /** The waiting requests are the ones the events tell. */
  lemma {:induction false} PendingIsHistory(states: seq<System>, tr: Trace, thread: nat, n: nat)
    requires Shows(states, tr) && n <= |tr.events|
    ensures tr.Waiting(thread, n) ==
            if thread in states[n].pending then Some(states[n].pending[thread]) else None
  {
    if n != 0 {
      PendingIsHistory(states, tr, thread, n - 1);
      assert states[n] == Step(states[n - 1], tr.events[n - 1]).0;
    }
  }

  /** Range and session of an inode after n events, told by event n - 1 and what was before. */
  lemma EntryStep(states: seq<System>, tr: Trace, id: Inode, n: nat)
    requires Shows(states, tr) && 0 < n <= |tr.events|
    requires tr.LastRange(id, n - 1) == RangeOf(states[n - 1].table, id)
    requires tr.LastGrant(id, n - 1) == HolderOf(states[n - 1].table, id)
    ensures tr.LastRange(id, n) == RangeOf(states[n].table, id)
    ensures tr.LastGrant(id, n) == HolderOf(states[n].table, id)
  {
    var sys, ev := states[n - 1], tr.events[n - 1];
    assert states[n] == Step(sys, ev).0 && tr.answers[n - 1] == Step(sys, ev).1;
    match ev
    case Resolve(_, _, _) =>
    case Commit(thread) =>
      PendingIsHistory(states, tr, thread, n - 1);
      if thread in sys.pending {
        var p := sys.pending[thread];
        match p.request
        case RegisterRequest(start, length) => RegisterEntry(sys.table, p.id, start, length, id);
        case UnregisterRequest => UnregisterEntry(sys.table, p.id, id);
      }
    case BeginWrite(tgid, target, token) => BeginEntry(sys.table, target, tgid, token, id);
    case EndWrite(tgid, target, token) => EndEntry(sys.table, target, tgid, token, id);
    case Query(_) =>
    case Check(_, _) =>
  }

  /** From an empty table on, the entry of an inode is always its last range with its last grant. */
  lemma {:induction false} EntryIsHistory(states: seq<System>, tr: Trace, id: Inode, n: nat)
    requires Shows(states, tr) && n <= |tr.events|
    ensures tr.LastRange(id, n) == RangeOf(states[n].table, id)
    ensures tr.LastGrant(id, n) == HolderOf(states[n].table, id)
  {
    if n != 0 {
      EntryIsHistory(states, tr, id, n - 1);
      EntryStep(states, tr, id, n);
    }
  }

  lemma KnownStep(states: seq<System>, tr: Trace, n: nat)
    requires Shows(states, tr) && 0 < n <= |tr.events| && tr.Known(n - 1) == states[n - 1].table.Keys
    ensures tr.Known(n) == states[n].table.Keys
  {
    var sys, ev := states[n - 1], tr.events[n - 1];
    assert states[n] == Step(sys, ev).0 && tr.answers[n - 1] == Step(sys, ev).1;
    match ev
    case Resolve(_, _, _) =>
    case Commit(thread) =>
      PendingIsHistory(states, tr, thread, n - 1);
      if thread in sys.pending {
        var p := sys.pending[thread];
        match p.request
        case RegisterRequest(start, length) => RegisterEntry(sys.table, p.id, start, length, p.id);
        case UnregisterRequest => UnregisterEntry(sys.table, p.id, p.id);
      }
    case BeginWrite(tgid, target, token) => BeginEntry(sys.table, target, tgid, token, Inode(0, 0));
    case EndWrite(tgid, target, token) => EndEntry(sys.table, target, tgid, token, Inode(0, 0));
    case Query(_) =>
    case Check(_, _) =>
  }

  /** The guarded inodes are the ones the history tells. */
  lemma {:induction false} KnownIsHistory(states: seq<System>, tr: Trace, n: nat)
    requires Shows(states, tr) && n <= |tr.events|
    ensures tr.Known(n) == states[n].table.Keys
  {
    if n != 0 {
      KnownIsHistory(states, tr, n - 1);
      KnownStep(states, tr, n);
    }
  }

  lemma CommitAnswer(states: seq<System>, tr: Trace, thread: nat, n: nat)
    requires Shows(states, tr) && n <= |tr.events|
    ensures Step(states[n], Commit(thread)).1 == tr.RightCommit(thread, n)
  {
    PendingIsHistory(states, tr, thread, n);
    KnownIsHistory(states, tr, n);
    assert |states[n].table| == |states[n].table.Keys|;
  }

  lemma BeginAnswer(states: seq<System>, tr: Trace, tgid: nat, id: Inode, token: nat, n: nat)
    requires Shows(states, tr) && n <= |tr.events|
    ensures Begin(states[n].table, Some(id), tgid, token).1 == tr.RightBegin(tgid, id, n)
  {
    EntryIsHistory(states, tr, id, n);
    KnownIsHistory(states, tr, n);
  }

  lemma EndAnswer(states: seq<System>, tr: Trace, tgid: nat, id: Inode, token: nat, n: nat)
    requires Shows(states, tr) && n <= |tr.events|
    ensures End(states[n].table, Some(id), tgid, token).1 == tr.RightEnd(tgid, id, token, n)
  {
    EntryIsHistory(states, tr, id, n);
    KnownIsHistory(states, tr, n);
  }

  lemma QueryAnswer(states: seq<System>, tr: Trace, id: Inode, n: nat)
    requires Shows(states, tr) && n <= |tr.events|
    ensures Step(states[n], Query(Some(id))).1 == tr.RightQuery(id, n)
  {
    EntryIsHistory(states, tr, id, n);
  }

  lemma CheckAnswer(states: seq<System>, tr: Trace, tgid: nat, id: Inode, n: nat)
    requires Shows(states, tr) && n <= |tr.events|
    ensures Deny(states[n].table, Some(id), tgid) == (id in tr.Known(n) && !tr.GrantedTo(id, tgid, n))
  {
    EntryIsHistory(states, tr, id, n);
    KnownIsHistory(states, tr, n);
  }

  /** Every answer over every run is the one that the events and answers before it call for. */
  lemma AnswersAreHistory(states: seq<System>, tr: Trace, n: nat)
    requires Shows(states, tr) && n < |tr.events|
    ensures tr.answers[n] == tr.Right(n)
  {
    var ev := tr.events[n];
    assert tr.answers[n] == Step(states[n], ev).1;
    match ev
    case Resolve(_, _, _) =>
    case Commit(thread) => CommitAnswer(states, tr, thread, n);
    case BeginWrite(tgid, target, token) =>
      if target.Some? {
        BeginAnswer(states, tr, tgid, target.value, token, n);
      }
    case EndWrite(tgid, target, token) =>
      if target.Some? {
        EndAnswer(states, tr, tgid, target.value, token, n);
      }
    case Query(target) =>
      if target.Some? {
        QueryAnswer(states, tr, target.value, n);
      }
    case Check(tgid, inode) =>
      if inode.Some? {
        CheckAnswer(states, tr, tgid, inode.value, n);
      }
  }

  // ---------- what follows ----------

  /** An inode is guarded exactly if it has a range. */
  lemma KnownHasRange(states: seq<System>, tr: Trace, id: Inode, n: nat)
    requires Shows(states, tr) && n <= |tr.events|
    ensures id in tr.Known(n) <==> tr.LastRange(id, n).Some?
    ensures tr.LastGrant(id, n).Some? ==> id in tr.Known(n)
  {
    EntryIsHistory(states, tr, id, n);
    KnownIsHistory(states, tr, n);
  }

  /** A session can be ended exactly by the group of the latest begin with the token of the latest begin. */
  lemma EndNeedsLatestToken(states: seq<System>, tr: Trace, id: Inode, n: nat)
    requires Shows(states, tr) && n < |tr.events|
    requires tr.events[n].EndWrite? && tr.events[n].target == Some(id)
    ensures tr.answers[n] == Result(OK) <==>
            tr.LastGrant(id, n) == Some(Holder(tr.events[n].tgid, tr.events[n].token))
  {
    AnswersAreHistory(states, tr, n);
    KnownHasRange(states, tr, id, n);
    assert tr.Right(n) == Result(tr.RightEnd(tr.events[n].tgid, id, tr.events[n].token, n));
  }

  /** Access to an inode is denied exactly if it is guarded and the group is not the one of the latest begin:
      with a session to all others, without one to everybody, and after an unregistration to nobody. */
  lemma DeniedExactly(states: seq<System>, tr: Trace, id: Inode, n: nat)
    requires Shows(states, tr) && n < |tr.events|
    requires tr.events[n].Check? && tr.events[n].inode == Some(id)
    ensures tr.answers[n] == Verdict(tr.LastRange(id, n).Some? && !tr.GrantedTo(id, tr.events[n].tgid, n))
  {
    AnswersAreHistory(states, tr, n);
    KnownHasRange(states, tr, id, n);
    assert tr.Right(n) == Verdict(id in tr.Known(n) && !tr.GrantedTo(id, tr.events[n].tgid, n));
  }
}
