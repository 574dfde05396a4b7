/** The guard's memory as a machine, and the proof that its runs are runs of the protocol. */
module GuardMachine {
  import opened Bytes
  import opened GuardTable
  import opened GuardProtocol
  import opened GuardHistory

  /** The slot array and the hash buckets. */
  datatype Memory = Memory(slots: seq<Slot>, index: seq<seq<nat>>)

  /** The memory stands for a table of the protocol. */
  ghost predicate Stands(place: Inode -> Bucket, m: Memory, t: Table) {
    |m.slots| == MAX_ENTRIES && Indexed(place, m.slots, m.index) && Implements(m.slots, t)
  }

  // ---------- lookup ----------

  /** The search through one bucket. */
  function FindIn(slots: seq<Slot>, bucket: seq<nat>, id: Inode): (found: Option<nat>)
    ensures found.Some? ==> found.value < |slots| && found.value in bucket && slots[found.value].Id() == id
    ensures found.None? ==> forall k <- bucket :: k < |slots| ==> slots[k].Id() != id
  {
    if bucket == [] then None
    else if bucket[0] < |slots| && slots[bucket[0]].Id() == id then Some(bucket[0])
    else FindIn(slots, bucket[1..], id)
  }

  function Lookup(place: Inode -> Bucket, m: Memory, id: Inode): (found: Option<nat>)
    requires |m.index| == BUCKETS
    ensures found.Some? ==> found.value < |m.slots|
  {
    FindIn(m.slots, m.index[place(id)], id)
  }

  /** The bucket search finds what a search through all slots would find, and nothing exactly when the
      inode is not guarded. */
  lemma LookupIsSearch(place: Inode -> Bucket, m: Memory, t: Table, id: Inode)
    requires Stands(place, m, t)
    ensures var found := Lookup(place, m, id);
            && found == Search(m.slots, id, 0)
            && (found.Some? <==> id in t)
            && (found.Some? ==> m.slots[found.value].inUse && m.slots[found.value].Id() == id)
  {
    var found, b := Lookup(place, m, id), place(id);
    if found.Some? {
      assert Belongs(place, m.slots, found.value, b);
      SearchFinds(m.slots, id, 0, found.value);
    } else {
      forall k | 0 <= k < |m.slots| && m.slots[k].inUse
        ensures m.slots[k].Id() != id
      {
        assert Belongs(place, m.slots, k, place(m.slots[k].Id()));
      }
      SearchMisses(m.slots, id, 0);
      assert id in t ==> Occupied(m.slots, id);
    }
  }

  function FreeSlot(slots: seq<Slot>, k: nat): (free: Option<nat>)
    requires k <= |slots|
    ensures free.Some? ==> free.value < |slots| && !slots[free.value].inUse
    ensures free.None? ==> forall j :: k <= j < |slots| ==> slots[j].inUse
    decreases |slots| - k
  {
    if k == |slots| then None else if !slots[k].inUse then Some(k) else FreeSlot(slots, k + 1)
  }

  // ---------- the sections under the lock ----------

  function Claimed(id: Inode): Slot {
    EMPTY_SLOT.(inUse := true, dev := id.dev, ino := id.ino)
  }

  function Reset(slot: Slot, start: nat, length: nat): Slot {
    slot.(start := start, length := length, locked := true, active := false, dirty := false, writer := 0, token := 0)
  }

  function RegisterIn(place: Inode -> Bucket, m: Memory, id: Inode, start: nat, length: nat): (Memory, Errno)
    requires |m.index| == BUCKETS
  {
    match Lookup(place, m, id)
    case Some(k) => (m.(slots := m.slots[k := Reset(m.slots[k], start, length)]), OK)
    case None =>
      match FreeSlot(m.slots, 0)
      case None => (m, ENOSPC)
      case Some(k) =>
        var b := place(id);
        (Memory(m.slots[k := Reset(Claimed(id), start, length)], m.index[b := [k] + m.index[b]]), OK)
  }

  function UnregisterIn(place: Inode -> Bucket, m: Memory, id: Inode): Memory
    requires |m.index| == BUCKETS
  {
    match Lookup(place, m, id)
    case None => m
    case Some(k) =>
      var b := place(id);
      Memory(m.slots[k := m.slots[k].(inUse := false)], m.index[b := Unlinked(m.index[b], k)])
  }

  function BeginIn(place: Inode -> Bucket, m: Memory, target: Option<Inode>, tgid: nat, token: nat): (Memory, Errno)
    requires |m.index| == BUCKETS
  {
    if target.None? || Lookup(place, m, target.value).None? then (m, ENOENT)
    else
      var k := Lookup(place, m, target.value).value;
      var slot := m.slots[k];
      if slot.active && slot.writer != tgid then (m, EBUSY)
      else (m.(slots := m.slots[k := slot.(active := true, writer := tgid, dirty := true, token := token)]), OK)
  }

  function EndIn(place: Inode -> Bucket, m: Memory, target: Option<Inode>, tgid: nat, token: nat): (Memory, Errno)
    requires |m.index| == BUCKETS
  {
    if target.None? || Lookup(place, m, target.value).None? then (m, ENOENT)
    else
      var k := Lookup(place, m, target.value).value;
      var slot := m.slots[k];
      if !slot.active || slot.writer != tgid || slot.token != token then (m, EPERM)
      else (m.(slots := m.slots[k := slot.(active := false, writer := 0, dirty := false, token := 0)]), OK)
  }

  predicate DenyIn(place: Inode -> Bucket, m: Memory, inode: Option<Inode>, tgid: nat)
    requires |m.index| == BUCKETS
  {
    && inode.Some? && Lookup(place, m, inode.value).Some?
    && var slot := m.slots[Lookup(place, m, inode.value).value];
    slot.locked && !(slot.active && slot.writer == tgid)
  }

  lemma RegisterStands(place: Inode -> Bucket, m: Memory, t: Table, id: Inode, start: nat, length: nat)
    requires Stands(place, m, t)
    ensures var (m', errno), (t', errno') := RegisterIn(place, m, id, start, length), Register(t, id, start, length);
            errno == errno' && Stands(place, m', t')
  {
    LookupIsSearch(place, m, t, id);
    FullTable(m.slots, t);
    var found, free := Lookup(place, m, id), FreeSlot(m.slots, 0);
    if found.Some? {
      UpdateKeeps(place, m.slots, m.index, t, found.value, Reset(m.slots[found.value], start, length));
    } else if free.Some? {
      InsertIndexed(place, m.slots, m.index, free.value, Reset(Claimed(id), start, length));
      InsertImplements(m.slots, t, free.value, Reset(Claimed(id), start, length));
    }
  }

  lemma UnregisterStands(place: Inode -> Bucket, m: Memory, t: Table, id: Inode)
    requires Stands(place, m, t)
    ensures Stands(place, UnregisterIn(place, m, id), Unregister(t, id))
  {
    LookupIsSearch(place, m, t, id);
    var found := Lookup(place, m, id);
    if found.Some? {
      var slot := m.slots[found.value].(inUse := false);
      RemoveIndexed(place, m.slots, m.index, found.value, slot);
      RemoveImplements(m.slots, t, found.value, slot);
    } else {
      assert t - {id} == t;
    }
  }

  lemma BeginStands(place: Inode -> Bucket, m: Memory, t: Table, target: Option<Inode>, tgid: nat, token: nat)
    requires Stands(place, m, t) && tgid != 0 && token != 0
    ensures var (m', errno), (t', errno') := BeginIn(place, m, target, tgid, token), Begin(t, target, tgid, token);
            errno == errno' && Stands(place, m', t')
  {
    if target.Some? {
      LookupIsSearch(place, m, t, target.value);
      var found := Lookup(place, m, target.value);
      if found.Some? {
        var slot := m.slots[found.value].(active := true, writer := tgid, dirty := true, token := token);
        UpdateKeeps(place, m.slots, m.index, t, found.value, slot);
      }
    }
  }

  lemma EndStands(place: Inode -> Bucket, m: Memory, t: Table, target: Option<Inode>, tgid: nat, token: nat)
    requires Stands(place, m, t)
    ensures var (m', errno), (t', errno') := EndIn(place, m, target, tgid, token), End(t, target, tgid, token);
            errno == errno' && Stands(place, m', t')
  {
    if target.Some? {
      LookupIsSearch(place, m, t, target.value);
      var found := Lookup(place, m, target.value);
      if found.Some? {
        var slot := m.slots[found.value].(active := false, writer := 0, dirty := false, token := 0);
        UpdateKeeps(place, m.slots, m.index, t, found.value, slot);
      }
    }
  }

  lemma DenyStands(place: Inode -> Bucket, m: Memory, t: Table, inode: Option<Inode>, tgid: nat)
    requires Stands(place, m, t)
    ensures DenyIn(place, m, inode, tgid) == Deny(t, inode, tgid)
  {
    if inode.Some? {
      LookupIsSearch(place, m, t, inode.value);
    }
  }

  // ---------- the machine ----------

  datatype Machine = Machine(memory: Memory, pending: map<nat, Pending>)

  function MachineStep(place: Inode -> Bucket, mc: Machine, ev: Event): (Machine, Answer)
    requires |mc.memory.index| == BUCKETS
  {
    var m := mc.memory;
    match ev
    case Resolve(thread, request, id) =>
      if thread in mc.pending then (mc, Silent)
      else (mc.(pending := mc.pending[thread := Pending(request, id)]), Silent)
    case Commit(thread) =>
      if thread !in mc.pending then (mc, Silent)
      else
        var p := mc.pending[thread];
        var (m', errno) := match p.request
          case RegisterRequest(start, length) => RegisterIn(place, m, p.id, start, length)
          case UnregisterRequest => (UnregisterIn(place, m, p.id), OK);
        (Machine(m', mc.pending - {thread}), Result(errno))
    case BeginWrite(tgid, target, token) =>
      var (m', errno) := BeginIn(place, m, target, tgid, token);
      (mc.(memory := m'), Result(errno))
    case EndWrite(tgid, target, token) =>
      var (m', errno) := EndIn(place, m, target, tgid, token);
      (mc.(memory := m'), Result(errno))
    case Query(target) =>
      if target.Some? && Lookup(place, m, target.value).Some?
      then (mc, Report(m.slots[Lookup(place, m, target.value).value].Entry()))
      else (mc, Result(ENOENT))
    case Check(tgid, inode) =>
      (mc, Verdict(DenyIn(place, m, inode, tgid)))
  }

  /** Thread groups and fresh tokens are never zero. */
  predicate Sound(ev: Event) {
    ev.BeginWrite? ==> ev.tgid != 0 && ev.token != 0
  }

  ghost predicate Related(place: Inode -> Bucket, mc: Machine, sys: System) {
    Stands(place, mc.memory, sys.table) && mc.pending == sys.pending
  }

  /** Simulation: every step of the machine is the same step of the protocol, with the same answer. */
  lemma StepSimulates(place: Inode -> Bucket, mc: Machine, sys: System, ev: Event)
    requires Related(place, mc, sys) && Sound(ev)
    ensures Related(place, MachineStep(place, mc, ev).0, Step(sys, ev).0)
    ensures MachineStep(place, mc, ev).1 == Step(sys, ev).1
  {
    var m, t := mc.memory, sys.table;
    match ev
    case Resolve(_, _, _) =>
    case Commit(thread) =>
      if thread in sys.pending {
        var p := sys.pending[thread];
        match p.request
        case RegisterRequest(start, length) => RegisterStands(place, m, t, p.id, start, length);
        case UnregisterRequest => UnregisterStands(place, m, t, p.id);
      }
    case BeginWrite(tgid, target, token) => BeginStands(place, m, t, target, tgid, token);
    case EndWrite(tgid, target, token) => EndStands(place, m, t, target, tgid, token);
    case Query(target) =>
      if target.Some? {
        LookupIsSearch(place, m, t, target.value);
      }
    case Check(tgid, inode) => DenyStands(place, m, t, inode, tgid);
  }

  // ---------- runs of the machine ----------

  ghost predicate IsMachineRun(place: Inode -> Bucket, machines: seq<Machine>, events: seq<Event>) {
    && |machines| == |events| + 1
    && (forall i :: 0 <= i < |machines| ==> |machines[i].memory.index| == BUCKETS)
    && (forall i :: 0 <= i < |events| ==> machines[i + 1] == MachineStep(place, machines[i], events[i]).0)
    && (forall ev <- events :: Sound(ev))
  }

  /** The machine and the protocol give the same answers all along. */
  ghost predicate Agree(place: Inode -> Bucket, machines: seq<Machine>, states: seq<System>, events: seq<Event>)
    requires |machines| == |states| == |events| + 1
    requires forall i :: 0 <= i < |machines| ==> |machines[i].memory.index| == BUCKETS
  {
    && (forall i :: 0 <= i < |states| ==> Related(place, machines[i], states[i]))
    && (forall i :: 0 <= i < |events| ==>
          MachineStep(place, machines[i], events[i]).1 == Step(states[i], events[i]).1)
  }

  /** The run of the protocol from a state. */
  ghost function ProtocolRun(sys: System, events: seq<Event>): (states: seq<System>)
    ensures |states| == |events| + 1 && states[0] == sys
  {
    if events == [] then [sys]
    else
      var before := ProtocolRun(sys, events[..|events| - 1]);
      before + [Step(before[|events| - 1], events[|events| - 1]).0]
  }

  lemma {:induction false} ProtocolRunIsRun(sys: System, events: seq<Event>)
    ensures IsRun(ProtocolRun(sys, events), events)
  {
    if events != [] {
      ProtocolRunIsRun(sys, events[..|events| - 1]);
    }
  }

  lemma {:induction false} AgreeUpTo(place: Inode -> Bucket, machines: seq<Machine>, states: seq<System>,
          events: seq<Event>, n: nat)
    requires IsMachineRun(place, machines, events) && IsRun(states, events) && n <= |events|
    requires Related(place, machines[0], states[0])
    ensures forall i :: 0 <= i <= n ==> Related(place, machines[i], states[i])
    ensures forall i :: 0 <= i < n ==>
              MachineStep(place, machines[i], events[i]).1 == Step(states[i], events[i]).1
  {
    if n != 0 {
      AgreeUpTo(place, machines, states, events, n - 1);
      assert events[n - 1] in events;
      assert machines[n] == MachineStep(place, machines[n - 1], events[n - 1]).0;
      assert states[n] == Step(states[n - 1], events[n - 1]).0;
      StepSimulates(place, machines[n - 1], states[n - 1], events[n - 1]);
    }
  }

  /** Refinement over runs: every run of the slots and buckets is a run of the protocol, state for state and
      answer for answer. */
  lemma MachineRefines(place: Inode -> Bucket, machines: seq<Machine>, events: seq<Event>, sys: System)
    requires IsMachineRun(place, machines, events) && Related(place, machines[0], sys)
    ensures IsRun(ProtocolRun(sys, events), events)
    ensures Agree(place, machines, ProtocolRun(sys, events), events)
  {
    ProtocolRunIsRun(sys, events);
    AgreeUpTo(place, machines, ProtocolRun(sys, events), events, |events|);
  }

  /** The memory as the module loads: no slot in use and every bucket empty. */
  ghost predicate Blank(m: Memory) {
    && |m.slots| == MAX_ENTRIES && (forall slot <- m.slots :: slot == EMPTY_SLOT)
    && |m.index| == BUCKETS && (forall bucket <- m.index :: bucket == [])
  }

  lemma BlankStands(place: Inode -> Bucket, m: Memory)
    requires Blank(m)
    ensures Stands(place, m, map[])
  {
    assert forall k :: 0 <= k < |m.slots| ==> m.slots[k] in m.slots && !m.slots[k].inUse;
    assert forall b :: 0 <= b < BUCKETS ==> m.index[b] in m.index;
  }

  // ---------- what the protocol gives the machine ----------

  /** The session a slot records for an inode. */
  function HolderIn(m: Memory, id: Inode): Option<Holder> {
    match Search(m.slots, id, 0)
    case None => None
    case Some(k) => m.slots[k].Entry().holder
  }

  predicate HeldIn(m: Memory, id: Inode, tgid: nat) {
    HolderIn(m, id).Some? && HolderIn(m, id).value.tgid == tgid
  }

  lemma HolderStands(place: Inode -> Bucket, m: Memory, t: Table, id: Inode)
    requires Stands(place, m, t)
    ensures HolderIn(m, id) == HolderOf(t, id)
  {
    LookupIsSearch(place, m, t, id);
  }

  /** As `Releases`, read off the slots. */
  ghost predicate ReleasesIn(mc: Machine, ev: Event, id: Inode, tgid: nat) {
    || (ev.EndWrite? && ev.tgid == tgid && ev.target == Some(id)
        && HolderIn(mc.memory, id) == Some(Holder(tgid, ev.token)))
    || (ev.Commit? && ev.thread in mc.pending && mc.pending[ev.thread].id == id)
  }

  /** As `ShutsOut`, of the machine's own answers. */
  ghost predicate ShutsOutIn(place: Inode -> Bucket, mc: Machine, ev: Event, id: Inode, tgid: nat)
    requires |mc.memory.index| == BUCKETS
  {
    var (next, answer) := MachineStep(place, mc, ev);
    && (ev.BeginWrite? && ev.target == Some(id) && ev.tgid != tgid ==> answer == Result(EBUSY) && next == mc)
    && (ev.EndWrite? && ev.target == Some(id) && ev.tgid != tgid ==> answer == Result(EPERM) && next == mc)
    && (ev.Check? && ev.inode == Some(id) ==> answer == Verdict(ev.tgid != tgid))
    && (ev.BeginWrite? && ev.target == Some(id) && ev.tgid == tgid ==> answer == Result(OK))
  }

  lemma ReleasesAlike(place: Inode -> Bucket, mc: Machine, sys: System, ev: Event, id: Inode, tgid: nat)
    requires Related(place, mc, sys)
    ensures ReleasesIn(mc, ev, id, tgid) <==> Releases(sys, ev, id, tgid)
    ensures HeldIn(mc.memory, id, tgid) <==> Holds(sys.table, id, tgid)
  {
    HolderStands(place, mc.memory, sys.table, id);
  }

  lemma ShutsOutAlike(place: Inode -> Bucket, mc: Machine, sys: System, ev: Event, id: Inode, tgid: nat)
    requires Related(place, mc, sys) && Sound(ev) && ShutsOut(sys, ev, id, tgid)
    ensures ShutsOutIn(place, mc, ev, id, tgid)
  {
    StepSimulates(place, mc, sys, ev);
  }

  /** Exclusion, of the slots and buckets: while a slot records a session and nothing releases it, it stays
      recorded, and every other group is turned away by every event. */
  lemma MachineExclusion(place: Inode -> Bucket, machines: seq<Machine>, events: seq<Event>, sys: System,
          id: Inode, tgid: nat, n: nat)
    requires IsMachineRun(place, machines, events) && Related(place, machines[0], sys) && n <= |events|
    requires HeldIn(machines[0].memory, id, tgid)
    requires forall i :: 0 <= i < n ==> !ReleasesIn(machines[i], events[i], id, tgid)
    ensures HeldIn(machines[n].memory, id, tgid)
    ensures forall i :: 0 <= i < n ==> ShutsOutIn(place, machines[i], events[i], id, tgid)
  {
    var states := ProtocolRun(sys, events);
    MachineRefines(place, machines, events, sys);
    assert Related(place, machines[n], states[n]);
    HolderStands(place, machines[0].memory, sys.table, id);
    HolderStands(place, machines[n].memory, states[n].table, id);
    forall i | 0 <= i < n
      ensures !Releases(states[i], events[i], id, tgid)
    {
      ReleasesAlike(place, machines[i], states[i], events[i], id, tgid);
    }
    Exclusion(states, events, id, tgid, n);
    forall i | 0 <= i < n
      ensures ShutsOutIn(place, machines[i], events[i], id, tgid)
    {
      ShutsOutAlike(place, machines[i], states[i], events[i], id, tgid);
    }
  }

  // ---------- the machine's answers ----------

  /** The trace is what a run from blank memory shows. */
  ghost predicate MachineShows(place: Inode -> Bucket, machines: seq<Machine>, tr: Trace) {
    && tr.Valid() && IsMachineRun(place, machines, tr.events)
    && Blank(machines[0].memory) && machines[0].pending == tr.pending
    && forall i :: 0 <= i < |tr.events| ==> tr.answers[i] == MachineStep(place, machines[i], tr.events[i]).1
  }

  /** The run of the protocol with the same trace. */
  lemma SameTrace(place: Inode -> Bucket, machines: seq<Machine>, tr: Trace) returns (states: seq<System>)
    requires MachineShows(place, machines, tr)
    ensures Shows(states, tr)
    ensures forall i :: 0 <= i < |states| ==> Related(place, machines[i], states[i])
  {
    BlankStands(place, machines[0].memory);
    states := ProtocolRun(System(map[], tr.pending), tr.events);
    MachineRefines(place, machines, tr.events, System(map[], tr.pending));
  }

  /** Every answer that slots and buckets give, over every run from blank memory, is the one that the events and
      answers before it call for. */
  lemma MachineAnswersAreHistory(place: Inode -> Bucket, machines: seq<Machine>, tr: Trace, n: nat)
    requires MachineShows(place, machines, tr) && n < |tr.events|
    ensures tr.answers[n] == tr.Right(n)
  {
    var states := SameTrace(place, machines, tr);
    AnswersAreHistory(states, tr, n);
  }

  /** And so are the slots: an inode has one exactly if it is guarded, with its last range and its last grant;
      and as many are in use as inodes are guarded. */
  lemma SlotsAreHistory(place: Inode -> Bucket, machines: seq<Machine>, tr: Trace, id: Inode, n: nat)
    requires MachineShows(place, machines, tr) && n <= |tr.events|
    ensures var slots := machines[n].memory.slots;
            && (Search(slots, id, 0).Some? <==> id in tr.Known(n))
            && (Search(slots, id, 0).Some? ==>
                  var slot := slots[Search(slots, id, 0).value];
                  && slot.inUse && slot.Id() == id && slot.locked
                  && tr.LastRange(id, n) == Some(Range(slot.start, slot.length))
                  && tr.LastGrant(id, n) == if slot.active then Some(Holder(slot.writer, slot.token)) else None)
            && InUse(slots, |slots|) == |tr.Known(n)|
  {
    var states := SameTrace(place, machines, tr);
    assert Related(place, machines[n], states[n]);
    LookupIsSearch(place, machines[n].memory, states[n].table, id);
    EntryIsHistory(states, tr, id, n);
    KnownIsHistory(states, tr, n);
    assert |states[n].table| == |states[n].table.Keys|;
    InUseIsSize(machines[n].memory.slots, states[n].table);
  }

  /** Unregistering gives up exactly the slot of the inode. */
  lemma UnregisterFrees(place: Inode -> Bucket, m: Memory, t: Table, id: Inode)
    requires Stands(place, m, t)
    ensures var m' := UnregisterIn(place, m, id);
            && Search(m'.slots, id, 0).None? && |m'.slots| == |m.slots|
            && InUse(m'.slots, |m'.slots|) == InUse(m.slots, |m.slots|) - if Search(m.slots, id, 0).Some? then 1 else 0
  {
    var m' := UnregisterIn(place, m, id);
    UnregisterStands(place, m, t, id);
    LookupIsSearch(place, m, t, id);
    LookupIsSearch(place, m', Unregister(t, id), id);
    InUseIsSize(m.slots, t);
    InUseIsSize(m'.slots, Unregister(t, id));
    RemoveSize(t, id);
  }

  /** From blank memory on, the machine grants an end exactly to the group of the latest begin with the token
      of the latest begin. */
  lemma MachineEndNeedsLatestToken(place: Inode -> Bucket, machines: seq<Machine>, tr: Trace, id: Inode, n: nat)
    requires MachineShows(place, machines, tr) && n < |tr.events|
    requires tr.events[n].EndWrite? && tr.events[n].target == Some(id)
    ensures tr.answers[n] == Result(OK) <==>
            tr.LastGrant(id, n) == Some(Holder(tr.events[n].tgid, tr.events[n].token))
  {
    var states := SameTrace(place, machines, tr);
    EndNeedsLatestToken(states, tr, id, n);
  }

  /** From blank memory on, slots and buckets deny access exactly if the inode is guarded and the group is not
      the one of the latest begin. */
  lemma MachineDeniesExactly(place: Inode -> Bucket, machines: seq<Machine>, tr: Trace, id: Inode, n: nat)
    requires MachineShows(place, machines, tr) && n < |tr.events|
    requires tr.events[n].Check? && tr.events[n].inode == Some(id)
    ensures tr.answers[n] == Verdict(tr.LastRange(id, n).Some? && !tr.GrantedTo(id, tr.events[n].tgid, n))
  {
    var states := SameTrace(place, machines, tr);
    DeniedExactly(states, tr, id, n);
  }
}
