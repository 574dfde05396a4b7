/** The guard as code: the calls under the lock, on the slot array and the hash index. */
module Guards {
  import opened Bytes
  import opened Bits
  import opened GuardTable
  import opened GuardProtocol
  import opened GuardMachine

  /** What a query reports. */
  datatype QueryReply = QueryReply(start: nat, length: nat, token: nat, flags: nat)

  datatype Command = RegisterCall | UnregisterCall | BeginCall | EndCall | QueryCall | OtherCall | ForeignCall

  const PATH_SIZE := 4096

  /** A request as it is copied in. */
  datatype Message = Message(path: seq<byte>, start: nat, length: nat, token: nat, flags: nat) {
    predicate Typed() {
      |path| == PATH_SIZE
    }

    predicate Named()
      requires Typed()
    {
      path[0] != 0
    }

    /** What registration checks: the last byte is the end of a string. */
    predicate LastClear()
      requires Typed()
    {
      path[PATH_SIZE - 1] == 0
    }

    /** What resolving a path needs: the string ends somewhere in the array. */
    predicate Ends() {
      0 in path
    }
  }

  /** What a call comes to. `Overread`: the path is read past its array, C gives the call no meaning and the
      model says nothing about the guard afterwards. */
  datatype Outcome = Answered(errno: Errno) | Overread

  /** All calls but registration resolve a path that they have not checked to end. */
  predicate Overreads(command: Command, m: Message) {
    (command.UnregisterCall? || command.BeginCall? || command.EndCall? || command.QueryCall?) && !m.Ends()
  }

  /** What a call does to the table and what it makes of it, before anything is copied back. */
  function Effect(t: Table, command: Command, m: Message, target: Option<Inode>, tgid: nat, token: nat)
    : (Table, Errno)
    requires m.Typed()
  {
    match command
    case RegisterCall =>
      if !m.LastClear() then (t, ENAMETOOLONG)
      else if target.None? then (t, ENOENT)
      else GuardProtocol.Register(t, target.value, m.start, m.length)
    case UnregisterCall => (if target.None? then t else GuardProtocol.Unregister(t, target.value), OK)
    case BeginCall => if m.Named() then Begin(t, target, tgid, token) else (t, EINVAL)
    case EndCall => if m.Named() then End(t, target, tgid, m.token) else (t, EINVAL)
    case QueryCall => (t, if !m.Named() then EINVAL else if target.Some? && target.value in t then OK else ENOENT)
    case OtherCall => (t, ENOTTY)
    case ForeignCall => (t, ENOTTY)
  }

  /** A path as callers give it: a text, and zeros up to the end of the array. */
  predicate Spells(m: Message, text: seq<byte>) {
    |text| < PATH_SIZE && 0 !in text && m.path == text + Zeros(PATH_SIZE - |text|)
  }

  /** What each command does for a path that spells a text: registration and unregistration do it for every text,
      the others for a text that is not empty, and none of them reads past the array. */
  lemma CommandOnText(t: Table, command: Command, m: Message, text: seq<byte>, target: Option<Inode>, tgid: nat,
          token: nat)
    requires Spells(m, text)
    ensures m.Typed() && !Overreads(command, m)
    ensures Effect(t, command, m, target, tgid, token) ==
            match command
            case RegisterCall =>
              if target.None? then (t, ENOENT) else GuardProtocol.Register(t, target.value, m.start, m.length)
            case UnregisterCall => (if target.None? then t else GuardProtocol.Unregister(t, target.value), OK)
            case BeginCall => if text == [] then (t, EINVAL) else Begin(t, target, tgid, token)
            case EndCall => if text == [] then (t, EINVAL) else End(t, target, tgid, m.token)
            case QueryCall =>
              (t, if text == [] then EINVAL else if target.Some? && target.value in t then OK else ENOENT)
            case OtherCall => (t, ENOTTY)
            case ForeignCall => (t, ENOTTY)
  {
    assert m.path[PATH_SIZE - 1] == 0;
    assert text != [] ==> m.path[0] == text[0] && text[0] in text;
  }

  /** A path that no zero ends is refused by registration and read past its end by the other four; one that ends
      before its last byte, but not there, is refused by registration only. */
  lemma CommandOnOtherPaths(t: Table, command: Command, m: Message, target: Option<Inode>, tgid: nat, token: nat)
    requires m.Typed() && m.path[PATH_SIZE - 1] != 0
    ensures Overreads(command, m) <==> 0 !in m.path && command !in {RegisterCall, OtherCall, ForeignCall}
    ensures command.RegisterCall? ==> Effect(t, command, m, target, tgid, token) == (t, ENAMETOOLONG)
  {
  }

  /** The events of the machine that a call is; a thread without a waiting request makes it. */
  function EventsOf(command: Command, m: Message, target: Option<Inode>, tgid: nat, token: nat, thread: nat)
    : seq<Event>
    requires m.Typed()
  {
    match command
    case RegisterCall =>
      if !m.LastClear() || target.None? then []
      else [Resolve(thread, RegisterRequest(m.start, m.length), target.value), Commit(thread)]
    case UnregisterCall =>
      if target.None? then [] else [Resolve(thread, UnregisterRequest, target.value), Commit(thread)]
    case BeginCall => if m.Named() then [BeginWrite(tgid, target, token)] else []
    case EndCall => if m.Named() then [EndWrite(tgid, target, m.token)] else []
    case QueryCall => if m.Named() then [Event.Query(target)] else []
    case OtherCall => []
    case ForeignCall => []
  }

  /** The memory after a call, as the machine has it. */
  function MemoryAfter(place: Inode -> Bucket, memory: Memory, command: Command, m: Message, target: Option<Inode>,
          tgid: nat, token: nat): Memory
    requires m.Typed() && |memory.index| == BUCKETS
  {
    match command
    case RegisterCall =>
      if !m.LastClear() || target.None? then memory
      else RegisterIn(place, memory, target.value, m.start, m.length).0
    case UnregisterCall => if target.None? then memory else UnregisterIn(place, memory, target.value)
    case BeginCall => if m.Named() then BeginIn(place, memory, target, tgid, token).0 else memory
    case EndCall => if m.Named() then EndIn(place, memory, target, tgid, m.token).0 else memory
    case QueryCall => memory
    case OtherCall => memory
    case ForeignCall => memory
  }

  /** A call is a run of the machine: from any state in which the thread does not wait, its events lead to the
      memory after the call and leave the waiting requests of others alone. */
  lemma DispatchIsRun(place: Inode -> Bucket, mc: Machine, command: Command, m: Message, target: Option<Inode>,
          tgid: nat, token: nat, thread: nat)
    requires m.Typed() && |mc.memory.index| == BUCKETS && thread !in mc.pending && tgid != 0 && token != 0
    ensures exists machines ::
              && IsMachineRun(place, machines, EventsOf(command, m, target, tgid, token, thread))
              && machines[0] == mc
              && machines[|machines| - 1] ==
                 mc.(memory := MemoryAfter(place, mc.memory, command, m, target, tgid, token))
  {
    var events := EventsOf(command, m, target, tgid, token, thread);
    if |events| == 0 {
      assert IsMachineRun(place, [mc], events);
    } else if |events| == 1 {
      assert IsMachineRun(place, [mc, MachineStep(place, mc, events[0]).0], events);
    } else {
      var next := MachineStep(place, mc, events[0]).0;
      assert next.pending - {thread} == mc.pending;
      assert IsMachineRun(place, [mc, next, MachineStep(place, next, events[1]).0], events);
    }
  }

  class Guard {
    const hash: nat -> Bucket
    const slots: array<Slot>
    const index: array<seq<nat>>
    ghost var table: Table

    ghost function Place(): Inode -> Bucket {
      id => hash(Key(id))
    }

    ghost function State(): Memory
      reads slots, index
    {
      Memory(slots[..], index[..])
    }

    ghost predicate Valid()
      reads this, slots, index
    {
      slots.Length == MAX_ENTRIES && index.Length == BUCKETS && Stands(Place(), State(), table)
    }

    constructor (hash: nat -> Bucket)
      ensures Valid() && Blank(State()) && table == map[] && fresh(slots) && fresh(index)
    {
      this.hash := hash;
      slots := new Slot[MAX_ENTRIES](_ => EMPTY_SLOT);
      index := new seq<nat>[BUCKETS](_ => []);
      table := map[];
      new;
      BlankStands(Place(), State());
    }

    /** The bucket search finds what a search through all slots would find, and nothing exactly when the
        inode is not guarded. */
    method Find(id: Inode) returns (found: Option<nat>)
      requires Valid()
      ensures found == Lookup(Place(), State(), id) == Search(slots[..], id, 0)
      ensures found.Some? <==> id in table
      ensures found.Some? ==> found.value < MAX_ENTRIES && slots[found.value].inUse && slots[found.value].Id() == id
    {
      LookupIsSearch(Place(), State(), table, id);
      var b := hash(Key(id));
      var bucket := index[b];
      assert b == Place()(id) && bucket == index[..][b];
      assert forall j :: 0 <= j < |bucket| ==> bucket[j] in bucket && Belongs(Place(), slots[..], bucket[j], b);
      assert bucket[0..] == bucket;
      for n := 0 to |bucket|
        invariant FindIn(slots[..], bucket[n..], id) == FindIn(slots[..], bucket, id)
      {
        var k := bucket[n];
        if slots[k].dev == id.dev && slots[k].ino == id.ino {
          return Some(k);
        }
        assert bucket[n..][1..] == bucket[n + 1..];
      }
      found := None;
    }

    // ---------- registration ----------

    /** The first free slot is zeroed, marked with the inode and linked at the head of its bucket. */
    method Claim(id: Inode) returns (found: Option<nat>)
      requires Valid() && id !in table
      modifies slots, index
      ensures found == FreeSlot(old(slots[..]), 0)
      ensures found.None? <==> |table| == MAX_ENTRIES
      ensures found.None? ==> State() == old(State())
      ensures found.Some? ==>
                && slots[..] == old(slots[..])[found.value := Claimed(id)]
                && index[..] == old(index[..])[Place()(id) := [found.value] + old(index[..])[Place()(id)]]
    {
      FullTable(slots[..], table);
      for k := 0 to MAX_ENTRIES
        invariant State() == old(State())
        invariant FreeSlot(slots[..], k) == FreeSlot(slots[..], 0)
      {
        if !slots[k].inUse {
          slots[k] := EMPTY_SLOT.(inUse := true, dev := id.dev, ino := id.ino);
          var b := hash(Key(id));
          index[b] := [k] + index[b];
          return Some(k);
        }
      }
      found := None;
    }

    method Register(target: Option<Inode>, start: nat, length: nat) returns (errno: Errno)
      requires Valid()
      modifies this, slots, index
      ensures Valid()
      ensures (State(), errno) == if target.None? then (old(State()), ENOENT)
                                  else RegisterIn(Place(), old(State()), target.value, start, length)
      ensures (table, errno) == if target.None? then (old(table), ENOENT)
                                else GuardProtocol.Register(old(table), target.value, start, length)
    {
      if target.None? {
        return ENOENT;
      }
      var id := target.value;
      RegisterStands(Place(), State(), table, id, start, length);
      var found := Find(id);
      if found.None? {
        found := Claim(id);
        if found.None? {
          return ENOSPC;
        }
      }
      var k := found.value;
      slots[k] := slots[k].(start := start, length := length, locked := true,
                            active := false, dirty := false, writer := 0, token := 0);
      table := table[id := slots[k].Entry()];
      errno := OK;
      assert slots[..] == RegisterIn(Place(), old(State()), id, start, length).0.slots;
    }

    method Unregister(target: Option<Inode>)
      requires Valid()
      modifies this, slots, index
      ensures Valid()
      ensures State() == if target.None? then old(State()) else UnregisterIn(Place(), old(State()), target.value)
      ensures table == if target.None? then old(table) else GuardProtocol.Unregister(old(table), target.value)
    {
      if target.None? {
        return;
      }
      var id := target.value;
      UnregisterStands(Place(), State(), table, id);
      var found := Find(id);
      if found.None? {
        assert table - {id} == table;
        return;
      }
      var k, b := found.value, hash(Key(id));
      index[b] := Unlinked(index[b], k);
      slots[k] := slots[k].(inUse := false);
      table := table - {id};
      assert State() == UnregisterIn(Place(), old(State()), id);
    }

    // ---------- sessions ----------

    /** Group and token are never zero. */
    method BeginSession(named: bool, target: Option<Inode>, tgid: nat, token: nat) returns (errno: Errno)
      requires Valid() && tgid != 0 && token != 0
      modifies this, slots
      ensures Valid()
      ensures (State(), errno) == if named then BeginIn(Place(), old(State()), target, tgid, token)
                                  else (old(State()), EINVAL)
      ensures (table, errno) == if named then Begin(old(table), target, tgid, token) else (old(table), EINVAL)
    {
      if !named {
        return EINVAL;
      }
      BeginStands(Place(), State(), table, target, tgid, token);
      if target.None? {
        return ENOENT;
      }
      var found := Find(target.value);
      if found.None? {
        return ENOENT;
      }
      var k := found.value;
      var slot := slots[k];
      if slot.active && slot.writer != tgid {
        return EBUSY;
      }
      slots[k] := slot.(active := true, writer := tgid, dirty := true, token := token);
      table := table[target.value := slots[k].Entry()];
      errno := OK;
      assert State() == BeginIn(Place(), old(State()), target, tgid, token).0;
    }

    method EndSession(named: bool, target: Option<Inode>, tgid: nat, token: nat) returns (errno: Errno)
      requires Valid()
      modifies this, slots
      ensures Valid()
      ensures (State(), errno) == if named then EndIn(Place(), old(State()), target, tgid, token)
                                  else (old(State()), EINVAL)
      ensures (table, errno) == if named then End(old(table), target, tgid, token) else (old(table), EINVAL)
    {
      if !named {
        return EINVAL;
      }
      EndStands(Place(), State(), table, target, tgid, token);
      if target.None? {
        return ENOENT;
      }
      var found := Find(target.value);
      if found.None? {
        return ENOENT;
      }
      var k := found.value;
      var slot := slots[k];
      if !slot.active || slot.writer != tgid || slot.token != token {
        return EPERM;
      }
      slots[k] := slot.(active := false, writer := 0, dirty := false, token := 0);
      table := table[target.value := slots[k].Entry()];
      errno := OK;
      assert State() == EndIn(Place(), old(State()), target, tgid, token).0;
    }

    // ---------- reading ----------

    /** The report tells a session by its flag and by a token that is not zero, both or neither. */
    method Query(named: bool, target: Option<Inode>) returns (errno: Errno, reply: QueryReply)
      requires Valid()
      ensures errno == if !named then EINVAL else if target.Some? && target.value in table then OK else ENOENT
      ensures errno == OK ==>
                var g := table[target.value];
                && reply.start == g.start && reply.length == g.length
                && reply.flags == (if g.holder.Some? then FLAG_LOCKED + FLAG_SESSION else FLAG_LOCKED)
                && (g.holder.Some? <==> reply.token != 0)
                && (g.holder.Some? ==> reply.token == g.holder.value.token)
    {
      reply := QueryReply(0, 0, 0, 0);
      if !named {
        return EINVAL, reply;
      }
      if target.None? {
        return ENOENT, reply;
      }
      var found := Find(target.value);
      if found.None? {
        return ENOENT, reply;
      }
      var slot := slots[found.value];
      var flags := 0;
      if slot.locked {
        flags := Or(flags, FLAG_LOCKED);
      }
      if slot.active {
        flags := Or(flags, FLAG_SESSION);
      }
      assert Or(1, 2) == 3;
      errno, reply := OK, QueryReply(slot.start, slot.length, slot.token, flags);
    }

    /** The hooks on files and on directory entries decide alike. */
    method DenyAccess(inode: Option<Inode>, tgid: nat) returns (denied: bool)
      requires Valid()
      ensures denied == DenyIn(Place(), State(), inode, tgid) == Deny(table, inode, tgid)
    {
      if inode.None? {
        return false;
      }
      var found := Find(inode.value);
      if found.None? {
        return false;
      }
      var slot := slots[found.value];
      denied := slot.locked && !(slot.active && slot.writer == tgid);
    }

    // ---------- dispatch ----------

    /** A message that cannot be read changes nothing; a reply that cannot be written comes too late to
        change anything back, so a begin can report EFAULT and still have opened the session. */
    method Ioctl(command: Command, m: Message, target: Option<Inode>, tgid: nat, token: nat, readable: bool,
            writable: bool)
      returns (outcome: Outcome, reply: Option<Message>)
      requires Valid() && m.Typed() && tgid != 0 && token != 0
      modifies this, slots, index
      ensures Valid()
      ensures !readable ==>
                && State() == old(State()) && table == old(table)
                && outcome == Answered(if command.ForeignCall? then ENOTTY else EFAULT)
      ensures readable ==> (outcome.Overread? <==> Overreads(command, m))
      ensures readable && outcome.Answered? ==>
                var (t, made) := Effect(old(table), command, m, target, tgid, token);
                && table == t && State() == MemoryAfter(Place(), old(State()), command, m, target, tgid, token)
                && var answers := command.BeginCall? || command.QueryCall?;
                outcome.errno == if made == OK && answers && !writable then EFAULT else made
      ensures reply.Some? <==> outcome == Answered(OK) && (command.BeginCall? || command.QueryCall?)
      ensures reply.Some? && command.BeginCall? ==>
                && target.Some? && Holds(table, target.value, tgid)
                && reply.value.token == table[target.value].holder.value.token
                && reply.value.flags == FLAG_LOCKED + FLAG_SESSION
      ensures reply.Some? && command.QueryCall? ==>
                && target.Some? && target.value in table
                && reply.value.start == table[target.value].start && reply.value.length == table[target.value].length
                && (Free(table, target.value) ==> reply.value.token == 0)
                && (!Free(table, target.value) ==> reply.value.token == table[target.value].holder.value.token)
                && reply.value.flags == (if Free(table, target.value) then FLAG_LOCKED else FLAG_LOCKED + FLAG_SESSION)
    {
      reply := None;
      if command.ForeignCall? {
        return Answered(ENOTTY), None;
      }
      if !readable {
        return Answered(EFAULT), None;
      }
      if Overreads(command, m) {
        return Overread, None;
      }
      var errno, out := OK, m;
      match command {
        case RegisterCall =>
          if !m.LastClear() {
            return Answered(ENAMETOOLONG), None;
          }
          errno := Register(target, m.start, m.length);
        case UnregisterCall =>
          Unregister(target);
        case BeginCall =>
          errno := BeginSession(m.Named(), target, tgid, token);
          assert Or(1, 2) == 3;
          out := m.(token := token, flags := Or(FLAG_LOCKED, FLAG_SESSION));
        case EndCall =>
          errno := EndSession(m.Named(), target, tgid, m.token);
        case QueryCall =>
          var report;
          errno, report := Query(m.Named(), target);
          out := m.(start := report.start, length := report.length, token := report.token, flags := report.flags);
        case OtherCall =>
          return Answered(ENOTTY), None;
      }
      if errno == OK && (command.BeginCall? || command.QueryCall?) {
        if !writable {
          return Answered(EFAULT), None;
        }
        reply := Some(out);
      }
      outcome := Answered(errno);
    }
  }
}
