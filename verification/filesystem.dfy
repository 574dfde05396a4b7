/** The public calls as code over a file system: `padlock_set`, `padlock_get` and `padlock_allocate`. */
module FileSystems {
  import opened Bytes
  import opened Words
  import opened Cipher
  import opened Header
  import opened Records
  import opened Scan
  import opened Append
  import opened Copying
  import opened Store
  import opened Journal

  datatype AllocateFault =
    | Smooth | NoDirectory | NoTempFile | NoMode | NoStream | NoRandomBytes | HeaderNotWritten
    | NotFlushed | NotClosed | NotRenamed

  /** The environment of an allocation: the name `mkstemp` picks, the random device and how its reads and
      the file's writes come out, the random header fields, and where something else fails. */
  datatype AllocateEnv = AllocateEnv(
    suffix: string,
    device: nat -> byte,
    deviceReads: seq<ReadResult>,
    writes: seq<nat>,
    salt: Block,
    iv: Block,
    xtsKey: seq<byte>,
    fault: AllocateFault)

  const PATH_MAX := 4096

  // ---------- the changes of a call ----------

  /** The writes of a call in their order: the record first, then the header. */
  ghost function PlanChanges(path: Path, p: Plan, fault: SetFault): seq<Change>
    requires p.Ready? ==> p.header.Typed()
  {
    match p
    case Denied => []
    case Overruns => []
    case Ready(h, cipher) =>
      if fault.WriteStops? then [Write(path, h.writeOffset, fault.left[..Min(|fault.left|, |cipher|)])]
      else if fault.HeaderFails? then [Write(path, h.writeOffset, cipher)]
      else
        [Write(path, h.writeOffset, cipher),
         Write(path, 0, HeaderBytes(h.(writeOffset := Add64(h.writeOffset, |cipher|))))]
  }

  ghost function SetChanges(s: Suite, path: Path, file: seq<byte>, password: seq<byte>, e: Entry,
          fault: SetFault): seq<Change>
    requires |e.value| < U32
  {
    if fault.OpenFails? then []
    else PlanChanges(path, PlanSet(s, file, password, e, !fault.NoMemory?), fault)
  }

  lemma WriteStep(files: Files, path: Path, file: seq<byte>, at: nat, d: seq<byte>)
    requires path in files
    ensures Enabled(files[path := file], Write(path, at, d))
    ensures Apply(files[path := file], Write(path, at, d)) == files[path := WriteAt(file, at, d)]
  {
    assert files[path := file][path := WriteAt(file, at, d)] == files[path := WriteAt(file, at, d)];
  }

  lemma TwoWrites(files: Files, path: Path, first: Change, second: Change)
    requires path in files && first.Write? && second.Write? && first.path == second.path == path
    ensures var written := WriteAt(files[path], first.at, first.data);
            && Replay(files, [first]) == Some(files[path := written])
            && Replay(files, [first, second]) == Some(files[path := WriteAt(written, second.at, second.data)])
  {
    var written := WriteAt(files[path], first.at, first.data);
    LeadsOn(files, [], files, first);
    assert [] + [first] == [first] && [first] + [second] == [first, second];
    WriteStep(files, path, written, second.at, second.data);
    LeadsOn(files, [first], files[path := written], second);
  }

  lemma OneWriteStates(files: Files, path: Path, at: nat, d: seq<byte>, n: nat)
    requires path in files && n <= 1
    ensures Replay(files, [Write(path, at, d)][..n]) ==
            Some(files[path := if n == 0 then files[path] else WriteAt(files[path], at, d)])
  {
    var write := Write(path, at, d);
    TwoWrites(files, path, write, write);
    assert files == files[path := files[path]];
    assert [write][..n] == if n == 0 then [] else [write];
  }

  lemma TwoWriteStates(files: Files, path: Path, at: nat, d: seq<byte>, image: seq<byte>, n: nat)
    requires path in files && n <= 2
    ensures var written := WriteAt(files[path], at, d);
            Replay(files, [Write(path, at, d), Write(path, 0, image)][..n]) ==
            Some(files[path := if n == 0 then files[path] else if n == 1 then written else WriteAt(written, 0, image)])
  {
    var first, second := Write(path, at, d), Write(path, 0, image);
    TwoWrites(files, path, first, second);
    assert files == files[path := files[path]];
    assert [first, second][..n] == if n == 0 then [] else if n == 1 then [first] else [first, second];
  }

  /** The states of a call: it starts from the file as it is, ends in the file `SetOn` gives, and the one
      state in between is what a failing header write would have left. */
  lemma PlanStates(files: Files, path: Path, p: Plan, fault: SetFault, n: nat)
    requires path in files && (p.Ready? ==> p.header.Typed()) && n <= |PlanChanges(path, p, fault)|
    ensures var all, file := PlanChanges(path, p, fault), files[path];
            Replay(files, all[..n]) ==
            Some(files[path := if n == |all| then CarryOut(file, p, fault).file
                               else if n == 0 then file else CarryOut(file, p, HeaderFails).file])
  {
    if p.Ready? {
      var h, cipher := p.header, p.cipher;
      if fault.WriteStops? {
        OneWriteStates(files, path, h.writeOffset, fault.left[..Min(|fault.left|, |cipher|)], n);
      } else if fault.HeaderFails? {
        OneWriteStates(files, path, h.writeOffset, cipher, n);
      } else {
        TwoWriteStates(files, path, h.writeOffset, cipher,
                       HeaderBytes(h.(writeOffset := Add64(h.writeOffset, |cipher|))), n);
      }
    } else {
      assert files == files[path := files[path]];
    }
  }

  lemma SetStates(s: Suite, files: Files, path: Path, password: seq<byte>, e: Entry, fault: SetFault, n: nat)
    requires path in files && |e.value| < U32 && n <= |SetChanges(s, path, files[path], password, e, fault)|
    ensures var all, file := SetChanges(s, path, files[path], password, e, fault), files[path];
            Replay(files, all[..n]) ==
            Some(files[path := if n == |all| then SetOn(s, file, password, e, fault).file
                               else if n == 0 then file else SetOn(s, file, password, e, HeaderFails).file])
  {
    if fault.OpenFails? {
      assert files[path := files[path]] == files;
    } else {
      var p := PlanSet(s, files[path], password, e, !fault.NoMemory?);
      PlanStates(files, path, p, fault, n);
    }
  }

  // ---------- a new store ----------

  /** The name `mkstemp` makes from its template. */
  function TempPath(path: Path, suffix: string): (temp: Path)
    ensures temp != path
  {
    assert |path + ".tmp." + suffix| > |path|;
    path + ".tmp." + suffix
  }

  /** The header of a new store before its key is sealed. */
  function NewHeader(size: nat, env: AllocateEnv): Header {
    Header(size, HEADER_SIZE, env.salt, env.iv, Zeros(SECRET_CAPACITY), 0)
  }

  ghost function SealedHeader(s: Suite, size: nat, password: seq<byte>, env: AllocateEnv): (h: Header)
    requires s.Lawful() && size < U64 && |env.xtsKey| == XTS_KEY_SIZE && password != []
    ensures h.Typed()
  {
    SecretRoundTrip(s, password, NewHeader(size, env), env.xtsKey);
    EncryptSecret(s, password, NewHeader(size, env), env.xtsKey).value
  }

  /** Random bytes of the requested size under a header. */
  ghost function NewStore(s: Suite, size: nat, password: seq<byte>, env: AllocateEnv): seq<byte>
    requires s.Lawful() && MIN_SIZE <= size < U64 && |env.xtsKey| == XTS_KEY_SIZE && password != []
  {
    Blit(Delivered(env.device, 0, size), 0, HeaderBytes(SealedHeader(s, size, password, env)))
  }

  /** Nothing goes wrong between creating the temporary file and renaming it. */
  predicate Completes(size: nat, password: seq<byte>, env: AllocateEnv) {
    && size < OFF_LIMIT && password != []
    && (env.fault.Smooth? || env.fault.NoDirectory? || env.fault.NoTempFile? || env.fault.NotRenamed?)
    && Suffice(env.deviceReads, env.writes, 0, 0, size)
  }

  /** Nothing stands in the way of an allocation but how the copying comes out. */
  ghost predicate Clear(files: Files, path: Path, size: nat, password: seq<byte>, env: AllocateEnv) {
    && 8192 <= size < OFF_LIMIT && password != [] && env.fault.Smooth?
    && |path| + |".tmp.XXXXXX"| < 4096 && path + ".tmp." + env.suffix !in files
  }

  /** A new store is a store without entries that the password opens. */
  lemma NewStoreIsEmpty(s: Suite, size: nat, password: seq<byte>, env: AllocateEnv)
    requires s.Lawful() && MIN_SIZE <= size < OFF_LIMIT && |env.xtsKey| == XTS_KEY_SIZE && password != []
    ensures Represents(s, NewStore(s, size, password, env), password,
                       Contents(SealedHeader(s, size, password, env), env.xtsKey, []))
  {
    var h, file := SealedHeader(s, size, password, env), NewStore(s, size, password, env);
    SecretRoundTrip(s, password, NewHeader(size, env), env.xtsKey);
    assert file[..HEADER_SIZE] == HeaderBytes(h);
  }

  /** Behind its header a new store holds what the device delivered. */
  lemma NewStoreBytes(s: Suite, size: nat, password: seq<byte>, env: AllocateEnv, i: nat)
    requires s.Lawful() && MIN_SIZE <= size < U64 && |env.xtsKey| == XTS_KEY_SIZE && password != []
    ensures |NewStore(s, size, password, env)| == size
    ensures HEADER_SIZE <= i < size ==> NewStore(s, size, password, env)[i] == env.device(i)
  {
  }

  lemma WriteAtEnd(s: seq<byte>, d: seq<byte>)
    ensures WriteAt(s, |s|, d) == s + d
  {
  }

  /** Changes that lead from one state to another by way of a temporary file: all are about that file, but
      for a final rename onto the path if the replacement succeeds; and in every state before the end, or in
      all of them if it fails, every other file is as it was. */
  ghost predicate Replaces(a: Files, changes: seq<Change>, b: Files, temp: Path, path: Path, ok: bool) {
    && Leads(a, changes, b)
    && (if ok then
          && changes != [] && changes[|changes| - 1] == Rename(temp, path)
          && AllAbout(changes[..|changes| - 1], temp)
        else AllAbout(changes, temp))
    && forall n :: 0 <= n <= |changes| && !(ok && n == |changes|) ==> AsBefore(a, changes, n, temp)
  }

  lemma AboutReplaces(a: Files, changes: seq<Change>, b: Files, temp: Path, path: Path)
    requires Leads(a, changes, b) && AllAbout(changes, temp)
    ensures Replaces(a, changes, b, temp, path, false)
  {
    forall n | 0 <= n <= |changes|
      ensures AsBefore(a, changes, n, temp)
    {
      AboutAsBefore(a, changes, b, temp, n);
    }
  }

  lemma NothingDone(a: Files, temp: Path, path: Path)
    ensures Replaces(a, [], a, temp, path, false)
  {
    AboutReplaces(a, [], a, temp, path);
  }

  lemma RenameReplaces(a: Files, changes: seq<Change>, b: Files, temp: Path, path: Path)
    requires Leads(a, changes, b) && AllAbout(changes, temp) && Enabled(b, Rename(temp, path))
    ensures Replaces(a, changes + [Rename(temp, path)], Apply(b, Rename(temp, path)), temp, path, true)
  {
    var last := Rename(temp, path);
    var all, c := changes + [last], Apply(b, last);
    LeadsOn(a, changes, b, last);
    assert all[..|all| - 1] == changes;
    forall n | 0 <= n < |all|
      ensures AsBefore(a, all, n, temp)
    {
      assert all[..n] == changes[..n];
      AboutAsBefore(a, all, c, temp, n);
    }
  }

  /** What may be said about the files and the journal. */
  type Invariant = (Files, seq<Change>) -> bool

  /** Creating, writing or removing one file keeps the invariant. */
  ghost predicate KeptBy(inv: Invariant, path: Path) {
    forall files, journal, c ::
      inv(files, journal) && Enabled(files, c) && !c.Rename? && c.path == path ==> inv(Apply(files, c), journal + [c])
  }

  /** The changes since a state of the journal lead from that state of the files to this one, and are all
      about one file. */
  ghost predicate Tracked(base: Files, start: seq<Change>, path: Path, files: Files, journal: seq<Change>) {
    start <= journal && Leads(base, journal[|start|..], files) && AllAbout(journal[|start|..], path)
  }

  lemma TrackedIsKept(base: Files, start: seq<Change>, path: Path)
    ensures KeptBy((files, journal) => Tracked(base, start, path, files, journal), path)
  {
    forall files, journal, c |
      Tracked(base, start, path, files, journal) && Enabled(files, c) && !c.Rename? && c.path == path
      ensures Tracked(base, start, path, Apply(files, c), journal + [c])
    {
      LeadsOn(base, journal[|start|..], files, c);
      assert (journal + [c])[|start|..] == journal[|start|..] + [c];
    }
  }

  /** All changes go through `Change`, which keeps the journal. */
  class FileSystem {
    var files: Files
    ghost var journal: seq<Change>

    method Change(c: Change)
      requires Enabled(files, c)
      modifies this
      ensures files == Apply(old(files), c) && journal == old(journal) + [c]
    {
      match c {
        case Create(path) => files := files[path := []];
        case Write(path, at, data) => files := files[path := WriteAt(files[path], at, data)];
        case Unlink(path) => files := files - {path};
        case Rename(path, to) => files := (files - {path})[to := files[path]];
      }
      journal := journal + [c];
    }

    // ---------- padlock_get ----------

    /** `stream` is the open file, with the log of its reads. */
    method Get(s: Suite, path: Path, password: seq<byte>, key: seq<byte>, opens: bool, weather: nat -> Weather)
      returns (out: GetOutcome, ghost stream: Stream?)
      requires path in files ==> |files[path]| < OFF_LIMIT
      ensures out == if opens && path in files then GetResult(s, files[path], password, key, weather) else Failed
      ensures stream != null <==> opens && path in files
      ensures stream != null ==>
                && fresh(stream) && stream.data == files[path]
                && stream.log == GetReads(s, files[path], password, key, weather)
    {
      if !opens || path !in files {
        return Failed, null;
      }
      ghost var file := files[path];
      var open := new Stream(files[path]);
      stream := open;
      var image := open.Read(0, HEADER_SIZE);
      if image.None? {
        return Failed, stream;
      }
      var header := ReadHeader(image.value);
      SameHeader(image.value, file);
      if header.None? {
        return Failed, stream;
      }
      FieldsTyped(file);
      var unsealed := DecryptSecret(s, password, header.value);
      match unsealed {
        case Wrong => return Failed, stream;
        case SecretOverruns => return Undefined, stream;
        case Opened(xtsKey) =>
          out := ScanRecords(s, xtsKey, open, header.value.writeOffset, key, weather);
      }
    }

    // ---------- padlock_set ----------

    /** Everything before the first write. */
    method Prepare(s: Suite, file: seq<byte>, password: seq<byte>, e: Entry, memory: bool) returns (p: Plan)
      requires |e.value| < U32
      ensures p == PlanSet(s, file, password, e, memory)
    {
      if |e.key| == 0 || |e.key| > 255 {
        return Denied;
      }
      var header := ReadHeader(file);
      if header.None? {
        return Denied;
      }
      var h := header.value;
      FieldsTyped(file);
      var unsealed := DecryptSecret(s, password, h);
      if !unsealed.Opened? {
        return if unsealed.Wrong? then Denied else Overruns;
      }
      var plainLength := 1 + |e.key| + 4 + |e.value|;
      var padded := PadLength(plainLength);
      if padded < 16 || Add64(h.writeOffset, padded) > h.totalSize || !memory {
        return Denied;
      }
      if padded < plainLength {
        return Overruns;
      }
      var plain := EncodeRecord(e);
      var cipher := CryptXts(s, true, unsealed.xtsKey, h.writeOffset, plain[..]);
      if cipher.None? || h.writeOffset >= OFF_LIMIT {
        return Denied;
      }
      p := Ready(h, cipher.value);
    }

    /** The writes, record first. */
    method WriteOut(path: Path, p: Plan, fault: SetFault) returns (outcome: SetOutcome)
      requires path in files && p.Ready? && p.header.Typed()
      modifies this
      ensures outcome == CarryOut(old(files)[path], p, fault).outcome
      ensures files == old(files)[path := CarryOut(old(files)[path], p, fault).file]
      ensures journal == old(journal) + PlanChanges(path, p, fault)
    {
      var at := p.header.writeOffset;
      ghost var file := files[path];
      assert files == files[path := file];
      if fault.WriteStops? {
        var left := fault.left[..Min(|fault.left|, |p.cipher|)];
        WriteStep(files, path, file, at, left);
        Change(Write(path, at, left));
        return Refused;
      }
      WriteStep(files, path, file, at, p.cipher);
      Change(Write(path, at, p.cipher));
      if fault.HeaderFails? {
        return Refused;
      }
      var image := WriteHeader(p.header.(writeOffset := Add64(at, |p.cipher|)));
      WriteStep(old(files), path, WriteAt(file, at, p.cipher), 0, image[..]);
      Change(Write(path, 0, image[..]));
      assert journal == old(journal) + [Write(path, at, p.cipher), Write(path, 0, image[..])];
      outcome := Stored;
    }

    /** The call makes exactly the changes specified, in that order, and they lead to the file `SetOn`
        gives. */
    method Set(s: Suite, path: Path, password: seq<byte>, e: Entry, fault: SetFault) returns (outcome: SetOutcome)
      requires |e.value| < U32
      modifies this
      ensures path !in old(files) ==> outcome == Refused && files == old(files) && journal == old(journal)
      ensures path in old(files) ==>
                var changes := SetChanges(s, path, old(files)[path], password, e, fault);
                && outcome == SetOn(s, old(files)[path], password, e, fault).outcome
                && files == old(files)[path := SetOn(s, old(files)[path], password, e, fault).file]
                && journal == old(journal) + changes && Leads(old(files), changes, files)
    {
      if path !in files || fault.OpenFails? {
        assert path in files ==> files == files[path := files[path]];
        return Refused;
      }
      ghost var changes := SetChanges(s, path, files[path], password, e, fault);
      SetStates(s, files, path, password, e, fault, |changes|);
      assert changes[..|changes|] == changes;
      var p := Prepare(s, files[path], password, e, !fault.NoMemory?);
      if !p.Ready? {
        assert files == files[path := files[path]];
        return if p.Overruns? then Overrun else Refused;
      }
      outcome := WriteOut(path, p, fault);
    }

    // ---------- padlock_allocate ----------

    /** The inner read loop: short and interrupted reads are continued until the chunk is full. */
    method FillBuffer(buffer: array<byte>, amount: nat, device: nat -> byte, from: nat, script: seq<ReadResult>,
            at: nat)
      returns (ok: bool, next: nat)
      requires amount <= buffer.Length
      modifies buffer
      ensures ok ==> buffer[..amount] == Delivered(device, from, amount)
      ensures AfterFill(script, at, amount) == if ok then Some(next) else None
    {
      var readTotal := 0;
      ghost var left, goal := amount, AfterFill(script, at, amount);
      next := at;
      while readTotal < amount
        invariant 0 <= readTotal <= amount && readTotal + left == amount
        invariant forall i :: 0 <= i < readTotal ==> buffer[i] == device(from + i)
        invariant AfterFill(script, next, left) == goal
        decreases |script| - next
      {
        if next >= |script| {
          return false, next;
        }
        var result := script[next];
        next := next + 1;
        if result.Interrupted? {
          continue;
        }
        if result.ReadFails? || result.count == 0 {
          return false, next;
        }
        var got := Min(result.count, amount - readTotal);
        forall i | readTotal <= i < readTotal + got {
          buffer[i] := device(from + i);
        }
        readTotal, left := readTotal + got, left - got;
      }
      ok := true;
    }

    method ChangeFile(c: Change, ghost inv: Invariant)
      requires KeptBy(inv, c.path) && inv(files, journal) && Enabled(files, c) && !c.Rename?
      modifies this
      ensures inv(files, journal)
      ensures files == Apply(old(files), c)
    {
      Change(c);
    }

    method AppendTo(path: Path, data: seq<byte>, ghost inv: Invariant)
      requires KeptBy(inv, path) && inv(files, journal) && path in files
      modifies this
      ensures inv(files, journal)
      ensures files == old(files)[path := old(files)[path] + data]
    {
      WriteAtEnd(files[path], data);
      ChangeFile(Write(path, |files[path]|, data), inv);
    }

    /** One `fwrite`: it takes as much as the script says of what there is, or nothing. */
    method WriteSome(temp: Path, data: seq<byte>, script: seq<nat>, at: nat, ghost inv: Invariant)
      returns (count: nat)
      requires KeptBy(inv, temp) && inv(files, journal) && temp in files && |files[temp]| < OFF_LIMIT
      modifies this
      ensures inv(files, journal) && temp in files && |files[temp]| < OFF_LIMIT
      ensures count == Taken(script, at, |data|) || (count == 0 && |old(files)[temp]| + |data| >= OFF_LIMIT)
      ensures count <= |data| && files[temp] == old(files)[temp] + data[..count]
    {
      count := Taken(script, at, |data|);
      if |files[temp]| + count >= OFF_LIMIT {
        return 0;
      }
      AppendTo(temp, data[..count], inv);
    }

    /** The inner write loop: short writes are continued until the chunk is out. */
    method FlushBuffer(temp: Path, buffer: array<byte>, amount: nat, script: seq<nat>, at: nat, ghost inv: Invariant)
      returns (written: nat, next: nat)
      requires KeptBy(inv, temp) && inv(files, journal) && temp in files && |files[temp]| < OFF_LIMIT
      requires amount <= buffer.Length
      modifies this
      ensures inv(files, journal) && temp in files && |files[temp]| < OFF_LIMIT
      ensures written <= amount && files[temp] == old(files)[temp] + buffer[..amount][..written]
      ensures |old(files)[temp]| + amount < OFF_LIMIT ==>
                AfterFlush(script, at, amount) == if written == amount then Some(next) else None
    {
      var chunk := buffer[..amount];
      ghost var left, goal := amount, AfterFlush(script, at, amount);
      written, next := 0, at;
      while written < amount
        invariant inv(files, journal) && temp in files && |files[temp]| < OFF_LIMIT
        invariant written + left == amount && files[temp] == old(files)[temp] + chunk[..written]
        invariant AfterFlush(script, next, left) == goal
        decreases left
      {
        var count := WriteSome(temp, chunk[written..], script, next, inv);
        if count == 0 {
          return;
        }
        SliceGrows(old(files)[temp], chunk, written, count);
        FlushStep(script, next, left, count);
        written, left, next := written + count, left - count, next + 1;
      }
    }

    /** One round of the copying loop: a chunk read from the device and written to the file. */
    method CopyChunk(temp: Path, buffer: array<byte>, remaining: nat, from: nat, env: AllocateEnv, i: nat, j: nat,
            ghost inv: Invariant)
      returns (ok: bool, written: nat, i': nat, j': nat)
      requires KeptBy(inv, temp) && inv(files, journal) && temp in files && |files[temp]| < OFF_LIMIT
      requires remaining > 0 && buffer.Length == BUFFER_SIZE
      modifies this, buffer
      ensures inv(files, journal) && temp in files && |files[temp]| < OFF_LIMIT
      ensures written <= remaining && (ok ==> written == Min(BUFFER_SIZE, remaining))
      ensures files[temp] == old(files)[temp] + Delivered(env.device, from, written)
      ensures |old(files)[temp]| + remaining < OFF_LIMIT ==>
                (Suffice(env.deviceReads, env.writes, i, j, remaining) <==>
                 ok && Suffice(env.deviceReads, env.writes, i', j', remaining - written))
    {
      var amount := Min(BUFFER_SIZE, remaining);
      written, j' := 0, j;
      ok, i' := FillBuffer(buffer, amount, env.device, from, env.deviceReads, i);
      if ok {
        written, j' := FlushBuffer(temp, buffer, amount, env.writes, j, inv);
        DeliveredPrefix(env.device, from, written, amount);
        ok := written == amount;
      }
    }

    /** However the reads and writes come out in pieces, the file grows by what the device delivered, in
        order and without gaps; on success by exactly the requested length. */
    method WriteRandom(temp: Path, length: nat, env: AllocateEnv, ghost inv: Invariant)
      returns (ok: bool, emitted: nat)
      requires KeptBy(inv, temp) && inv(files, journal) && temp in files && |files[temp]| < OFF_LIMIT
      modifies this
      ensures inv(files, journal) && temp in files && |files[temp]| < OFF_LIMIT
      ensures emitted <= length && (ok ==> emitted == length)
      ensures files[temp] == old(files)[temp] + Delivered(env.device, 0, emitted)
      ensures |old(files)[temp]| + length < OFF_LIMIT ==>
                (ok <==> !env.fault.NoRandomBytes? && Suffice(env.deviceReads, env.writes, 0, 0, length))
    {
      var buffer := new byte[BUFFER_SIZE](_ => 0);
      var remaining, i, j := length, 0, 0;
      emitted := 0;
      if env.fault.NoRandomBytes? {
        return false, emitted;
      }
      while remaining > 0
        invariant inv(files, journal) && temp in files && |files[temp]| < OFF_LIMIT
        invariant emitted + remaining == length
        invariant files[temp] == old(files)[temp] + Delivered(env.device, 0, emitted)
        invariant |old(files)[temp]| + length < OFF_LIMIT ==>
                    Suffice(env.deviceReads, env.writes, i, j, remaining) ==
                    Suffice(env.deviceReads, env.writes, 0, 0, length)
      {
        var written;
        ok, written, i, j := CopyChunk(temp, buffer, remaining, emitted, env, i, j, inv);
        DeliveredParts(old(files)[temp], env.device, emitted, written);
        emitted, remaining := emitted + written, remaining - written;
        if !ok {
          return;
        }
      }
      ok := true;
    }

    /** Everything that happens to the temporary file before it takes its final name. */
    method Populate(s: Suite, temp: Path, size: nat, password: seq<byte>, env: AllocateEnv, ghost inv: Invariant)
      returns (ok: bool)
      requires s.Lawful() && MIN_SIZE <= size < U64 && |env.xtsKey| == XTS_KEY_SIZE
      requires KeptBy(inv, temp) && inv(files, journal)
      requires temp in files && files[temp] == []
      modifies this
      ensures inv(files, journal)
      ensures ok <==> Completes(size, password, env)
      ensures temp in files && (ok ==> files[temp] == NewStore(s, size, password, env))
    {
      if env.fault.NoMode? || env.fault.NoStream? {
        return false;
      }
      var filled, emitted := WriteRandom(temp, size, env, inv);
      if !filled {
        return false;
      }
      assert files[temp] == Delivered(env.device, 0, size);
      SecretRoundTrip(s, password, NewHeader(size, env), env.xtsKey);
      var header := EncryptSecret(s, password, NewHeader(size, env), env.xtsKey);
      if header.None? || env.fault.HeaderNotWritten? {
        return false;
      }
      var image := WriteHeader(header.value);
      ChangeFile(Write(temp, 0, image[..]), inv);
      ok := !env.fault.NotFlushed? && !env.fault.NotClosed?;
    }

    /** Atomic replacement. The changes lead step by step to the result; all of them but a final rename are
        about the temporary file; so at every step every other file is as before, the path included, until the
        rename puts a complete empty store in its place. A failure leaves nothing behind. */
    method Allocate(s: Suite, path: Path, size: nat, password: seq<byte>, env: AllocateEnv) returns (ok: bool)
      requires s.Lawful() && size < U64 && |env.xtsKey| == XTS_KEY_SIZE && |env.suffix| == 6
      modifies this
      ensures ok <==> Clear(old(files), path, size, password, env) && Suffice(env.deviceReads, env.writes, 0, 0, size)
      ensures Clear(old(files), path, size, password, env) && Plenty(env.deviceReads, env.writes, size) ==> ok
      ensures files == if ok then old(files)[path := NewStore(s, size, password, env)] else old(files)
      ensures ok ==> Represents(s, files[path], password,
                                Contents(SealedHeader(s, size, password, env), env.xtsKey, []))
      ensures old(journal) <= journal
      ensures Replaces(old(files), journal[|old(journal)|..], files, TempPath(path, env.suffix), path, ok)
    {
      var temp := TempPath(path, env.suffix);
      PlentySuffices(env.deviceReads, env.writes, size);
      ghost var base, start := files, journal;
      ghost var inv: Invariant := (files, journal) => Tracked(base, start, temp, files, journal);
      TrackedIsKept(base, start, temp);
      if size < MIN_SIZE || env.fault.NoDirectory? || |path| + |".tmp.XXXXXX"| >= PATH_MAX
         || env.fault.NoTempFile? || temp in files
      {
        NothingDone(base, temp, path);
        return false;
      }
      ChangeFile(Create(temp), inv);
      ok := Populate(s, temp, size, password, env, inv);
      ghost var done, full := journal[|start|..], files;
      AboutKeeps(base, done, full, temp);
      assert full - {temp} == base;
      if !ok || env.fault.NotRenamed? {
        ChangeFile(Unlink(temp), inv);
        AboutReplaces(base, journal[|start|..], files, temp, path);
        return false;
      }
      Change(Rename(temp, path));
      assert journal[|start|..] == done + [Rename(temp, path)];
      RenameReplaces(base, done, full, temp, path);
      NewStoreIsEmpty(s, size, password, env);
    }
  }
}
