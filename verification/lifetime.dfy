/** From allocation on: what a store created by `padlock_allocate` promises for its whole life. */
module Lifetime {
  import opened Bytes
  import opened Cipher
  import opened Header
  import opened Records
  import opened Scan
  import opened Append
  import opened Store
  import opened Runs
  import opened Journal
  import opened FileSystems

  /** A life of a store: allocated with a password, then any calls with any passwords. */
  ghost predicate IsLife(s: Suite, size: nat, password: seq<byte>, env: AllocateEnv, files: seq<seq<byte>>,
          calls: seq<Call>)
  {
    && s.Lawful() && MIN_SIZE <= size < OFF_LIMIT && |env.xtsKey| == XTS_KEY_SIZE && password != []
    && IsCallRun(s, files, calls) && files[0] == NewStore(s, size, password, env)
  }

  ghost function Born(s: Suite, size: nat, password: seq<byte>, env: AllocateEnv): Contents
    requires s.Lawful() && size < U64 && |env.xtsKey| == XTS_KEY_SIZE && password != []
  {
    Contents(SealedHeader(s, size, password, env), env.xtsKey, [])
  }

  /** The last value wins: at every point of every life at which every effective call so far wrote the record
      of the store's own key, reading a key returns the value of the last effective call with that key and fails
      if there is none. And exactly at these points the file is a store with the entries of the effective calls. */
  lemma LastValueWins(s: Suite, size: nat, password: seq<byte>, env: AllocateEnv, files: seq<seq<byte>>,
          calls: seq<Call>, n: nat, key: seq<byte>)
    requires IsLife(s, size, password, env, files, calls) && n <= |calls|
    ensures var born := Born(s, size, password, env);
            && (AllFaithful(s, born, calls[..n]) <==>
                Represents(s, files[n], password, After(s, born, calls[..n])))
            && var m := MapOf(After(s, born, calls[..n]).log);
            AllFaithful(s, born, calls[..n]) ==>
              GetResult(s, files[n], password, key, _ => Calm) == if key in m then Found(m[key]) else Failed
  {
    var born := Born(s, size, password, env);
    NewStoreIsEmpty(s, size, password, env);
    RunRefines(s, files, password, born, calls, n);
    if AllFaithful(s, born, calls[..n]) {
      RunIsMap(s, files, password, born, calls, n, key, _ => Calm);
    }
  }

  /** The same, told from the calls: as long as every call was faithful, a read answers a value exactly if the last
      effective call with that key carried it, and fails if there was none. */
  lemma LastCallWins(s: Suite, size: nat, password: seq<byte>, env: AllocateEnv, files: seq<seq<byte>>,
          calls: seq<Call>, n: nat, key: seq<byte>, value: seq<byte>)
    requires IsLife(s, size, password, env, files, calls) && n <= |calls|
    requires AllFaithful(s, Born(s, size, password, env), calls[..n])
    ensures var born, answer := Born(s, size, password, env), GetResult(s, files[n], password, key, _ => Calm);
            && (answer == Found(value) <==> SetLast(s, born, calls, n, key, value))
            && (answer.Found? || answer == Failed)
  {
    var born := Born(s, size, password, env);
    NewStoreIsEmpty(s, size, password, env);
    RunRefines(s, files, password, born, calls, n);
    GetRefinesLookup(s, files[n], password, After(s, born, calls[..n]), key, _ => Calm);
    LogIsCalls(s, born, calls, n, key, value);
  }

  /** A password that does not unseal the new store is locked out for life: every read with it fails, and every
      call with it leaves the file alone. */
  lemma LockedOutForLife(s: Suite, size: nat, password: seq<byte>, env: AllocateEnv, files: seq<seq<byte>>,
          calls: seq<Call>, n: nat, other: seq<byte>, key: seq<byte>, weather: nat -> Weather)
    requires IsLife(s, size, password, env, files, calls) && n <= |calls|
    requires var h := SealedHeader(s, size, password, env);
             h.encryptedSecretSize <= |h.encryptedSecret| && Locked(s, h, other)
    ensures GetResult(s, files[n], other, key, weather) == Failed
    ensures n < |calls| && calls[n].password == other ==> files[n + 1] == files[n]
  {
    NewStoreIsEmpty(s, size, password, env);
    RunLocksOut(s, files, SealedHeader(s, size, password, env), calls, n, other, key, weather);
  }

  /** What was stored faithfully is found for life: whatever calls with whatever passwords follow, a read finds
      these entries first, and only what the store's key reads behind them can change its answer. */
  lemma StoredForLife(s: Suite, size: nat, password: seq<byte>, env: AllocateEnv, files: seq<seq<byte>>,
          calls: seq<Call>, m: nat, n: nat, key: seq<byte>)
    requires IsLife(s, size, password, env, files, calls) && m <= n <= |calls|
    requires AllFaithful(s, Born(s, size, password, env), calls[..m])
    ensures var born := Born(s, size, password, env);
            var log, limit := After(s, born, calls[..m]).log, After(s, born, calls[..n]).header.writeOffset;
            && Start(log, |log|) <= limit
            && var read := FileReader(s, env.xtsKey, files[n], limit, key, _ => Calm);
            GetResult(s, files[n], password, key, _ => Calm) ==
            Answer(log, WalkFrom(read, limit, Start(log, |log|)), key)
  {
    NewStoreIsEmpty(s, size, password, env);
    RunAnswers(s, files, password, Born(s, size, password, env), calls, m, n, key, _ => Calm);
  }

  /** A call cut off between two writes: in every state that the changes of a call pass through, and in the
      final one too unless the call takes effect, every read answers as before the call. */
  lemma CutOffCall(s: Suite, files: Files, path: Path, h: Header, call: Call, n: nat, reader: seq<byte>,
          key: seq<byte>, weather: nat -> Weather)
    requires s.Lawful() && path in files && Shaped(files[path], h) && call.InWidth()
    requires var all := SetChanges(s, path, files[path], call.password, call.entry, call.fault);
             n <= |all| && (n == |all| ==> !Effective(s, h, call))
    ensures var all := SetChanges(s, path, files[path], call.password, call.entry, call.fault);
            var mid := Replay(files, all[..n]);
            && mid.Some? && path in mid.value
            && GetResult(s, mid.value[path], reader, key, weather) == GetResult(s, files[path], reader, key, weather)
  {
    SetStates(s, files, path, call.password, call.entry, call.fault, n);
    CommitPoint(s, files[path], h, call.(fault := HeaderFails), reader, key, weather);
    if !Effective(s, h, call) {
      CommitPoint(s, files[path], h, call, reader, key, weather);
    }
  }

  /** So at every instant of every life, also when the next call is cut off after any of its writes but the
      last, every read with any password answers as after the last complete call; and the last value wins. */
  lemma LastValueWinsAtEveryInstant(s: Suite, size: nat, password: seq<byte>, env: AllocateEnv,
          files: seq<seq<byte>>, calls: seq<Call>, n: nat, disk: Files, path: Path, k: nat, reader: seq<byte>,
          key: seq<byte>, weather: nat -> Weather)
    requires IsLife(s, size, password, env, files, calls) && n < |calls|
    requires path in disk && disk[path] == files[n] && CallStep(s, files[n], calls[n], files[n + 1])
    requires k < |SetChanges(s, path, files[n], calls[n].password, calls[n].entry, calls[n].fault)|
    ensures var all := SetChanges(s, path, files[n], calls[n].password, calls[n].entry, calls[n].fault);
            var mid, born := Replay(disk, all[..k]), Born(s, size, password, env);
            var m := MapOf(After(s, born, calls[..n]).log);
            && mid.Some? && path in mid.value
            && GetResult(s, mid.value[path], reader, key, weather) == GetResult(s, files[n], reader, key, weather)
            && (AllFaithful(s, born, calls[..n]) ==>
                  GetResult(s, mid.value[path], password, key, _ => Calm) ==
                  if key in m then Found(m[key]) else Failed)
  {
    var born, call := Born(s, size, password, env), calls[n];
    NewStoreIsEmpty(s, size, password, env);
    RunFramed(s, files, password, born, calls, n);
    LastValueWins(s, size, password, env, files, calls, n, key);
    CutOffCall(s, disk, path, After(s, born, calls[..n]).header, call, k, reader, key, weather);
    CutOffCall(s, disk, path, After(s, born, calls[..n]).header, call, k, password, key, _ => Calm);
  }

  /** The size and the key of a store never change, whatever the calls and their passwords: at every point the
      file has the allocated size, its header says so and has the salt and the iv drawn at allocation, and the
      allocating password recovers the key drawn there. */
  lemma SizeAndKeyPersist(s: Suite, size: nat, password: seq<byte>, env: AllocateEnv, files: seq<seq<byte>>,
          calls: seq<Call>, n: nat)
    requires IsLife(s, size, password, env, files, calls) && n <= |calls|
    ensures |files[n]| == size
    ensures ParseHeader(files[n]).Some?
    ensures var h := ParseHeader(files[n]).value;
            && h.totalSize == size && h.encryptedSecretSize == SEALED_SIZE <= |h.encryptedSecret|
            && h.salt == env.salt && h.iv == env.iv
            && DecryptSecret(s, password, h) == Opened(env.xtsKey)
  {
    var born := Born(s, size, password, env);
    NewStoreIsEmpty(s, size, password, env);
    RunFramed(s, files, password, born, calls, n);
    AfterKeeps(s, born, calls[..n]);
    SecretRoundTrip(s, password, NewHeader(size, env), env.xtsKey);
    HeaderRoundTrip(files[n], After(s, born, calls[..n]).header);
  }
}
