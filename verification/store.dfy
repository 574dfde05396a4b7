/** The encrypted file as an append-only map: what every call keeps and what reads give back. */
module Store {
  import opened Bytes
  import opened Words
  import opened Cipher
  import opened Header
  import opened Records
  import opened Scan
  import opened Append

  // ---------- the abstraction ----------

  /** What a file stands for. */
  datatype Contents = Contents(header: Header, xtsKey: seq<byte>, log: seq<Entry>)

  lemma WholeBlocks(a: nat, b: nat)
    requires a % BLOCK == 0 && b % BLOCK == 0
    ensures (a + b) % BLOCK == 0
  {
  }

  /** Where record i of a log starts; with i the length of the log, where the next one goes. */
  function Start(log: seq<Entry>, i: nat): (at: nat)
    requires i <= |log|
    ensures at >= HEADER_SIZE && at % BLOCK == 0
  {
    if i == 0 then HEADER_SIZE
    else
      WholeBlocks(Start(log, i - 1), PaddedLength(log[i - 1]));
      Start(log, i - 1) + PaddedLength(log[i - 1])
  }

  ghost predicate Written(s: Suite, file: seq<byte>, c: Contents, i: nat)
    requires i < |c.log|
  {
    && c.log[i].Storable()
    && Start(c.log, i + 1) <= |file|
    && CryptXts(s, true, c.xtsKey, Start(c.log, i), RecordBytes(c.log[i])) ==
       Some(file[Start(c.log, i)..Start(c.log, i + 1)])
  }

  /** The file has the length its header says, and a header as this code writes it. */
  ghost predicate Shaped(file: seq<byte>, h: Header) {
    && h.Typed() && h.InBounds() && h.encryptedSecretSize == SEALED_SIZE
    && |file| == h.totalSize < OFF_LIMIT
    && file[..HEADER_SIZE] == HeaderBytes(h)
  }

  /** The password opens the file to the key, and the write offset is where the next record goes. */
  ghost predicate Framed(s: Suite, file: seq<byte>, password: seq<byte>, c: Contents) {
    && s.Lawful() && Shaped(file, c.header)
    && DecryptSecret(s, password, c.header) == Opened(c.xtsKey)
    && c.header.writeOffset == Start(c.log, |c.log|)
  }

  /** The records of the log stand in the file, one after the other. */
  ghost predicate Begins(s: Suite, file: seq<byte>, c: Contents) {
    forall i :: 0 <= i < |c.log| ==> Written(s, file, c, i)
  }

  /** The file is a store with these contents, readable with this password. */
  ghost predicate Represents(s: Suite, file: seq<byte>, password: seq<byte>, c: Contents) {
    Framed(s, file, password, c) && Begins(s, file, c)
  }

  lemma {:induction false} StartMonotone(log: seq<Entry>, i: nat, j: nat)
    requires i <= j <= |log|
    ensures Start(log, i) <= Start(log, j)
    decreases j
  {
    if i < j {
      StartMonotone(log, i, j - 1);
    }
  }

  lemma {:induction false} StartOfPrefix(log: seq<Entry>, more: seq<Entry>, i: nat)
    requires i <= |log|
    ensures Start(log + more, i) == Start(log, i)
  {
    if i != 0 {
      StartOfPrefix(log, more, i - 1);
    }
  }

  // ---------- reading ----------

  function RecOf(e: Entry): (r: Rec)
    requires e.Storable()
    ensures r.Typed() && r.Fits()
  {
    Rec(|e.key|, |e.value|, PaddedLength(e), RecordBytes(e))
  }

  lemma ShorterSlice(file: seq<byte>, at: nat, m: nat, n: nat)
    requires n <= m && at + m <= |file|
    ensures file[at..at + m][..n] == file[at..at + n]
  {
  }

  lemma StageOfStore(s: Suite, file: seq<byte>, c: Contents, i: nat, n: nat)
    requires s.Lawful() && i < |c.log| && Written(s, file, c, i)
    requires 0 < n <= PaddedLength(c.log[i]) && n % BLOCK == 0
    ensures DecryptAt(s, c.xtsKey, file, Start(c.log, i), n) == Some(RecordBytes(c.log[i])[..n])
  {
    var at, plain := Start(c.log, i), RecordBytes(c.log[i]);
    assert Start(c.log, i + 1) == at + |plain|;
    ShorterSlice(file, at, |plain|, n);
    StagedDecryption(s, c.xtsKey, at, plain, n);
  }

  lemma KeySizeOfStore(s: Suite, file: seq<byte>, c: Contents, i: nat)
    requires s.Lawful() && i < |c.log| && Written(s, file, c, i)
    ensures KeySizeAt(s, c.xtsKey, file, Start(c.log, i)) == Some(|c.log[i].key|)
  {
    RecordLayout(c.log[i]);
    StageOfStore(s, file, c, i, BLOCK);
  }

  /** The lengths `get` computes for a stored entry. */
  lemma EntrySizes(e: Entry)
    requires e.Storable()
    ensures BLOCK <= Rounded(1 + |e.key| + 4) <= PaddedLength(e) == Rounded(EntryLength32(|e.key|, |e.value|))
  {
    RoundingWraps(e.PlainLength());
    RoundingMonotone(1 + |e.key| + 4, e.PlainLength());
  }

  lemma ValueLengthOfStore(s: Suite, file: seq<byte>, c: Contents, i: nat, limit: nat)
    requires s.Lawful() && i < |c.log| && Written(s, file, c, i)
    requires Start(c.log, i) + PaddedLength(c.log[i]) <= limit
    ensures ValueLengthAt(s, c.xtsKey, file, limit, Start(c.log, i), |c.log[i].key|) == Some(|c.log[i].value|)
  {
    var e := c.log[i];
    var k, prefix := |e.key|, Rounded(1 + |e.key| + 4);
    EntrySizes(e);
    StageOfStore(s, file, c, i, prefix);
    SliceOfPrefix(RecordBytes(e), prefix, 1 + k, 5 + k);
    RecordLayout(e);
  }

  lemma WholeOfStore(s: Suite, file: seq<byte>, c: Contents, i: nat, limit: nat)
    requires s.Lawful() && i < |c.log| && Written(s, file, c, i)
    requires Start(c.log, i) + PaddedLength(c.log[i]) <= limit
    ensures RecordAt(s, c.xtsKey, file, limit, Start(c.log, i), |c.log[i].key|, |c.log[i].value|) ==
            Some(RecOf(c.log[i]))
  {
    var e := c.log[i];
    StageOfStore(s, file, c, i, PaddedLength(e));
    assert RecordBytes(e)[..PaddedLength(e)] == RecordBytes(e);
    EntrySizes(e);
  }

  /** One round of the scan at the start of a record returns that record. */
  lemma RoundOfStore(s: Suite, file: seq<byte>, c: Contents, i: nat, limit: nat)
    requires s.Lawful() && i < |c.log| && Written(s, file, c, i)
    requires Start(c.log, i) + PaddedLength(c.log[i]) <= limit
    ensures ReadRecord(s, c.xtsKey, file, limit, Start(c.log, i)) == Some(RecOf(c.log[i]))
  {
    KeySizeOfStore(s, file, c, i);
    ValueLengthOfStore(s, file, c, i, limit);
    WholeOfStore(s, file, c, i, limit);
  }

  /** The records of a log, as a scan sees them. */
  function RecsOf(log: seq<Entry>): (recs: seq<Rec>)
    requires forall e <- log :: e.Storable()
    ensures |recs| == |log| && forall r <- recs :: r.Typed() && r.Fits()
  {
    seq(|log|, i requires 0 <= i < |log| => RecOf(log[i]))
  }

  lemma StoredEntries(s: Suite, file: seq<byte>, c: Contents)
    requires Begins(s, file, c)
    ensures forall e <- c.log :: e.Storable()
  {
    forall e <- c.log
      ensures e.Storable()
    {
      var i :| 0 <= i < |c.log| && c.log[i] == e;
      assert Written(s, file, c, i);
    }
  }

  /** Records that follow one another from the i-th on. */
  ghost predicate Chained(recs: seq<Rec>, at: seq<nat>, i: nat) {
    && i <= |recs| && |at| == |recs| + 1
    && forall j :: i <= j < |recs| ==> recs[j].Typed() && at[j + 1] == at[j] + recs[j].padded
  }

  lemma {:induction false} ChainedUp(recs: seq<Rec>, at: seq<nat>, i: nat)
    requires Chained(recs, at, i)
    ensures at[i] <= at[|recs|] && (i < |recs| ==> at[i] + BLOCK <= at[|recs|])
    decreases |recs| - i
  {
    if i < |recs| {
      ChainedUp(recs, at, i + 1);
    }
  }

  /** A walk over records that follow one another visits them in order and goes on behind them. */
  lemma {:induction false} WalkOverRecs(read: Reader, limit: nat, recs: seq<Rec>, at: seq<nat>, i: nat)
    requires Chained(recs, at, i) && at[|recs|] <= limit && Advances(read, limit)
    requires forall j :: i <= j < |recs| ==> read(at[j]).rec == Some(recs[j])
    ensures at[i] <= limit
    ensures var w, rest := WalkFrom(read, limit, at[i]), WalkFrom(read, limit, at[|recs|]);
            w == Walk(recs[i..] + rest.recs, rest.clean, rest.end)
    decreases |recs| - i
  {
    ChainedUp(recs, at, i);
    var rest := WalkFrom(read, limit, at[|recs|]);
    if i < |recs| {
      WalkOverRecs(read, limit, recs, at, i + 1);
      assert recs[i..] + rest.recs == [recs[i]] + (recs[i + 1..] + rest.recs);
    } else {
      assert recs[i..] + rest.recs == rest.recs;
    }
  }

  /** If a round fails, the walk has visited records of the list only, and breaks off. */
  lemma {:induction false} WalkBreaksOff(read: Reader, limit: nat, recs: seq<Rec>, at: seq<nat>, i: nat, k: nat)
    requires Chained(recs, at, i) && at[|recs|] <= limit && Advances(read, limit)
    requires forall j :: i <= j < |recs| ==> read(at[j]).rec == None || read(at[j]).rec == Some(recs[j])
    requires i <= k < |recs| && read(at[k]).rec == None
    ensures at[i] <= limit
    ensures WalkFrom(read, limit, at[i]).recs <= recs[i..] && !WalkFrom(read, limit, at[i]).clean
    decreases |recs| - i
  {
    ChainedUp(recs, at, i);
    if read(at[i]).rec.Some? {
      WalkBreaksOff(read, limit, recs, at, i + 1, k);
      assert recs[i..] == [recs[i]] + recs[i + 1..];
    }
  }

  /** The environment keeps the scan from a record: a step of the round fails, or the record has the key and
      there is no memory for its value. */
  predicate Lost(log: seq<Entry>, weather: nat -> Weather, key: seq<byte>, j: nat)
    requires j < |log|
  {
    var w := weather(Start(log, j));
    w.Stops? || (w.NoRoom? && log[j].key == key)
  }

  /** Some record of the log is lost to the environment. */
  ghost predicate Disturbed(log: seq<Entry>, weather: nat -> Weather, key: seq<byte>) {
    exists j :: 0 <= j < |log| && Lost(log, weather, key, j)
  }

  lemma MatchOfEntry(e: Entry, key: seq<byte>)
    requires e.Storable()
    ensures RecOf(e).Matches(key) <==> e.key == key
  {
    RecordLayout(e);
  }

  /** What a reader makes of a round that finds the record of an entry. */
  lemma ReaderOfEntry(s: Suite, xtsKey: seq<byte>, file: seq<byte>, limit: nat, key: seq<byte>, weather: nat -> Weather,
          at: nat, e: Entry)
    requires e.Storable() && ReadRecord(s, xtsKey, file, limit, at) == Some(RecOf(e))
    ensures FileReader(s, xtsKey, file, limit, key, weather)(at).rec ==
            if weather(at).Stops? || (weather(at).NoRoom? && e.key == key) then None else Some(RecOf(e))
  {
    MatchOfEntry(e, key);
  }

  lemma ReaderOfStore(s: Suite, file: seq<byte>, c: Contents, limit: nat, j: nat, key: seq<byte>,
          weather: nat -> Weather)
    requires s.Lawful() && j < |c.log| && Written(s, file, c, j) && Start(c.log, j + 1) <= limit
    ensures FileReader(s, c.xtsKey, file, limit, key, weather)(Start(c.log, j)).rec ==
            if Lost(c.log, weather, key, j) then None else Some(RecOf(c.log[j]))
  {
    RoundOfStore(s, file, c, j, limit);
    ReaderOfEntry(s, c.xtsKey, file, limit, key, weather, Start(c.log, j), c.log[j]);
  }

  function Starts(log: seq<Entry>): (at: seq<nat>)
    ensures |at| == |log| + 1 && forall j :: 0 <= j <= |log| ==> at[j] == Start(log, j)
  {
    seq(|log| + 1, j requires 0 <= j <= |log| => Start(log, j))
  }

  lemma ChainOfLog(log: seq<Entry>)
    requires forall e <- log :: e.Storable()
    ensures Chained(RecsOf(log), Starts(log), 0)
  {
    var recs, at := RecsOf(log), Starts(log);
    forall j | 0 <= j < |recs|
      ensures recs[j].Typed() && at[j + 1] == at[j] + recs[j].padded
    {
      assert recs[j] == RecOf(log[j]);
    }
  }

  ghost predicate ReadsLog(read: Reader, log: seq<Entry>, weather: nat -> Weather, key: seq<byte>)
    requires forall e <- log :: e.Storable()
  {
    forall j :: 0 <= j < |log| ==>
      read(Start(log, j)).rec == if Lost(log, weather, key, j) then None else Some(RecsOf(log)[j])
  }

  lemma WalkOverLog(read: Reader, limit: nat, log: seq<Entry>, weather: nat -> Weather, key: seq<byte>)
    requires Advances(read, limit) && Start(log, |log|) <= limit
    requires (forall e <- log :: e.Storable()) && ReadsLog(read, log, weather, key)
    ensures HEADER_SIZE <= limit
    ensures var w, rest := WalkFrom(read, limit, HEADER_SIZE), WalkFrom(read, limit, Start(log, |log|));
            if Disturbed(log, weather, key) then w.recs <= RecsOf(log) && !w.clean
            else w == Walk(RecsOf(log) + rest.recs, rest.clean, rest.end)
  {
    var recs, at := RecsOf(log), Starts(log);
    ChainOfLog(log);
    assert recs[0..] == recs;
    if Disturbed(log, weather, key) {
      var k :| 0 <= k < |log| && Lost(log, weather, key, k);
      WalkBreaksOff(read, limit, recs, at, 0, k);
    } else {
      WalkOverRecs(read, limit, recs, at, 0);
    }
  }

  /** Whatever follows the records of a log, a scan visits these first, and all of them unless the environment
      disturbs it; then it goes on with whatever the key reads behind them. */
  lemma ScanOfPrefix(s: Suite, file: seq<byte>, c: Contents, limit: nat, key: seq<byte>, weather: nat -> Weather)
    requires s.Lawful() && Begins(s, file, c) && Start(c.log, |c.log|) <= limit
    ensures (forall e <- c.log :: e.Storable()) && HEADER_SIZE <= limit
    ensures var read := FileReader(s, c.xtsKey, file, limit, key, weather);
            var w, rest := WalkFrom(read, limit, HEADER_SIZE), WalkFrom(read, limit, Start(c.log, |c.log|));
            if Disturbed(c.log, weather, key) then w.recs <= RecsOf(c.log) && !w.clean
            else w == Walk(RecsOf(c.log) + rest.recs, rest.clean, rest.end)
  {
    var read := FileReader(s, c.xtsKey, file, limit, key, weather);
    StoredEntries(s, file, c);
    forall j | 0 <= j < |c.log|
      ensures read(Start(c.log, j)).rec == if Lost(c.log, weather, key, j) then None else Some(RecsOf(c.log)[j])
    {
      assert Written(s, file, c, j);
      StartMonotone(c.log, j + 1, |c.log|);
      ReaderOfStore(s, file, c, limit, j, key, weather);
    }
    WalkOverLog(read, limit, c.log, weather, key);
  }

  /** Scan inverts append: the loop visits records of the log only, in order from the first; unless the
      environment disturbs it, it visits all of them and stops at the write offset without an error. */
  lemma ScanInvertsAppend(s: Suite, file: seq<byte>, password: seq<byte>, c: Contents, key: seq<byte>,
          weather: nat -> Weather)
    requires Represents(s, file, password, c)
    ensures forall e <- c.log :: e.Storable()
    ensures var limit := c.header.writeOffset;
            var w := WalkFrom(FileReader(s, c.xtsKey, file, limit, key, weather), limit, HEADER_SIZE);
            && w.recs <= RecsOf(c.log)
            && (w.clean <==> !Disturbed(c.log, weather, key))
            && (w.clean ==> w == Walk(RecsOf(c.log), true, limit))
  {
    ScanOfPrefix(s, file, c, c.header.writeOffset, key, weather);
    assert RecsOf(c.log) + [] == RecsOf(c.log);
  }

  // ---------- the reads of a store ----------

  /** Three reads a record, all from its start: a block, the blocks of the key and the length, the record. */
  function EntryReads(log: seq<Entry>, i: nat): seq<Range>
    requires i < |log|
  {
    var at := Start(log, i);
    [Range(at, BLOCK), Range(at, RoundUp16(1 + |log[i].key| + 4)), Range(at, PaddedLength(log[i]))]
  }

  /** The ranges of the chunks from the i-th on. */
  function Flat(chunks: seq<seq<Range>>, i: nat): seq<Range>
    requires i <= |chunks|
    decreases |chunks| - i
  {
    if i == |chunks| then [] else chunks[i] + Flat(chunks, i + 1)
  }

  function ReadsByEntry(log: seq<Entry>): (chunks: seq<seq<Range>>)
    ensures |chunks| == |log| && forall j :: 0 <= j < |log| ==> chunks[j] == EntryReads(log, j)
  {
    seq(|log|, j requires 0 <= j < |log| => EntryReads(log, j))
  }

  lemma RoundReadsOfStore(s: Suite, file: seq<byte>, c: Contents, i: nat, limit: nat)
    requires s.Lawful() && i < |c.log| && Written(s, file, c, i)
    requires Start(c.log, i) + PaddedLength(c.log[i]) <= limit
    ensures RoundReads(s, c.xtsKey, file, limit, Calm, Start(c.log, i)) == EntryReads(c.log, i)
  {
    KeySizeOfStore(s, file, c, i);
    ValueLengthOfStore(s, file, c, i, limit);
    EntrySizes(c.log[i]);
  }

  lemma {:induction false} ReadsOverRecs(read: Reader, limit: nat, recs: seq<Rec>, at: seq<nat>,
          chunks: seq<seq<Range>>, key: seq<byte>, i: nat)
    requires Chained(recs, at, i) && |recs| == |chunks| && at[|recs|] == limit && Advances(read, limit)
    requires forall j :: i <= j < |recs| ==> recs[j].Fits()
    requires forall j :: i <= j < |recs| ==> read(at[j]) == Round(Some(recs[j]), chunks[j])
    ensures at[i] <= limit && ScanReads(read, limit, at[i], key) == Flat(chunks, i)
    decreases |recs| - i
  {
    ChainedUp(recs, at, i);
    if i < |recs| {
      ReadsOverRecs(read, limit, recs, at, chunks, key, i + 1);
    }
  }

  lemma CalmRound(s: Suite, file: seq<byte>, c: Contents, limit: nat, j: nat, key: seq<byte>)
    requires s.Lawful() && j < |c.log| && Written(s, file, c, j) && Start(c.log, j + 1) <= limit
    ensures FileReader(s, c.xtsKey, file, limit, key, _ => Calm)(Start(c.log, j)) ==
            Round(Some(RecOf(c.log[j])), EntryReads(c.log, j))
  {
    ReaderOfStore(s, file, c, limit, j, key, _ => Calm);
    RoundReadsOfStore(s, file, c, j, limit);
  }

  lemma CalmRounds(s: Suite, file: seq<byte>, c: Contents, limit: nat, key: seq<byte>)
    requires s.Lawful() && Begins(s, file, c) && Start(c.log, |c.log|) <= limit
    ensures forall e <- c.log :: e.Storable()
    ensures forall j :: 0 <= j < |c.log| ==>
              FileReader(s, c.xtsKey, file, limit, key, _ => Calm)(Starts(c.log)[j]) ==
              Round(Some(RecsOf(c.log)[j]), ReadsByEntry(c.log)[j])
  {
    StoredEntries(s, file, c);
    forall j | 0 <= j < |c.log|
      ensures FileReader(s, c.xtsKey, file, limit, key, _ => Calm)(Starts(c.log)[j]) ==
              Round(Some(RecsOf(c.log)[j]), ReadsByEntry(c.log)[j])
    {
      assert Written(s, file, c, j);
      StartMonotone(c.log, j + 1, |c.log|);
      CalmRound(s, file, c, limit, j, key);
    }
  }

  lemma ScanReadsOfStore(s: Suite, file: seq<byte>, c: Contents, key: seq<byte>)
    requires s.Lawful() && Begins(s, file, c)
    ensures var limit := Start(c.log, |c.log|);
            ScanReads(FileReader(s, c.xtsKey, file, limit, key, _ => Calm), limit, HEADER_SIZE, key) ==
            Flat(ReadsByEntry(c.log), 0)
  {
    var limit := Start(c.log, |c.log|);
    CalmRounds(s, file, c, limit, key);
    ChainOfLog(c.log);
    ReadsOverRecs(FileReader(s, c.xtsKey, file, limit, key, _ => Calm), limit, RecsOf(c.log), Starts(c.log),
                  ReadsByEntry(c.log), key, 0);
  }

  /** On a store and undisturbed, the scan reads every record exactly three times, in order, and nothing
      else. */
  lemma StoreReads(s: Suite, file: seq<byte>, password: seq<byte>, c: Contents, key: seq<byte>)
    requires Represents(s, file, password, c)
    ensures GetReads(s, file, password, key, _ => Calm) == [Range(0, HEADER_SIZE)] + Flat(ReadsByEntry(c.log), 0)
  {
    HeaderRoundTrip(file, c.header);
    ScanReadsOfStore(s, file, c, key);
  }

  /** Looking up a key in the records of a log is looking it up in the log. */
  lemma {:induction false} MatchIsLookup(log: seq<Entry>, key: seq<byte>)
    requires forall e <- log :: e.Storable()
    ensures LastMatch(RecsOf(log), key) == Lookup(log, key)
  {
    if log != [] {
      var init, e := log[..|log| - 1], log[|log| - 1];
      assert RecsOf(log)[..|log| - 1] == RecsOf(init);
      assert RecsOf(log)[|log| - 1] == RecOf(e);
      RecordLayout(e);
      MatchIsLookup(init, key);
    }
  }

  lemma {:induction false} LastMatchOver(recs: seq<Rec>, more: seq<Rec>, key: seq<byte>)
    requires Harmless(recs, key) && Harmless(more, key)
    ensures Harmless(recs + more, key)
    ensures LastMatch(recs + more, key) ==
            if LastMatch(more, key).Some? then LastMatch(more, key) else LastMatch(recs, key)
  {
    if more == [] {
      assert recs + more == recs;
    } else {
      var init := more[..|more| - 1];
      LastMatchOver(recs, init, key);
      assert (recs + more)[..|recs + more| - 1] == recs + init;
    }
  }

  /** What `get` answers for a log and whatever a scan finds behind it. */
  ghost function Answer(log: seq<Entry>, rest: Walk, key: seq<byte>): GetOutcome
    requires forall r <- rest.recs :: r.Typed()
  {
    if exists r <- rest.recs :: r.Overruns(key) then Undefined
    else if !rest.clean then Failed
    else if LastMatch(rest.recs, key).Some? then Found(LastMatch(rest.recs, key).value)
    else Settle(Lookup(log, key))
  }

  lemma AnswerOfWalk(w: Walk, log: seq<Entry>, rest: Walk, key: seq<byte>)
    requires (forall e <- log :: e.Storable()) && (forall r <- rest.recs :: r.Typed())
    requires w.recs == RecsOf(log) + rest.recs && w.clean == rest.clean
    ensures forall r <- w.recs :: r.Typed()
    ensures WalkResult(w, key) == Answer(log, rest, key)
  {
    assert Harmless(RecsOf(log), key);
    MatchIsLookup(log, key);
    if exists r <- rest.recs :: r.Overruns(key) {
      var r :| r in rest.recs && r.Overruns(key);
      assert r in w.recs;
    } else {
      LastMatchOver(RecsOf(log), rest.recs, key);
    }
  }

  lemma BrokenOff(w: Walk, log: seq<Entry>, key: seq<byte>)
    requires (forall e <- log :: e.Storable()) && w.recs <= RecsOf(log) && !w.clean
    ensures forall r <- w.recs :: r.Typed()
    ensures WalkResult(w, key) == Failed
  {
    assert forall r <- w.recs :: r in RecsOf(log) && r.Typed() && r.Fits();
  }

  /** Reading a file that begins with the records of a log, whatever follows them. */
  lemma GetOfPrefix(s: Suite, file: seq<byte>, h: Header, password: seq<byte>, c: Contents, key: seq<byte>,
          weather: nat -> Weather)
    requires s.Lawful() && h.Typed() && ParseHeader(file) == Some(h)
    requires DecryptSecret(s, password, h) == Opened(c.xtsKey)
    requires Begins(s, file, c) && Start(c.log, |c.log|) <= h.writeOffset
    ensures var read := FileReader(s, c.xtsKey, file, h.writeOffset, key, weather);
            GetResult(s, file, password, key, weather) ==
            if Disturbed(c.log, weather, key) then Failed
            else Answer(c.log, WalkFrom(read, h.writeOffset, Start(c.log, |c.log|)), key)
  {
    var limit := h.writeOffset;
    var read := FileReader(s, c.xtsKey, file, limit, key, weather);
    ScanOfPrefix(s, file, c, limit, key, weather);
    var w, rest := WalkFrom(read, limit, HEADER_SIZE), WalkFrom(read, limit, Start(c.log, |c.log|));
    if Disturbed(c.log, weather, key) {
      BrokenOff(w, c.log, key);
    } else {
      AnswerOfWalk(w, c.log, rest, key);
    }
  }

  /** Reading refines the map: `get` answers the value of the last entry with the key, fails when there is
      none, and under faults fails rather than answer anything else. */
  lemma GetRefinesLookup(s: Suite, file: seq<byte>, password: seq<byte>, c: Contents, key: seq<byte>,
          weather: nat -> Weather)
    requires Represents(s, file, password, c)
    ensures GetResult(s, file, password, key, weather) ==
            if Disturbed(c.log, weather, key) then Failed else Settle(Lookup(c.log, key))
  {
    HeaderRoundTrip(file, c.header);
    GetOfPrefix(s, file, c.header, password, c, key, weather);
  }

  // ---------- writing ----------

  /** The bytes at and above the write offset do not matter to what a file stands for. */
  lemma RepresentsIsLocal(s: Suite, f: seq<byte>, g: seq<byte>, password: seq<byte>, c: Contents)
    requires Represents(s, f, password, c)
    requires |f| == |g| && SameBelow(f, g, c.header.writeOffset)
    ensures Represents(s, g, password, c)
  {
    SameRange(f, g, c.header.writeOffset, 0, HEADER_SIZE);
    forall i | 0 <= i < |c.log|
      ensures Written(s, g, c, i)
    {
      assert Written(s, f, c, i);
      StartMonotone(c.log, i + 1, |c.log|);
      SameRange(f, g, c.header.writeOffset, Start(c.log, i), Start(c.log, i + 1));
    }
  }

  ghost function Advanced(h: Header, e: Entry): Header {
    h.(writeOffset := h.writeOffset + PaddedLength(e))
  }

  ghost function Extended(c: Contents, e: Entry): Contents {
    Contents(Advanced(c.header, e), c.xtsKey, c.log + [e])
  }

  /** The records already written stay where they are. */
  lemma WrittenSurvives(s: Suite, f: seq<byte>, g: seq<byte>, c: Contents, e: Entry, i: nat)
    requires i < |c.log| && Written(s, f, c, i) && |f| == |g|
    requires f[Start(c.log, i)..Start(c.log, i + 1)] == g[Start(c.log, i)..Start(c.log, i + 1)]
    ensures Written(s, g, Extended(c, e), i)
  {
    StartOfPrefix(c.log, [e], i);
    StartOfPrefix(c.log, [e], i + 1);
  }

  /** The file after a complete call: the record in its place, then the header with the new offset. */
  ghost function AfterSet(file: seq<byte>, h: Header, e: Entry, cipher: seq<byte>): seq<byte>
    requires |file| >= HEADER_SIZE && h.writeOffset + |cipher| <= |file| && Advanced(h, e).Typed()
  {
    Blit(Blit(file, h.writeOffset, cipher), 0, HeaderBytes(Advanced(h, e)))
  }

  /** Such a file differs from the one before only in the offset field and in the new record. */
  lemma AfterSetFootprint(file: seq<byte>, h: Header, e: Entry, cipher: seq<byte>, i: nat)
    requires HEADER_SIZE <= h.writeOffset && h.writeOffset + |cipher| <= |file|
    requires h.Typed() && Advanced(h, e).Typed()
    requires file[..HEADER_SIZE] == HeaderBytes(h) && i < |file|
    ensures 32 <= i < 40 || h.writeOffset <= i < h.writeOffset + |cipher|
            || AfterSet(file, h, e, cipher)[i] == file[i]
  {
  }

  lemma AfterSetParts(file: seq<byte>, h: Header, e: Entry, cipher: seq<byte>)
    requires HEADER_SIZE <= h.writeOffset && h.writeOffset + |cipher| <= |file| && Advanced(h, e).Typed()
    ensures var at, after := h.writeOffset, AfterSet(file, h, e, cipher);
            && |after| == |file|
            && after[..HEADER_SIZE] == HeaderBytes(Advanced(h, e))
            && after[HEADER_SIZE..at] == file[HEADER_SIZE..at]
            && after[at..at + |cipher|] == cipher
  {
  }

  lemma SameInside(f: seq<byte>, g: seq<byte>, from: nat, to: nat, lo: nat, hi: nat)
    requires from <= lo <= hi <= to <= |f| && to <= |g| && f[from..to] == g[from..to]
    ensures f[lo..hi] == g[lo..hi]
  {
    forall i | lo <= i < hi
      ensures f[i] == g[i]
    {
      assert f[from..to][i - from] == g[from..to][i - from];
    }
  }

  lemma EarlierRecords(s: Suite, f: seq<byte>, g: seq<byte>, password: seq<byte>, c: Contents,
          e: Entry, i: nat)
    requires Represents(s, f, password, c) && |f| == |g| && i < |c.log|
    requires f[HEADER_SIZE..c.header.writeOffset] == g[HEADER_SIZE..c.header.writeOffset]
    ensures Written(s, g, Extended(c, e), i)
  {
    var lo, hi, at := Start(c.log, i), Start(c.log, i + 1), c.header.writeOffset;
    assert Written(s, f, c, i);
    StartMonotone(c.log, i, i + 1);
    StartMonotone(c.log, i + 1, |c.log|);
    SameInside(f, g, HEADER_SIZE, at, lo, hi);
    WrittenSurvives(s, f, g, c, e, i);
  }

  lemma LastRecord(s: Suite, g: seq<byte>, c: Contents, e: Entry, cipher: seq<byte>)
    requires e.Storable() && c.header.writeOffset == Start(c.log, |c.log|)
    requires CryptXts(s, true, c.xtsKey, c.header.writeOffset, RecordBytes(e)) == Some(cipher)
    requires c.header.writeOffset + |cipher| <= |g|
    requires g[c.header.writeOffset..c.header.writeOffset + |cipher|] == cipher
    ensures Written(s, g, Extended(c, e), |c.log|)
    ensures Start(Extended(c, e).log, |c.log| + 1) == c.header.writeOffset + |cipher|
  {
    StartOfPrefix(c.log, [e], |c.log|);
  }

  /** A complete call on a store makes it the store with one more entry. */
  lemma SetExtends(s: Suite, file: seq<byte>, password: seq<byte>, c: Contents, e: Entry,
          cipher: seq<byte>)
    requires Represents(s, file, password, c) && e.Storable()
    requires CryptXts(s, true, c.xtsKey, c.header.writeOffset, RecordBytes(e)) == Some(cipher)
    requires c.header.writeOffset + |cipher| <= |file|
    ensures Represents(s, AfterSet(file, c.header, e, cipher), password, Extended(c, e))
  {
    var after, c' := AfterSet(file, c.header, e, cipher), Extended(c, e);
    AfterSetParts(file, c.header, e, cipher);
    LastRecord(s, after, c, e, cipher);
    forall i | 0 <= i < |c'.log|
      ensures Written(s, after, c', i)
    {
      if i < |c.log| {
        EarlierRecords(s, file, after, password, c, e, i);
      }
    }
  }

  /** The entries a store takes: storable, short enough for the cipher, and with room left. */
  ghost predicate Takes(s: Suite, h: Header, e: Entry) {
    && e.Storable()
    && PaddedLength(e) <= s.maxUnit
    && h.writeOffset + PaddedLength(e) <= h.totalSize
  }

  /** With a header this code writes, no password makes the secret leave its buffer. */
  lemma SealedSizeFits(s: Suite, h: Header, password: seq<byte>)
    requires s.Lawful() && h.Typed() && h.InBounds() && h.encryptedSecretSize == SEALED_SIZE
    ensures !DecryptSecret(s, password, h).SecretOverruns?
  {
    SecretOverrunExactly(s, password, h);
  }

  lemma RoundedBelow(n: nat)
    requires n <= U32
    ensures Rounded(n) == if n <= U32 - 16 then RoundUp16(n) else 0
  {
  }

  lemma NoCarry(a: nat, b: nat)
    requires a < OFF_LIMIT && b < U32
    ensures Add64(a, b) == a + b
  {
  }

  /** What a call is about to write, with any password, and exactly when it writes at all. */
  lemma PlanOnStore(s: Suite, file: seq<byte>, h: Header, password: seq<byte>, e: Entry, memory: bool)
    requires s.Lawful() && Shaped(file, h)
    requires |e.value| < U32 && e.PlainLength() <= U32
    ensures var p, unsealed := PlanSet(s, file, password, e, memory), DecryptSecret(s, password, h);
            if unsealed.Opened? && memory && Takes(s, h, e)
            then p.Ready? && p.header == h
                 && CryptXts(s, true, unsealed.xtsKey, h.writeOffset, RecordBytes(e)) == Some(p.cipher)
            else p.Denied?
  {
    HeaderRoundTrip(file, h);
    SealedSizeFits(s, h, password);
    RoundedBelow(e.PlainLength());
    NoCarry(h.writeOffset, Rounded(e.PlainLength()));
  }
}
