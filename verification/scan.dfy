/** Reading: the index-free scan of `padlock_get` over the encrypted records. */
module Scan {
  import opened Bytes
  import opened Words
  import opened Cipher
  import opened Header
  import opened Records

  /** What one round of the scan extracts at an offset. */
  datatype Rec = Rec(keySize: nat, valueLength: nat, padded: nat, plain: seq<byte>) {
    ghost predicate Typed() {
      1 <= keySize <= 255 && valueLength < U32 && 16 <= padded == |plain|
    }

    /** The record lies inside its own buffer. */
    predicate Fits() {
      1 + keySize + 4 + valueLength <= padded
    }

    /** Comparing with the key, or copying the value after a match, would leave the entry buffer:
        C gives such a read no meaning. */
    predicate Overruns(key: seq<byte>)
      requires Typed()
    {
      && keySize == |key|
      && (1 + keySize > padded || (plain[1..1 + keySize] == key && !Fits()))
    }

    predicate Matches(key: seq<byte>)
      requires Typed()
    {
      keySize == |key| && 1 + keySize <= padded && plain[1..1 + keySize] == key
    }

    function Value(): seq<byte>
      requires Typed() && Fits()
    {
      plain[5 + keySize..5 + keySize + valueLength]
    }
  }

  datatype GetOutcome = Found(value: seq<byte>) | Failed | Undefined

  // ---------- one record ----------

  function ReadAt(file: seq<byte>, offset: nat, n: nat): Option<seq<byte>> {
    if offset + n <= |file| then Some(file[offset..offset + n]) else None
  }

  function DecryptAt(s: Suite, xtsKey: seq<byte>, file: seq<byte>, offset: nat, n: nat): (r: Option<seq<byte>>)
    ensures r.Some? ==> |r.value| == n && n % BLOCK == 0 && 0 < n <= s.maxUnit && offset + n <= |file|
  {
    match ReadAt(file, offset, n)
    case None => None
    case Some(cipher) => CryptXts(s, false, xtsKey, offset, cipher)
  }

  /** First decryption: one block, for the key size. */
  function KeySizeAt(s: Suite, xtsKey: seq<byte>, file: seq<byte>, offset: nat): (r: Option<nat>)
    ensures r.Some? ==> 1 <= r.value <= 255
  {
    match DecryptAt(s, xtsKey, file, offset, BLOCK)
    case None => None
    case Some(block) => if block[0] == 0 then None else Some(block[0])
  }

  /** Second decryption: the blocks that hold the key and the value length. */
  function ValueLengthAt(s: Suite, xtsKey: seq<byte>, file: seq<byte>, limit: nat, offset: nat,
          keySize: nat): (r: Option<nat>)
    requires 1 <= keySize <= 255
    ensures r.Some? ==> r.value < U32
  {
    var prefix := Rounded(1 + keySize + 4);
    if offset + prefix > limit then None
    else
      match DecryptAt(s, xtsKey, file, offset, prefix)
      case None => None
      case Some(head) =>
        BytesRoundTrip(head[1 + keySize..5 + keySize]);
        WidthLimits();
        Some(FromBytes(head[1 + keySize..5 + keySize]))
  }

  /** Third decryption: the whole record, of the length the first two give. */
  function RecordAt(s: Suite, xtsKey: seq<byte>, file: seq<byte>, limit: nat, offset: nat, keySize: nat,
          valueLength: nat): (r: Option<Rec>)
    requires 1 <= keySize <= 255 && valueLength < U32
    ensures r.Some? ==> r.value.Typed() && r.value.padded % 16 == 0
    ensures r.Some? ==> offset + r.value.padded <= limit && offset + r.value.padded <= |file|
    ensures r.Some? ==> r.value.keySize == keySize && r.value.valueLength == valueLength
  {
    var padded := Rounded(EntryLength32(keySize, valueLength));
    if padded < 16 || offset + padded > limit then None
    else
      match DecryptAt(s, xtsKey, file, offset, padded)
      case None => None
      case Some(plain) => Some(Rec(keySize, valueLength, padded, plain))
  }

  /** One round of the loop. */
  function ReadRecord(s: Suite, xtsKey: seq<byte>, file: seq<byte>, limit: nat, offset: nat): (r: Option<Rec>)
    ensures r.Some? ==> r.value.Typed() && r.value.padded % 16 == 0
    ensures r.Some? ==> offset + r.value.padded <= limit && offset + r.value.padded <= |file|
  {
    match KeySizeAt(s, xtsKey, file, offset)
    case None => None
    case Some(keySize) =>
      match ValueLengthAt(s, xtsKey, file, limit, offset, keySize)
      case None => None
      case Some(valueLength) => RecordAt(s, xtsKey, file, limit, offset, keySize, valueLength)
  }

  // ---------- the environment and the reads of a round ----------

  /** What the environment does to one round: nothing; a seek, a read or an allocation fails after so many
      reads; or there is no memory for the value of a match. */
  datatype Weather = Calm | Stops(after: nat) | NoRoom

  /** A range of the file that is read. */
  datatype Range = Range(at: nat, length: nat)

  function ThirdRead(limit: nat, offset: nat, keySize: nat, valueLength: nat): seq<Range> {
    var padded := Rounded(EntryLength32(keySize, valueLength));
    if padded < 16 || offset + padded > limit then [] else [Range(offset, padded)]
  }

  function SecondRead(limit: nat, offset: nat, keySize: nat): seq<Range> {
    var prefix := Rounded(1 + keySize + 4);
    if offset + prefix > limit then [] else [Range(offset, prefix)]
  }

  /** The reads of one round, in order: one, two or three, by how far the round gets. */
  function RoundReads(s: Suite, xtsKey: seq<byte>, file: seq<byte>, limit: nat, w: Weather, offset: nat): seq<Range> {
    if w == Stops(0) then []
    else
      [Range(offset, BLOCK)] +
      match KeySizeAt(s, xtsKey, file, offset)
      case None => []
      case Some(keySize) =>
        if w == Stops(1) then []
        else
          SecondRead(limit, offset, keySize) +
          match ValueLengthAt(s, xtsKey, file, limit, offset, keySize)
          case None => []
          case Some(valueLength) => if w == Stops(2) then [] else ThirdRead(limit, offset, keySize, valueLength)
  }

  /** Every read of a round lies between its offset and the limit. */
  lemma RoundReadsConfined(s: Suite, xtsKey: seq<byte>, file: seq<byte>, limit: nat, w: Weather, offset: nat)
    requires offset + BLOCK <= limit
    ensures Confined(RoundReads(s, xtsKey, file, limit, w, offset), offset, limit)
  {
  }

  ghost predicate Confined(ranges: seq<Range>, from: nat, limit: nat) {
    forall t <- ranges :: from <= t.at && t.at + t.length <= limit
  }

  // ---------- all records ----------

  /** What a round comes to: a record, or an error exit, and the reads it made. */
  datatype Round = Round(rec: Option<Rec>, ranges: seq<Range>)

  /** Rounds by offset. */
  type Reader = nat -> Round

  /** Every record advances the scan by at least a block and stays below the limit. */
  ghost predicate Advances(read: Reader, limit: nat) {
    forall o: nat :: read(o).rec.Some? ==> read(o).rec.value.Typed() && o + read(o).rec.value.padded <= limit
  }

  function RoundAt(s: Suite, xtsKey: seq<byte>, file: seq<byte>, limit: nat, key: seq<byte>,
          weather: nat -> Weather, offset: nat): (round: Round)
    ensures round.rec.Some? ==> round.rec.value.Typed() && offset + round.rec.value.padded <= limit
  {
    var r := ReadRecord(s, xtsKey, file, limit, offset);
    var stopped := weather(offset).Stops? || (weather(offset).NoRoom? && r.Some? && r.value.Matches(key));
    Round(if stopped then None else r, RoundReads(s, xtsKey, file, limit, weather(offset), offset))
  }

  function FileReader(s: Suite, xtsKey: seq<byte>, file: seq<byte>, limit: nat, key: seq<byte>,
          weather: nat -> Weather): (read: Reader)
    ensures Advances(read, limit)
  {
    var read := (offset: nat) => RoundAt(s, xtsKey, file, limit, key, weather, offset);
    assert forall o: nat :: read(o) == RoundAt(s, xtsKey, file, limit, key, weather, o);
    read
  }

  /** The records a scan visits from an offset on, whether it ran to the end, and where it stopped. */
  datatype Walk = Walk(recs: seq<Rec>, clean: bool, end: nat)

  ghost function WalkFrom(read: Reader, limit: nat, offset: nat): (w: Walk)
    requires Advances(read, limit) && offset <= limit
    ensures forall r <- w.recs :: r.Typed()
    ensures offset <= w.end <= limit && (w.clean ==> limit < w.end + BLOCK)
    decreases limit - offset
  {
    if offset + BLOCK > limit then Walk([], true, offset)
    else
      match read(offset).rec
      case None => Walk([], false, offset)
      case Some(r) =>
        var w := WalkFrom(read, limit, offset + r.padded);
        Walk([r] + w.recs, w.clean, w.end)
  }

  /** The reads of a scan from an offset on, in order. */
  ghost function ScanReads(read: Reader, limit: nat, offset: nat, key: seq<byte>): seq<Range>
    requires Advances(read, limit) && offset <= limit
    decreases limit - offset
  {
    if offset + BLOCK > limit then []
    else
      read(offset).ranges +
      match read(offset).rec
      case None => []
      case Some(r) => if r.Overruns(key) then [] else ScanReads(read, limit, offset + r.padded, key)
  }

  /** The value of the last record that carries the key. */
  function LastMatch(recs: seq<Rec>, key: seq<byte>): Option<seq<byte>>
    requires forall r <- recs :: r.Typed() && !r.Overruns(key)
  {
    if recs == [] then None
    else
      var r := recs[|recs| - 1];
      assert r in recs && !r.Overruns(key);
      if r.Matches(key) then Some(r.Value()) else LastMatch(recs[..|recs| - 1], key)
  }

  /** What `get` answers for the content of a file. */
  ghost function GetResult(s: Suite, file: seq<byte>, password: seq<byte>, key: seq<byte>,
          weather: nat -> Weather): GetOutcome
  {
    match ParseHeader(file)
    case None => Failed
    case Some(h) =>
      FieldsTyped(file);
      match DecryptSecret(s, password, h)
      case Wrong => Failed
      case SecretOverruns => Undefined
      case Opened(xtsKey) =>
        var read := FileReader(s, xtsKey, file, h.writeOffset, key, weather);
        WalkResult(WalkFrom(read, h.writeOffset, HEADER_SIZE), key)
  }

  /** The reads `get` makes on a file, the header first. */
  ghost function GetReads(s: Suite, file: seq<byte>, password: seq<byte>, key: seq<byte>,
          weather: nat -> Weather): seq<Range>
  {
    [Range(0, HEADER_SIZE)] +
    match ParseHeader(file)
    case None => []
    case Some(h) =>
      FieldsTyped(file);
      match DecryptSecret(s, password, h)
      case Wrong => []
      case SecretOverruns => []
      case Opened(xtsKey) =>
        ScanReads(FileReader(s, xtsKey, file, h.writeOffset, key, weather), h.writeOffset, HEADER_SIZE, key)
  }

  ghost function WalkResult(w: Walk, key: seq<byte>): GetOutcome
    requires forall r <- w.recs :: r.Typed()
  {
    if exists r <- w.recs :: r.Overruns(key) then Undefined
    else if !w.clean then Failed
    else
      match LastMatch(w.recs, key)
      case None => Failed
      case Some(value) => Found(value)
  }

  // ---------- the scan as code ----------

  /** A file opened for reading. Its bytes come through `Read` alone, which keeps the log of the ranges asked
      for. */
  class Stream {
    const data: seq<byte>
    ghost var log: seq<Range>

    constructor (data: seq<byte>)
      ensures this.data == data && log == []
    {
      this.data := data;
      log := [];
    }

    method Read(offset: nat, n: nat) returns (r: Option<seq<byte>>)
      modifies this
      ensures r == ReadAt(data, offset, n)
      ensures log == old(log) + [Range(offset, n)]
    {
      log := log + [Range(offset, n)];
      r := ReadAt(data, offset, n);
    }
  }

  /** A seek, a read and a decryption. */
  method Fetch(s: Suite, xtsKey: seq<byte>, stream: Stream, offset: nat, n: nat) returns (plain: Option<seq<byte>>)
    modifies stream
    ensures plain == DecryptAt(s, xtsKey, stream.data, offset, n)
    ensures stream.log == old(stream.log) + [Range(offset, n)]
  {
    var cipher := stream.Read(offset, n);
    plain := if cipher.None? then None else CryptXts(s, false, xtsKey, offset, cipher.value);
  }

  method ReadValueLength(s: Suite, xtsKey: seq<byte>, stream: Stream, limit: nat, offset: nat, keySize: nat)
    returns (r: Option<nat>)
    requires offset < |stream.data| < OFF_LIMIT && 1 <= keySize <= 255
    modifies stream
    ensures r == ValueLengthAt(s, xtsKey, stream.data, limit, offset, keySize)
    ensures stream.log == old(stream.log) + SecondRead(limit, offset, keySize)
  {
    var prefixLength := PadLength(1 + keySize + 4);
    if Add64(offset, prefixLength) > limit {
      return None;
    }
    var prefix := Fetch(s, xtsKey, stream, offset, prefixLength);
    if prefix.None? {
      return None;
    }
    var valueLength := GetU32(prefix.value[1 + keySize..5 + keySize]);
    r := Some(valueLength);
  }

  method ReadWhole(s: Suite, xtsKey: seq<byte>, stream: Stream, limit: nat, offset: nat, keySize: nat,
          valueLength: nat)
    returns (r: Option<Rec>)
    requires offset < |stream.data| < OFF_LIMIT && 1 <= keySize <= 255 && valueLength < U32
    modifies stream
    ensures r == RecordAt(s, xtsKey, stream.data, limit, offset, keySize, valueLength)
    ensures stream.log == old(stream.log) + ThirdRead(limit, offset, keySize, valueLength)
  {
    var padded := PadLength(EntryLength32(keySize, valueLength));
    if padded < 16 || Add64(offset, padded) > limit {
      return None;
    }
    var plain := Fetch(s, xtsKey, stream, offset, padded);
    if plain.None? {
      return None;
    }
    r := Some(Rec(keySize, valueLength, padded, plain.value));
  }

  /** One round up to the comparison of keys, with exactly the reads it makes. */
  method ReadEntry(s: Suite, xtsKey: seq<byte>, stream: Stream, limit: nat, w: Weather, offset: nat)
    returns (r: Option<Rec>)
    requires |stream.data| < OFF_LIMIT && offset + BLOCK <= limit
    modifies stream
    ensures r == if w.Stops? then None else ReadRecord(s, xtsKey, stream.data, limit, offset)
    ensures stream.log == old(stream.log) + RoundReads(s, xtsKey, stream.data, limit, w, offset)
  {
    if w == Stops(0) {
      return None;
    }
    var block := Fetch(s, xtsKey, stream, offset, BLOCK);
    if block.None? || block.value[0] == 0 || w == Stops(1) {
      return None;
    }
    var keySize: nat := block.value[0];
    var valueLength := ReadValueLength(s, xtsKey, stream, limit, offset, keySize);
    if valueLength.None? || w == Stops(2) {
      return None;
    }
    r := ReadWhole(s, xtsKey, stream, limit, offset, keySize, valueLength.value);
    if w.Stops? {
      r := None;
    }
  }

  ghost predicate Serves(read: Reader, s: Suite, xtsKey: seq<byte>, file: seq<byte>, limit: nat, key: seq<byte>,
          weather: nat -> Weather)
  {
    && Advances(read, limit)
    && forall o: nat {:trigger RoundAt(s, xtsKey, file, limit, key, weather, o)} ::
         read(o) == RoundAt(s, xtsKey, file, limit, key, weather, o)
  }

  /** One round, environment included. */
  method Turn(s: Suite, xtsKey: seq<byte>, stream: Stream, limit: nat, offset: nat, key: seq<byte>,
          weather: nat -> Weather, ghost read: Reader)
    returns (r: Option<Rec>)
    requires |stream.data| < OFF_LIMIT && offset + BLOCK <= limit
    requires Serves(read, s, xtsKey, stream.data, limit, key, weather)
    modifies stream
    ensures r == read(offset).rec && (r.Some? ==> offset + r.value.padded <= |stream.data|)
    ensures stream.log == old(stream.log) + read(offset).ranges
  {
    assert read(offset) == RoundAt(s, xtsKey, stream.data, limit, key, weather, offset);
    r := ReadEntry(s, xtsKey, stream, limit, weather(offset), offset);
    if r.Some? && weather(offset).NoRoom? && r.value.Matches(key) {
      r := None;
    }
  }

  /** The loop as a recursion over its variables. */
  ghost function Resume(read: Reader, limit: nat, offset: nat, found: Option<seq<byte>>, key: seq<byte>): GetOutcome
    requires Advances(read, limit) && offset <= limit
    decreases limit - offset
  {
    if offset + BLOCK > limit then Settle(found)
    else
      match read(offset).rec
      case None => Failed
      case Some(r) =>
        if r.Overruns(key) then Undefined
        else Resume(read, limit, offset + r.padded, if r.Matches(key) then Some(r.Value()) else found, key)
  }

  function Settle(found: Option<seq<byte>>): GetOutcome {
    match found
    case None => Failed
    case Some(value) => Found(value)
  }

  /** The loop ends on every content and makes exactly the reads of the specification. */
  method ScanLoop(s: Suite, xtsKey: seq<byte>, stream: Stream, limit: nat, key: seq<byte>, weather: nat -> Weather,
          ghost read: Reader)
    returns (out: GetOutcome)
    requires |stream.data| < OFF_LIMIT && HEADER_SIZE <= limit < U64
    requires Serves(read, s, xtsKey, stream.data, limit, key, weather)
    modifies stream
    ensures out == Resume(read, limit, HEADER_SIZE, None, key)
    ensures stream.log == old(stream.log) + ScanReads(read, limit, HEADER_SIZE, key)
  {
    var offset := HEADER_SIZE;
    var found: Option<seq<byte>> := None;
    ghost var all := stream.log + ScanReads(read, limit, HEADER_SIZE, key);
    while Add64(offset, BLOCK) <= limit
      invariant HEADER_SIZE <= offset <= limit && (offset == HEADER_SIZE || offset <= |stream.data|)
      invariant Resume(read, limit, offset, found, key) == Resume(read, limit, HEADER_SIZE, None, key)
      invariant stream.log + ScanReads(read, limit, offset, key) == all
      decreases limit - offset
    {
      ghost var log := stream.log;
      var r := Turn(s, xtsKey, stream, limit, offset, key, weather, read);
      if r.None? {
        return Failed;
      }
      if r.value.Overruns(key) {
        return Undefined;
      }
      ghost var rest := ScanReads(read, limit, offset + r.value.padded, key);
      assert log + (read(offset).ranges + rest) == stream.log + rest;
      if r.value.Matches(key) {
        found := Some(r.value.Value());
      }
      offset := offset + r.value.padded;
    }
    out := Settle(found);
  }

  /** The scan answers as the list of visited records says. */
  method ScanRecords(s: Suite, xtsKey: seq<byte>, stream: Stream, limit: nat, key: seq<byte>, weather: nat -> Weather)
    returns (out: GetOutcome)
    requires |stream.data| < OFF_LIMIT && HEADER_SIZE <= limit < U64
    modifies stream
    ensures var read := FileReader(s, xtsKey, stream.data, limit, key, weather);
            && out == WalkResult(WalkFrom(read, limit, HEADER_SIZE), key)
            && stream.log == old(stream.log) + ScanReads(read, limit, HEADER_SIZE, key)
  {
    ghost var read := FileReader(s, xtsKey, stream.data, limit, key, weather);
    ScanIsWalk(read, limit, HEADER_SIZE, None, key);
    out := ScanLoop(s, xtsKey, stream, limit, key, weather, read);
  }

  // ---------- where a scan reads ----------

  lemma {:induction false} ScanReadsConfined(read: Reader, limit: nat, offset: nat, key: seq<byte>)
    requires Advances(read, limit) && offset <= limit
    requires forall o: nat :: o + BLOCK <= limit ==> Confined(read(o).ranges, o, limit)
    ensures Confined(ScanReads(read, limit, offset, key), offset, limit)
    decreases limit - offset
  {
    if offset + BLOCK <= limit && read(offset).rec.Some? {
      assert Confined(read(offset).ranges, offset, limit);
      ScanReadsConfined(read, limit, offset + read(offset).rec.value.padded, key);
    }
  }

  /** Read bound: on every content, whatever it decrypts to and however the environment behaves, `get` reads
      the header and then only between the header and the write offset. */
  lemma ReadBound(s: Suite, file: seq<byte>, password: seq<byte>, key: seq<byte>, weather: nat -> Weather)
    ensures var all := GetReads(s, file, password, key, weather);
            && all[0] == Range(0, HEADER_SIZE)
            && (ParseHeader(file).None? ==> |all| == 1)
            && (ParseHeader(file).Some? ==> Confined(all[1..], HEADER_SIZE, ParseHeader(file).value.writeOffset))
  {
    if ParseHeader(file).Some? {
      var limit := ParseHeader(file).value.writeOffset;
      FieldsTyped(file);
      var unsealed := DecryptSecret(s, password, ParseHeader(file).value);
      if unsealed.Opened? {
        FileReadsConfined(s, unsealed.xtsKey, file, limit, key, weather);
      }
    }
  }

  lemma FileReadsConfined(s: Suite, xtsKey: seq<byte>, file: seq<byte>, limit: nat, key: seq<byte>,
          weather: nat -> Weather)
    requires HEADER_SIZE <= limit
    ensures var read := FileReader(s, xtsKey, file, limit, key, weather);
            Confined(ScanReads(read, limit, HEADER_SIZE, key), HEADER_SIZE, limit)
  {
    var read := FileReader(s, xtsKey, file, limit, key, weather);
    forall o: nat | o + BLOCK <= limit
      ensures Confined(read(o).ranges, o, limit)
    {
      RoundReadsConfined(s, xtsKey, file, limit, weather(o), o);
    }
    ScanReadsConfined(read, limit, HEADER_SIZE, key);
  }

  // ---------- the loop answers as the list of visited records says ----------

  ghost predicate Harmless(recs: seq<Rec>, key: seq<byte>) {
    forall r <- recs :: r.Typed() && !r.Overruns(key)
  }

  /** The last match in a list, seen from its front. */
  lemma {:induction false} LastMatchFront(r: Rec, recs: seq<Rec>, key: seq<byte>)
    requires r.Typed() && !r.Overruns(key) && Harmless(recs, key)
    ensures Harmless([r] + recs, key)
    ensures LastMatch([r] + recs, key) ==
            if LastMatch(recs, key).Some? then LastMatch(recs, key)
            else if r.Matches(key) then Some(r.Value()) else None
  {
    var all := [r] + recs;
    if recs == [] {
      assert all[..0] == [];
    } else {
      assert all[..|all| - 1] == [r] + recs[..|recs| - 1];
      LastMatchFront(r, recs[..|recs| - 1], key);
    }
  }

  lemma {:induction false} ScanIsWalk(read: Reader, limit: nat, offset: nat, found: Option<seq<byte>>, key: seq<byte>)
    requires Advances(read, limit) && offset <= limit
    ensures var w := WalkFrom(read, limit, offset);
            Resume(read, limit, offset, found, key) ==
            if Harmless(w.recs, key) && w.clean && LastMatch(w.recs, key).None? then Settle(found)
            else WalkResult(w, key)
    decreases limit - offset
  {
    if offset + BLOCK <= limit && read(offset).rec.Some? {
      var r := read(offset).rec.value;
      var next := WalkFrom(read, limit, offset + r.padded);
      var w := WalkFrom(read, limit, offset);
      assert w.recs == [r] + next.recs;
      ScanIsWalk(read, limit, offset + r.padded, if r.Matches(key) && r.Fits() then Some(r.Value()) else found, key);
      if r.Overruns(key) {
        assert r in w.recs;
      } else if Harmless(next.recs, key) {
        LastMatchFront(r, next.recs, key);
      } else {
        assert forall x <- next.recs :: x in w.recs;
      }
    }
  }

  // ---------- properties of a scan on arbitrary content ----------

  lemma SliceOfPrefix(text: seq<byte>, n: nat, lo: nat, hi: nat)
    requires lo <= hi <= n <= |text|
    ensures text[..n][lo..hi] == text[lo..hi]
  {
  }

  lemma StagedKey(s: Suite, xtsKey: seq<byte>, file: seq<byte>, offset: nat, r: Rec)
    requires r.Typed() && KeySizeAt(s, xtsKey, file, offset) == Some(r.keySize)
    requires DecryptAt(s, xtsKey, file, offset, r.padded) == Some(r.plain)
    ensures r.plain[0] == r.keySize
  {
    StageOverlap(s, xtsKey, file, offset, BLOCK, r.padded);
  }

  lemma PrefixFits(r: Rec)
    requires r.Typed() && r.Fits() && r.padded == Rounded(EntryLength32(r.keySize, r.valueLength))
    ensures Rounded(1 + r.keySize + 4) <= r.padded && 5 + r.keySize <= r.padded
  {
    var n := 1 + r.keySize + 4 + r.valueLength;
    RoundingWraps(n);
    RoundingMonotone(1 + r.keySize + 4, n);
  }

  lemma StagedLength(s: Suite, xtsKey: seq<byte>, file: seq<byte>, limit: nat, offset: nat, r: Rec)
    requires r.Typed() && ValueLengthAt(s, xtsKey, file, limit, offset, r.keySize) == Some(r.valueLength)
    requires DecryptAt(s, xtsKey, file, offset, r.padded) == Some(r.plain)
    requires Rounded(1 + r.keySize + 4) <= r.padded && 5 + r.keySize <= r.padded
    ensures FromBytes(r.plain[1 + r.keySize..5 + r.keySize]) == r.valueLength
  {
    var prefix := Rounded(1 + r.keySize + 4);
    StageOverlap(s, xtsKey, file, offset, prefix, r.padded);
    SliceOfPrefix(r.plain, prefix, 1 + r.keySize, 5 + r.keySize);
  }

  /** Whatever the file holds, the sizes taken from the two early decryptions are the ones that stand in
      the fully decrypted record. */
  lemma StagedSizes(s: Suite, xtsKey: seq<byte>, file: seq<byte>, limit: nat, offset: nat)
    requires ReadRecord(s, xtsKey, file, limit, offset).Some?
    ensures var r := ReadRecord(s, xtsKey, file, limit, offset).value;
            && r.plain[0] == r.keySize
            && (r.Fits() ==> FromBytes(r.plain[1 + r.keySize..5 + r.keySize]) == r.valueLength)
  {
    var r := ReadRecord(s, xtsKey, file, limit, offset).value;
    StagedKey(s, xtsKey, file, offset, r);
    if r.Fits() {
      PrefixFits(r);
      StagedLength(s, xtsKey, file, limit, offset, r);
    }
  }

  lemma LengthFits(keySize: nat, valueLength: nat)
    requires 1 <= keySize <= 255 && valueLength < U32
    ensures var n := 1 + keySize + 4 + valueLength;
            n <= Rounded(EntryLength32(keySize, valueLength)) <==> n <= U32 - 16
  {
    RoundingWraps(1 + keySize + 4 + valueLength);
  }

  /** A record lies inside its buffer exactly up to 2^32 - 16 bytes, so no shorter record can make a scan
      leave a buffer. */
  lemma FitsExactly(s: Suite, xtsKey: seq<byte>, file: seq<byte>, limit: nat, offset: nat)
    requires ReadRecord(s, xtsKey, file, limit, offset).Some?
    ensures var r := ReadRecord(s, xtsKey, file, limit, offset).value;
            r.Fits() <==> 1 + r.keySize + 4 + r.valueLength <= U32 - 16
  {
    var r := ReadRecord(s, xtsKey, file, limit, offset).value;
    LengthFits(r.keySize, r.valueLength);
  }

  /** Two decryptions at one offset agree where they overlap. */
  lemma StageOverlap(s: Suite, xtsKey: seq<byte>, file: seq<byte>, offset: nat, m: nat, n: nat)
    requires m <= n
    requires DecryptAt(s, xtsKey, file, offset, m).Some? && DecryptAt(s, xtsKey, file, offset, n).Some?
    ensures DecryptAt(s, xtsKey, file, offset, m).value == DecryptAt(s, xtsKey, file, offset, n).value[..m]
  {
    var text := file[offset..offset + n];
    assert file[offset..offset + m] == text[..m];
    PrefixLaw(s.decryptBlock, xtsKey, offset / 16, text, m);
  }

  /** Two files with the same first `limit` bytes. */
  ghost predicate SameBelow(f: seq<byte>, g: seq<byte>, limit: nat) {
    limit <= |f| && limit <= |g| && f[..limit] == g[..limit]
  }

  lemma SameRange(f: seq<byte>, g: seq<byte>, limit: nat, lo: nat, hi: nat)
    requires SameBelow(f, g, limit) && lo <= hi <= limit
    ensures f[lo..hi] == g[lo..hi]
  {
    assert f[lo..hi] == f[..limit][lo..hi] && g[lo..hi] == g[..limit][lo..hi];
  }

  lemma SameDecryption(s: Suite, xtsKey: seq<byte>, f: seq<byte>, g: seq<byte>, limit: nat,
          offset: nat, n: nat)
    requires SameBelow(f, g, limit) && offset + n <= limit
    ensures DecryptAt(s, xtsKey, f, offset, n) == DecryptAt(s, xtsKey, g, offset, n)
  {
    SameRange(f, g, limit, offset, offset + n);
  }

  lemma SameLength(s: Suite, xtsKey: seq<byte>, f: seq<byte>, g: seq<byte>, limit: nat,
          offset: nat, keySize: nat)
    requires SameBelow(f, g, limit) && 1 <= keySize <= 255
    ensures ValueLengthAt(s, xtsKey, f, limit, offset, keySize) == ValueLengthAt(s, xtsKey, g, limit, offset, keySize)
  {
    if offset + Rounded(1 + keySize + 4) <= limit {
      SameDecryption(s, xtsKey, f, g, limit, offset, Rounded(1 + keySize + 4));
    }
  }

  lemma SameWhole(s: Suite, xtsKey: seq<byte>, f: seq<byte>, g: seq<byte>, limit: nat,
          offset: nat, keySize: nat, valueLength: nat)
    requires SameBelow(f, g, limit) && 1 <= keySize <= 255 && valueLength < U32
    ensures RecordAt(s, xtsKey, f, limit, offset, keySize, valueLength) ==
            RecordAt(s, xtsKey, g, limit, offset, keySize, valueLength)
  {
    if offset + Rounded(EntryLength32(keySize, valueLength)) <= limit {
      SameDecryption(s, xtsKey, f, g, limit, offset, Rounded(EntryLength32(keySize, valueLength)));
    }
  }

  lemma SameRecord(s: Suite, xtsKey: seq<byte>, f: seq<byte>, g: seq<byte>, limit: nat, offset: nat)
    requires SameBelow(f, g, limit) && offset + BLOCK <= limit
    ensures ReadRecord(s, xtsKey, f, limit, offset) == ReadRecord(s, xtsKey, g, limit, offset)
  {
    SameDecryption(s, xtsKey, f, g, limit, offset, BLOCK);
    var size := KeySizeAt(s, xtsKey, f, offset);
    if size.Some? {
      SameLength(s, xtsKey, f, g, limit, offset, size.value);
      var length := ValueLengthAt(s, xtsKey, f, limit, offset, size.value);
      if length.Some? {
        SameWhole(s, xtsKey, f, g, limit, offset, size.value, length.value);
      }
    }
  }

  lemma {:induction false} SameWalk(read: Reader, read': Reader, limit: nat, offset: nat)
    requires Advances(read, limit) && Advances(read', limit) && offset <= limit
    requires forall o: nat :: o + BLOCK <= limit ==> read(o).rec == read'(o).rec
    ensures WalkFrom(read, limit, offset) == WalkFrom(read', limit, offset)
    decreases limit - offset
  {
    if offset + BLOCK <= limit && read(offset).rec.Some? {
      SameWalk(read, read', limit, offset + read(offset).rec.value.padded);
    }
  }

  lemma SameHeader(f: seq<byte>, g: seq<byte>)
    requires SameBelow(f, g, HEADER_SIZE)
    ensures ParseHeader(f) == ParseHeader(g)
  {
    SameRange(f, g, HEADER_SIZE, 0, 7);
    SameRange(f, g, HEADER_SIZE, 8, 12);
    SameRange(f, g, HEADER_SIZE, 24, 32);
    SameRange(f, g, HEADER_SIZE, 32, 40);
    SameRange(f, g, HEADER_SIZE, 40, 56);
    SameRange(f, g, HEADER_SIZE, 56, 72);
    SameRange(f, g, HEADER_SIZE, 72, 76);
    SameRange(f, g, HEADER_SIZE, 76, 204);
  }

  lemma SameRound(s: Suite, xtsKey: seq<byte>, f: seq<byte>, g: seq<byte>, limit: nat, key: seq<byte>,
          weather: nat -> Weather, o: nat)
    requires SameBelow(f, g, limit) && o + BLOCK <= limit
    ensures FileReader(s, xtsKey, f, limit, key, weather)(o).rec == FileReader(s, xtsKey, g, limit, key, weather)(o).rec
  {
    SameRecord(s, xtsKey, f, g, limit, o);
  }

  /** Locality: no answer of `get`, for any password, key and environment, depends on a byte at or above
      the write offset. */
  lemma GetIsLocal(s: Suite, f: seq<byte>, g: seq<byte>, password: seq<byte>, key: seq<byte>,
          weather: nat -> Weather)
    requires ParseHeader(f).Some? && SameBelow(f, g, ParseHeader(f).value.writeOffset)
    ensures GetResult(s, f, password, key, weather) == GetResult(s, g, password, key, weather)
  {
    var h := ParseHeader(f).value;
    var limit := h.writeOffset;
    SameRange(f, g, limit, 0, HEADER_SIZE);
    SameHeader(f, g);
    FieldsTyped(f);
    var unsealed := DecryptSecret(s, password, h);
    if unsealed.Opened? {
      var xtsKey := unsealed.xtsKey;
      var read, read' := FileReader(s, xtsKey, f, limit, key, weather), FileReader(s, xtsKey, g, limit, key, weather);
      forall o: nat | o + BLOCK <= limit
        ensures read(o).rec == read'(o).rec
      {
        SameRound(s, xtsKey, f, g, limit, key, weather, o);
      }
      SameWalk(read, read', limit, HEADER_SIZE);
    }
  }

  // ---------- what a scan finds ----------

  /** The environment lets the round at an offset come to its end. */
  predicate Passes(weather: nat -> Weather, offset: nat, r: Rec, key: seq<byte>)
    requires r.Typed()
  {
    !weather(offset).Stops? && !(weather(offset).NoRoom? && r.Matches(key))
  }

  /** The records that stand one behind the other from the header up to the limit, with no room for another
      block. */
  ghost predicate Stand(read: Reader, limit: nat, recs: seq<Rec>, at: seq<nat>, i: nat) {
    && i <= |recs| && |at| == |recs| + 1 && at[|recs|] <= limit < at[|recs|] + BLOCK
    && forall k :: i <= k < |recs| ==>
         at[k] + BLOCK <= limit && read(at[k]).rec == Some(recs[k]) && at[k + 1] == at[k] + recs[k].padded
  }

  lemma {:induction false} StandIsWalk(read: Reader, limit: nat, recs: seq<Rec>, at: seq<nat>, i: nat)
    requires Advances(read, limit) && Stand(read, limit, recs, at, i)
    ensures at[i] <= limit && WalkFrom(read, limit, at[i]) == Walk(recs[i..], true, at[|recs|])
    decreases |recs| - i
  {
    if i < |recs| {
      StandIsWalk(read, limit, recs, at, i + 1);
      assert recs[i..] == [recs[i]] + recs[i + 1..];
    }
  }

  lemma {:induction false} WalkStands(read: Reader, limit: nat, offset: nat) returns (at: seq<nat>)
    requires Advances(read, limit) && offset <= limit && WalkFrom(read, limit, offset).clean
    ensures Stand(read, limit, WalkFrom(read, limit, offset).recs, at, 0) && at[0] == offset
    decreases limit - offset
  {
    if offset + BLOCK > limit {
      at := [offset];
    } else {
      var r := read(offset).rec.value;
      var rest := WalkStands(read, limit, offset + r.padded);
      var recs := [r] + WalkFrom(read, limit, offset + r.padded).recs;
      at := [offset] + rest;
      forall k | 0 <= k < |recs|
        ensures at[k] + BLOCK <= limit && read(at[k]).rec == Some(recs[k]) && at[k + 1] == at[k] + recs[k].padded
      {
        if k > 0 {
          assert at[k] == rest[k - 1] && at[k + 1] == rest[k] && recs[k] == recs[1..][k - 1];
        }
      }
    }
  }

  /** Record k has the key and the value, and no record behind it has the key. */
  ghost predicate IsLast(recs: seq<Rec>, key: seq<byte>, value: seq<byte>, k: nat) {
    && k < |recs| && Harmless(recs, key)
    && recs[k] in recs && recs[k].Matches(key) && recs[k].Value() == value
    && forall j :: k < j < |recs| ==> recs[j] in recs && !recs[j].Matches(key)
  }

  lemma LastOfInit(recs: seq<Rec>, r: Rec, key: seq<byte>, value: seq<byte>, k: nat)
    requires Harmless(recs, key) && r.Typed() && !r.Overruns(key) && !r.Matches(key)
    ensures IsLast(recs + [r], key, value, k) <==> IsLast(recs, key, value, k)
  {
    var all := recs + [r];
    assert all[|recs|] == r;
    if IsLast(all, key, value, k) {
      assert k < |recs| && all[k] == recs[k];
      assert forall j :: k < j < |recs| ==> all[j] == recs[j];
    }
    if IsLast(recs, key, value, k) {
      assert forall j :: k <= j < |recs| ==> all[j] == recs[j];
    }
  }

  lemma LastIsLast(recs: seq<Rec>, r: Rec, key: seq<byte>, value: seq<byte>)
    requires Harmless(recs, key) && r.Typed() && !r.Overruns(key) && r.Matches(key)
    ensures (exists k :: IsLast(recs + [r], key, value, k)) <==> r.Value() == value
  {
    var all, n := recs + [r], |recs|;
    assert all[n] == r && r in all;
    assert r.Value() == value ==> IsLast(all, key, value, n);
    assert forall k: nat :: IsLast(all, key, value, k) ==> !(k < n);
  }

  lemma {:induction false} LastMatchExactly(recs: seq<Rec>, key: seq<byte>, value: seq<byte>)
    requires Harmless(recs, key)
    ensures LastMatch(recs, key) == Some(value) <==> exists k :: IsLast(recs, key, value, k)
  {
    if recs != [] {
      var init, last := recs[..|recs| - 1], recs[|recs| - 1];
      assert recs == init + [last] && last in recs;
      if last.Matches(key) {
        LastIsLast(init, last, key, value);
      } else {
        LastMatchExactly(init, key, value);
        forall k: nat
          ensures IsLast(recs, key, value, k) <==> IsLast(init, key, value, k)
        {
          LastOfInit(init, last, key, value, k);
        }
      }
    }
  }

  /** The file as a scan under a key has it: the records from the header up to the limit, none of which leaves
      its buffer, with the environment passing every round; and one of them is the last with the key. */
  ghost predicate Holding(s: Suite, xtsKey: seq<byte>, file: seq<byte>, limit: nat, key: seq<byte>,
          weather: nat -> Weather, value: seq<byte>, recs: seq<Rec>, at: seq<nat>, k: nat)
  {
    && |at| == |recs| + 1 && at[0] == HEADER_SIZE && at[|recs|] <= limit < at[|recs|] + BLOCK
    && (forall i :: 0 <= i < |recs| ==>
          && at[i] + BLOCK <= limit && ReadRecord(s, xtsKey, file, limit, at[i]) == Some(recs[i])
          && Passes(weather, at[i], recs[i], key) && at[i + 1] == at[i] + recs[i].padded)
    && IsLast(recs, key, value, k)
  }

  lemma RoundPasses(s: Suite, xtsKey: seq<byte>, file: seq<byte>, limit: nat, key: seq<byte>,
          weather: nat -> Weather, offset: nat, r: Rec)
    requires r.Typed()
    ensures FileReader(s, xtsKey, file, limit, key, weather)(offset).rec == Some(r) <==>
            ReadRecord(s, xtsKey, file, limit, offset) == Some(r) && Passes(weather, offset, r, key)
  {
  }

  lemma HoldingStands(s: Suite, xtsKey: seq<byte>, file: seq<byte>, limit: nat, key: seq<byte>,
          weather: nat -> Weather, value: seq<byte>, recs: seq<Rec>, at: seq<nat>, k: nat)
    requires IsLast(recs, key, value, k) && HEADER_SIZE <= limit
    ensures Holding(s, xtsKey, file, limit, key, weather, value, recs, at, k) <==>
            Stand(FileReader(s, xtsKey, file, limit, key, weather), limit, recs, at, 0) && at[0] == HEADER_SIZE
  {
    var read := FileReader(s, xtsKey, file, limit, key, weather);
    if |at| == |recs| + 1 {
      forall i | 0 <= i < |recs|
        ensures recs[i].Typed()
        ensures read(at[i]).rec == Some(recs[i]) <==>
                ReadRecord(s, xtsKey, file, limit, at[i]) == Some(recs[i]) && Passes(weather, at[i], recs[i], key)
      {
        assert recs[i] in recs;
        RoundPasses(s, xtsKey, file, limit, key, weather, at[i], recs[i]);
      }
    }
  }

  lemma ScanFinds(s: Suite, xtsKey: seq<byte>, file: seq<byte>, limit: nat, key: seq<byte>, weather: nat -> Weather,
          value: seq<byte>)
    requires HEADER_SIZE <= limit
    ensures var read := FileReader(s, xtsKey, file, limit, key, weather);
            WalkResult(WalkFrom(read, limit, HEADER_SIZE), key) == Found(value) <==>
            exists recs, at, k :: Holding(s, xtsKey, file, limit, key, weather, value, recs, at, k)
  {
    var read := FileReader(s, xtsKey, file, limit, key, weather);
    var w := WalkFrom(read, limit, HEADER_SIZE);
    if WalkResult(w, key) == Found(value) {
      LastMatchExactly(w.recs, key, value);
      var k :| IsLast(w.recs, key, value, k);
      var at := WalkStands(read, limit, HEADER_SIZE);
      HoldingStands(s, xtsKey, file, limit, key, weather, value, w.recs, at, k);
    }
    if recs, at, k :| Holding(s, xtsKey, file, limit, key, weather, value, recs, at, k) {
      HoldingStands(s, xtsKey, file, limit, key, weather, value, recs, at, k);
      StandIsWalk(read, limit, recs, at, 0);
      assert recs[0..] == recs;
      LastMatchExactly(recs, key, value);
    }
  }

  /** `get` answers a value exactly if the header is read, the password opens it to a key, and under that key the
      file holds records up to the write offset of which the last with the key asked for has that value. */
  lemma FoundExactly(s: Suite, file: seq<byte>, password: seq<byte>, key: seq<byte>, weather: nat -> Weather,
          value: seq<byte>)
    ensures GetResult(s, file, password, key, weather) == Found(value) <==>
              && ParseHeader(file).Some?
              && var h := ParseHeader(file).value;
              && h.encryptedSecretSize <= |h.encryptedSecret|
              && DecryptSecret(s, password, h).Opened?
              && var xtsKey := DecryptSecret(s, password, h).xtsKey;
              exists recs, at, k :: Holding(s, xtsKey, file, h.writeOffset, key, weather, value, recs, at, k)
  {
    if ParseHeader(file).Some? {
      var h := ParseHeader(file).value;
      FieldsTyped(file);
      var unsealed := DecryptSecret(s, password, h);
      if unsealed.Opened? {
        ScanFinds(s, unsealed.xtsKey, file, h.writeOffset, key, weather, value);
      }
    }
  }

  /** Without a header, or with a password that does not open it, `get` fails. */
  lemma FailsUnopened(s: Suite, file: seq<byte>, password: seq<byte>, key: seq<byte>, weather: nat -> Weather)
    ensures ParseHeader(file).None? ==> GetResult(s, file, password, key, weather) == Failed
    ensures ParseHeader(file).Some? ==>
              var h := ParseHeader(file).value;
              && h.encryptedSecretSize <= |h.encryptedSecret|
              && (DecryptSecret(s, password, h).Wrong? ==> GetResult(s, file, password, key, weather) == Failed)
  {
    if ParseHeader(file).Some? {
      FieldsTyped(file);
    }
  }

  /** A round that the environment stops makes the first of the reads it would have made. */
  lemma StoppedReads(s: Suite, xtsKey: seq<byte>, file: seq<byte>, limit: nat, offset: nat, after: nat)
    ensures var all := RoundReads(s, xtsKey, file, limit, Calm, offset);
            && RoundReads(s, xtsKey, file, limit, Stops(after), offset) == all[..Min(after, |all|)]
            && RoundReads(s, xtsKey, file, limit, NoRoom, offset) == all
            && |all| <= 3 && all[0] == Range(offset, BLOCK)
  {
  }

  // ---------- where a scan has no meaning ----------

  /** A record longer than its buffer, for a key of its length: comparing keys or copying the value leaves
      the buffer. */
  ghost predicate TooLongFor(r: Rec, key: seq<byte>)
    requires r.Typed()
  {
    && r.keySize == |key| && 1 + r.keySize + 4 + r.valueLength > U32 - 16
    && (r.padded < 1 + r.keySize || r.plain[1..1 + r.keySize] == key)
  }

  lemma {:induction false} WalkRecords(read: Reader, limit: nat, offset: nat, key: seq<byte>)
    requires Advances(read, limit) && offset <= limit
    requires forall o: nat :: read(o).rec.Some? ==>
               (read(o).rec.value.Overruns(key) <==> TooLongFor(read(o).rec.value, key))
    ensures forall r <- WalkFrom(read, limit, offset).recs :: r.Overruns(key) <==> TooLongFor(r, key)
    decreases limit - offset
  {
    if offset + BLOCK <= limit && read(offset).rec.Some? {
      WalkRecords(read, limit, offset + read(offset).rec.value.padded, key);
    }
  }

  lemma FileRecords(s: Suite, xtsKey: seq<byte>, file: seq<byte>, limit: nat, key: seq<byte>,
          weather: nat -> Weather)
    requires HEADER_SIZE <= limit
    ensures forall r <- WalkFrom(FileReader(s, xtsKey, file, limit, key, weather), limit, HEADER_SIZE).recs ::
              r.Overruns(key) <==> TooLongFor(r, key)
  {
    var read := FileReader(s, xtsKey, file, limit, key, weather);
    forall o: nat | read(o).rec.Some?
      ensures read(o).rec.value.Overruns(key) <==> TooLongFor(read(o).rec.value, key)
    {
      FitsExactly(s, xtsKey, file, limit, o);
    }
    WalkRecords(read, limit, HEADER_SIZE, key);
  }

  /** `get` has no meaning exactly if the sealed secret leaves its buffer, or the scan visits a record that
      is longer than 2^32 - 16 bytes and has the key, or is too short to compare it. */
  lemma UndefinedExactly(s: Suite, file: seq<byte>, password: seq<byte>, key: seq<byte>, weather: nat -> Weather)
    requires ParseHeader(file).Some?
    ensures var h := ParseHeader(file).value;
            && h.encryptedSecretSize <= |h.encryptedSecret|
            && (GetResult(s, file, password, key, weather) == Undefined <==>
                match DecryptSecret(s, password, h)
                case Wrong => false
                case SecretOverruns => true
                case Opened(xtsKey) =>
                  var read := FileReader(s, xtsKey, file, h.writeOffset, key, weather);
                  exists r <- WalkFrom(read, h.writeOffset, HEADER_SIZE).recs :: TooLongFor(r, key))
  {
    var h := ParseHeader(file).value;
    FieldsTyped(file);
    var unsealed := DecryptSecret(s, password, h);
    if unsealed.Opened? {
      FileRecords(s, unsealed.xtsKey, file, h.writeOffset, key, weather);
    }
  }
}
