/** Whole runs of calls on one store, with refusals, interruptions and foreign passwords in between. */
module Runs {
  import opened Bytes
  import opened Words
  import opened Cipher
  import opened Header
  import opened Records
  import opened Scan
  import opened Append
  import opened Store

  // ---------- one call ----------

  datatype Call = Call(password: seq<byte>, entry: Entry, fault: SetFault) {
    /** The lengths fit the types, and C gives the call a meaning. */
    predicate InWidth() {
      |entry.value| < U32 && entry.PlainLength() <= U32
    }
  }

  ghost predicate Opens(s: Suite, h: Header, password: seq<byte>) {
    h.encryptedSecretSize <= |h.encryptedSecret| && DecryptSecret(s, password, h).Opened?
  }

  /** A call takes effect exactly if nothing interrupts it, the password opens the store, and the store
      takes the entry. */
  ghost predicate Effective(s: Suite, h: Header, call: Call) {
    call.fault.NoFault? && Opens(s, h, call.password) && Takes(s, h, call.entry)
  }

  ghost function NextHeader(s: Suite, h: Header, call: Call): Header {
    if Effective(s, h, call) then Advanced(h, call.entry) else h
  }

  ghost function Next(s: Suite, c: Contents, call: Call): Contents {
    if Effective(s, c.header, call) then Extended(c, call.entry) else c
  }

  /** The record a call is to write with the key its password opens. */
  ghost function RecordFor(s: Suite, h: Header, xtsKey: seq<byte>, e: Entry): Option<seq<byte>>
    requires e.Storable()
  {
    CryptXts(s, true, xtsKey, h.writeOffset, RecordBytes(e))
  }

  /** If the call takes effect, the key its password opens gives the same record as the store's own. */
  ghost predicate Faithful(s: Suite, c: Contents, call: Call) {
    Effective(s, c.header, call) ==>
      RecordFor(s, c.header, DecryptSecret(s, call.password, c.header).xtsKey, call.entry) ==
      RecordFor(s, c.header, c.xtsKey, call.entry)
  }

  lemma WriteAbove(file: seq<byte>, at: nat, d: seq<byte>)
    requires at + |d| <= |file|
    ensures |WriteAt(file, at, d)| == |file| && SameBelow(file, WriteAt(file, at, d), at)
  {
  }

  /** Carrying out a plan in part stays above the write offset. */
  lemma CarryOutInPart(file: seq<byte>, h: Header, cipher: seq<byte>, fault: SetFault)
    requires h.Typed() && h.writeOffset + |cipher| <= |file| && (fault.WriteStops? || fault.HeaderFails?)
    ensures var r := CarryOut(file, Ready(h, cipher), fault);
            && r.outcome == Refused && |r.file| == |file| && SameBelow(file, r.file, h.writeOffset)
            && forall i :: h.writeOffset + |cipher| <= i < |file| ==> r.file[i] == file[i]
  {
    var left := if fault.WriteStops? then fault.left[..Min(|fault.left|, |cipher|)] else cipher;
    WriteAbove(file, h.writeOffset, left);
  }

  lemma RecordThenHeader(file: seq<byte>, at: nat, cipher: seq<byte>, image: seq<byte>)
    requires at + |cipher| <= |file| && |image| <= |file|
    ensures WriteAt(WriteAt(file, at, cipher), 0, image) == Blit(Blit(file, at, cipher), 0, image)
  {
  }

  /** Carried out in full it is the record in its place, then the header with the new offset. */
  lemma CarryOutInFull(file: seq<byte>, h: Header, e: Entry, cipher: seq<byte>, fault: SetFault)
    requires h.Typed() && HEADER_SIZE <= |file| < U64 && |cipher| == PaddedLength(e)
    requires h.writeOffset + |cipher| <= |file| && !fault.WriteStops? && !fault.HeaderFails?
    ensures CarryOut(file, Ready(h, cipher), fault) == SetResult(Stored, AfterSet(file, h, e, cipher))
  {
    assert Advanced(h, e) == h.(writeOffset := Add64(h.writeOffset, |cipher|));
    RecordThenHeader(file, h.writeOffset, cipher, HeaderBytes(Advanced(h, e)));
  }

  lemma ShapeIsLocal(f: seq<byte>, g: seq<byte>, h: Header)
    requires Shaped(f, h) && |f| == |g| && SameBelow(f, g, h.writeOffset)
    ensures Shaped(g, h)
  {
    SameRange(f, g, h.writeOffset, 0, HEADER_SIZE);
  }

  /** What carrying out a plan does to a store: stopped, every byte below the write offset stays; otherwise the
      header moves on by the record. */
  lemma CarryOutShape(file: seq<byte>, h: Header, e: Entry, cipher: seq<byte>, fault: SetFault)
    requires Shaped(file, h) && |cipher| == PaddedLength(e) && h.writeOffset + |cipher| <= h.totalSize
    ensures var r, stopped := CarryOut(file, Ready(h, cipher), fault), fault.WriteStops? || fault.HeaderFails?;
            && r.outcome == (if stopped then Refused else Stored) && |r.file| == |file|
            && (stopped ==> SameBelow(file, r.file, h.writeOffset) && Shaped(r.file, h))
            && (!stopped ==> Shaped(r.file, Advanced(h, e)))
  {
    if fault.WriteStops? || fault.HeaderFails? {
      CarryOutInPart(file, h, cipher, fault);
      ShapeIsLocal(file, CarryOut(file, Ready(h, cipher), fault).file, h);
    } else {
      CarryOutInFull(file, h, e, cipher, fault);
      AfterSetParts(file, h, e, cipher);
    }
  }

  /** What a call with any password does to the file: it stores exactly if it is effective, and the header
      moves on by the record; otherwise every byte below the write offset stays. */
  lemma SetKeepsShape(s: Suite, file: seq<byte>, h: Header, call: Call)
    requires s.Lawful() && Shaped(file, h) && call.InWidth()
    ensures var r := SetOn(s, file, call.password, call.entry, call.fault);
            && r.outcome == (if Effective(s, h, call) then Stored else Refused)
            && |r.file| == |file|
            && Shaped(r.file, NextHeader(s, h, call))
            && (r.outcome.Refused? ==> SameBelow(file, r.file, h.writeOffset))
  {
    var e, fault := call.entry, call.fault;
    if !fault.OpenFails? {
      var p := PlanSet(s, file, call.password, e, !fault.NoMemory?);
      PlanOnStore(s, file, h, call.password, e, !fault.NoMemory?);
      if p.Ready? {
        CarryOutShape(file, h, e, p.cipher, fault);
      }
    }
  }

  /** An effective call with any password leaves the file with the record under the key it opens. */
  lemma StoredUnder(s: Suite, file: seq<byte>, h: Header, call: Call)
    requires s.Lawful() && Shaped(file, h) && Effective(s, h, call)
    ensures var cipher := RecordFor(s, h, DecryptSecret(s, call.password, h).xtsKey, call.entry);
            && cipher.Some? && |cipher.value| == PaddedLength(call.entry)
            && SetOn(s, file, call.password, call.entry, call.fault) ==
               SetResult(Stored, AfterSet(file, h, call.entry, cipher.value))
  {
    PlanOnStore(s, file, h, call.password, call.entry, true);
    CarryOutInFull(file, h, call.entry, PlanSet(s, file, call.password, call.entry, true).cipher, call.fault);
  }

  lemma NotExtended(s: Suite, file: seq<byte>, c: Contents, e: Entry, cipher: seq<byte>)
    requires Shaped(file, c.header) && c.header.writeOffset == Start(c.log, |c.log|) && e.Storable()
    requires |cipher| == PaddedLength(e) && c.header.writeOffset + |cipher| <= |file|
    requires RecordFor(s, c.header, c.xtsKey, e) != Some(cipher)
    ensures !Begins(s, AfterSet(file, c.header, e, cipher), Extended(c, e))
  {
    var after, c', n := AfterSet(file, c.header, e, cipher), Extended(c, e), |c.log|;
    StartOfPrefix(c.log, [e], n);
    AfterSetParts(file, c.header, e, cipher);
    assert !Written(s, after, c', n);
  }

  /** The new record in place under the store's key is what makes the file a store with one more entry. */
  lemma LastRecordDecides(s: Suite, file: seq<byte>, password: seq<byte>, c: Contents, e: Entry, cipher: seq<byte>)
    requires Represents(s, file, password, c) && e.Storable()
    requires |cipher| == PaddedLength(e) && c.header.writeOffset + |cipher| <= |file|
    ensures Represents(s, AfterSet(file, c.header, e, cipher), password, Extended(c, e)) <==>
            RecordFor(s, c.header, c.xtsKey, e) == Some(cipher)
  {
    if RecordFor(s, c.header, c.xtsKey, e) == Some(cipher) {
      SetExtends(s, file, password, c, e, cipher);
    } else {
      NotExtended(s, file, c, e, cipher);
    }
  }

  /** A call with any password: it stores exactly if it is effective, and the file then stands for the log
      with its entry, or otherwise for the same contents, exactly if the call is faithful. */
  lemma SetRefinesAppend(s: Suite, file: seq<byte>, password: seq<byte>, c: Contents, call: Call)
    requires Represents(s, file, password, c) && call.InWidth()
    ensures var r := SetOn(s, file, call.password, call.entry, call.fault);
            && r.outcome == (if Effective(s, c.header, call) then Stored else Refused)
            && (Represents(s, r.file, password, Next(s, c, call)) <==> Faithful(s, c, call))
  {
    var e, h := call.entry, c.header;
    SetKeepsShape(s, file, h, call);
    if Effective(s, h, call) {
      StoredUnder(s, file, h, call);
      LastRecordDecides(s, file, password, c, e, RecordFor(s, h, DecryptSecret(s, call.password, h).xtsKey, e).value);
    } else {
      RepresentsIsLocal(s, file, SetOn(s, file, call.password, e, call.fault).file, password, c);
    }
  }

  /** Commit point: a call without effect, with any password and wherever it is stopped, changes no answer of
      `get`, for any password, key and environment. */
  lemma CommitPoint(s: Suite, file: seq<byte>, h: Header, call: Call, reader: seq<byte>, key: seq<byte>,
          weather: nat -> Weather)
    requires s.Lawful() && Shaped(file, h) && call.InWidth() && !Effective(s, h, call)
    ensures GetResult(s, SetOn(s, file, call.password, call.entry, call.fault).file, reader, key, weather) ==
            GetResult(s, file, reader, key, weather)
  {
    HeaderRoundTrip(file, h);
    SetKeepsShape(s, file, h, call);
    GetIsLocal(s, file, SetOn(s, file, call.password, call.entry, call.fault).file, reader, key, weather);
  }

  /** Exactly when the entry is longer than the buffer computed for it. */
  ghost predicate TooWide(s: Suite, h: Header, password: seq<byte>, e: Entry) {
    && e.PlainLength() > U32
    && 1 <= |e.key| <= 255 && Opens(s, h, password)
    && h.writeOffset + (PaddedLength(e) - U32) <= h.totalSize
  }

  lemma WrapsPast(n: nat)
    requires U32 < n < U32 + 512
    ensures 16 <= Rounded(n) == RoundUp16(n) - U32 < n
  {
  }

  lemma PlanOverruns(s: Suite, file: seq<byte>, h: Header, password: seq<byte>, e: Entry, memory: bool)
    requires s.Lawful() && Shaped(file, h) && |e.value| < U32
    ensures PlanSet(s, file, password, e, memory).Overruns? <==> memory && TooWide(s, h, password, e)
  {
    HeaderRoundTrip(file, h);
    SealedSizeFits(s, h, password);
    NoCarry(h.writeOffset, Rounded(e.PlainLength()));
    if U32 < e.PlainLength() && |e.key| <= 255 {
      WrapsPast(e.PlainLength());
    }
  }

  /** Outside the widths: where C gives a call on a store no meaning, and nowhere else. */
  lemma OverrunExactly(s: Suite, file: seq<byte>, h: Header, call: Call)
    requires s.Lawful() && Shaped(file, h) && |call.entry.value| < U32
    ensures SetOn(s, file, call.password, call.entry, call.fault).outcome.Overrun? <==>
            TooWide(s, h, call.password, call.entry) && !call.fault.OpenFails? && !call.fault.NoMemory?
  {
    PlanOverruns(s, file, h, call.password, call.entry, !call.fault.NoMemory?);
  }

  // ---------- calls on any file ----------

  /** The room a call needs, without a carry out of 64 bits. */
  predicate HasRoom(h: Header, length: nat) {
    h.writeOffset < OFF_LIMIT && h.writeOffset + length <= h.totalSize
  }

  /** `set` stores, on any file, exactly if nothing interrupts it, the key has 1 to 255 bytes, the header is read,
      the password opens it, and the record is short enough for the length fields and the cipher and has room. */
  lemma StoredExactly(s: Suite, file: seq<byte>, password: seq<byte>, e: Entry, fault: SetFault)
    requires |e.value| < U32
    ensures SetOn(s, file, password, e, fault).outcome == Stored <==>
              && fault.NoFault? && 1 <= |e.key| <= 255 && ParseHeader(file).Some?
              && var h, n := ParseHeader(file).value, 5 + |e.key| + |e.value|;
              Opens(s, h, password) && n <= U32 - 16 && RoundUp16(n) <= s.maxUnit && HasRoom(h, RoundUp16(n))
  {
    if ParseHeader(file).Some? {
      var h := ParseHeader(file).value;
      FieldsTyped(file);
      PlanReadyExactly(s, file, h, password, e, !fault.NoMemory?);
    }
  }

  lemma PlanReadyExactly(s: Suite, file: seq<byte>, h: Header, password: seq<byte>, e: Entry, memory: bool)
    requires |e.value| < U32 && ParseHeader(file) == Some(h) && h.Typed()
    ensures PlanSet(s, file, password, e, memory).Ready? <==>
              && 1 <= |e.key| <= 255 && memory && Opens(s, h, password)
              && e.PlainLength() <= U32 - 16 && PaddedLength(e) <= s.maxUnit && HasRoom(h, PaddedLength(e))
  {
    RoundedLength(e);
    if h.writeOffset < OFF_LIMIT {
      NoCarry(h.writeOffset, Rounded(e.PlainLength()));
    }
  }

  lemma RoundedLength(e: Entry)
    requires |e.value| < U32
    ensures Rounded(e.PlainLength()) < U32
    ensures e.PlainLength() <= U32 - 16 <==> e.PlainLength() <= Rounded(e.PlainLength())
    ensures e.PlainLength() <= U32 - 16 ==> Rounded(e.PlainLength()) == PaddedLength(e) && PaddedLength(e) >= 16
  {
  }

  /** `set` leaves a buffer, on any file, exactly if it gets to the secret and that is too long, or gets to an
      entry longer than 2^32 bytes whose length cut to 32 bits has room. */
  lemma SetOverrunsExactly(s: Suite, file: seq<byte>, password: seq<byte>, e: Entry, fault: SetFault)
    requires |e.value| < U32
    ensures SetOn(s, file, password, e, fault).outcome == Overrun <==>
              && !fault.OpenFails? && 1 <= |e.key| <= 255 && ParseHeader(file).Some?
              && var h, n := ParseHeader(file).value, 5 + |e.key| + |e.value|;
              && h.encryptedSecretSize <= |h.encryptedSecret|
              && (|| DecryptSecret(s, password, h).SecretOverruns?
                  || (&& DecryptSecret(s, password, h).Opened? && !fault.NoMemory? && n > U32
                      && Add64(h.writeOffset, RoundUp16(n) - U32) <= h.totalSize))
  {
    if ParseHeader(file).Some? && 1 <= |e.key| <= 255 {
      FieldsTyped(file);
      var n := e.PlainLength();
      if n > U32 {
        WrapsPast(n);
      } else {
        RoundedBelow(n);
      }
    }
  }

  /** A refused call leaves the file alone, unless it was stopped in the middle of its writes; without a header it
      is always refused and leaves the file alone. */
  lemma RefusedKeepsFile(s: Suite, file: seq<byte>, password: seq<byte>, e: Entry, fault: SetFault)
    requires |e.value| < U32
    ensures var r := SetOn(s, file, password, e, fault);
            && (r.outcome == Refused && !fault.WriteStops? && !fault.HeaderFails? ==> r.file == file)
            && (ParseHeader(file).None? ==> r == SetResult(Refused, file))
  {
  }

  /** What a call stopped in its writes leaves behind, on a store that would have taken the entry: the bytes that
      came through, or the whole record, at the write offset. */
  lemma StoppedLeaves(s: Suite, file: seq<byte>, h: Header, password: seq<byte>, e: Entry, left: seq<byte>)
    requires s.Lawful() && Shaped(file, h) && Opens(s, h, password) && Takes(s, h, e)
    ensures var at, n, r := h.writeOffset, Min(|left|, PaddedLength(e)), SetOn(s, file, password, e, WriteStops(left));
            |r.file| == |file| && r.file[at..at + n] == left[..n]
    ensures var at, r := h.writeOffset, SetOn(s, file, password, e, HeaderFails);
            && |r.file| == |file|
            && RecordFor(s, h, DecryptSecret(s, password, h).xtsKey, e) == Some(r.file[at..at + PaddedLength(e)])
  {
    PlanOnStore(s, file, h, password, e, true);
    var cipher := PlanSet(s, file, password, e, true).cipher;
    BlitSlice(file, h.writeOffset, cipher, 0, 0);
    BlitSlice(file, h.writeOffset, left[..Min(|left|, |cipher|)], 0, 0);
  }

  // ---------- passwords that do not open ----------

  /** The password decrypts the sealed bytes to nothing, or to something that is no secret. */
  ghost predicate Locked(s: Suite, h: Header, password: seq<byte>)
    requires h.encryptedSecretSize <= |h.encryptedSecret|
  {
    var text := s.decryptCbc(s.deriveKey(password, h.salt), h.iv, h.encryptedSecret[..h.encryptedSecretSize]);
    password == [] || text.None? || |text.value| < 72 || text.value[..8] != SECRET_MAGIC
  }

  /** On a store every password either opens it or is locked out, and one that is locked out neither stores nor
      reads: every call is refused and leaves the file alone, and every read fails. */
  lemma LockedOut(s: Suite, file: seq<byte>, h: Header, password: seq<byte>, e: Entry, fault: SetFault,
          key: seq<byte>, weather: nat -> Weather)
    requires s.Lawful() && Shaped(file, h) && |e.value| < U32
    ensures Opens(s, h, password) <==> !Locked(s, h, password)
    ensures Locked(s, h, password) ==> SetOn(s, file, password, e, fault) == SetResult(Refused, file)
    ensures Locked(s, h, password) ==> GetResult(s, file, password, key, weather) == Failed
  {
    HeaderRoundTrip(file, h);
    LockedIsWrong(s, h, password);
    FailsUnopened(s, file, password, key, weather);
  }

  lemma LockedIsWrong(s: Suite, h: Header, password: seq<byte>)
    requires s.Lawful() && h.Typed() && h.InBounds() && h.encryptedSecretSize == SEALED_SIZE
    ensures DecryptSecret(s, password, h) ==
            if Locked(s, h, password) then Wrong
            else Opened(UnsealedText(s, password, h).value[8..72])
    ensures !Locked(s, h, password) ==> UnsealedText(s, password, h).Some? && |UnsealedText(s, password, h).value| >= 72
  {
    SealedSizeFits(s, h, password);
  }

  /** Append-only footprint: a call with any password changes bytes only in the offset field of the header,
      and there only if it stores, and in the place of the new record. */
  lemma SetFootprint(s: Suite, file: seq<byte>, h: Header, call: Call, i: nat)
    requires s.Lawful() && Shaped(file, h) && call.InWidth() && i < |file|
    ensures var r := SetOn(s, file, call.password, call.entry, call.fault);
            var at := h.writeOffset;
            && |r.file| == |file|
            && (r.file[i] == file[i]
                || (r.outcome.Stored? && 32 <= i < 40)
                || at <= i < at + PaddedLength(call.entry))
  {
    var e, fault := call.entry, call.fault;
    SetKeepsShape(s, file, h, call);
    if !fault.OpenFails? {
      var p := PlanSet(s, file, call.password, e, !fault.NoMemory?);
      PlanOnStore(s, file, h, call.password, e, !fault.NoMemory?);
      if p.Ready? && (fault.WriteStops? || fault.HeaderFails?) {
        CarryOutInPart(file, h, p.cipher, fault);
      } else if p.Ready? {
        CarryOutInFull(file, h, e, p.cipher, fault);
        AfterSetFootprint(file, h, e, p.cipher, i);
      }
    }
  }

  // ---------- runs ----------

  ghost predicate CallStep(s: Suite, f: seq<byte>, call: Call, g: seq<byte>) {
    call.InWidth() && g == SetOn(s, f, call.password, call.entry, call.fault).file
  }

  lemma StepKeepsShape(s: Suite, f: seq<byte>, h: Header, call: Call, g: seq<byte>, i: nat)
    requires s.Lawful() && Shaped(f, h) && CallStep(s, f, call, g)
    ensures Shaped(g, NextHeader(s, h, call)) && |f| == |g|
    ensures i < h.writeOffset && !(32 <= i < 40) ==> g[i] == f[i]
  {
    SetKeepsShape(s, f, h, call);
    if i < |f| {
      SetFootprint(s, f, h, call, i);
    }
  }

  lemma StepRefines(s: Suite, f: seq<byte>, password: seq<byte>, c: Contents, call: Call, g: seq<byte>)
    requires Represents(s, f, password, c) && CallStep(s, f, call, g)
    ensures Represents(s, g, password, Next(s, c, call)) <==> Faithful(s, c, call)
  {
    SetRefinesAppend(s, f, password, c, call);
  }

  /** The write offset has no part in opening a store. */
  lemma SealApart(s: Suite, h: Header, offset: nat, password: seq<byte>)
    requires h.encryptedSecretSize <= |h.encryptedSecret|
    ensures DecryptSecret(s, password, h.(writeOffset := offset)) == DecryptSecret(s, password, h)
  {
  }

  lemma StartExtended(log: seq<Entry>, e: Entry)
    ensures Start(log + [e], |log| + 1) == Start(log, |log|) + PaddedLength(e)
  {
    StartOfPrefix(log, [e], |log|);
  }

  lemma StepFramed(s: Suite, f: seq<byte>, password: seq<byte>, c: Contents, call: Call, g: seq<byte>)
    requires Framed(s, f, password, c) && CallStep(s, f, call, g)
    ensures Framed(s, g, password, Next(s, c, call))
  {
    StepKeepsShape(s, f, c.header, call, g, 0);
    assert Next(s, c, call).header == NextHeader(s, c.header, call);
    if Effective(s, c.header, call) {
      SealApart(s, c.header, c.header.writeOffset + PaddedLength(call.entry), password);
      StartExtended(c.log, call.entry);
    }
  }

  lemma SlicesAlike(f: seq<byte>, g: seq<byte>, lo: nat, hi: nat)
    requires |f| == |g| && lo <= hi <= |f| && forall i :: lo <= i < hi ==> f[i] == g[i]
    ensures f[lo..hi] == g[lo..hi]
  {
  }

  /** The bytes between the header and the write offset stay, whatever the call. */
  lemma StepKeepsBytes(s: Suite, f: seq<byte>, h: Header, call: Call, g: seq<byte>, lo: nat, hi: nat)
    requires s.Lawful() && Shaped(f, h) && CallStep(s, f, call, g) && HEADER_SIZE <= lo <= hi <= h.writeOffset
    ensures |f| == |g| && f[lo..hi] == g[lo..hi]
  {
    StepKeepsShape(s, f, h, call, g, 0);
    forall i | lo <= i < hi
      ensures f[i] == g[i]
    {
      StepKeepsShape(s, f, h, call, g, i);
    }
    SlicesAlike(f, g, lo, hi);
  }

  /** Files alike between the header and a limit hold the same records there. */
  lemma RecordsAlike(s: Suite, f: seq<byte>, g: seq<byte>, c: Contents, limit: nat)
    requires HEADER_SIZE <= limit <= |f| == |g| && f[HEADER_SIZE..limit] == g[HEADER_SIZE..limit]
    requires Start(c.log, |c.log|) <= limit
    ensures Begins(s, f, c) <==> Begins(s, g, c)
  {
    forall i | 0 <= i < |c.log|
      ensures Written(s, f, c, i) <==> Written(s, g, c, i)
    {
      StartMonotone(c.log, i + 1, |c.log|);
      SameInside(f, g, HEADER_SIZE, limit, Start(c.log, i), Start(c.log, i + 1));
    }
  }

  /** The records of a log below the write offset all stay. */
  lemma StepKeepsRecords(s: Suite, f: seq<byte>, h: Header, call: Call, g: seq<byte>, c: Contents)
    requires s.Lawful() && Shaped(f, h) && CallStep(s, f, call, g)
    requires Start(c.log, |c.log|) <= h.writeOffset
    ensures Begins(s, f, c) <==> Begins(s, g, c)
  {
    StepKeepsBytes(s, f, h, call, g, HEADER_SIZE, h.writeOffset);
    RecordsAlike(s, f, g, c, h.writeOffset);
  }

  lemma BeginsShorter(s: Suite, file: seq<byte>, c: Contents, e: Entry)
    requires Begins(s, file, Extended(c, e))
    ensures Begins(s, file, c)
  {
    forall i | 0 <= i < |c.log|
      ensures Written(s, file, c, i)
    {
      assert Written(s, file, Extended(c, e), i);
      StartOfPrefix(c.log, [e], i);
      StartOfPrefix(c.log, [e], i + 1);
    }
  }

  /** So a store after a call was a store before. */
  lemma StepBack(s: Suite, f: seq<byte>, password: seq<byte>, c: Contents, call: Call, g: seq<byte>)
    requires Framed(s, f, password, c) && CallStep(s, f, call, g) && Represents(s, g, password, Next(s, c, call))
    ensures Represents(s, f, password, c)
  {
    if Effective(s, c.header, call) {
      BeginsShorter(s, g, c, call.entry);
    }
    StepKeepsRecords(s, f, c.header, call, g, c);
  }

  /** What a call makes of a file, exactly: a store with the next contents if and only if the file was a store
      and the call is faithful. */
  lemma StepExact(s: Suite, f: seq<byte>, password: seq<byte>, c: Contents, call: Call, g: seq<byte>)
    requires Framed(s, f, password, c) && CallStep(s, f, call, g)
    ensures Represents(s, g, password, Next(s, c, call)) <==> Represents(s, f, password, c) && Faithful(s, c, call)
  {
    if Represents(s, f, password, c) {
      StepRefines(s, f, password, c, call, g);
    } else if Represents(s, g, password, Next(s, c, call)) {
      StepBack(s, f, password, c, call, g);
    }
  }

  /** The successive contents of the file under a sequence of calls. */
  ghost predicate IsCallRun(s: Suite, files: seq<seq<byte>>, calls: seq<Call>) {
    |files| == |calls| + 1 && forall i :: 0 <= i < |calls| ==> CallStep(s, files[i], calls[i], files[i + 1])
  }

  /** The same run on contents alone: no bytes, no cipher, no scan. */
  ghost function After(s: Suite, c: Contents, calls: seq<Call>): Contents {
    if calls == [] then c else Next(s, After(s, c, calls[..|calls| - 1]), calls[|calls| - 1])
  }

  /** ... and on headers alone. */
  ghost function HeaderAfter(s: Suite, h: Header, calls: seq<Call>): Header {
    if calls == [] then h else NextHeader(s, HeaderAfter(s, h, calls[..|calls| - 1]), calls[|calls| - 1])
  }

  lemma HeaderAfterOne(s: Suite, h: Header, calls: seq<Call>, call: Call)
    ensures var m := HeaderAfter(s, h, calls);
            && HeaderAfter(s, h, calls + [call]) == NextHeader(s, m, call)
            && m.writeOffset <= NextHeader(s, m, call).writeOffset
  {
    assert (calls + [call])[..|calls|] == calls;
  }

  lemma {:induction false} HeaderAfterKeeps(s: Suite, h: Header, calls: seq<Call>)
    ensures HeaderAfter(s, h, calls) == h.(writeOffset := HeaderAfter(s, h, calls).writeOffset)
  {
    if calls != [] {
      HeaderAfterKeeps(s, h, calls[..|calls| - 1]);
    }
  }

  /** The sealed key and the size never change, the log only grows and the write offset never goes back. */
  lemma {:induction false} AfterKeeps(s: Suite, c: Contents, calls: seq<Call>)
    ensures var c' := After(s, c, calls);
            && c'.xtsKey == c.xtsKey
            && c'.header == c.header.(writeOffset := c'.header.writeOffset)
            && c.header.writeOffset <= c'.header.writeOffset
            && c.log <= c'.log
  {
    if calls != [] {
      AfterKeeps(s, c, calls[..|calls| - 1]);
    }
  }

  lemma AfterOne(s: Suite, c: Contents, calls: seq<Call>, n: nat)
    requires n < |calls|
    ensures After(s, c, calls[..n + 1]) == Next(s, After(s, c, calls[..n]), calls[n])
  {
    assert calls[..n + 1][..n] == calls[..n];
  }

  /** Every effective call of a run writes the record that the store's own key would give. */
  ghost predicate AllFaithful(s: Suite, c: Contents, calls: seq<Call>) {
    if calls == [] then true
    else
      var before := calls[..|calls| - 1];
      AllFaithful(s, c, before) && Faithful(s, After(s, c, before), calls[|calls| - 1])
  }

  lemma FaithfulOne(s: Suite, c: Contents, calls: seq<Call>, n: nat)
    requires n < |calls|
    ensures AllFaithful(s, c, calls[..n + 1]) <==>
            AllFaithful(s, c, calls[..n]) && Faithful(s, After(s, c, calls[..n]), calls[n])
  {
    assert calls[..n + 1][..n] == calls[..n];
  }

  /** It is enough that every password that opens the store opens it to its own key. */
  lemma {:induction false} RecognisedIsFaithful(s: Suite, c: Contents, calls: seq<Call>)
    requires forall call <- calls ::
               Opens(s, c.header, call.password) ==> DecryptSecret(s, call.password, c.header) == Opened(c.xtsKey)
    ensures AllFaithful(s, c, calls)
  {
    if calls != [] {
      var before, call := calls[..|calls| - 1], calls[|calls| - 1];
      assert call in calls;
      RecognisedIsFaithful(s, c, before);
      AfterKeeps(s, c, before);
    }
  }

  /** Over every run of calls with any passwords, the file keeps its size and its sealed key, and its write
      offset is the one of the contents at that point. */
  lemma {:induction false} RunFramed(s: Suite, files: seq<seq<byte>>, password: seq<byte>, c: Contents,
          calls: seq<Call>, n: nat)
    requires IsCallRun(s, files, calls) && n <= |calls| && Framed(s, files[0], password, c)
    ensures Framed(s, files[n], password, After(s, c, calls[..n]))
  {
    if n != 0 {
      RunFramed(s, files, password, c, calls, n - 1);
      assert CallStep(s, files[n - 1], calls[n - 1], files[n]);
      StepFramed(s, files[n - 1], password, After(s, c, calls[..n - 1]), calls[n - 1], files[n]);
      AfterOne(s, c, calls, n - 1);
    }
  }

  lemma RunStepExact(s: Suite, files: seq<seq<byte>>, password: seq<byte>, c: Contents, calls: seq<Call>, n: nat)
    requires IsCallRun(s, files, calls) && n < |calls| && Framed(s, files[0], password, c)
    ensures Represents(s, files[n + 1], password, After(s, c, calls[..n + 1])) <==>
            && Represents(s, files[n], password, After(s, c, calls[..n]))
            && Faithful(s, After(s, c, calls[..n]), calls[n])
  {
    RunFramed(s, files, password, c, calls, n);
    assert CallStep(s, files[n], calls[n], files[n + 1]);
    AfterOne(s, c, calls, n);
    StepExact(s, files[n], password, After(s, c, calls[..n]), calls[n], files[n + 1]);
  }

  /** Refinement over runs, exactly: at every point of every run of calls with any passwords, the file
      represents the contents at that point if and only if every call so far was faithful. */
  lemma {:induction false} RunRefines(s: Suite, files: seq<seq<byte>>, password: seq<byte>, c: Contents,
          calls: seq<Call>, n: nat)
    requires IsCallRun(s, files, calls) && n <= |calls| && Represents(s, files[0], password, c)
    ensures Represents(s, files[n], password, After(s, c, calls[..n])) <==> AllFaithful(s, c, calls[..n])
  {
    if n != 0 {
      RunRefines(s, files, password, c, calls, n - 1);
      RunStepExact(s, files, password, c, calls, n - 1);
      FaithfulOne(s, c, calls, n - 1);
    }
  }

  lemma {:induction false} AfterGrows(s: Suite, c: Contents, calls: seq<Call>, m: nat, n: nat)
    requires m <= n <= |calls|
    ensures After(s, c, calls[..m]).header.writeOffset <= After(s, c, calls[..n]).header.writeOffset
    decreases n
  {
    if m < n {
      AfterGrows(s, c, calls, m, n - 1);
      AfterOne(s, c, calls, n - 1);
    }
  }

  lemma {:induction false} Along(holds: nat -> bool, m: nat, n: nat)
    requires m <= n && holds(m) && forall k :: m <= k < n && holds(k) ==> holds(k + 1)
    ensures holds(n)
    decreases n
  {
    if m < n {
      Along(holds, m, n - 1);
    }
  }

  lemma RunKeepsOne(s: Suite, files: seq<seq<byte>>, password: seq<byte>, c: Contents, calls: seq<Call>,
          kept: Contents, k: nat)
    requires IsCallRun(s, files, calls) && k < |calls| && Framed(s, files[0], password, c)
    requires Start(kept.log, |kept.log|) <= After(s, c, calls[..k]).header.writeOffset
    ensures Begins(s, files[k], kept) ==> Begins(s, files[k + 1], kept)
  {
    var h := After(s, c, calls[..k]).header;
    RunFramed(s, files, password, c, calls, k);
    assert CallStep(s, files[k], calls[k], files[k + 1]);
    StepKeepsRecords(s, files[k], h, calls[k], files[k + 1], kept);
  }

  lemma RunKeepsFrom(s: Suite, files: seq<seq<byte>>, password: seq<byte>, c: Contents, calls: seq<Call>,
          kept: Contents, m: nat, n: nat)
    requires IsCallRun(s, files, calls) && m <= n <= |calls| && Framed(s, files[0], password, c)
    requires forall k :: m <= k < n ==>
               Start(kept.log, |kept.log|) <= After(s, c, calls[..k]).header.writeOffset
    requires Begins(s, files[m], kept)
    ensures Begins(s, files[n], kept)
  {
    var holds := (k: nat) => k <= |calls| && Begins(s, files[k], kept);
    forall k | m <= k < n && holds(k)
      ensures holds(k + 1)
    {
      RunKeepsOne(s, files, password, c, calls, kept, k);
    }
    Along(holds, m, n);
  }

  /** The records at one point of a run end below every later write offset. */
  lemma RecordsEndBelow(s: Suite, files: seq<seq<byte>>, password: seq<byte>, c: Contents, calls: seq<Call>, m: nat,
          n: nat)
    requires IsCallRun(s, files, calls) && m <= n <= |calls| && Framed(s, files[0], password, c)
    ensures var log := After(s, c, calls[..m]).log;
            Start(log, |log|) <= After(s, c, calls[..n]).header.writeOffset
  {
    RunFramed(s, files, password, c, calls, m);
    AfterGrows(s, c, calls, m, n);
  }

  /** What is stored stays: the records of a store at one point of a run stand in the file ever after,
      whatever calls follow. */
  lemma RunKeepsRecords(s: Suite, files: seq<seq<byte>>, password: seq<byte>, c: Contents, calls: seq<Call>, m: nat,
          n: nat)
    requires IsCallRun(s, files, calls) && m <= n <= |calls|
    requires Framed(s, files[0], password, c) && Begins(s, files[m], After(s, c, calls[..m]))
    ensures Begins(s, files[n], After(s, c, calls[..m]))
  {
    var kept := After(s, c, calls[..m]);
    forall k | m <= k < n
      ensures Start(kept.log, |kept.log|) <= After(s, c, calls[..k]).header.writeOffset
    {
      RecordsEndBelow(s, files, password, c, calls, m, k);
    }
    RunKeepsFrom(s, files, password, c, calls, kept, m, n);
  }

  /** What every run answers, whatever passwords its calls have: if the calls up to some point were faithful,
      then ever after `get` finds the records of that point first, and what it answers is decided by these and
      by whatever the store's key reads behind them. */
  lemma RunAnswers(s: Suite, files: seq<seq<byte>>, password: seq<byte>, c: Contents, calls: seq<Call>, m: nat,
          n: nat, key: seq<byte>, weather: nat -> Weather)
    requires IsCallRun(s, files, calls) && m <= n <= |calls|
    requires Represents(s, files[0], password, c) && AllFaithful(s, c, calls[..m])
    ensures var log, limit := After(s, c, calls[..m]).log, After(s, c, calls[..n]).header.writeOffset;
            && Start(log, |log|) <= limit
            && var read := FileReader(s, c.xtsKey, files[n], limit, key, weather);
            GetResult(s, files[n], password, key, weather) ==
            if Disturbed(log, weather, key) then Failed
            else Answer(log, WalkFrom(read, limit, Start(log, |log|)), key)
  {
    var kept, h := After(s, c, calls[..m]), After(s, c, calls[..n]).header;
    RunRefines(s, files, password, c, calls, m);
    RunKeepsRecords(s, files, password, c, calls, m, n);
    RecordsEndBelow(s, files, password, c, calls, m, n);
    RunFramed(s, files, password, c, calls, n);
    AfterKeeps(s, c, calls[..m]);
    AfterKeeps(s, c, calls[..n]);
    HeaderRoundTrip(files[n], h);
    GetOfPrefix(s, files[n], h, password, kept, key, weather);
  }

  /** So as long as every call was faithful, `get` answers exactly what the map of the effective calls so far
      holds, and under faults fails rather than answer anything else. */
  lemma RunIsMap(s: Suite, files: seq<seq<byte>>, password: seq<byte>, c: Contents, calls: seq<Call>, n: nat,
          key: seq<byte>, weather: nat -> Weather)
    requires IsCallRun(s, files, calls) && n <= |calls|
    requires Represents(s, files[0], password, c) && AllFaithful(s, c, calls[..n])
    ensures var log := After(s, c, calls[..n]).log;
            GetResult(s, files[n], password, key, weather) ==
            if Disturbed(log, weather, key) || key !in MapOf(log) then Failed else Found(MapOf(log)[key])
  {
    var c' := After(s, c, calls[..n]);
    RunRefines(s, files, password, c, calls, n);
    GetRefinesLookup(s, files[n], password, c', key, weather);
    LookupIsMap(c'.log, key);
  }

  lemma StepOfRun(s: Suite, files: seq<seq<byte>>, m: Header, calls: seq<Call>, n: nat, i: nat)
    requires s.Lawful() && IsCallRun(s, files, calls) && n < |calls| && Shaped(files[n], m)
    ensures Shaped(files[n + 1], NextHeader(s, m, calls[n])) && |files[n + 1]| == |files[n]|
    ensures i < m.writeOffset && !(32 <= i < 40) ==> files[n + 1][i] == files[n][i]
  {
    assert CallStep(s, files[n], calls[n], files[n + 1]);
    StepKeepsShape(s, files[n], m, calls[n], files[n + 1], i);
  }

  /** Over every run of calls with any passwords, the header outside its offset field and every record
      written so far stay the same bytes, and the header moves on with the effective calls. */
  lemma {:induction false} RunFootprint(s: Suite, files: seq<seq<byte>>, h: Header, calls: seq<Call>, n: nat, i: nat)
    requires s.Lawful() && IsCallRun(s, files, calls) && n <= |calls| && Shaped(files[0], h)
    ensures Shaped(files[n], HeaderAfter(s, h, calls[..n])) && |files[n]| == |files[0]|
    ensures h.writeOffset <= HeaderAfter(s, h, calls[..n]).writeOffset
    ensures i < h.writeOffset && !(32 <= i < 40) ==> files[n][i] == files[0][i]
  {
    if n != 0 {
      var before := calls[..n - 1];
      RunFootprint(s, files, h, calls, n - 1, i);
      StepOfRun(s, files, HeaderAfter(s, h, before), calls, n - 1, i);
      assert calls[..n] == before + [calls[n - 1]];
      HeaderAfterOne(s, h, before, calls[n - 1]);
    }
  }

  /** A password that is locked out of a store stays locked out over every run: every read with it fails, and
      every call with it leaves the file alone. */
  lemma RunLocksOut(s: Suite, files: seq<seq<byte>>, h: Header, calls: seq<Call>, n: nat, password: seq<byte>,
          key: seq<byte>, weather: nat -> Weather)
    requires s.Lawful() && IsCallRun(s, files, calls) && n <= |calls| && Shaped(files[0], h)
    requires Locked(s, h, password)
    ensures GetResult(s, files[n], password, key, weather) == Failed
    ensures n < |calls| && calls[n].password == password ==> files[n + 1] == files[n]
  {
    var m := HeaderAfter(s, h, calls[..n]);
    RunFootprint(s, files, h, calls, n, 0);
    HeaderAfterKeeps(s, h, calls[..n]);
    LockedOut(s, files[n], m, password, Entry([], []), NoFault, key, weather);
    if n < |calls| && calls[n].password == password {
      assert CallStep(s, files[n], calls[n], files[n + 1]);
      LockedOut(s, files[n], m, password, calls[n].entry, calls[n].fault, key, weather);
    }
  }

  // ---------- the last effective call ----------

  ghost predicate EffectiveAt(s: Suite, c: Contents, calls: seq<Call>, i: nat)
    requires i < |calls|
  {
    Effective(s, After(s, c, calls[..i]).header, calls[i])
  }

  /** Call i is the last of the first n that took effect with the key, and it carried the value. */
  ghost predicate LastSet(s: Suite, c: Contents, calls: seq<Call>, n: nat, key: seq<byte>, value: seq<byte>, i: nat)
    requires n <= |calls|
  {
    && i < n && EffectiveAt(s, c, calls, i) && calls[i].entry == Entry(key, value)
    && forall j :: i < j < n && EffectiveAt(s, c, calls, j) ==> calls[j].entry.key != key
  }

  /** The last of the first n calls that took effect with the key carried the value. */
  ghost predicate SetLast(s: Suite, c: Contents, calls: seq<Call>, n: nat, key: seq<byte>, value: seq<byte>)
    requires n <= |calls|
  {
    exists i :: LastSet(s, c, calls, n, key, value, i)
  }

  lemma LastSetHere(s: Suite, c: Contents, calls: seq<Call>, n: nat, key: seq<byte>, value: seq<byte>)
    requires n < |calls| && EffectiveAt(s, c, calls, n) && calls[n].entry.key == key
    ensures SetLast(s, c, calls, n + 1, key, value) <==> calls[n].entry.value == value
  {
    assert calls[n].entry.value == value ==> LastSet(s, c, calls, n + 1, key, value, n);
    if SetLast(s, c, calls, n + 1, key, value) {
      var m := n + 1;
      var i :| LastSet(s, c, calls, m, key, value, i);
      assert i == n;
    }
  }

  lemma LastSetBefore(s: Suite, c: Contents, calls: seq<Call>, n: nat, key: seq<byte>, value: seq<byte>)
    requires n < |calls| && !(EffectiveAt(s, c, calls, n) && calls[n].entry.key == key)
    ensures SetLast(s, c, calls, n + 1, key, value) <==>
            SetLast(s, c, calls, n, key, value)
  {
    var m := n + 1;
    if i :| LastSet(s, c, calls, m, key, value, i) {
      assert i != n && LastSet(s, c, calls, n, key, value, i);
    }
    if i :| LastSet(s, c, calls, n, key, value, i) {
      assert LastSet(s, c, calls, n + 1, key, value, i);
    }
  }

  lemma LogStep(s: Suite, c: Contents, calls: seq<Call>, n: nat, key: seq<byte>)
    requires n < |calls|
    ensures Lookup(After(s, c, calls[..n + 1]).log, key) ==
            if EffectiveAt(s, c, calls, n) && calls[n].entry.key == key then Some(calls[n].entry.value)
            else Lookup(After(s, c, calls[..n]).log, key)
  {
    AfterOne(s, c, calls, n);
    LookupOne(After(s, c, calls[..n]).log, calls[n].entry, key);
  }

  /** The log of a run from an empty store holds a key with the value of the last effective call with it. */
  lemma {:induction false} LogIsCalls(s: Suite, c: Contents, calls: seq<Call>, n: nat, key: seq<byte>, value: seq<byte>)
    requires n <= |calls| && c.log == []
    ensures Lookup(After(s, c, calls[..n]).log, key) == Some(value) <==>
            SetLast(s, c, calls, n, key, value)
  {
    if n != 0 {
      LogIsCalls(s, c, calls, n - 1, key, value);
      LogStep(s, c, calls, n - 1, key);
      if EffectiveAt(s, c, calls, n - 1) && calls[n - 1].entry.key == key {
        LastSetHere(s, c, calls, n - 1, key, value);
      } else {
        LastSetBefore(s, c, calls, n - 1, key, value);
      }
    }
  }

  lemma LookupOne(log: seq<Entry>, e: Entry, key: seq<byte>)
    ensures Lookup(log + [e], key) == if e.key == key then Some(e.value) else Lookup(log, key)
  {
    assert (log + [e])[..|log|] == log;
  }

  // ---------- interruptions leave no trace ----------

  lemma SameBlit(f: seq<byte>, g: seq<byte>, at: nat, d: seq<byte>, image: seq<byte>)
    requires SameBelow(f, g, at) && at + |d| <= |f| == |g| && |image| <= at
    ensures SameBelow(Blit(Blit(f, at, d), 0, image), Blit(Blit(g, at, d), 0, image), at + |d|)
  {
    forall i | 0 <= i < at
      ensures f[i] == g[i]
    {
      assert f[..at][i] == g[..at][i];
    }
  }

  lemma StoredAlike(s: Suite, f: seq<byte>, g: seq<byte>, h: Header, call: Call)
    requires s.Lawful() && Shaped(f, h) && Shaped(g, h) && SameBelow(f, g, h.writeOffset) && Effective(s, h, call)
    ensures SameBelow(SetOn(s, f, call.password, call.entry, call.fault).file,
                      SetOn(s, g, call.password, call.entry, call.fault).file, Advanced(h, call.entry).writeOffset)
  {
    StoredUnder(s, f, h, call);
    StoredUnder(s, g, h, call);
    var cipher := RecordFor(s, h, DecryptSecret(s, call.password, h).xtsKey, call.entry).value;
    SameBlit(f, g, h.writeOffset, cipher, HeaderBytes(Advanced(h, call.entry)));
  }

  lemma SameThrough(f: seq<byte>, f': seq<byte>, g: seq<byte>, g': seq<byte>, limit: nat)
    requires SameBelow(f, g, limit) && SameBelow(f, f', limit) && SameBelow(g, g', limit)
    ensures SameBelow(f', g', limit)
  {
  }

  /** The same call on two files that are equal below the write offset leaves them equal below the new one. */
  lemma StepAlike(s: Suite, f: seq<byte>, g: seq<byte>, h: Header, call: Call, f': seq<byte>, g': seq<byte>)
    requires s.Lawful() && Shaped(f, h) && Shaped(g, h) && SameBelow(f, g, h.writeOffset)
    requires CallStep(s, f, call, f') && CallStep(s, g, call, g')
    ensures Shaped(f', NextHeader(s, h, call)) && Shaped(g', NextHeader(s, h, call))
    ensures SameBelow(f', g', NextHeader(s, h, call).writeOffset)
  {
    SetKeepsShape(s, f, h, call);
    SetKeepsShape(s, g, h, call);
    if Effective(s, h, call) {
      StoredAlike(s, f, g, h, call);
    } else {
      SameThrough(f, f', g, g', h.writeOffset);
    }
  }

  /** Two runs of the same calls from such files stay alike. */
  lemma {:induction false} RunsAlike(s: Suite, files: seq<seq<byte>>, files': seq<seq<byte>>, h: Header,
          calls: seq<Call>, n: nat)
    requires IsCallRun(s, files, calls) && IsCallRun(s, files', calls) && n <= |calls|
    requires s.Lawful() && Shaped(files[0], h) && Shaped(files'[0], h) && SameBelow(files[0], files'[0], h.writeOffset)
    ensures var m := HeaderAfter(s, h, calls[..n]);
            Shaped(files[n], m) && Shaped(files'[n], m) && SameBelow(files[n], files'[n], m.writeOffset)
  {
    if n != 0 {
      var before, call := calls[..n - 1], calls[n - 1];
      RunsAlike(s, files, files', h, calls, n - 1);
      assert CallStep(s, files[n - 1], call, files[n]) && CallStep(s, files'[n - 1], call, files'[n]);
      StepAlike(s, files[n - 1], files'[n - 1], HeaderAfter(s, h, before), call, files[n], files'[n]);
      assert calls[..n] == before + [call];
      HeaderAfterOne(s, h, before, call);
    }
  }

  /** A part of a run is a run. */
  lemma PartOfRun(s: Suite, files: seq<seq<byte>>, calls: seq<Call>, lo: nat, hi: nat)
    requires IsCallRun(s, files, calls) && lo <= hi <= |calls|
    ensures IsCallRun(s, files[lo..hi + 1], calls[lo..hi])
  {
    forall i | 0 <= i < hi - lo
      ensures CallStep(s, files[lo..hi + 1][i], calls[lo..hi][i], files[lo..hi + 1][i + 1])
    {
      assert CallStep(s, files[lo + i], calls[lo + i], files[lo + i + 1]);
    }
  }

  /** A call without effect (refused, or stopped anywhere before the header write with arbitrary bytes left
      behind) might as well never have been made: whatever calls with whatever passwords follow, every read
      with any password answers the same in the run without it. */
  lemma InterruptionLeavesNoTrace(s: Suite, files: seq<seq<byte>>, files': seq<seq<byte>>, h: Header,
          before: seq<Call>, call: Call, after: seq<Call>, reader: seq<byte>, key: seq<byte>, weather: nat -> Weather)
    requires IsCallRun(s, files, before + [call] + after) && IsCallRun(s, files', before + after)
    requires s.Lawful() && files[0] == files'[0] && Shaped(files[0], h)
    requires !Effective(s, HeaderAfter(s, h, before), call)
    ensures GetResult(s, files[|files| - 1], reader, key, weather) ==
            GetResult(s, files'[|files'| - 1], reader, key, weather)
  {
    var calls, calls', b, m := before + [call] + after, before + after, |before|, HeaderAfter(s, h, before);
    var start, start' := files[..b + 1], files'[..b + 1];
    PartOfRun(s, files, calls, 0, b);
    PartOfRun(s, files', calls', 0, b);
    assert calls[0..b] == before == calls'[0..b] && start == files[0..b + 1] && start' == files'[0..b + 1];
    RunsAlike(s, start, start', h, before, b);
    assert before[..b] == before;
    assert CallStep(s, files[b], calls[b], files[b + 1]) && calls[b] == call;
    SetKeepsShape(s, files[b], m, call);
    assert SameBelow(files[b + 1], files'[b], m.writeOffset);
    RestAlike(s, files, files', m, calls, calls', b, after, reader, key, weather);
  }

  lemma RestAlike(s: Suite, files: seq<seq<byte>>, files': seq<seq<byte>>, m: Header, calls: seq<Call>,
          calls': seq<Call>, b: nat, after: seq<Call>, reader: seq<byte>, key: seq<byte>, weather: nat -> Weather)
    requires IsCallRun(s, files, calls) && IsCallRun(s, files', calls')
    requires |calls| == b + 1 + |after| && |calls'| == b + |after| && calls[b + 1..] == after == calls'[b..]
    requires s.Lawful() && Shaped(files[b + 1], m) && Shaped(files'[b], m)
    requires SameBelow(files[b + 1], files'[b], m.writeOffset)
    ensures GetResult(s, files[|files| - 1], reader, key, weather) ==
            GetResult(s, files'[|files'| - 1], reader, key, weather)
  {
    var end, end', k := files[b + 1..], files'[b..], |after|;
    PartOfRun(s, files, calls, b + 1, |calls|);
    PartOfRun(s, files', calls', b, |calls'|);
    assert end == files[b + 1..|calls| + 1] && end' == files'[b..|calls'| + 1];
    assert calls[b + 1..|calls|] == after == calls'[b..|calls'|];
    RunsAlike(s, end, end', m, after, k);
    HeaderRoundTrip(end[k], HeaderAfter(s, m, after[..k]));
    GetIsLocal(s, end[k], end'[k], reader, key, weather);
  }

  // ---------- capacity ----------

  function TotalLength(log: seq<Entry>): nat {
    if log == [] then 0 else TotalLength(log[..|log| - 1]) + PaddedLength(log[|log| - 1])
  }

  lemma {:induction false} StartIsTotal(log: seq<Entry>, i: nat)
    requires i <= |log|
    ensures Start(log, i) == HEADER_SIZE + TotalLength(log[..i])
  {
    if i != 0 {
      StartIsTotal(log, i - 1);
      assert log[..i][..i - 1] == log[..i - 1];
    }
  }

  /** Capacity accounting: the write offset is the header plus the padded lengths of the entries, a whole
      number of blocks within the file, whose length is the size in the header. */
  lemma Capacity(s: Suite, file: seq<byte>, password: seq<byte>, c: Contents)
    requires Represents(s, file, password, c)
    ensures c.header.writeOffset == HEADER_SIZE + TotalLength(c.log)
    ensures c.header.writeOffset % BLOCK == 0 && c.header.writeOffset <= c.header.totalSize == |file|
  {
    StartIsTotal(c.log, |c.log|);
    assert c.log[..|c.log|] == c.log;
  }

  /** A call with nothing else against it is refused exactly when one more entry would exceed the size. */
  lemma RefusedForRoom(s: Suite, file: seq<byte>, password: seq<byte>, c: Contents, call: Call)
    requires Represents(s, file, password, c) && call.fault.NoFault? && Opens(s, c.header, call.password)
    requires call.entry.Storable() && PaddedLength(call.entry) <= s.maxUnit
    ensures SetOn(s, file, call.password, call.entry, call.fault).outcome ==
            if HEADER_SIZE + TotalLength(c.log + [call.entry]) > |file| then Refused else Stored
  {
    Capacity(s, file, password, c);
    assert (c.log + [call.entry])[..|c.log|] == c.log;
    SetKeepsShape(s, file, c.header, call);
  }
}
