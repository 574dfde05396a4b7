/** The edges of the widths: inputs on which the calls leave a buffer, and a password on which they disagree. */
module Limits {
  import opened Bytes
  import opened Words
  import opened Cipher
  import opened Header
  import opened Records
  import opened Scan
  import opened Append
  import opened Store
  import opened Runs
  import opened FileSystems

  // ---------- a value too long to set ----------

  lemma WidestLength(n: nat)
    requires n == U32 + 5
    ensures RoundUp16(n) == U32 + 16
  {
  }

  /** On every store with a block of room, a one-byte key and a value of 2^32 - 1 bytes leave the buffer. */
  lemma WidestValueOverruns(s: Suite, file: seq<byte>, h: Header, password: seq<byte>, e: Entry)
    requires s.Lawful() && Shaped(file, h) && Opens(s, h, password) && h.writeOffset + BLOCK <= h.totalSize
    requires |e.key| == 1 && |e.value| == U32 - 1
    ensures SetOn(s, file, password, e, NoFault).outcome.Overrun?
  {
    WidestLength(1 + |e.key| + 4 + |e.value|);
    OverrunExactly(s, file, h, Call(password, e, NoFault));
  }

  // ---------- a record too long to get ----------

  /** One block that reads as a one-byte key and a value of 2^32 - 5 bytes. */
  function LongRecord(k: byte): (plain: seq<byte>)
    ensures |plain| == BLOCK
  {
    [1 as byte, k] + ToBytes(U32 - 5, 4) + Zeros(10)
  }

  /** A store without entries, and then that block as its only record. */
  ghost function WithLongRecord(s: Suite, file: seq<byte>, c: Contents, k: byte): seq<byte>
    requires |file| >= MIN_SIZE && c.header.Typed() && BLOCK <= s.maxUnit
  {
    Blit(Blit(file, HEADER_SIZE, CryptXts(s, true, c.xtsKey, HEADER_SIZE, LongRecord(k)).value),
         0, HeaderBytes(c.header.(writeOffset := HEADER_SIZE + BLOCK)))
  }

  lemma TwoBlits(file: seq<byte>, at: nat, d: seq<byte>, image: seq<byte>)
    requires |image| <= at && at + |d| <= |file|
    ensures var file' := Blit(Blit(file, at, d), 0, image);
            file'[..|image|] == image && file'[at..at + |d|] == d
  {
  }

  lemma LongRecordParts(k: byte)
    ensures var plain := LongRecord(k);
            plain[0] == 1 && plain[..BLOCK] == plain && FromBytes(plain[2..6]) == U32 - 5
    ensures Rounded(1 + 1 + 4) == BLOCK == Rounded(EntryLength32(1, U32 - 5))
  {
    assert LongRecord(k)[2..6] == ToBytes(U32 - 5, 4);
    WidthLimits();
    WordRoundTrip(U32 - 5, 4);
  }

  lemma LongRecordReads(s: Suite, xtsKey: seq<byte>, file: seq<byte>, k: byte)
    requires s.Lawful() && BLOCK <= s.maxUnit && |file| >= HEADER_SIZE + BLOCK
    requires CryptXts(s, true, xtsKey, HEADER_SIZE, LongRecord(k)) == Some(file[HEADER_SIZE..HEADER_SIZE + BLOCK])
    ensures ReadRecord(s, xtsKey, file, HEADER_SIZE + BLOCK, HEADER_SIZE) ==
            Some(Rec(1, U32 - 5, BLOCK, LongRecord(k)))
  {
    var plain := LongRecord(k);
    LongRecordParts(k);
    StagedDecryption(s, xtsKey, HEADER_SIZE, plain, BLOCK);
    assert file[HEADER_SIZE..HEADER_SIZE + BLOCK][..BLOCK] == file[HEADER_SIZE..HEADER_SIZE + BLOCK];
    assert DecryptAt(s, xtsKey, file, HEADER_SIZE, BLOCK) == Some(plain);
    assert KeySizeAt(s, xtsKey, file, HEADER_SIZE) == Some(1);
    assert ValueLengthAt(s, xtsKey, file, HEADER_SIZE + BLOCK, HEADER_SIZE, 1) == Some(U32 - 5);
  }

  lemma LongRecordFile(s: Suite, file: seq<byte>, c: Contents, k: byte)
    requires Shaped(file, c.header) && BLOCK <= s.maxUnit
    ensures var h, file' := c.header.(writeOffset := HEADER_SIZE + BLOCK), WithLongRecord(s, file, c, k);
            && h.Typed() && ParseHeader(file') == Some(h) && |file'| >= HEADER_SIZE + BLOCK
            && CryptXts(s, true, c.xtsKey, HEADER_SIZE, LongRecord(k)) == Some(file'[HEADER_SIZE..HEADER_SIZE + BLOCK])
  {
    var h := c.header.(writeOffset := HEADER_SIZE + BLOCK);
    TwoBlits(file, HEADER_SIZE, CryptXts(s, true, c.xtsKey, HEADER_SIZE, LongRecord(k)).value, HeaderBytes(h));
    HeaderRoundTrip(WithLongRecord(s, file, c, k), h);
  }

  /** Such a file is accepted, and reading its key has no meaning. */
  lemma LongRecordIsUndefined(s: Suite, file: seq<byte>, password: seq<byte>, c: Contents, k: byte)
    requires Represents(s, file, password, c) && c.log == [] && BLOCK <= s.maxUnit
    ensures GetResult(s, WithLongRecord(s, file, c, k), password, [k], _ => Calm) == Undefined
  {
    var h := c.header.(writeOffset := HEADER_SIZE + BLOCK);
    LongRecordFile(s, file, c, k);
    SealApart(s, c.header, HEADER_SIZE + BLOCK, password);
    LongRecordScanned(s, WithLongRecord(s, file, c, k), password, h, c.xtsKey, k);
  }

  lemma LongRecordScanned(s: Suite, file: seq<byte>, password: seq<byte>, h: Header, xtsKey: seq<byte>, k: byte)
    requires s.Lawful() && BLOCK <= s.maxUnit && |file| >= HEADER_SIZE + BLOCK
    requires h.Typed() && ParseHeader(file) == Some(h) && h.writeOffset == HEADER_SIZE + BLOCK
    requires DecryptSecret(s, password, h) == Opened(xtsKey)
    requires CryptXts(s, true, xtsKey, HEADER_SIZE, LongRecord(k)) == Some(file[HEADER_SIZE..HEADER_SIZE + BLOCK])
    ensures GetResult(s, file, password, [k], _ => Calm) == Undefined
  {
    LongRecordReads(s, xtsKey, file, k);
    FirstRecordDecides(s, file, password, h, xtsKey, [k], _ => Calm);
  }

  /** What the first record alone settles. */
  lemma FirstRecordDecides(s: Suite, file: seq<byte>, password: seq<byte>, h: Header, xtsKey: seq<byte>,
          key: seq<byte>, weather: nat -> Weather)
    requires h.Typed() && ParseHeader(file) == Some(h) && HEADER_SIZE + BLOCK <= h.writeOffset
    requires DecryptSecret(s, password, h) == Opened(xtsKey)
    ensures var first := RoundAt(s, xtsKey, file, h.writeOffset, key, weather, HEADER_SIZE).rec;
            && (first.None? ==> GetResult(s, file, password, key, weather) == Failed)
            && (first.Some? && first.value.Overruns(key) ==> GetResult(s, file, password, key, weather) == Undefined)
  {
    var read := FileReader(s, xtsKey, file, h.writeOffset, key, weather);
    assert read(HEADER_SIZE) == RoundAt(s, xtsKey, file, h.writeOffset, key, weather, HEADER_SIZE);
    FirstOfWalk(read, h.writeOffset, HEADER_SIZE, key);
  }

  lemma FirstOfWalk(read: Reader, limit: nat, offset: nat, key: seq<byte>)
    requires Advances(read, limit) && offset + BLOCK <= limit
    ensures var first, result := read(offset).rec, WalkResult(WalkFrom(read, limit, offset), key);
            && (first.None? ==> result == Failed)
            && (first.Some? && first.value.Overruns(key) ==> result == Undefined)
  {
    var w := WalkFrom(read, limit, offset);
    assert read(offset).rec.Some? ==> w.recs[0] == read(offset).rec.value && w.recs[0] in w.recs;
  }

  // ---------- a sealed secret too long to open ----------

  const LONG_SECRET: Header :=
    Header(MIN_SIZE, HEADER_SIZE, Zeros(16), Zeros(16), Zeros(SECRET_CAPACITY), SECRET_CAPACITY)

  /** Every header with more than 96 sealed bytes that lies in bounds is accepted, and then neither reading
      nor writing has a meaning for any password that is not empty; and there are such headers. */
  lemma LongSecretIsUndefined(s: Suite, file: seq<byte>, h: Header, password: seq<byte>, e: Entry,
          weather: nat -> Weather)
    requires s.Lawful() && h.Typed() && h.InBounds() && h.encryptedSecretSize > 96
    requires |file| >= HEADER_SIZE && file[..HEADER_SIZE] == HeaderBytes(h)
    requires password != [] && 1 <= |e.key| <= 255 && |e.value| < U32
    ensures ParseHeader(file) == Some(h)
    ensures GetResult(s, file, password, e.key, weather) == Undefined
    ensures SetOn(s, file, password, e, NoFault).outcome == Overrun
    ensures LONG_SECRET.Typed() && LONG_SECRET.InBounds() && LONG_SECRET.encryptedSecretSize > 96
  {
    HeaderRoundTrip(file, h);
    SecretOverrunExactly(s, password, h);
  }

  // ---------- a header that rewriting changes ----------

  /** The image of any header with its byte 7 set is read as that header, but writing it back clears the byte. */
  lemma RewriteChanges(h: Header)
    requires h.Typed() && h.InBounds()
    ensures var image := HeaderBytes(h)[7 := 1];
            ParseHeader(image) == Some(h) && HeaderBytes(h) != image
  {
    var image := HeaderBytes(h)[7 := 1];
    ImageLayout(h);
    forall lo, hi | 0 <= lo <= hi <= HEADER_SIZE && (hi <= 7 || 8 <= lo)
      ensures image[lo..hi] == HeaderBytes(h)[lo..hi]
    {
    }
    assert image[..7] == image[0..7] && HeaderBytes(h)[..7] == HeaderBytes(h)[0..7];
    HeldFields(image, h);
  }

  // ---------- a password that opens a store to another key ----------

  function Plus(a: int, b: int): int {
    if a + b < 256 then a + b else a + b - 256
  }

  function Shift(d: byte, text: seq<byte>): (out: seq<byte>)
    ensures |out| == |text|
    ensures forall i :: 0 <= i < |text| ==> out[i] == Plus(text[i], d)
  {
    seq(|text|, i requires 0 <= i < |text| => Plus(text[i], d))
  }

  /** Shifts all but the first eight bytes. */
  function ShiftTail(d: byte, text: seq<byte>): (out: seq<byte>)
    ensures |out| == |text|
    ensures forall i :: 0 <= i < |text| ==> out[i] == if i < 8 then text[i] else Plus(text[i], d)
  {
    var n := Min(8, |text|);
    text[..n] + Shift(d, text[n..])
  }

  function First(key: seq<byte>): byte {
    if key == [] then 0 else key[0]
  }

  function Opposite(d: byte): byte {
    if d == 0 then 0 else 256 - d
  }

  /** A suite that meets the laws but does not tell a wrong password from a right one. */
  function ShiftSuite(maxUnit: nat): Suite {
    Suite(
      (key, unit, index, block) => Shift(First(key), block),
      (key, unit, index, block) => Shift(Opposite(First(key)), block),
      maxUnit,
      (password, salt) => password,
      (key, iv, plain) => Padded(ShiftTail(First(key), plain)),
      (key, iv, text) =>
        match Unpadded(text)
        case None => None
        case Some(plain) => Some(ShiftTail(Opposite(First(key)), plain)))
  }

  lemma ShiftBack(d: byte, text: seq<byte>)
    ensures Shift(Opposite(d), Shift(d, text)) == text
    ensures ShiftTail(Opposite(d), ShiftTail(d, text)) == text
  {
  }

  lemma ShiftSuiteIsLawful(maxUnit: nat)
    ensures ShiftSuite(maxUnit).Lawful()
  {
    var s := ShiftSuite(maxUnit);
    forall key, unit, index, block: Block
      ensures s.decryptBlock(key, unit, index, s.encryptBlock(key, unit, index, block)) == block
    {
      ShiftBack(First(key), block);
    }
    forall key, iv, plain
      ensures |s.encryptCbc(key, iv, plain)| == (|plain| / BLOCK + 1) * BLOCK
      ensures s.decryptCbc(key, iv, s.encryptCbc(key, iv, plain)) == Some(plain)
    {
      ShiftBack(First(key), plain);
      PaddingLaws(ShiftTail(First(key), plain));
    }
    forall key, iv, text
      ensures s.decryptCbc(key, iv, text).Some? ==> Unpads(text, s.decryptCbc(key, iv, text).value)
    {
      UnpaddingLaw(text);
    }
  }

  lemma ShiftedTwice(maxUnit: nat, iv: seq<byte>, xtsKey: seq<byte>)
    requires |xtsKey| == XTS_KEY_SIZE
    ensures var s := ShiftSuite(maxUnit);
            s.decryptCbc([2], iv, s.encryptCbc([1], iv, Secret(xtsKey))) == Some(SECRET_MAGIC + Shift(255, xtsKey))
  {
    var tail := ShiftTail(1, Secret(xtsKey));
    PaddingLaws(tail);
    assert ShiftTail(254, tail)[..8] == SECRET_MAGIC;
    assert ShiftTail(254, tail)[8..] == Shift(255, xtsKey);
  }

  lemma SealedText(s: Suite, password: seq<byte>, h: Header, xtsKey: seq<byte>)
    requires s.Lawful() && h.Typed() && |xtsKey| == XTS_KEY_SIZE && password != []
    ensures var h' := EncryptSecret(s, password, h, xtsKey).value;
            && h'.encryptedSecretSize == SEALED_SIZE <= |h'.encryptedSecret| && h'.iv == h.iv && h'.salt == h.salt
            && h'.encryptedSecret[..SEALED_SIZE] == s.encryptCbc(s.deriveKey(password, h.salt), h.iv, Secret(xtsKey))
  {
    SecretRoundTrip(s, password, h, xtsKey);
  }

  lemma OpensTo(s: Suite, password: seq<byte>, h: Header, xtsKey: seq<byte>)
    requires h.encryptedSecretSize == SEALED_SIZE <= |h.encryptedSecret| && password != []
    requires |xtsKey| == XTS_KEY_SIZE && UnsealedText(s, password, h) == Some(SECRET_MAGIC + xtsKey)
    ensures DecryptSecret(s, password, h) == Opened(xtsKey)
  {
    var secret := SECRET_MAGIC + xtsKey;
    assert secret[..8] == SECRET_MAGIC && secret[8..8 + XTS_KEY_SIZE] == xtsKey;
  }

  /** The other password opens the store too, to a key that is one less in every byte. */
  lemma OtherPasswordOpens(maxUnit: nat, h: Header, xtsKey: seq<byte>)
    requires h.Typed() && |xtsKey| == XTS_KEY_SIZE && ShiftSuite(maxUnit).Lawful()
    ensures var sealed := EncryptSecret(ShiftSuite(maxUnit), [1], h, xtsKey).value;
            && sealed.encryptedSecretSize <= |sealed.encryptedSecret|
            && DecryptSecret(ShiftSuite(maxUnit), [2], sealed) == Opened(Shift(255, xtsKey))
  {
    var s := ShiftSuite(maxUnit);
    SealedText(s, [1], h, xtsKey);
    ShiftedTwice(maxUnit, h.iv, xtsKey);
    OpensTo(s, [2], EncryptSecret(s, [1], h, xtsKey).value, Shift(255, xtsKey));
  }

  lemma ShiftedFirst(maxUnit: nat, encrypt: bool, key: seq<byte>, offset: nat, text: seq<byte>)
    requires CryptXts(ShiftSuite(maxUnit), encrypt, key, offset, text).Some?
    ensures var d: int := if encrypt then First(key) else Opposite(First(key));
            CryptXts(ShiftSuite(maxUnit), encrypt, key, offset, text).value[0] == Plus(text[0], d)
  {
    assert BlockOf(text, 0)[0] == text[0];
  }

  /** What one key writes as 1, the key one higher reads as 0. */
  lemma OneReadsAsZero(maxUnit: nat, xtsKey: seq<byte>, offset: nat, plain: seq<byte>)
    requires |xtsKey| == XTS_KEY_SIZE && CryptXts(ShiftSuite(maxUnit), true, Shift(255, xtsKey), offset, plain).Some?
    requires plain[0] == 1
    ensures var cipher := CryptXts(ShiftSuite(maxUnit), true, Shift(255, xtsKey), offset, plain).value;
            CryptXts(ShiftSuite(maxUnit), false, xtsKey, offset, cipher[..BLOCK]).value[0] == 0
  {
    var cipher := CryptXts(ShiftSuite(maxUnit), true, Shift(255, xtsKey), offset, plain).value;
    ShiftedFirst(maxUnit, true, Shift(255, xtsKey), offset, plain);
    ShiftedFirst(maxUnit, false, xtsKey, offset, cipher[..BLOCK]);
  }

  lemma AfterSetReads(file: seq<byte>, h: Header, e: Entry, cipher: seq<byte>)
    requires Shaped(file, h) && |cipher| == PaddedLength(e) && h.writeOffset + |cipher| <= h.totalSize
    ensures var at, after := h.writeOffset, AfterSet(file, h, e, cipher);
            && Advanced(h, e).Typed() && ParseHeader(after) == Some(Advanced(h, e))
            && |after| == |file| && after[at..at + |cipher|] == cipher
  {
    AfterSetParts(file, h, e, cipher);
    HeaderRoundTrip(AfterSet(file, h, e, cipher), Advanced(h, e));
  }

  /** A record written under another key, whose first byte the store's key reads as zero, ends every scan. */
  lemma SpoiledBy(s: Suite, file: seq<byte>, h: Header, password: seq<byte>, cipher: seq<byte>, key: seq<byte>,
          weather: nat -> Weather)
    requires h.Typed() && ParseHeader(file) == Some(h) && HEADER_SIZE + BLOCK <= h.writeOffset <= |file|
    requires Opens(s, h, password) && BLOCK <= s.maxUnit
    requires BLOCK <= |cipher| && HEADER_SIZE + |cipher| <= |file|
    requires file[HEADER_SIZE..HEADER_SIZE + |cipher|] == cipher
    requires CryptXts(s, false, DecryptSecret(s, password, h).xtsKey, HEADER_SIZE, cipher[..BLOCK]).value[0] == 0
    ensures GetResult(s, file, password, key, weather) == Failed
  {
    var xtsKey := DecryptSecret(s, password, h).xtsKey;
    ShorterSlice(file, HEADER_SIZE, |cipher|, BLOCK);
    assert KeySizeAt(s, xtsKey, file, HEADER_SIZE) == None;
    FirstRecordDecides(s, file, password, h, xtsKey, key, weather);
  }

  lemma SpoiledAfter(s: Suite, file: seq<byte>, h: Header, password: seq<byte>, e: Entry, cipher: seq<byte>,
          key: seq<byte>, weather: nat -> Weather)
    requires Shaped(file, h) && h.writeOffset == HEADER_SIZE && Opens(s, h, password) && BLOCK <= s.maxUnit
    requires |cipher| == PaddedLength(e) && HEADER_SIZE + |cipher| <= h.totalSize
    requires CryptXts(s, false, DecryptSecret(s, password, h).xtsKey, HEADER_SIZE, cipher[..BLOCK]).value[0] == 0
    ensures GetResult(s, AfterSet(file, h, e, cipher), password, key, weather) == Failed
  {
    AfterSetReads(file, h, e, cipher);
    SealApart(s, h, h.writeOffset + PaddedLength(e), password);
    SpoiledBy(s, AfterSet(file, h, e, cipher), Advanced(h, e), password, cipher, key, weather);
  }

  lemma SpoiledStore(s: Suite, file: seq<byte>, h: Header, password: seq<byte>, other: seq<byte>, e: Entry,
          cipher: seq<byte>, key: seq<byte>, weather: nat -> Weather)
    requires s.Lawful() && Shaped(file, h) && h.writeOffset == HEADER_SIZE && Takes(s, h, e)
    requires Opens(s, h, password) && Opens(s, h, other)
    requires RecordFor(s, h, DecryptSecret(s, other, h).xtsKey, e) == Some(cipher)
    requires CryptXts(s, false, DecryptSecret(s, password, h).xtsKey, HEADER_SIZE, cipher[..BLOCK]).value[0] == 0
    ensures var r := SetOn(s, file, other, e, NoFault);
            r.outcome == Stored && GetResult(s, r.file, password, key, weather) == Failed
  {
    StoredUnder(s, file, h, Call(other, e, NoFault));
    SpoiledAfter(s, file, h, password, e, cipher, key, weather);
  }

  /** A call that is not faithful can lose everything: there are a lawful suite, a store and a call that takes
      effect with another password, after which the store's password finds nothing, not even the new entry. */
  lemma OtherKeySpoilsStore(size: nat, env: AllocateEnv, maxUnit: nat, e: Entry, key: seq<byte>,
          weather: nat -> Weather)
    requires MIN_SIZE <= size < OFF_LIMIT && |env.xtsKey| == XTS_KEY_SIZE
    requires e.Storable() && |e.key| == 1 && HEADER_SIZE + PaddedLength(e) <= size && PaddedLength(e) <= maxUnit
    ensures ShiftSuite(maxUnit).Lawful()
    ensures var s := ShiftSuite(maxUnit);
            var file := NewStore(s, size, [1], env);
            var r := SetOn(s, file, [2], e, NoFault);
            r.outcome == Stored && GetResult(s, r.file, [1], key, weather) == Failed
  {
    var s := ShiftSuite(maxUnit);
    ShiftSuiteIsLawful(maxUnit);
    NewStoreIsEmpty(s, size, [1], env);
    OtherPasswordOpens(maxUnit, NewHeader(size, env), env.xtsKey);
    OneReadsAsZero(maxUnit, env.xtsKey, HEADER_SIZE, RecordBytes(e));
    var cipher := CryptXts(s, true, Shift(255, env.xtsKey), HEADER_SIZE, RecordBytes(e)).value;
    SpoiledStore(s, NewStore(s, size, [1], env), SealedHeader(s, size, [1], env), [1], [2], e, cipher, key, weather);
  }
}
