/** The 4096-byte file header and the store key sealed inside it. */
module Header {
  import opened Bytes
  import opened Words
  import opened Cipher

  const HEADER_SIZE := 4096
  const MIN_SIZE := 8192
  const SECRET_CAPACITY := 128
  const SECRET_SIZE := 72
  const XTS_KEY_SIZE := 64
  const SEALED_SIZE := 80  // what the padded secret takes of the capacity
  const MAGIC: seq<byte> := [0x50, 0x41, 0x44, 0x4C, 0x4F, 0x43, 0x4B]               // PADLOCK
  const SECRET_MAGIC: seq<byte> := [0x50, 0x4C, 0x53, 0x45, 0x43, 0x52, 0x45, 0x54]  // PLSECRET

  datatype Header = Header(
    totalSize: nat,
    writeOffset: nat,
    salt: seq<byte>,
    iv: seq<byte>,
    encryptedSecret: seq<byte>,
    encryptedSecretSize: nat)
  {
    /** The field widths of the C struct. */
    ghost predicate Typed() {
      && totalSize < U64 && writeOffset < U64 && encryptedSecretSize < U32
      && |salt| == 16 && |iv| == 16 && |encryptedSecret| == SECRET_CAPACITY
    }

    /** The bounds a header is checked against when it is read. */
    predicate InBounds() {
      && MIN_SIZE <= totalSize
      && HEADER_SIZE <= writeOffset <= totalSize
      && encryptedSecretSize <= SECRET_CAPACITY
    }
  }

  // ---------- the image of a header in the file ----------

  /** The image `write_header` builds: a zeroed buffer with each field copied to its place. */
  ghost function HeaderBytes(h: Header): (image: seq<byte>)
    requires h.Typed()
    ensures |image| == HEADER_SIZE
  {
    var b0 := Blit(Zeros(HEADER_SIZE), 0, MAGIC);
    var b1 := Blit(b0, 8, ToBytes(1, 4));
    var b2 := Blit(b1, 16, ToBytes(HEADER_SIZE, 8));
    var b3 := Blit(b2, 24, ToBytes(h.totalSize, 8));
    var b4 := Blit(b3, 32, ToBytes(h.writeOffset, 8));
    var b5 := Blit(b4, 40, h.salt);
    var b6 := Blit(b5, 56, h.iv);
    var b7 := Blit(b6, 72, ToBytes(h.encryptedSecretSize, 4));
    Blit(b7, 76, h.encryptedSecret)
  }

  /** The header `read_header` extracts, without its bounds check. */
  function Fields(image: seq<byte>): Header
    requires |image| >= HEADER_SIZE
  {
    Header(FromBytes(image[24..32]), FromBytes(image[32..40]), image[40..56], image[56..72],
           image[76..204], FromBytes(image[72..76]))
  }

  ghost function ParseHeader(file: seq<byte>): (r: Option<Header>)
    ensures r.Some? ==> r.value.InBounds() && |file| >= HEADER_SIZE
  {
    if |file| < HEADER_SIZE || file[..7] != MAGIC || FromBytes(file[8..12]) != 1 then None
    else if Fields(file).InBounds() then Some(Fields(file)) else None
  }

  method WriteHeader(h: Header) returns (buffer: array<byte>)
    requires h.Typed()
    ensures fresh(buffer) && buffer[..] == HeaderBytes(h)
  {
    buffer := Calloc(HEADER_SIZE);
    CopyInto(buffer, 0, MAGIC);
    PutU32(buffer, 8, 1);
    PutU64(buffer, 16, HEADER_SIZE);
    PutU64(buffer, 24, h.totalSize);
    PutU64(buffer, 32, h.writeOffset);
    CopyInto(buffer, 40, h.salt);
    CopyInto(buffer, 56, h.iv);
    PutU32(buffer, 72, h.encryptedSecretSize);
    CopyInto(buffer, 76, h.encryptedSecret);
  }

  method Calloc(n: nat) returns (buffer: array<byte>)
    ensures fresh(buffer) && buffer[..] == Zeros(n)
  {
    buffer := new byte[n](_ => 0);
  }

  /** `memcpy` into a buffer. */
  method CopyInto(target: array<byte>, at: nat, data: seq<byte>)
    requires at + |data| <= target.Length
    modifies target
    ensures target[..] == Blit(old(target[..]), at, data)
  {
    forall i | 0 <= i < |data| {
      target[at + i] := data[i];
    }
  }

  method ReadHeader(file: seq<byte>) returns (r: Option<Header>)
    ensures r == ParseHeader(file)
  {
    if |file| < HEADER_SIZE {
      return None;
    }
    var version := GetU32(file[8..12]);
    if file[..7] != MAGIC || version != 1 {
      return None;
    }
    var totalSize := GetU64(file[24..32]);
    var writeOffset := GetU64(file[32..40]);
    var secretSize := GetU32(file[72..76]);
    var h := Header(totalSize, writeOffset, file[40..56], file[56..72], file[76..204], secretSize);
    r := if h.InBounds() then Some(h) else None;
  }

  lemma FieldsTyped(file: seq<byte>)
    requires |file| >= HEADER_SIZE
    ensures Fields(file).Typed()
  {
    WidthLimits();
    BytesRoundTrip(file[24..32]);
    BytesRoundTrip(file[32..40]);
    BytesRoundTrip(file[72..76]);
  }

  // ---------- where each field lies ----------

  /** The bytes of an image that `read_header` does not look at are the ones written as constants. */
  predicate ReservedAsWritten(image: seq<byte>)
    requires |image| >= HEADER_SIZE
  {
    && image[7] == 0
    && image[12..16] == Zeros(4)
    && image[16..24] == ToBytes(HEADER_SIZE, 8)
    && image[204..HEADER_SIZE] == Zeros(HEADER_SIZE - 204)
  }

  ghost predicate Holds(image: seq<byte>, h: Header)
    requires |image| >= HEADER_SIZE
  {
    && image[..7] == MAGIC && image[8..12] == ToBytes(1, 4)
    && image[24..32] == ToBytes(h.totalSize, 8)
    && image[32..40] == ToBytes(h.writeOffset, 8)
    && image[40..56] == h.salt && image[56..72] == h.iv
    && image[72..76] == ToBytes(h.encryptedSecretSize, 4)
    && image[76..204] == h.encryptedSecret
  }

  /** A slice of a buffer after a copy: the copied data, or what was there if the copy is elsewhere. */
  lemma BlitSlice(s: seq<byte>, at: nat, d: seq<byte>, lo: nat, hi: nat)
    requires at + |d| <= |s| && lo <= hi <= |s|
    ensures Blit(s, at, d)[at..at + |d|] == d
    ensures hi <= at || at + |d| <= lo ==> Blit(s, at, d)[lo..hi] == s[lo..hi]
  {
  }

  /** The last of the copies into [lo, hi) decides that slice of the image. */
  lemma ImageSlice(h: Header, lo: nat, hi: nat)
    requires h.Typed() && lo <= hi <= HEADER_SIZE
    ensures var image := HeaderBytes(h);
            && (lo == 0 && hi == 7 ==> image[lo..hi] == MAGIC)
            && (lo == 8 && hi == 12 ==> image[lo..hi] == ToBytes(1, 4))
            && (lo == 16 && hi == 24 ==> image[lo..hi] == ToBytes(HEADER_SIZE, 8))
            && (lo == 24 && hi == 32 ==> image[lo..hi] == ToBytes(h.totalSize, 8))
            && (lo == 32 && hi == 40 ==> image[lo..hi] == ToBytes(h.writeOffset, 8))
            && (lo == 40 && hi == 56 ==> image[lo..hi] == h.salt)
            && (lo == 56 && hi == 72 ==> image[lo..hi] == h.iv)
            && (lo == 72 && hi == 76 ==> image[lo..hi] == ToBytes(h.encryptedSecretSize, 4))
            && (lo == 76 && hi == 204 ==> image[lo..hi] == h.encryptedSecret)
            && ((lo == 7 && hi == 8) || (lo == 12 && hi == 16) || lo == 204 ==>
                  image[lo..hi] == Zeros(HEADER_SIZE)[lo..hi])
  {
    var b0 := Blit(Zeros(HEADER_SIZE), 0, MAGIC);
    var b1 := Blit(b0, 8, ToBytes(1, 4));
    var b2 := Blit(b1, 16, ToBytes(HEADER_SIZE, 8));
    var b3 := Blit(b2, 24, ToBytes(h.totalSize, 8));
    var b4 := Blit(b3, 32, ToBytes(h.writeOffset, 8));
    var b5 := Blit(b4, 40, h.salt);
    var b6 := Blit(b5, 56, h.iv);
    var b7 := Blit(b6, 72, ToBytes(h.encryptedSecretSize, 4));
    BlitSlice(Zeros(HEADER_SIZE), 0, MAGIC, lo, hi);
    BlitSlice(b0, 8, ToBytes(1, 4), lo, hi);
    BlitSlice(b1, 16, ToBytes(HEADER_SIZE, 8), lo, hi);
    BlitSlice(b2, 24, ToBytes(h.totalSize, 8), lo, hi);
    BlitSlice(b3, 32, ToBytes(h.writeOffset, 8), lo, hi);
    BlitSlice(b4, 40, h.salt, lo, hi);
    BlitSlice(b5, 56, h.iv, lo, hi);
    BlitSlice(b6, 72, ToBytes(h.encryptedSecretSize, 4), lo, hi);
    BlitSlice(b7, 76, h.encryptedSecret, lo, hi);
  }

  lemma ImageLayout(h: Header)
    requires h.Typed()
    ensures Holds(HeaderBytes(h), h) && ReservedAsWritten(HeaderBytes(h))
  {
    var image := HeaderBytes(h);
    ImageSlice(h, 0, 7);
    ImageSlice(h, 7, 8);
    ImageSlice(h, 8, 12);
    ImageSlice(h, 12, 16);
    ImageSlice(h, 16, 24);
    ImageSlice(h, 24, 32);
    ImageSlice(h, 32, 40);
    ImageSlice(h, 40, 56);
    ImageSlice(h, 56, 72);
    ImageSlice(h, 72, 76);
    ImageSlice(h, 76, 204);
    ImageSlice(h, 204, HEADER_SIZE);
    assert image[7] == image[7..8][0];
    assert Zeros(HEADER_SIZE)[12..16] == Zeros(4) && Zeros(HEADER_SIZE)[204..HEADER_SIZE] == Zeros(HEADER_SIZE - 204);
  }

  /** The field ranges and the reserved ranges cover the whole image. */
  lemma LayoutDetermines(image: seq<byte>, h: Header)
    requires h.Typed() && |image| == HEADER_SIZE
    requires Holds(image, h) && ReservedAsWritten(image)
    ensures image == HeaderBytes(h)
  {
    var image' := HeaderBytes(h);
    ImageLayout(h);
    forall i | 0 <= i < HEADER_SIZE
      ensures image[i] == image'[i]
    {
      SameSlice(image, image', i, 0, 7);
      SameSlice(image, image', i, 8, 12);
      SameSlice(image, image', i, 12, 16);
      SameSlice(image, image', i, 16, 24);
      SameSlice(image, image', i, 24, 32);
      SameSlice(image, image', i, 32, 40);
      SameSlice(image, image', i, 40, 56);
      SameSlice(image, image', i, 56, 72);
      SameSlice(image, image', i, 72, 76);
      SameSlice(image, image', i, 76, 204);
      SameSlice(image, image', i, 204, HEADER_SIZE);
    }
  }

  lemma SameSlice(a: seq<byte>, b: seq<byte>, i: nat, lo: nat, hi: nat)
    requires lo <= hi <= |a| && hi <= |b| && a[lo..hi] == b[lo..hi]
    ensures lo <= i < hi ==> a[i] == b[i]
  {
    if lo <= i < hi {
      assert a[lo..hi][i - lo] == b[lo..hi][i - lo];
    }
  }

  // ---------- round trips ----------

  lemma HeldFields(file: seq<byte>, h: Header)
    requires h.Typed() && |file| >= HEADER_SIZE && Holds(file, h)
    ensures Fields(file) == h && FromBytes(file[8..12]) == 1
  {
    WidthLimits();
    WordRoundTrip(h.totalSize, 8);
    WordRoundTrip(h.writeOffset, 8);
    WordRoundTrip(h.encryptedSecretSize, 4);
    WordRoundTrip(1, 4);
  }

  lemma SameImage(file: seq<byte>, image: seq<byte>, h: Header)
    requires |image| == HEADER_SIZE <= |file| && file[..HEADER_SIZE] == image && Holds(image, h)
    ensures Holds(file, h)
  {
  }

  /** Round trip: a file that starts with the image of a header reads back as exactly that header,
      and is refused exactly when the header is out of bounds. */
  lemma HeaderRoundTrip(file: seq<byte>, h: Header)
    requires h.Typed()
    requires |file| >= HEADER_SIZE && file[..HEADER_SIZE] == HeaderBytes(h)
    ensures ParseHeader(file) == if h.InBounds() then Some(h) else None
  {
    ImageLayout(h);
    SameImage(file, HeaderBytes(h), h);
    HeldFields(file, h);
  }

  /** The bytes that reading looks at. */
  predicate Looked(i: nat) {
    i < 7 || 8 <= i < 12 || 24 <= i < 204
  }

  /** What reading accepts, and as what: a file is read as a header exactly if it has the length of one, agrees
      with the image of that header wherever reading looks, and the sizes lie in bounds. */
  lemma ParseExactly(file: seq<byte>, h: Header)
    requires h.Typed()
    ensures ParseHeader(file) == Some(h) <==>
              && |file| >= 4096 && (forall i :: 0 <= i < 4096 && Looked(i) ==> file[i] == HeaderBytes(h)[i])
              && 8192 <= h.totalSize && 4096 <= h.writeOffset <= h.totalSize && h.encryptedSecretSize <= 128
  {
    ImageLayout(h);
    if ParseHeader(file) == Some(h) {
      ReadBack(file);
      HoldsAlike(file, HeaderBytes(h), h);
    } else if |file| >= HEADER_SIZE && forall i :: 0 <= i < 4096 && Looked(i) ==> file[i] == HeaderBytes(h)[i] {
      HoldsBack(file, HeaderBytes(h), h);
      HeldFields(file, h);
    }
  }

  /** Two images that hold a header agree wherever reading looks, ... */
  lemma HoldsAlike(a: seq<byte>, b: seq<byte>, h: Header)
    requires h.Typed() && |a| >= HEADER_SIZE && |b| >= HEADER_SIZE && Holds(a, h) && Holds(b, h)
    ensures forall i :: 0 <= i < 4096 && Looked(i) ==> a[i] == b[i]
  {
    forall i | 0 <= i < 4096 && Looked(i)
      ensures a[i] == b[i]
    {
      SameSlice(a, b, i, 0, 7);
      SameSlice(a, b, i, 8, 12);
      SameSlice(a, b, i, 24, 32);
      SameSlice(a, b, i, 32, 40);
      SameSlice(a, b, i, 40, 56);
      SameSlice(a, b, i, 56, 72);
      SameSlice(a, b, i, 72, 76);
      SameSlice(a, b, i, 76, 204);
    }
  }

  /** ... and what agrees with one there holds the header too. */
  lemma HoldsBack(a: seq<byte>, b: seq<byte>, h: Header)
    requires h.Typed() && |a| >= HEADER_SIZE && |b| >= HEADER_SIZE && Holds(b, h)
    requires forall i :: 0 <= i < 4096 && Looked(i) ==> a[i] == b[i]
    ensures Holds(a, h)
  {
    SlicesAgree(a, b, 0, 7);
    SlicesAgree(a, b, 8, 12);
    SlicesAgree(a, b, 24, 32);
    SlicesAgree(a, b, 32, 40);
    SlicesAgree(a, b, 40, 56);
    SlicesAgree(a, b, 56, 72);
    SlicesAgree(a, b, 72, 76);
    SlicesAgree(a, b, 76, 204);
  }

  lemma SlicesAgree(a: seq<byte>, b: seq<byte>, lo: nat, hi: nat)
    requires lo <= hi <= 4096 && |a| >= HEADER_SIZE && |b| >= HEADER_SIZE
    requires forall i :: lo <= i < hi ==> Looked(i)
    requires forall i :: 0 <= i < 4096 && Looked(i) ==> a[i] == b[i]
    ensures a[lo..hi] == b[lo..hi]
  {
    assert forall i :: lo <= i < hi ==> Looked(i) && a[i] == b[i];
  }

  /** Rewriting the header just read leaves the header bytes as they were exactly when the bytes that
      reading ignores are the constants that writing puts there. */
  lemma RewriteIsIdentity(file: seq<byte>)
    requires ParseHeader(file).Some?
    ensures Fields(file).Typed()
    ensures HeaderBytes(Fields(file)) == file[..HEADER_SIZE] <==> ReservedAsWritten(file)
  {
    var h := Fields(file);
    var image := file[..HEADER_SIZE];
    FieldsTyped(file);
    ReadBack(file);
    ImageLayout(h);
    forall lo, hi | 0 <= lo <= hi <= HEADER_SIZE
      ensures file[lo..hi] == image[lo..hi]
    {
    }
    assert file[7] == image[7];
    if ReservedAsWritten(file) {
      LayoutDetermines(image, h);
    }
  }

  lemma ReadBack(file: seq<byte>)
    requires ParseHeader(file).Some?
    ensures Fields(file).Typed() && Holds(file, Fields(file))
  {
    FieldsTyped(file);
    BytesRoundTrip(file[8..12]);
    BytesRoundTrip(file[24..32]);
    BytesRoundTrip(file[32..40]);
    BytesRoundTrip(file[72..76]);
  }

  /** Two headers that differ only in the write offset have images that differ only in bytes 32 to 39. */
  lemma OffsetField(h: Header, offset: nat)
    requires h.Typed() && offset < U64
    ensures HeaderBytes(h.(writeOffset := offset)) == Blit(HeaderBytes(h), 32, ToBytes(offset, 8))
  {
  }

  // ---------- the sealed store key ----------

  function Secret(xtsKey: seq<byte>): seq<byte>
    requires |xtsKey| == XTS_KEY_SIZE
  {
    SECRET_MAGIC + xtsKey
  }

  /** `encrypt_secret`: seals the key into the header under the password; an empty password fails. */
  function EncryptSecret(s: Suite, password: seq<byte>, h: Header, xtsKey: seq<byte>): (r: Option<Header>)
    requires s.Lawful() && h.Typed() && |xtsKey| == XTS_KEY_SIZE
  {
    if password == [] then None
    else
      var sealed := s.encryptCbc(s.deriveKey(password, h.salt), h.iv, Secret(xtsKey));
      Some(h.(encryptedSecret := Blit(h.encryptedSecret, 0, sealed), encryptedSecretSize := |sealed|))
  }

  /** What `decrypt_secret` comes to. `SecretOverruns`: the decryption writes past its buffer, and C gives
      the call no meaning. */
  datatype Unsealed = Opened(xtsKey: seq<byte>) | Wrong | SecretOverruns

  const SECRET_BUFFER := SECRET_SIZE + 16

  /** What the first decryption step writes for n bytes: all whole blocks, but a last whole block is held
      back until its padding is checked. */
  function UpdateOutput(n: nat): nat {
    if n == 0 || n % BLOCK != 0 then n - n % BLOCK else n - BLOCK
  }

  /** `decrypt_secret`: recovers the key if the plain text is long enough and carries the magic. */
  function DecryptSecret(s: Suite, password: seq<byte>, h: Header): (r: Unsealed)
    requires h.encryptedSecretSize <= |h.encryptedSecret|
    ensures r.Opened? ==> |r.xtsKey| == XTS_KEY_SIZE
  {
    if password == [] then Wrong
    else if UpdateOutput(h.encryptedSecretSize) > SECRET_BUFFER then SecretOverruns
    else
      match UnsealedText(s, password, h)
      case None => Wrong
      case Some(secret) =>
        if |secret| > SECRET_BUFFER then SecretOverruns
        else if |secret| < SECRET_SIZE || secret[..8] != SECRET_MAGIC then Wrong
        else Opened(secret[8..8 + XTS_KEY_SIZE])
  }

  /** The plain text behind the sealed bytes, if its padding is right. */
  function UnsealedText(s: Suite, password: seq<byte>, h: Header): Option<seq<byte>>
    requires h.encryptedSecretSize <= |h.encryptedSecret|
  {
    s.decryptCbc(s.deriveKey(password, h.salt), h.iv, h.encryptedSecret[..h.encryptedSecretSize])
  }

  /** The buffer is left exactly for more than 96 sealed bytes, and for 96 if they hold more than 88. */
  lemma SecretOverrunExactly(s: Suite, password: seq<byte>, h: Header)
    requires s.Lawful() && h.Typed() && h.InBounds()
    ensures DecryptSecret(s, password, h).SecretOverruns? <==>
            && password != []
            && (|| h.encryptedSecretSize > 96
                || (&& h.encryptedSecretSize == 96
                    && UnsealedText(s, password, h).Some?
                    && |UnsealedText(s, password, h).value| > SECRET_BUFFER))
  {
    var n, text := h.encryptedSecretSize, UnsealedText(s, password, h);
    assert text.Some? ==> Unpads(h.encryptedSecret[..n], text.value);
  }

  /** The sealed bytes decrypt under the password to a text of a secret's length with the secret's magic, and
      behind it the key. */
  ghost predicate Unlocks(s: Suite, password: seq<byte>, h: Header, xtsKey: seq<byte>)
    requires h.encryptedSecretSize <= |h.encryptedSecret|
  {
    var text := s.decryptCbc(s.deriveKey(password, h.salt), h.iv, h.encryptedSecret[..h.encryptedSecretSize]);
    && password != [] && text.Some? && 72 <= |text.value| <= 88
    && text.value[..8] == SECRET_MAGIC && text.value[8..72] == xtsKey
  }

  /** A password opens a header to a key exactly if it unlocks it to that key. */
  lemma OpenedExactly(s: Suite, password: seq<byte>, h: Header, xtsKey: seq<byte>)
    requires s.Lawful() && h.Typed() && h.InBounds()
    ensures DecryptSecret(s, password, h) == Opened(xtsKey) <==> Unlocks(s, password, h, xtsKey)
  {
    var n, text := h.encryptedSecretSize, UnsealedText(s, password, h);
    assert text.Some? ==> Unpads(h.encryptedSecret[..n], text.value);
  }

  /** Sealing succeeds for every non-empty password, uses 80 of the 128 bytes, leaves every other field
      alone, and the same password recovers the key. */
  lemma SecretRoundTrip(s: Suite, password: seq<byte>, h: Header, xtsKey: seq<byte>)
    requires s.Lawful() && h.Typed() && |xtsKey| == XTS_KEY_SIZE
    ensures EncryptSecret(s, password, h, xtsKey).Some? <==> password != []
    ensures password != [] ==>
              var h' := EncryptSecret(s, password, h, xtsKey).value;
              && h'.Typed() && h'.encryptedSecretSize == SEALED_SIZE
              && h' == h.(encryptedSecret := h'.encryptedSecret, encryptedSecretSize := SEALED_SIZE)
              && DecryptSecret(s, password, h') == Opened(xtsKey)
  {
    if password != [] {
      var h' := EncryptSecret(s, password, h, xtsKey).value;
      var sealed := s.encryptCbc(s.deriveKey(password, h.salt), h.iv, Secret(xtsKey));
      assert |sealed| == SEALED_SIZE;
      assert h'.encryptedSecret[..SEALED_SIZE] == sealed;
      assert Secret(xtsKey)[..8] == SECRET_MAGIC && Secret(xtsKey)[8..72] == xtsKey;
    }
  }
}
