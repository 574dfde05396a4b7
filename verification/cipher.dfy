/** The cryptographic primitives as parameters, and what the library builds on them.

    The primitives are taken with only the laws the library relies on: XTS without ciphertext
    stealing works block by block, with a block function that depends on the key, the data unit
    number and the index of the block in the unit (sections 5.3 and 5.4 of IEEE Std 1619-2007);
    padded CBC is invertible, pads to the next whole block, and takes at most a block of padding off
    (section 6.3 of RFC 5652). */
module Cipher {
  import opened Bytes

  const BLOCK := 16

  type Block = b: seq<byte> | |b| == BLOCK witness Zeros(BLOCK)

  type BlockFunction = (seq<byte>, nat, nat, Block) -> Block

  datatype Suite = Suite(
    encryptBlock: BlockFunction,
    decryptBlock: BlockFunction,
    maxUnit: nat,  // the longest data unit the XTS implementation accepts
    deriveKey: (seq<byte>, seq<byte>) -> seq<byte>,
    encryptCbc: (seq<byte>, seq<byte>, seq<byte>) -> seq<byte>,
    decryptCbc: (seq<byte>, seq<byte>, seq<byte>) -> Option<seq<byte>>)
  {
    ghost predicate Lawful() {
      && (forall key, unit, index, block: Block ::
            decryptBlock(key, unit, index, encryptBlock(key, unit, index, block)) == block)
      && (forall key, iv, plain :: |encryptCbc(key, iv, plain)| == (|plain| / BLOCK + 1) * BLOCK)
      && (forall key, iv, plain :: decryptCbc(key, iv, encryptCbc(key, iv, plain)) == Some(plain))
      && (forall key, iv, text :: decryptCbc(key, iv, text).Some? ==> Unpads(text, decryptCbc(key, iv, text).value))
    }
  }

  /** Taking the padding off drops between one byte and a block from a whole number of blocks. */
  predicate Unpads(text: seq<byte>, plain: seq<byte>) {
    |text| % BLOCK == 0 && |plain| < |text| <= |plain| + BLOCK
  }

  /** A suite that meets the laws: no encryption, and the padding of section 6.3 of RFC 5652. */
  function PlainSuite(maxUnit: nat): Suite {
    Suite(
      (key, unit, index, block) => block,
      (key, unit, index, block) => block,
      maxUnit,
      (password, salt) => Zeros(32),
      (key, iv, plain) => Padded(plain),
      (key, iv, cipher) => Unpadded(cipher))
  }

  function Padded(plain: seq<byte>): seq<byte> {
    var n: byte := BLOCK - |plain| % BLOCK;
    plain + seq(n, _ => n)
  }

  function Unpadded(text: seq<byte>): Option<seq<byte>> {
    if text == [] || |text| % BLOCK != 0 || !(1 <= text[|text| - 1] <= BLOCK) then None
    else Some(text[..|text| - text[|text| - 1]])
  }

  lemma PaddingLaws(plain: seq<byte>)
    ensures |Padded(plain)| == (|plain| / BLOCK + 1) * BLOCK
    ensures Unpadded(Padded(plain)) == Some(plain)
  {
    assert Padded(plain)[..|plain|] == plain;
  }

  lemma UnpaddingLaw(text: seq<byte>)
    ensures Unpadded(text).Some? ==> Unpads(text, Unpadded(text).value)
  {
  }

  lemma LawsAreConsistent(maxUnit: nat)
    ensures PlainSuite(maxUnit).Lawful()
  {
    forall plain
      ensures |Padded(plain)| == (|plain| / BLOCK + 1) * BLOCK && Unpadded(Padded(plain)) == Some(plain)
    {
      PaddingLaws(plain);
    }
    forall text
      ensures Unpadded(text).Some? ==> Unpads(text, Unpadded(text).value)
    {
      UnpaddingLaw(text);
    }
  }

  /** Block j of a text. */
  function BlockOf(text: seq<byte>, j: nat): Block
    requires (j + 1) * BLOCK <= |text|
  {
    text[j * BLOCK..(j + 1) * BLOCK]
  }

  /** One XTS data unit: every block through the block function, under its own index. */
  function CryptUnit(f: BlockFunction, key: seq<byte>, unit: nat, text: seq<byte>): (out: seq<byte>)
    requires |text| % BLOCK == 0
    ensures |out| == |text|
    ensures forall i :: 0 <= i < |text| ==> out[i] == f(key, unit, i / BLOCK, BlockOf(text, i / BLOCK))[i % BLOCK]
  {
    seq(|text|, i requires 0 <= i < |text| => f(key, unit, i / BLOCK, BlockOf(text, i / BLOCK))[i % BLOCK])
  }

  /** `crypt_xts`: the data unit is numbered by the file offset in blocks; a length may be refused. */
  function CryptXts(s: Suite, encrypt: bool, key: seq<byte>, offset: nat, text: seq<byte>): (out: Option<seq<byte>>)
    ensures out.Some? <==> 0 < |text| <= s.maxUnit && |text| % BLOCK == 0
    ensures out.Some? ==> |out.value| == |text|
  {
    if text == [] || |text| > s.maxUnit || |text| % BLOCK != 0 then None
    else Some(CryptUnit(if encrypt then s.encryptBlock else s.decryptBlock, key, offset / 16, text))
  }

  lemma CryptedBlock(f: BlockFunction, key: seq<byte>, unit: nat, text: seq<byte>, j: nat)
    requires |text| % BLOCK == 0 && (j + 1) * BLOCK <= |text|
    ensures BlockOf(CryptUnit(f, key, unit, text), j) == f(key, unit, j, BlockOf(text, j))
  {
  }

  /** What comes out, byte for byte: a whole number of blocks up to the accepted length, each through the block
      function under the offset in blocks and its own index. */
  lemma XtsBlocks(s: Suite, encrypt: bool, key: seq<byte>, offset: nat, text: seq<byte>, j: nat)
    ensures CryptXts(s, encrypt, key, offset, text).Some? <==> 0 < |text| <= s.maxUnit && |text| % BLOCK == 0
    ensures CryptXts(s, encrypt, key, offset, text).Some? && (j + 1) * BLOCK <= |text| ==>
              var out := CryptXts(s, encrypt, key, offset, text).value;
              var f: BlockFunction := if encrypt then s.encryptBlock else s.decryptBlock;
              |out| == |text| && BlockOf(out, j) == f(key, offset / 16, j, BlockOf(text, j))
  {
    if CryptXts(s, encrypt, key, offset, text).Some? && (j + 1) * BLOCK <= |text| {
      CryptedBlock(if encrypt then s.encryptBlock else s.decryptBlock, key, offset / 16, text, j);
    }
  }

  /** Decryption of a whole number of leading blocks gives the leading blocks of the decryption. */
  lemma PrefixLaw(f: BlockFunction, key: seq<byte>, unit: nat, text: seq<byte>, n: nat)
    requires |text| % BLOCK == 0 && n % BLOCK == 0 && n <= |text|
    ensures CryptUnit(f, key, unit, text[..n]) == CryptUnit(f, key, unit, text)[..n]
  {
    var head := text[..n];
    forall i | 0 <= i < n
      ensures CryptUnit(f, key, unit, head)[i] == CryptUnit(f, key, unit, text)[i]
    {
      assert BlockOf(head, i / BLOCK) == BlockOf(text, i / BLOCK);
    }
  }

  lemma UnitInverse(s: Suite, key: seq<byte>, unit: nat, text: seq<byte>)
    requires s.Lawful() && |text| % BLOCK == 0
    ensures CryptUnit(s.decryptBlock, key, unit, CryptUnit(s.encryptBlock, key, unit, text)) == text
  {
    var cipher := CryptUnit(s.encryptBlock, key, unit, text);
    var plain := CryptUnit(s.decryptBlock, key, unit, cipher);
    forall i | 0 <= i < |text|
      ensures plain[i] == text[i]
    {
      CryptedBlock(s.encryptBlock, key, unit, text, i / BLOCK);
      assert plain[i] == BlockOf(text, i / BLOCK)[i % BLOCK];
    }
  }

  /** Staged decryption: any whole number of leading blocks of an encrypted record, decrypted under
      the record's own offset, is that much of the record. */
  lemma StagedDecryption(s: Suite, key: seq<byte>, offset: nat, plain: seq<byte>, n: nat)
    requires s.Lawful()
    requires CryptXts(s, true, key, offset, plain).Some?
    requires 0 < n <= |plain| && n % BLOCK == 0
    ensures CryptXts(s, false, key, offset, CryptXts(s, true, key, offset, plain).value[..n]) == Some(plain[..n])
  {
    var cipher := CryptXts(s, true, key, offset, plain).value;
    PrefixLaw(s.decryptBlock, key, offset / 16, cipher, n);
    UnitInverse(s, key, offset / 16, plain);
  }
}
