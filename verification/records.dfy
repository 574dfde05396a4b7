/** The plain text of one record: key length, key, value length, value, zero padding. */
module Records {
  import opened Bytes
  import opened Words
  import opened Cipher
  import opened Header

  datatype Entry = Entry(key: seq<byte>, value: seq<byte>) {
    function PlainLength(): nat {
      1 + |key| + 4 + |value|
    }

    /** The entries whose record can be stored at all. */
    predicate Storable() {
      1 <= |key| <= 255 && PlainLength() <= U32 - 16
    }
  }

  /** The length of a record in the file. */
  function PaddedLength(e: Entry): (n: nat)
    ensures n % BLOCK == 0 && BLOCK <= n && e.PlainLength() <= n
  {
    RoundUp16(e.PlainLength())
  }

  function RecordBytes(e: Entry): (plain: seq<byte>)
    requires e.Storable()
    ensures |plain| == PaddedLength(e)
  {
    [|e.key| as byte] + e.key + ToBytes(|e.value|, 4) + e.value + Zeros(PaddedLength(e) - e.PlainLength())
  }

  /** The parts of a record lie where a reader looks for them. */
  lemma RecordLayout(e: Entry)
    requires e.Storable()
    ensures var plain, k := RecordBytes(e), |e.key|;
            && plain[0] == k
            && plain[1..1 + k] == e.key
            && FromBytes(plain[1 + k..5 + k]) == |e.value|
            && plain[5 + k..5 + k + |e.value|] == e.value
  {
    var plain, k := RecordBytes(e), |e.key|;
    var head := [|e.key| as byte] + e.key;
    var mid := head + ToBytes(|e.value|, 4);
    assert plain == mid + e.value + Zeros(PaddedLength(e) - e.PlainLength());
    assert plain[1 + k..5 + k] == ToBytes(|e.value|, 4);
    WidthLimits();
    WordRoundTrip(|e.value|, 4);
  }

  /** A record is as long as its parts, rounded up to whole blocks, and zero behind them. */
  lemma RecordPadding(e: Entry, i: nat)
    requires e.Storable()
    ensures |RecordBytes(e)| == RoundUp16(1 + |e.key| + 4 + |e.value|)
    ensures 1 + |e.key| + 4 + |e.value| <= i < |RecordBytes(e)| ==> RecordBytes(e)[i] == 0
  {
    var head := [|e.key| as byte] + e.key + ToBytes(|e.value|, 4) + e.value;
    assert RecordBytes(e) == head + Zeros(PaddedLength(e) - e.PlainLength());
  }

  /** `set` fills a zeroed buffer of the padded length in place. */
  method EncodeRecord(e: Entry) returns (plain: array<byte>)
    requires e.Storable()
    ensures fresh(plain) && plain[..] == RecordBytes(e)
  {
    plain := Calloc(PaddedLength(e));
    CopyInto(plain, 0, [|e.key|]);
    CopyInto(plain, 1, e.key);
    PutU32(plain, 1 + |e.key|, |e.value|);
    CopyInto(plain, 1 + |e.key| + 4, e.value);
    BuiltInPlace(e, Blit(Zeros(PaddedLength(e)), 0, [|e.key| as byte]));
  }

  lemma BuiltInPlace(e: Entry, zeroed: seq<byte>)
    requires e.Storable() && zeroed == Blit(Zeros(PaddedLength(e)), 0, [|e.key| as byte])
    ensures var k := |e.key|;
            Blit(Blit(Blit(zeroed, 1, e.key), 1 + k, ToBytes(|e.value|, 4)), 5 + k, e.value) == RecordBytes(e)
  {
  }

  // ---------- a log of entries as a map ----------

  /** The value of the last entry with the key. */
  function Lookup(log: seq<Entry>, key: seq<byte>): Option<seq<byte>> {
    if log == [] then None
    else if log[|log| - 1].key == key then Some(log[|log| - 1].value)
    else Lookup(log[..|log| - 1], key)
  }

  /** Entry i has the key and the value, and no later entry has the key. */
  predicate IsLatest(log: seq<Entry>, key: seq<byte>, value: seq<byte>, i: nat) {
    i < |log| && log[i] == Entry(key, value) && forall j :: i < j < |log| ==> log[j].key != key
  }

  lemma {:induction false} LookupExactly(log: seq<Entry>, key: seq<byte>, value: seq<byte>)
    ensures Lookup(log, key) == Some(value) <==> exists i :: IsLatest(log, key, value, i)
  {
    if log != [] {
      var init, n := log[..|log| - 1], |log| - 1;
      if log[n].key == key {
        assert log[n].value == value ==> IsLatest(log, key, value, n);
      } else {
        LookupExactly(init, key, value);
        forall i: nat
          ensures IsLatest(log, key, value, i) <==> IsLatest(init, key, value, i)
        {
        }
      }
    }
  }

  /** The map a log stands for. */
  function MapOf(log: seq<Entry>): map<seq<byte>, seq<byte>> {
    if log == [] then map[]
    else MapOf(log[..|log| - 1])[log[|log| - 1].key := log[|log| - 1].value]
  }

  lemma {:induction false} LookupIsMap(log: seq<Entry>, key: seq<byte>)
    ensures Lookup(log, key) == if key in MapOf(log) then Some(MapOf(log)[key]) else None
  {
    if log != [] {
      LookupIsMap(log[..|log| - 1], key);
    }
  }
}
