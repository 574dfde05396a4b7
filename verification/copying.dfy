/** Copying from the random device in chunks: how reads and writes come out in pieces, and when they suffice. */
module Copying {
  import opened Bytes

  const BUFFER_SIZE := 1024 * 1024

  /** What one `read` of the random device gives; `Got(0)` is its end. */
  datatype ReadResult = Interrupted | ReadFails | Got(count: nat)

  /** The first n bytes the device delivers from a position on. */
  function Delivered(device: nat -> byte, from: nat, n: nat): (bytes: seq<byte>)
    ensures |bytes| == n
  {
    seq(n, i requires 0 <= i < n => device(from + i))
  }

  /** Where the scripted reads stand, from a position on, once they have filled a chunk, if they do. */
  function AfterFill(script: seq<ReadResult>, at: nat, amount: nat): Option<nat>
    decreases |script| - at
  {
    if amount == 0 then Some(at)
    else if at >= |script| then None
    else
      match script[at]
      case Interrupted => AfterFill(script, at + 1, amount)
      case ReadFails => None
      case Got(n) => if n == 0 then None else AfterFill(script, at + 1, amount - Min(n, amount))
  }

  /** What the scripted write at a position takes of an amount. */
  function Taken(script: seq<nat>, at: nat, amount: nat): nat {
    if at >= |script| then 0 else Min(script[at], amount)
  }

  /** Where the scripted writes stand, from a position on, once they have taken a chunk, if they do. */
  function AfterFlush(script: seq<nat>, at: nat, amount: nat): Option<nat>
    decreases |script| - at
  {
    if amount == 0 then Some(at)
    else if Taken(script, at, amount) == 0 then None
    else AfterFlush(script, at + 1, amount - Taken(script, at, amount))
  }

  lemma FlushStep(script: seq<nat>, at: nat, amount: nat, count: nat)
    requires 0 < count == Taken(script, at, amount)
    ensures count <= amount && AfterFlush(script, at, amount) == AfterFlush(script, at + 1, amount - count)
  {
  }

  /** The scripted reads and writes carry a whole fill of a given length, chunk by chunk. */
  predicate Suffice(deviceReads: seq<ReadResult>, writes: seq<nat>, i: nat, j: nat, length: nat)
    decreases length
  {
    if length == 0 then true
    else
      var amount := Min(BUFFER_SIZE, length);
      match (AfterFill(deviceReads, i, amount), AfterFlush(writes, j, amount))
      case (Some(i'), Some(j')) => Suffice(deviceReads, writes, i', j', length - amount)
      case _ => false
  }

  lemma DeliveredPrefix(device: nat -> byte, from: nat, m: nat, n: nat)
    requires m <= n
    ensures Delivered(device, from, n)[..m] == Delivered(device, from, m)
  {
  }

  lemma SliceGrows(base: seq<byte>, s: seq<byte>, at: nat, count: nat)
    requires at + count <= |s|
    ensures base + s[..at] + s[at..at + count] == base + s[..at + count]
  {
    assert s[..at] + s[at..at + count] == s[..at + count];
  }

  lemma DeliveredParts(base: seq<byte>, device: nat -> byte, m: nat, n: nat)
    ensures base + Delivered(device, 0, m) + Delivered(device, m, n) == base + Delivered(device, 0, m + n)
  {
  }

  // ---------- what suffices ----------

  /** A stretch of reads without a failure and without the end of the device. */
  predicate Flows(script: seq<ReadResult>, i: nat, j: nat) {
    i <= j <= |script| && forall k :: i <= k < j ==> script[k] != ReadFails && script[k] != Got(0)
  }

  /** What a stretch of reads gives; an interrupted read gives nothing. */
  function Sum(script: seq<ReadResult>, i: nat, j: nat): nat
    requires i <= j <= |script|
    decreases j - i
  {
    if i == j then 0 else (if script[i].Got? then script[i].count else 0) + Sum(script, i + 1, j)
  }

  /** No shorter stretch gives the amount. */
  ghost predicate NoShorter(script: seq<ReadResult>, i: nat, j: nat, amount: nat)
    requires j <= |script|
  {
    forall k :: i <= k < j ==> Sum(script, i, k) < amount
  }

  /** The stretch is the shortest that gives the amount. */
  ghost predicate Fills(script: seq<ReadResult>, i: nat, j: nat, amount: nat) {
    Flows(script, i, j) && Sum(script, i, j) >= amount && NoShorter(script, i, j, amount)
  }

  lemma FillsStep(script: seq<ReadResult>, i: nat, j: nat, amount: nat)
    requires i < |script| && amount > 0
    ensures Fills(script, i, j, amount) <==>
              && script[i] != ReadFails && script[i] != Got(0)
              && Fills(script, i + 1, j, amount - Min(if script[i].Got? then script[i].count else 0, amount))
  {
    var n := if script[i].Got? then script[i].count else 0;
    var rest := amount - Min(n, amount);
    if i < j <= |script| {
      assert forall k :: i < k <= j ==> Sum(script, i, k) == n + Sum(script, i + 1, k);
      assert Sum(script, i, j) >= amount <==> Sum(script, i + 1, j) >= rest;
      assert forall k :: i < k < j ==> (Sum(script, i, k) < amount <==> Sum(script, i + 1, k) < rest);
      assert Flows(script, i, j) <==> script[i] != ReadFails && script[i] != Got(0) && Flows(script, i + 1, j);
      assert Sum(script, i, i) == 0;
      if NoShorter(script, i + 1, j, rest) {
        forall k | i <= k < j
          ensures Sum(script, i, k) < amount
        {
          assert k > i ==> Sum(script, i + 1, k) < rest;
        }
      } else {
        var k :| i + 1 <= k < j && Sum(script, i + 1, k) >= rest;
        assert Sum(script, i, k) >= amount;
      }
    } else {
      assert Sum(script, i, i) == 0;
    }
  }

  /** The inner read loop fills a chunk with a stretch of reads exactly if it is the shortest stretch that
      gives the amount, without a failure or the end on the way. */
  lemma {:induction false} FillExactly(script: seq<ReadResult>, i: nat, j: nat, amount: nat)
    requires i <= |script|
    ensures AfterFill(script, i, amount) == Some(j) <==> Fills(script, i, j, amount)
    decreases |script| - i
  {
    if amount == 0 {
      assert Sum(script, i, i) == 0;
    } else if i < |script| {
      var n := if script[i].Got? then script[i].count else 0;
      FillsStep(script, i, j, amount);
      FillExactly(script, i + 1, j, amount - Min(n, amount));
    }
  }

  /** Writes taken in pieces, as reads that come in the same pieces. */
  function AsReads(writes: seq<nat>): (script: seq<ReadResult>)
    ensures |script| == |writes| && forall k :: 0 <= k < |writes| ==> script[k] == Got(writes[k])
  {
    seq(|writes|, k requires 0 <= k < |writes| => Got(writes[k]))
  }

  lemma {:induction false} FlushIsFill(writes: seq<nat>, j: nat, amount: nat)
    requires j <= |writes|
    ensures AfterFlush(writes, j, amount) == AfterFill(AsReads(writes), j, amount)
    decreases |writes| - j
  {
    if amount > 0 && j < |writes| {
      FlushIsFill(writes, j + 1, amount - Min(writes[j], amount));
    }
  }

  /** The inner write loop takes a chunk with a stretch of writes exactly if it is the shortest that takes the
      amount, and none in it takes nothing. */
  lemma FlushExactly(writes: seq<nat>, i: nat, j: nat, amount: nat)
    requires i <= |writes|
    ensures AfterFlush(writes, i, amount) == Some(j) <==> Fills(AsReads(writes), i, j, amount)
  {
    FlushIsFill(writes, i, amount);
    FillExactly(AsReads(writes), i, j, amount);
  }

  /** Stretches between the cuts give the chunks of a length, one after the other. */
  ghost predicate Portions(script: seq<ReadResult>, cuts: seq<nat>, length: nat)
    decreases length
  {
    if length == 0 then |cuts| == 1
    else
      var amount := Min(BUFFER_SIZE, length);
      |cuts| > 1 && Fills(script, cuts[0], cuts[1], amount) && Portions(script, cuts[1..], length - amount)
  }

  /** The script gives a length from a position on. */
  ghost predicate CarriesFrom(script: seq<ReadResult>, i: nat, length: nat) {
    exists cuts :: Portions(script, cuts, length) && cuts[0] == i
  }

  lemma CarriesStep(script: seq<ReadResult>, i: nat, j: nat, length: nat)
    requires length > 0 && Fills(script, i, j, Min(BUFFER_SIZE, length))
    requires CarriesFrom(script, j, length - Min(BUFFER_SIZE, length))
    ensures CarriesFrom(script, i, length)
  {
    var cuts :| Portions(script, cuts, length - Min(BUFFER_SIZE, length)) && cuts[0] == j;
    assert ([i] + cuts)[1..] == cuts;
    assert Portions(script, [i] + cuts, length);
  }

  lemma CarriesBack(script: seq<ReadResult>, i: nat, length: nat) returns (j: nat)
    requires length > 0 && CarriesFrom(script, i, length)
    ensures Fills(script, i, j, Min(BUFFER_SIZE, length))
    ensures CarriesFrom(script, j, length - Min(BUFFER_SIZE, length))
  {
    var cuts :| Portions(script, cuts, length) && cuts[0] == i;
    j := cuts[1];
    assert Portions(script, cuts[1..], length - Min(BUFFER_SIZE, length)) && cuts[1..][0] == j;
  }

  lemma NothingToCarry(script: seq<ReadResult>, i: nat)
    ensures CarriesFrom(script, i, 0)
  {
    assert Portions(script, [i], 0);
  }

  /** The copying loop comes to its end exactly if the reads give the length and the writes take it. */
  lemma {:induction false} SufficeExactly(deviceReads: seq<ReadResult>, writes: seq<nat>, i: nat, j: nat, length: nat)
    requires i <= |deviceReads| && j <= |writes|
    ensures Suffice(deviceReads, writes, i, j, length) <==>
            CarriesFrom(deviceReads, i, length) && CarriesFrom(AsReads(writes), j, length)
    decreases length
  {
    var amount := Min(BUFFER_SIZE, length);
    if length == 0 {
      NothingToCarry(deviceReads, i);
      NothingToCarry(AsReads(writes), j);
    } else {
      if Suffice(deviceReads, writes, i, j, length) {
        var i', j' := AfterFill(deviceReads, i, amount).value, AfterFlush(writes, j, amount).value;
        FillExactly(deviceReads, i, i', amount);
        FlushExactly(writes, j, j', amount);
        SufficeExactly(deviceReads, writes, i', j', length - amount);
        CarriesStep(deviceReads, i, i', length);
        CarriesStep(AsReads(writes), j, j', length);
      }
      if CarriesFrom(deviceReads, i, length) && CarriesFrom(AsReads(writes), j, length) {
        var i' := CarriesBack(deviceReads, i, length);
        var j' := CarriesBack(AsReads(writes), j, length);
        FillExactly(deviceReads, i, i', amount);
        FlushExactly(writes, j, j', amount);
        SufficeExactly(deviceReads, writes, i', j', length - amount);
      }
    }
  }

  // ---------- positive pieces ----------

  /** How many reads from a position on give something. */
  function Pieces(script: seq<ReadResult>, i: nat): nat
    requires i <= |script|
    decreases |script| - i
  {
    if i == |script| then 0 else (if script[i].Got? then 1 else 0) + Pieces(script, i + 1)
  }

  /** Positive pieces, at least as many as bytes are wanted, fill a chunk and leave enough for the rest. */
  lemma {:induction false} PiecesFill(script: seq<ReadResult>, i: nat, amount: nat, rest: nat) returns (j: nat)
    requires i <= |script| && Flows(script, i, |script|) && Pieces(script, i) >= amount + rest
    ensures AfterFill(script, i, amount) == Some(j)
    ensures i <= j <= |script| && Flows(script, j, |script|) && Pieces(script, j) >= rest
    decreases |script| - i
  {
    if amount == 0 {
      j := i;
    } else {
      j := PiecesFill(script, i + 1, amount - Min(if script[i].Got? then script[i].count else 0, amount), rest);
    }
  }

  /** So reads that go on, with interruptions in between, in at least as many positive pieces as bytes are
      wanted, always give the length. */
  lemma {:induction false} PiecesCarry(script: seq<ReadResult>, i: nat, length: nat)
    requires i <= |script| && Flows(script, i, |script|) && Pieces(script, i) >= length
    ensures CarriesFrom(script, i, length)
    decreases length
  {
    if length == 0 {
      NothingToCarry(script, i);
    } else {
      var amount := Min(BUFFER_SIZE, length);
      var j := PiecesFill(script, i, amount, length - amount);
      FillExactly(script, i, j, amount);
      PiecesCarry(script, j, length - amount);
      CarriesStep(script, i, j, length);
    }
  }

  /** Reads that go on and writes that take something, each in at least as many pieces as bytes are wanted. */
  predicate Plenty(deviceReads: seq<ReadResult>, writes: seq<nat>, length: nat) {
    && (forall r <- deviceReads :: r != ReadFails && r != Got(0)) && Pieces(deviceReads, 0) >= length
    && (forall n <- writes :: n > 0) && |writes| >= length
  }

  lemma {:induction false} AllPieces(writes: seq<nat>, i: nat)
    requires i <= |writes|
    ensures Pieces(AsReads(writes), i) == |writes| - i
    decreases |writes| - i
  {
    if i < |writes| {
      AllPieces(writes, i + 1);
    }
  }

  /** However small the pieces, the copying loop comes to its end if there are plenty. */
  lemma PlentySuffices(deviceReads: seq<ReadResult>, writes: seq<nat>, length: nat)
    ensures Plenty(deviceReads, writes, length) ==> Suffice(deviceReads, writes, 0, 0, length)
  {
    if Plenty(deviceReads, writes, length) {
      assert forall k :: 0 <= k < |deviceReads| ==> deviceReads[k] in deviceReads;
      assert forall k :: 0 <= k < |writes| ==> writes[k] in writes && AsReads(writes)[k] != Got(0);
      AllPieces(writes, 0);
      PiecesCarry(deviceReads, 0, length);
      PiecesCarry(AsReads(writes), 0, length);
      SufficeExactly(deviceReads, writes, 0, 0, length);
    }
  }
}
