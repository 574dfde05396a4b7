/** The guard's slot array and hash index, and the proof that they implement the table of the protocol. */
module GuardTable {
  import opened Bytes
  import opened Bits
  import opened GuardProtocol

  const BUCKETS := 256
  const FLAG_LOCKED: nat := 1
  const FLAG_SESSION: nat := 2

  type Bucket = b: nat | b < BUCKETS

  datatype Slot = Slot(
    inUse: bool, dev: nat, ino: nat, start: nat, length: nat,
    token: nat, writer: nat, locked: bool, active: bool, dirty: bool)
  {
    function Id(): Inode {
      Inode(dev, ino)
    }

    /** What a slot says about its inode. */
    function Entry(): Guarded {
      Guarded(start, length, if active then Some(Holder(writer, token)) else None)
    }

    /** Every slot in use is locked, and its session fields are all set or all clear. */
    predicate Consistent() {
      locked && active == (writer != 0) && active == (token != 0) && active == dirty
    }
  }

  const EMPTY_SLOT := Slot(false, 0, 0, 0, 0, 0, 0, false, false, false)

  // ---------- the hash key ----------

  /** `padlock_guard_key`: two inodes can share it, so a bucket search has to compare identities. */
  function Key(id: Inode): nat {
    Xor(Shl(id.dev, 32), id.ino)
  }

  lemma KeysCollide(dev: nat)
    requires dev > 0
    ensures Key(Inode(dev, 0)) == Key(Inode(0, Shl(dev, 32))) && Inode(dev, 0) != Inode(0, Shl(dev, 32))
  {
  }

  // ---------- the invariant ----------

  ghost predicate Distinct(s: seq<nat>) {
    forall i, j :: 0 <= i < j < |s| ==> s[i] != s[j]
  }

  /** Slot k belongs into bucket b. */
  ghost predicate Belongs(place: Inode -> Bucket, slots: seq<Slot>, k: nat, b: nat) {
    k < |slots| && slots[k].inUse && place(slots[k].Id()) == b
  }

  /** The buckets hold exactly the slots in use, each once and in the bucket of its inode. */
  ghost predicate Indexed(place: Inode -> Bucket, slots: seq<Slot>, index: seq<seq<nat>>) {
    && |index| == BUCKETS
    && (forall b :: 0 <= b < BUCKETS ==> Distinct(index[b]))
    && (forall b, k :: 0 <= b < BUCKETS ==> (k in index[b] <==> Belongs(place, slots, k, b)))
  }

  /** No two slots in use for one inode. */
  ghost predicate Unique(slots: seq<Slot>) {
    forall j, k :: 0 <= j < k < |slots| && slots[j].inUse && slots[k].inUse ==> slots[j].Id() != slots[k].Id()
  }

  ghost predicate Occupied(slots: seq<Slot>, id: Inode) {
    exists k :: 0 <= k < |slots| && slots[k].inUse && slots[k].Id() == id
  }

  /** The slots in use stand for the table, one slot for one inode. */
  ghost predicate Implements(slots: seq<Slot>, t: Table) {
    && Unique(slots)
    && (forall k :: 0 <= k < |slots| && slots[k].inUse ==>
          slots[k].Consistent() && slots[k].Id() in t && t[slots[k].Id()] == slots[k].Entry())
    && (forall id :: id in t ==> Occupied(slots, id))
  }

  // ---------- lookup ----------

  /** Linear search over the slots, from slot k on. */
  function Search(slots: seq<Slot>, id: Inode, k: nat): (found: Option<nat>)
    requires k <= |slots|
    ensures found.Some? ==> found.value < |slots|
    decreases |slots| - k
  {
    if k == |slots| then None
    else if slots[k].inUse && slots[k].Id() == id then Some(k)
    else Search(slots, id, k + 1)
  }

  lemma {:induction false} SearchFinds(slots: seq<Slot>, id: Inode, k: nat, found: nat)
    requires k <= found < |slots| && slots[found].inUse && slots[found].Id() == id
    requires forall j :: 0 <= j < |slots| && slots[j].inUse && slots[j].Id() == id ==> j == found
    ensures Search(slots, id, k) == Some(found)
    decreases |slots| - k
  {
    if k < found {
      SearchFinds(slots, id, k + 1, found);
    }
  }

  lemma {:induction false} SearchMisses(slots: seq<Slot>, id: Inode, k: nat)
    requires k <= |slots| && forall j :: 0 <= j < |slots| && slots[j].inUse ==> slots[j].Id() != id
    ensures Search(slots, id, k) == None
    decreases |slots| - k
  {
    if k < |slots| {
      SearchMisses(slots, id, k + 1);
    }
  }

  // ---------- changes ----------

  /** A slot in use changes its contents but not its inode. */
  lemma UpdateKeeps(place: Inode -> Bucket, slots: seq<Slot>, index: seq<seq<nat>>, t: Table,
          k: nat, s: Slot)
    requires Indexed(place, slots, index) && Implements(slots, t)
    requires k < |slots| && slots[k].inUse && s.inUse && s.Id() == slots[k].Id() && s.Consistent()
    ensures Indexed(place, slots[k := s], index) && Implements(slots[k := s], t[s.Id() := s.Entry()])
  {
    var slots', t' := slots[k := s], t[s.Id() := s.Entry()];
    forall b, j | 0 <= b < BUCKETS
      ensures j in index[b] <==> Belongs(place, slots', j, b)
    {
      assert Belongs(place, slots', j, b) <==> Belongs(place, slots, j, b);
    }
    forall id | id in t'
      ensures Occupied(slots', id)
    {
      assert Occupied(slots, id);
      var j :| 0 <= j < |slots| && slots[j].inUse && slots[j].Id() == id;
      assert slots'[j].inUse && slots'[j].Id() == id;
    }
  }

  /** A free slot is taken for a new inode. */
  lemma InsertImplements(slots: seq<Slot>, t: Table, k: nat, s: Slot)
    requires Implements(slots, t)
    requires k < |slots| && !slots[k].inUse && s.inUse && s.Id() !in t && s.Consistent()
    ensures Implements(slots[k := s], t[s.Id() := s.Entry()])
  {
    var slots', t' := slots[k := s], t[s.Id() := s.Entry()];
    assert slots'[k] == s;
    forall id | id in t'
      ensures Occupied(slots', id)
    {
      if id != s.Id() {
        assert Occupied(slots, id);
        var j :| 0 <= j < |slots| && slots[j].inUse && slots[j].Id() == id;
        assert slots'[j] == slots[j];
      }
    }
  }

  /** The slot goes to the head of the bucket of its inode. */
  lemma InsertIndexed(place: Inode -> Bucket, slots: seq<Slot>, index: seq<seq<nat>>, k: nat,
          s: Slot)
    requires Indexed(place, slots, index) && k < |slots| && !slots[k].inUse && s.inUse
    ensures var b := place(s.Id()); Indexed(place, slots[k := s], index[b := [k] + index[b]])
  {
    var b := place(s.Id());
    var slots', index' := slots[k := s], index[b := [k] + index[b]];
    assert !Belongs(place, slots, k, b);
    assert Distinct(index'[b]);
    forall c, j | 0 <= c < BUCKETS
      ensures j in index'[c] <==> Belongs(place, slots', j, c)
    {
      assert j != k ==> (Belongs(place, slots', j, c) <==> Belongs(place, slots, j, c));
      assert !Belongs(place, slots, k, c);
      assert j in index'[c] <==> j in index[c] || (c == b && j == k);
    }
  }

  /** A list without its first occurrence of a value. */
  function Unlinked(s: seq<nat>, k: nat): (r: seq<nat>)
    ensures forall x :: x in r ==> x in s
    ensures forall x :: x in s && x != k ==> x in r
  {
    if s == [] then []
    else if s[0] == k then s[1..]
    else [s[0]] + Unlinked(s[1..], k)
  }

  lemma {:induction false} UnlinkedDistinct(s: seq<nat>, k: nat)
    requires Distinct(s)
    ensures Distinct(Unlinked(s, k)) && k !in Unlinked(s, k)
  {
    if s != [] {
      assert Distinct(s[1..]) && s[0] !in s[1..];
      UnlinkedDistinct(s[1..], k);
    }
  }

  /** A slot in use is taken out of its bucket... */
  lemma RemoveIndexed(place: Inode -> Bucket, slots: seq<Slot>, index: seq<seq<nat>>, k: nat,
          s: Slot)
    requires Indexed(place, slots, index) && k < |slots| && slots[k].inUse && !s.inUse
    ensures var b := place(slots[k].Id()); Indexed(place, slots[k := s], index[b := Unlinked(index[b], k)])
  {
    var b := place(slots[k].Id());
    var slots', index' := slots[k := s], index[b := Unlinked(index[b], k)];
    UnlinkedDistinct(index[b], k);
    forall c, j | 0 <= c < BUCKETS
      ensures j in index'[c] <==> Belongs(place, slots', j, c)
    {
      assert Belongs(place, slots', j, c) <==> j != k && Belongs(place, slots, j, c);
      assert k in index[c] <==> c == b;
    }
  }

  /** ... and given up. */
  lemma RemoveImplements(slots: seq<Slot>, t: Table, k: nat, s: Slot)
    requires Implements(slots, t) && k < |slots| && slots[k].inUse && !s.inUse
    ensures Implements(slots[k := s], t - {slots[k].Id()})
  {
    var slots', t' := slots[k := s], t - {slots[k].Id()};
    forall id | id in t'
      ensures Occupied(slots', id)
    {
      assert Occupied(slots, id);
      var j :| 0 <= j < |slots| && slots[j].inUse && slots[j].Id() == id;
      assert slots'[j] == slots[j];
    }
  }

  // ---------- room ----------

  ghost function InUseIds(slots: seq<Slot>, n: nat): set<Inode>
    requires n <= |slots|
  {
    if n == 0 then {} else InUseIds(slots, n - 1) + if slots[n - 1].inUse then {slots[n - 1].Id()} else {}
  }

  lemma {:induction false} InUseMember(slots: seq<Slot>, n: nat, id: Inode)
    requires n <= |slots|
    ensures id in InUseIds(slots, n) <==> exists k :: 0 <= k < n && slots[k].inUse && slots[k].Id() == id
  {
    if n != 0 {
      InUseMember(slots, n - 1, id);
    }
  }

  lemma {:induction false} InUseCount(slots: seq<Slot>, n: nat)
    requires n <= |slots| && Unique(slots)
    ensures |InUseIds(slots, n)| <= n
    ensures |InUseIds(slots, n)| == n <==> forall k :: 0 <= k < n ==> slots[k].inUse
  {
    if n != 0 {
      InUseCount(slots, n - 1);
      InUseMember(slots, n - 1, slots[n - 1].Id());
    }
  }

  lemma IdsAreKeys(slots: seq<Slot>, t: Table)
    requires Implements(slots, t)
    ensures InUseIds(slots, |slots|) == t.Keys
  {
    forall id
      ensures id in InUseIds(slots, |slots|) <==> id in t.Keys
    {
      InUseMember(slots, |slots|, id);
      assert id in t ==> Occupied(slots, id);
    }
  }

  /** The table has as many inodes as there are slots exactly when no slot is free. */
  lemma FullTable(slots: seq<Slot>, t: Table)
    requires Implements(slots, t)
    ensures |t| <= |slots|
    ensures |t| == |slots| <==> forall k :: 0 <= k < |slots| ==> slots[k].inUse
  {
    IdsAreKeys(slots, t);
    InUseCount(slots, |slots|);
  }

  /** How many of the first n slots are in use. */
  function InUse(slots: seq<Slot>, n: nat): nat
    requires n <= |slots|
  {
    if n == 0 then 0 else InUse(slots, n - 1) + if slots[n - 1].inUse then 1 else 0
  }

  lemma NotSeen(slots: seq<Slot>, n: nat)
    requires n < |slots| && Unique(slots) && slots[n].inUse
    ensures slots[n].Id() !in InUseIds(slots, n)
  {
    InUseMember(slots, n, slots[n].Id());
  }

  lemma {:induction false} InUseIdsSize(slots: seq<Slot>, n: nat)
    requires n <= |slots| && Unique(slots)
    ensures |InUseIds(slots, n)| == InUse(slots, n)
  {
    if n != 0 {
      InUseIdsSize(slots, n - 1);
      if slots[n - 1].inUse {
        NotSeen(slots, n - 1);
      } else {
        assert InUseIds(slots, n) == InUseIds(slots, n - 1);
      }
    }
  }

  /** As many slots are in use as inodes are in the table. */
  lemma InUseIsSize(slots: seq<Slot>, t: Table)
    requires Implements(slots, t)
    ensures InUse(slots, |slots|) == |t|
  {
    IdsAreKeys(slots, t);
    InUseIdsSize(slots, |slots|);
    assert |t| == |t.Keys|;
  }
}
