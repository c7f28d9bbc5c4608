/**
 * The open-addressing hash table of the XRay symbol table.
 *
 * Keys and hash values are naturals; the hash function is any function.  Slot
 * arithmetic is modulo the table size, which masking computes because sizes
 * are powers of two.
 */
module HashTable {
  import opened Wrappers
  import opened RingIndex
  import opened Bits

  datatype Entry<+D> = Empty | Used(key: nat, data: D)

  // ------------------------------------------------------------ sizes and masks

  /** XRayHashTableInit's rounding. */
  function RoundUp(size: nat): nat
    requires size > 0
  {
    if And(size, size - 1) == 0 then size else Smear(size - 1) + 1
  }

  /** Copying every bit to all lower places, for numbers of at most 32 bits. */
  function Smear(x: nat): nat
  {
    var b := Or(x, Shr(x, 1));
    var c := Or(b, Shr(b, 2));
    var d := Or(c, Shr(c, 4));
    var e := Or(d, Shr(d, 8));
    Or(e, Shr(e, 16))
  }

  lemma SmearIsOnes(x: nat, l: nat)
    requires 0 < l <= 32 && Pow2(l - 1) <= x < Pow2(l)
    ensures Smear(x) == Pow2(l) - 1
  {
    hide Or, Shr;
    assert TopOnes(x, l, 1);
    var b := Or(x, Shr(x, 1));
    SmearStep(x, l, 1);
    SmearTwo(b, l, Twice(1, l), 2);
    var c := Or(b, Shr(b, 2));
    SmearTwo(c, l, Twice(2, l), 4);
    var d := Or(c, Shr(c, 4));
    SmearTwo(d, l, Twice(4, l), 8);
    var e := Or(d, Shr(d, 8));
    SmearTwo(e, l, Twice(8, l), 16);
  }

  /** One more doubling, also when all bits are ones already. */
  lemma SmearTwo(x: nat, l: nat, j: nat, k: nat)
    requires 0 < l && j == (if k < l then k else l) && k >= 1 && TopOnes(x, l, j)
    ensures TopOnes(Or(x, Shr(x, k)), l, Twice(k, l))
  {
    hide Or, Shr;
    if k <= l {
      SmearStep(x, l, k);
    } else {
      ShrBelow(x, l, k);
      OrBounds(x, Shr(x, k), l);
    }
  }

  /** The least power of two that is at least the requested size. */
  lemma RoundUpIsLeastPower(size: nat)
    requires 1 <= size <= 0x4000_0000
    ensures var n := RoundUp(size);
      IsPow2(n) && size <= n < 2 * size && n <= 0x4000_0000 && (size >= 3 ==> n >= 4)
  {
    hide Smear, And, IsPow2;
    Pow2Thirty();
    AndNothing();
    if And(size, size - 1) == 0 {
      NoCommonBit(size);
    } else {
      var x := size - 1;
      var l := BitLength(x);
      Pow2Monotone(l - 1, 30);
      SmearIsOnes(x, l);
      PowIsPow2(l);
      Pow2AtMost(l, 30);
    }
    if RoundUp(size) == 3 { ThreeIsNoPow2(); }
  }

  lemma AndNothing()
    ensures And(1, 0) == 0
  {
  }

  lemma PowIsPow2(k: nat)
    ensures IsPow2(Pow2(k))
  {
  }

  lemma Pow2Thirty()
    ensures Pow2(30) == 0x4000_0000
  {
    assert Pow2(10) == 0x400;
    assert Pow2(20) == 0x10_0000;
  }

  lemma {:induction false} Pow2AtMost(a: nat, b: nat)
    requires a <= b
    ensures Pow2(a) <= Pow2(b)
    decreases b
  {
    if a < b { Pow2AtMost(a, b - 1); }
  }

  lemma ThreeIsNoPow2()
    ensures !IsPow2(3)
  {
    forall k: nat ensures Pow2(k) != 3 { NotThree(k); }
  }

  lemma NotThree(k: nat)
    ensures Pow2(k) != 3
  {
  }

  // ------------------------------------------------------------------- contents

  predicate NoDuplicates<D>(s: seq<Entry<D>>)
  {
    forall i, j :: 0 <= i < j < |s| && s[i].Used? && s[j].Used? ==> s[i].key != s[j].key
  }

  predicate Holds<D>(s: seq<Entry<D>>, key: nat)
  {
    exists i :: 0 <= i < |s| && s[i].Used? && s[i].key == key
  }

  /** The key-value map a table without duplicates stands for. */
  ghost function Contents<D>(s: seq<Entry<D>>): (m: map<nat, D>)
    requires NoDuplicates(s)
    ensures forall k :: k in m <==> Holds(s, k)
    ensures forall i :: 0 <= i < |s| && s[i].Used? ==> Holds(s, s[i].key) && m[s[i].key] == s[i].data
  {
    map i | 0 <= i < |s| && s[i].Used? :: s[i].key := s[i].data
  }

  function CountUsed<D>(s: seq<Entry<D>>): nat
  {
    if s == [] then 0 else CountUsed(s[..|s| - 1]) + if s[|s| - 1].Used? then 1 else 0
  }

  lemma {:induction false} CountFill<D>(s: seq<Entry<D>>, p: nat, e: Entry<D>)
    requires p < |s| && s[p].Empty? && e.Used?
    ensures CountUsed(s[p := e]) == CountUsed(s) + 1
    decreases |s|
  {
    var n := |s| - 1;
    if p == n {
      assert s[p := e][..n] == s[..n];
    } else {
      assert s[p := e][..n] == s[..n][p := e];
      CountFill(s[..n], p, e);
    }
  }

  /** A table with every slot but one in use counts at least all but one. */
  lemma {:induction false} CountAllButOne<D>(s: seq<Entry<D>>, x: nat)
    requires forall i :: 0 <= i < |s| && i != x ==> s[i].Used?
    ensures CountUsed(s) >= |s| - 1 && (x >= |s| ==> CountUsed(s) == |s|)
    decreases |s|
  {
    if s != [] { CountAllButOne(s[..|s| - 1], x); }
  }

  lemma {:induction false} CountNone<D>(s: seq<Entry<D>>)
    requires forall i :: 0 <= i < |s| ==> s[i].Empty?
    ensures CountUsed(s) == 0
  {
    if s != [] { CountNone(s[..|s| - 1]); }
  }

  // -------------------------------------------------------------------- probing

  /** Slot number `e` of the probe sequence that starts at hash value `h`. */
  function Probe(h: nat, e: nat, n: nat): (i: nat)
    requires n > 0
    ensures i < n
  {
    SlotOf(SlotOf(h, n) + e, n)
  }

  lemma ProbeNext(h: nat, e: nat, n: nat)
    requires n > 0
    ensures Probe(h, 0, n) == SlotOf(h, n)
    ensures Probe(h, e + 1, n) == SlotOf(Probe(h, e, n) + 1, n)
  {
    IncIsSuccessor(SlotOf(h, n) + e, n);
  }

  /** The slot `d` steps on is in use by `key`, and so are all before it. */
  ghost predicate FoundAt<D>(s: seq<Entry<D>>, h: nat, d: nat, key: nat)
    requires |s| > 0
  {
    && d < |s| - 1
    && (forall e :: 0 <= e < d ==> s[Probe(h, e, |s|)].Used?)
    && s[Probe(h, d, |s|)].Used? && s[Probe(h, d, |s|)].key == key
  }

  ghost predicate Findable<D>(s: seq<Entry<D>>, h: nat, key: nat)
    requires |s| > 0
  {
    exists d :: FoundAt(s, h, d, key)
  }

  /** Nothing but other keys on the first `i` probes. */
  ghost predicate PassedOver<D>(s: seq<Entry<D>>, h: nat, i: nat, key: nat)
    requires |s| > 0
  {
    forall e :: 0 <= e < i ==> s[Probe(h, e, |s|)].Used? && s[Probe(h, e, |s|)].key != key
  }

  /** If all probes pass over, all slots but one are in use. */
  lemma ProbesCoverTable<D>(s: seq<Entry<D>>, h: nat, key: nat)
    requires |s| > 0 && PassedOver(s, h, |s| - 1, key)
    ensures CountUsed(s) >= |s| - 1
  {
    var n := |s|;
    var x := Probe(h, n - 1, n);
    forall i | 0 <= i < n && i != x
      ensures s[i].Used?
    {
      var e := StepsTo(SlotOf(h, n), i, n);
      assert Probe(h, e, n) == i;
    }
    CountAllButOne(s, x);
  }

  lemma StepsTo(a: nat, i: nat, n: nat) returns (e: nat)
    requires a < n && i < n
    ensures e < n && SlotOf(a + e, n) == i
  {
    e := if a <= i then i - a else i + n - a;
  }

  /** An empty slot or the end of the probes means the key is nowhere. */
  lemma AbsentIfPassedOver<D>(s: seq<Entry<D>>, h: nat, i: nat, key: nat)
    requires |s| > 0 && PassedOver(s, h, i, key)
    requires i >= |s| - 1 || s[Probe(h, i, |s|)].Empty?
    requires Holds(s, key) ==> Findable(s, h, key)
    ensures !Holds(s, key)
  {
  }

  // ---------------------------------------------------------------------- class

  class Table<D> {
    const hash: nat -> nat
    var count: nat
    var array_: array<Entry<D>>

    /** What holds even while a grow is due. */
    ghost predicate Sound()
      reads this, array_
    {
      && IsPow2(array_.Length) && array_.Length > 0
      && count == CountUsed(array_[..])
      && NoDuplicates(array_[..])
      && AllFindable(array_[..], hash)
    }

    ghost predicate Valid()
      reads this, array_
    {
      Sound() && 100 * count <= 66 * array_.Length
    }

    ghost function Map(): map<nat, D>
      reads this, array_
      requires NoDuplicates(array_[..])
    {
      Contents(array_[..])
    }

    /** The table cannot take this key: it has one slot, or two and the key's own
        slot belongs to another key. */
    ghost predicate Refuses(key: nat)
      reads this, array_
      requires array_.Length > 0
    {
      || array_.Length == 1
      || (array_.Length == 2 && array_[SlotOf(hash(key), 2)].Used?)
    }

    /** XRayHashTableCreate, with the rounding of XRayHashTableInit. */
    constructor (size: nat, hash: nat -> nat)
      requires 1 <= size <= 0x4000_0000
      ensures Valid() && fresh(array_) && this.hash == hash
      ensures array_.Length == RoundUp(size) && IsPow2(array_.Length) && size <= array_.Length < 2 * size
      ensures size >= 3 ==> array_.Length >= 4
      ensures Map() == map[] && count == 0
    {
      hide RoundUp, And, CountUsed, IsPow2;
      RoundUpIsLeastPower(size);
      this.hash, count := hash, 0;
      array_ := new Entry<D>[RoundUp(size)](_ => Empty);
      new;
      CountNone(array_[..]);
    }

    /** XRayHashTableLookup. */
    method Lookup(key: nat) returns (r: Option<D>)
      requires Sound()
      ensures r == if key in Map() then Some(Map()[key]) else None
    {
      hide Probe, SlotOf, CountUsed, Findable, And;
      var n := array_.Length;
      MaskIsRemainder(hash(key), n);
      var j := And(hash(key), n - 1);
      ProbeNext(hash(key), 0, n);
      var i := 0;
      while i < n - 1
        invariant i <= n && j == Probe(hash(key), i, n)
        invariant PassedOver(array_[..], hash(key), i, key)
      {
        if array_[j].Empty? {
          AbsentIfPassedOver(array_[..], hash(key), i, key);
          return None;
        }
        if array_[j].key == key {
          assert array_[..][j] == array_[j];
          return Some(array_[j].data);
        }
        ProbeNext(hash(key), i, n);
        MaskIsRemainder(j + 1, n);
        j := And(j + 1, n - 1);
        i := i + 1;
      }
      AbsentIfPassedOver(array_[..], hash(key), i, key);
      return None;
    }

    /** The probe loop of XRayHashTableInsert: the slot where it stops, if any. */
    method FindSlot(key: nat) returns (slot: Option<nat>, ghost steps: nat)
      requires Sound()
      ensures PassedOver(array_[..], hash(key), steps, key)
      ensures slot.Some? ==> slot.value < array_.Length && slot.value == Probe(hash(key), steps, array_.Length)
      ensures slot.Some? ==> steps < array_.Length - 1
      ensures slot.Some? ==> array_[slot.value].Empty? || array_[slot.value].key == key
      ensures slot.None? ==> steps == array_.Length - 1
    {
      hide Probe, SlotOf, CountUsed, Findable, And, NoDuplicates;
      var n := array_.Length;
      MaskIsRemainder(hash(key), n);
      var j := And(hash(key), n - 1);
      ProbeNext(hash(key), 0, n);
      var i := 0;
      while i < n - 1
        invariant i < n && j == Probe(hash(key), i, n)
        invariant PassedOver(array_[..], hash(key), i, key)
      {
        if array_[j].Empty? || array_[j].key == key {
          return Some(j), i;
        }
        ProbeNext(hash(key), i, n);
        MaskIsRemainder(j + 1, n);
        j := And(j + 1, n - 1);
        i := i + 1;
      }
      return None, i;
    }

    /** XRayHashTableInsert: keeps the data already there; grows past a load of 0.66.
        The empty result is the source's "table was full". */
    method Insert(data: D, key: nat) returns (r: Option<D>)
      requires Valid()
      modifies this, array_
      ensures Valid() && (array_ == old(array_) || fresh(array_))
      ensures r.None? <==> old(key !in Map() && Refuses(key))
      ensures r.None? ==> Map() == old(Map())
      ensures r.Some? ==> Map() == old(if key in Map() then Map() else Map()[key := data]) && r == Some(Map()[key])
      ensures old(array_.Length) >= 4 ==> r.Some?
      ensures array_.Length == old(array_.Length) || array_.Length == 2 * old(array_.Length)
      ensures old(100 * (count + 1) <= 66 * array_.Length) ==> array_ == old(array_)
      ensures count <= old(count) + 1
      ensures old(key !in Map()) && r.Some? ==> count == old(count) + 1
      decreases if 100 * (count + 1) <= 66 * array_.Length then 0 else 2
    {
      hide SlotOf, CountUsed, Findable, Probe, AllFindable, And;
      var slot;
      ghost var steps;
      slot, steps := FindSlot(key);
      if slot.None? {
        TableFull(array_[..], hash, key, count);
        return None;
      }
      var j := slot.value;
      if array_[j].Used? {
        KeyPresent(array_[..], key, j);
        return Some(array_[j].data);
      }
      SlotFree(array_[..], hash, key, steps);
      FillSlot(array_[..], hash, key, steps, data);
      array_[j] := Used(key, data);
      count := count + 1;
      if 100 * count > 66 * array_.Length {
        Grow();
      }
      r := Some(data);
    }

    /** XRayHashTableGrow: double the table and insert everything again; no
        insertion grows a second time. */
    method Grow()
      requires Sound() && 66 * array_.Length < 100 * count <= 66 * array_.Length + 100 && array_.Length >= 2
      modifies this
      ensures Valid() && fresh(array_) && Map() == old(Map()) && count == old(count)
      ensures array_.Length == 2 * old(array_.Length)
      decreases 1
    {
      hide SlotOf, CountUsed, Findable, Probe, AllFindable, And;
      var was := array_;
      DoublingKeepsPow2(was.Length);
      array_ := new Entry<D>[2 * was.Length](_ => Empty);
      count := 0;
      FreshTable(array_[..], hash);
      CountNone(was[..0]);
      var i := 0;
      while i < was.Length
        invariant i <= was.Length && was[..] == old(array_[..])
        invariant fresh(array_) && array_.Length == 2 * was.Length
        invariant Valid() && count == CountUsed(was[..i])
        invariant NoDuplicates(was[..i]) && Map() == Contents(was[..i])
      {
        PrefixFacts(was[..], i);
        if was[i].Used? {
          var inserted := Insert(was[i].data, was[i].key);
        }
        i := i + 1;
      }
      assert was[..i] == was[..];
    }
  }

  /** Inserting only what is absent, one pair after the other. */
  function Inserted<D>(m: map<nat, D>, pairs: seq<(nat, D)>): map<nat, D>
    decreases |pairs|
  {
    if pairs == [] then m
    else Inserted(if pairs[0].0 in m then m else m[pairs[0].0 := pairs[0].1], pairs[1..])
  }

  /** Any sequence of insertions leaves the table equal to the insert-if-absent
      map, and none of them is refused. */
  method InsertAll<D>(table: Table<D>, pairs: seq<(nat, D)>)
    requires table.Valid() && table.array_.Length >= 4
    modifies table, table.array_
    ensures table.Valid() && table.array_.Length >= 4
    ensures table.Map() == Inserted(old(table.Map()), pairs)
  {
    var i := 0;
    while i < |pairs|
      invariant i <= |pairs| && table.Valid() && table.array_.Length >= 4
      invariant table.array_ == old(table.array_) || fresh(table.array_)
      invariant Inserted(table.Map(), pairs[i..]) == Inserted(old(table.Map()), pairs)
    {
      assert pairs[i..][1..] == pairs[i + 1..];
      var r := table.Insert(pairs[i].1, pairs[i].0);
      assert r.Some?;
      i := i + 1;
    }
  }

  ghost predicate AllFindable<D>(s: seq<Entry<D>>, hash: nat -> nat)
    requires |s| > 0
  {
    forall k :: Holds(s, k) ==> Findable(s, hash(k), k)
  }

  /** Probing every slot in vain happens only in the two smallest tables. */
  lemma TableFull<D>(s: seq<Entry<D>>, hash: nat -> nat, key: nat, count: nat)
    requires |s| > 0 && AllFindable(s, hash) && count == CountUsed(s) && 100 * count <= 66 * |s|
    requires PassedOver(s, hash(key), |s| - 1, key)
    ensures !Holds(s, key) && |s| <= 2
    ensures |s| == 2 ==> s[SlotOf(hash(key), 2)].Used?
  {
    ProbesCoverTable(s, hash(key), key);
    AbsentIfPassedOver(s, hash(key), |s| - 1, key);
    if |s| == 2 {
      ProbeNext(hash(key), 0, 2);
      assert s[Probe(hash(key), 0, 2)].Used?;
    }
  }

  lemma KeyPresent<D>(s: seq<Entry<D>>, key: nat, j: nat)
    requires j < |s| && NoDuplicates(s) && s[j].Used? && s[j].key == key
    ensures key in Contents(s) && Contents(s)[key] == s[j].data
  {
  }

  lemma SlotFree<D>(s: seq<Entry<D>>, hash: nat -> nat, key: nat, steps: nat)
    requires |s| > 0 && AllFindable(s, hash) && PassedOver(s, hash(key), steps, key) && steps < |s| - 1
    requires s[Probe(hash(key), steps, |s|)].Empty?
    ensures !Holds(s, key)
    ensures |s| == 2 ==> s[SlotOf(hash(key), 2)].Empty?
  {
    AbsentIfPassedOver(s, hash(key), steps, key);
    if |s| == 2 { ProbeNext(hash(key), 0, 2); }
  }

  /** Filling the slot where the probe stopped. */
  lemma FillSlot<D>(s: seq<Entry<D>>, hash: nat -> nat, key: nat, steps: nat, data: D)
    requires |s| > 0 && AllFindable(s, hash) && NoDuplicates(s) && !Holds(s, key)
    requires PassedOver(s, hash(key), steps, key) && steps < |s| - 1
    requires s[Probe(hash(key), steps, |s|)].Empty?
    ensures var t := s[Probe(hash(key), steps, |s|) := Used(key, data)];
      && CountUsed(t) == CountUsed(s) + 1 && NoDuplicates(t) && AllFindable(t, hash)
      && Contents(t) == Contents(s)[key := data]
  {
    hide SlotOf, Probe, CountUsed;
    var p := Probe(hash(key), steps, |s|);
    var t := s[p := Used(key, data)];
    CountFill(s, p, Used(key, data));
    FillContents(s, p, key, data);
    forall k | Holds(t, k)
      ensures Findable(t, hash(k), k)
    {
      if k == key {
        assert FoundAt(t, hash(k), steps, k);
      } else {
        assert Holds(s, k);
        var d :| FoundAt(s, hash(k), d, k);
        assert FoundAt(t, hash(k), d, k);
      }
    }
  }

  lemma FillContents<D>(s: seq<Entry<D>>, p: nat, key: nat, data: D)
    requires p < |s| && s[p].Empty? && NoDuplicates(s) && !Holds(s, key)
    ensures var t := s[p := Used(key, data)];
      && NoDuplicates(t) && Contents(t) == Contents(s)[key := data]
      && forall k :: Holds(t, k) <==> Holds(s, k) || k == key
  {
    hide Holds;
    var t := s[p := Used(key, data)];
    forall k ensures Holds(t, k) <==> Holds(s, k) || k == key { FillHolds(s, p, key, data, k); }
    FillNoDuplicates(s, p, key, data);
    forall k | Holds(t, k)
      ensures Contents(t)[k] == Contents(s)[key := data][k]
    {
      FillValue(s, p, key, data, k);
    }
  }

  lemma FillHolds<D>(s: seq<Entry<D>>, p: nat, key: nat, data: D, k: nat)
    requires p < |s| && s[p].Empty?
    ensures Holds(s[p := Used(key, data)], k) <==> Holds(s, k) || k == key
  {
    var t := s[p := Used(key, data)];
    if Holds(s, k) {
      var i :| 0 <= i < |s| && s[i].Used? && s[i].key == k;
      assert t[i].Used? && t[i].key == k;
    }
    if k == key { assert t[p].Used?; }
  }

  lemma FillNoDuplicates<D>(s: seq<Entry<D>>, p: nat, key: nat, data: D)
    requires p < |s| && NoDuplicates(s) && !Holds(s, key)
    ensures NoDuplicates(s[p := Used(key, data)])
  {
  }

  lemma FillValue<D>(s: seq<Entry<D>>, p: nat, key: nat, data: D, k: nat)
    requires p < |s| && s[p].Empty? && NoDuplicates(s) && !Holds(s, key)
    requires NoDuplicates(s[p := Used(key, data)]) && Holds(s[p := Used(key, data)], k)
    ensures k in Contents(s)[key := data] && k in Contents(s[p := Used(key, data)])
    ensures Contents(s[p := Used(key, data)])[k] == Contents(s)[key := data][k]
  {
    var t := s[p := Used(key, data)];
    var i :| 0 <= i < |t| && t[i].Used? && t[i].key == k;
    KeyPresent(t, k, i);
    if i != p { KeyPresent(s, k, i); }
  }

  lemma FreshTable<D>(s: seq<Entry<D>>, hash: nat -> nat)
    requires |s| > 0 && forall i :: 0 <= i < |s| ==> s[i].Empty?
    ensures CountUsed(s) == 0 && NoDuplicates(s) && AllFindable(s, hash) && Contents(s) == map[]
  {
    CountNone(s);
  }

  /** What the re-insertion loop needs of the part already copied. */
  lemma PrefixFacts<D>(s: seq<Entry<D>>, i: nat)
    requires i < |s| && NoDuplicates(s)
    ensures NoDuplicates(s[..i]) && NoDuplicates(s[..i + 1])
    ensures CountUsed(s[..i + 1]) == CountUsed(s[..i]) + if s[i].Used? then 1 else 0
    ensures s[i].Used? ==> s[i].key !in Contents(s[..i]) && CountUsed(s[..i]) < CountUsed(s)
    ensures Contents(s[..i + 1]) == if s[i].Used? then Contents(s[..i])[s[i].key := s[i].data] else Contents(s[..i])
  {
    hide CountUsed, Contents;
    CountPrefix(s, i);
    CountGrows(s, i + 1);
    ContentsPrefix(s, i);
  }

  lemma CountPrefix<D>(s: seq<Entry<D>>, i: nat)
    requires i < |s|
    ensures CountUsed(s[..i + 1]) == CountUsed(s[..i]) + if s[i].Used? then 1 else 0
  {
    assert s[..i + 1][..i] == s[..i];
  }

  lemma {:induction false} CountGrows<D>(s: seq<Entry<D>>, i: nat)
    requires i <= |s|
    ensures CountUsed(s[..i]) <= CountUsed(s)
    decreases |s| - i
  {
    if i < |s| {
      CountPrefix(s, i);
      CountGrows(s, i + 1);
    } else {
      assert s[..i] == s;
    }
  }

  lemma ContentsPrefix<D>(s: seq<Entry<D>>, i: nat)
    requires i < |s| && NoDuplicates(s)
    ensures NoDuplicates(s[..i]) && NoDuplicates(s[..i + 1])
    ensures s[i].Used? ==> s[i].key !in Contents(s[..i])
    ensures Contents(s[..i + 1]) == if s[i].Used? then Contents(s[..i])[s[i].key := s[i].data] else Contents(s[..i])
  {
    var a, b := s[..i], s[..i + 1];
    assert forall k :: 0 <= k < i ==> a[k] == b[k];
    ContentsExtend(a, b);
  }

  lemma ContentsExtend<D>(a: seq<Entry<D>>, b: seq<Entry<D>>)
    requires |b| == |a| + 1 && NoDuplicates(b) && forall k :: 0 <= k < |a| ==> a[k] == b[k]
    ensures NoDuplicates(a)
    ensures var e := b[|a|];
      && (e.Used? ==> e.key !in Contents(a))
      && Contents(b) == if e.Used? then Contents(a)[e.key := e.data] else Contents(a)
  {
    var e := b[|a|];
    forall k
      ensures Holds(b, k) <==> Holds(a, k) || (e.Used? && e.key == k)
    {
      if Holds(a, k) {
        var j :| 0 <= j < |a| && a[j].Used? && a[j].key == k;
        assert b[j].Used? && b[j].key == k;
      }
    }
    forall k | Holds(a, k)
      ensures Contents(b)[k] == Contents(a)[k]
    {
      var j :| 0 <= j < |a| && a[j].Used? && a[j].key == k;
      assert b[j].Used? && b[j].key == k;
    }
  }
}
