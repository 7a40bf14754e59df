/**
 The open-addressing hash table of minzip (Hash.c): linear probing with wrap-around, tombstones and
 doubling, checked against a plain finite map from keys to items.

 An item's key stands for what the caller's compare function compares, and its hash is computed from
 the key, as every caller does.
 */
module HashTable {
  import opened Power2
  import opened Wrappers

  datatype Slot<+T> = Empty | Tombstone | Live(hash: nat, data: T)

  const LOAD_NUMER := 5
  const LOAD_DENOM := 8

  /** mzHashSize (Hash.c:26-28). */
  function MzHashSize(size: nat): (r: nat)
    ensures r > 0
  {
    size * LOAD_DENOM / LOAD_NUMER + 1
  }

  // ---------------------------------------------------------------- slots

  /** Slot j is met before slot i by a probe that starts at slot home. */
  predicate Between(home: int, j: int, i: int)
  {
    if home <= i then home <= j < i else home <= j || j < i
  }

  function Home(hash: nat, size: nat): (r: nat)
    requires size > 0
    ensures r < size
  {
    hash % size
  }

  /** The C code masks with size - 1 instead (Hash.c:156, 191 and 263), which is the same for a power of two. */
  lemma HomeIsMask(hash: nat, size: nat)
    requires hash < Pow2(WORD) && IsPow2(size) && 0 < size <= Pow2(WORD)
    ensures Home(hash, size) == Value(And(BitsOf(hash, WORD), BitsOf(size - 1, WORD)))
  {
    var k: nat :| size == Pow2(k);
    Pow2Strict(WORD, k);
    MaskIsMod(hash, k);
  }

  /** The slot after i, wrapping around. */
  function Next(i: nat, size: nat): (r: nat)
    requires i < size
    ensures r == if i + 1 == size then 0 else i + 1
  {
    (i + 1) % size
  }

  /** How far a probe at i is from slot e. */
  function Distance(i: int, e: int, size: int): (r: int)
  {
    if i <= e then e - i else e + size - i
  }

  /** No empty slot stops a probe from home before it reaches i. */
  ghost predicate Unbroken<T>(E: seq<Slot<T>>, home: int, i: int)
  {
    forall j :: 0 <= j < |E| && Between(home, j, i) ==> E[j] != Empty
  }

  /** Every live entry carries the hash of its key, lies on the probe path from its home, and no key occurs twice. */
  ghost predicate Placed<K, T>(E: seq<Slot<T>>, key: T -> K, hash: K -> nat)
  {
    && |E| > 0
    && (forall i :: 0 <= i < |E| && E[i].Live? ==>
        E[i].hash == hash(key(E[i].data)) && Unbroken(E, Home(E[i].hash, |E|), i))
    && (forall i, j :: 0 <= i < |E| && 0 <= j < |E| && E[i].Live? && E[j].Live? && key(E[i].data) == key(E[j].data) ==>
        i == j)
  }

  /** The live entries are those of the map m. */
  ghost predicate Holds<K, T>(E: seq<Slot<T>>, key: T -> K, m: map<K, T>)
  {
    && (forall i :: 0 <= i < |E| && E[i].Live? ==> key(E[i].data) in m && m[key(E[i].data)] == E[i].data)
    && (forall k :: k in m ==> exists i :: 0 <= i < |E| && E[i].Live? && key(E[i].data) == k)
  }

  function Tag<T>(x: Slot<T>): (t: int)
  {
    match x case Empty => 0 case Tombstone => 1 case Live(_, _) => 2
  }

  ghost function Tags<T>(E: seq<Slot<T>>): (r: seq<int>)
    ensures |r| == |E|
  {
    seq(|E|, i requires 0 <= i < |E| => Tag(E[i]))
  }

  /** E has this many live entries and this many tombstones. */
  ghost predicate Counted<T>(E: seq<Slot<T>>, live: int, dead: int)
  {
    multiset(Tags(E))[2] == live && multiset(Tags(E))[1] == dead
  }

  lemma TagsUpdate<T>(E: seq<Slot<T>>, i: nat, x: Slot<T>)
    requires i < |E|
    ensures multiset(Tags(E[i := x])) == multiset(Tags(E)) - multiset{Tag(E[i])} + multiset{Tag(x)}
  {
    assert Tags(E[i := x]) == Tags(E)[i := Tag(x)];
  }

  lemma {:induction false} TagsTotal(t: seq<int>)
    requires forall i :: 0 <= i < |t| ==> 0 <= t[i] <= 2
    ensures multiset(t)[0] + multiset(t)[1] + multiset(t)[2] == |t|
  {
    if t != [] {
      TagsTotal(t[1..]);
      assert t == [t[0]] + t[1..];
    }
  }

  /** A table that is not full has an empty slot. */
  lemma SomeEmpty<T>(E: seq<Slot<T>>, live: nat, dead: nat) returns (e: nat)
    requires Counted(E, live, dead) && live + dead < |E|
    ensures e < |E| && E[e] == Empty
  {
    TagsTotal(Tags(E));
    assert 0 in multiset(Tags(E));
    var i :| 0 <= i < |E| && Tags(E)[i] == 0;
    e := i;
  }

  /** A probe that met an empty slot without meeting the key: the key is nowhere. */
  lemma NotThere<K, T>(E: seq<Slot<T>>, key: T -> K, hash: K -> nat, m: map<K, T>, k: K, i: nat)
    requires Placed(E, key, hash) && Holds(E, key, m) && i < |E| && E[i] == Empty
    requires forall j :: 0 <= j < |E| && Between(Home(hash(k), |E|), j, i) ==> !(E[j].Live? && key(E[j].data) == k)
    ensures k !in m
  {
    forall n | 0 <= n < |E| && n != i
      ensures Between(Home(hash(k), |E|), i, n) || Between(Home(hash(k), |E|), n, i)
    {
    }
    assert forall n :: 0 <= n < |E| && E[n].Live? ==> key(E[n].data) != k;
  }

  /** Filling the empty slot a probe for the item's key ended on. */
  lemma Filled<K, T>(E: seq<Slot<T>>, key: T -> K, hash: K -> nat, m: map<K, T>, i: nat, item: T)
    requires Placed(E, key, hash) && Holds(E, key, m) && i < |E| && E[i] == Empty
    requires key(item) !in m && Unbroken(E, Home(hash(key(item)), |E|), i)
    ensures var E' := E[i := Live(hash(key(item)), item)];
            Placed(E', key, hash) && Holds(E', key, m[key(item) := item])
  {
    var E' := E[i := Live(hash(key(item)), item)];
    var m' := m[key(item) := item];
    forall k | k in m'
      ensures exists n :: 0 <= n < |E'| && E'[n].Live? && key(E'[n].data) == k
    {
      if k == key(item) {
        assert E'[i].Live?;
      } else {
        var n :| 0 <= n < |E| && E[n].Live? && key(E[n].data) == k;
        assert E'[n].Live?;
      }
    }
  }

  /** Burying a live entry. */
  lemma Buried<K, T>(E: seq<Slot<T>>, key: T -> K, hash: K -> nat, m: map<K, T>, i: nat)
    requires Placed(E, key, hash) && Holds(E, key, m) && i < |E| && E[i].Live?
    ensures Placed(E[i := Tombstone], key, hash) && Holds(E[i := Tombstone], key, m - {key(E[i].data)})
  {
    var E', m' := E[i := Tombstone], m - {key(E[i].data)};
    forall k | k in m'
      ensures exists n :: 0 <= n < |E'| && E'[n].Live? && key(E'[n].data) == k
    {
      var n :| 0 <= n < |E| && E[n].Live? && key(E[n].data) == k;
      assert E'[n].Live?;
    }
  }

  // ---------------------------------------------------------------- the table

  class HashTable<K(==), T(==)> {
    const key: T -> K
    const hash: K -> nat
    var entries: array<Slot<T>>
    var numEntries: nat
    var numDead: nat
    ghost var Contents: map<K, T>

    /** What every operation keeps: room for an empty slot, a power-of-two size, and the map's own entries in reach. */
    ghost predicate Valid()
      reads this, entries
    {
      && IsPow2(entries.Length) && Counted(entries[..], numEntries, numDead)
      && (numEntries + numDead) * LOAD_DENOM <= entries.Length * LOAD_NUMER
      && Placed(entries[..], key, hash) && Holds(entries[..], key, Contents)
    }

    /** mzHashTableCreate (Hash.c:51-72). */
    constructor (initialSize: nat, key: T -> K, hash: K -> nat)
      requires 0 < initialSize <= Pow2(WORD - 1)
      ensures Valid() && fresh(entries) && Contents == map[] && this.key == key && this.hash == hash
      ensures initialSize <= entries.Length < 2 * initialSize && numEntries == numDead == 0
    {
      hide RoundUpPower2, Pow2, IsPow2, Counted, Placed, Holds;
      RoundUpIsLeast(initialSize);
      var E := NewTable<T>(RoundUpPower2(initialSize));
      EmptyTable(E[..], key, hash);
      this.key, this.hash, entries, numEntries, numDead := key, hash, E, 0, 0;
      Contents := map[];
    }

    /**
     The probe of mzHashTableLookup (Hash.c:190-211): stops on the key's entry, or on an empty slot if there is
     none.  The single-slot special case is never reached.
     */
    method FindSlot(k: K) returns (i: nat)
      requires Valid()
      ensures i < entries.Length && Unbroken(entries[..], Home(hash(k), entries.Length), i)
      ensures if k in Contents then entries[i] == Live(hash(k), Contents[k]) else entries[i] == Empty
    {
      var size := entries.Length;
      ghost var e := SomeEmpty(entries[..], numEntries, numDead);
      ghost var home := Home(hash(k), size);
      i := Home(hash(k), size);
      while entries[i] != Empty
        invariant i < size == entries.Length && Unbroken(entries[..], home, i)
        invariant forall j :: 0 <= j < size && Between(home, j, i) ==> !(entries[j].Live? && key(entries[j].data) == k)
        decreases Distance(i, e, size)
      {
        if entries[i].Live? && entries[i].hash == hash(k) && key(entries[i].data) == k { return; }
        i := i + 1;
        if i == size {
          if size == 1 { assert false; break; }
          i := 0;
        }
      }
      NotThere(entries[..], key, hash, Contents, k, i);
    }

    /** mzHashTableLookup without adding (Hash.c:179-248). */
    method Lookup(k: K) returns (r: Option<T>)
      requires Valid()
      ensures r == if k in Contents then Some(Contents[k]) else None
    {
      var i := FindSlot(k);
      r := if entries[i] == Empty then None else Some(entries[i].data);
    }

    /** mzHashTableLookup with adding (Hash.c:213-245): an entry with the same key wins over the new item. */
    method Add(item: T) returns (r: T)
      requires Valid()
      modifies this, entries
      ensures Valid() && (entries == old(entries) || fresh(entries))
      ensures if key(item) in old(Contents) then r == old(Contents)[key(item)] && Contents == old(Contents)
              else r == item && Contents == old(Contents)[key(item) := item]
      ensures numDead <= old(numDead) && numEntries == old(numEntries) + if key(item) in old(Contents) then 0 else 1
      ensures (old(numEntries) + old(numDead) + 1) * LOAD_DENOM <= old(entries.Length) * LOAD_NUMER ==>
                entries == old(entries)
    {
      hide Placed, Holds, Unbroken;
      var i := FindSlot(key(item));
      if entries[i] != Empty {
        return entries[i].data;
      }
      hide IsPow2, Counted;
      PlacedNonEmpty(entries[..], key, hash);
      Filled(entries[..], key, hash, Contents, i, item);
      CountedFill(entries[..], numEntries, numDead, i, Live(hash(key(item)), item));
      entries[i] := Live(hash(key(item)), item);
      Contents := Contents[key(item) := item];
      numEntries := numEntries + 1;
      if (numEntries + numDead) * LOAD_DENOM > entries.Length * LOAD_NUMER {
        Pow2Twice(entries.Length);
        var N := Rehash(entries, entries.Length * 2, key, hash, Contents, numEntries, numDead);
        entries, numDead := N, 0;
      }
      assert numEntries < entries.Length;
      r := item;
    }

    /** mzHashTableRemove (Hash.c:255-285): by identity of the item, not by key. */
    method Remove(item: T) returns (b: bool)
      requires Valid()
      modifies this, entries
      ensures Valid() && entries == old(entries)
      ensures b <==> key(item) in old(Contents) && old(Contents)[key(item)] == item
      ensures Contents == if b then old(Contents) - {key(item)} else old(Contents)
    {
      var i := FindItem(item);
      if entries[i] == Empty {
        return false;
      }
      hide Placed, Holds, IsPow2, Counted;
      Buried(entries[..], key, hash, Contents, i);
      CountedBury(entries[..], numEntries, numDead, i);
      Contents := Contents - {key(item)};
      entries[i] := Tombstone;
      numEntries := numEntries - 1;
      numDead := numDead + 1;
      b := true;
    }

    /** The probe of mzHashTableRemove (Hash.c:262-282), comparing items only. */
    method FindItem(item: T) returns (i: nat)
      requires Valid()
      ensures i < entries.Length
      ensures if key(item) in Contents && Contents[key(item)] == item then entries[i] == Live(hash(key(item)), item)
              else entries[i] == Empty
    {
      var size := entries.Length;
      ghost var e := SomeEmpty(entries[..], numEntries, numDead);
      ghost var home := Home(hash(key(item)), size);
      i := Home(hash(key(item)), size);
      while entries[i] != Empty
        invariant i < size == entries.Length && Unbroken(entries[..], home, i)
        invariant forall j :: 0 <= j < size && Between(home, j, i) ==> !(entries[j].Live? && entries[j].data == item)
        decreases Distance(i, e, size)
      {
        if entries[i].Live? && entries[i].data == item { return; }
        i := i + 1;
        if i == size {
          if size == 1 { assert false; break; }
          i := 0;
        }
      }
      ItemNotThere(entries[..], key, hash, Contents, item, i);
    }

    /** mzHashTableClear (Hash.c:77-97). */
    method Clear()
      requires Valid()
      modifies this, entries
      ensures Valid() && entries == old(entries) && Contents == map[]
    {
      var i := 0;
      while i < entries.Length
        invariant 0 <= i <= entries.Length && entries == old(entries)
        invariant forall j :: 0 <= j < i ==> entries[j] == Empty
        modifies entries
      {
        entries[i] := Empty;
        i := i + 1;
      }
      numEntries, numDead := 0, 0;
      Contents := map[];
      EmptyTable(entries[..], key, hash);
    }
  }

  lemma PlacedNonEmpty<K, T>(E: seq<Slot<T>>, key: T -> K, hash: K -> nat)
    requires Placed(E, key, hash)
    ensures |E| > 0
  {
  }

  lemma ItemNotThere<K, T>(E: seq<Slot<T>>, key: T -> K, hash: K -> nat, m: map<K, T>, item: T, i: nat)
    requires Placed(E, key, hash) && Holds(E, key, m) && i < |E| && E[i] == Empty
    requires forall j :: 0 <= j < |E| && Between(Home(hash(key(item)), |E|), j, i) ==>
              !(E[j].Live? && E[j].data == item)
    ensures !(key(item) in m && m[key(item)] == item)
  {
    forall n | 0 <= n < |E| && n != i
      ensures Between(Home(hash(key(item)), |E|), i, n) || Between(Home(hash(key(item)), |E|), n, i)
    {
    }
    assert forall n :: 0 <= n < |E| && E[n].Live? ==> E[n].data != item;
  }

  lemma CountedFill<T>(E: seq<Slot<T>>, live: nat, dead: nat, i: nat, x: Slot<T>)
    requires Counted(E, live, dead) && i < |E| && E[i] == Empty && x.Live?
    ensures Counted(E[i := x], live + 1, dead)
  {
    TagsUpdate(E, i, x);
  }

  lemma CountedBury<T>(E: seq<Slot<T>>, live: nat, dead: nat, i: nat)
    requires Counted(E, live, dead) && i < |E| && E[i].Live?
    ensures live > 0 && Counted(E[i := Tombstone], live - 1, dead + 1)
  {
    TagsUpdate(E, i, Tombstone);
    assert Tags(E)[i] in multiset(Tags(E));
  }

  lemma Pow2Twice(n: nat)
    requires IsPow2(n)
    ensures IsPow2(2 * n)
  {
    var k: nat :| n == Pow2(k);
    assert 2 * n == Pow2(k + 1);
  }

  // ---------------------------------------------------------------- resizing

  /** The map of the live entries among the given slots. */
  ghost function MapOf<K, T>(E: seq<Slot<T>>, key: T -> K): (m: map<K, T>)
  {
    if E == [] then map[]
    else
      var m, x := MapOf(E[..|E| - 1], key), E[|E| - 1];
      if x.Live? then m[key(x.data) := x.data] else m
  }

  lemma {:induction false} MapOfKeys<K, T>(E: seq<Slot<T>>, key: T -> K)
    ensures forall k :: k in MapOf(E, key) ==>
              exists i :: 0 <= i < |E| && E[i].Live? && E[i].data == MapOf(E, key)[k] && key(E[i].data) == k
    ensures forall i :: 0 <= i < |E| && E[i].Live? ==> key(E[i].data) in MapOf(E, key)
  {
    if E != [] { MapOfKeys(E[..|E| - 1], key); }
  }

  lemma MapOfHeld<K, T>(E: seq<Slot<T>>, key: T -> K, m: map<K, T>)
    requires Holds(E, key, m)
    ensures MapOf(E, key) == m
  {
    MapOfKeys(E, key);
    assert MapOf(E, key).Keys == m.Keys;
  }

  /** The next live entry's key has not been rehashed yet. */
  lemma KeyIsNew<K, T>(E: seq<Slot<T>>, key: T -> K, hash: K -> nat, i: nat)
    requires Placed(E, key, hash) && i < |E| && E[i].Live?
    ensures key(E[i].data) !in MapOf(E[..i], key) && E[i].hash == hash(key(E[i].data))
  {
    MapOfKeys(E[..i], key);
  }

  lemma CountNext<T>(E: seq<Slot<T>>, i: nat)
    requires i < |E|
    ensures multiset(Tags(E[..i + 1]))[2] == multiset(Tags(E[..i]))[2] + if E[i].Live? then 1 else 0
    ensures multiset(Tags(E[..i + 1]))[2] <= multiset(Tags(E))[2]
  {
    assert Tags(E[..i + 1]) == Tags(E[..i]) + [Tag(E[i])];
    assert Tags(E) == Tags(E[..i + 1]) + Tags(E[i + 1..]);
  }

  /** Probes a table without tombstones for the first empty slot from home (Hash.c:155-158). */
  method FindEmpty<T(==)>(N: array<Slot<T>>, home: nat, ghost live: nat) returns (i: nat)
    requires home < N.Length && Counted(N[..], live, 0) && live < N.Length
    ensures i < N.Length && N[i] == Empty && Unbroken(N[..], home, i)
  {
    ghost var e := SomeEmpty(N[..], live, 0);
    i := home;
    while N[i] != Empty
      invariant i < N.Length && Unbroken(N[..], home, i)
      decreases Distance(i, e, N.Length)
    {
      i := Next(i, N.Length);
    }
  }

  /** resizeHash (Hash.c:137-172): re-inserts the live entries and drops the tombstones. */
  method Rehash<K, T(==)>(E: array<Slot<T>>, newSize: nat, key: T -> K, ghost hash: K -> nat, ghost m: map<K, T>,
      ghost live: nat, ghost dead: nat)
    returns (N: array<Slot<T>>)
    requires Placed(E[..], key, hash) && Holds(E[..], key, m) && Counted(E[..], live, dead) && live < newSize
    ensures fresh(N) && N.Length == newSize
    ensures Placed(N[..], key, hash) && Holds(N[..], key, m) && Counted(N[..], live, 0)
  {
    hide Placed, Holds, Unbroken, MapOf;
    N := NewTable<T>(newSize);
    EmptyTable(N[..], key, hash);
    ghost var S := E[..];
    ghost var done := 0;
    assert S[..0] == [] && MapOf(S[..0], key) == map[] by { MapOfNothing<K, T>(key); }
    var i := 0;
    while i < E.Length
      invariant 0 <= i <= E.Length == |S| && E[..] == S && fresh(N) && N.Length == newSize
      invariant Placed(N[..], key, hash) && Holds(N[..], key, MapOf(S[..i], key)) && Counted(N[..], done, 0)
      invariant done == multiset(Tags(S[..i]))[2] <= live
    {
      assert S[..i + 1] == S[..i] + [S[i]];
      CountNext(S, i);
      MapOfNext(S, key, i);
      if E[i].Live? {
        KeyIsNew(S, key, hash, i);
        var j := FindEmpty(N, Home(E[i].hash, newSize), done);
        Filled(N[..], key, hash, MapOf(S[..i], key), j, E[i].data);
        CountedFill(N[..], done, 0, j, E[i]);
        N[j] := Live(E[i].hash, E[i].data);
        done := done + 1;
      }
      i := i + 1;
    }
    assert S[..i] == S;
    MapOfHeld(S, key, m);
  }

  lemma MapOfNothing<K, T>(key: T -> K)
    ensures MapOf<K, T>([], key) == map[]
  {
  }

  lemma MapOfNext<K, T>(E: seq<Slot<T>>, key: T -> K, i: nat)
    requires i < |E|
    ensures MapOf(E[..i + 1], key) == if E[i].Live? then MapOf(E[..i], key)[key(E[i].data) := E[i].data]
            else MapOf(E[..i], key)
  {
    assert E[..i + 1][..i] == E[..i];
  }

  method NewTable<T>(size: nat) returns (E: array<Slot<T>>)
    ensures fresh(E) && E.Length == size && forall i :: 0 <= i < size ==> E[i] == Empty
  {
    E := new Slot<T>[size](_ => Empty);
  }

  lemma EmptyTable<K, T>(E: seq<Slot<T>>, key: T -> K, hash: K -> nat)
    requires |E| > 0 && forall i :: 0 <= i < |E| ==> E[i] == Empty
    ensures Counted(E, 0, 0) && Placed(E, key, hash) && Holds(E, key, map[])
  {
    assert forall t :: t in multiset(Tags(E)) ==> t in Tags(E);
  }

  // ---------------------------------------------------------------- whole runs

  datatype Op<+K, +T> = OpLookup(k: K) | OpAdd(item: T) | OpRemove(item: T) | OpClear

  datatype Reply<+T> = Found(r: Option<T>) | Kept(item: T) | Removed(b: bool) | Cleared

  /** What an operation means for a plain map. */
  function MapStep<K, T(==)>(m: map<K, T>, key: T -> K, op: Op<K, T>): (r: (map<K, T>, Reply<T>))
  {
    match op
    case OpLookup(k) => (m, Found(if k in m then Some(m[k]) else None))
    case OpAdd(item) => if key(item) in m then (m, Kept(m[key(item)])) else (m[key(item) := item], Kept(item))
    case OpRemove(item) =>
      if key(item) in m && m[key(item)] == item then (m - {key(item)}, Removed(true)) else (m, Removed(false))
    case OpClear => (map[], Cleared)
  }

  function MapRun<K, T(==)>(m: map<K, T>, key: T -> K, ops: seq<Op<K, T>>): (r: (map<K, T>, seq<Reply<T>>))
  {
    if ops == [] then (m, [])
    else
      var (m1, replies) := MapRun(m, key, ops[..|ops| - 1]);
      var (m2, reply) := MapStep(m1, key, ops[|ops| - 1]);
      (m2, replies + [reply])
  }

  method Step<K(==), T(==)>(t: HashTable<K, T>, op: Op<K, T>) returns (reply: Reply<T>)
    requires t.Valid()
    modifies t, t.entries
    ensures t.Valid() && (t.entries == old(t.entries) || fresh(t.entries))
    ensures (t.Contents, reply) == MapStep(old(t.Contents), t.key, op)
  {
    match op
    case OpLookup(k) => var r := t.Lookup(k); reply := Found(r);
    case OpAdd(item) => var r := t.Add(item); reply := Kept(r);
    case OpRemove(item) => var b := t.Remove(item); reply := Removed(b);
    case OpClear => t.Clear(); reply := Cleared;
  }

  /** Over any sequence of operations the table answers as the plain map does, and ends as it does. */
  method Run<K(==), T(==)>(t: HashTable<K, T>, ops: seq<Op<K, T>>) returns (replies: seq<Reply<T>>)
    requires t.Valid()
    modifies t, t.entries
    ensures t.Valid() && (t.Contents, replies) == MapRun(old(t.Contents), t.key, ops)
  {
    replies := [];
    assert ops[..0] == [];
    for i := 0 to |ops|
      invariant t.Valid() && (t.entries == old(t.entries) || fresh(t.entries))
      invariant (t.Contents, replies) == MapRun(old(t.Contents), t.key, ops[..i])
    {
      assert ops[..i + 1][..i] == ops[..i];
      var reply := Step(t, ops[i]);
      replies := replies + [reply];
    }
    assert ops[..|ops|] == ops;
  }

  /** Adding the items one by one. */
  ghost function Adds<K, T>(items: seq<T>): (ops: seq<Op<K, T>>)
    ensures |ops| == |items| && forall i :: 0 <= i < |items| ==> ops[i] == OpAdd(items[i])
  {
    seq(|items|, i requires 0 <= i < |items| => OpAdd(items[i]))
  }

  /** A fresh table of the capacity mzHashSize asks for takes all its items without being reallocated (Hash.h:79-85). */
  method Fill<K(==), T(==)>(t: HashTable<K, T>, items: seq<T>)
    requires t.Valid() && t.numEntries == t.numDead == 0 && t.entries.Length >= MzHashSize(|items|)
    modifies t, t.entries
    ensures t.Valid() && t.entries == old(t.entries)
    ensures t.Contents == MapRun(old(t.Contents), t.key, Adds(items)).0
  {
    ghost var ops: seq<Op<K, T>> := Adds(items);
    assert ops[..0] == [];
    assert MapRun(t.Contents, t.key, ops[..0]).0 == t.Contents;
    hide MapRun, Placed, Holds, Counted, IsPow2;
    for i := 0 to |items|
      invariant t.Valid() && t.entries == old(t.entries) && t.numEntries <= i && t.numDead == 0
      invariant t.Contents == MapRun(old(t.Contents), t.key, ops[..i]).0
    {
      RunNext(old(t.Contents), t.key, ops, i);
      var _ := t.Add(items[i]);
    }
    assert ops[..|items|] == ops;
  }

  lemma RunNext<K, T>(m: map<K, T>, key: T -> K, ops: seq<Op<K, T>>, i: nat)
    requires i < |ops|
    ensures MapRun(m, key, ops[..i + 1]).0 == MapStep(MapRun(m, key, ops[..i]).0, key, ops[i]).0
  {
    assert ops[..i + 1][..i] == ops[..i];
  }
}
