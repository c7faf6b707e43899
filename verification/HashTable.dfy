/** cs/hash.c with the callbacks of cs/cache.c: the table that owns the cached packets. */
module HashTable {
  import opened Wrappers
  import opened Cyclic
  import opened Packets
  import opened ProbeTable

  /** The packet a slot gives up when it is overwritten or reset. */
  function Owned(e: Entry<Packet>): seq<Packet> {
    if e.Live() then [e.v.value] else []
  }

  /** C's remainder, which truncates towards zero. */
  function Remainder(a: int, n: nat): int
    requires 0 < n
  {
    if 0 <= a then a % n else -(-a % n)
  }

  /** The keys whose search starts inside the table; any other makes it read before the first slot. */
  predicate WithinTable(key: int, n: nat)
    requires 0 < n
  {
    0 <= Remainder(key, n)
  }

  /** They are those that are not negative and the multiples of the size. */
  lemma WithinTableExact(key: int, n: nat)
    requires 0 < n
    ensures WithinTable(key, n) <==> 0 <= key || key % n == 0
    ensures WithinTable(key, n) ==> Remainder(key, n) == key % n
  {
    NegatedMultiple(key, n);
    NegatedMultiple(-key, n);
  }

  lemma NegatedMultiple(a: int, n: nat)
    requires 0 < n
    ensures a % n == 0 ==> -a % n == 0
  {
    var x := -a;
    assert a == n * (a / n) + a % n && x == n * (x / n) + x % n;
    if a % n == 0 {
      assert n * (x / n + a / n) == n * (x / n) + n * (a / n);
      NoMultipleBetween(n, x / n + a / n, -(x % n));
    }
  }

  class Hash {
    const entries: array<Entry<Packet>>
    const size: nat
    const heap: Allocator

    ghost predicate Valid()
      reads this
    {
      0 < size == entries.Length
    }

    ghost function Table(): (t: seq<Entry<Packet>>)
      reads this, entries
      ensures |t| == entries.Length
    {
      entries[..]
    }

    constructor (size: nat, heap: Allocator)
      requires 0 < size
      ensures Valid() && fresh(entries) && this.size == size && this.heap == heap
      ensures forall i | 0 <= i < size :: !Table()[i].Live()
    {
      this.size := size;
      this.heap := heap;
      entries := new Entry<Packet>[size];
      new;
      for i := 0 to size
        invariant forall j | 0 <= j < i :: !entries[j].Live()
      {
        entries[i] := entries[i].(v := None);
      }
    }

    /** The do-while probe loop. */
    method FindEntry(key: int) returns (curr: nat)
      requires Valid() && WithinTable(key, size)
      ensures curr == ProbeTable.FindEntry(Table(), key)
    {
      WithinTableExact(key, size);
      var i := Remainder(key, size);
      var j := i;
      ghost var d := 0;
      while true
        invariant d < size && i == Slot(size, key, d) && j == Home(key, size)
        invariant ProbeTable.FindEntry(Table(), key) == ProbeFrom(Table(), key, d)
        decreases size - d
      {
        curr := i;
        if entries[curr].k == key || entries[curr].v.None? {
          break;
        }
        AtIsRemainder(i, 1, size);
        i := (i + 1) % size;
        if i == j {
          break;
        }
        d := d + 1;
      }
    }

    method Get(key: int) returns (v: Option<Packet>)
      requires Valid() && WithinTable(key, size)
      ensures v == ProbeTable.Get(Table(), key)
    {
      var entry := FindEntry(key);
      v := entries[entry].v;
    }

    /** The cache's destroy callback. */
    method DestroyEntry(i: nat)
      requires Valid() && i < size
      requires entries[i].Live() ==> entries[i].v.value !in heap.freed
      modifies entries, heap
      ensures Table() == old(Table())[i := old(entries[i]).(v := None)]
      ensures heap.freed == old(heap.freed) + Owned(old(entries[i]))
    {
      if entries[i].v.Some? {
        heap.Destroy(entries[i].v.value);
        entries[i] := entries[i].(v := None);
      } else {
        assert entries[i] == entries[i].(v := None);
      }
    }

    method Insert(key: nat, value: Packet)
      requires Valid()
      requires var e := Table()[ProbeTable.FindEntry(Table(), key)]; e.Live() ==> e.v.value !in heap.freed
      modifies entries, heap
      ensures Table() == ProbeTable.Insert(old(Table()), key, value)
      ensures heap.freed == old(heap.freed) + Owned(old(Table())[ProbeTable.FindEntry(old(Table()), key)])
    {
      var entry := FindEntry(key);
      if entries[entry].v.Some? {
        DestroyEntry(entry);
      }
      entries[entry] := Entry(key, Some(value));
    }

    method Reset()
      requires Valid()
      requires Distinct(multiset(Values(Table())) + multiset(heap.freed))
      modifies entries, heap
      ensures Table() == ProbeTable.Reset(old(Table()))
      ensures heap.freed == old(heap.freed) + Values(old(Table()))
    {
      ghost var t := Table();
      ghost var freed0 := heap.freed;
      for i := 0 to size
        invariant Table() == PartlyReset(t, i)
        invariant heap.freed == freed0 + Values(t[..i])
      {
        PartlyResetStep(t, i);
        ResetOneMore(t, i, freed0);
        DestroyEntry(i);
        entries[i] := entries[i].(v := None);
      }
      AllReset(t);
    }
  }

  ghost function PartlyReset(t: seq<Entry<Packet>>, i: nat): (u: seq<Entry<Packet>>)
    requires i <= |t|
    ensures |u| == |t|
  {
    ProbeTable.Reset(t)[..i] + t[i..]
  }

  lemma ResetOneMore(t: seq<Entry<Packet>>, i: nat, freed: seq<Packet>)
    requires i < |t| && Distinct(multiset(Values(t)) + multiset(freed))
    ensures Values(t[..i + 1]) == Values(t[..i]) + Owned(t[i])
    ensures t[i].Live() ==> t[i].v.value !in freed + Values(t[..i])
  {
    hide Values, Owned, Distinct;
    assert t[..i + 1] == t[..i] + [t[i]];
    ValuesAppend(t[..i], t[i]);
    if t[i].Live() {
      NotFreedYet(t, i, freed);
    }
  }

  lemma PartlyResetStep(t: seq<Entry<Packet>>, i: nat)
    requires i < |t|
    ensures PartlyReset(t, i)[i] == t[i]
    ensures PartlyReset(t, i)[i := t[i].(v := None)] == PartlyReset(t, i + 1)
  {
    var e := t[i].(v := None);
    var r := ProbeTable.Reset(t);
    assert r[i] == e && r[..i + 1] == r[..i] + [e] && t[i..] == [t[i]] + t[i + 1..];
  }

  lemma AllReset(t: seq<Entry<Packet>>)
    ensures PartlyReset(t, |t|) == ProbeTable.Reset(t) && t[..|t|] == t
  {
  }

  lemma {:induction false} ValuesAppend(t: seq<Entry<Packet>>, e: Entry<Packet>)
    ensures Values(t + [e]) == Values(t) + Owned(e)
  {
    if t == [] {
      assert Values([e]) == Owned(e) + Values([e][1..]);
    } else {
      ValuesAppend(t[1..], e);
      assert (t + [e])[1..] == t[1..] + [e];
    }
  }

  lemma {:induction false} ValuesConcat(t: seq<Entry<Packet>>, u: seq<Entry<Packet>>)
    ensures Values(t + u) == Values(t) + Values(u)
  {
    if t == [] {
      assert t + u == u;
    } else {
      hide Owned;
      ValuesConcat(t[1..], u);
      assert (t + u)[0] == t[0] && (t + u)[1..] == t[1..] + u;
    }
  }

  lemma NotFreedYet(t: seq<Entry<Packet>>, i: nat, freed: seq<Packet>)
    requires i < |t| && t[i].Live() && Distinct(multiset(Values(t)) + multiset(freed))
    ensures t[i].v.value !in freed + Values(t[..i])
  {
    var p := t[i].v.value;
    assert t == t[..i] + t[i..];
    ValuesConcat(t[..i], t[i..]);
    assert Values(t[i..])[0] == p;
    assert multiset(Values(t))[p] == multiset(Values(t[..i]))[p] + multiset(Values(t[i..]))[p];
    assert multiset(Values(t))[p] + multiset(freed)[p] == (multiset(Values(t)) + multiset(freed))[p] <= 1;
    assert p in multiset(Values(t[i..]));
  }
}
