/** cs/cache.c: a ring of addresses and a hash of packets that have to agree. */
module Cache {
  import opened Wrappers
  import opened Dcc
  import opened Packets
  import opened Rings
  import P = ProbeTable
  import opened HashTable

  const ADDR_SIZE: nat := 20

  /** The two statics: the refresh order and the table. */
  datatype CacheState = CacheState(ring: seq<nat>, table: seq<P.Entry<Packet>>) {

    /** What holds in every run, however many addresses have been seen: as many queued addresses as
        cached packets, at most 20; every packet filed under the address it carries; and ring and
        table agreeing exactly unless the table is full. */
    ghost predicate Valid() {
      && |table| == ADDR_SIZE && P.Sound(table)
      && |ring| == |P.LiveSlots(table)|
      && (forall i | 0 <= i < |table| && table[i].Live() :: Filed(table[i]))
      && (P.Full(table) || Faithful())
    }

    /** Every cached address queued exactly once. */
    ghost predicate Faithful() {
      && (forall i, j | 0 <= i < j < |ring| :: ring[i] != ring[j])
      && (forall a :: a in ring <==> a in P.LiveKeys(table))
    }

    /** The address-to-packet map the cache stands for. */
    ghost function Map(): map<int, Packet>
      requires Valid()
    {
      P.Contents(table)
    }

    function Update(p: Packet): CacheState
      requires |table| == ADDR_SIZE && p.Sendable()
    {
      CacheState(
        if P.Get(table, p.Address()).None? then ring + [p.Address()] else ring,
        P.Insert(table, p.Address(), p))
    }

    /** What an update destroys: the packet whose slot it takes. */
    function Replaced(p: Packet): seq<Packet>
      requires |table| == ADDR_SIZE && p.Sendable()
    {
      Owned(table[P.FindEntry(table, p.Address())])
    }

    /** The packet to refresh, and the cache with its address moved to the end of the queue. */
    function Next(): (CacheState, Option<Packet>)
      requires Valid()
    {
      if ring == [] then (this, None)
      else (this.(ring := ring[1..] + [ring[0]]), P.Get(table, ring[0]))
    }

    function Lookup(address: int): Option<Packet>
      requires |table| == ADDR_SIZE
    {
      P.Get(table, address)
    }

    function Clear(): CacheState {
      CacheState([], P.Reset(table))
    }
  }

  predicate Filed(e: P.Entry<Packet>)
    requires e.Live()
  {
    e.v.value.Sendable() && e.v.value.Address() == e.k
  }

  // ----- every operation keeps ring and table together

  /** Whether an update must drop another loco's packet. */
  ghost predicate Evicts(c: CacheState, p: Packet)
    requires c.Valid() && p.Sendable()
  {
    P.Full(c.table) && p.Address() !in c.Map()
  }

  lemma UpdateKeepsValid(c: CacheState, p: Packet)
    requires c.Valid() && p.Sendable()
    ensures c.Update(p).Valid()
    ensures c.Faithful() && !Evicts(c, p) ==> c.Update(p).Faithful()
    ensures P.Full(c.table) ==> P.Full(c.Update(p).table)
  {
    P.InsertMeaning(c.table, p.Address(), p);
    UpdateCounts(c, p);
    UpdateStaysFull(c, p);
    if c.Faithful() && !Evicts(c, p) {
      UpdateKeepsFaithful(c, p);
    }
  }

  lemma UpdateStaysFull(c: CacheState, p: Packet)
    requires c.Valid() && p.Sendable()
    ensures P.Full(c.table) ==> P.Full(c.Update(p).table)
    ensures forall e | e in c.Update(p).table && e.Live() :: Filed(e)
  {
    var i, u := P.FindEntry(c.table, p.Address()), c.Update(p).table;
    forall j | 0 <= j < |u| && j != i ensures u[j] == c.table[j] {
    }
    assert Filed(u[i]);
  }

  lemma UpdateKeepsFaithful(c: CacheState, p: Packet)
    requires c.Valid() && p.Sendable() && c.Faithful() && !Evicts(c, p)
    ensures c.Update(p).Faithful()
  {
    var a, t := p.Address(), c.table;
    var u := P.Insert(t, a, p);
    P.FindEntryOutcome(t, a);
    P.InsertMeaning(t, a, p);
    assert P.Contents(u).Keys == P.LiveKeys(u) && P.Contents(t).Keys == P.LiveKeys(t);
    assert P.LiveKeys(u) == P.LiveKeys(t) + {a};
  }

  lemma UpdateCounts(c: CacheState, p: Packet)
    requires c.Valid() && p.Sendable()
    ensures |c.Update(p).ring| == |P.LiveSlots(c.Update(p).table)|
  {
    var t := c.table;
    var i, u := P.FindEntry(t, p.Address()), P.Insert(t, p.Address(), p);
    assert P.LiveSlots(u) == P.LiveSlots(t) + {i};
  }

  /** What an eviction does to refreshing: the newcomer's address is not queued, and its packet is the
      answer for some queued address exactly when it has the same home slot as its victim. */
  lemma NewcomerIsAnswerIff(c: CacheState, p: Packet)
    requires c.Valid() && p.Sendable() && c.Faithful() && Evicts(c, p)
    ensures var u, i := c.Update(p), P.FindEntry(c.table, p.Address());
      && u.ring == c.ring && p.Address() !in u.ring
      && forall r | r in u.ring :: P.FindEntry(u.table, r) == i <==>
           r == c.table[i].k && P.Home(r, ADDR_SIZE) == P.Home(p.Address(), ADDR_SIZE)
    ensures var i := P.FindEntry(c.table, p.Address()); c.table[i].k in c.ring
  {
    P.FindEntryOutcome(c.table, p.Address());
    forall r | r in c.ring
      ensures P.FindEntry(c.Update(p).table, r) == P.FindEntry(c.table, p.Address()) <==>
        r == c.table[P.FindEntry(c.table, p.Address())].k && P.Home(r, ADDR_SIZE) == P.Home(p.Address(), ADDR_SIZE)
    {
      P.NewEntryAnswersFor(c.table, p.Address(), p, r);
    }
  }

  /** A packet just stored is the value of no other slot. */
  lemma StoredOnce(c: CacheState, p: Packet, j: nat)
    requires c.Valid() && p.Sendable() && c.Update(p).Valid() && j < ADDR_SIZE
    ensures c.Update(p).table[j].v == Some(p) <==> j == P.FindEntry(c.table, p.Address())
  {
    var u, i := c.Update(p).table, P.FindEntry(c.table, p.Address());
    if u[j].v == Some(p) {
      assert Filed(u[j]) && P.Found(u, j) && P.Found(u, i);
    }
  }

  /** The ring always has room for a new address. */
  lemma RingNeverOverruns(c: CacheState, p: Packet)
    requires c.Valid() && p.Sendable()
    ensures |c.ring| <= ADDR_SIZE
    ensures P.Get(c.table, p.Address()).None? ==> |c.ring| < ADDR_SIZE
  {
    P.ContentsSize(c.table);
    P.FindEntryOutcome(c.table, p.Address());
  }

  lemma NextKeepsValid(c: CacheState)
    requires c.Valid()
    ensures c.Next().0.Valid()
    ensures c.Faithful() ==> c.Next().0.Faithful()
  {
    if c.ring != [] {
      var r := c.ring[1..] + [c.ring[0]];
      assert forall a :: a in c.ring <==> a in r by {
        assert c.ring == [c.ring[0]] + c.ring[1..];
      }
    }
  }

  lemma ClearKeepsValid(c: CacheState)
    requires |c.table| == ADDR_SIZE
    ensures c.Clear().Valid() && c.Clear().Faithful() && c.Clear().Map() == map[]
    ensures P.Values(c.Clear().table) == []
  {
    P.ResetMeaning(c.table);
    assert P.Contents(c.Clear().table).Keys == {};
  }

  /** A refresh finds a packet, and a cached one, exactly when the count is positive; this holds
      even for addresses whose own packet has been evicted. */
  lemma NextIsLive(c: CacheState)
    requires c.Valid()
    ensures c.Next().1.Some? <==> 0 < |c.ring|
    ensures c.Next().1.Some? ==> c.Next().1.value in P.Values(c.table)
    ensures c.Next().1.Some? && c.Faithful() ==> c.Next().1 == Some(c.Map()[c.ring[0]])
  {
    if c.ring != [] {
      var a := c.ring[0];
      P.GetMeaning(c.table, a);
      P.ValuesAreLive(c.table, P.Get(c.table, a).value);
    }
  }

  /** What a lookup answers: the packet of that very loco if it is cached; otherwise nothing, except
      that a full cache answers with the packet of another loco, the one in the slot before the first
      slot of the address. */
  lemma LookupExact(c: CacheState, address: int)
    requires c.Valid()
    ensures address in c.Map() <==>
      c.Lookup(address).Some? && c.Lookup(address).value.Sendable() && c.Lookup(address).value.Address() == address
    ensures address in c.Map() ==> c.Lookup(address) == Some(c.Map()[address])
    ensures address !in c.Map() ==> (c.Lookup(address).Some? <==> |c.ring| == ADDR_SIZE)
    ensures address !in c.Map() && |c.ring| == ADDR_SIZE ==> c.Lookup(address) == c.table[(address % 20 + 19) % 20].v
  {
    P.GetMeaning(c.table, address);
    P.ContentsSize(c.table);
    P.FindEntryOutcome(c.table, address);
  }

  // ----- the module

  class CacheModule {
    const addresses: Ring<nat>
    const packets: Hash
    const heap: Allocator

    ghost predicate Valid()
      reads addresses, addresses.buf, packets, packets.entries
    {
      && addresses.Valid() && addresses.size == ADDR_SIZE
      && packets.Valid() && packets.size == ADDR_SIZE && packets.heap == heap
      && State().Valid()
    }

    ghost function State(): CacheState
      requires addresses.Valid()
      reads addresses, addresses.buf, packets, packets.entries
    {
      CacheState(addresses.Contents(), packets.Table())
    }

    /** Every packet the cache could touch is held once and has not been freed. */
    ghost predicate Owns()
      requires packets.Valid()
      reads packets, packets.entries, heap
    {
      Distinct(multiset(P.Values(packets.Table())) + multiset(heap.freed))
    }

    constructor (heap: Allocator)
      ensures Valid() && this.heap == heap
      ensures fresh(addresses) && fresh(addresses.buf) && fresh(packets) && fresh(packets.entries)
      ensures State().ring == [] && P.Values(State().table) == []
    {
      this.heap := heap;
      addresses := new Ring<nat>(ADDR_SIZE);
      packets := new Hash(ADDR_SIZE, heap);
      new;
      P.NoLiveValues(packets.Table());
      assert P.LiveSlots(packets.Table()) == {};
    }

    method Clear()
      requires Valid() && Owns()
      modifies addresses, packets.entries, heap
      ensures Valid()
      ensures State() == old(State()).Clear()
      ensures heap.freed == old(heap.freed) + P.Values(old(State()).table)
    {
      ClearKeepsValid(State());
      addresses.Reset();
      packets.Reset();
    }

    method Update(packet: Packet)
      requires Valid() && Owns() && packet.Sendable() && packet !in heap.freed
      modifies addresses, addresses.buf, packets.entries, heap
      ensures Valid()
      ensures State() == old(State()).Update(packet)
      ensures heap.freed == old(heap.freed) + old(State()).Replaced(packet)
    {
      ghost var c := State();
      UpdateKeepsValid(c, packet);
      RingNeverOverruns(c, packet);
      LiveNotFreed(packets.Table(), P.FindEntry(packets.Table(), packet.Address()), heap.freed);
      AddressBelow128(packet.bytes);
      var address := AddressOf(heap.Deref(packet)) as nat;
      var seen := packets.Get(address);
      if seen.None? {
        addresses.Push(address);
      }
      packets.Insert(address, packet);
      assert State() == c.Update(packet);
    }

    method GetNextPacket() returns (packet: Option<Packet>)
      requires Valid()
      modifies addresses, addresses.buf
      ensures Valid()
      ensures State() == old(State()).Next().0 && packet == old(State()).Next().1
    {
      ghost var c := State();
      NextKeepsValid(c);
      if addresses.count <= 0 {
        return None;
      }
      var next := addresses.Pop();
      assert [next] + addresses.Contents() == c.ring;
      packet := packets.Get(next);
      addresses.Push(next);
      assert State() == c.Next().0;
    }

    /** The lookup of the cache show command, whose address can be negative. */
    method Get(address: int) returns (packet: Option<Packet>)
      requires Valid() && WithinTable(address, ADDR_SIZE)
      ensures packet == State().Lookup(address)
    {
      packet := packets.Get(address);
    }
  }

  lemma LiveNotFreed(t: seq<P.Entry<Packet>>, i: nat, freed: seq<Packet>)
    requires i < |t| && Distinct(multiset(P.Values(t)) + multiset(freed))
    ensures t[i].Live() ==> t[i].v.value !in freed
  {
    if t[i].Live() {
      var p := t[i].v.value;
      P.ValuesAreLive(t, p);
      assert (multiset(P.Values(t)) + multiset(freed))[p] == multiset(P.Values(t))[p] + multiset(freed)[p];
    }
  }
}
