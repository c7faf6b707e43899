/** cs/ring.c: the circular buffer under both the transmit queue and the cache's address queue. */
module Rings {
  import opened Cyclic
  import opened Wrappers

  /** The three mutable fields of a ring, as a value. */
  datatype RingState<D> = RingState(buf: seq<D>, start: nat, count: nat) {

    ghost predicate Valid() {
      start < |buf| && count <= |buf|
    }

    /** The queued elements, oldest first. */
    ghost function Contents(): (s: seq<D>)
      requires Valid()
      ensures |s| == count
    {
      seq(count, i requires 0 <= i < count => buf[At(start, i, |buf|)])
    }

    function Push(d: D): RingState<D>
      requires Valid()
    {
      this.(buf := buf[(start + count) % |buf| := d], count := count + 1)
    }

    function Pop(): RingState<D>
      requires Valid() && 0 < count
    {
      this.(start := (start + 1) % |buf|, count := count - 1)
    }

    lemma PushAppends(d: D)
      requires Valid() && count < |buf|
      ensures Push(d).Valid() && Push(d).Contents() == Contents() + [d]
    {
      AtIsRemainder(start, count, |buf|);
    }

    lemma PopRemovesOldest()
      requires Valid() && 0 < count
      ensures Pop().Valid()
      ensures Contents() == [buf[start]] + Pop().Contents()
    {
      AtIsRemainder(start, 1, |buf|);
    }
  }

  datatype Op<D> = Push(d: D) | Pop

  /** An interleaving in which no push meets a full ring and no pop an empty one. */
  ghost predicate Legal<D>(r: RingState<D>, ops: seq<Op<D>>)
    requires r.Valid()
    decreases |ops|
  {
    ops == [] ||
    match ops[0]
    case Push(d) => r.count < |r.buf| && (r.PushAppends(d); Legal(r.Push(d), ops[1..]))
    case Pop => 0 < r.count && (r.PopRemovesOldest(); Legal(r.Pop(), ops[1..]))
  }

  /** The ring after the operations, with the values the pops returned. */
  ghost function Drive<D>(r: RingState<D>, ops: seq<Op<D>>): (res: (RingState<D>, seq<D>))
    requires r.Valid() && Legal(r, ops)
    ensures res.0.Valid()
    decreases |ops|
  {
    if ops == [] then (r, [])
    else match ops[0]
      case Push(d) => r.PushAppends(d); Drive(r.Push(d), ops[1..])
      case Pop =>
        r.PopRemovesOldest();
        var rest := Drive(r.Pop(), ops[1..]);
        (rest.0, [r.buf[r.start]] + rest.1)
  }

  function Pushed<D>(ops: seq<Op<D>>): seq<D> {
    if ops == [] then [] else (if ops[0].Push? then [ops[0].d] else []) + Pushed(ops[1..])
  }

  /** Across any number of index wraps: what came out, then what is still queued, is what was
      queued at first, then what was pushed, in order; nothing is lost, repeated or reordered. */
  lemma {:induction false} FirstInFirstOut<D>(r: RingState<D>, ops: seq<Op<D>>)
    requires r.Valid() && Legal(r, ops)
    ensures var (end, popped) := Drive(r, ops); popped + end.Contents() == r.Contents() + Pushed(ops)
    decreases |ops|
  {
    if ops == [] {
    } else {
      match ops[0]
      case Push(d) =>
        r.PushAppends(d);
        FirstInFirstOut(r.Push(d), ops[1..]);
        hide RingState.Contents, RingState.Push, RingState.Pop, RingState.Valid, Legal;
        Associative(r.Contents(), [d], Pushed(ops[1..]));
      case Pop =>
        r.PopRemovesOldest();
        FirstInFirstOut(r.Pop(), ops[1..]);
        var oldest, rest := r.buf[r.start], Drive(r.Pop(), ops[1..]);
        assert Pushed(ops) == Pushed(ops[1..]) && Drive(r, ops) == (rest.0, [oldest] + rest.1);
        hide *;
        Associative([oldest], rest.1, rest.0.Contents());
        Associative([oldest], r.Pop().Contents(), Pushed(ops[1..]));
    }
  }

  class Ring<D(0)> {
    const buf: array<D>
    const size: nat
    var count: nat
    var start: nat

    ghost predicate Valid()
      reads this, buf
    {
      buf.Length == size && State().Valid()
    }

    ghost function State(): RingState<D>
      reads this, buf
    {
      RingState(buf[..], start, count)
    }

    ghost function Contents(): (s: seq<D>)
      requires Valid()
      reads this, buf
      ensures |s| == count
    {
      State().Contents()
    }

    constructor (size: nat)
      requires 0 < size
      ensures Valid() && fresh(buf) && this.size == size
      ensures Contents() == []
    {
      buf := new D[size];
      this.size := size;
      count, start := 0, 0;
    }

    method Push(data: D)
      requires Valid() && count < size
      modifies this, buf
      ensures Valid()
      ensures State() == old(State()).Push(data)
      ensures Contents() == old(Contents()) + [data]
    {
      ghost var r := State();
      buf[(start + count) % size] := data;
      count := count + 1;
      r.PushAppends(data);
      assert State() == r.Push(data);
    }

    method Pop() returns (popped: D)
      requires Valid() && 0 < count
      modifies this
      ensures Valid()
      ensures State() == old(State()).Pop()
      ensures [popped] + Contents() == old(Contents())
    {
      ghost var r := State();
      popped := buf[start];
      start := (start + 1) % size;
      count := count - 1;
      r.PopRemovesOldest();
      assert State() == r.Pop();
    }

    method Reset()
      requires Valid()
      modifies this
      ensures Valid()
      ensures Contents() == [] && start == 0
    {
      count := 0;
      start := 0;
    }
  }
}
