/** The bounded per-client input queue (`InputQueue` in
    core/src/deterministic_sim.cpp): a FIFO of at most 256 inputs that is
    split, once per tick, into the inputs due on that tick and the rest. */
module InputQueues {
  import opened ByteOrder
  import opened Entities

  const MAX_CLIENT_INPUT_QUEUE: nat := 256

  /** The queued inputs targeting tick `t`, in queue order. */
  function ForTick(q: seq<ClientInput>, t: u32): (r: seq<ClientInput>)
    ensures |r| <= |q|
    ensures forall x :: x in r <==> x in q && x.targetTick == t
  {
    if q == [] then []
    else if q[0].targetTick == t then [q[0]] + ForTick(q[1..], t)
    else ForTick(q[1..], t)
  }

  /** The queued inputs targeting any other tick, in queue order. */
  function NotForTick(q: seq<ClientInput>, t: u32): (r: seq<ClientInput>)
    ensures |r| <= |q|
    ensures forall x :: x in r <==> x in q && x.targetTick != t
  {
    if q == [] then []
    else if q[0].targetTick != t then [q[0]] + NotForTick(q[1..], t)
    else NotForTick(q[1..], t)
  }

  /** Both filters keep FIFO order: filtering a concatenation filters each
      part and concatenates the results. */
  lemma {:induction false} FiltersDistribute(a: seq<ClientInput>, b: seq<ClientInput>, t: u32)
    ensures ForTick(a + b, t) == ForTick(a, t) + ForTick(b, t)
    ensures NotForTick(a + b, t) == NotForTick(a, t) + NotForTick(b, t)
  {
    if a != [] {
      assert (a + b)[1..] == a[1..] + b;
      FiltersDistribute(a[1..], b, t);
    } else {
      assert a + b == b;
    }
  }

  /** Splitting loses and duplicates nothing: every queued input lands in
      exactly one of the two parts, so the sizes add up. */
  lemma {:induction false} SplitIsPartition(q: seq<ClientInput>, t: u32)
    ensures multiset(ForTick(q, t)) + multiset(NotForTick(q, t)) == multiset(q)
    ensures |ForTick(q, t)| + |NotForTick(q, t)| == |q|
  {
    if q != [] {
      SplitIsPartition(q[1..], t);
      assert q == [q[0]] + q[1..];
    }
  }

  class InputQueue {
    var queue: seq<ClientInput>

    ghost predicate Valid()
      reads this
    {
      |queue| <= MAX_CLIENT_INPUT_QUEUE
    }

    /** `size()`: the number of queued inputs, never above the bound. */
    function Size(): (n: nat)
      reads this
      ensures n == 0 <==> queue == []
      ensures Valid() ==> n <= MAX_CLIENT_INPUT_QUEUE
    {
      |queue|
    }

    constructor ()
      ensures Valid() && queue == []
    {
      queue := [];
    }

    /** `push`: refuses, leaving the queue as it was, exactly when 256 inputs
        are already queued; otherwise appends at the back. */
    method Push(input: ClientInput) returns (accepted: bool)
      requires Valid()
      modifies this
      ensures Valid()
      ensures accepted <==> old(Size()) < MAX_CLIENT_INPUT_QUEUE
      ensures queue == if accepted then old(queue) + [input] else old(queue)
    {
      if |queue| >= MAX_CLIENT_INPUT_QUEUE {
        return false;
      }
      queue := queue + [input];
      return true;
    }

    /** `popForTick`: drains the queue front to back, returning the inputs
        for `tick` and keeping the others, both in FIFO order. */
    method PopForTick(tick: u32) returns (res: seq<ClientInput>)
      requires Valid()
      modifies this
      ensures Valid()
      ensures res == ForTick(old(queue), tick)
      ensures queue == NotForTick(old(queue), tick)
      ensures old(Size()) == |res| + Size()
    {
      res := [];
      var remaining: seq<ClientInput> := [];
      ghost var drained: seq<ClientInput> := [];
      while queue != []
        invariant old(queue) == drained + queue
        invariant res == ForTick(drained, tick)
        invariant remaining == NotForTick(drained, tick)
        decreases |queue|
      {
        var c := queue[0];
        queue := queue[1..];
        if c.targetTick == tick {
          res := res + [c];
        } else {
          remaining := remaining + [c];
        }
        FiltersDistribute(drained, [c], tick);
        drained := drained + [c];
      }
      assert drained == drained + queue == old(queue);
      SplitIsPartition(drained, tick);
      queue := remaining;
    }
  }
}
