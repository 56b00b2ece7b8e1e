// The reorder buffer of src/transport/rgtp_streaming.c, lines 171-283: a ring of capacity
// max_out_of_order + 1 indexed by chunk index modulo capacity.
module Reorder {
  import opened Bits

  datatype Status = Ok | InvalidArg | NoMem | NotReady

  // ---- the meaning: a cursor and a finite map

  datatype Pending = Pending(next: nat, chunks: map<nat, seq<Byte>>)

  function Insert(p: Pending, max: nat, i: nat, data: seq<Byte>): (Pending, Status) {
    if i < p.next || i > p.next + max then (p, InvalidArg)
    else if i in p.chunks then (p, Ok)
    else if data == [] then (p, NoMem)
    else (p.(chunks := p.chunks[i := data]), Ok)
  }

  function Dequeue(p: Pending, bufSize: nat): (Pending, Status) {
    if p.next !in p.chunks then (p, NotReady)
    else if |p.chunks[p.next]| > bufSize then (p, InvalidArg)
    else (Pending(p.next + 1, p.chunks - {p.next}), Ok)
  }

  lemma ModDistinct(a: nat, b: nat, cap: nat)
    requires cap > 0 && a < b < a + cap
    ensures a % cap != b % cap
  {
    if a % cap == b % cap {
      var d := b / cap - a / cap;
      assert b - a == cap * d by {
        assert b == cap * (b / cap) + b % cap;
        assert a == cap * (a / cap) + a % cap;
      }
      if d >= 1 || d <= -1 { SmallMultiple(cap, d); }
    }
  }

  lemma ModNext(a: nat, cap: nat)
    requires cap > 0
    ensures (a + cap) % cap == a % cap
  {
    DivModUnique(a + cap, cap, a / cap + 1, a % cap);
  }

  // Slot i % capacity holds chunk i, for the indices of the window from next on.
  ghost predicate Represents(slots: seq<seq<Byte>>, valid: seq<bool>, cap: nat, p: Pending) {
    && cap > 0 && |slots| == |valid| == cap
    && (forall i :: i in p.chunks ==> p.next <= i < p.next + cap)
    && (forall i :: p.next <= i < p.next + cap ==>
          && (valid[i % cap] <==> i in p.chunks)
          && (i in p.chunks ==> slots[i % cap] == p.chunks[i]))
  }

  lemma InsertRepresents(slots: seq<seq<Byte>>, valid: seq<bool>, cap: nat, p: Pending, i: nat, data: seq<Byte>)
    requires Represents(slots, valid, cap, p) && p.next <= i < p.next + cap
    ensures Represents(slots[i % cap := data], valid[i % cap := true], cap, p.(chunks := p.chunks[i := data]))
  {
    forall j | p.next <= j < p.next + cap && j != i ensures j % cap != i % cap {
      if j < i { ModDistinct(j, i, cap); } else { ModDistinct(i, j, cap); }
    }
  }

  lemma DequeueRepresents(slots: seq<seq<Byte>>, valid: seq<bool>, cap: nat, p: Pending)
    requires Represents(slots, valid, cap, p)
    ensures Represents(slots[p.next % cap := []], valid[p.next % cap := false], cap,
                       Pending(p.next + 1, p.chunks - {p.next}))
  {
    var n := p.next;
    forall j | n < j < n + cap ensures j % cap != n % cap { ModDistinct(n, j, cap); }
    ModNext(n, cap);
  }

  class ReorderBuffer {
    const max: nat
    const capacity: nat
    const slots: array<seq<Byte>>
    const slotValid: array<bool>
    var nextDeliver: nat
    ghost var pending: Pending

    ghost predicate Ready()
      reads this, slots, slotValid
    {
      && capacity == max + 1 < U32_END && pending.next == nextDeliver
      && Represents(slots[..], slotValid[..], capacity, pending)
    }

    constructor (max: nat)
      requires max + 1 < U32_END
      ensures Ready() && fresh(slots) && fresh(slotValid) && this.max == max && pending == Pending(0, map[])
    {
      this.max, capacity := max, max + 1;
      slots := new seq<Byte>[max + 1](_ => []);
      slotValid := new bool[max + 1](_ => false);
      nextDeliver := 0;
      pending := Pending(0, map[]);
      new;
      assert |slots[..]| == |slotValid[..]| == capacity;
    }

    // rgtp_reorder_buf_insert
    method InsertChunk(i: nat, data: seq<Byte>) returns (status: Status)
      requires Ready() && i < U32_END
      modifies this`pending, slots, slotValid
      ensures Ready() && (pending, status) == Insert(old(pending), max, i, data)
      ensures status.Ok? <==> old(pending).next <= i <= old(pending).next + max
                              && (data != [] || i in old(pending).chunks)
    {
      if i < nextDeliver {
        return InvalidArg;
      }
      var ahead := i - nextDeliver;
      if ahead >= capacity {
        return InvalidArg;
      }
      var slot := i % capacity;
      if slotValid[slot] {
        return Ok;
      }
      if data == [] {
        return NoMem;
      }
      InsertRepresents(slots[..], slotValid[..], capacity, pending, i, data);
      ghost var s, v := slots[..], slotValid[..];
      slots[slot] := data;
      slotValid[slot] := true;
      pending := pending.(chunks := pending.chunks[i := data]);
      assert slots[..] == s[slot := data] && slotValid[..] == v[slot := true];
      return Ok;
    }

    // rgtp_reorder_buf_dequeue
    method DequeueChunk(bufSize: nat) returns (status: Status, index: nat, data: seq<Byte>)
      requires Ready() && nextDeliver + 1 < U32_END
      modifies this`pending, this`nextDeliver, slots, slotValid
      ensures Ready() && (pending, status) == Dequeue(old(pending), bufSize)
      ensures status.Ok? <==>
              old(pending).next in old(pending).chunks && |old(pending).chunks[old(pending).next]| <= bufSize
      ensures status.NotReady? <==> old(pending).next !in old(pending).chunks
      ensures status.Ok? ==> index == old(pending).next && data == old(pending).chunks[index]
      ensures !status.Ok? ==> data == []
    {
      index, data := 0, [];
      var slot := nextDeliver % capacity;
      if !slotValid[slot] {
        return NotReady, index, data;
      }
      if |slots[slot]| > bufSize {
        return InvalidArg, index, data;
      }
      index, data := nextDeliver, slots[slot];
      DequeueRepresents(slots[..], slotValid[..], capacity, pending);
      ghost var s, v := slots[..], slotValid[..];
      slots[slot] := [];
      slotValid[slot] := false;
      pending := Pending(nextDeliver + 1, pending.chunks - {nextDeliver});
      nextDeliver := nextDeliver + 1;
      assert slots[..] == s[slot := []] && slotValid[..] == v[slot := false];
      return Ok, index, data;
    }
  }

  // rgtp_reorder_buf_init: the 32-bit capacity wraps to zero for the largest depth, and an empty
  // array cannot be allocated
  method Init(max: nat) returns (status: Status, rb: ReorderBuffer?)
    requires max < U32_END
    ensures status == if max + 1 == U32_END then NoMem else Ok
    ensures status.Ok? <==> rb != null
    ensures rb != null ==> fresh(rb) && fresh(rb.slots) && fresh(rb.slotValid) && rb.Ready()
                           && rb.max == max && rb.pending == Pending(0, map[])
  {
    var cap := (max + 1) % U32_END;
    if cap == 0 {
      return NoMem, null;
    }
    rb := new ReorderBuffer(max);
    return Ok, rb;
  }

  // ---- runs

  datatype Op = Put(index: nat, data: seq<Byte>) | Take(bufSize: nat)

  function Apply(p: Pending, max: nat, op: Op): (Pending, Status) {
    match op
    case Put(i, data) => Insert(p, max, i, data)
    case Take(size) => Dequeue(p, size)
  }

  // The buffer after the operations, and the chunks taken out, in order.
  function Run(max: nat, ops: seq<Op>): (Pending, seq<seq<Byte>>) {
    if ops == [] then (Pending(0, map[]), [])
    else
      var k := |ops| - 1;
      var (p, out) := Run(max, ops[..k]);
      var (p', status) := Apply(p, max, ops[k]);
      (p', if ops[k].Take? && status.Ok? && p.next in p.chunks then out + [p.chunks[p.next]] else out)
  }

  // For every index, the bytes of its first accepted insert.
  function FirstInserts(max: nat, ops: seq<Op>): map<nat, seq<Byte>> {
    if ops == [] then map[]
    else
      var k := |ops| - 1;
      var first := FirstInserts(max, ops[..k]);
      var op := ops[k];
      if op.Put? && op.index !in first && Apply(Run(max, ops[..k]).0, max, op).1.Ok? then first[op.index := op.data]
      else first
  }

  ghost predicate Ordered(max: nat, p: Pending, out: seq<seq<Byte>>, first: map<nat, seq<Byte>>) {
    && p.next == |out|
    && (forall i :: i in p.chunks ==> p.next <= i <= p.next + max)
    && (forall i :: i in p.chunks ==> i in first && p.chunks[i] == first[i])
    && (forall i :: i in first ==> i < p.next || i in p.chunks)
    && (forall k :: 0 <= k < |out| ==> k in first && out[k] == first[k])
  }

  // Over any interleaving of inserts and dequeues, the k-th chunk delivered is index k with the bytes of
  // its first accepted insert; what has been accepted and not delivered is exactly what is pending.
  lemma {:induction false} DeliveredInOrder(max: nat, ops: seq<Op>)
    ensures var (p, out) := Run(max, ops); Ordered(max, p, out, FirstInserts(max, ops))
  {
    if ops != [] {
      var k := |ops| - 1;
      DeliveredInOrder(max, ops[..k]);
      var (p, out) := Run(max, ops[..k]);
      OrderedStep(max, p, out, FirstInserts(max, ops[..k]), ops[k]);
    }
  }

  lemma OrderedStep(max: nat, p: Pending, out: seq<seq<Byte>>, first: map<nat, seq<Byte>>, op: Op)
    requires Ordered(max, p, out, first)
    ensures var (p', status) := Apply(p, max, op);
            var out' := if op.Take? && status.Ok? && p.next in p.chunks then out + [p.chunks[p.next]] else out;
            var first' := if op.Put? && op.index !in first && status.Ok? then first[op.index := op.data] else first;
            Ordered(max, p', out', first')
  {}

  // ---- nothing that is ready is withheld

  // A take delivers exactly when the next index is pending and fits the buffer, and only then moves on.
  lemma TakeExactly(p: Pending, bufSize: nat)
    ensures var (p', status) := Dequeue(p, bufSize);
            && (status.Ok? <==> p.next in p.chunks && |p.chunks[p.next]| <= bufSize)
            && (status.NotReady? <==> p.next !in p.chunks)
            && (status.Ok? ==> p'.next == p.next + 1 && p'.chunks == p.chunks - {p.next})
            && (!status.Ok? ==> p' == p)
  {}

  function Takes(m: nat, bufSize: nat): seq<Op> {
    if m == 0 then [] else Takes(m - 1, bufSize) + [Take(bufSize)]
  }

  // The buffer without its next m chunks, and those chunks in order.
  ghost function Rest(p: Pending, m: nat): Pending {
    Pending(p.next + m, map i | i in p.chunks && !(p.next <= i < p.next + m) :: p.chunks[i])
  }

  function NextChunks(p: Pending, m: nat): seq<seq<Byte>>
    requires forall i :: p.next <= i < p.next + m ==> i in p.chunks
  {
    if m == 0 then [] else NextChunks(p, m - 1) + [p.chunks[p.next + m - 1]]
  }

  lemma RestStep(p: Pending, m: nat, bufSize: nat)
    requires p.next + m in p.chunks && |p.chunks[p.next + m]| <= bufSize
    ensures var q := Rest(p, m);
            && q.next in q.chunks && q.chunks[q.next] == p.chunks[p.next + m]
            && Dequeue(q, bufSize) == (Rest(p, m + 1), Ok)
  {
    var q := Rest(p, m);
    assert q.chunks - {q.next} == Rest(p, m + 1).chunks;
  }

  lemma RestNone(p: Pending)
    ensures Rest(p, 0) == p
  {
    assert Rest(p, 0).chunks == p.chunks;
  }

  lemma RunTake(max: nat, ops: seq<Op>, bufSize: nat)
    ensures var (q, out) := Run(max, ops);
            q.next in q.chunks && Dequeue(q, bufSize).1.Ok? ==>
              Run(max, ops + [Take(bufSize)]) == (Dequeue(q, bufSize).0, out + [q.chunks[q.next]])
  {
    hide Dequeue;
    assert (ops + [Take(bufSize)])[..|ops|] == ops;
  }

  // If the next m chunks are pending and fit, m takes deliver them all, in order.
  lemma {:induction false} Drains(max: nat, ops: seq<Op>, p: Pending, out: seq<seq<Byte>>, m: nat, bufSize: nat)
    requires Run(max, ops) == (p, out)
    requires forall i :: p.next <= i < p.next + m ==> i in p.chunks && |p.chunks[i]| <= bufSize
    ensures Run(max, ops + Takes(m, bufSize)) == (Rest(p, m), out + NextChunks(p, m))
  {
    hide Run, Rest, Dequeue;
    if m == 0 {
      assert ops + Takes(0, bufSize) == ops && out + NextChunks(p, 0) == out;
      RestNone(p);
    } else {
      Drains(max, ops, p, out, m - 1, bufSize);
      assert ops + Takes(m, bufSize) == (ops + Takes(m - 1, bufSize)) + [Take(bufSize)];
      assert out + NextChunks(p, m) == (out + NextChunks(p, m - 1)) + [p.chunks[p.next + m - 1]];
      RestStep(p, m - 1, bufSize);
      RunTake(max, ops + Takes(m - 1, bufSize), bufSize);
    }
  }
}
