/** The bounded ring: one slot is always left free, so `capacity - 1` elements are the most it holds. */
module SendRing {
  import opened Bytes

  class Ring<T(0)> {
    const buf: array<T>
    /** Next slot to write. */
    var head: nat
    /** Next slot to read. */
    var tail: nat

    /** What the ring holds, oldest first. */
    ghost var contents: seq<T>

    /** A client's proofs see only the contents; `Unfold` brings the indices out. */
    ghost predicate Valid()
      reads this, buf
    {
      |contents| < buf.Length && forall n: nat :: Look(Structure.Ring, n) ==> Holds()
    }

    ghost predicate Holds()
      reads this, buf
    {
      && head < buf.Length && tail < buf.Length
      && contents == if tail <= head then buf[tail..head] else buf[tail..] + buf[..head]
    }

    lemma Unfold()
      requires Valid()
      ensures Holds()
    {
      assert Look(Structure.Ring, 0);
    }

    constructor (capacity: nat)
      requires capacity > 0
      ensures Valid() && contents == [] && buf.Length == capacity && fresh(buf)
    {
      buf := new T[capacity];
      head, tail, contents := 0, 0, [];
    }

    /** Refused, changing nothing, exactly when `capacity - 1` elements are held. */
    method Enqueue(x: T) returns (ok: bool)
      requires Valid()
      modifies this`head, this`contents, buf
      ensures Valid()
      ensures ok <==> |old(contents)| < buf.Length - 1
      ensures contents == if ok then old(contents) + [x] else old(contents)
    {
      Unfold();
      var next := Next(head, buf.Length);
      if next == tail {
        return false;
      }
      buf[head] := x;
      head := next;
      contents := contents + [x];
      return true;
    }

    function IsEmpty(): (e: bool)
      requires Valid()
      reads this, buf
      ensures e <==> contents == []
    {
      Unfold();
      head == tail
    }

    method Peek() returns (x: Option<T>)
      requires Valid()
      ensures x == if contents == [] then None else Some(contents[0])
    {
      Unfold();
      if head == tail {
        return None;
      }
      return Some(buf[tail]);
    }

    method Consume()
      requires Valid() && contents != []
      modifies this`tail, this`contents
      ensures Valid() && contents == old(contents)[1..]
    {
      Unfold();
      tail := Next(tail, buf.Length);
      contents := contents[1..];
    }

    /** The service thread's critical section: take the oldest element, if any. */
    method Drain() returns (x: Option<T>)
      requires Valid()
      modifies this`tail, this`contents
      ensures Valid()
      ensures x == if old(contents) == [] then None else Some(old(contents)[0])
      ensures contents == if x.Some? then old(contents)[1..] else []
    {
      x := Peek();
      if x.Some? {
        Consume();
      }
    }

    method Perform(op: Op<T>) returns (reply: Reply<T>)
      requires Valid()
      modifies this, buf
      ensures Valid() && (reply, contents) == Apply(buf.Length - 1, old(contents), op)
    {
      match op {
        case Push(x) =>
          var ok := Enqueue(x);
          reply := Pushed(ok);
        case Pop =>
          var x := Drain();
          reply := Popped(x);
      }
    }

    /** Any interleaving of critical sections answers as the bounded queue does. */
    method Interleave(ops: seq<Op<T>>) returns (replies: seq<Reply<T>>)
      requires Valid()
      modifies this, buf
      ensures Valid()
      ensures (replies, contents) == Fifo(buf.Length - 1, old(contents), ops)
      ensures old(contents) + Accepted(ops, replies) == Taken(replies) + contents
    {
      ghost var room, c := buf.Length - 1, contents;
      ghost var all := Fifo(room, c, ops);
      replies := [];
      assert ops[0..] == ops && [] + all.0 == all.0;
      for i := 0 to |ops|
        invariant Valid() && all.0 == replies + Fifo(room, contents, ops[i..]).0
        invariant all.1 == Fifo(room, contents, ops[i..]).1
      {
        assert ops[i..][1..] == ops[i + 1..];
        var reply := Perform(ops[i]);
        Assoc(replies, [reply], Fifo(room, contents, ops[i + 1..]).0);
        replies := replies + [reply];
      }
      assert replies + [] == replies;
      FifoConserves(room, c, ops);
    }
  }

  // ---------------------------------------------------------------- the bounded queue

  datatype Op<T> = Push(x: T) | Pop

  datatype Reply<T> = Pushed(ok: bool) | Popped(x: Option<T>)

  function Apply<T>(room: nat, c: seq<T>, op: Op<T>): (Reply<T>, seq<T>)
  {
    match op
    case Push(x) => if |c| < room then (Pushed(true), c + [x]) else (Pushed(false), c)
    case Pop => if c == [] then (Popped(None), c) else (Popped(Some(c[0])), c[1..])
  }

  /** A queue of at most `room` elements, over any interleaving of pushes and pops. */
  function Fifo<T>(room: nat, c: seq<T>, ops: seq<Op<T>>): (seq<Reply<T>>, seq<T>)
    decreases |ops|
  {
    if ops == [] then ([], c)
    else
      var s := Apply(room, c, ops[0]);
      var r := Fifo(room, s.1, ops[1..]);
      ([s.0] + r.0, r.1)
  }

  function Accepted<T>(ops: seq<Op<T>>, replies: seq<Reply<T>>): seq<T>
  {
    if ops == [] || replies == [] then []
    else (if ops[0].Push? && replies[0] == Pushed(true) then [ops[0].x] else []) + Accepted(ops[1..], replies[1..])
  }

  function Taken<T>(replies: seq<Reply<T>>): seq<T>
  {
    if replies == [] then []
    else (if replies[0].Popped? && replies[0].x.Some? then [replies[0].x.value] else []) + Taken(replies[1..])
  }

  /** Nothing is lost, duplicated or reordered: taken and held elements are the accepted ones in order. */
  lemma {:induction false} FifoConserves<T>(room: nat, c: seq<T>, ops: seq<Op<T>>)
    requires |c| <= room
    ensures var (replies, c') := Fifo(room, c, ops);
            |c'| <= room && c + Accepted(ops, replies) == Taken(replies) + c'
    decreases |ops|
  {
    var (replies, c') := Fifo(room, c, ops);
    if ops == [] {
      assert c + [] == [] + c;
    } else {
      var s := Apply(room, c, ops[0]);
      FifoConserves(room, s.1, ops[1..]);
      assert replies[1..] == Fifo(room, s.1, ops[1..]).0;
      var a, t := Accepted(ops[1..], replies[1..]), Taken(replies[1..]);
      match ops[0] {
        case Push(x) => Assoc(c, if s.0 == Pushed(true) then [x] else [], a);
        case Pop =>
          var first := if c == [] then [] else [c[0]];
          assert c == first + s.1;
          Assoc(first, s.1, a);
          Assoc(first, t, c');
      }
      assert c + [] == c;
    }
  }
}
