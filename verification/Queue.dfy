/** The router's packet queue over singly linked cells that are freed one by one. */
module Queue {

  /** struct cell. live says that free has not been called on it: reading or writing a
      cell asks for it. */
  class Cell<T> {
    const element: T
    var next: Cell?<T>
    ghost var live: bool

    /** cons. */
    constructor (element: T, next: Cell?<T>)
      ensures this.element == element && this.next == next && live
    {
      this.element := element;
      this.next := next;
      live := true;
    }

    function Element(): T
      requires live
      reads `live
    {
      element
    }

    method SetNext(cell: Cell<T>)
      requires live
      modifies `next
      ensures next == cell
    {
      next := cell;
    }
  }

  /** cdr_and_free. */
  method CdrAndFree<T>(l: Cell<T>) returns (rest: Cell?<T>)
    requires l.live
    modifies l`live
    ensures rest == l.next && !l.live
  {
    rest := l.next;
    l.live := false;
  }

  ghost function Nth<T>(spine: seq<Cell<T>>, i: nat): Cell?<T> {
    if i < |spine| then spine[i] else null
  }

  /** Behind the first cell of a spine. */
  lemma RestOfSpine<T>(spine: seq<Cell<T>>)
    requires spine != []
    requires forall i :: 0 <= i < |spine| ==> spine[i].next == Nth(spine, i + 1)
    requires forall i, j :: 0 <= i < j < |spine| ==> spine[i] != spine[j]
    ensures spine[0] !in spine[1..] && spine[0].next == Nth(spine[1..], 0)
    ensures forall i :: 0 <= i < |spine[1..]| ==> spine[1..][i].next == Nth(spine[1..], i + 1)
    ensures forall i, j :: 0 <= i < j < |spine[1..]| ==> spine[1..][i] != spine[1..][j]
  {
    var cells := spine[1..];
    forall i | 0 <= i < |cells| ensures cells[i].next == Nth(cells, i + 1) {
      assert cells[i] == spine[i + 1];
    }
  }

  ghost function Elements<T>(spine: seq<Cell<T>>): (c: seq<T>)
    ensures |c| == |spine|
  {
    seq(|spine|, i requires 0 <= i < |spine| => spine[i].element)
  }

  lemma RestOfElements<T>(spine: seq<Cell<T>>)
    requires spine != []
    ensures Elements(spine) == [spine[0].element] + Elements(spine[1..])
  {
  }

  lemma MoreElements<T>(spine: seq<Cell<T>>, cell: Cell<T>)
    ensures Elements(spine + [cell]) == Elements(spine) + [cell.element]
  {
  }

  class Queue<T> {
    var head: Cell?<T>
    var tail: Cell?<T>
    /** The cells from head on. */
    ghost var spine: seq<Cell<T>>

    /** Nothing is said of tail while the queue is empty. */
    ghost predicate Valid()
      reads this, spine
    {
      && head == Nth(spine, 0)
      && (forall i :: 0 <= i < |spine| ==> spine[i].live)
      && (forall i :: 0 <= i < |spine| ==> spine[i].next == Nth(spine, i + 1))
      && (forall i, j :: 0 <= i < j < |spine| ==> spine[i] != spine[j])
      && (spine != [] ==> tail == spine[|spine| - 1])
    }

    ghost function Contents(): (c: seq<T>)
      reads this
      ensures |c| == |spine|
    {
      Elements(spine)
    }

    constructor ()
      ensures Valid() && spine == [] && Contents() == []
    {
      head := null;
      tail := null;
      spine := [];
    }

    method IsEmpty() returns (empty: bool)
      requires Valid()
      ensures empty <==> Contents() == []
    {
      empty := head == null;
    }

    method Enq(x: T)
      requires Valid()
      modifies this, spine
      ensures Valid() && Contents() == old(Contents()) + [x]
      ensures forall c :: c in spine ==> c in old(spine) || fresh(c)
    {
      if head == null {
        head := new Cell(x, null);
        tail := head;
        spine := [head];
      } else {
        var cell := new Cell(x, null);
        MoreElements(spine, cell);
        tail.SetNext(cell);
        tail := tail.next;
        spine := spine + [cell];
      }
    }

    method Top() returns (x: T)
      requires Valid() && Contents() != []
      ensures x == Contents()[0]
    {
      x := head.Element();
    }

    /** The last cell out leaves tail on freed memory. */
    method Deq() returns (x: T)
      requires Valid() && Contents() != []
      modifies this, spine
      ensures Valid() && old(Contents()) == [x] + Contents()
      ensures Contents() == [] ==> tail != null && !tail.live
      ensures forall c :: c in spine ==> c in old(spine)
    {
      x := head.Element();
      RestOfSpine(spine);
      RestOfElements(spine);
      head := CdrAndFree(head);
      spine := spine[1..];
    }
  }

  // ------------------------------------------------------------------- whole runs

  datatype Op<T> = Enq(x: T) | Deq

  /** A plain first-in-first-out queue: what came out of it, and what is inside. */
  datatype Fifo<T> = Fifo(out: seq<T>, inside: seq<T>)

  /** One operation; dequeuing is guarded by queue_empty. */
  function Apply<T>(f: Fifo<T>, op: Op<T>): Fifo<T> {
    match op
    case Enq(x) => f.(inside := f.inside + [x])
    case Deq => if f.inside == [] then f else Fifo(f.out + [f.inside[0]], f.inside[1..])
  }

  function After<T>(ops: seq<Op<T>>): Fifo<T> {
    if ops == [] then Fifo([], []) else Apply(After(ops[..|ops| - 1]), ops[|ops| - 1])
  }

  function Enqueued<T>(ops: seq<Op<T>>): seq<T> {
    if ops == [] then []
    else Enqueued(ops[..|ops| - 1]) + match ops[|ops| - 1] case Enq(x) => [x] case Deq => []
  }

  /** Nothing is lost, doubled or reordered: what came out, followed by what is still
      inside, is what went in. */
  lemma {:induction false} FirstInFirstOut<T>(ops: seq<Op<T>>)
    ensures After(ops).out + After(ops).inside == Enqueued(ops)
  {
    if ops != [] {
      var before := After(ops[..|ops| - 1]);
      FirstInFirstOut(ops[..|ops| - 1]);
      if ops[|ops| - 1].Deq? && before.inside != [] {
        assert [before.inside[0]] + before.inside[1..] == before.inside;
      }
    }
  }

  /** Any run of enqueues and guarded dequeues on the linked cells is a run of the plain
      queue. */
  method Play<T>(ops: seq<Op<T>>) returns (q: Queue<T>, out: seq<T>)
    ensures q.Valid() && Fifo(out, q.Contents()) == After(ops)
  {
    q := new Queue();
    out := [];
    for i := 0 to |ops|
      invariant fresh(q) && q.Valid() && fresh(set c | c in q.spine)
      invariant Fifo(out, q.Contents()) == After(ops[..i])
    {
      assert ops[..i + 1][..i] == ops[..i];
      match ops[i] {
        case Enq(x) => q.Enq(x);
        case Deq => out := PlayDeq(q, out);
      }
    }
    assert ops[..|ops|] == ops;
  }

  method PlayDeq<T>(q: Queue<T>, out: seq<T>) returns (next: seq<T>)
    requires q.Valid()
    modifies q, q.spine
    ensures q.Valid() && Fifo(next, q.Contents()) == Apply(Fifo(out, old(q.Contents())), Deq)
    ensures forall c :: c in q.spine ==> c in old(q.spine)
  {
    next := out;
    var empty := q.IsEmpty();
    if !empty {
      var x := q.Deq();
      next := next + [x];
    }
  }
}
