/** A queue of linked cells with a head and a tail pointer. */
module CellQueue {

  class Cell<T> {
    var element: T
    var next: Cell?<T>

    /** `cons`. */
    constructor (element: T, next: Cell?<T>)
      ensures this.element == element && this.next == next
    {
      this.element := element;
      this.next := next;
    }
  }

  class Queue<T> {
    var head: Cell?<T>
    var tail: Cell?<T>
    ghost var cells: seq<Cell<T>>

    /** The cells are chained in order. The tail pointer of an empty queue dangles after a
        dequeue and says nothing. */
    ghost predicate Valid()
      reads this, cells
    {
      var n := |cells|;
      && (head == null <==> n == 0)
      && (n > 0 ==> head == cells[0] && tail == cells[n - 1] && cells[n - 1].next == null)
      && (forall i {:trigger cells[i].next} | 0 <= i < n - 1 :: cells[i].next == cells[i + 1])
      && (forall i, j | 0 <= i < j < n :: cells[i] != cells[j])
    }

    ghost function Contents(): (s: seq<T>)
      reads this, cells
      ensures |s| == |cells|
    {
      var cs := cells;
      seq(|cs|, i requires 0 <= i < |cs| reads cs => cs[i].element)
    }

    /** `queue_create`. */
    constructor ()
      ensures Valid() && cells == [] && Contents() == []
    {
      head, tail := null, null;
      cells := [];
    }

    /** `queue_empty`. */
    method IsEmpty() returns (empty: bool)
      requires Valid()
      ensures empty <==> Contents() == []
    {
      empty := head == null;
    }

    /** `queue_enq`. */
    method Enqueue(element: T)
      requires Valid()
      modifies this, cells
      ensures Valid()
      ensures Contents() == old(Contents()) + [element]
      ensures |cells| == |old(cells)| + 1 && cells[..|old(cells)|] == old(cells) && fresh(cells[|old(cells)|])
    {
      var c := new Cell(element, null);
      if head == null {
        head, tail := c, c;
      } else {
        tail.next := c;
        tail := tail.next;
      }
      cells := cells + [c];
    }

    /** `queue_deq`. */
    method Dequeue() returns (element: T)
      requires Valid() && Contents() != []
      modifies this
      ensures Valid()
      ensures element == old(Contents()[0]) && Contents() == old(Contents()[1..])
      ensures cells == old(cells)[1..]
    {
      element := head.element;
      head := head.next;
      cells := cells[1..];
    }
  }
}
