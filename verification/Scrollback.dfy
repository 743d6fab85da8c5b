/** The scrollback ring buffer (src/grid/scrollback.rs). */
module Scrollbacks {
  import opened Ints
  import opened Wrappers
  import opened Cells

  /** The last `n` elements, or all of them. */
  function LastN<T>(xs: seq<T>, n: nat): (r: seq<T>)
    ensures |r| == Min(|xs|, n)
  {
    if |xs| <= n then xs else xs[|xs| - n..]
  }

  class Scrollback {
    var rows: seq<Row>
    const capacity: nat
    var head: nat  // next write position
    var len: nat   // number of valid rows

    /** Every row ever pushed, oldest first. */
    ghost var history: seq<Row>

    /** The ring unrolled from its oldest row. */
    function Contents(): seq<Row>
      requires head <= |rows|
      reads this
    {
      if len < capacity then rows else rows[head..] + rows[..head]
    }

    ghost predicate Valid()
      reads this
    {
      && 0 < capacity
      && len == |rows| <= capacity
      && head == (if len < capacity then len else head) < capacity
      && Contents() == LastN(history, capacity)
    }

    constructor (capacity: nat)
      requires 0 < capacity
      ensures Valid() && this.capacity == capacity && history == []
    {
      this.capacity := capacity;
      rows, head, len, history := [], 0, 0, [];
    }

    method Push(row: Row)
      requires Valid()
      modifies this
      ensures Valid() && history == old(history) + [row]
      ensures Contents() == LastN(old(history) + [row], capacity)
    {
      LastNPush(history, row, capacity);
      if len < capacity {
        if |rows| < capacity {
          rows := rows + [row];
        } else {
          assert false;  // the vector and `len` grow together
        }
        NextIndex();
        head := (head + 1) % capacity;
        len := len + 1;
        assert Contents() == old(Contents()) + [row];
      } else {
        rows := rows[head := row];
        NextIndex();
        head := (head + 1) % capacity;
        assert Contents() == old(Contents())[1..] + [row];
      }
      history := history + [row];
    }

    lemma NextIndex()
      requires head < capacity
      ensures (head + 1) % capacity == if head + 1 < capacity then head + 1 else 0
    {
      if head + 1 == capacity { DivModUnique(head + 1, capacity, 1, 0); }
    }

    static lemma LastNPush<T>(xs: seq<T>, x: T, n: nat)
      requires 0 < n
      ensures LastN(xs + [x], n) == if |xs| < n then LastN(xs, n) + [x] else LastN(xs, n)[1..] + [x]
    {
    }

    /** Row `index`, counting from the oldest kept. */
    function Get(index: nat): (r: Option<Row>)
      requires Valid()
      reads this
      ensures index < Min(|history|, capacity) ==>
        r == Some(history[|history| - Min(|history|, capacity) + index])
      ensures index >= Min(|history|, capacity) ==> r == None
    {
      if index >= len then None
      else
        var start := if len < capacity then 0 else head;
        RingIndex(start, index);
        assert index < len ==> Contents()[index] == rows[(start + index) % capacity];
        Some(rows[(start + index) % capacity])
    }

    lemma RingIndex(start: nat, index: nat)
      requires 0 < capacity && start < capacity && index < capacity
      ensures (start + index) % capacity == if start + index < capacity then start + index else start + index - capacity
    {
      if start + index >= capacity {
        DivModUnique(start + index, capacity, 1, start + index - capacity);
      } else {
        DivModUnique(start + index, capacity, 0, start + index);
      }
    }

    /** All rows, oldest first. */
    function Iter(): (r: seq<Row>)
      requires Valid()
      reads this
      ensures r == LastN(history, capacity)
    {
      var r := seq(len, i requires 0 <= i < len && Valid() reads this => Get(i).value);
      assert |r| == |LastN(history, capacity)|;
      r
    }
  }
}
