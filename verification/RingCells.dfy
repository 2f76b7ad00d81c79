/** Items laid out around a ring of cells. */
module RingCells {
  import opened Arith

  /** The i-th cell after cell head. */
  function Cell(head: nat, i: nat, size: nat): (c: nat)
    requires head < size && i <= size
    ensures c < size
  {
    if head + i < size then head + i else head + i - size
  }

  lemma CellIsMod(head: nat, i: nat, size: nat)
    requires head < size && i <= size
    ensures Cell(head, i, size) == (head + i) % size
  {
    if head + i < size {
      DivModUnique(head + i, size, 0, head + i);
    } else {
      DivModUnique(head + i, size, 1, head + i - size);
    }
  }

  /** The n items from cell head on, around the ring. */
  function Items<T>(cells: seq<T>, head: nat, n: nat): (s: seq<T>)
    requires head < |cells| && n <= |cells|
    ensures |s| == n
    ensures forall i :: 0 <= i < n ==> s[i] == cells[Cell(head, i, |cells|)]
  {
    seq(n, i requires 0 <= i < n => cells[Cell(head, i, |cells|)])
  }

  lemma ItemsPut<T>(cells: seq<T>, head: nat, n: nat, x: T)
    requires head < |cells| && n < |cells|
    ensures Items(cells[Cell(head, n, |cells|) := x], head, n + 1) == Items(cells, head, n) + [x]
  {
  }

  lemma ItemsTake<T>(cells: seq<T>, head: nat, n: nat)
    requires head < |cells| && 0 < n <= |cells|
    ensures Items(cells, head, n) == [cells[head]] + Items(cells, Cell(head, 1, |cells|), n - 1)
  {
  }

  /** Where the tail is after one item more or less. */
  lemma CellShift(head: nat, n: nat, size: nat)
    requires head < size && n <= size
    ensures n < size ==> Cell(Cell(head, n, size), 1, size) == Cell(head, n + 1, size)
    ensures n > 0 ==> Cell(Cell(head, 1, size), n - 1, size) == Cell(head, n, size)
  {
  }
}
