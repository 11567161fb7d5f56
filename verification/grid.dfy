/** The 15 x 15 board of the Snake game: cells, the four directions and one step of movement. */
module Grid {
  import opened Seqs

  /** Cells per side of the board (the source's GRID). */
  const Size: int := 15
  /** Number of cells on the board. */
  const CellCount: int := Size * Size

  datatype Dir = U | D | L | R

  /** A board cell; x grows to the right, y grows downwards. */
  datatype Pt = Pt(x: int, y: int)

  /** The reverse of a direction (the source's OPP table). */
  function Opp(d: Dir): (r: Dir)
    ensures r != d
  {
    match d
    case U => D
    case D => U
    case L => R
    case R => L
  }

  predicate InBounds(p: Pt) {
    0 <= p.x < Size && 0 <= p.y < Size
  }

  function Abs(n: int): nat {
    if n < 0 then -n else n
  }

  /** `a` and `b` share a side. */
  predicate Adjacent(a: Pt, b: Pt) {
    Abs(a.x - b.x) + Abs(a.y - b.y) == 1
  }

  /** The cell one step from `p` in direction `d`, with no wrap-around at the edges. */
  function Next(p: Pt, d: Dir): (r: Pt)
    ensures Adjacent(p, r)
    ensures r.y == p.y <==> d == L || d == R
    ensures r.x + r.y > p.x + p.y <==> d == R || d == D
  {
    Pt(p.x + (if d == R then 1 else if d == L then -1 else 0),
       p.y + (if d == D then 1 else if d == U then -1 else 0))
  }

  /** Stepping back in the opposite direction undoes a step. */
  lemma NextOppUndoes(p: Pt, d: Dir)
    ensures Next(Next(p, d), Opp(d)) == p
  {
  }

  /** From one cell, two different directions lead to two different cells. */
  lemma NextInjective(p: Pt, a: Dir, b: Dir)
    ensures Next(p, a) == Next(p, b) <==> a == b
  {
  }

  /** Every cell of the board, row by row. */
  function AllCells(): (cells: seq<Pt>)
    ensures |cells| == CellCount
    ensures Distinct(cells)
    ensures forall p :: p in cells <==> InBounds(p)
  {
    var cells := seq(CellCount, i requires 0 <= i < CellCount => Pt(i % Size, i / Size));
    assert forall p | InBounds(p) :: cells[p.y * Size + p.x] == p;
    cells
  }
}
