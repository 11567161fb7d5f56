/** The snake's body as a head-first sequence of cells, its two kinds of move,
    the collision test and food placement. */
module Body {
  import opened Seqs
  import opened Grid

  /** A well-formed snake: at least one cell, every cell on the board, no cell twice,
      and each cell side by side with the next one. */
  predicate ValidSnake(s: seq<Pt>) {
    |s| >= 1 &&
    (forall i :: 0 <= i < |s| ==> InBounds(s[i])) &&
    Distinct(s) &&
    (forall i :: 0 <= i < |s| - 1 ==> Adjacent(s[i], s[i + 1]))
  }

  /** The collision test of a tick: off the board, or on any cell of the current body,
      the tail included. On a snake that covers the board every cell collides. */
  function Hits(s: seq<Pt>, p: Pt): (hit: bool)
    ensures |s| >= 1 && p == s[|s| - 1] ==> hit
    ensures p in s ==> hit
    ensures ValidSnake(s) && |s| == CellCount ==> hit
  {
    if ValidSnake(s) then FreeCellIff(s); !InBounds(p) || p in s
    else !InBounds(p) || p in s
  }

  /** A move without eating: the new head enters and the tail cell is dropped. */
  function Slither(s: seq<Pt>, head: Pt): (r: seq<Pt>)
    requires |s| >= 1
    ensures |r| == |s|
    ensures r[0] == head
    ensures forall i :: 1 <= i < |r| ==> r[i] == s[i - 1]
  {
    [head] + s[..|s| - 1]
  }

  /** A move that eats: the new head enters and nothing is dropped. */
  function Grow(s: seq<Pt>, head: Pt): (r: seq<Pt>)
    ensures |r| == |s| + 1
    ensures r[0] == head && r[1..] == s
  {
    [head] + s
  }

  /** A free cell is on the board and not on the snake. */
  ghost predicate HasFreeCell(s: seq<Pt>) {
    exists p :: InBounds(p) && p !in s
  }

  /** A move that does not collide keeps the snake well-formed. */
  lemma {:induction false} SlitherKeepsValid(s: seq<Pt>, d: Dir)
    requires ValidSnake(s) && !Hits(s, Next(s[0], d))
    ensures ValidSnake(Slither(s, Next(s[0], d)))
  {
    var r := Slither(s, Next(s[0], d));
    forall i, j | 0 <= i < j < |r| ensures r[i] != r[j] {
      if i == 0 {
        assert r[j] in s;
      } else {
        assert r[i] == s[i - 1] && r[j] == s[j - 1];
      }
    }
  }

  /** An eating move that does not collide keeps the snake well-formed. */
  lemma {:induction false} GrowKeepsValid(s: seq<Pt>, d: Dir)
    requires ValidSnake(s) && !Hits(s, Next(s[0], d))
    ensures ValidSnake(Grow(s, Next(s[0], d)))
  {
    var r := Grow(s, Next(s[0], d));
    forall i, j | 0 <= i < j < |r| ensures r[i] != r[j] {
      if i == 0 {
        assert r[j] in s;
      } else {
        assert r[i] == s[i - 1] && r[j] == s[j - 1];
      }
    }
  }

  /** A well-formed snake covers at most the whole board, and a free cell exists
      exactly when it is shorter than the board. */
  lemma FreeCellIff(s: seq<Pt>)
    requires ValidSnake(s)
    ensures |s| <= CellCount
    ensures HasFreeCell(s) <==> |s| < CellCount
  {
    var board := AllCells();
    ElemsCard(board);
    ElemsCard(s);
    assert Elems(s) <= Elems(board);
    SubsetCard(Elems(s), Elems(board));
    if |s| < CellCount {
      if !HasFreeCell(s) {
        assert Elems(board) <= Elems(s);
        SubsetCard(Elems(board), Elems(s));
        assert false;
      }
    } else {
      assert Elems(s) == Elems(board);
      forall p | InBounds(p) ensures p in s {
        assert p in Elems(board);
      }
    }
  }

  /** Food placement: a cell on the board that the snake does not cover. The source draws
      random cells until one is free, so it returns only when a free cell exists. */
  method RandomFood(s: seq<Pt>) returns (f: Pt)
    requires HasFreeCell(s)
    ensures InBounds(f) && f !in s
  {
    f :| InBounds(f) && f !in s;
  }
}
