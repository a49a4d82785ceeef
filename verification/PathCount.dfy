// Counting the walks of K moves from one cell of a board to another that get
// there for the first time with the last move.
module PathCount {

  const MOVE_I := [1, 0, -1, 0, 2, 2, 1, -1, -2, -2, -1, 1]
  const MOVE_J := [0, -1, 0, 1, 1, -1, -2, -2, -1, 1, 2, 2]

  type Cell = (int, int)

  datatype Coord = Coord(at: Cell, lv: int)

  // The cell a move leads to.
  function Moved(p: Cell, d: nat): Cell
    requires d < 12
  {
    (p.0 + MOVE_I[d], p.1 + MOVE_J[d])
  }

  function Abs(x: int): nat {
    if x < 0 then -x else x
  }

  // The moves lead to the four neighbours of a cell and to where a knight could
  // go from it, to each by one move.
  lemma MovesAre(p: Cell, q: Cell)
    ensures var x, y := Abs(q.0 - p.0), Abs(q.1 - p.1);
            (exists d :: 0 <= d < 12 && Moved(p, d) == q) <==> x + y == 1 || (x == 1 && y == 2) || (x == 2 && y == 1)
    ensures forall d, e :: 0 <= d < e < 12 ==> Moved(p, d) != Moved(p, e)
  {
    assert Moved(p, 0) == (p.0 + 1, p.1) && Moved(p, 1) == (p.0, p.1 - 1);
    assert Moved(p, 2) == (p.0 - 1, p.1) && Moved(p, 3) == (p.0, p.1 + 1);
    assert Moved(p, 4) == (p.0 + 2, p.1 + 1) && Moved(p, 5) == (p.0 + 2, p.1 - 1);
    assert Moved(p, 6) == (p.0 + 1, p.1 - 2) && Moved(p, 7) == (p.0 - 1, p.1 - 2);
    assert Moved(p, 8) == (p.0 - 2, p.1 - 1) && Moved(p, 9) == (p.0 - 2, p.1 + 1);
    assert Moved(p, 10) == (p.0 - 1, p.1 + 2) && Moved(p, 11) == (p.0 + 1, p.1 + 2);
  }

  predicate Open(board: array2<int>, p: Cell)
    reads board
  {
    0 <= p.0 < board.Length0 && 0 <= p.1 < board.Length1 && board[p.0, p.1] != 1
  }

  // A walk by its moves: over open cells, at the end for the first time after
  // the last of them.
  ghost predicate Walk(board: array2<int>, p: Cell, end: Cell, moves: seq<nat>)
    reads board
    decreases moves
  {
    if moves == [] then p == end
    else p != end && moves[0] < 12 && Open(board, Moved(p, moves[0])) && Walk(board, Moved(p, moves[0]), end, moves[1..])
  }

  // The cells it comes by.
  function Cells(p: Cell, moves: seq<nat>): (r: seq<Cell>)
    requires forall i :: 0 <= i < |moves| ==> moves[i] < 12
    ensures |r| == |moves| + 1 && r[0] == p
    decreases |moves|
  {
    [p] + if moves == [] then [] else Cells(Moved(p, moves[0]), moves[1..])
  }

  ghost predicate OnBoard(board: array2<int>, cells: seq<Cell>, end: Cell)
    reads board
  {
    && (forall i :: 0 < i < |cells| ==>
          && 0 <= cells[i].0 < board.Length0 && 0 <= cells[i].1 < board.Length1
          && board[cells[i].0, cells[i].1] != 1)
    && forall i :: 0 <= i < |cells| ==> (cells[i] == end <==> i == |cells| - 1)
  }

  // Each of them is one move on from the one before, inside the board and not a
  // wall, and only the last is the end.
  lemma {:induction false} WalkCells(board: array2<int>, p: Cell, end: Cell, moves: seq<nat>)
    requires forall i :: 0 <= i < |moves| ==> moves[i] < 12
    ensures forall i :: 0 <= i < |moves| ==> Cells(p, moves)[i + 1] == Moved(Cells(p, moves)[i], moves[i])
    ensures Walk(board, p, end, moves) <==> OnBoard(board, Cells(p, moves), end)
    decreases |moves|
  {
    if moves != [] {
      var q := Moved(p, moves[0]);
      var rest := Cells(q, moves[1..]);
      WalkCells(board, q, end, moves[1..]);
      assert Cells(p, moves) == [p] + rest;
      OnBoardMore(board, p, rest, end);
      hide Cells, Moved, OnBoard, Open;
      forall i | 0 < i < |moves|
        ensures ([p] + rest)[i + 1] == Moved(([p] + rest)[i], moves[i])
      {
        assert rest[i] == Moved(rest[i - 1], moves[1..][i - 1]);
      }
    }
  }

  lemma OnBoardMore(board: array2<int>, p: Cell, rest: seq<Cell>, end: Cell)
    requires rest != []
    ensures OnBoard(board, [p] + rest, end) <==> p != end && Open(board, rest[0]) && OnBoard(board, rest, end)
  {
    var c := [p] + rest;
    assert c[0] == p && c[1] == rest[0] && forall i :: 0 < i < |c| ==> c[i] == rest[i - 1];
    assert forall i :: 0 <= i < |rest| ==> rest[i] == c[i + 1];
  }

  // ---- The simple recursive count. ----

  function Count(board: array2<int>, p: Cell, end: Cell, k: int): nat
    reads board
    decreases k, 13
  {
    if k < 0 then 0
    else if p == end then if k == 0 then 1 else 0
    else CountFrom(board, p, end, k, 12)
  }

  // The walks that begin with one of the first n moves.
  function CountFrom(board: array2<int>, p: Cell, end: Cell, k: nat, n: nat): nat
    requires n <= 12
    reads board
    decreases k, n
  {
    if n == 0 then 0
    else
      CountFrom(board, p, end, k, n - 1)
      + if Open(board, Moved(p, n - 1)) then Count(board, Moved(p, n - 1), end, k - 1) else 0
  }

  // ---- The walks themselves. ----

  ghost function Walks(board: array2<int>, p: Cell, end: Cell, k: nat): set<seq<nat>>
    reads board
    decreases k, 13
  {
    if p == end then if k == 0 then {[]} else {}
    else if k == 0 then {}
    else WalksFrom(board, p, end, k, 12)
  }

  ghost function WalksFrom(board: array2<int>, p: Cell, end: Cell, k: nat, n: nat): set<seq<nat>>
    requires n <= 12 && k > 0
    reads board
    decreases k, n
  {
    if n == 0 then {}
    else
      WalksFrom(board, p, end, k, n - 1)
      + if Open(board, Moved(p, n - 1)) then Prefixed(n - 1, Walks(board, Moved(p, n - 1), end, k - 1)) else {}
  }

  ghost function Prefixed(d: nat, s: set<seq<nat>>): set<seq<nat>> {
    set w | w in s :: [d] + w
  }

  lemma PrefixedHas(d: nat, s: set<seq<nat>>, w: seq<nat>)
    ensures w in Prefixed(d, s) <==> w != [] && w[0] == d && w[1..] in s
  {
    if w != [] && w[0] == d {
      assert [d] + w[1..] == w;
    }
    assert forall v: seq<nat> :: ([d] + v)[1..] == v;
  }

  lemma {:induction false} PrefixedSize(d: nat, s: set<seq<nat>>)
    ensures |Prefixed(d, s)| == |s|
  {
    if s != {} {
      var w :| w in s;
      PrefixedSize(d, s - {w});
      assert Prefixed(d, s) == Prefixed(d, s - {w}) + {[d] + w};
      PrefixedHas(d, s - {w}, [d] + w);
      assert ([d] + w)[1..] == w;
    }
  }

  // They are all the walks of k moves and nothing else ...
  lemma {:induction false} WalksAreWalks(board: array2<int>, p: Cell, end: Cell, k: nat, w: seq<nat>)
    ensures w in Walks(board, p, end, k) <==> |w| == k && Walk(board, p, end, w)
    decreases k, 13
  {
    if k > 0 && p != end {
      WalksFromAreWalks(board, p, end, k, 12, w);
    }
  }

  lemma {:induction false} WalksFromAreWalks(board: array2<int>, p: Cell, end: Cell, k: nat, n: nat, w: seq<nat>)
    requires n <= 12 && k > 0 && p != end
    ensures w in WalksFrom(board, p, end, k, n) <==> |w| == k && w[0] < n && Walk(board, p, end, w)
    decreases k, n
  {
    if n > 0 {
      WalksFromAreWalks(board, p, end, k, n - 1, w);
      var q := Moved(p, n - 1);
      PrefixedHas(n - 1, Walks(board, q, end, k - 1), w);
      if w != [] {
        WalksAreWalks(board, q, end, k - 1, w[1..]);
      }
    }
  }

  // ... and there are as many as the recursive count says.
  lemma {:induction false} CountIsSize(board: array2<int>, p: Cell, end: Cell, k: nat)
    ensures |Walks(board, p, end, k)| == Count(board, p, end, k)
    decreases k, 13
  {
    if p != end {
      if k == 0 {
        NoMovesLeft(board, p, end, 12);
      } else {
        CountFromIsSize(board, p, end, k, 12);
      }
    }
  }

  lemma {:induction false} NoMovesLeft(board: array2<int>, p: Cell, end: Cell, n: nat)
    requires n <= 12
    ensures CountFrom(board, p, end, 0, n) == 0
  {
    if n > 0 { NoMovesLeft(board, p, end, n - 1); }
  }

  lemma OneMoreMove(board: array2<int>, p: Cell, end: Cell, k: nat, n: nat)
    requires 0 < n <= 12 && k > 0
    ensures var q := Moved(p, n - 1);
            if Open(board, q) then
              && WalksFrom(board, p, end, k, n) ==
                 WalksFrom(board, p, end, k, n - 1) + Prefixed(n - 1, Walks(board, q, end, k - 1))
              && CountFrom(board, p, end, k, n) ==
                 CountFrom(board, p, end, k, n - 1) + Count(board, q, end, k - 1)
            else
              && WalksFrom(board, p, end, k, n) == WalksFrom(board, p, end, k, n - 1)
              && CountFrom(board, p, end, k, n) == CountFrom(board, p, end, k, n - 1)
  {
    hide Walks, Count, Open, Prefixed, Moved;
  }

  lemma {:induction false} CountFromIsSize(board: array2<int>, p: Cell, end: Cell, k: nat, n: nat)
    requires n <= 12 && k > 0
    ensures |WalksFrom(board, p, end, k, n)| == CountFrom(board, p, end, k, n)
    decreases k, n
  {
    hide Walks, Count, Open, Prefixed, Moved;
    if n > 0 {
      var q := Moved(p, n - 1);
      CountFromIsSize(board, p, end, k, n - 1);
      CountIsSize(board, q, end, k - 1);
      PrefixedSize(n - 1, Walks(board, q, end, k - 1));
      FirstMoves(board, p, end, k, n - 1);
      OtherFirstMove(WalksFrom(board, p, end, k, n - 1), n - 1, Walks(board, q, end, k - 1));
      hide WalksFrom, CountFrom;
      OneMoreMove(board, p, end, k, n);
    }
  }

  lemma OtherFirstMove(s: set<seq<nat>>, d: nat, t: set<seq<nat>>)
    requires forall w :: w in s ==> w != [] && w[0] < d
    ensures |s + Prefixed(d, t)| == |s| + |Prefixed(d, t)|
  {
    forall w | w in s
      ensures w !in Prefixed(d, t)
    {
      PrefixedHas(d, t, w);
    }
    hide Prefixed;
    assert s !! Prefixed(d, t);
  }

  lemma {:induction false} FirstMoves(board: array2<int>, p: Cell, end: Cell, k: nat, n: nat)
    requires n <= 12 && k > 0
    ensures forall w :: w in WalksFrom(board, p, end, k, n) ==> w != [] && w[0] < n
  {
    if n > 0 { FirstMoves(board, p, end, k, n - 1); }
  }

  // ---- The search with an explicit stack. ----

  function Pow13(n: nat): nat {
    if n == 0 then 1 else 13 * Pow13(n - 1)
  }

  // What a stack entry can still cost.
  function Weight(c: Coord, K: int): nat {
    if c.lv > K then 1 else Pow13(K + 1 - c.lv)
  }

  function Load(st: seq<Coord>, K: int): nat {
    if st == [] then 0 else Load(st[..|st| - 1], K) + Weight(st[|st| - 1], K)
  }

  // The walks still to be found from what is on the stack.
  function Due(board: array2<int>, end: Cell, st: seq<Coord>, K: int): nat
    reads board
  {
    if st == [] then 0
    else Due(board, end, st[..|st| - 1], K) + Count(board, st[|st| - 1].at, end, K - st[|st| - 1].lv)
  }

  lemma Pushed(board: array2<int>, end: Cell, st: seq<Coord>, c: Coord, K: int)
    ensures Load(st + [c], K) == Load(st, K) + Weight(c, K)
    ensures Due(board, end, st + [c], K) == Due(board, end, st, K) + Count(board, c.at, end, K - c.lv)
  {
    assert (st + [c])[..|st|] == st;
  }

  // One coordinate off the stack, every open neighbour on it.
  method Expand(board: array2<int>, end: Cell, K: int, rest: seq<Coord>, c: Coord) returns (st: seq<Coord>)
    requires c.lv <= K && c.at != end
    ensures Load(st, K) < Load(rest, K) + Weight(c, K)
    ensures Due(board, end, st, K) == Due(board, end, rest, K) + Count(board, c.at, end, K - c.lv)
  {
    st := rest;
    hide Count, Weight, Open, Moved, Load, Due;
    var w := Weight(Coord(c.at, c.lv + 1), K);
    for dir := 0 to 12
      invariant Load(st, K) <= Load(rest, K) + dir * w
      invariant Due(board, end, st, K) == Due(board, end, rest, K) + CountFrom(board, c.at, end, K - c.lv, dir)
    {
      var q := Moved(c.at, dir);
      if Open(board, q) {
        Pushed(board, end, st, Coord(q, c.lv + 1), K);
        SameWeight(Coord(q, c.lv + 1), Coord(c.at, c.lv + 1), K);
        st := st + [Coord(q, c.lv + 1)];
      }
    }
    WeightDrops(c, K);
    AllMoves(board, c.at, end, K - c.lv);
  }

  lemma SameWeight(c: Coord, d: Coord, K: int)
    requires c.lv == d.lv
    ensures Weight(c, K) == Weight(d, K)
  {
  }

  lemma WeightDrops(c: Coord, K: int)
    requires c.lv <= K
    ensures 12 * Weight(Coord(c.at, c.lv + 1), K) < Weight(c, K)
  {
    Positive(K - c.lv);
  }

  lemma AllMoves(board: array2<int>, p: Cell, end: Cell, k: nat)
    requires p != end
    ensures Count(board, p, end, k) == CountFrom(board, p, end, k, 12)
  {
  }

  lemma {:induction false} Positive(n: nat)
    ensures Pow13(n) > 0
  {
    if n > 0 { Positive(n - 1); }
  }

  method CountPossiblePath(board: array2<int>, K: int, start: Cell, end: Cell) returns (pathN: nat)
    ensures pathN == Count(board, start, end, K)
    ensures K >= 0 ==> pathN == |Walks(board, start, end, K)|
  {
    pathN := 0;
    var st := [Coord(start, 0)];
    Pushed(board, end, [], Coord(start, 0), K);
    assert [] + st == st;
    while st != []
      invariant pathN + Due(board, end, st, K) == Count(board, start, end, K)
      decreases Load(st, K)
    {
      var coord := st[|st| - 1];
      var rest := st[..|st| - 1];
      assert st == rest + [coord];
      if coord.lv <= K { Positive(K + 1 - coord.lv); }
      if coord.lv > K {
        st := rest;
      } else if coord.at == end {
        if coord.lv == K {
          pathN := pathN + 1;
        }
        st := rest;
      } else {
        st := Expand(board, end, K, rest, coord);
      }
    }
    if K >= 0 { CountIsSize(board, start, end, K); }
  }
}
