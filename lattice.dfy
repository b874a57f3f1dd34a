/** The linked lattice a Matrix is built from, as the constructor builds it
    and as the accessors walk it.

    A MatrixNode has three fields: its contents, the node to its right and
    the node below it. Here a node is a number, handed out in the order the
    constructor creates nodes, and the three fields of all nodes are three
    maps; a node with no right (or down) neighbour has no entry in that map.

    An m x n matrix is an (m + 1) x (n + 1) lattice. Position (0, 0) is the
    head, which holds None; (i, 0) for 1 <= i <= m is the marker of row i and
    holds i - 1; (0, j) for 1 <= j <= n is the marker of column j and holds
    j - 1; (i, j) with i, j >= 1 is cell (i, j) of the matrix. */
module Lattice {
  import opened Errors

  type NodeId = nat

  /** The head of a lattice and the right, down and contents fields of all
      its nodes. */
  datatype Nodes = Nodes(
    head: NodeId,
    right: map<NodeId, NodeId>,
    down: map<NodeId, NodeId>,
    contents: map<NodeId, Option<int>>)

  /** Follow links from `from`, `steps` times. A node with no link leads to
      None, and None stays None: in Python the cursor becomes None and the
      next call on it raises. A count of 0 or less takes no step, as
      `range` does. */
  function Follow(links: map<NodeId, NodeId>, from: Option<NodeId>, steps: int): Option<NodeId>
    decreases steps
  {
    if steps <= 0 || from.None? then from
    else if from.value in links then Follow(links, Some(links[from.value]), steps - 1)
    else None
  }

  /** Walk down i times from the head, then right j times: how every
      accessor finds cell (i, j). */
  function DownRight(lat: Nodes, i: int, j: int): Option<NodeId> {
    Follow(lat.right, Follow(lat.down, Some(lat.head), i), j)
  }

  /** Walk right j times from the head, then down i times: how get_col and
      set_col find the cells of column j. */
  function RightDown(lat: Nodes, i: int, j: int): Option<NodeId> {
    Follow(lat.down, Follow(lat.right, Some(lat.head), j), i)
  }

  /** What the constructor promises of the links: both walks reach every
      position of the (m + 1) x (n + 1) lattice, and reach the same node;
      distinct positions are distinct nodes, each with contents; rows end
      after column n and columns end after row m. */
  ghost predicate Linked(lat: Nodes, m: nat, n: nat) {
    && (forall i, j :: 0 <= i <= m && 0 <= j <= n ==>
          DownRight(lat, i, j).Some? && DownRight(lat, i, j) == RightDown(lat, i, j)
          && DownRight(lat, i, j).value in lat.contents)
    && (forall i, j, i', j' ::
          0 <= i <= m && 0 <= j <= n && 0 <= i' <= m && 0 <= j' <= n && (i != i' || j != j') ==>
          DownRight(lat, i, j) != DownRight(lat, i', j'))
    && (forall i :: 0 <= i <= m ==> DownRight(lat, i, n).value !in lat.right)
    && (forall j :: 0 <= j <= n ==> DownRight(lat, m, j).value !in lat.down)
  }

  /** What a position holds right after construction. The constructor
      creates every cell as MatrixNode(0): its `default` argument is never
      used. */
  function InitialContents(i: int, j: int): Option<int> {
    if i == 0 && j == 0 then None
    else if j == 0 then Some(i - 1)
    else if i == 0 then Some(j - 1)
    else Some(0)
  }

  ghost predicate Initial(lat: Nodes, m: nat, n: nat)
    requires Linked(lat, m, n)
  {
    forall i, j :: 0 <= i <= m && 0 <= j <= n ==>
      lat.contents[DownRight(lat, i, j).value] == InitialContents(i, j)
  }

  // ---------------------------------------------------------------------
  // Construction

  /** The position below p, and the one to its right. */
  function Below(p: (int, int)): (int, int) { (p.0 + 1, p.1) }
  function Beside(p: (int, int)): (int, int) { (p.0, p.1 + 1) }

  /** The positions created once the row markers 1 .. R, the column markers
      1 .. C, the cells of rows 1 .. r and the first c cells of row r + 1
      exist. */
  predicate Made(p: (int, int), n: nat, R: int, C: int, r: int, c: int) {
    || (p.1 == 0 && 0 <= p.0 <= R)
    || (p.0 == 0 && 1 <= p.1 <= C)
    || (1 <= p.0 <= r && 1 <= p.1 <= n)
    || (p.0 == r + 1 && 1 <= p.1 <= c)
  }

  /** What the construction loops keep: `at` names the node made for each
      position; those nodes are distinct and older than `next`, as are all
      nodes with links or contents; every made node holds its initial
      contents; and a made node has a down (right) link exactly when the
      position below (beside) it is made, and then the link leads there. */
  ghost predicate Wired(at: map<(int, int), NodeId>, right: map<NodeId, NodeId>, down: map<NodeId, NodeId>,
                        contents: map<NodeId, Option<int>>, next: NodeId)
  {
    && (forall p {:trigger at[p]} :: p in at ==> at[p] < next)
    && (forall p, q {:trigger at[p], at[q]} :: p in at && q in at && p != q ==> at[p] != at[q])
    && (forall x :: x in right ==> x < next)
    && (forall x :: x in down ==> x < next)
    && (forall p {:trigger at[p]} :: p in at ==> at[p] in contents && contents[at[p]] == InitialContents(p.0, p.1))
    && (forall p {:trigger at[p]} :: p in at ==> (at[p] in down <==> Below(p) in at))
    && (forall p {:trigger down[at[p]]} :: p in at && Below(p) in at ==> down[at[p]] == at[Below(p)])
    && (forall p {:trigger at[p]} :: p in at ==> (at[p] in right <==> Beside(p) in at))
    && (forall p {:trigger right[at[p]]} :: p in at && Beside(p) in at ==> right[at[p]] == at[Beside(p)])
  }

  /** The position above p, and the one to its left. */
  function Above(p: (int, int)): (int, int) { (p.0 - 1, p.1) }
  function Left(p: (int, int)): (int, int) { (p.0, p.1 - 1) }

  /** One step of construction: node `next` is made for position q, and the
      nodes above and to the left of q, where they exist, are linked to it.
      This keeps the lattice wired as long as nothing below or beside q is
      made yet. */
  lemma AddNode(at: map<(int, int), NodeId>, right: map<NodeId, NodeId>, down: map<NodeId, NodeId>,
                contents: map<NodeId, Option<int>>, next: NodeId, q: (int, int))
    requires Wired(at, right, down, contents, next)
    requires q !in at && Below(q) !in at && Beside(q) !in at
    ensures Wired(at[q := next],
                  if Left(q) in at then right[at[Left(q)] := next] else right,
                  if Above(q) in at then down[at[Above(q)] := next] else down,
                  contents[next := InitialContents(q.0, q.1)], next + 1)
  {
    var at' := at[q := next];
    var right' := if Left(q) in at then right[at[Left(q)] := next] else right;
    var down' := if Above(q) in at then down[at[Above(q)] := next] else down;
    forall p | p in at'
      ensures at'[p] in down' <==> Below(p) in at'
      ensures Below(p) in at' ==> down'[at'[p]] == at'[Below(p)]
    {
      if p != q {
        assert Below(p) == q <==> p == Above(q);
      }
    }
    forall p | p in at'
      ensures at'[p] in right' <==> Beside(p) in at'
      ensures Beside(p) in at' ==> right'[at'[p]] == at'[Beside(p)]
    {
      if p != q {
        assert Beside(p) == q <==> p == Left(q);
      }
    }
  }

  /** The construction state once the positions of Made(_, n, R, C, r, c)
      exist: wired, with exactly those positions made and the head as node 0.
      Membership is tied to Made only where a proof names Made of a
      position, which keeps the solver from unfolding Made for every node. */
  ghost predicate Stage(at: map<(int, int), NodeId>, right: map<NodeId, NodeId>, down: map<NodeId, NodeId>,
                        contents: map<NodeId, Option<int>>, next: NodeId, n: nat, R: int, C: int, r: int, c: int)
  {
    && Wired(at, right, down, contents, next)
    && (forall p {:trigger Made(p, n, R, C, r, c)} :: p in at <==> Made(p, n, R, C, r, c))
    && (0, 0) in at && at[(0, 0)] == 0
  }

  /** The link from a made node to the right, if the position beside it is made. */
  lemma RightOf(at: map<(int, int), NodeId>, right: map<NodeId, NodeId>, down: map<NodeId, NodeId>,
                contents: map<NodeId, Option<int>>, next: NodeId, p: (int, int))
    requires Wired(at, right, down, contents, next) && p in at
    ensures at[p] in right <==> Beside(p) in at
    ensures Beside(p) in at ==> right[at[p]] == at[Beside(p)]
  {
    if Beside(p) in at {
      assert right[at[p]] == at[Beside(p)];
    }
  }

  /** The link from a made node downwards, if the position below it is made. */
  lemma DownOf(at: map<(int, int), NodeId>, right: map<NodeId, NodeId>, down: map<NodeId, NodeId>,
               contents: map<NodeId, Option<int>>, next: NodeId, p: (int, int))
    requires Wired(at, right, down, contents, next) && p in at
    ensures at[p] in down <==> Below(p) in at
    ensures Below(p) in at ==> down[at[p]] == at[Below(p)]
  {
    if Below(p) in at {
      assert down[at[p]] == at[Below(p)];
    }
  }

  /** Making node `next` for position q moves the construction from the
      positions of Made(_, n, R, C, r, c) to those of Made(_, n, R', C', r', c'),
      provided q is the one position that step adds and nothing below or
      beside q is made yet. */
  lemma Grow(at: map<(int, int), NodeId>, right: map<NodeId, NodeId>, down: map<NodeId, NodeId>,
             contents: map<NodeId, Option<int>>, next: NodeId, q: (int, int),
             n: nat, R: int, C: int, r: int, c: int, R': int, C': int, r': int, c': int)
    requires Stage(at, right, down, contents, next, n, R, C, r, c)
    requires !Made(q, n, R, C, r, c) && !Made(Below(q), n, R, C, r, c) && !Made(Beside(q), n, R, C, r, c)
    requires forall p {:trigger Made(p, n, R', C', r', c')} ::
               Made(p, n, R', C', r', c') <==> Made(p, n, R, C, r, c) || p == q
    ensures Left(q) in at <==> Made(Left(q), n, R, C, r, c)
    ensures Above(q) in at <==> Made(Above(q), n, R, C, r, c)
    ensures Stage(at[q := next],
                  if Left(q) in at then right[at[Left(q)] := next] else right,
                  if Above(q) in at then down[at[Above(q)] := next] else down,
                  contents[next := InitialContents(q.0, q.1)], next + 1, n, R', C', r', c')
  {
    assert Left(q) in at <==> Made(Left(q), n, R, C, r, c);
    assert Above(q) in at <==> Made(Above(q), n, R, C, r, c);
    assert q !in at && Below(q) !in at && Beside(q) !in at;
    AddNode(at, right, down, contents, next, q);
    var at' := at[q := next];
    forall p ensures p in at' <==> Made(p, n, R', C', r', c') {
      assert p in at <==> Made(p, n, R, C, r, c);
    }
  }

  /** The first loop of the constructor makes the marker of row R + 1 and
      links it below the marker of row R. */
  lemma StepRowMarker(at: map<(int, int), NodeId>, right: map<NodeId, NodeId>, down: map<NodeId, NodeId>,
                      contents: map<NodeId, Option<int>>, next: NodeId, n: nat, R: nat)
    requires Stage(at, right, down, contents, next, n, R, 0, 0, 0)
    ensures (R, 0) in at
    ensures Stage(at[(R + 1, 0) := next], right, down[at[(R, 0)] := next], contents[next := Some(R)], next + 1,
                  n, R + 1, 0, 0, 0)
  {
    var q := (R + 1, 0);
    forall p ensures Made(p, n, R + 1, 0, 0, 0) <==> Made(p, n, R, 0, 0, 0) || p == q { }
    assert Made(Above(q), n, R, 0, 0, 0) && !Made(Left(q), n, R, 0, 0, 0);
    Grow(at, right, down, contents, next, q, n, R, 0, 0, 0, R + 1, 0, 0, 0);
  }

  /** The second loop makes the marker of column C + 1 and links it to the
      right of the marker of column C. */
  lemma StepColMarker(at: map<(int, int), NodeId>, right: map<NodeId, NodeId>, down: map<NodeId, NodeId>,
                      contents: map<NodeId, Option<int>>, next: NodeId, m: nat, n: nat, C: nat)
    requires C < n
    requires Stage(at, right, down, contents, next, n, m, C, 0, 0)
    ensures (0, C) in at
    ensures Stage(at[(0, C + 1) := next], right[at[(0, C)] := next], down, contents[next := Some(C)], next + 1,
                  n, m, C + 1, 0, 0)
  {
    var q := (0, C + 1);
    forall p ensures Made(p, n, m, C + 1, 0, 0) <==> Made(p, n, m, C, 0, 0) || p == q { }
    assert Made(Left(q), n, m, C, 0, 0) && !Made(Above(q), n, m, C, 0, 0);
    Grow(at, right, down, contents, next, q, n, m, C, 0, 0, m, C + 1, 0, 0);
  }

  /** The inner loop of the third makes cell (r + 1, c + 1) and links it to
      the right of dlinker, the node at (r + 1, c), and below ulinker, the
      node at (r, c + 1). */
  lemma StepCell(at: map<(int, int), NodeId>, right: map<NodeId, NodeId>, down: map<NodeId, NodeId>,
                 contents: map<NodeId, Option<int>>, next: NodeId, m: nat, n: nat, r: nat, c: nat)
    requires r < m && c < n
    requires Stage(at, right, down, contents, next, n, m, n, r, c)
    ensures (r + 1, c) in at && (r, c + 1) in at
    ensures Stage(at[(r + 1, c + 1) := next], right[at[(r + 1, c)] := next], down[at[(r, c + 1)] := next],
                  contents[next := Some(0)], next + 1, n, m, n, r, c + 1)
  {
    var q := (r + 1, c + 1);
    forall p ensures Made(p, n, m, n, r, c + 1) <==> Made(p, n, m, n, r, c) || p == q { }
    assert Made(Left(q), n, m, n, r, c) && Made(Above(q), n, m, n, r, c);
    Grow(at, right, down, contents, next, q, n, m, n, r, c, m, n, r, c + 1);
  }

  /** Where the cursors of the third loop start on row r + 1: curr moves
      down from the marker of row r to the marker of row r + 1, and ulinker
      starts on the node right of the marker of row r, if there is one. */
  lemma StartRow(at: map<(int, int), NodeId>, right: map<NodeId, NodeId>, down: map<NodeId, NodeId>,
                 contents: map<NodeId, Option<int>>, next: NodeId, m: nat, n: nat, r: nat)
    requires r < m
    requires Stage(at, right, down, contents, next, n, m, n, r, 0)
    ensures (r, 0) in at && at[(r, 0)] in down && (r + 1, 0) in at && down[at[(r, 0)]] == at[(r + 1, 0)]
    ensures at[(r, 0)] in right <==> 0 < n
    ensures 0 < n ==> (r, 1) in at && right[at[(r, 0)]] == at[(r, 1)]
  {
    assert Made((r, 0), n, m, n, r, 0) && Made((r + 1, 0), n, m, n, r, 0);
    assert Made((r, 1), n, m, n, r, 0) <==> 0 < n;
    RightOf(at, right, down, contents, next, (r, 0));
    DownOf(at, right, down, contents, next, (r, 0));
  }

  /** After cell (r + 1, c + 1) is made, ulinker moves right from (r, c + 1)
      to (r, c + 2), or off the lattice after the last column. */
  lemma NextUp(at: map<(int, int), NodeId>, right: map<NodeId, NodeId>, down: map<NodeId, NodeId>,
               contents: map<NodeId, Option<int>>, next: NodeId, m: nat, n: nat, r: nat, c: nat)
    requires r < m && c < n
    requires Stage(at, right, down, contents, next, n, m, n, r, c + 1)
    ensures (r, c + 1) in at && (r + 1, c + 1) in at && (r + 1, 0) in at
    ensures at[(r, c + 1)] in right <==> c + 1 < n
    ensures c + 1 < n ==> (r, c + 2) in at && right[at[(r, c + 1)]] == at[(r, c + 2)]
  {
    assert Made((r, c + 1), n, m, n, r, c + 1) && Made((r + 1, c + 1), n, m, n, r, c + 1);
    assert Made((r + 1, 0), n, m, n, r, c + 1);
    assert Made((r, c + 2), n, m, n, r, c + 1) <==> c + 1 < n;
    RightOf(at, right, down, contents, next, (r, c + 1));
  }

  /** One turn of the inner loop of the third: the new stage, and where the
      cursors stand after it. */
  lemma CellPlaced(at: map<(int, int), NodeId>, right: map<NodeId, NodeId>, down: map<NodeId, NodeId>,
                   contents: map<NodeId, Option<int>>, next: NodeId, m: nat, n: nat, r: nat, c: nat,
                   at': map<(int, int), NodeId>)
    requires r < m && c < n
    requires Stage(at, right, down, contents, next, n, m, n, r, c)
    requires (r + 1, c) in at && (r, c + 1) in at && at' == at[(r + 1, c + 1) := next]
    ensures (r + 1, 0) in at ==> (r + 1, 0) in at' && at'[(r + 1, 0)] == at[(r + 1, 0)]
    ensures (r + 1, c + 1) in at' && at'[(r + 1, c + 1)] == next
    ensures Stage(at', right[at[(r + 1, c)] := next], down[at[(r, c + 1)] := next],
                  contents[next := Some(0)], next + 1, n, m, n, r, c + 1)
    ensures at[(r, c + 1)] in right[at[(r + 1, c)] := next] <==> c + 1 < n
    ensures c + 1 < n ==> (r, c + 2) in at' && right[at[(r + 1, c)] := next][at[(r, c + 1)]] == at'[(r, c + 2)]
  {
    StepCell(at, right, down, contents, next, m, n, r, c);
    NextUp(at', right[at[(r + 1, c)] := next], down[at[(r, c + 1)] := next],
           contents[next := Some(0)], next + 1, m, n, r, c);
  }

  /** A finished row of cells is the same stage as the start of the next. */
  lemma RowDone(at: map<(int, int), NodeId>, right: map<NodeId, NodeId>, down: map<NodeId, NodeId>,
                contents: map<NodeId, Option<int>>, next: NodeId, m: nat, n: nat, r: nat)
    requires Stage(at, right, down, contents, next, n, m, n, r, n)
    ensures Stage(at, right, down, contents, next, n, m, n, r + 1, 0)
  {
    forall p ensures p in at <==> Made(p, n, m, n, r + 1, 0) {
      assert Made(p, n, m, n, r + 1, 0) <==> Made(p, n, m, n, r, n);
    }
  }

  /** Matrix.__init__: chain m row markers down from the head, n column
      markers right from the head, then create the cells row by row. The
      argument `default` is never used. */
  method Build(m: nat, n: nat, default: int) returns (lat: Nodes)
    ensures Linked(lat, m, n) && Initial(lat, m, n)
    ensures forall i, j :: 1 <= i <= m && 1 <= j <= n ==> GetValAsWritten(lat, m, n, i, j) == Ok(Some(0))
  {
    var down, contents, next, at := ChainRowMarkers(m, n);
    var right;
    right, contents, next, at := ChainColumnMarkers(m, n, down, contents, next, at);
    right, down, contents, next, at := FillCells(m, n, right, down, contents, next, at);
    lat := Nodes(0, right, down, contents);
    WalksReach(lat, at, next, m, n);
  }

  /** The first loop of the constructor: the head and m row markers, each
      linked below the one before. */
  method ChainRowMarkers(m: nat, n: nat)
    returns (down: map<NodeId, NodeId>, contents: map<NodeId, Option<int>>, next: NodeId,
             ghost at: map<(int, int), NodeId>)
    ensures Stage(at, map[], down, contents, next, n, m, 0, 0, 0)
  {
    down := map[];
    contents := map[0 := None];
    next := 1;
    at := map[(0, 0) := 0];
    assert forall p :: Made(p, n, 0, 0, 0, 0) <==> p == (0, 0);
    var curr: NodeId := 0;
    for rowNum := 0 to m
      invariant Stage(at, map[], down, contents, next, n, rowNum, 0, 0, 0)
      invariant (rowNum, 0) in at && curr == at[(rowNum, 0)]
    {
      StepRowMarker(at, map[], down, contents, next, n, rowNum);
      var newRow := next;
      next := next + 1;
      contents := contents[newRow := Some(rowNum)];
      down := down[curr := newRow];
      at := at[(rowNum + 1, 0) := newRow];
      curr := newRow;
    }
  }

  /** The second loop: n column markers, each linked to the right of the one
      before, starting from the head. */
  method ChainColumnMarkers(m: nat, n: nat, down: map<NodeId, NodeId>, contents0: map<NodeId, Option<int>>,
                            next0: NodeId, ghost at0: map<(int, int), NodeId>)
    returns (right: map<NodeId, NodeId>, contents: map<NodeId, Option<int>>, next: NodeId,
             ghost at: map<(int, int), NodeId>)
    requires Stage(at0, map[], down, contents0, next0, n, m, 0, 0, 0)
    ensures Stage(at, right, down, contents, next, n, m, n, 0, 0)
  {
    right, contents, next, at := map[], contents0, next0, at0;
    var curr: NodeId := 0;
    for colNum := 0 to n
      invariant Stage(at, right, down, contents, next, n, m, colNum, 0, 0)
      invariant (0, colNum) in at && curr == at[(0, colNum)]
    {
      StepColMarker(at, right, down, contents, next, m, n, colNum);
      var newCol := next;
      next := next + 1;
      contents := contents[newCol := Some(colNum)];
      right := right[curr := newCol];
      at := at[(0, colNum + 1) := newCol];
      curr := newCol;
    }
  }

  /** The third loop: for each row, curr steps down to the row's marker and
      FillRow creates the row's cells. */
  method FillCells(m: nat, n: nat, right0: map<NodeId, NodeId>, down0: map<NodeId, NodeId>,
                   contents0: map<NodeId, Option<int>>, next0: NodeId, ghost at0: map<(int, int), NodeId>)
    returns (right: map<NodeId, NodeId>, down: map<NodeId, NodeId>, contents: map<NodeId, Option<int>>,
             next: NodeId, ghost at: map<(int, int), NodeId>)
    requires Stage(at0, right0, down0, contents0, next0, n, m, n, 0, 0)
    ensures Stage(at, right, down, contents, next, n, m, n, m, 0)
  {
    right, down, contents, next, at := right0, down0, contents0, next0, at0;
    var curr: NodeId := 0;
    for rowNum := 0 to m
      invariant Stage(at, right, down, contents, next, n, m, n, rowNum, 0)
      invariant (rowNum, 0) in at && curr == at[(rowNum, 0)]
    {
      StartRow(at, right, down, contents, next, m, n, rowNum);
      var ulinker: Option<NodeId> := if curr in right then Some(right[curr]) else None;
      curr := down[curr];
      right, down, contents, next, at := FillRow(m, n, rowNum, curr, ulinker, right, down, contents, next, at);
      RowDone(at, right, down, contents, next, m, n, rowNum);
    }
  }

  /** The inner loop of the third: each new cell is linked to the right of
      dlinker, the node on its left, and below ulinker, the node above it;
      then both cursors move right. */
  method FillRow(m: nat, n: nat, r: nat, rowMarker: NodeId, ulinker0: Option<NodeId>,
                 right0: map<NodeId, NodeId>, down0: map<NodeId, NodeId>,
                 contents0: map<NodeId, Option<int>>, next0: NodeId, ghost at0: map<(int, int), NodeId>)
    returns (right: map<NodeId, NodeId>, down: map<NodeId, NodeId>, contents: map<NodeId, Option<int>>,
             next: NodeId, ghost at: map<(int, int), NodeId>)
    requires r < m
    requires Stage(at0, right0, down0, contents0, next0, n, m, n, r, 0)
    requires (r + 1, 0) in at0 && rowMarker == at0[(r + 1, 0)]
    requires 0 < n ==> (r, 1) in at0
    requires ulinker0 == if 0 < n then Some(at0[(r, 1)]) else None
    ensures Stage(at, right, down, contents, next, n, m, n, r, n)
    ensures (r + 1, 0) in at && at[(r + 1, 0)] == rowMarker
  {
    right, down, contents, next, at := right0, down0, contents0, next0, at0;
    var dlinker := rowMarker;
    var ulinker := ulinker0;
    for colNum := 0 to n
      invariant Stage(at, right, down, contents, next, n, m, n, r, colNum)
      invariant (r + 1, 0) in at && at[(r + 1, 0)] == rowMarker
      invariant (r + 1, colNum) in at && dlinker == at[(r + 1, colNum)]
      invariant colNum < n ==> (r, colNum + 1) in at
      invariant ulinker == if colNum < n then Some(at[(r, colNum + 1)]) else None
    {
      ghost var at' := at[(r + 1, colNum + 1) := next];
      CellPlaced(at, right, down, contents, next, m, n, r, colNum, at');
      var cell := next;
      next := next + 1;
      contents := contents[cell := Some(0)];
      right := right[dlinker := cell];
      down := down[ulinker.value := cell];
      at := at';
      dlinker := cell;
      ulinker := if ulinker.value in right then Some(right[ulinker.value]) else None;
    }
  }

  /** Position p lies in the (m + 1) x (n + 1) lattice. */
  predicate InRange(p: (int, int), m: nat, n: nat) {
    0 <= p.0 <= m && 0 <= p.1 <= n
  }

  /** Every position of the lattice is made, and nothing else is. */
  ghost predicate Full(at: map<(int, int), NodeId>, m: nat, n: nat) {
    forall p {:trigger InRange(p, m, n)} :: p in at <==> InRange(p, m, n)
  }

  lemma {:induction false} FollowDownMade(lat: Nodes, at: map<(int, int), NodeId>, next: NodeId,
                                          m: nat, n: nat, i: int, j: int, k: int)
    requires Wired(at, lat.right, lat.down, lat.contents, next) && Full(at, m, n)
    requires 0 <= i && 0 <= k && i + k <= m && 0 <= j <= n
    ensures InRange((i, j), m, n) && InRange((i + k, j), m, n)
    ensures Follow(lat.down, Some(at[(i, j)]), k) == Some(at[(i + k, j)])
    decreases k
  {
    if k > 0 {
      assert InRange((i, j), m, n) && InRange(Below((i, j)), m, n);
      DownOf(at, lat.right, lat.down, lat.contents, next, (i, j));
      FollowDownMade(lat, at, next, m, n, i + 1, j, k - 1);
    }
  }

  lemma {:induction false} FollowRightMade(lat: Nodes, at: map<(int, int), NodeId>, next: NodeId,
                                           m: nat, n: nat, i: int, j: int, k: int)
    requires Wired(at, lat.right, lat.down, lat.contents, next) && Full(at, m, n)
    requires 0 <= i <= m && 0 <= j && 0 <= k && j + k <= n
    ensures InRange((i, j), m, n) && InRange((i, j + k), m, n)
    ensures Follow(lat.right, Some(at[(i, j)]), k) == Some(at[(i, j + k)])
    decreases k
  {
    if k > 0 {
      assert InRange((i, j), m, n) && InRange(Beside((i, j)), m, n);
      RightOf(at, lat.right, lat.down, lat.contents, next, (i, j));
      FollowRightMade(lat, at, next, m, n, i, j + 1, k - 1);
    }
  }

  /** Once every position is made, the walk down-then-right reaches the
      node made for it, */
  lemma DownRightAt(lat: Nodes, at: map<(int, int), NodeId>, next: NodeId, m: nat, n: nat, i: int, j: int)
    requires Wired(at, lat.right, lat.down, lat.contents, next) && Full(at, m, n)
    requires (0, 0) in at && lat.head == at[(0, 0)]
    requires 0 <= i <= m && 0 <= j <= n
    ensures InRange((i, j), m, n)
    ensures DownRight(lat, i, j) == Some(at[(i, j)])
  {
    FollowDownMade(lat, at, next, m, n, 0, 0, i);
    FollowRightMade(lat, at, next, m, n, i, 0, j);
  }

  /** and so does the walk right-then-down. */
  lemma RightDownAt(lat: Nodes, at: map<(int, int), NodeId>, next: NodeId, m: nat, n: nat, i: int, j: int)
    requires Wired(at, lat.right, lat.down, lat.contents, next) && Full(at, m, n)
    requires (0, 0) in at && lat.head == at[(0, 0)]
    requires 0 <= i <= m && 0 <= j <= n
    ensures InRange((i, j), m, n)
    ensures RightDown(lat, i, j) == Some(at[(i, j)])
  {
    FollowRightMade(lat, at, next, m, n, 0, 0, j);
    FollowDownMade(lat, at, next, m, n, 0, j, i);
  }

  /** The first conjunct of Linked and the initial contents. */
  lemma WalksMeet(lat: Nodes, at: map<(int, int), NodeId>, next: NodeId, m: nat, n: nat)
    requires Wired(at, lat.right, lat.down, lat.contents, next) && Full(at, m, n)
    requires (0, 0) in at && lat.head == at[(0, 0)]
    ensures forall i, j :: 0 <= i <= m && 0 <= j <= n ==>
      DownRight(lat, i, j).Some? && DownRight(lat, i, j) == RightDown(lat, i, j)
      && DownRight(lat, i, j).value in lat.contents
      && lat.contents[DownRight(lat, i, j).value] == InitialContents(i, j)
  {
    forall i, j | 0 <= i <= m && 0 <= j <= n
      ensures DownRight(lat, i, j).Some? && DownRight(lat, i, j) == RightDown(lat, i, j)
      ensures DownRight(lat, i, j).value in lat.contents
      ensures lat.contents[DownRight(lat, i, j).value] == InitialContents(i, j)
    {
      DownRightAt(lat, at, next, m, n, i, j);
      RightDownAt(lat, at, next, m, n, i, j);
    }
  }

  /** Distinct positions are distinct nodes, and rows and columns end at
      the edge of the lattice. */
  lemma WalksApart(lat: Nodes, at: map<(int, int), NodeId>, next: NodeId, m: nat, n: nat)
    requires Wired(at, lat.right, lat.down, lat.contents, next) && Full(at, m, n)
    requires (0, 0) in at && lat.head == at[(0, 0)]
    ensures forall i, j, i', j' ::
          0 <= i <= m && 0 <= j <= n && 0 <= i' <= m && 0 <= j' <= n && (i != i' || j != j') ==>
          DownRight(lat, i, j) != DownRight(lat, i', j')
  {
    forall i, j, i', j' | 0 <= i <= m && 0 <= j <= n && 0 <= i' <= m && 0 <= j' <= n && (i != i' || j != j')
      ensures DownRight(lat, i, j) != DownRight(lat, i', j')
    {
      DownRightAt(lat, at, next, m, n, i, j);
      DownRightAt(lat, at, next, m, n, i', j');
      assert (i, j) != (i', j');
    }
  }

  lemma WalksEnd(lat: Nodes, at: map<(int, int), NodeId>, next: NodeId, m: nat, n: nat)
    requires Wired(at, lat.right, lat.down, lat.contents, next) && Full(at, m, n)
    requires (0, 0) in at && lat.head == at[(0, 0)]
    ensures forall i :: 0 <= i <= m ==> DownRight(lat, i, n).Some? && DownRight(lat, i, n).value !in lat.right
    ensures forall j :: 0 <= j <= n ==> DownRight(lat, m, j).Some? && DownRight(lat, m, j).value !in lat.down
  {
    forall i | 0 <= i <= m ensures DownRight(lat, i, n).Some? && DownRight(lat, i, n).value !in lat.right {
      DownRightAt(lat, at, next, m, n, i, n);
      assert !InRange(Beside((i, n)), m, n);
      RightOf(at, lat.right, lat.down, lat.contents, next, (i, n));
    }
    forall j | 0 <= j <= n ensures DownRight(lat, m, j).Some? && DownRight(lat, m, j).value !in lat.down {
      DownRightAt(lat, at, next, m, n, m, j);
      assert !InRange(Below((m, j)), m, n);
      DownOf(at, lat.right, lat.down, lat.contents, next, (m, j));
    }
  }

  /** So the finished lattice is linked and holds its initial contents. */
  lemma WalksReach(lat: Nodes, at: map<(int, int), NodeId>, next: NodeId, m: nat, n: nat)
    requires Stage(at, lat.right, lat.down, lat.contents, next, n, m, n, m, 0)
    requires lat.head == 0
    ensures Linked(lat, m, n) && Initial(lat, m, n)
  {
    forall p ensures p in at <==> InRange(p, m, n) {
      assert Made(p, n, m, n, m, 0) <==> InRange(p, m, n);
    }
    WalksMeet(lat, at, next, m, n);
    WalksApart(lat, at, next, m, n);
    WalksEnd(lat, at, next, m, n);
  }

  // ---------------------------------------------------------------------
  // The accessors as written

  /** The contents of the node a walk ended on; a walk that stepped off the
      lattice fails, as the Python AttributeError does. */
  function Read(lat: Nodes, x: Option<NodeId>): (r: Result<Option<int>>)
    ensures r.Ok? <==> x.Some? && x.value in lat.contents
  {
    if x.Some? && x.value in lat.contents then Ok(lat.contents[x.value]) else Err(FellOffLattice)
  }

  /** Matrix.get_val as written: only the upper bounds are checked, then the
      walk goes down i times and right j times. */
  function GetValAsWritten(lat: Nodes, m: nat, n: nat, i: int, j: int): (r: Result<Option<int>>)
    ensures r == Err(DimensionError) <==> i > m || j > n
    ensures r.Ok? ==> DownRight(lat, i, j).Some? && DownRight(lat, i, j).value in lat.contents
  {
    if i > m || j > n then Err(DimensionError) else Read(lat, DownRight(lat, i, j))
  }

  /** Matrix.set_val as written: the same guard and walk, then the node's
      contents are replaced. */
  function SetValAsWritten(lat: Nodes, m: nat, n: nat, i: int, j: int, v: int): (r: Result<Nodes>)
    ensures r == Err(DimensionError) <==> i > m || j > n
    ensures r.Ok? ==> r.value.head == lat.head && r.value.right == lat.right && r.value.down == lat.down
    ensures r.Ok? ==> lat.contents.Keys <= r.value.contents.Keys
    ensures r.Ok? ==> GetValAsWritten(r.value, m, n, i, j) == Ok(Some(v))
  {
    if i > m || j > n then Err(DimensionError)
    else
      var x := DownRight(lat, i, j);
      if x.Some? then Ok(lat.(contents := lat.contents[x.value := Some(v)])) else Err(FellOffLattice)
  }

  /** Matrix.get_col as written: the column number is checked against the
      number of ROWS, then the walk goes right j times and reads the next m
      nodes below. */
  function GetColAsWritten(lat: Nodes, m: nat, n: nat, j: int): (r: Result<seq<Option<int>>>)
    ensures r == Err(DimensionError) <==> j > m
    ensures r.Ok? ==> |r.value| == m
  {
    if j > m then Err(DimensionError) else ReadDown(lat, Follow(lat.right, Some(lat.head), j), m)
  }

  /** Step down, read, `count` times, stopping at the first failure. */
  function ReadDown(lat: Nodes, top: Option<NodeId>, count: nat): (r: Result<seq<Option<int>>>)
    ensures r.Ok? ==> |r.value| == count
    ensures r.Err? ==> r.error == FellOffLattice
    decreases count
  {
    if count == 0 then Ok([])
    else
      var below := Follow(lat.down, top, 1);
      match Read(lat, below)
      case Err(e) => Err(e)
      case Ok(x) =>
        match ReadDown(lat, below, count - 1)
        case Err(e) => Err(e)
        case Ok(xs) => Ok([x] + xs)
  }

  // ---------------------------------------------------------------------
  // What the accessors do on a built lattice

  lemma {:induction false} FollowAdd(links: map<NodeId, NodeId>, x: Option<NodeId>, a: int, b: int)
    requires 0 <= a && 0 <= b
    ensures Follow(links, x, a + b) == Follow(links, Follow(links, x, a), b)
    decreases a
  {
    if a > 0 && x.Some? && x.value in links {
      FollowAdd(links, Some(links[x.value]), a - 1, b);
    } else if a > 0 {
      FollowNone(links, a + b);
      FollowNone(links, b);
    }
  }

  lemma {:induction false} FollowNone(links: map<NodeId, NodeId>, k: int)
    ensures Follow(links, None, k) == None
  {
  }

  /** A write to cell (i, j) is read back from (i, j) and changes no other
      position: the nodes of distinct positions are distinct. */
  lemma GetAfterSetAsWritten(lat: Nodes, m: nat, n: nat, i: int, j: int, v: int, a: int, b: int)
    requires Linked(lat, m, n)
    requires 0 <= i <= m && 0 <= j <= n && 0 <= a <= m && 0 <= b <= n
    ensures SetValAsWritten(lat, m, n, i, j, v).Ok?
    ensures Linked(SetValAsWritten(lat, m, n, i, j, v).value, m, n)
    ensures GetValAsWritten(SetValAsWritten(lat, m, n, i, j, v).value, m, n, a, b)
         == if a == i && b == j then Ok(Some(v)) else GetValAsWritten(lat, m, n, a, b)
  {
    SameLinks(lat, SetValAsWritten(lat, m, n, i, j, v).value, m, n);
  }

  /** Linking depends on the links alone, never on contents, as long as
      every node keeps contents. */
  lemma SameLinks(lat: Nodes, lat': Nodes, m: nat, n: nat)
    requires Linked(lat, m, n)
    requires lat'.head == lat.head && lat'.right == lat.right && lat'.down == lat.down
    requires lat.contents.Keys <= lat'.contents.Keys
    ensures Linked(lat', m, n)
  {
    forall i, j ensures DownRight(lat', i, j) == DownRight(lat, i, j) && RightDown(lat', i, j) == RightDown(lat, i, j) {
    }
  }

  /** No lower bound: a row number of 0 or less passes the guard, and the
      walk stops on the head row, so get_val reads the marker of column j
      and set_val overwrites it, reporting success without changing any
      cell of the matrix. */
  lemma RowZeroReachesMarker(lat: Nodes, m: nat, n: nat, i: int, j: int, v: int)
    requires Linked(lat, m, n) && Initial(lat, m, n)
    requires i <= 0 && 1 <= j <= n
    ensures GetValAsWritten(lat, m, n, i, j) == Ok(Some(j - 1))
    ensures SetValAsWritten(lat, m, n, i, j, v).Ok?
    ensures forall a, b :: 1 <= a <= m && 1 <= b <= n ==>
      GetValAsWritten(SetValAsWritten(lat, m, n, i, j, v).value, m, n, a, b) == GetValAsWritten(lat, m, n, a, b)
  {
    assert DownRight(lat, i, j) == DownRight(lat, 0, j);
    forall a, b | 1 <= a <= m && 1 <= b <= n
      ensures GetValAsWritten(SetValAsWritten(lat, m, n, i, j, v).value, m, n, a, b) == GetValAsWritten(lat, m, n, a, b)
    {
      GetAfterSetAsWritten(lat, m, n, 0, j, v, a, b);
    }
  }

  /** Reading down from the node of (i0, j) yields the next `count` nodes of
      column j. */
  lemma {:induction false} ReadDownColumn(lat: Nodes, m: nat, n: nat, i0: int, j: int, count: nat)
    requires Linked(lat, m, n)
    requires 0 <= i0 && i0 + count <= m && 0 <= j <= n
    ensures var r := ReadDown(lat, RightDown(lat, i0, j), count);
      r.Ok? && |r.value| == count
      && forall k :: 0 <= k < count ==> r.value[k] == lat.contents[DownRight(lat, i0 + 1 + k, j).value]
    decreases count
  {
    if count > 0 {
      FollowAdd(lat.down, Follow(lat.right, Some(lat.head), j), i0, 1);
      assert Follow(lat.down, RightDown(lat, i0, j), 1) == RightDown(lat, i0 + 1, j);
      ReadDownColumn(lat, m, n, i0 + 1, j, count - 1);
    }
  }

  /** get_col of a column that is also a valid row number walks the column. */
  lemma GetColWalksColumn(lat: Nodes, m: nat, n: nat, j: int)
    requires Linked(lat, m, n)
    requires 1 <= j <= n && j <= m
    ensures GetColAsWritten(lat, m, n, j).Ok?
    ensures |GetColAsWritten(lat, m, n, j).value| == m
    ensures forall k :: 0 <= k < m ==>
      Ok(GetColAsWritten(lat, m, n, j).value[k]) == GetValAsWritten(lat, m, n, k + 1, j)
  {
    assert Follow(lat.right, Some(lat.head), j) == RightDown(lat, 0, j);
    ReadDownColumn(lat, m, n, 0, j, m);
  }

  /** The guard of get_col rejects the last columns of a matrix with more
      columns than rows, although they exist. */
  lemma ColGuardRejectsLastColumn(lat: Nodes, m: nat, n: nat, j: int)
    requires Linked(lat, m, n)
    requires m < j <= n
    ensures GetColAsWritten(lat, m, n, j) == Err(DimensionError)
    ensures GetValAsWritten(lat, m, n, 1, j).Ok? || m == 0
  {
  }

  /** In a matrix with more rows than columns, the guard of get_col lets
      through column numbers past the last column, and the walk steps off
      the lattice. */
  lemma ColGuardWalksOffLattice(lat: Nodes, m: nat, n: nat, j: int)
    requires Linked(lat, m, n)
    requires n < j <= m
    ensures GetColAsWritten(lat, m, n, j) == Err(FellOffLattice)
  {
    FollowAdd(lat.right, Some(lat.head), n, j - n);
    assert Follow(lat.right, Some(lat.head), n) == DownRight(lat, 0, n);
    FollowNone(lat.right, j - n - 1);
    FollowNone(lat.down, 1);
  }
}
