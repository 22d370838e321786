/** Value-level specification of the bucket grid: where an object belongs, what a
    cell holds after the movement reindexer, after a rebuild and after the
    visibility walk has swept it, and which activation state the walk leaves
    each object in. The class in `Activator` is proved against these functions. */
module Grid {
  import opened Seqs
  import opened Geometry
  import opened Frustum
  import opened Quadtree

  /** Objects are identified by a number; liveness and positions live in `Scene`. */
  type GameObject = int

  /** What the component reads from the scene graph during one call: the
      container's own position (`transform.position`), whether an object is still
      alive (Unity's overloaded `!= null`) and each object's horizontal position. */
  datatype Scene = Scene(originX: real, originZ: real, pos: map<GameObject, Pos>)

  /** A horizontal position: world `x` and `z`. */
  datatype Pos = Pos(x: real, z: real)

  /** The objects still alive: those with a position. */
  ghost function Live(scene: Scene): iset<GameObject>
  {
    iset g | g in scene.pos
  }

  /** `_size` and the grid side `containerArraySize`. */
  datatype Layout = Layout(size: real, n: nat)

  type ValidLayout = l: Layout | l.size > 0.0 && l.n > 0 witness Layout(1.0, 1)

  /** `CalculateBestBlock`'s boolean result and its two `out` indices. */
  datatype Block = Block(ok: bool, i: int, j: int)

  function RelX(scene: Scene, g: GameObject): real
  {
    if g in scene.pos then scene.pos[g].x - scene.originX else 0.0
  }

  function RelZ(scene: Scene, g: GameObject): real
  {
    if g in scene.pos then scene.pos[g].z - scene.originZ else 0.0
  }

  /** The stretch along one axis whose positions get an index in `[0, n)`. */
  predicate InRegion(lay: ValidLayout, rel: real)
  {
    Edge(lay.size, lay.n, -1) < rel < Edge(lay.size, lay.n, lay.n)
  }

  /** The positions along one axis that truncation sends to index `k >= 0`. */
  predicate InCell(lay: ValidLayout, rel: real, k: int)
  {
    (Edge(lay.size, lay.n, k) <= rel < Edge(lay.size, lay.n, k + 1)) ||
    (k == 0 && Edge(lay.size, lay.n, -1) < rel < Edge(lay.size, lay.n, 0))
  }

  /** The best block of an object when a grid exists: both truncated indices, and
      whether both lie in `[0, n)`. */
  function BestBlock(scene: Scene, lay: ValidLayout, g: GameObject): Block
  {
    var i := BlockIndex(RelX(scene, g), lay.size, lay.n);
    var j := BlockIndex(RelZ(scene, g), lay.size, lay.n);
    Block(0 <= i < lay.n && 0 <= j < lay.n, i, j)
  }

  /** An object is accepted exactly when both of its relative coordinates lie in
      the accepted stretch. */
  lemma BestBlockOk(scene: Scene, lay: ValidLayout, g: GameObject)
    ensures BestBlock(scene, lay, g).ok <==> InRegion(lay, RelX(scene, g)) && InRegion(lay, RelZ(scene, g))
  {
    BlockIndexBounds(RelX(scene, g), lay.size, lay.n);
    BlockIndexBounds(RelZ(scene, g), lay.size, lay.n);
  }

  /** An object's best block is `(a, b)` exactly when `(a, b)` is a cell of the grid
      and the object's position falls in that cell's stretch on both axes. */
  lemma BestBlockIff(scene: Scene, lay: ValidLayout, g: GameObject, a: int, b: int)
    requires 0 <= a && 0 <= b
    ensures BestBlock(scene, lay, g) == Block(true, a, b) <==>
              a < lay.n && b < lay.n && InCell(lay, RelX(scene, g), a) && InCell(lay, RelZ(scene, g), b)
  {
    BlockIndexIff(RelX(scene, g), lay.size, lay.n, a);
    BlockIndexIff(RelZ(scene, g), lay.size, lay.n, b);
  }

  /** The object belongs in cell `(a, b)`. */
  ghost function GoesTo(scene: Scene, lay: ValidLayout, a: int, b: int): iset<GameObject>
  {
    iset x | BestBlock(scene, lay, x) == Block(true, a, b)
  }

  /** The object does not belong in cell `(a, b)`: it moved elsewhere or left the region. */
  ghost function Leaves(scene: Scene, lay: ValidLayout, a: int, b: int): iset<GameObject>
  {
    iset x | x !in GoesTo(scene, lay, a, b)
  }

  /** The entries that are not alive. */
  ghost function Dead(live: iset<GameObject>): iset<GameObject>
  {
    iset x | x !in live
  }

  /** The grid's cell lists as a value, indexed `[i][j]`. */
  type Cells = seq<seq<seq<GameObject>>>

  /** Cell `(a, b)`, or the empty list outside the grid. */
  function Cell(g: Cells, a: int, b: int): seq<GameObject>
  {
    if 0 <= a < |g| && 0 <= b < |g[a]| then g[a][b] else []
  }

  predicate Shaped(g: Cells, n: nat)
  {
    |g| == n && forall a | 0 <= a < n :: |g[a]| == n
  }

  /** Cells `(i, 0)` to `(i, j - 1)` of row `i`, concatenated. */
  function RowFlatten(g: Cells, i: int, j: nat): seq<GameObject>
  {
    if j == 0 then [] else RowFlatten(g, i, j - 1) + Cell(g, i, j - 1)
  }

  /** Rows `0` to `i - 1`, `n` cells each, concatenated in row-major order: the
      `AddRange` loop of `ChangeContainer` when `i == n`. */
  function Flatten(g: Cells, n: nat, i: nat): seq<GameObject>
  {
    if i == 0 then [] else Flatten(g, n, i - 1) + RowFlatten(g, i - 1, n)
  }

  /** Cells `(i, 0)` to `(i, j - 1)` of row `i` other than `(ta, tb)`, concatenated. */
  function RowOthers(g: Cells, ta: int, tb: int, i: int, j: nat): seq<GameObject>
  {
    if j == 0 then []
    else RowOthers(g, ta, tb, i, j - 1) + (if i == ta && j - 1 == tb then [] else Cell(g, i, j - 1))
  }

  /** Rows `0` to `i - 1` without cell `(ta, tb)`, concatenated in row-major order. */
  function Others(g: Cells, n: nat, ta: int, tb: int, i: nat): seq<GameObject>
  {
    if i == 0 then [] else Others(g, n, ta, tb, i - 1) + RowOthers(g, ta, tb, i - 1, n)
  }

  /** Cell `(a, b)` after the movement reindexer: its own objects that still belong
      there, in order, then the objects that belong there taken from the other
      cells in the order the reindexer visits them. */
  ghost function ReindexedCell(g: Cells, scene: Scene, lay: ValidLayout, a: int, b: int): seq<GameObject>
  {
    Filter(Cell(g, a, b), GoesTo(scene, lay, a, b)) + Filter(Others(g, lay.n, a, b, lay.n), GoesTo(scene, lay, a, b))
  }

  /** The whole grid after the movement reindexer. */
  ghost function Reindexed(g: Cells, scene: Scene, lay: ValidLayout): (r: Cells)
    ensures Shaped(r, lay.n)
  {
    seq(lay.n, a requires 0 <= a < lay.n => seq(lay.n, b requires 0 <= b < lay.n => ReindexedCell(g, scene, lay, a, b)))
  }

  /** Every object in the reindexed cell `(a, b)` belongs there. */
  lemma ReindexedPlaces(g: Cells, scene: Scene, lay: ValidLayout, a: int, b: int)
    ensures forall x | x in ReindexedCell(g, scene, lay, a, b) :: BestBlock(scene, lay, x) == Block(true, a, b)
  {
    FilterMembers(Cell(g, a, b), GoesTo(scene, lay, a, b));
    FilterMembers(Others(g, lay.n, a, b, lay.n), GoesTo(scene, lay, a, b));
  }

  lemma {:induction false} RowOthersCount(g: Cells, ta: int, tb: int, i: int, j: nat, x: GameObject)
    requires 0 <= tb
    ensures multiset(RowOthers(g, ta, tb, i, j))[x] + (if ta == i && tb < j then multiset(Cell(g, ta, tb))[x] else 0) ==
            multiset(RowFlatten(g, i, j))[x]
  {
    if j != 0 {
      var c := Cell(g, i, j - 1);
      var e := if i == ta && j - 1 == tb then [] else c;
      RowOthersCount(g, ta, tb, i, j - 1, x);
      assert RowOthers(g, ta, tb, i, j) == RowOthers(g, ta, tb, i, j - 1) + e;
      assert multiset(RowOthers(g, ta, tb, i, j))[x] == multiset(RowOthers(g, ta, tb, i, j - 1))[x] + multiset(e)[x];
      assert RowFlatten(g, i, j) == RowFlatten(g, i, j - 1) + c;
      assert multiset(RowFlatten(g, i, j))[x] == multiset(RowFlatten(g, i, j - 1))[x] + multiset(c)[x];
    }
  }

  lemma CountConcat(a: seq<GameObject>, b: seq<GameObject>, x: GameObject)
    ensures multiset(a + b)[x] == multiset(a)[x] + multiset(b)[x]
  {
  }

  lemma {:induction false} OthersCount(g: Cells, n: nat, ta: int, tb: int, i: nat, x: GameObject)
    requires 0 <= tb < n
    ensures multiset(Others(g, n, ta, tb, i))[x] + (if ta < i then multiset(Cell(g, ta, tb))[x] else 0) ==
            multiset(Flatten(g, n, i))[x]
  {
    if i != 0 {
      var k := i - 1;
      OthersCount(g, n, ta, tb, k, x);
      RowOthersCount(g, ta, tb, k, n, x);
      CountConcat(Others(g, n, ta, tb, k), RowOthers(g, ta, tb, k, n), x);
      CountConcat(Flatten(g, n, k), RowFlatten(g, k, n), x);
    }
  }

  /** The reindexer neither loses nor duplicates: cell `(a, b)` ends up holding
      every occurrence, anywhere in the grid, of each object that belongs in
      `(a, b)`, and nothing else. Objects that belong nowhere (left the region)
      are in no cell. */
  lemma ReindexedCount(g: Cells, scene: Scene, lay: ValidLayout, a: int, b: int, x: GameObject)
    requires 0 <= a < lay.n && 0 <= b < lay.n
    ensures multiset(ReindexedCell(g, scene, lay, a, b))[x] ==
              if BestBlock(scene, lay, x) == Block(true, a, b) then multiset(Flatten(g, lay.n, lay.n))[x] else 0
  {
    var p := GoesTo(scene, lay, a, b);
    var others := Others(g, lay.n, a, b, lay.n);
    OthersCount(g, lay.n, a, b, lay.n, x);
    FilterCount(Cell(g, a, b), p, x);
    FilterCount(others, p, x);
  }

  /** Every held object sits in the cell its position gives. */
  ghost predicate Settled(g: Cells, scene: Scene, lay: ValidLayout)
  {
    forall a, b, x | 0 <= a < lay.n && 0 <= b < lay.n && x in Cell(g, a, b) :: x in GoesTo(scene, lay, a, b)
  }

  lemma {:induction false} RowOthersSettled(g: Cells, scene: Scene, lay: ValidLayout, ta: int, tb: int, i: int, j: nat)
    requires Settled(g, scene, lay) && 0 <= i < lay.n && j <= lay.n
    ensures forall x | x in RowOthers(g, ta, tb, i, j) :: x !in GoesTo(scene, lay, ta, tb)
  {
    if j != 0 {
      RowOthersSettled(g, scene, lay, ta, tb, i, j - 1);
      forall x | x in Cell(g, i, j - 1) && !(i == ta && j - 1 == tb)
        ensures x !in GoesTo(scene, lay, ta, tb)
      {
        assert x in GoesTo(scene, lay, i, j - 1);
      }
    }
  }

  lemma {:induction false} OthersSettled(g: Cells, scene: Scene, lay: ValidLayout, ta: int, tb: int, i: nat)
    requires Settled(g, scene, lay) && i <= lay.n
    ensures forall x | x in Others(g, lay.n, ta, tb, i) :: x !in GoesTo(scene, lay, ta, tb)
  {
    if i != 0 {
      OthersSettled(g, scene, lay, ta, tb, i - 1);
      RowOthersSettled(g, scene, lay, ta, tb, i - 1, lay.n);
    }
  }

  /** Every object held in the `n x n` grid satisfies `P`. */
  ghost predicate AllHeld(g: Cells, n: nat, P: iset<GameObject>)
  {
    forall c, d, x | 0 <= c < n && 0 <= d < n && x in Cell(g, c, d) :: x in P
  }

  /** What a cell holds when the reindexer reaches it comes from the grid it
      started from, so a property of every held object holds of it too. */
  lemma ReachedHeld(g: Cells, scene: Scene, lay: ValidLayout, P: iset<GameObject>, a: nat, b: nat)
    requires AllHeld(g, lay.n, P) && a < lay.n && b < lay.n
    ensures forall x | x in Reached(g, scene, lay, a, b) :: x in P
  {
    WalkedIsStage(g, scene, lay, a, b, a, b);
    StageHeld(g, scene, lay, P, a, b, a, b);
  }

  /** Idempotence on a settled grid: when no object has moved out of its cell the
      reindexer changes nothing. */
  lemma ReindexSettled(g: Cells, scene: Scene, lay: ValidLayout)
    requires Shaped(g, lay.n) && Settled(g, scene, lay)
    ensures Reindexed(g, scene, lay) == g
  {
    var r := Reindexed(g, scene, lay);
    forall a, b | 0 <= a < lay.n && 0 <= b < lay.n
      ensures r[a][b] == g[a][b]
    {
      FilterAll(Cell(g, a, b), GoesTo(scene, lay, a, b));
      OthersSettled(g, scene, lay, a, b, lay.n);
      FilterNone(Others(g, lay.n, a, b, lay.n), GoesTo(scene, lay, a, b));
    }
    forall a | 0 <= a < lay.n ensures r[a] == g[a] {
    }
  }

  /** Reindexing twice is the same as reindexing once. */
  lemma ReindexIdempotent(g: Cells, scene: Scene, lay: ValidLayout)
    ensures Reindexed(Reindexed(g, scene, lay), scene, lay) == Reindexed(g, scene, lay)
  {
    var r := Reindexed(g, scene, lay);
    assert Settled(r, scene, lay) by {
      forall a, b, x | 0 <= a < lay.n && 0 <= b < lay.n && x in Cell(r, a, b)
        ensures x in GoesTo(scene, lay, a, b)
      {
        assert Cell(r, a, b) == ReindexedCell(g, scene, lay, a, b);
        ReindexedPlaces(g, scene, lay, a, b);
      }
    }
    ReindexSettled(r, scene, lay);
  }

  /** Cell `(c, d)` when the movement reindexer, which walks the cells in
      row-major order, reaches cell `(a, b)` (`b <= n`; `(a, n)` is the start of
      row `a + 1`), following the loops step by step: handling cell `(a, b - 1)`
      removed its leavers from it and appended to every other cell those of its
      entries that belong there. */
  ghost function Walked(g: Cells, scene: Scene, lay: ValidLayout, a: nat, b: nat, c: int, d: int): seq<GameObject>
    decreases a, b
  {
    if b == 0 then
      if a == 0 then Cell(g, c, d) else Walked(g, scene, lay, a - 1, lay.n, c, d)
    else
      var cur := Walked(g, scene, lay, a, b - 1, a, b - 1);
      if c == a && d == b - 1 then RemoveAll(cur, Filter(cur, Leaves(scene, lay, a, b - 1)))
      else Walked(g, scene, lay, a, b - 1, c, d) + Filter(cur, GoesTo(scene, lay, c, d))
  }

  /** The objects cell `(a, b)` holds when the reindexer reaches it. */
  ghost function Reached(g: Cells, scene: Scene, lay: ValidLayout, a: nat, b: nat): seq<GameObject>
  {
    Walked(g, scene, lay, a, b, a, b)
  }

  /** The entries the reindexer queues for removal in cell `(a, b)`: those of
      the objects it holds when reached that do not belong there, in order. */
  ghost function Leavers(g: Cells, scene: Scene, lay: ValidLayout, a: nat, b: nat): seq<GameObject>
  {
    Filter(Reached(g, scene, lay, a, b), Leaves(scene, lay, a, b))
  }

  /** Cell `(c, d)` part-way through cell `(a, b)`, once the objects `moved` of
      that cell's list are handled: every other cell has also received those of
      them that belong there. */
  ghost function Progress(g: Cells, scene: Scene, lay: ValidLayout, a: nat, b: nat, moved: seq<GameObject>,
                    c: int, d: int): seq<GameObject>
  {
    if c == a && d == b then Walked(g, scene, lay, a, b, c, d)
    else Walked(g, scene, lay, a, b, c, d) + Filter(moved, GoesTo(scene, lay, c, d))
  }

  /** Nothing handled yet in cell `(a, b)`. */
  lemma ProgressEmpty(g: Cells, scene: Scene, lay: ValidLayout, a: nat, b: nat, c: int, d: int)
    ensures Progress(g, scene, lay, a, b, [], c, d) == Walked(g, scene, lay, a, b, c, d)
  {
    assert Walked(g, scene, lay, a, b, c, d) + [] == Walked(g, scene, lay, a, b, c, d);
  }

  /** Handling one more object `x` of cell `(a, b)` appends it to the one other cell
      it belongs in, if any, and changes nothing else. */
  lemma ProgressStep(g: Cells, scene: Scene, lay: ValidLayout, a: nat, b: nat, moved: seq<GameObject>,
                     x: GameObject, c: int, d: int)
    ensures Progress(g, scene, lay, a, b, moved + [x], c, d) ==
            Progress(g, scene, lay, a, b, moved, c, d) +
            (if !(c == a && d == b) && BestBlock(scene, lay, x) == Block(true, c, d) then [x] else [])
  {
    if !(c == a && d == b) {
      FilterSnoc(moved, x, GoesTo(scene, lay, c, d));
    }
  }

  /** The reindexer's effect described without its removal loop: cell `(c, d)`
      when the walk reaches `(a, b)`, where handling a cell keeps of its list only
      the objects that belong there and appends to every other cell the objects of
      the handled cell's own list that belong in it. */
  ghost function Stage(g: Cells, scene: Scene, lay: ValidLayout, a: nat, b: nat, c: int, d: int): seq<GameObject>
    decreases a, b
  {
    if b == 0 then
      if a == 0 then Cell(g, c, d) else Stage(g, scene, lay, a - 1, lay.n, c, d)
    else if c == a && d == b - 1 then
      Filter(Stage(g, scene, lay, a, b - 1, c, d), GoesTo(scene, lay, c, d))
    else
      Stage(g, scene, lay, a, b - 1, c, d) + Filter(Cell(g, a, b - 1), GoesTo(scene, lay, c, d))
  }

  /** Everything a cell holds during the walk comes from the grid it started
      from, so a property of every held object holds of it too. */
  lemma {:induction false} StageHeld(g: Cells, scene: Scene, lay: ValidLayout, P: iset<GameObject>,
                                     a: nat, b: nat, c: int, d: int)
    requires AllHeld(g, lay.n, P) && a < lay.n && b <= lay.n && 0 <= c < lay.n && 0 <= d < lay.n
    ensures forall x | x in Stage(g, scene, lay, a, b, c, d) :: x in P
    decreases a, b
  {
    if b == 0 {
      if a != 0 {
        StageHeld(g, scene, lay, P, a - 1, lay.n, c, d);
      }
    } else {
      StageHeld(g, scene, lay, P, a, b - 1, c, d);
      FilterMembers(Stage(g, scene, lay, a, b - 1, c, d), GoesTo(scene, lay, c, d));
      FilterMembers(Cell(g, a, b - 1), GoesTo(scene, lay, c, d));
    }
  }

  /** A cell the walk has not handled yet has received only objects that belong
      in it, so what of it belongs in another cell `(e, f)` comes from its own
      list. */
  lemma {:induction false} StageUnhandled(g: Cells, scene: Scene, lay: ValidLayout, a: nat, b: nat,
                                          c: int, d: int, e: int, f: int)
    requires b <= lay.n && !(c < a || (c == a && d < b)) && !(e == c && f == d)
    ensures Filter(Stage(g, scene, lay, a, b, c, d), GoesTo(scene, lay, e, f)) ==
            Filter(Cell(g, c, d), GoesTo(scene, lay, e, f))
    decreases a, b
  {
    if b == 0 {
      if a != 0 {
        StageUnhandled(g, scene, lay, a - 1, lay.n, c, d, e, f);
      }
    } else {
      var k := b - 1;
      var pe := GoesTo(scene, lay, e, f);
      var before := Stage(g, scene, lay, a, k, c, d);
      var moved := Filter(Cell(g, a, k), GoesTo(scene, lay, c, d));
      assert Stage(g, scene, lay, a, b, c, d) == before + moved;
      StageUnhandled(g, scene, lay, a, k, c, d, e, f);
      FilterConcat(before, moved, pe);
      FilterMembers(Cell(g, a, k), GoesTo(scene, lay, c, d));
      FilterNone(moved, pe);
      assert Filter(Cell(g, c, d), pe) + [] == Filter(Cell(g, c, d), pe);
    }
  }

  /** The step-by-step reindexer agrees with its description: removing the
      queued leavers one by one with `List<T>.Remove` leaves exactly the objects
      that belong in the cell, and the objects a handled cell sends elsewhere
      come from its own list. */
  lemma {:induction false} WalkedIsStage(g: Cells, scene: Scene, lay: ValidLayout, a: nat, b: nat, c: int, d: int)
    requires b <= lay.n
    ensures Walked(g, scene, lay, a, b, c, d) == Stage(g, scene, lay, a, b, c, d)
    decreases a, b, 1
  {
    if b == 0 {
      if a != 0 {
        WalkedIsStage(g, scene, lay, a - 1, lay.n, c, d);
      }
    } else if c == a && d == b - 1 {
      WalkedDone(g, scene, lay, a, b);
    } else {
      WalkedPassed(g, scene, lay, a, b, c, d);
    }
  }

  /** The induction step of `WalkedIsStage` for the cell just handled. */
  lemma {:induction false} WalkedDone(g: Cells, scene: Scene, lay: ValidLayout, a: nat, b: nat)
    requires 0 < b <= lay.n
    ensures Walked(g, scene, lay, a, b, a, b - 1) == Stage(g, scene, lay, a, b, a, b - 1)
    decreases a, b, 0
  {
    var k := b - 1;
    var cur := Stage(g, scene, lay, a, k, a, k);
    var kept := Filter(cur, GoesTo(scene, lay, a, k));
    assert Walked(g, scene, lay, a, b, a, k) == kept by {
      WalkedIsStage(g, scene, lay, a, k, a, k);
      assert Walked(g, scene, lay, a, b, a, k) == RemoveAll(cur, Filter(cur, Leaves(scene, lay, a, k)));
      DropLeavers(cur, scene, lay, a, k);
    }
    assert Stage(g, scene, lay, a, b, a, k) == kept;
  }

  /** Removing the leavers of a list one by one keeps exactly the objects that
      belong in the cell. */
  lemma DropLeavers(s: seq<GameObject>, scene: Scene, lay: ValidLayout, a: int, b: int)
    ensures RemoveAll(s, Filter(s, Leaves(scene, lay, a, b))) == Filter(s, GoesTo(scene, lay, a, b))
  {
    RemoveLeavers(s, GoesTo(scene, lay, a, b), Leaves(scene, lay, a, b));
  }

  /** The induction step of `WalkedIsStage` for every other cell. */
  lemma {:induction false} WalkedPassed(g: Cells, scene: Scene, lay: ValidLayout, a: nat, b: nat, c: int, d: int)
    requires 0 < b <= lay.n && !(c == a && d == b - 1)
    ensures Walked(g, scene, lay, a, b, c, d) == Stage(g, scene, lay, a, b, c, d)
    decreases a, b, 0
  {
    var k := b - 1;
    WalkedIsStage(g, scene, lay, a, k, a, k);
    WalkedIsStage(g, scene, lay, a, k, c, d);
    var p := GoesTo(scene, lay, c, d);
    var before := Stage(g, scene, lay, a, k, c, d);
    assert Walked(g, scene, lay, a, b, c, d) == before + Filter(Stage(g, scene, lay, a, k, a, k), p);
    StageUnhandled(g, scene, lay, a, k, a, k, c, d);
    assert Stage(g, scene, lay, a, b, c, d) == before + Filter(Cell(g, a, k), p);
  }

  /** The walk in closed form: a handled cell has kept its objects that belong
      there, and every cell has received, in the walk's order, the objects that
      belong there from the cells other than itself handled before `(a, b)`. */
  ghost function Closed(g: Cells, scene: Scene, lay: ValidLayout, a: nat, b: nat, c: int, d: int): seq<GameObject>
  {
    var p := GoesTo(scene, lay, c, d);
    (if c < a || (c == a && d < b) then Filter(Cell(g, c, d), p) else Cell(g, c, d)) +
    Filter(Others(g, lay.n, c, d, a) + RowOthers(g, c, d, a, b), p)
  }

  lemma ClosedStart(g: Cells, scene: Scene, lay: ValidLayout, c: int, d: int)
    requires 0 <= c
    ensures Closed(g, scene, lay, 0, 0, c, d) == Cell(g, c, d)
  {
    assert Others(g, lay.n, c, d, 0) + RowOthers(g, c, d, 0, 0) == [];
    assert Cell(g, c, d) + [] == Cell(g, c, d);
  }

  lemma ClosedNextRow(g: Cells, scene: Scene, lay: ValidLayout, a: nat, c: int, d: int)
    requires 0 < a && 0 <= d < lay.n
    ensures Closed(g, scene, lay, a - 1, lay.n, c, d) == Closed(g, scene, lay, a, 0, c, d)
  {
    var o := Others(g, lay.n, c, d, a);
    assert o == Others(g, lay.n, c, d, a - 1) + RowOthers(g, c, d, a - 1, lay.n);
    assert RowOthers(g, c, d, a, 0) == [];
    assert o + [] == o;
  }

  lemma ClosedDone(g: Cells, scene: Scene, lay: ValidLayout, a: nat, b: nat)
    requires 0 < b
    ensures Filter(Closed(g, scene, lay, a, b - 1, a, b - 1), GoesTo(scene, lay, a, b - 1)) ==
            Closed(g, scene, lay, a, b, a, b - 1)
  {
    var k := b - 1;
    var p := GoesTo(scene, lay, a, k);
    var pre := Others(g, lay.n, a, k, a) + RowOthers(g, a, k, a, k);
    var arrived := Filter(pre, p);
    var e := Cell(g, a, k);
    assert Closed(g, scene, lay, a, k, a, k) == e + arrived;
    assert Filter(e + arrived, p) == Filter(e, p) + arrived by {
      FilterConcat(e, arrived, p);
      FilterMembers(pre, p);
      FilterAll(arrived, p);
    }
    assert Closed(g, scene, lay, a, b, a, k) == Filter(e, p) + arrived by {
      RowOthersSkip(g, a, k, a, b);
    }
  }

  lemma ClosedPassed(g: Cells, scene: Scene, lay: ValidLayout, a: nat, b: nat, c: int, d: int)
    requires 0 < b && !(c == a && d == b - 1)
    ensures Closed(g, scene, lay, a, b - 1, c, d) + Filter(Cell(g, a, b - 1), GoesTo(scene, lay, c, d)) ==
            Closed(g, scene, lay, a, b, c, d)
  {
    var k := b - 1;
    var p := GoesTo(scene, lay, c, d);
    var kept := if c < a || (c == a && d < k) then Filter(Cell(g, c, d), p) else Cell(g, c, d);
    var o := Others(g, lay.n, c, d, a);
    var r := RowOthers(g, c, d, a, k);
    var e := Cell(g, a, k);
    assert Closed(g, scene, lay, a, k, c, d) == kept + Filter(o + r, p);
    RowOthersPass(g, c, d, a, b);
    AppendAssoc(o, r, e);
    FilterConcat(o + r, e, p);
    AppendAssoc(kept, Filter(o + r, p), Filter(e, p));
    assert Closed(g, scene, lay, a, b, c, d) == kept + Filter(o + (r + e), p);
  }

  /** Reaching cell `(ta, tb)` itself adds nothing to the row's others. */
  lemma RowOthersSkip(g: Cells, ta: int, tb: int, a: int, b: nat)
    requires 0 < b && ta == a && tb == b - 1
    ensures RowOthers(g, ta, tb, a, b) == RowOthers(g, ta, tb, a, b - 1)
  {
    assert RowOthers(g, ta, tb, a, b - 1) + [] == RowOthers(g, ta, tb, a, b - 1);
  }

  /** Passing a cell other than `(ta, tb)` adds its list to the row's others. */
  lemma RowOthersPass(g: Cells, ta: int, tb: int, a: int, b: nat)
    requires 0 < b && !(ta == a && tb == b - 1)
    ensures RowOthers(g, ta, tb, a, b) == RowOthers(g, ta, tb, a, b - 1) + Cell(g, a, b - 1)
  {
  }

  /** The reference walk agrees with the closed form at every point. */
  lemma {:induction false} StageClosed(g: Cells, scene: Scene, lay: ValidLayout, a: nat, b: nat, c: int, d: int)
    requires b <= lay.n && 0 <= c && 0 <= d < lay.n
    ensures Stage(g, scene, lay, a, b, c, d) == Closed(g, scene, lay, a, b, c, d)
    decreases a, b
  {
    if b == 0 {
      if a == 0 {
        ClosedStart(g, scene, lay, c, d);
      } else {
        StageClosed(g, scene, lay, a - 1, lay.n, c, d);
        ClosedNextRow(g, scene, lay, a, c, d);
      }
    } else {
      StageClosed(g, scene, lay, a, b - 1, c, d);
      if c == a && d == b - 1 {
        ClosedDone(g, scene, lay, a, b);
      } else {
        ClosedPassed(g, scene, lay, a, b, c, d);
      }
    }
  }

  /** After the last row every cell holds its reindexed list. */
  lemma WalkedEnd(g: Cells, scene: Scene, lay: ValidLayout, c: int, d: int)
    requires 0 <= c < lay.n && 0 <= d < lay.n
    ensures Walked(g, scene, lay, lay.n, 0, c, d) == ReindexedCell(g, scene, lay, c, d)
  {
    WalkedIsStage(g, scene, lay, lay.n, 0, c, d);
    StageClosed(g, scene, lay, lay.n, 0, c, d);
    assert Others(g, lay.n, c, d, lay.n) + RowOthers(g, c, d, lay.n, 0) == Others(g, lay.n, c, d, lay.n);
  }

  /** Every object in the first `j` cells of row `i` satisfies `P` when every held
      object does. */
  lemma {:induction false} RowFlattenHeld(g: Cells, n: nat, P: iset<GameObject>, i: int, j: nat)
    requires AllHeld(g, n, P) && 0 <= i < n && j <= n
    ensures forall x | x in RowFlatten(g, i, j) :: x in P
  {
    if j != 0 {
      var k := j - 1;
      RowFlattenHeld(g, n, P, i, k);
      forall x | x in RowFlatten(g, i, j) ensures x in P {
        assert x in RowFlatten(g, i, k) || x in Cell(g, i, k);
      }
    }
  }

  /** Every object of the flattened grid satisfies `P` when every held object does. */
  lemma {:induction false} FlattenHeld(g: Cells, n: nat, P: iset<GameObject>, i: nat)
    requires AllHeld(g, n, P) && i <= n
    ensures forall x | x in Flatten(g, n, i) :: x in P
  {
    if i != 0 {
      var k := i - 1;
      FlattenHeld(g, n, P, k);
      RowFlattenHeld(g, n, P, k, n);
      forall x | x in Flatten(g, n, i) ensures x in P {
        assert x in Flatten(g, n, k) || x in RowFlatten(g, k, n);
      }
    }
  }

  /** The number of objects of `xs` that `AddGameObject` places before the first
      one without a cell, whose `InvalidOperationException` ends the loop. */
  function FirstMisfit(xs: seq<GameObject>, scene: Scene, lay: ValidLayout): (m: nat)
    ensures m <= |xs|
    ensures forall k | 0 <= k < m :: BestBlock(scene, lay, xs[k]).ok
    ensures m < |xs| ==> !BestBlock(scene, lay, xs[m]).ok
  {
    if xs == [] || !BestBlock(scene, lay, xs[0]).ok then 0
    else 1 + FirstMisfit(xs[1..], scene, lay)
  }

  /** Rebuilding the grid by adding `xs` one by one to empty cells, when every
      object fits: each object lands, with all its occurrences, in exactly the
      cell its position gives. */
  lemma RebuildPlacesEach(xs: seq<GameObject>, scene: Scene, lay: ValidLayout, x: GameObject, a: int, b: int)
    requires 0 <= a < lay.n && 0 <= b < lay.n
    ensures multiset(Filter(xs, GoesTo(scene, lay, a, b)))[x] ==
              if BestBlock(scene, lay, x) == Block(true, a, b) then multiset(xs)[x] else 0
  {
    FilterCount(xs, GoesTo(scene, lay, a, b), x);
  }

  /** A cell after the walk has handled it: every live entry was switched, every
      dead entry queued for removal after the removals already pending in `pending`,
      and every queued entry removed with `List<T>.Remove`. */
  ghost function Swept(c: seq<GameObject>, pending: seq<GameObject>, live: iset<GameObject>): seq<GameObject>
  {
    RemoveAll(c, pending + Filter(c, Dead(live)))
  }

  /** With nothing pending, sweeping drops exactly the dead entries and keeps the
      live ones in their order. */
  lemma SweptClean(c: seq<GameObject>, live: iset<GameObject>)
    ensures Swept(c, [], live) == Filter(c, live)
  {
    assert [] + Filter(c, Dead(live)) == Filter(c, Dead(live));
    RemoveSelected(c, [], live, Dead(live));
    assert c + [] == c;
    assert Filter(c, live) + [] == Filter(c, live);
  }

  /** A concrete case of the stale pending list: a 2 x 2 grid of side 4 centred on
      the origin, one live object `7` at `(-1, -1)` still listed in cell `(1, 1)`.
      The reindexer moves it to cell `(0, 0)` and leaves `[7]` queued after the last
      cell; when the next walk sweeps cell `(0, 0)` first with that queue, the live
      object is removed from the grid, whereas an empty queue keeps it. */
  lemma StaleQueueDropsMovedObject()
    ensures var scene := Scene(0.0, 0.0, map[7 := Pos(-1.0, -1.0)]);
            var lay: ValidLayout := Layout(4.0, 2);
            var g: Cells := [[[], []], [[], [7]]];
            var moved := ReindexedCell(g, scene, lay, 0, 0);
            var stale := Leavers(g, scene, lay, 1, 1);
            7 in Live(scene) && moved == [7] && stale == [7] &&
            Swept(moved, stale, Live(scene)) == [] && Swept(moved, [], Live(scene)) == [7]
  {
    var scene := Scene(0.0, 0.0, map[7 := Pos(-1.0, -1.0)]);
    var lay: ValidLayout := Layout(4.0, 2);
    var g: Cells := [[[], []], [[], [7]]];
    var live := Live(scene);
    assert BestBlock(scene, lay, 7) == Block(true, 0, 0) by {
      assert BlockSize(4.0, 2) == 2.0;
      assert (RelX(scene, 7) + 4.0 / 2.0) / 2.0 == 0.5;
      assert TruncateToInt(0.5) == 0;
    }
    assert 7 in GoesTo(scene, lay, 0, 0) && 7 in Leaves(scene, lay, 1, 1);
    assert Others(g, 2, 0, 0, 2) == [7] by {
      assert RowOthers(g, 0, 0, 0, 2) == [];
      assert RowOthers(g, 0, 0, 1, 2) == [7];
      assert Others(g, 2, 0, 0, 1) == [];
    }
    assert ReindexedCell(g, scene, lay, 0, 0) == [7] by {
      assert Filter([7], GoesTo(scene, lay, 0, 0)) == [7];
    }
    assert Reached(g, scene, lay, 1, 1) == [7] by {
      WalkedIsStage(g, scene, lay, 1, 1, 1, 1);
      StageClosed(g, scene, lay, 1, 1, 1, 1);
      assert Others(g, 2, 1, 1, 1) == [] by {
        assert RowOthers(g, 1, 1, 0, 2) == [];
      }
      assert RowOthers(g, 1, 1, 1, 1) == [];
      assert Filter([], GoesTo(scene, lay, 1, 1)) == [];
    }
    assert Leavers(g, scene, lay, 1, 1) == [7] by {
      assert Filter([7], Leaves(scene, lay, 1, 1)) == [7];
    }
    assert Filter([7], Dead(live)) == [];
    assert Swept([7], [7], live) == [] by {
      assert [7] + Filter([7], Dead(live)) == [7];
    }
    SweptClean([7], live);
    assert Filter([7], live) == [7];
  }

  /** The grid with every destroyed entry dropped, as a clean walk leaves it. */
  ghost function Purged(g: Cells, n: nat, live: iset<GameObject>): (r: Cells)
    ensures Shaped(r, n)
  {
    seq(n, a requires 0 <= a < n => seq(n, b requires 0 <= b < n => Filter(Cell(g, a, b), live)))
  }

  /** After the purge only live objects are held. */
  lemma PurgedHeld(g: Cells, n: nat, live: iset<GameObject>)
    ensures AllHeld(Purged(g, n, live), n, live)
  {
    forall c, d | 0 <= c < n && 0 <= d < n
      ensures forall x | x in Cell(Purged(g, n, live), c, d) :: x in live
    {
      FilterMembers(Cell(g, c, d), live);
    }
  }

  /** The `SetActive(visible)` calls on the live entries of one cell, in order. */
  ghost function Activated(active: map<GameObject, bool>, c: seq<GameObject>, live: iset<GameObject>,
                     visible: bool): map<GameObject, bool>
  {
    if c == [] then active
    else
      var before := Activated(active, c[..|c| - 1], live, visible);
      if c[|c| - 1] in live then before[c[|c| - 1] := visible] else before
  }

  /** The state after switching one cell: every live object of the cell is set to
      `visible`, every other object keeps its state. */
  ghost function Switched(active: map<GameObject, bool>, c: seq<GameObject>, live: iset<GameObject>,
                          visible: bool): map<GameObject, bool>
  {
    active + map x | x in c && x in live :: visible
  }

  /** The `SetActive` calls of one cell, made in order, leave the state `Switched`
      describes. */
  lemma {:induction false} ActivatedMap(active: map<GameObject, bool>, c: seq<GameObject>,
                                        live: iset<GameObject>, visible: bool)
    ensures Activated(active, c, live, visible) == Switched(active, c, live, visible)
  {
    if c != [] {
      var c' := c[..|c| - 1];
      var y := c[|c| - 1];
      ActivatedMap(active, c', live, visible);
      assert c == c' + [y];
      var m' := map x | x in c' && x in live :: visible;
      var m := map x | x in c && x in live :: visible;
      if y in live {
        assert m == m'[y := visible];
      } else {
        assert m == m';
      }
    }
  }

  /** The `SetActive` calls of a whole walk: cell by cell in visit order, each cell
      read from `g`. */
  ghost function ApplyVisits(active: map<GameObject, bool>, g: Cells, vs: seq<Visit>,
                       live: iset<GameObject>): map<GameObject, bool>
  {
    if vs == [] then active
    else
      var v := vs[|vs| - 1];
      Activated(ApplyVisits(active, g, vs[..|vs| - 1], live), Cell(g, v.i, v.j), live, v.visible)
  }

  /** One more visit switches the live objects of its cell. */
  lemma ApplyVisitsSnoc(active: map<GameObject, bool>, g: Cells, vs: seq<Visit>, v: Visit, live: iset<GameObject>)
    ensures ApplyVisits(active, g, vs + [v], live) == Activated(ApplyVisits(active, g, vs, live), Cell(g, v.i, v.j), live, v.visible)
  {
    assert (vs + [v])[..|vs|] == vs;
  }

  /** One more visit, stated for a walk whose state so far is `act` and whose
      next cell holds `c`. */
  lemma ApplyVisitsStep(active: map<GameObject, bool>, g: Cells, vs: seq<Visit>, v: Visit, live: iset<GameObject>,
                        act: map<GameObject, bool>, c: seq<GameObject>)
    requires act == ApplyVisits(active, g, vs, live) && c == Cell(g, v.i, v.j)
    ensures Activated(act, c, live, v.visible) == ApplyVisits(active, g, vs + [v], live)
  {
    ApplyVisitsSnoc(active, g, vs, v, live);
  }

  lemma {:induction false} ApplyVisitsConcat(active: map<GameObject, bool>, g: Cells, us: seq<Visit>,
                                             vs: seq<Visit>, live: iset<GameObject>)
    ensures ApplyVisits(active, g, us + vs, live) == ApplyVisits(ApplyVisits(active, g, us, live), g, vs, live)
    decreases |vs|
  {
    if vs == [] {
      assert us + vs == us;
    } else {
      var vs' := vs[..|vs| - 1];
      assert (us + vs)[..|us + vs| - 1] == us + vs';
      ApplyVisitsConcat(active, g, us, vs', live);
    }
  }

  /** The `SetActive` calls of the inner `for (z ...)` loop over row `i`, from
      column `jStart` up to column `j - 1`. */
  ghost function RowActivated(active: map<GameObject, bool>, g: Cells, i: int, jStart: int, j: int,
                        live: iset<GameObject>, visible: bool): map<GameObject, bool>
    decreases j - jStart
  {
    if j <= jStart then active
    else Activated(RowActivated(active, g, i, jStart, j - 1, live, visible), Cell(g, i, j - 1), live, visible)
  }

  /** One more cell of the row loop: `post` is the state after cell `(i, j)` of a
      row whose state before it was `pre`. */
  lemma RowActivatedNext(active: map<GameObject, bool>, g: Cells, i: int, jStart: int, j: int,
                         live: iset<GameObject>, visible: bool, pre: map<GameObject, bool>, post: map<GameObject, bool>)
    requires jStart <= j
    requires pre == RowActivated(active, g, i, jStart, j, live, visible)
    requires post == Activated(pre, Cell(g, i, j), live, visible)
    ensures post == RowActivated(active, g, i, jStart, j + 1, live, visible)
  {
  }

  /** The row loop performs the walk over the row's visits. */
  lemma {:induction false} RowActivatedIsWalk(active: map<GameObject, bool>, g: Cells, i: int, jStart: int, j: int,
                                              live: iset<GameObject>, visible: bool)
    ensures RowActivated(active, g, i, jStart, j, live, visible) ==
            ApplyVisits(active, g, RowVisits(i, jStart, j, visible), live)
    decreases j - jStart
  {
    if j > jStart {
      var k := j - 1;
      RowActivatedIsWalk(active, g, i, jStart, k, live, visible);
      ApplyVisitsSnoc(active, g, RowVisits(i, jStart, k, visible), Visit(i, k, visible), live);
    }
  }

  /** The `SetActive` calls of the nested loops over the rows `r.iStart` up to
      `i - 1` of a range. */
  ghost function RangeActivated(active: map<GameObject, bool>, g: Cells, r: Range, i: int,
                          live: iset<GameObject>, visible: bool): map<GameObject, bool>
    decreases i - r.iStart
  {
    if i <= r.iStart then active
    else RowActivated(RangeActivated(active, g, r, i - 1, live, visible), g, i - 1, r.jStart, r.jEnd, live, visible)
  }

  /** One more row of the nested loops. */
  lemma RangeActivatedNext(active: map<GameObject, bool>, g: Cells, r: Range, i: int,
                           live: iset<GameObject>, visible: bool, pre: map<GameObject, bool>, post: map<GameObject, bool>)
    requires r.iStart <= i
    requires pre == RangeActivated(active, g, r, i, live, visible)
    requires post == RowActivated(pre, g, i, r.jStart, r.jEnd, live, visible)
    ensures post == RangeActivated(active, g, r, i + 1, live, visible)
  {
  }

  /** The nested loops perform the walk over the range's visits. */
  lemma {:induction false} RangeActivatedIsWalk(active: map<GameObject, bool>, g: Cells, r: Range, i: int,
                                                live: iset<GameObject>, visible: bool)
    requires r.iStart <= i
    ensures RangeActivated(active, g, r, i, live, visible) ==
            ApplyVisits(active, g, RangeVisits(r.(iEnd := i), visible), live)
    decreases i - r.iStart
  {
    if i == r.iStart {
      assert RangeVisits(r.(iEnd := i), visible) == [];
    } else {
      var k := i - 1;
      RangeActivatedIsWalk(active, g, r, k, live, visible);
      RangeVisitsRow(r, k, visible);
      var done := RangeVisits(r.(iEnd := k), visible);
      var row := RowVisits(k, r.jStart, r.jEnd, visible);
      ApplyVisitsConcat(active, g, done, row, live);
      RowActivatedIsWalk(ApplyVisits(active, g, done, live), g, k, r.jStart, r.jEnd, live, visible);
    }
  }

  /** The walk reads only the cells it visits. */
  lemma {:induction false} ApplyVisitsAgree(active: map<GameObject, bool>, g: Cells, h: Cells, vs: seq<Visit>,
                                            live: iset<GameObject>)
    requires forall k | 0 <= k < |vs| :: Cell(g, vs[k].i, vs[k].j) == Cell(h, vs[k].i, vs[k].j)
    ensures ApplyVisits(active, g, vs, live) == ApplyVisits(active, h, vs, live)
    decreases |vs|
  {
    if vs != [] {
      var vs' := vs[..|vs| - 1];
      assert forall k | 0 <= k < |vs'| :: vs'[k] == vs[k];
      ApplyVisitsAgree(active, g, h, vs', live);
    }
  }

  /** The last visit wins: an object that is live in the cell of visit `k` and in
      none of the later visited cells ends in the state visit `k` gave it. */
  lemma {:induction false} ApplyVisitsLast(active: map<GameObject, bool>, g: Cells, vs: seq<Visit>,
                                           live: iset<GameObject>, x: GameObject, k: int)
    requires 0 <= k < |vs| && x in live && x in Cell(g, vs[k].i, vs[k].j)
    requires forall m | k < m < |vs| :: x !in Cell(g, vs[m].i, vs[m].j)
    ensures x in ApplyVisits(active, g, vs, live)
    ensures ApplyVisits(active, g, vs, live)[x] == vs[k].visible
    decreases |vs|
  {
    var vs' := vs[..|vs| - 1];
    var v := vs[|vs| - 1];
    ActivatedMap(ApplyVisits(active, g, vs', live), Cell(g, v.i, v.j), live, v.visible);
    if k < |vs| - 1 {
      ApplyVisitsLast(active, g, vs', live, x, k);
    }
  }

  /** An object that is in none of the visited cells keeps its state. */
  lemma {:induction false} ApplyVisitsUntouched(active: map<GameObject, bool>, g: Cells, vs: seq<Visit>,
                                                live: iset<GameObject>, x: GameObject)
    requires forall m | 0 <= m < |vs| :: x !in Cell(g, vs[m].i, vs[m].j)
    ensures x in ApplyVisits(active, g, vs, live) <==> x in active
    ensures x in active ==> ApplyVisits(active, g, vs, live)[x] == active[x]
    decreases |vs|
  {
    if vs != [] {
      var vs' := vs[..|vs| - 1];
      var v := vs[|vs| - 1];
      ActivatedMap(ApplyVisits(active, g, vs', live), Cell(g, v.i, v.j), live, v.visible);
      ApplyVisitsUntouched(active, g, vs', live, x);
    }
  }

  /** The `SetActive` calls of `SetAreaActiveState` over range `r`, following its
      recursion: a rejected range and a visible leaf range are handled by the
      nested loops, a visible larger range by the four quadrants in turn. */
  ghost function WalkActivated(active: map<GameObject, bool>, g: Cells, target: Option<Camera>, main: Option<Camera>,
                               f: Frame, r: Range, live: iset<GameObject>): map<GameObject, bool>
    requires r.WellFormed()
    decreases r.Extent()
  {
    var visible := RectInCamera(target, main, Corners(f, r));
    if visible && !r.IsLeaf() then
      var qs := Quadrants(r);
      var a0 := WalkActivated(active, g, target, main, f, qs[0], live);
      var a1 := WalkActivated(a0, g, target, main, f, qs[1], live);
      var a2 := WalkActivated(a1, g, target, main, f, qs[2], live);
      WalkActivated(a2, g, target, main, f, qs[3], live)
    else RangeActivated(active, g, r, r.iEnd, live, visible)
  }

  /** The recursion performs the walk over `SetAreaActiveState`'s trace: the cells
      of `Visits`, in order, each switched to the verdict recorded for it. */
  lemma {:induction false} WalkActivatedIsWalk(active: map<GameObject, bool>, g: Cells, target: Option<Camera>,
                                               main: Option<Camera>, f: Frame, r: Range, live: iset<GameObject>)
    requires r.WellFormed()
    ensures WalkActivated(active, g, target, main, f, r, live) ==
            ApplyVisits(active, g, Visits(target, main, f, r), live)
    decreases r.Extent()
  {
    var visible := RectInCamera(target, main, Corners(f, r));
    if visible && !r.IsLeaf() {
      var qs := Quadrants(r);
      var v0, v1 := Visits(target, main, f, qs[0]), Visits(target, main, f, qs[1]);
      var v2, v3 := Visits(target, main, f, qs[2]), Visits(target, main, f, qs[3]);
      var a0 := WalkActivated(active, g, target, main, f, qs[0], live);
      var a1 := WalkActivated(a0, g, target, main, f, qs[1], live);
      var a2 := WalkActivated(a1, g, target, main, f, qs[2], live);
      WalkActivatedIsWalk(active, g, target, main, f, qs[0], live);
      WalkActivatedIsWalk(a0, g, target, main, f, qs[1], live);
      WalkActivatedIsWalk(a1, g, target, main, f, qs[2], live);
      WalkActivatedIsWalk(a2, g, target, main, f, qs[3], live);
      ApplyVisitsConcat(active, g, v0, v1, live);
      ApplyVisitsConcat(active, g, v0 + v1, v2, live);
      ApplyVisitsConcat(active, g, v0 + v1 + v2, v3, live);
    } else {
      assert r.(iEnd := r.iEnd) == r;
      RangeActivatedIsWalk(active, g, r, r.iEnd, live, visible);
    }
  }

  /** An object that is live and held in exactly one cell `(a, b)` of the walked
      range ends in the state of the verdict the walk applies to `(a, b)`. */
  lemma WalkVerdict(active: map<GameObject, bool>, g: Cells, target: Option<Camera>, main: Option<Camera>,
                    f: Frame, r: Range, live: iset<GameObject>, x: GameObject, a: int, b: int)
    requires r.WellFormed() && r.Holds(a, b) && x in live && x in Cell(g, a, b)
    requires forall c, d | r.Holds(c, d) && (c != a || d != b) :: x !in Cell(g, c, d)
    ensures x in WalkActivated(active, g, target, main, f, r, live)
    ensures forall k | 0 <= k < |Visits(target, main, f, r)| && VisitCell(Visits(target, main, f, r)[k]) == (a, b) ::
              WalkActivated(active, g, target, main, f, r, live)[x] == Visits(target, main, f, r)[k].visible
  {
    var vs := Visits(target, main, f, r);
    WalkActivatedIsWalk(active, g, target, main, f, r, live);
    VisitsCover(target, main, f, r);
    assert (a, b) in RangeSet(r);
    var k :| 0 <= k < |vs| && VisitCell(vs[k]) == (a, b);
    forall m | k < m < |vs| ensures x !in Cell(g, vs[m].i, vs[m].j) {
      assert VisitCell(vs[m]) != VisitCell(vs[k]);
      assert VisitCell(vs[m]) in RangeSet(r);
    }
    ApplyVisitsLast(active, g, vs, live, x, k);
    forall k' | 0 <= k' < |vs| && VisitCell(vs[k']) == (a, b) ensures vs[k'].visible == vs[k].visible {
      assert k' == k;
    }
  }

  /** Conservative culling, per object: a live object held only in cell `(a, b)`,
      whose world rectangle contains a point with outcode 0, ends active. */
  lemma VisibleObjectActive(active: map<GameObject, bool>, g: Cells, target: Option<Camera>, main: Option<Camera>,
                            f: Frame, r: Range, live: iset<GameObject>, x: GameObject, a: int, b: int, p: Point)
    requires r.WellFormed() && r.Holds(a, b) && x in live && x in Cell(g, a, b)
    requires forall c, d | r.Holds(c, d) && (c != a || d != b) :: x !in Cell(g, c, d)
    requires f.blockSize > 0.0 && ResolveCamera(target, main).Some?
    requires LineX(f, a) <= p.x <= LineX(f, a + 1) && LineZ(f, b) <= p.z <= LineZ(f, b + 1)
    requires CornerCode(ResolveCamera(target, main).value, p) == 0
    ensures x in WalkActivated(active, g, target, main, f, r, live)
    ensures WalkActivated(active, g, target, main, f, r, live)[x]
  {
    var vs := Visits(target, main, f, r);
    WalkVerdict(active, g, target, main, f, r, live, x, a, b);
    VisibleCellNeverHidden(target, main, f, r, a, b, p);
    VisitsCover(target, main, f, r);
    assert (a, b) in RangeSet(r);
    var k :| 0 <= k < |vs| && VisitCell(vs[k]) == (a, b);
    assert vs[k] in vs;
  }

  /** When every visit deactivates its cell, an object live in any visited cell
      ends inactive, whichever cells it is held in. */
  lemma {:induction false} ApplyVisitsHidden(active: map<GameObject, bool>, g: Cells, vs: seq<Visit>,
                                             live: iset<GameObject>, x: GameObject, k: int)
    requires 0 <= k < |vs| && x in live && x in Cell(g, vs[k].i, vs[k].j)
    requires forall m | 0 <= m < |vs| :: !vs[m].visible
    ensures x in ApplyVisits(active, g, vs, live)
    ensures !ApplyVisits(active, g, vs, live)[x]
    decreases |vs|
  {
    var vs' := vs[..|vs| - 1];
    var v := vs[|vs| - 1];
    ActivatedMap(ApplyVisits(active, g, vs', live), Cell(g, v.i, v.j), live, v.visible);
    if k < |vs| - 1 && x !in Cell(g, v.i, v.j) {
      ApplyVisitsHidden(active, g, vs', live, x, k);
    }
  }

  /** With no camera at all every live object held in a cell of the walked range
      ends inactive. */
  lemma NoCameraObjectInactive(active: map<GameObject, bool>, g: Cells, target: Option<Camera>, main: Option<Camera>,
                               f: Frame, r: Range, live: iset<GameObject>, x: GameObject, a: int, b: int)
    requires r.WellFormed() && r.Holds(a, b) && x in live && x in Cell(g, a, b)
    requires ResolveCamera(target, main).None?
    ensures x in WalkActivated(active, g, target, main, f, r, live)
    ensures !WalkActivated(active, g, target, main, f, r, live)[x]
  {
    var vs := Visits(target, main, f, r);
    WalkActivatedIsWalk(active, g, target, main, f, r, live);
    NoCameraHidesAll(target, main, f, r);
    VisitsCover(target, main, f, r);
    assert (a, b) in RangeSet(r);
    var k :| 0 <= k < |vs| && VisitCell(vs[k]) == (a, b);
    forall m | 0 <= m < |vs| ensures !vs[m].visible {
      assert vs[m] in vs;
    }
    ApplyVisitsHidden(active, g, vs, live, x, k);
  }
}
