/** The `VisibleObjectActivator` component: a square grid of cell lists centred
    on the container, the quadtree-style visibility walk that switches the objects
    of each cell on or off, and the movement reindexer. */
module Activator {
  import opened Seqs
  import opened Geometry
  import opened Frustum
  import opened Quadtree
  import opened Grid

  datatype Exception = ArgumentOutOfRange(paramName: string) | InvalidOperation

  /** How a call ended: normally, or with the exception it throws. */
  datatype Status = Ok | Thrown(e: Exception)

  /** What `InitContainer(size, depth)` throws before it allocates anything, if
      anything: a side of at most 1, then a depth below 1. */
  function InitCheck(size: real, depth: int): (s: Status)
    ensures s.Ok? <==> size > 1.0 && depth >= 1
    ensures size <= 1.0 ==> s == Thrown(ArgumentOutOfRange("size"))
    ensures size > 1.0 && depth < 1 ==> s == Thrown(ArgumentOutOfRange("depth"))
  {
    if size <= 1.0 then Thrown(ArgumentOutOfRange("size"))
    else if depth < 1 then Thrown(ArgumentOutOfRange("depth"))
    else Ok
  }

  class VisibleObjectActivator {
    /** `_targetCamera`; `None` for an unassigned (null) camera. */
    var targetCamera: Option<Camera>
    /** `_size`: side of the covered square. */
    var size: real
    /** `_depth`: the grid has `2^depth` cells per side. */
    var depth: int
    /** `_checkMovement` */
    var checkMovement: bool
    /** `_gameObjects`: the cell lists, `null` until `InitContainer` succeeds. */
    var gameObjects: array2?<seq<GameObject>>
    /** `_sharedGameObjectsToRemove`: the pending-removal list shared by the loops. */
    var sharedToRemove: seq<GameObject>

    /** The serialized defaults: `_size = 100`, `_depth = 5`, no camera, movement
        checks off, no grid yet. */
    constructor()
      ensures targetCamera == None && size == 100.0 && depth == 5 && !checkMovement
      ensures gameObjects == null && sharedToRemove == []
    {
      targetCamera := None;
      size := 100.0;
      depth := 5;
      checkMovement := false;
      gameObjects := null;
      sharedToRemove := [];
    }

    /** An allocated grid is square and non-empty, and `_size` passed the check of
        `InitContainer` that allocated it. */
    predicate Valid()
      reads this`size, this`gameObjects
    {
      gameObjects != null ==>
        gameObjects.Length0 == gameObjects.Length1 && gameObjects.Length0 > 0 && size > 1.0
    }

    /** The grid's layout: `_size` and `containerArraySize`. */
    function Lay(): ValidLayout
      reads this`size, this`gameObjects
      requires Valid() && gameObjects != null
    {
      Layout(size, gameObjects.Length0)
    }

    /** The cell lists as a value. */
    ghost function Grid(): (g: Cells)
      reads this`gameObjects, gameObjects
      requires gameObjects != null
      ensures |g| == gameObjects.Length0
    {
      var arr := gameObjects;
      seq(arr.Length0, a requires 0 <= a < arr.Length0 reads arr =>
        seq(arr.Length1, b requires 0 <= b < arr.Length1 reads arr => arr[a, b]))
    }

    /** The snapshot holds each cell's list where the array does. */
    lemma GridAt(a: int, b: int)
      requires gameObjects != null && 0 <= a < gameObjects.Length0 && 0 <= b < gameObjects.Length1
      ensures Cell(Grid(), a, b) == gameObjects[a, b]
    {
    }

    /** A square array gives a square snapshot. */
    lemma GridShaped()
      requires gameObjects != null && gameObjects.Length0 == gameObjects.Length1
      ensures Shaped(Grid(), gameObjects.Length0)
    {
    }

    /** `CalculateBestBlock`: without a grid it fails with `(0, 0)`; otherwise it
        succeeds exactly when the object's position lies in the accepted stretch on
        both axes, and then the indices name the cell whose stretch holds it.
        Reading the position of a destroyed object throws, hence `live`. */
    function CalculateBestBlock(scene: Scene, g: GameObject): (b: Block)
      reads this`size, this`gameObjects
      requires Valid()
      requires gameObjects != null ==> g in scene.pos
      ensures gameObjects == null ==> b == Block(false, 0, 0)
      ensures gameObjects != null ==>
                (b.ok <==> InRegion(Lay(), RelX(scene, g)) && InRegion(Lay(), RelZ(scene, g)))
      ensures gameObjects != null && b.ok ==>
                0 <= b.i < gameObjects.Length0 && 0 <= b.j < gameObjects.Length0 &&
                InCell(Lay(), RelX(scene, g), b.i) && InCell(Lay(), RelZ(scene, g), b.j)
    {
      if gameObjects == null then Block(false, 0, 0)
      else
        var b := BestBlock(scene, Lay(), g);
        BestBlockOk(scene, Lay(), g);
        if b.ok then BestBlockIff(scene, Lay(), g, b.i, b.j); b else b
    }

    /** `CanAddGameObject`: whether a grid exists and the object's position lies
        in it. */
    function CanAddGameObject(scene: Scene, g: GameObject): (ok: bool)
      reads this`size, this`gameObjects
      requires Valid()
      requires gameObjects != null ==> g in scene.pos
      ensures ok <==> gameObjects != null && InRegion(Lay(), RelX(scene, g)) && InRegion(Lay(), RelZ(scene, g))
    {
      CalculateBestBlock(scene, g).ok
    }

    /** `AddGameObject`: throws `InvalidOperationException` when the object has no
        cell; otherwise appends it to the one cell its position gives and to no
        other. */
    method AddGameObject(scene: Scene, g: GameObject) returns (status: Status)
      requires Valid()
      requires gameObjects != null ==> g in scene.pos
      modifies gameObjects
      ensures status == if CanAddGameObject(scene, g) then Ok else Thrown(InvalidOperation)
      ensures gameObjects != null ==>
                forall a, b | 0 <= a < gameObjects.Length0 && 0 <= b < gameObjects.Length1 ::
                  gameObjects[a, b] ==
                  if BestBlock(scene, Lay(), g) == Block(true, a, b) then old(gameObjects[a, b]) + [g]
                  else old(gameObjects[a, b])
    {
      var blk := CalculateBestBlock(scene, g);
      if !blk.ok {
        return Thrown(InvalidOperation);
      }
      gameObjects[blk.i, blk.j] := gameObjects[blk.i, blk.j] + [g];
      status := Ok;
    }

    /** `InitContainer(_size, _depth)` (every call site passes the two fields):
        rejects a side of at most 1 and a depth below 1, and otherwise installs a
        fresh `2^depth x 2^depth` grid of empty lists. */
    method InitContainer() returns (status: Status)
      modifies this`gameObjects
      ensures status == InitCheck(size, depth)
      ensures !status.Ok? ==> gameObjects == old(gameObjects)
      ensures status.Ok? ==>
                gameObjects != null && fresh(gameObjects) && Valid() &&
                gameObjects.Length0 == Pow2(depth) && gameObjects.Length1 == Pow2(depth) &&
                forall a, b | 0 <= a < gameObjects.Length0 && 0 <= b < gameObjects.Length1 :: gameObjects[a, b] == []
    {
      if size <= 1.0 {
        return Thrown(ArgumentOutOfRange("size"));
      }
      if depth < 1 {
        return Thrown(ArgumentOutOfRange("depth"));
      }
      var arraySize := 1;
      var i := 0;
      while i < depth
        invariant 0 <= i <= depth
        invariant arraySize == Pow2(i)
      {
        arraySize := arraySize * 2;
        i := i + 1;
      }
      var grid := new seq<GameObject>[arraySize, arraySize];
      gameObjects := grid;
      i := 0;
      while i < arraySize
        invariant 0 <= i <= arraySize
        invariant gameObjects == grid
        invariant forall a, b | 0 <= a < i && 0 <= b < arraySize :: grid[a, b] == []
      {
        var j := 0;
        while j < arraySize
          invariant 0 <= j <= arraySize
          invariant gameObjects == grid
          invariant forall a, b | 0 <= a < i && 0 <= b < arraySize :: grid[a, b] == []
          invariant forall b | 0 <= b < j :: grid[i, b] == []
        {
          grid[i, j] := [];
          j := j + 1;
        }
        i := i + 1;
      }
      status := Ok;
    }

    /** The grid's lists concatenated in row-major order, as the `AddRange` loops
        of `ChangeContainer` collect them; nothing without a grid. */
    ghost function Entries(): seq<GameObject>
      reads this`gameObjects, gameObjects
    {
      if gameObjects == null then [] else Flatten(Grid(), gameObjects.Length0, gameObjects.Length0)
    }

    /** The `AddRange` loops of `ChangeContainer`: every entry of the grid, cell
        by cell in row-major order. */
    method CollectEntries() returns (all: seq<GameObject>)
      requires gameObjects != null && gameObjects.Length0 == gameObjects.Length1
      ensures all == Entries()
    {
      var arr := gameObjects;
      ghost var g0 := Grid();
      var n := arr.Length0;
      all := [];
      var i := 0;
      while i < n
        invariant 0 <= i <= n
        invariant all == Flatten(g0, n, i)
      {
        var j := 0;
        while j < n
          invariant 0 <= j <= n
          invariant all == Flatten(g0, n, i) + RowFlatten(g0, i, j)
        {
          var e := arr[i, j];
          assert all + e == Flatten(g0, n, i) + RowFlatten(g0, i, j + 1) by {
            GridAt(i, j);
            AppendAssoc(Flatten(g0, n, i), RowFlatten(g0, i, j), e);
          }
          all := all + e;
          j := j + 1;
        }
        assert all == Flatten(g0, n, i + 1);
        i := i + 1;
      }
    }

    /** The `foreach` of `ChangeContainer` that adds the collected entries to the
        fresh empty grid: each entry goes to the one cell its position gives, until
        the first entry without a cell, whose `InvalidOperationException` ends the
        loop. */
    method AddAll(scene: Scene, xs: seq<GameObject>) returns (status: Status)
      requires Valid() && gameObjects != null && forall x | x in xs :: x in scene.pos
      requires forall a, b | 0 <= a < gameObjects.Length0 && 0 <= b < gameObjects.Length1 :: gameObjects[a, b] == []
      modifies gameObjects
      ensures var m := FirstMisfit(xs, scene, Lay());
              status == (if m == |xs| then Ok else Thrown(InvalidOperation)) &&
              forall a, b | 0 <= a < gameObjects.Length0 && 0 <= b < gameObjects.Length1 ::
                gameObjects[a, b] == Filter(xs[..m], GoesTo(scene, Lay(), a, b))
    {
      var lay := Lay();
      var arr := gameObjects;
      var m := FirstMisfit(xs, scene, lay);
      forall a, b | 0 <= a < arr.Length0 && 0 <= b < arr.Length1
        ensures arr[a, b] == Filter(xs[..0], GoesTo(scene, lay, a, b))
      {
        assert xs[..0] == [];
      }
      status := Ok;
      var k := 0;
      while k < |xs|
        invariant k <= m && status == Ok
        invariant forall a, b | 0 <= a < arr.Length0 && 0 <= b < arr.Length1 ::
                    arr[a, b] == Filter(xs[..k], GoesTo(scene, lay, a, b))
      {
        PrefixSnoc(xs, k);
        status := AddGameObject(scene, xs[k]);
        if !status.Ok? {
          assert m == k;
          return;
        }
        forall a, b | 0 <= a < arr.Length0 && 0 <= b < arr.Length1
          ensures arr[a, b] == Filter(xs[..k + 1], GoesTo(scene, lay, a, b))
        {
          FilterSnoc(xs[..k], xs[k], GoesTo(scene, lay, a, b));
        }
        k := k + 1;
      }
    }

    /** The outcome of `ChangeContainer` from the state the call started in: a
        rejected side or depth is thrown and the grid is kept; otherwise a fresh
        `2^depth x 2^depth` grid holds, in each cell, those of the collected
        entries placed before the first misfit that belong there, in order, and the
        call throws `InvalidOperationException` exactly when there is a misfit. */
    twostate predicate Rebuilt(scene: Scene, status: Status)
      reads this, gameObjects
    {
      (!InitCheck(size, depth).Ok? ==> status == InitCheck(size, depth) && gameObjects == old(gameObjects)) &&
      (InitCheck(size, depth).Ok? ==>
         gameObjects != null && fresh(gameObjects) && Valid() &&
         gameObjects.Length0 == Pow2(depth) && gameObjects.Length1 == Pow2(depth) &&
         var xs := old(Entries());
         var m := FirstMisfit(xs, scene, Lay());
         status == (if m == |xs| then Ok else Thrown(InvalidOperation)) &&
         forall a, b | 0 <= a < gameObjects.Length0 && 0 <= b < gameObjects.Length1 ::
           gameObjects[a, b] == Filter(xs[..m], GoesTo(scene, Lay(), a, b)))
    }

    /** `ChangeContainer(_size, _depth)` (both setters pass the fields): without a
        grid it is `InitContainer`; otherwise it collects every entry, installs a
        fresh grid for the current side and depth, and adds the entries back one by
        one. A rejected side or depth throws before anything changes; an entry
        outside the new grid throws `InvalidOperationException` and leaves the new
        grid holding only the entries added before it. Reading an entry's position
        needs it alive. */
    method ChangeContainer(scene: Scene) returns (status: Status)
      requires gameObjects != null ==>
                 gameObjects.Length0 == gameObjects.Length1 && AllHeld(Grid(), gameObjects.Length0, Live(scene))
      modifies this`gameObjects
      ensures Rebuilt(scene, status)
    {
      if gameObjects == null {
        status := InitContainer();
        return;
      }
      var all := CollectEntries();
      FlattenHeld(Grid(), gameObjects.Length0, Live(scene), gameObjects.Length0);
      assert forall x | x in all :: x in scene.pos;
      status := InitContainer();
      if status.Ok? {
        status := AddAll(scene, all);
      }
    }

    /** The `Size` setter: stores the new side, then rebuilds the grid. The side
        stays stored even when the rebuild throws. */
    method SetSize(scene: Scene, value: real) returns (status: Status)
      requires gameObjects != null ==>
                 gameObjects.Length0 == gameObjects.Length1 && AllHeld(Grid(), gameObjects.Length0, Live(scene))
      modifies this`size, this`gameObjects
      ensures size == value && depth == old(depth)
      ensures Rebuilt(scene, status)
    {
      size := value;
      status := ChangeContainer(scene);
    }

    /** The `Depth` setter: stores the new depth, then rebuilds the grid. The depth
        stays stored even when the rebuild throws. */
    method SetDepth(scene: Scene, value: int) returns (status: Status)
      requires gameObjects != null ==>
                 gameObjects.Length0 == gameObjects.Length1 && AllHeld(Grid(), gameObjects.Length0, Live(scene))
      modifies this`depth, this`gameObjects
      ensures depth == value && size == old(size)
      ensures Rebuilt(scene, status)
    {
      depth := value;
      status := ChangeContainer(scene);
    }

    /** `Awake`: builds the grid from `_size` and `_depth`, then adds each child of
        the container, in order, that `CanAddGameObject` accepts; the others are
        skipped. A rejected side or depth throws before any child is read. */
    method Awake(scene: Scene, children: seq<GameObject>) returns (status: Status)
      requires forall x | x in children :: x in scene.pos
      modifies this`gameObjects
      ensures status == InitCheck(size, depth)
      ensures !status.Ok? ==> gameObjects == old(gameObjects)
      ensures status.Ok? ==>
                gameObjects != null && fresh(gameObjects) && Valid() &&
                gameObjects.Length0 == Pow2(depth) && gameObjects.Length1 == Pow2(depth) &&
                forall a, b | 0 <= a < gameObjects.Length0 && 0 <= b < gameObjects.Length1 ::
                  gameObjects[a, b] == Filter(children, GoesTo(scene, Lay(), a, b))
    {
      status := InitContainer();
      if !status.Ok? {
        return;
      }
      var lay := Lay();
      var arr := gameObjects;
      forall a, b | 0 <= a < arr.Length0 && 0 <= b < arr.Length1
        ensures arr[a, b] == Filter(children[..0], GoesTo(scene, lay, a, b))
      {
        assert children[..0] == [];
      }
      var i := 0;
      while i < |children|
        invariant 0 <= i <= |children| && gameObjects == arr
        invariant forall a, b | 0 <= a < arr.Length0 && 0 <= b < arr.Length1 ::
                    arr[a, b] == Filter(children[..i], GoesTo(scene, lay, a, b))
      {
        var child := children[i];
        PrefixSnoc(children, i);
        if CanAddGameObject(scene, child) {
          var _ := AddGameObject(scene, child);
        }
        forall a, b | 0 <= a < arr.Length0 && 0 <= b < arr.Length1
          ensures arr[a, b] == Filter(children[..i + 1], GoesTo(scene, lay, a, b))
        {
          FilterSnoc(children[..i], child, GoesTo(scene, lay, a, b));
        }
        i := i + 1;
      }
      assert children[..i] == children;
    }

    /** The first `foreach` of one cell of the leaf and rejected branches of
        `SetAreaActiveState`: every live object of the list is switched to
        `visible` and every destroyed entry is queued after whatever the
        pending-removal list already held. */
    method MarkCell(scene: Scene, i: int, j: int, visible: bool, active0: map<GameObject, bool>)
      returns (active: map<GameObject, bool>)
      requires gameObjects != null && 0 <= i < gameObjects.Length0 && 0 <= j < gameObjects.Length1
      modifies this`sharedToRemove
      ensures sharedToRemove == old(sharedToRemove) + Filter(gameObjects[i, j], Dead(Live(scene)))
      ensures active == Activated(active0, gameObjects[i, j], Live(scene), visible)
    {
      active := active0;
      var cell := gameObjects[i, j];
      var k := 0;
      while k < |cell|
        invariant 0 <= k <= |cell|
        invariant sharedToRemove == old(sharedToRemove) + Filter(cell[..k], Dead(Live(scene)))
        invariant active == Activated(active0, cell[..k], Live(scene), visible)
      {
        var x := cell[k];
        if x in scene.pos {
          active := active[x := visible];
        } else {
          sharedToRemove := sharedToRemove + [x];
        }
        assert cell[..k + 1] == cell[..k] + [x];
        assert cell[..k + 1][..k] == cell[..k];
        FilterSnoc(cell[..k], x, Dead(Live(scene)));
        k := k + 1;
      }
      assert cell[..k] == cell;
    }

    /** The second `foreach` of one cell: each queued entry is removed from the
        cell's list with `List<T>.Remove`, in queue order. No other cell changes. */
    method RemoveQueued(i: int, j: int)
      requires gameObjects != null && 0 <= i < gameObjects.Length0 && 0 <= j < gameObjects.Length1
      modifies gameObjects
      ensures gameObjects[i, j] == RemoveAll(old(gameObjects[i, j]), sharedToRemove)
      ensures forall a, b | 0 <= a < gameObjects.Length0 && 0 <= b < gameObjects.Length1 && (a != i || b != j) ::
                gameObjects[a, b] == old(gameObjects[a, b])
    {
      var arr := gameObjects;
      var queue := sharedToRemove;
      assert queue[0..] == queue;
      var m := 0;
      while m < |queue|
        invariant 0 <= m <= |queue|
        invariant RemoveAll(arr[i, j], queue[m..]) == RemoveAll(old(arr[i, j]), queue)
        invariant forall a, b | 0 <= a < arr.Length0 && 0 <= b < arr.Length1 && (a != i || b != j) ::
                    arr[a, b] == old(arr[a, b])
      {
        assert queue[m..][1..] == queue[m + 1..];
        arr[i, j] := RemoveFirst(arr[i, j], queue[m]);
        m := m + 1;
      }
      assert queue[m..] == [];
    }

    /** One cell of the leaf and rejected branches of `SetAreaActiveState`: mark,
        remove the queued entries, clear the queue. */
    method SweepCell(scene: Scene, ghost g0: Cells, i: int, j: int, visible: bool, active0: map<GameObject, bool>)
      returns (active: map<GameObject, bool>)
      requires gameObjects != null && 0 <= i < gameObjects.Length0 && 0 <= j < gameObjects.Length1
      requires gameObjects[i, j] == Cell(g0, i, j)
      modifies this`sharedToRemove, gameObjects
      ensures old(sharedToRemove) != [] ==> gameObjects[i, j] == Swept(old(gameObjects[i, j]), old(sharedToRemove), Live(scene))
      ensures old(sharedToRemove) == [] ==> gameObjects[i, j] == Filter(old(gameObjects[i, j]), Live(scene))
      ensures forall a, b | 0 <= a < gameObjects.Length0 && 0 <= b < gameObjects.Length1 && (a != i || b != j) ::
                gameObjects[a, b] == old(gameObjects[a, b])
      ensures sharedToRemove == []
      ensures active == Activated(active0, Cell(g0, i, j), Live(scene), visible)
    {
      if sharedToRemove == [] {
        SweptClean(gameObjects[i, j], Live(scene));
      }
      active := MarkCell(scene, i, j, visible, active0);
      RemoveQueued(i, j);
      sharedToRemove := [];
    }

    /** The inner `for (z ...)` loop of the leaf and rejected branches: the cells
        of row `i` from column `jStart` to `jEnd - 1`, in order, each losing its
        destroyed entries and switching its live ones; no other cell changes.
        `g0` is any snapshot that agrees with the array on the row. */
    method SweepRow(scene: Scene, ghost g0: Cells, i: int, jStart: int, jEnd: int, visible: bool,
                    active0: map<GameObject, bool>) returns (active: map<GameObject, bool>)
      requires gameObjects != null && sharedToRemove == []
      requires 0 <= i < gameObjects.Length0 && 0 <= jStart <= jEnd <= gameObjects.Length1
      requires forall b {:trigger gameObjects[i, b]} | jStart <= b < jEnd :: gameObjects[i, b] == Cell(g0, i, b)
      modifies this`sharedToRemove, gameObjects
      ensures forall a, b | 0 <= a < gameObjects.Length0 && 0 <= b < gameObjects.Length1 ::
                gameObjects[a, b] ==
                if a == i && jStart <= b < jEnd then Filter(old(gameObjects[a, b]), Live(scene)) else old(gameObjects[a, b])
      ensures sharedToRemove == []
      ensures active == RowActivated(active0, g0, i, jStart, jEnd, Live(scene), visible)
    {
      active := active0;
      var arr := gameObjects;
      var z := jStart;
      while z < jEnd
        invariant jStart <= z <= jEnd
        invariant forall a, b | 0 <= a < arr.Length0 && 0 <= b < arr.Length1 ::
                    arr[a, b] == if a == i && jStart <= b < z then Filter(old(arr[a, b]), Live(scene)) else old(arr[a, b])
        invariant sharedToRemove == []
        invariant active == RowActivated(active0, g0, i, jStart, z, Live(scene), visible)
      {
        ghost var pre := active;
        active := SweepCell(scene, g0, i, z, visible, active);
        RowActivatedNext(active0, g0, i, jStart, z, Live(scene), visible, pre, active);
        z := z + 1;
      }
    }

    /** The nested loops of the leaf and rejected branches over a whole range, in
        row-major order: every cell of the range loses its destroyed entries and
        switches its live ones, and cells outside the range are untouched. `g0`
        is any snapshot that agrees with the array on the range. */
    method SweepRange(scene: Scene, ghost g0: Cells, r: Range, visible: bool, active0: map<GameObject, bool>)
      returns (active: map<GameObject, bool>)
      requires gameObjects != null && sharedToRemove == [] && r.WellFormed()
      requires 0 <= r.iStart && r.iEnd <= gameObjects.Length0 && 0 <= r.jStart && r.jEnd <= gameObjects.Length1
      requires forall a, b {:trigger gameObjects[a, b]} | r.Holds(a, b) :: gameObjects[a, b] == Cell(g0, a, b)
      modifies this`sharedToRemove, gameObjects
      ensures forall a, b | 0 <= a < gameObjects.Length0 && 0 <= b < gameObjects.Length1 ::
                gameObjects[a, b] ==
                if r.Holds(a, b) then Filter(old(gameObjects[a, b]), Live(scene)) else old(gameObjects[a, b])
      ensures sharedToRemove == []
      ensures active == RangeActivated(active0, g0, r, r.iEnd, Live(scene), visible)
    {
      active := active0;
      var arr := gameObjects;
      var i := r.iStart;
      while i < r.iEnd
        invariant r.iStart <= i <= r.iEnd
        invariant forall a, b | 0 <= a < arr.Length0 && 0 <= b < arr.Length1 ::
                    arr[a, b] ==
                    if r.iStart <= a < i && r.jStart <= b < r.jEnd then Filter(old(arr[a, b]), Live(scene)) else old(arr[a, b])
        invariant sharedToRemove == []
        invariant active == RangeActivated(active0, g0, r, i, Live(scene), visible)
      {
        ghost var pre := active;
        active := SweepRow(scene, g0, i, r.jStart, r.jEnd, visible, active);
        RangeActivatedNext(active0, g0, r, i, Live(scene), visible, pre, active);
        i := i + 1;
      }
    }

    /** `SetAreaActiveState` over range `r`: a rejected range is swept with
        `SetActive(false)`, a visible leaf range with `SetActive(true)`, and a
        visible larger range is handed to its four quadrants in turn. Every cell of
        the range ends without its destroyed entries, cells outside the range are
        untouched, and the activation states are those of the recursion. `g0` is
        any snapshot that agrees with the array on the range. */
    method SetAreaActiveState(scene: Scene, mainCamera: Option<Camera>, ghost g0: Cells, f: Frame, r: Range,
                              active0: map<GameObject, bool>) returns (active: map<GameObject, bool>)
      requires gameObjects != null && sharedToRemove == [] && r.WellFormed()
      requires 0 <= r.iStart && r.iEnd <= gameObjects.Length0 && 0 <= r.jStart && r.jEnd <= gameObjects.Length1
      requires forall a, b {:trigger gameObjects[a, b]} | r.Holds(a, b) :: gameObjects[a, b] == Cell(g0, a, b)
      modifies this`sharedToRemove, gameObjects
      ensures forall a, b | 0 <= a < gameObjects.Length0 && 0 <= b < gameObjects.Length1 ::
                gameObjects[a, b] ==
                if r.Holds(a, b) then Filter(old(gameObjects[a, b]), Live(scene)) else old(gameObjects[a, b])
      ensures sharedToRemove == []
      ensures active == WalkActivated(active0, g0, targetCamera, mainCamera, f, r, Live(scene))
      decreases r.Extent()
    {
      var visible := RectInCamera(targetCamera, mainCamera, Corners(f, r));
      if visible && !r.IsLeaf() {
        var qs := Quadrants(r);
        var arr := gameObjects;
        active := SetAreaActiveState(scene, mainCamera, g0, f, qs[0], active0);
        label L1:
        active := SetAreaActiveState(scene, mainCamera, g0, f, qs[1], active);
        label L2:
        active := SetAreaActiveState(scene, mainCamera, g0, f, qs[2], active);
        label L3:
        active := SetAreaActiveState(scene, mainCamera, g0, f, qs[3], active);
        forall a, b | 0 <= a < arr.Length0 && 0 <= b < arr.Length1
          ensures arr[a, b] == if r.Holds(a, b) then Filter(old(arr[a, b]), Live(scene)) else old(arr[a, b])
        {
          var x0, x1, x2, x3 := old(arr[a, b]), old@L1(arr[a, b]), old@L2(arr[a, b]), old@L3(arr[a, b]);
          assert x1 == if qs[0].Holds(a, b) then Filter(x0, Live(scene)) else x0;
          assert x2 == if qs[1].Holds(a, b) then Filter(x1, Live(scene)) else x1;
          assert x3 == if qs[2].Holds(a, b) then Filter(x2, Live(scene)) else x2;
        }
      } else {
        active := SweepRange(scene, g0, r, visible, active0);
      }
    }

    /** `Update`: with a grid of side `n`, the visibility walk over the whole grid
        (block size `_size / n`, centred on the container), then, when
        `_checkMovement` is set, the movement reindexer on the swept grid. The
        walk drops every destroyed entry first, so the reindexer only reads live
        objects. Without a grid nothing happens. */
    method Update(scene: Scene, mainCamera: Option<Camera>, active0: map<GameObject, bool>)
      returns (active: map<GameObject, bool>)
      requires Valid() && sharedToRemove == []
      modifies this`sharedToRemove, gameObjects
      ensures sharedToRemove == []
      ensures gameObjects == null ==> active == active0
      ensures gameObjects != null ==>
                var n := gameObjects.Length0;
                var f := Frame(scene.originX, scene.originZ, old(size) / 2.0, old(size) / n as real);
                active == WalkActivated(active0, old(Grid()), old(targetCamera), mainCamera, f, Range(0, n, 0, n), Live(scene)) &&
                forall a, b | 0 <= a < n && 0 <= b < n ::
                  gameObjects[a, b] ==
                  if checkMovement then ReindexedCell(Purged(old(Grid()), n, Live(scene)), scene, Lay(), a, b)
                  else Filter(old(gameObjects[a, b]), Live(scene))
    {
      if gameObjects == null {
        return active0;
      }
      var arr := gameObjects;
      var n := arr.Length0;
      var f := Frame(scene.originX, scene.originZ, size / 2.0, size / n as real);
      var all := Range(0, n, 0, n);
      ghost var g0 := Grid();
      ghost var g1 := Purged(g0, n, Live(scene));
      forall a, b | all.Holds(a, b) ensures arr[a, b] == Cell(g0, a, b) {
        GridAt(a, b);
      }
      active := SetAreaActiveState(scene, mainCamera, g0, f, all, active0);
      if checkMovement {
        forall c, d | 0 <= c < n && 0 <= d < n ensures arr[c, d] == Cell(g1, c, d) {
          assert all.Holds(c, d);
        }
        PurgedHeld(g0, n, Live(scene));
        CheckObjectsMovement(scene, g1);
      }
    }

    /** The body of the `foreach` of `CheckObjectsMovement` for one entry `x` of
        cell `(i, j)`: an entry without a cell is queued; an entry whose best block
        is another cell is queued and appended to that cell; an entry that stays
        is left alone. The grid and the queue advance by one handled entry. */
    method MoveEntry(scene: Scene, ghost g0: Cells, i: nat, j: nat, ghost moved: seq<GameObject>, x: GameObject)
      requires Valid() && gameObjects != null && x in scene.pos
      requires i < gameObjects.Length0 && j < gameObjects.Length0
      requires forall c, d {:trigger gameObjects[c, d]} | 0 <= c < gameObjects.Length0 && 0 <= d < gameObjects.Length1 ::
                 gameObjects[c, d] == Progress(g0, scene, Lay(), i, j, moved, c, d)
      requires sharedToRemove == Filter(moved, Leaves(scene, Lay(), i, j))
      modifies this`sharedToRemove, gameObjects
      ensures forall c, d | 0 <= c < gameObjects.Length0 && 0 <= d < gameObjects.Length1 ::
                gameObjects[c, d] == Progress(g0, scene, Lay(), i, j, moved + [x], c, d)
      ensures sharedToRemove == Filter(moved + [x], Leaves(scene, Lay(), i, j))
    {
      var lay := Lay();
      var arr := gameObjects;
      var blk := CalculateBestBlock(scene, x);
      if !blk.ok {
        sharedToRemove := sharedToRemove + [x];
      } else if blk.i != i || blk.j != j {
        sharedToRemove := sharedToRemove + [x];
        var _ := AddGameObject(scene, x);
      }
      forall c, d | 0 <= c < arr.Length0 && 0 <= d < arr.Length1
        ensures arr[c, d] == Progress(g0, scene, lay, i, j, moved + [x], c, d)
      {
        ProgressStep(g0, scene, lay, i, j, moved, x, c, d);
      }
      FilterSnoc(moved, x, Leaves(scene, lay, i, j));
    }

    /** The `foreach` of `CheckObjectsMovement` over cell `(i, j)`, starting from
        an empty queue: every entry the cell holds when the loops reach it is
        handled in order, so the other cells receive its entries that belong to
        them and the queue ends holding its leavers. */
    method MoveEntries(scene: Scene, ghost g0: Cells, i: nat, j: nat)
      requires Valid() && gameObjects != null && sharedToRemove == []
      requires AllHeld(g0, gameObjects.Length0, Live(scene))
      requires i < gameObjects.Length0 && j < gameObjects.Length0
      requires forall c, d {:trigger gameObjects[c, d]} | 0 <= c < gameObjects.Length0 && 0 <= d < gameObjects.Length1 ::
                 gameObjects[c, d] == Walked(g0, scene, Lay(), i, j, c, d)
      modifies this`sharedToRemove, gameObjects
      ensures forall c, d | 0 <= c < gameObjects.Length0 && 0 <= d < gameObjects.Length1 ::
                gameObjects[c, d] == Progress(g0, scene, Lay(), i, j, Reached(g0, scene, Lay(), i, j), c, d)
      ensures sharedToRemove == Leavers(g0, scene, Lay(), i, j)
    {
      var lay := Lay();
      var arr := gameObjects;
      var cur := arr[i, j];
      assert cur == Reached(g0, scene, lay, i, j);
      ReachedHeld(g0, scene, lay, Live(scene), i, j);
      assert forall x | x in cur :: x in scene.pos;
      forall c, d | 0 <= c < arr.Length0 && 0 <= d < arr.Length1
        ensures arr[c, d] == Progress(g0, scene, lay, i, j, cur[..0], c, d)
      {
        assert cur[..0] == [];
        ProgressEmpty(g0, scene, lay, i, j, c, d);
      }
      var k := 0;
      while k < |cur|
        invariant 0 <= k <= |cur|
        invariant forall c, d {:trigger arr[c, d]} | 0 <= c < arr.Length0 && 0 <= d < arr.Length1 ::
                    arr[c, d] == Progress(g0, scene, lay, i, j, cur[..k], c, d)
        invariant sharedToRemove == Filter(cur[..k], Leaves(scene, lay, i, j))
      {
        PrefixSnoc(cur, k);
        MoveEntry(scene, g0, i, j, cur[..k], cur[k]);
        k := k + 1;
      }
      assert cur[..k] == cur;
    }

    /** One cell `(i, j)` of `CheckObjectsMovement`: the pending-removal list is
        cleared, the cell's entries are handled, and the queued entries are then
        removed from `(i, j)`. The grid moves from the reindexer's state when it
        reaches `(i, j)` to its state when it reaches the next cell, and the queue
        keeps the leavers of `(i, j)`. */
    method ReindexCell(scene: Scene, ghost g0: Cells, i: nat, j: nat)
      requires Valid() && gameObjects != null
      requires AllHeld(g0, gameObjects.Length0, Live(scene))
      requires i < gameObjects.Length0 && j < gameObjects.Length0
      requires forall c, d {:trigger gameObjects[c, d]} | 0 <= c < gameObjects.Length0 && 0 <= d < gameObjects.Length1 ::
                 gameObjects[c, d] == Walked(g0, scene, Lay(), i, j, c, d)
      modifies this`sharedToRemove, gameObjects
      ensures forall c, d | 0 <= c < gameObjects.Length0 && 0 <= d < gameObjects.Length1 ::
                gameObjects[c, d] == Walked(g0, scene, Lay(), i, j + 1, c, d)
      ensures sharedToRemove == Leavers(g0, scene, Lay(), i, j)
    {
      var lay := Lay();
      var arr := gameObjects;
      sharedToRemove := [];
      MoveEntries(scene, g0, i, j);
      RemoveQueued(i, j);
    }

    /** The inner `for (j ...)` loop of `CheckObjectsMovement`: the cells of row
        `i` in order. The grid moves from the reindexer's state at the start of
        row `i` to its state at the start of row `i + 1`, and the queue keeps the
        leavers of the row's last cell. */
    method ReindexRow(scene: Scene, ghost g0: Cells, i: nat)
      requires Valid() && gameObjects != null
      requires AllHeld(g0, gameObjects.Length0, Live(scene)) && i < gameObjects.Length0
      requires forall c, d {:trigger gameObjects[c, d]} | 0 <= c < gameObjects.Length0 && 0 <= d < gameObjects.Length1 ::
                 gameObjects[c, d] == Walked(g0, scene, Lay(), i, 0, c, d)
      modifies this`sharedToRemove, gameObjects
      ensures forall c, d | 0 <= c < gameObjects.Length0 && 0 <= d < gameObjects.Length1 ::
                gameObjects[c, d] == Walked(g0, scene, Lay(), i + 1, 0, c, d)
      ensures sharedToRemove == Leavers(g0, scene, Lay(), i, gameObjects.Length0 - 1)
    {
      var lay := Lay();
      var arr := gameObjects;
      var m := arr.Length0 - 1;
      ReindexCell(scene, g0, i, 0);
      var j := 1;
      while j < arr.Length0
        invariant 1 <= j <= arr.Length0
        invariant forall c, d {:trigger arr[c, d]} | 0 <= c < arr.Length0 && 0 <= d < arr.Length1 ::
                    arr[c, d] == Walked(g0, scene, lay, i, j, c, d)
        invariant sharedToRemove == Leavers(g0, scene, lay, i, j - 1)
      {
        ReindexCell(scene, g0, i, j);
        j := j + 1;
      }
      assert j - 1 == m;
    }

    /** The outer `for (i ...)` loop of `CheckObjectsMovement`: the rows in order.
        The grid moves from the reindexer's starting state to its final state, and
        the queue keeps the leavers of the last cell `(n - 1, n - 1)`. */
    method ReindexRows(scene: Scene, ghost g0: Cells)
      requires Valid() && gameObjects != null
      requires AllHeld(g0, gameObjects.Length0, Live(scene))
      requires forall c, d {:trigger gameObjects[c, d]} | 0 <= c < gameObjects.Length0 && 0 <= d < gameObjects.Length1 ::
                 gameObjects[c, d] == Walked(g0, scene, Lay(), 0, 0, c, d)
      modifies this`sharedToRemove, gameObjects
      ensures forall c, d | 0 <= c < gameObjects.Length0 && 0 <= d < gameObjects.Length1 ::
                gameObjects[c, d] == Walked(g0, scene, Lay(), gameObjects.Length0, 0, c, d)
      ensures sharedToRemove == Leavers(g0, scene, Lay(), gameObjects.Length0 - 1, gameObjects.Length0 - 1)
    {
      var lay := Lay();
      var arr := gameObjects;
      var m := arr.Length0 - 1;
      ReindexRow(scene, g0, 0);
      var i := 1;
      while i < arr.Length0
        invariant 1 <= i <= arr.Length0
        invariant forall c, d {:trigger arr[c, d]} | 0 <= c < arr.Length0 && 0 <= d < arr.Length1 ::
                    arr[c, d] == Walked(g0, scene, lay, i, 0, c, d)
        invariant sharedToRemove == Leavers(g0, scene, lay, i - 1, m)
      {
        ReindexRow(scene, g0, i);
        i := i + 1;
      }
      assert i - 1 == m;
    }

    /** `CheckObjectsMovement(containerArraySize)` as written: the cells in
        row-major order, each clearing the pending-removal list before its own
        entries are handled. Every cell ends as the reindexer's specification
        says (`ReindexedCell`), and the list still holds the leavers of the last
        cell, `(n - 1, n - 1)`, when the call returns. `g0` is the grid on entry;
        every entry must be alive, because reading a destroyed object's position
        throws. */
    method CheckObjectsMovementAsWritten(scene: Scene, ghost g0: Cells)
      requires Valid() && gameObjects != null
      requires AllHeld(g0, gameObjects.Length0, Live(scene))
      requires forall c, d {:trigger gameObjects[c, d]} | 0 <= c < gameObjects.Length0 && 0 <= d < gameObjects.Length1 ::
                 gameObjects[c, d] == Cell(g0, c, d)
      modifies this`sharedToRemove, gameObjects
      ensures forall c, d | 0 <= c < gameObjects.Length0 && 0 <= d < gameObjects.Length1 ::
                gameObjects[c, d] == ReindexedCell(g0, scene, Lay(), c, d)
      ensures sharedToRemove == Leavers(g0, scene, Lay(), gameObjects.Length0 - 1, gameObjects.Length0 - 1)
    {
      var lay := Lay();
      var arr := gameObjects;
      ReindexRows(scene, g0);
      forall c, d | 0 <= c < arr.Length0 && 0 <= d < arr.Length1
        ensures arr[c, d] == ReindexedCell(g0, scene, lay, c, d)
      {
        WalkedEnd(g0, scene, lay, c, d);
      }
    }

    /** `CheckObjectsMovement` with the pending-removal list cleared once the last
        cell is done, so the next `SetAreaActiveState` starts from an empty list:
        the grid ends as the reindexer's specification says. */
    method CheckObjectsMovement(scene: Scene, ghost g0: Cells)
      requires Valid() && gameObjects != null
      requires AllHeld(g0, gameObjects.Length0, Live(scene))
      requires forall c, d {:trigger gameObjects[c, d]} | 0 <= c < gameObjects.Length0 && 0 <= d < gameObjects.Length1 ::
                 gameObjects[c, d] == Cell(g0, c, d)
      modifies this`sharedToRemove, gameObjects
      ensures forall c, d | 0 <= c < gameObjects.Length0 && 0 <= d < gameObjects.Length1 ::
                gameObjects[c, d] == ReindexedCell(g0, scene, Lay(), c, d)
      ensures sharedToRemove == []
    {
      CheckObjectsMovementAsWritten(scene, g0);
      sharedToRemove := [];
    }
  }
}
