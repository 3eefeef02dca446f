// The split of a sprite into subtables and the chain of conditions that selects among them.
module SpriteChunks {
  import opened Words
  import opened Wrappers

  type Table = seq<seq<nat>>

  /** An image of xwidth by ywidth pixels, cut into chunks of nc columns by nr rows. */
  datatype Cut = Cut(xwidth: nat, ywidth: nat, nc: nat, nr: nat) {
    predicate Valid() { nc > 0 && nr > 0 }
  }

  /** Whole chunks along one side, and one more for what is left over. */
  function Chunks(width: nat, n: nat): nat
    requires n > 0
  {
    width / n + (if width % n != 0 then 1 else 0)
  }

  /** The size of chunk number i along one side. */
  function Dim(i: nat, width: nat, n: nat): int
    requires n > 0
  {
    if i == width / n then width - i * n else n
  }

  function UpperPixel(idx: nat, n: nat, w: nat): nat {
    if (idx + 1) * n < w then (idx + 1) * n else w
  }

  /** The generated condition of chunk k, on pixel (x, y). */
  predicate Condition(k: (nat, nat), c: Cut, x: nat, y: nat) {
    && x >= k.0 * c.nc && x < UpperPixel(k.0, c.nc, c.xwidth)
    && y >= k.1 * c.nr && y < UpperPixel(k.1, c.nr, c.ywidth)
  }

  /** What the generated if-else chain yields; None stands for an access outside a subtable. */
  function Select(order: seq<(nat, nat)>, tables: map<(nat, nat), Table>, c: Cut, x: nat, y: nat): Option<nat>
    requires c.Valid()
  {
    if order == [] then Some(0)
    else if Condition(order[0], c, x, y) then
      var k := order[0];
      if k in tables && y % c.nr < |tables[k]| && x % c.nc < |tables[k][y % c.nr]| then
        Some(tables[k][y % c.nr][x % c.nc])
      else None
    else Select(order[1..], tables, c, x, y)
  }

  // ---------------------------------------------------------------- chunk arithmetic

  lemma DivMod(x: nat, n: nat)
    requires n > 0
    ensures x == (x / n) * n + x % n && x % n < n
  {
  }

  /** Chunk i holds exactly the pixels whose quotient is i. */
  lemma InChunk(x: nat, n: nat, i: nat)
    requires n > 0
    ensures i * n <= x < (i + 1) * n <==> i == x / n
  {
    DivMod(x, n);
    var q := x / n;
    assert (q + 1) * n == q * n + n;
    if i < q {
      Scale(i + 1, q, n);
    } else if i > q {
      Scale(q + 1, i, n);
    }
  }

  /** The chunks tile the side: chunk i holds the Dim pixels from i * n on, each pixel of the image
      is in one of them, and there are no others. */
  lemma ChunksTile(width: nat, n: nat, i: nat, x: nat)
    requires n > 0
    ensures i < Chunks(width, n) <==> i * n < width
    ensures i < Chunks(width, n) ==> (x < width && x / n == i <==> i * n <= x < i * n + Dim(i, width, n))
  {
    InChunk(x, n, i);
    DivMod(width, n);
    var q := width / n;
    assert (i + 1) * n == i * n + n;
    if i < q {
      Scale(i + 1, q, n);
    } else if i > q {
      Scale(q + 1, i, n);
      assert (q + 1) * n == q * n + n;
    }
  }

  /** Along one side: pixel x < width lies in chunk x / n, which exists and is large enough. */
  lemma ChunkExists(x: nat, width: nat, n: nat)
    requires n > 0 && x < width
    ensures x / n < Chunks(width, n)
    ensures x % n < Dim(x / n, width, n)
    ensures x / n * n <= x < UpperPixel(x / n, n, width)
  {
    DivMod(x, n);
    DivMod(width, n);
    InChunk(x, n, x / n);
    if x / n > width / n {
      Scale(width / n + 1, x / n, n);
    }
  }

  lemma DimIsPositive(i: nat, width: nat, n: nat)
    requires n > 0 && i < Chunks(width, n)
    ensures 0 < Dim(i, width, n) <= n
  {
    DivMod(width, n);
  }

  /** Exactly one condition of the grid is true of a pixel of the image. */
  lemma ExactlyOneCondition(c: Cut, x: nat, y: nat, k: (nat, nat))
    requires c.Valid() && x < c.xwidth && y < c.ywidth
    ensures Condition(k, c, x, y) <==> k == (x / c.nc, y / c.nr)
  {
    InChunk(x, c.nc, k.0);
    InChunk(y, c.nr, k.1);
    ChunkExists(x, c.xwidth, c.nc);
    ChunkExists(y, c.ywidth, c.nr);
  }

  /** Outside the image no condition is true. */
  lemma NoConditionOutside(c: Cut, x: nat, y: nat, k: (nat, nat))
    requires x >= c.xwidth || y >= c.ywidth
    ensures !Condition(k, c, x, y)
  {
  }

  // ---------------------------------------------------------------- the subtables

  /** The subtables have the shape of the grid. */
  ghost predicate Shaped(tables: map<(nat, nat), Table>, c: Cut)
    requires c.Valid()
  {
    && (forall i: nat, j: nat :: (i, j) in tables <==> i < Chunks(c.xwidth, c.nc) && j < Chunks(c.ywidth, c.nr))
    && Sized(tables, c)
  }

  /** The cell that stands for pixel (x, y). */
  ghost function Cell(tables: map<(nat, nat), Table>, c: Cut, x: nat, y: nat): nat
    requires c.Valid() && Shaped(tables, c) && x < c.xwidth && y < c.ywidth
  {
    CellExists(tables, c, x, y);
    tables[(x / c.nc, y / c.nr)][y % c.nr][x % c.nc]
  }

  lemma CellExists(tables: map<(nat, nat), Table>, c: Cut, x: nat, y: nat)
    requires c.Valid() && Shaped(tables, c) && x < c.xwidth && y < c.ywidth
    ensures var k := (x / c.nc, y / c.nr);
            k in tables && y % c.nr < |tables[k]| && x % c.nc < |tables[k][y % c.nr]|
  {
    ChunkExists(x, c.xwidth, c.nc);
    ChunkExists(y, c.ywidth, c.nr);
    var k := (x / c.nc, y / c.nr);
    assert tables[k][y % c.nr] in tables[k];
  }

  lemma PixelIsInList(c: Cut, x: nat, y: nat)
    requires x < c.xwidth && y < c.ywidth
    ensures y * c.xwidth + x < c.xwidth * c.ywidth
  {
    assert (y + 1) * c.xwidth <= c.ywidth * c.xwidth by { Scale(y + 1, c.ywidth, c.xwidth); }
  }

  /** Two pixels share a cell only if they are the same pixel. */
  lemma CellsApart(x: nat, x': nat, n: nat)
    requires n > 0 && x / n == x' / n && x % n == x' % n
    ensures x == x'
  {
    DivMod(x, n);
    DivMod(x', n);
  }

  /** The first loops: subtables of the right sizes, full of zeros, and their order. */
  method ZeroTables(c: Cut) returns (tables: map<(nat, nat), Table>, order: seq<(nat, nat)>)
    requires c.Valid()
    ensures Shaped(tables, c)
    ensures forall k :: k in order <==> k in tables
  {
    hide Chunks, Dim;
    tables, order := map[], [];
    for i := 0 to Chunks(c.xwidth, c.nc)
      invariant forall a: nat, b: nat :: (a, b) in tables <==> a < i && b < Chunks(c.ywidth, c.nr)
      invariant Sized(tables, c)
      invariant forall k :: k in order <==> k in tables
    {
      DimIsPositive(i, c.xwidth, c.nc);
      for j := 0 to Chunks(c.ywidth, c.nr)
        invariant forall a: nat, b: nat ::
                    (a, b) in tables <==> (a < i && b < Chunks(c.ywidth, c.nr)) || (a == i && b < j)
        invariant Sized(tables, c)
        invariant forall k :: k in order <==> k in tables
      {
        DimIsPositive(j, c.ywidth, c.nr);
        var xdim := Dim(i, c.xwidth, c.nc);
        var ydim := Dim(j, c.ywidth, c.nr);
        if xdim != 0 && ydim != 0 {
          tables := tables[(i, j) := seq(ydim, _ => seq(xdim, _ => 0))];
          order := order + [(i, j)];
        }
      }
    }
  }

  ghost predicate Sized(tables: map<(nat, nat), Table>, c: Cut)
    requires c.Valid()
  {
    forall k <- tables ::
      && |tables[k]| == Dim(k.1, c.ywidth, c.nr)
      && forall row <- tables[k] :: |row| == Dim(k.0, c.xwidth, c.nc)
  }

  /** One pixel of the list into its cell. */
  method Store(tables: map<(nat, nat), Table>, c: Cut, x: nat, y: nat, v: nat) returns (r: map<(nat, nat), Table>)
    requires c.Valid() && Shaped(tables, c) && x < c.xwidth && y < c.ywidth
    ensures Shaped(r, c) && r.Keys == tables.Keys
    ensures Cell(r, c, x, y) == v
    ensures forall a, b :: 0 <= a < c.xwidth && 0 <= b < c.ywidth && (a != x || b != y) ==>
              Cell(r, c, a, b) == Cell(tables, c, a, b)
  {
    hide Chunks, Dim;
    CellExists(tables, c, x, y);
    var k := (x / c.nc, y / c.nr);
    var table := tables[k];
    var row := table[y % c.nr];
    var row' := row[x % c.nc := v];
    assert row in table;
    var table' := table[y % c.nr := row'];
    r := tables[k := table'];
    forall a, b | 0 <= a < c.xwidth && 0 <= b < c.ywidth && (a != x || b != y)
      ensures Cell(r, c, a, b) == Cell(tables, c, a, b)
    {
      CellExists(tables, c, a, b);
      if a / c.nc == x / c.nc && a % c.nc == x % c.nc { CellsApart(a, x, c.nc); }
      if b / c.nr == y / c.nr && b % c.nr == y % c.nr { CellsApart(b, y, c.nr); }
    }
  }

  /** The subtables of a sprite: zeros first, then every pixel of the list into its cell. */
  method Split(lst: seq<nat>, c: Cut) returns (tables: map<(nat, nat), Table>, order: seq<(nat, nat)>)
    requires c.Valid() && |lst| >= c.xwidth * c.ywidth
    ensures Shaped(tables, c)
    ensures forall k :: k in order <==> k in tables
    ensures forall x, y :: 0 <= x < c.xwidth && 0 <= y < c.ywidth ==> Filled(tables, c, lst, x, y)
  {
    hide Cell, Shaped, Filled;
    tables, order := ZeroTables(c);
    for j := 0 to c.ywidth
      invariant Shaped(tables, c) && forall k :: k in order <==> k in tables
      invariant forall x, y :: 0 <= x < c.xwidth && 0 <= y < j ==> Filled(tables, c, lst, x, y)
    {
      for i := 0 to c.xwidth
        invariant Shaped(tables, c) && forall k :: k in order <==> k in tables
        invariant forall x, y :: 0 <= x < c.xwidth && 0 <= y < j ==> Filled(tables, c, lst, x, y)
        invariant forall x :: 0 <= x < i ==> Filled(tables, c, lst, x, j)
      {
        tables := StorePixel(tables, c, lst, i, j);
      }
    }
  }

  method StorePixel(tables: map<(nat, nat), Table>, c: Cut, lst: seq<nat>, i: nat, j: nat)
    returns (r: map<(nat, nat), Table>)
    requires c.Valid() && |lst| >= c.xwidth * c.ywidth
    requires Shaped(tables, c) && i < c.xwidth && j < c.ywidth
    ensures Shaped(r, c) && r.Keys == tables.Keys && Filled(r, c, lst, i, j)
    ensures forall x, y :: 0 <= x < c.xwidth && 0 <= y < c.ywidth && Filled(tables, c, lst, x, y) ==>
              Filled(r, c, lst, x, y)
  {
    hide Cell, Shaped;
    PixelIsInList(c, i, j);
    r := Store(tables, c, i, j, lst[j * c.xwidth + i]);
  }

  /** The cell of pixel (x, y) holds what the list has for it. */
  ghost predicate Filled(tables: map<(nat, nat), Table>, c: Cut, lst: seq<nat>, x: nat, y: nat)
    requires c.Valid() && Shaped(tables, c) && x < c.xwidth && y < c.ywidth
  {
    y * c.xwidth + x < |lst| && Cell(tables, c, x, y) == lst[y * c.xwidth + x]
  }

  // ---------------------------------------------------------------- the chain agrees with the list

  lemma {:induction false} ChainTakesTheOne(order: seq<(nat, nat)>, tables: map<(nat, nat), Table>, c: Cut,
                                            x: nat, y: nat)
    requires c.Valid() && Shaped(tables, c) && x < c.xwidth && y < c.ywidth
    requires (x / c.nc, y / c.nr) in order
    ensures Select(order, tables, c, x, y) == Some(Cell(tables, c, x, y))
  {
    hide Condition;
    ExactlyOneCondition(c, x, y, order[0]);
    if order[0] == (x / c.nc, y / c.nr) {
      CellExists(tables, c, x, y);
    } else {
      ChainTakesTheOne(order[1..], tables, c, x, y);
    }
  }

  lemma {:induction false} ChainTakesNone(order: seq<(nat, nat)>, tables: map<(nat, nat), Table>, c: Cut,
                                          x: nat, y: nat)
    requires c.Valid() && (x >= c.xwidth || y >= c.ywidth)
    ensures Select(order, tables, c, x, y) == Some(0)
  {
    if order != [] { ChainTakesNone(order[1..], tables, c, x, y); }
  }

  /** Whatever order the subtables are in, the chain shows every pixel of the image as the list
      has it, and zero everywhere else; no access leaves a subtable. */
  lemma SplitShowsTheImage(lst: seq<nat>, c: Cut, tables: map<(nat, nat), Table>, order: seq<(nat, nat)>,
                           x: nat, y: nat)
    requires c.Valid() && Shaped(tables, c) && forall k :: k in order <==> k in tables
    requires forall x, y :: 0 <= x < c.xwidth && 0 <= y < c.ywidth ==> Filled(tables, c, lst, x, y)
    ensures Select(order, tables, c, x, y) ==
            Some(if x < c.xwidth && y < c.ywidth && y * c.xwidth + x < |lst| then lst[y * c.xwidth + x] else 0)
  {
    if x < c.xwidth && y < c.ywidth {
      CellExists(tables, c, x, y);
      ChainTakesTheOne(order, tables, c, x, y);
      assert Filled(tables, c, lst, x, y);
    } else {
      ChainTakesNone(order, tables, c, x, y);
    }
  }
}
