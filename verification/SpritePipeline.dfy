// generate_palette as a whole: reduce a channel, rewrite it to palette indices, cut it into
// subtables; and what the generated module then shows.
module SpritePipeline {
  import opened ColourReduction
  import opened Colours
  import opened Palette
  import opened SpriteChunks
  import opened Words
  import opened Wrappers

  /** The palette of a channel, and its cells before they are cut. */
  ghost function Colors(lst: seq<nat>, dist: nat): seq<nat> { Distinct(Reduced(lst, dist)) }

  ghost function Cells(lst: seq<nat>, dist: nat): seq<nat> { Rewritten(Reduced(lst, dist)) }

  /** The tables hold the cells of the channel. */
  ghost predicate Holds(tables: map<(nat, nat), Table>, order: seq<(nat, nat)>, c: Cut, cells: seq<nat>)
    requires c.Valid()
  {
    && Shaped(tables, c) && (forall k :: k in order <==> k in tables)
    && forall x, y :: 0 <= x < c.xwidth && 0 <= y < c.ywidth ==> Filled(tables, c, cells, x, y)
  }

  /** A generated module: its subtables, in the order in which it tests for them, and its palette. */
  datatype Module = Module(tables: map<(nat, nat), Table>, order: seq<(nat, nat)>, colors: seq<nat>)

  /** The place of pixel (x, y) in the list. */
  function Place(c: Cut, x: nat, y: nat): nat { y * c.xwidth + x }

  /** The module looks the pixel up in its palette and shows exactly this colour ... */
  predicate Shows(m: Module, c: Cut, x: nat, y: nat, colour: nat)
    requires c.Valid()
  {
    var cell := Select(m.order, m.tables, c, x, y);
    cell.Some? && cell.value < |m.colors| && m.colors[cell.value] == colour
  }

  /** ... or one that is near it. */
  predicate ShowsNear(m: Module, c: Cut, x: nat, y: nat, colour: nat, dist: nat)
    requires c.Valid()
  {
    var cell := Select(m.order, m.tables, c, x, y);
    cell.Some? && cell.value < |m.colors| && Gap(colour, m.colors[cell.value]) <= dist
  }

  /** The module of a channel. */
  ghost predicate Generated(m: Module, c: Cut, lst: seq<nat>, dist: nat)
    requires c.Valid()
  {
    |lst| == c.xwidth * c.ywidth && m.colors == Colors(lst, dist) && Holds(m.tables, m.order, c, Cells(lst, dist))
  }

  lemma SelectIsCell(m: Module, c: Cut, lst: seq<nat>, dist: nat, x: nat, y: nat)
    requires c.Valid() && Generated(m, c, lst, dist) && x < c.xwidth && y < c.ywidth
    ensures Place(c, x, y) < |lst| == |Reduced(lst, dist)| == |Cells(lst, dist)|
    ensures Select(m.order, m.tables, c, x, y) == Some(Cells(lst, dist)[Place(c, x, y)])
  {
    hide Shaped, Filled, Select, Reduced, Rewritten, Distinct;
    PixelIsInList(c, x, y);
    SplitShowsTheImage(Cells(lst, dist), c, m.tables, m.order, x, y);
  }

  /** A list index is the place of one pixel. */
  lemma PixelOf(c: Cut, i: nat) returns (x: nat, y: nat)
    requires i < c.xwidth * c.ywidth
    ensures x < c.xwidth && y < c.ywidth && i == Place(c, x, y)
  {
    Positive(c.xwidth, c.ywidth, i);
    x, y := i % c.xwidth, i / c.xwidth;
    DivMod(i, c.xwidth);
    if y >= c.ywidth { Scale(c.ywidth, y, c.xwidth); }
  }

  lemma Positive(a: nat, b: nat, i: nat)
    requires i < a * b
    ensures a > 0
  {
  }

  /** The module shows pixel (x, y) as the reduced channel has it. */
  ghost predicate PixelIsRight(m: Module, c: Cut, lst: seq<nat>, dist: nat, x: nat, y: nat)
    requires c.Valid()
  {
    Place(c, x, y) < |lst| && Shows(m, c, x, y, Reduced(lst, dist)[Place(c, x, y)])
  }

  /** The module shows every pixel as the reduced channel has it, if and only if in that channel
      each colour is at least the number of different colours before its first pixel. */
  lemma ModuleShowsReductionExactlyWhen(m: Module, c: Cut, lst: seq<nat>, dist: nat)
    requires c.Valid() && Generated(m, c, lst, dist)
    ensures (forall x, y | 0 <= x < c.xwidth && 0 <= y < c.ywidth :: PixelIsRight(m, c, lst, dist, x, y))
            <==> ColoursKeepUp(Reduced(lst, dist))
  {
    hide Generated, Select, Distinct, Rewritten, Reduced, Large, ColoursKeepUp;
    PaletteIs(m, c, lst, dist);
    KeepUpIsLarge(Reduced(lst, dist));
    if Large(m.colors) {
      forall x, y | 0 <= x < c.xwidth && 0 <= y < c.ywidth ensures PixelIsRight(m, c, lst, dist, x, y) {
        SelectIsCell(m, c, lst, dist, x, y);
        CellComesBack(Reduced(lst, dist), Place(c, x, y));
      }
    } else {
      var i := CellIsLost(Reduced(lst, dist));
      var x, y := PixelOf(c, i);
      SelectIsCell(m, c, lst, dist, x, y);
      assert !PixelIsRight(m, c, lst, dist, x, y);
    }
  }

  lemma PaletteIs(m: Module, c: Cut, lst: seq<nat>, dist: nat)
    requires c.Valid() && Generated(m, c, lst, dist)
    ensures m.colors == Distinct(Reduced(lst, dist)) && |Reduced(lst, dist)| == |lst| == c.xwidth * c.ywidth
  {
  }

  /** Under that condition the module shows no pixel more than `dist` away from the original. */
  lemma ModuleIsFaithful(m: Module, c: Cut, lst: seq<nat>, dist: nat, x: nat, y: nat)
    requires c.Valid() && Generated(m, c, lst, dist) && x < c.xwidth && y < c.ywidth
    requires ColoursKeepUp(Reduced(lst, dist))
    ensures Place(c, x, y) < |lst| && ShowsNear(m, c, x, y, lst[Place(c, x, y)], dist)
  {
    hide Generated, Select, Distinct, Rewritten, Reduced, Large, Place, ColoursKeepUp;
    KeepUpIsLarge(Reduced(lst, dist));
    PaletteIs(m, c, lst, dist);
    SelectIsCell(m, c, lst, dist, x, y);
    CellComesBack(Reduced(lst, dist), Place(c, x, y));
    ReductionIsFaithful(lst, dist);
  }

  /** generate_palette, from the cleaned list to the tables. */
  method GeneratePalette(lst: array<nat>, dist: nat, c: Cut) returns (ok: bool, m: Module)
    requires c.Valid() && lst.Length == c.xwidth * c.ywidth
    modifies lst
    ensures ok <==> |Colors(old(lst[..]), dist)| >= 2
    ensures ok ==> Generated(m, c, old(lst[..]), dist)
  {
    hide Distinct, Rewritten, Reduced, Shaped, Filled;
    var colors;
    CombineChannels(lst, dist);
    ok, colors := Rewrite(lst);
    if ok {
      var tables, order := Split(lst[..], c);
      m := Module(tables, order, colors);
    } else {
      m := Module(map[], [], []);
    }
  }
}
