// The in-place palette rewrite of conv_to_sv.py: every colour of a channel is replaced by its
// index in the palette, one colour after the other, in the same list.
module Palette {
  import opened Colours
  import opened ColourReduction

  /** The colours of a channel in the order in which they first occur. */
  ghost function Distinct(lst: seq<nat>): (keys: seq<nat>)
    ensures forall x :: x in keys <==> x in lst
    ensures forall i, j :: 0 <= i < j < |keys| ==> keys[i] != keys[j]
  {
    if lst == [] then []
    else
      var keys, x := Distinct(lst[..|lst| - 1]), lst[|lst| - 1];
      assert lst == lst[..|lst| - 1] + [x];
      if x in keys then keys else keys + [x]
  }

  // ---------------------------------------------------------------- the order of the palette

  /** The colours of the cells before c. */
  ghost function Seen(lst: seq<nat>, c: nat): set<nat>
    requires c <= |lst|
  {
    set x | x in lst[..c]
  }

  /** Where a colour first occurs. */
  ghost function First(lst: seq<nat>, x: nat): (c: nat)
    requires x in lst
    ensures c < |lst| && lst[c] == x && x !in lst[..c]
  {
    if x in lst[..|lst| - 1] then
      assert lst[..|lst| - 1] <= lst;
      First(lst[..|lst| - 1], x)
    else |lst| - 1
  }

  /** The palette grows by the colours of the cells that have a new one. */
  lemma DistinctSnoc(lst: seq<nat>, c: nat)
    requires c < |lst|
    ensures Distinct(lst[..c + 1]) == Distinct(lst[..c]) + (if lst[c] in lst[..c] then [] else [lst[c]])
  {
    assert lst[..c + 1][..c] == lst[..c];
  }

  /** After c cells the palette is the front of the whole palette, as long as there are colours. */
  lemma {:induction false} FrontOfPalette(lst: seq<nat>, c: nat)
    requires c <= |lst|
    ensures Distinct(lst[..c]) <= Distinct(lst)
    ensures |Distinct(lst[..c])| == |Seen(lst, c)|
    decreases |lst| - c
  {
    hide Distinct;
    AsManyAsSeen(lst, c);
    if c < |lst| {
      FrontOfPalette(lst, c + 1);
      DistinctSnoc(lst, c);
    } else {
      assert lst[..c] == lst;
    }
  }

  lemma {:induction false} AsManyAsSeen(lst: seq<nat>, c: nat)
    requires c <= |lst|
    ensures |Distinct(lst[..c])| == |Seen(lst, c)|
  {
    hide Distinct;
    if c == 0 {
      assert Seen(lst, 0) == {} && lst[..0] == [];
      Nothing();
    } else {
      AsManyAsSeen(lst, c - 1);
      DistinctSnoc(lst, c - 1);
      assert lst[..c] == lst[..c - 1] + [lst[c - 1]];
      assert Seen(lst, c) == Seen(lst, c - 1) + {lst[c - 1]};
    }
  }

  lemma Nothing()
    ensures Distinct([]) == []
  {
  }

  /** A colour's index in the palette is the number of different colours before its first cell. */
  lemma PaletteIndexIsCount(lst: seq<nat>, c: nat)
    requires c < |lst| && lst[c] !in lst[..c]
    ensures |Seen(lst, c)| < |Distinct(lst)| && Distinct(lst)[|Seen(lst, c)|] == lst[c]
  {
    hide Distinct, Seen;
    FrontOfPalette(lst, c);
    FrontOfPalette(lst, c + 1);
    DistinctSnoc(lst, c);
  }

  /** The palette has the colours in the order in which they first occur. */
  lemma FirstOccurrencesAscend(lst: seq<nat>, i: nat, j: nat)
    requires i < j < |Distinct(lst)|
    ensures var keys := Distinct(lst); keys[i] in lst && keys[j] in lst && First(lst, keys[i]) < First(lst, keys[j])
  {
    hide Distinct, Seen, First;
    var keys := Distinct(lst);
    assert keys[i] in keys && keys[j] in keys;
    var a, b := First(lst, keys[i]), First(lst, keys[j]);
    PaletteIndexIsCount(lst, a);
    PaletteIndexIsCount(lst, b);
    if b <= a { SeenGrows(lst, b, a); }
  }

  lemma SeenGrows(lst: seq<nat>, b: nat, a: nat)
    requires b <= a <= |lst|
    ensures |Seen(lst, b)| <= |Seen(lst, a)|
  {
    assert Seen(lst, b) <= Seen(lst, a);
    Subset(Seen(lst, b), Seen(lst, a));
  }

  lemma {:induction false} Subset(s: set<nat>, t: set<nat>)
    requires s <= t
    ensures |s| <= |t|
  {
    assert t == s + (t - s) && s !! (t - s);
  }

  /** Each colour is at least the number of different colours before its first cell. */
  ghost predicate ColoursKeepUp(lst: seq<nat>) {
    forall c | 0 <= c < |lst| && lst[c] !in lst[..c] :: |Seen(lst, c)| <= lst[c]
  }

  lemma KeepUpIsLarge(lst: seq<nat>)
    ensures ColoursKeepUp(lst) <==> Large(Distinct(lst))
  {
    hide Distinct, First, Seen;
    var keys := Distinct(lst);
    if ColoursKeepUp(lst) {
      forall j | 0 <= j < |keys| ensures keys[j] >= j {
        assert keys[j] in keys;
        PaletteIndexIsCount(lst, First(lst, keys[j]));
      }
    }
    if Large(keys) {
      forall c | 0 <= c < |lst| && lst[c] !in lst[..c] ensures |Seen(lst, c)| <= lst[c] {
        PaletteIndexIsCount(lst, c);
      }
    }
  }

  // ---------------------------------------------------------------- the cells

  /** What becomes of a cell holding v in the passes for keys[i..]. */
  ghost function Chase(v: nat, keys: seq<nat>, i: nat): nat
    requires i <= |keys|
    decreases |keys| - i
  {
    if i == |keys| then v else Chase(if v == keys[i] then i else v, keys, i + 1)
  }

  /** The cells after all passes. */
  ghost function Rewritten(lst: seq<nat>): (r: seq<nat>)
    ensures |r| == |lst| && forall c :: 0 <= c < |lst| ==> r[c] == Chase(lst[c], Distinct(lst), 0)
  {
    seq(|lst|, c requires 0 <= c < |lst| => Chase(lst[c], Distinct(lst), 0))
  }

  // ---------------------------------------------------------------- when the rewrite is right

  /** A cell is found by the pass for its own colour ... */
  lemma {:induction false} ChaseFinds(keys: seq<nat>, j: nat, i: nat)
    requires i <= j < |keys| && forall a, b :: 0 <= a < b < |keys| ==> keys[a] != keys[b]
    ensures Chase(keys[j], keys, i) == Chase(j, keys, j + 1)
    decreases j - i
  {
    if i < j { ChaseFinds(keys, j, i + 1); }
  }

  /** ... and keeps its index unless a later colour is that number; then it ends up higher. */
  lemma {:induction false} ChaseKeeps(v: nat, keys: seq<nat>, i: nat)
    requires v < i <= |keys|
    ensures v <= Chase(v, keys, i) < |keys|
    ensures v !in keys[i..] ==> Chase(v, keys, i) == v
    ensures v in keys[i..] ==> Chase(v, keys, i) > v
    decreases |keys| - i
  {
    if i < |keys| {
      assert keys[i..] == [keys[i]] + keys[i + 1..];
      ChaseKeeps(if v == keys[i] then i else v, keys, i + 1);
    }
  }

  /** The palette gives a cell its colour back exactly if no later colour equals its index. */
  lemma CellIsRight(lst: seq<nat>, j: nat)
    requires j < |Distinct(lst)|
    ensures var keys := Distinct(lst);
            var cell := Chase(keys[j], keys, 0);
            cell < |keys| && (keys[cell] == keys[j] <==> j !in keys[j + 1..])
  {
    var keys := Distinct(lst);
    ChaseFinds(keys, j, 0);
    ChaseKeeps(j, keys, j + 1);
  }

  /** Looking every cell up gives the channel back if and only if no colour is a number smaller
      than the count of different colours before its first cell. */
  lemma RewriteIsRightExactlyWhen(lst: seq<nat>)
    ensures var keys, r := Distinct(lst), Rewritten(lst);
            && (forall c :: 0 <= c < |lst| ==> r[c] < |keys|)
            && ((forall c :: 0 <= c < |lst| ==> keys[r[c]] == lst[c])
                <==> forall c | 0 <= c < |lst| && lst[c] !in lst[..c] :: |Seen(lst, c)| <= lst[c])
  {
    hide Distinct, Rewritten, Seen;
    KeepUpIsLarge(lst);
    var keys, r := Distinct(lst), Rewritten(lst);
    forall c | 0 <= c < |lst|
      ensures r[c] < |keys|
      ensures Large(keys) ==> keys[r[c]] == lst[c]
    {
      CellComesBack(lst, c);
    }
    if !Large(keys) {
      var c := CellIsLost(lst);
      assert keys[r[c]] != lst[c];
    }
  }

  ghost predicate Large(keys: seq<nat>) { forall j :: 0 <= j < |keys| ==> keys[j] >= j }

  lemma CellComesBack(lst: seq<nat>, c: nat)
    requires c < |lst|
    ensures var keys, cell := Distinct(lst), Rewritten(lst)[c];
            cell < |keys| && (Large(keys) ==> keys[cell] == lst[c])
  {
    hide Distinct, Chase;
    var keys := Distinct(lst);
    assert lst[c] in keys;
    var j :| 0 <= j < |keys| && keys[j] == lst[c];
    CellIsRight(lst, j);
    if Large(keys) { NoneLater(keys, j); }
  }

  lemma NoneLater(keys: seq<nat>, j: nat)
    requires j < |keys| && Large(keys)
    ensures j !in keys[j + 1..]
  {
  }

  lemma CellIsLost(lst: seq<nat>) returns (c: nat)
    requires !Large(Distinct(lst))
    ensures c < |lst| && Rewritten(lst)[c] < |Distinct(lst)| && Distinct(lst)[Rewritten(lst)[c]] != lst[c]
  {
    hide Distinct, Chase;
    var keys := Distinct(lst);
    var k :| 0 <= k < |keys| && keys[k] < k;
    var j := keys[k];
    CellIsRight(lst, j);
    assert keys[j + 1..][k - j - 1] == j;
    assert keys[j] in keys;
    c :| 0 <= c < |lst| && lst[c] == keys[j];
  }

  /** A two-pixel channel that the rewrite destroys. */
  lemma BlackAfterAnotherColour()
    ensures Distinct([200, 0]) == [200, 0] && Rewritten([200, 0]) == [1, 1]
  {
    assert [200, 0][..1] == [200] && [200][..0] == [];
    assert Distinct([]) == [];
    assert Distinct([200]) == [200];
    var keys := Distinct([200, 0]);
    assert Chase(200, keys, 0) == Chase(0, keys, 1) == Chase(1, keys, 2) == 1;
    assert Chase(0, keys, 0) == Chase(0, keys, 1);
  }

  /** The same two colours with 0 first come back. */
  lemma BlackBeforeAnotherColour()
    ensures Distinct([0, 200, 0]) == [0, 200] && Rewritten([0, 200, 0]) == [0, 1, 0]
  {
    hide Distinct, Chase;
    var lst := [0, 200, 0];
    Nothing();
    DistinctSnoc(lst, 0);
    DistinctSnoc(lst, 1);
    DistinctSnoc(lst, 2);
    assert lst[..0] == [] && lst[..1] == [0] && lst[..2] == [0, 200] && lst[..3] == lst;
    var keys := [0, 200];
    ChaseTwo(keys, 0);
    ChaseTwo(keys, 200);
  }

  lemma ChaseTwo(keys: seq<nat>, v: nat)
    requires keys == [0, 200] && v in keys
    ensures Chase(v, keys, 0) == if v == 0 then 0 else 1
  {
    assert Chase(0, keys, 2) == 0 && Chase(1, keys, 2) == 1;
    assert Chase(0, keys, 1) == 0;
  }

  /** Reduction and rewrite together: the picture shown by palette and cells is nowhere more than
      `dist` away from the original, under the same condition on the reduced channel. */
  lemma PictureIsFaithful(lst: seq<nat>, dist: nat)
    requires ColoursKeepUp(Reduced(lst, dist))
    ensures var keys, cells := Distinct(Reduced(lst, dist)), Rewritten(Reduced(lst, dist));
            && |cells| == |lst|
            && forall c :: 0 <= c < |lst| ==> cells[c] < |keys| && Gap(lst[c], keys[cells[c]]) <= dist
  {
    hide Reduced, Distinct, Rewritten, Seen;
    ReductionIsFaithful(lst, dist);
    RewriteIsRightExactlyWhen(Reduced(lst, dist));
  }

  // ---------------------------------------------------------------- the routine

  /** The first loops of split_sprite_table: collect the colours, then rewrite in place.  With
      fewer than two colours it fails before that, at the logarithm of zero. */
  method Rewrite(lst: array<nat>) returns (ok: bool, colors: seq<nat>)
    modifies lst
    ensures ok <==> |Distinct(old(lst[..]))| >= 2
    ensures ok ==> colors == Distinct(old(lst[..])) && lst[..] == Rewritten(old(lst[..]))
    ensures !ok ==> lst[..] == old(lst[..])
  {
    hide Distinct, Chase;
    ghost var before := lst[..];
    var counts := DictionaryOrder(lst);
    ok, colors := |counts| >= 2, [];
    if !ok { return; }
    for i := 0 to |counts|
      invariant colors == counts[..i]
      invariant forall c :: 0 <= c < lst.Length ==> Chase(lst[c], counts, i) == Chase(before[c], counts, 0)
    {
      var key := counts[i];
      ghost var cells := lst[..];
      for c := 0 to lst.Length
        invariant lst[c..] == cells[c..]
        invariant forall d :: 0 <= d < c ==> lst[d] == if cells[d] == key then i else cells[d]
      {
        assert lst[c] == cells[c];
        if lst[c] == key {
          lst[c] := i;
        }
      }
      forall c | 0 <= c < lst.Length
        ensures Chase(lst[c], counts, i + 1) == Chase(before[c], counts, 0)
      {
        ChaseStep(cells[c], counts, i);
      }
      colors := colors + [key];
    }
    forall c | 0 <= c < lst.Length
      ensures lst[c] == Chase(before[c], counts, 0)
    {
      ChaseEnd(lst[c], counts);
    }
  }

  lemma ChaseStep(v: nat, keys: seq<nat>, i: nat)
    requires i < |keys|
    ensures Chase(v, keys, i) == Chase(if v == keys[i] then i else v, keys, i + 1)
  {
  }

  lemma ChaseEnd(v: nat, keys: seq<nat>)
    ensures Chase(v, keys, |keys|) == v
  {
  }

  /** The keys of the counting dictionary, in insertion order. */
  method DictionaryOrder(lst: array<nat>) returns (keys: seq<nat>)
    ensures keys == Distinct(lst[..])
    ensures forall i, j :: 0 <= i < j < |keys| ==>
              keys[i] in lst[..] && keys[j] in lst[..] && First(lst[..], keys[i]) < First(lst[..], keys[j])
  {
    hide First;
    keys := [];
    for i := 0 to lst.Length
      invariant keys == Distinct(lst[..i])
    {
      assert lst[..i + 1][..i] == lst[..i];
      if lst[i] !in keys {
        keys := keys + [lst[i]];
      }
    }
    assert lst[..lst.Length] == lst[..];
    forall i, j | 0 <= i < j < |keys|
      ensures keys[i] in lst[..] && keys[j] in lst[..] && First(lst[..], keys[i]) < First(lst[..], keys[j])
    {
      FirstOccurrencesAscend(lst[..], i, j);
    }
  }
}
