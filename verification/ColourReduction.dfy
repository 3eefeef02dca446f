// combine_channels: every pixel of a channel is replaced by the key of its colour's group.
module ColourReduction {
  import opened Colours

  ghost function ColoursOf(lst: seq<nat>): set<nat> { set x <- lst }

  /** The groups that a channel's colours fall into. */
  ghost function GroupsOf(lst: seq<nat>, dist: nat): seq<Group> { Groups(Sorted(ColoursOf(lst)), dist) }

  /** The channel after reduction. */
  ghost function Reduced(lst: seq<nat>, dist: nat): (r: seq<nat>)
    ensures |r| == |lst| && forall i :: 0 <= i < |lst| ==> r[i] == KeyFor(GroupsOf(lst, dist), lst[i])
  {
    seq(|lst|, i requires 0 <= i < |lst| => KeyFor(GroupsOf(lst, dist), lst[i]))
  }

  // ---------------------------------------------------------------- what reduction achieves

  lemma GroupsAreSound(lst: seq<nat>, dist: nat)
    ensures var gs := GroupsOf(lst, dist);
            && WellGrouped(gs, dist)
            && (forall x :: x in Flatten(gs) <==> x in lst)
            && (forall x <- lst :: KeyFor(gs, x) in Keys(gs) && Gap(x, KeyFor(gs, x)) <= dist)
            && (forall k <- Keys(gs) :: k in lst && KeyFor(gs, k) == k)
            && Spread(Keys(gs), dist) && Ascending(Keys(gs))
  {
    hide Groups, WellGrouped, Sorted, KeyFor;
    var s := Sorted(ColoursOf(lst));
    GroupsPartition(s, dist);
    GroupsReach(s, dist);
    KeysReach(Groups(s, dist), dist);
    KeysSpread(Groups(s, dist), dist);
  }

  /** No pixel moves by more than `dist`, no new colour appears, and what is left are colours
      more than `dist` apart. */
  lemma ReductionIsFaithful(lst: seq<nat>, dist: nat)
    ensures var r := Reduced(lst, dist);
            && (forall i :: 0 <= i < |lst| ==> Gap(lst[i], r[i]) <= dist && r[i] in lst)
            && (forall x, y :: x in r && y in r && x != y ==> Gap(x, y) > dist)
  {
    hide GroupsOf, WellGrouped, KeyFor, Keys, Reduced, Ascending, Flatten, Spread, Gap;
    var r, keys := Reduced(lst, dist), Keys(GroupsOf(lst, dist));
    GroupsAreSound(lst, dist);
    forall i | 0 <= i < |lst| ensures Gap(lst[i], r[i]) <= dist && r[i] in lst && r[i] in keys {
      assert lst[i] in lst;
    }
    forall x, y | x in r && y in r && x != y ensures Gap(x, y) > dist {
      KeysApart(keys, dist, x, y);
    }
  }

  lemma KeysApart(keys: seq<nat>, dist: nat, x: nat, y: nat)
    requires Spread(keys, dist) && x in keys && y in keys && x != y
    ensures Gap(x, y) > dist
  {
    var i, j :| 0 <= i < |keys| && 0 <= j < |keys| && keys[i] == x && keys[j] == y;
  }

  /** The palette of the reduced channel has the least possible size: no set of its colours
      that reaches all of them is smaller. */
  lemma ReductionIsMinimal(lst: seq<nat>, dist: nat, chosen: set<nat>)
    requires chosen <= ColoursOf(lst) && Covers(chosen, lst, dist)
    ensures |ColoursOf(Reduced(lst, dist))| <= |chosen|
  {
    hide Groups, WellGrouped, KeyFor, Reduced, Ascending, Flatten;
    var s := Sorted(ColoursOf(lst));
    GroupsAreSound(lst, dist);
    SizeOfKeys(ColoursOf(Reduced(lst, dist)), Keys(GroupsOf(lst, dist)));
    GreedyIsMinimal(s, dist, chosen);
  }

  lemma {:induction false} SizeOfKeys(s: set<nat>, keys: seq<nat>)
    requires forall x <- s :: x in keys
    ensures |s| <= |keys|
  {
    if keys == [] {
      assert s == {};
    } else {
      SizeOfKeys(s - {keys[0]}, keys[1..]);
    }
  }

  /** Reducing a reduced channel changes nothing. */
  lemma ReductionIsIdempotent(lst: seq<nat>, dist: nat)
    ensures Reduced(Reduced(lst, dist), dist) == Reduced(lst, dist)
  {
    hide Groups, WellGrouped, Sorted, KeyFor, Reduced;
    var gs, r := GroupsOf(lst, dist), Reduced(lst, dist);
    var keys := Keys(gs);
    GroupsAreSound(lst, dist);
    forall x ensures x in keys <==> x in r {
      if x in keys {
        var i :| 0 <= i < |lst| && lst[i] == x;
        assert r[i] == x;
      }
    }
    SortedIsUnique(Sorted(ColoursOf(r)), keys);
    SpreadColoursStay(keys, dist);
  }

  /** Colours more than `dist` apart are groups of their own. */
  lemma {:induction false} SpreadColoursStay(keys: seq<nat>, dist: nat)
    requires Ascending(keys) && Spread(keys, dist)
    ensures forall k <- keys :: KeyFor(Groups(keys, dist), k) == k
  {
    hide Groups, KeyFor, WellGrouped;
    GroupsReach(keys, dist);
    GroupsPartition(keys, dist);
    KeysReach(Groups(keys, dist), dist);
    var gs := Groups(keys, dist);
    KeysSpread(gs, dist);
    forall k | k in keys ensures KeyFor(gs, k) == k {
      assert KeyFor(gs, k) in keys && Gap(k, KeyFor(gs, k)) <= dist;
      var i, j :| 0 <= i < |keys| && 0 <= j < |keys| && keys[i] == k && keys[j] == KeyFor(gs, k);
    }
  }

  // ---------------------------------------------------------------- the routine

  method CountColours(lst: array<nat>) returns (counts: map<nat, nat>)
    ensures counts.Keys == ColoursOf(lst[..])
    ensures forall x <- counts :: counts[x] == multiset(lst[..])[x]
  {
    counts := map[];
    for i := 0 to lst.Length
      invariant counts.Keys == ColoursOf(lst[..i])
      invariant forall x <- counts :: counts[x] == multiset(lst[..i])[x]
    {
      var el := lst[i];
      assert lst[..i + 1] == lst[..i] + [el];
      counts := counts[el := (if el in counts then counts[el] else 0) + 1];
    }
    assert lst[..lst.Length] == lst[..];
  }

  /** The replacement list of a group: its members but for the key. */
  predicate Replaces(g: Group, el: nat) { el != g.key && el in g.members }

  lemma {:induction false} KeyForSnoc(groups: seq<Group>, g: nat, x: nat, dist: nat)
    requires WellGrouped(groups, dist) && g < |groups|
    ensures KeyFor(groups[..g + 1], x) ==
            if Replaces(groups[g], x) then groups[g].key else KeyFor(groups[..g], x)
  {
    if g == 0 {
      assert groups[..1] == [groups[0]];
    } else {
      var rest := groups[1..];
      KeyForSnoc(rest, g - 1, x, dist);
      assert groups[..g + 1][1..] == rest[..g] && groups[..g][1..] == rest[..g - 1];
      assert groups[g] in rest;
    }
  }

  /** combine_channels: count, group, and replace in place. */
  method CombineChannels(lst: array<nat>, dist: nat)
    modifies lst
    ensures lst[..] == Reduced(old(lst[..]), dist)
  {
    hide Groups, WellGrouped, Sorted, KeyFor, Reduced, Replaces;
    ghost var before := lst[..];
    var counts := CountColours(lst);
    var groups, totals := CombineCore(counts, dist);
    assert groups == GroupsOf(before, dist);
    GroupsAreSound(before, dist);
    for i := 0 to lst.Length
      invariant lst[i..] == before[i..]
      invariant forall j :: 0 <= j < i ==> lst[j] == KeyFor(groups, before[j])
    {
      var el := lst[i];
      assert el == before[i];
      assert KeyFor(groups[..0], el) == el by { KeyForNone(el); }
      for g := 0 to |groups|
        invariant lst[i + 1..] == before[i + 1..]
        invariant forall j :: 0 <= j < i ==> lst[j] == KeyFor(groups, before[j])
        invariant lst[i] == KeyFor(groups[..g], el)
      {
        KeyForSnoc(groups, g, el, dist);
        if Replaces(groups[g], el) {
          lst[i] := groups[g].key;
        }
      }
      assert groups[..|groups|] == groups;
    }
  }

  lemma KeyForNone(x: nat)
    ensures KeyFor([], x) == x
  {
  }

  /** The pixels that the groups stand for are all the pixels there are. */
  lemma PixelsAreConserved(lst: seq<nat>, dist: nat, counts: map<nat, nat>)
    requires counts.Keys == ColoursOf(lst)
    requires forall x <- counts :: counts[x] == multiset(lst)[x]
    ensures var gs := GroupsOf(lst, dist);
            (forall g <- gs :: forall x <- g.members :: x in counts) && GroupTally(counts, gs) == |lst|
  {
    hide Groups, WellGrouped, Sorted, KeyFor;
    var gs := GroupsOf(lst, dist);
    GroupsAreSound(lst, dist);
    FlattenHolds(gs);
    GroupTallyIsTally(counts, gs);
    GroupsPartition(Sorted(ColoursOf(lst)), dist);
    TallyIsSize(counts, Sorted(ColoursOf(lst)), multiset(lst));
  }

  ghost function GroupTally(counts: map<nat, nat>, groups: seq<Group>): nat
    requires forall g <- groups :: forall x <- g.members :: x in counts
  {
    if groups == [] then 0 else Tally(counts, groups[0].members) + GroupTally(counts, groups[1..])
  }

  lemma {:induction false} GroupTallyIsTally(counts: map<nat, nat>, groups: seq<Group>)
    requires forall g <- groups :: forall x <- g.members :: x in counts
    requires forall x <- Flatten(groups) :: x in counts
    ensures GroupTally(counts, groups) == Tally(counts, Flatten(groups))
  {
    if groups != [] {
      GroupTallyIsTally(counts, groups[1..]);
      TallySum(counts, groups[0].members, Flatten(groups[1..]));
    }
  }

  lemma {:induction false} TallySum(counts: map<nat, nat>, a: seq<nat>, b: seq<nat>)
    requires forall x <- a :: x in counts
    requires forall x <- b :: x in counts
    ensures Tally(counts, a + b) == Tally(counts, a) + Tally(counts, b)
  {
    if b == [] {
      assert a + b == a;
    } else {
      TallySum(counts, a, b[..|b| - 1]);
      assert (a + b)[..|a + b| - 1] == a + b[..|b| - 1];
    }
  }

  lemma {:induction false} TallyIsSize(counts: map<nat, nat>, s: seq<nat>, pixels: multiset<nat>)
    requires Ascending(s) && forall x <- s :: x in counts && counts[x] == pixels[x]
    requires forall x <- pixels :: x in s
    ensures Tally(counts, s) == |pixels|
  {
    if s == [] {
      assert pixels == multiset{};
    } else {
      var front, x := s[..|s| - 1], s[|s| - 1];
      TallyIsSize(counts, front, pixels[x := 0]);
    }
  }
}
