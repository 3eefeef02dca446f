// Colour reduction as conv_to_sv.py does it: the colours of a channel, in ascending order,
// are grouped greedily so that each is within `dist` of the one that replaces its group.
module Colours {

  ghost predicate Ascending(s: seq<nat>) {
    forall i, j :: 0 <= i < j < |s| ==> s[i] < s[j]
  }

  /** A group of colours and the one that replaces them all. */
  datatype Group = Group(key: nat, members: seq<nat>)

  function Gap(a: nat, b: nat): nat { if a <= b then b - a else a - b }

  // ---------------------------------------------------------------- the grouping, declaratively

  /** How many colours at the start of s are at most `bound`. */
  ghost function Upto(s: seq<nat>, bound: nat): (n: nat)
    ensures n <= |s|
    ensures forall i :: 0 <= i < n ==> s[i] <= bound
    ensures n < |s| ==> s[n] > bound
  {
    if s == [] || s[0] > bound then 0 else 1 + Upto(s[1..], bound)
  }

  /** The largest colour within reach of the smallest. */
  ghost function FirstKey(s: seq<nat>, dist: nat): (key: nat)
    requires s != [] && Ascending(s)
    ensures s[0] <= key <= s[0] + dist && key in s
    ensures forall x <- s :: x <= s[0] + dist ==> x <= key
  {
    s[Upto(s, s[0] + dist) - 1]
  }

  /** The first group is keyed by the largest colour within reach of the smallest, and holds
      all that is within reach of that key; the other colours are grouped likewise. */
  ghost function Groups(s: seq<nat>, dist: nat): seq<Group>
    requires Ascending(s)
    decreases |s|
  {
    if s == [] then []
    else
      var key := FirstKey(s, dist);
      var n := Upto(s, key + dist);
      [Group(key, s[..n])] + Groups(s[n..], dist)
  }

  /** The key that replaces colour x. */
  ghost function KeyFor(groups: seq<Group>, x: nat): nat {
    if groups == [] then x
    else if x in groups[0].members then groups[0].key
    else KeyFor(groups[1..], x)
  }

  // ---------------------------------------------------------------- what the grouping achieves

  /** Each colour of s is within reach of some member of `chosen`. */
  ghost predicate Covers(chosen: set<nat>, s: seq<nat>, dist: nat) {
    forall x <- s :: exists c <- chosen :: Gap(x, c) <= dist
  }

  ghost function Keys(groups: seq<Group>): (keys: seq<nat>)
    ensures |keys| == |groups| && forall i :: 0 <= i < |keys| ==> keys[i] == groups[i].key
  {
    if groups == [] then [] else [groups[0].key] + Keys(groups[1..])
  }

  ghost function Flatten(groups: seq<Group>): seq<nat> {
    if groups == [] then [] else groups[0].members + Flatten(groups[1..])
  }

  ghost predicate Reaches(g: Group, dist: nat) {
    g.key in g.members && forall x <- g.members :: Gap(x, g.key) <= dist
  }

  ghost predicate Above(groups: seq<Group>, bound: nat) {
    forall g <- groups :: forall x <- g.members :: x > bound
  }

  /** Each key belongs to its group and reaches all of it, and nothing of a later group. */
  ghost predicate WellGrouped(groups: seq<Group>, dist: nat) {
    groups != [] ==>
      Reaches(groups[0], dist) && Above(groups[1..], groups[0].key + dist) && WellGrouped(groups[1..], dist)
  }

  /** The first group takes a prefix of the colours and leaves those out of its key's reach. */
  lemma FirstGroup(s: seq<nat>, dist: nat) returns (key: nat, n: nat)
    requires s != [] && Ascending(s)
    ensures key == FirstKey(s, dist)
    ensures 0 < n <= |s| && Ascending(s[n..]) && s == s[..n] + s[n..]
    ensures Reaches(Group(key, s[..n]), dist)
    ensures forall x <- s[n..] :: x > key + dist
    ensures Groups(s, dist) == [Group(key, s[..n])] + Groups(s[n..], dist)
    ensures Groups(s, dist)[1..] == Groups(s[n..], dist)
  {
    hide Upto, FirstKey;
    key := FirstKey(s, dist);
    n := Upto(s, key + dist);
    TakesPrefix(s, dist, key, n);
  }

  lemma TakesPrefix(s: seq<nat>, dist: nat, key: nat, n: nat)
    requires Ascending(s) && n <= |s| && key in s && s[0] <= key
    requires forall i :: 0 <= i < n ==> s[i] <= key + dist
    requires key <= s[0] + dist
    requires n < |s| ==> s[n] > key + dist
    ensures 0 < n && key in s[..n] && s == s[..n] + s[n..] && Ascending(s[n..])
    ensures forall x <- s[..n] :: Gap(x, key) <= dist
    ensures forall x <- s[n..] :: x > key + dist
  {
    hide Ascending;
    var i :| 0 <= i < |s| && s[i] == key;
    if n < |s| { Ordered(s, n); }
    Ordered(s, 0);
    assert s[..n][i] == key;
    SuffixAscends(s, n);
    forall x <- s[..n] ensures Gap(x, key) <= dist {
      var j :| 0 <= j < n && s[..n][j] == x;
      assert s[0] <= s[j] == x;
    }
    forall x <- s[n..] ensures x > key + dist {
      var j :| 0 <= j < |s| - n && s[n..][j] == x;
      assert x == s[n + j] >= s[n];
    }
  }

  lemma Ordered(s: seq<nat>, n: nat)
    requires Ascending(s) && n < |s|
    ensures forall j :: n <= j < |s| ==> s[n] <= s[j]
  {
  }

  lemma SuffixAscends(s: seq<nat>, n: nat)
    requires Ascending(s) && n <= |s|
    ensures Ascending(s[n..]) && s == s[..n] + s[n..]
  {
  }

  /** The groups partition the colours, in order ... */
  lemma {:induction false} GroupsPartition(s: seq<nat>, dist: nat)
    requires Ascending(s)
    ensures Flatten(Groups(s, dist)) == s
    decreases |s|
  {
    hide FirstKey, Upto, Groups;
    if s == [] {
      assert Groups(s, dist) == [] by { NoGroups(dist); }
    } else {
      var key, n := FirstGroup(s, dist);
      GroupsPartition(s[n..], dist);
    }
  }

  lemma NoGroups(dist: nat)
    ensures Groups([], dist) == []
  {
  }

  lemma FlattenHolds(groups: seq<Group>)
    ensures forall g <- groups :: forall x <- g.members :: x in Flatten(groups)
  {
  }

  /** ... and are well formed. */
  lemma {:induction false} GroupsReach(s: seq<nat>, dist: nat)
    requires Ascending(s)
    ensures WellGrouped(Groups(s, dist), dist)
    decreases |s|
  {
    hide FirstKey, Upto, Groups, Reaches;
    if s == [] {
      NoGroups(dist);
    } else {
      var key, n := FirstGroup(s, dist);
      GroupsReach(s[n..], dist);
      GroupsPartition(s[n..], dist);
      FlattenHolds(Groups(s[n..], dist));
    }
  }

  /** No choice of colours that reaches every colour is smaller than the greedy one. */
  lemma {:induction false} GreedyIsMinimal(s: seq<nat>, dist: nat, chosen: set<nat>)
    requires Ascending(s)
    requires forall c <- chosen :: c in s || (s != [] && c < s[0])
    requires Covers(chosen, s, dist)
    ensures |Groups(s, dist)| <= |chosen|
    decreases |s|
  {
    hide Upto, Groups, FirstKey;
    if s == [] {
      NoGroups(dist);
    } else {
      var key, n := FirstGroup(s, dist);
      var low := set c <- chosen | c <= key;
      assert s[0] in s;
      var c0 :| c0 in chosen && Gap(s[0], c0) <= dist;
      CardinalityDrops(chosen, low, c0);
      LaterCover(s, dist, chosen, low, key, n);
      if n < |s| {
        LaterChoices(s, chosen, n);
        GreedyIsMinimal(s[n..], dist, chosen - low);
      } else {
        NoGroups(dist);
      }
    }
  }

  lemma LaterChoices(s: seq<nat>, chosen: set<nat>, n: nat)
    requires 0 < n < |s| && Ascending(s)
    requires forall c <- chosen :: c in s || c < s[0]
    ensures forall c <- chosen :: c in s[n..] || c < s[n..][0]
  {
    assert s == s[..n] + s[n..];
  }

  /** Colours out of reach of the first key are reached by choices above it. */
  lemma LaterCover(s: seq<nat>, dist: nat, chosen: set<nat>, low: set<nat>, key: nat, n: nat)
    requires n <= |s| && Covers(chosen, s, dist)
    requires forall x <- s[n..] :: x > key + dist
    requires low == set c <- chosen | c <= key
    ensures Covers(chosen - low, s[n..], dist)
  {
    forall x | x in s[n..]
      ensures exists c <- chosen - low :: Gap(x, c) <= dist
    {
      assert x in s;
      var c :| c in chosen && Gap(x, c) <= dist;
      assert c in chosen - low;
    }
  }

  lemma CardinalityDrops(chosen: set<nat>, low: set<nat>, c: nat)
    requires low <= chosen && c in low
    ensures |chosen - low| < |chosen|
  {
    assert chosen == (chosen - low) + low;
  }

  /** The keys are colours of the channel and reach them all, and no fewer colours do: the
      grouping needs the least possible palette. */
  lemma GreedyIsOptimal(s: seq<nat>, dist: nat)
    requires Ascending(s)
    ensures var keys := Keys(Groups(s, dist));
            && (forall k <- keys :: k in s)
            && Ascending(keys)
            && Covers((set k <- keys), s, dist)
            && forall chosen: set<nat> ::
                 (forall c <- chosen :: c in s) && Covers(chosen, s, dist) ==> |keys| <= |chosen|
  {
    hide Groups, Covers;
    GroupsReach(s, dist);
    GroupsPartition(s, dist);
    KeysSpread(Groups(s, dist), dist);
    KeysReach(Groups(s, dist), dist);
    KeysCover(Groups(s, dist), s, dist);
    forall chosen: set<nat> | (forall c <- chosen :: c in s) && Covers(chosen, s, dist)
      ensures |Groups(s, dist)| <= |chosen|
    {
      GreedyIsMinimal(s, dist, chosen);
    }
  }

  lemma KeysCover(groups: seq<Group>, s: seq<nat>, dist: nat)
    requires s == Flatten(groups)
    requires forall x <- s :: KeyFor(groups, x) in Keys(groups) && Gap(x, KeyFor(groups, x)) <= dist
    ensures Covers((set k <- Keys(groups)), s, dist)
  {
  }

  /** Keys are more than `dist` apart. */
  ghost predicate Spread(keys: seq<nat>, dist: nat) {
    forall i, j :: 0 <= i < j < |keys| ==> keys[j] > keys[i] + dist
  }

  lemma {:induction false} KeysSpread(groups: seq<Group>, dist: nat)
    requires WellGrouped(groups, dist)
    ensures Spread(Keys(groups), dist) && Ascending(Keys(groups))
    ensures forall k <- Keys(groups) :: k in Flatten(groups)
  {
    if groups != [] {
      KeysSpread(groups[1..], dist);
      KeysAbove(groups[1..], dist, groups[0].key + dist);
    }
  }

  lemma KeysAbove(groups: seq<Group>, dist: nat, bound: nat)
    requires WellGrouped(groups, dist) && Above(groups, bound)
    ensures forall k <- Keys(groups) :: k > bound
  {
    hide WellGrouped, Keys;
    AllReach(groups, dist);
    forall i | 0 <= i < |groups| ensures Keys(groups)[i] > bound {
      var g := groups[i];
      assert g in groups && Reaches(g, dist);
    }
  }

  lemma {:induction false} AllReach(groups: seq<Group>, dist: nat)
    requires WellGrouped(groups, dist)
    ensures forall g <- groups :: Reaches(g, dist)
  {
    hide Reaches;
    if groups != [] { AllReach(groups[1..], dist); }
  }

  /** Every colour is replaced by a key within reach, and a key by itself. */
  lemma {:induction false} KeysReach(groups: seq<Group>, dist: nat)
    requires WellGrouped(groups, dist)
    ensures forall x <- Flatten(groups) :: KeyFor(groups, x) in Keys(groups) && Gap(x, KeyFor(groups, x)) <= dist
    ensures forall k <- Keys(groups) :: KeyFor(groups, k) == k
  {
    if groups != [] {
      var g, rest := groups[0], groups[1..];
      KeysReach(rest, dist);
      KeysAbove(rest, dist, g.key + dist);
    }
  }

  // ---------------------------------------------------------------- the loop of combine_channels_core

  /** What one turn of the loop does with the next larger colour. */
  ghost function Extend(groups: seq<Group>, x: nat, dist: nat): seq<Group> {
    if groups == [] then [Group(x, [x])]
    else
      var front, g := groups[..|groups| - 1], groups[|groups| - 1];
      if x > g.key + dist then groups + [Group(x, [x])]
      else if g.members != [] && x <= g.members[0] + dist then front + [Group(x, g.members + [x])]
      else front + [Group(g.key, g.members + [x])]
  }

  lemma ExtendTail(g: Group, rest: seq<Group>, x: nat, dist: nat)
    requires rest != []
    ensures Extend([g] + rest, x, dist) == [g] + Extend(rest, x, dist)
  {
    var gs := [g] + rest;
    assert gs[|gs| - 1] == rest[|rest| - 1] && gs[..|gs| - 1] == [g] + rest[..|rest| - 1];
  }

  lemma {:induction false} ExtendIsNext(s: seq<nat>, x: nat, dist: nat)
    requires Ascending(s + [x])
    ensures Ascending(s) && Groups(s + [x], dist) == Extend(Groups(s, dist), x, dist)
    decreases |s|
  {
    hide Groups, FirstKey, Upto, Extend;
    var t := s + [x];
    PrefixAscends(s, x);
    NoGroups(dist);
    var key', n' := FirstGroup(t, dist);
    if s == [] {
      ExtendCases([], x, dist);
      assert t == [x] && key' in t && t[..n'] == [x] && t[n'..] == [];
    } else {
      var key, n := FirstGroup(s, dist);
      FirstKeyOfMore(s, x, dist);
      SplitOfMore(s, x, key, n, key', n', dist);
      ExtendCases(Groups(s, dist), x, dist);
      if n < |s| {
        assert s[n] in s && s[n] in s[n..];
        assert t[..n] == s[..n] && t[n..] == s[n..] + [x];
        ExtendIsNext(s[n..], x, dist);
        GroupsOfSome(s[n..], dist);
        ExtendTail(Group(key, s[..n]), Groups(s[n..], dist), x, dist);
      } else {
        assert s[..n] == s && s[n..] == [];
        if x <= key + dist {
          assert t[..n'] == t && t[n'..] == [];
        } else {
          assert t[..n'] == s && t[n'..] == [] + [x];
          ExtendCases([], x, dist);
          ExtendIsNext([], x, dist);
        }
      }
    }
  }

  lemma ExtendCases(groups: seq<Group>, x: nat, dist: nat)
    ensures groups == [] ==> Extend(groups, x, dist) == [Group(x, [x])]
    ensures |groups| == 1 && groups[0].members != [] ==>
              var g := groups[0];
              Extend(groups, x, dist) ==
              if x > g.key + dist then [g, Group(x, [x])]
              else if x <= g.members[0] + dist then [Group(x, g.members + [x])]
              else [Group(g.key, g.members + [x])]
  {
  }

  lemma GroupsOfSome(s: seq<nat>, dist: nat)
    requires Ascending(s) && s != []
    ensures Groups(s, dist) != []
  {
  }

  /** The first key changes only when the new colour is within reach of the smallest. */
  lemma FirstKeyOfMore(s: seq<nat>, x: nat, dist: nat)
    requires s != [] && Ascending(s) && Ascending(s + [x])
    ensures FirstKey(s + [x], dist) == if x <= s[0] + dist then x else FirstKey(s, dist)
  {
    hide FirstKey, Upto;
    PrefixAscends(s, x);
    var t := s + [x];
    var key, key' := FirstKey(s, dist), FirstKey(t, dist);
    assert forall y :: y in t <==> y in s || y == x;
    assert t[0] == s[0];
    assert key in t && x in t && (key' in s || key' == x);
  }

  lemma SplitOfMore(s: seq<nat>, x: nat, key: nat, n: nat, key': nat, n': nat, dist: nat)
    requires s != [] && Ascending(s + [x])
    requires 0 < n <= |s| && 0 < n' <= |s| + 1
    requires key <= s[0] + dist && key' == if x <= s[0] + dist then x else key
    requires Reaches(Group(key, s[..n]), dist) && forall y <- s[n..] :: y > key + dist
    requires Reaches(Group(key', (s + [x])[..n']), dist) && forall y <- (s + [x])[n'..] :: y > key' + dist
    requires s[0] <= key
    ensures x <= key + dist ==> n == |s| && n' == |s| + 1
    ensures x > key + dist ==> n' == n
  {
    PrefixAscends(s, x);
    var t := s + [x];
    assert forall i :: 0 <= i < |s| ==> t[i] == s[i];
    assert n < |s| ==> s[n] in s[n..] && s[n] in s;
    assert n' < |t| ==> t[n'] in t[n'..] && t[n'] in t;
    assert forall y :: y in t <==> y in s || y == x;
    assert forall i :: 0 <= i < n ==> s[i] in s[..n];
    assert forall i :: 0 <= i < n' ==> t[i] in t[..n'];
    assert n' > n ==> t[n] in t[..n'];
  }

  lemma PrefixAscends(s: seq<nat>, x: nat)
    requires Ascending(s + [x])
    ensures Ascending(s) && forall y <- s :: y < x
  {
    assert forall i :: 0 <= i < |s| ==> (s + [x])[i] == s[i];
    assert (s + [x])[|s|] == x;
  }

  // ---------------------------------------------------------------- sorting and counting

  predicate IsLeast(s: set<nat>, m: nat) {
    m in s && forall x <- s :: m <= x
  }

  lemma {:induction false} LeastExists(s: set<nat>)
    requires s != {}
    ensures exists m :: IsLeast(s, m)
  {
    var y :| y in s;
    if s == {y} {
      assert IsLeast(s, y);
    } else {
      var t := s - {y};
      assert s == t + {y};
      LeastExists(t);
      var m :| IsLeast(t, m);
      assert IsLeast(s, if m < y then m else y);
    }
  }

  /** sorted(...) of the distinct colours. */
  ghost function Sorted(s: set<nat>): (r: seq<nat>)
    ensures Ascending(r) && (forall x :: x in r <==> x in s)
  {
    if s == {} then []
    else
      LeastExists(s);
      var m :| IsLeast(s, m);
      [m] + Sorted(s - {m})
  }

  lemma {:induction false} SortedIsUnique(a: seq<nat>, b: seq<nat>)
    requires Ascending(a) && Ascending(b) && forall x :: x in a <==> x in b
    ensures a == b
  {
    if b != [] { assert b[0] in a; }
    if a != [] {
      assert a[0] in b;
      assert a[0] == b[0];
      forall x ensures x in a[1..] <==> x in b[1..] {
        assert x in a[1..] <==> x in a && x != a[0];
        assert x in b[1..] <==> x in b && x != b[0];
      }
      SortedIsUnique(a[1..], b[1..]);
    }
  }

  method SortColours(s: set<nat>) returns (r: seq<nat>)
    ensures r == Sorted(s)
  {
    r := [];
    var rest := s;
    while rest != {}
      invariant rest <= s && Ascending(r)
      invariant forall x :: x in r <==> x in s - rest
      invariant forall x <- r, y <- rest :: x < y
      decreases |rest|
    {
      LeastExists(rest);
      var m :| m in rest && IsLeast(rest, m);
      assert forall i :: 0 <= i < |r| ==> r[i] in r;
      r, rest := r + [m], rest - {m};
    }
    SortedIsUnique(r, Sorted(s));
  }

  // ---------------------------------------------------------------- combine_channels_core

  /** The sum of the counts of the given colours. */
  ghost function Tally(counts: map<nat, nat>, colours: seq<nat>): nat
    requires forall x <- colours :: x in counts
  {
    if colours == [] then 0 else Tally(counts, colours[..|colours| - 1]) + counts[colours[|colours| - 1]]
  }

  /** The first loop: one pass over the colours in ascending order. */
  method GroupColours(items: seq<nat>, dist: nat) returns (groups: seq<Group>)
    requires Ascending(items)
    ensures groups == Groups(items, dist)
  {
    hide Groups, Extend, FirstKey, Upto;
    groups := [];
    var group: seq<nat>, key: nat := [], 0;
    NoGroups(dist);
    for i := 0 to |items|
      invariant Ascending(items[..i])
      invariant Groups(items[..i], dist) == groups + (if group == [] then [] else [Group(key, group)])
      invariant group == [] ==> groups == []
    {
      var channel := items[i];
      assert items[..i + 1] == items[..i] + [channel];
      ghost var all := groups + (if group == [] then [] else [Group(key, group)]);
      ExtendIsNext(items[..i], channel, dist);
      ExtendLast(groups, group, key, channel, dist);
      assert [] + [channel] == [channel];
      assert group != [] ==> (group + [channel])[0] == group[0];
      var unkeyed := group == [];
      if group != [] && channel > key + dist {
        groups, group := groups + [Group(key, group)], [];
        unkeyed := true;
      }
      group := group + [channel];
      if unkeyed || channel <= group[0] + dist {
        key := channel;
      }
      assert groups + [Group(key, group)] == Extend(all, channel, dist);
    }
    assert items[..|items|] == items;
    if group != [] {
      groups := groups + [Group(key, group)];
    }
  }

  /** combine_channels_core, with its dictionaries as sequences in insertion order: the colours
      each key stands for, and how many pixels that is. */
  method CombineCore(channels: map<nat, nat>, dist: nat) returns (groups: seq<Group>, totals: seq<nat>)
    ensures groups == Groups(Sorted(channels.Keys), dist)
    ensures |totals| == |groups|
    ensures forall i :: 0 <= i < |groups| ==>
              (forall x <- groups[i].members :: x in channels) && totals[i] == Tally(channels, groups[i].members)
  {
    hide Groups, Tally, Sorted;
    var items := SortColours(channels.Keys);
    groups := GroupColours(items, dist);
    GroupsPartition(items, dist);
    FlattenHolds(groups);
    totals := [];
    for i := 0 to |groups|
      invariant |totals| == i
      invariant forall j :: 0 <= j < |groups| ==> forall x <- groups[j].members :: x in channels
      invariant forall j :: 0 <= j < i ==> totals[j] == Tally(channels, groups[j].members)
    {
      var sum := SumCounts(channels, groups[i].members);
      totals := totals + [sum];
    }
  }

  method SumCounts(counts: map<nat, nat>, colours: seq<nat>) returns (sum: nat)
    requires forall x <- colours :: x in counts
    ensures sum == Tally(counts, colours)
  {
    sum := 0;
    for i := 0 to |colours|
      invariant sum == Tally(counts, colours[..i])
    {
      assert colours[..i + 1][..i] == colours[..i];
      sum := sum + counts[colours[i]];
    }
    assert colours[..|colours|] == colours;
  }

  lemma ExtendLast(groups: seq<Group>, group: seq<nat>, key: nat, x: nat, dist: nat)
    requires group == [] ==> groups == []
    ensures var all := groups + (if group == [] then [] else [Group(key, group)]);
            Extend(all, x, dist) ==
            if group == [] then [Group(x, [x])]
            else if x > key + dist then groups + [Group(key, group)] + [Group(x, [x])]
            else groups + [Group(if x <= group[0] + dist then x else key, group + [x])]
  {
  }
}
