// Which colour each pixel gets: the grouping told on the colours themselves.
module ColourExact {
  import opened Colours
  import opened ColourReduction

  /** The i-th group begins with the least colour out of reach of the key before; its key is the
      largest colour within reach of that one, and it holds all colours from there to the end of
      the key's reach. */
  ghost predicate GreedyAt(s: seq<nat>, groups: seq<Group>, dist: nat, i: nat)
    requires i < |groups|
  {
    var g := groups[i];
    && g.members != []
    && var m := g.members[0];
       && m in s && (i > 0 ==> m > groups[i - 1].key + dist)
       && (forall x <- s :: x < m ==> i > 0 && x <= groups[i - 1].key + dist)
       && g.key in s && m <= g.key <= m + dist && (forall x <- s :: x <= m + dist ==> x <= g.key)
       && forall x :: x in g.members <==> x in s && m <= x <= g.key + dist
  }

  lemma FirstIsGreedy(s: seq<nat>, dist: nat, key: nat, n: nat)
    requires Ascending(s) && 0 < n <= |s| && s == s[..n] + s[n..] && key == FirstKey(s, dist)
    requires Reaches(Group(key, s[..n]), dist) && forall x <- s[n..] :: x > key + dist
    ensures forall rest :: GreedyAt(s, [Group(key, s[..n])] + rest, dist, 0)
  {
    var g := Group(key, s[..n]);
    Ordered(s, 0);
    assert s[..n][0] == s[0];
    forall x ensures x in g.members <==> x in s && s[0] <= x <= key + dist {
      assert x in s <==> x in s[..n] || x in s[n..];
    }
  }

  lemma LaterIsGreedy(s: seq<nat>, dist: nat, g: Group, n: nat, rest: seq<Group>, i: nat)
    requires n <= |s| && s == s[..n] + s[n..] && g.members == s[..n] && Reaches(g, dist)
    requires forall x <- s[n..] :: x > g.key + dist
    requires i < |rest| && GreedyAt(s[n..], rest, dist, i) && (i > 0 ==> rest[i - 1].key in s[n..])
    ensures GreedyAt(s, [g] + rest, dist, i + 1)
  {
    var groups := [g] + rest;
    assert groups[i + 1] == rest[i] && groups[i] == if i == 0 then g else rest[i - 1];
    forall x ensures x in s <==> x in s[..n] || x in s[n..] {
      assert x in s <==> x in s[..n] + s[n..];
    }
  }

  lemma {:induction false} GroupsAreGreedy(s: seq<nat>, dist: nat, i: nat)
    requires Ascending(s) && i < |Groups(s, dist)|
    ensures GreedyAt(s, Groups(s, dist), dist, i)
    decreases i
  {
    hide Groups, FirstKey, Reaches, GreedyAt;
    if s == [] {
      NoGroups(dist);
    } else {
      var key, n := FirstGroup(s, dist);
      if i == 0 {
        FirstIsGreedy(s, dist, key, n);
      } else {
        var rest := Groups(s[n..], dist);
        GroupsAreGreedy(s[n..], dist, i - 1);
        if i > 1 {
          GroupsAreGreedy(s[n..], dist, i - 2);
          KeyIsColour(s[n..], rest, dist, i - 2);
        }
        LaterIsGreedy(s, dist, Group(key, s[..n]), n, rest, i - 1);
      }
    }
  }

  lemma KeyIsColour(s: seq<nat>, groups: seq<Group>, dist: nat, i: nat)
    requires i < |groups| && GreedyAt(s, groups, dist, i)
    ensures groups[i].key in s
  {
  }

  /** A colour is replaced by the key of its group. */
  lemma {:induction false} KeyOfGroup(groups: seq<Group>, dist: nat, i: nat, x: nat)
    requires WellGrouped(groups, dist) && i < |groups| && x in groups[i].members
    ensures KeyFor(groups, x) == groups[i].key
    decreases i
  {
    if i > 0 {
      assert groups[1..][i - 1] == groups[i];
      assert groups[i] in groups[1..];
      KeyOfGroup(groups[1..], dist, i - 1, x);
    }
  }

  /** Each pixel gets the key of the group of its colour, and the groups are these: from the least
      colour not yet in one, to the end of the reach of the largest colour within its reach. */
  lemma PixelsGetTheirKeys(lst: seq<nat>, dist: nat)
    ensures var groups := GroupsOf(lst, dist);
            && (forall i | 0 <= i < |groups| :: GreedyAt(Sorted(ColoursOf(lst)), groups, dist, i))
            && forall c, i | 0 <= c < |lst| && 0 <= i < |groups| ::
                 lst[c] in groups[i].members ==> Reduced(lst, dist)[c] == groups[i].key
  {
    hide Groups, GreedyAt, WellGrouped, KeyFor;
    var s := Sorted(ColoursOf(lst));
    var groups := Groups(s, dist);
    forall i | 0 <= i < |groups| ensures GreedyAt(s, groups, dist, i) {
      GroupsAreGreedy(s, dist, i);
    }
    GroupsReach(s, dist);
    forall c, i | 0 <= c < |lst| && 0 <= i < |groups| && lst[c] in groups[i].members
      ensures Reduced(lst, dist)[c] == groups[i].key
    {
      KeyOfGroup(groups, dist, i, lst[c]);
    }
  }
}
