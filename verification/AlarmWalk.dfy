// The walk of alt_tick when callbacks may stop any alarm: the links as two functions on
// addresses, so that a walk that never ends can be spoken of.
module AlarmWalk {

  const HEAD: nat := 0   // the address of alt_alarm_list

  datatype Links = Links(next: nat -> nat, prev: nat -> nat)

  function Set(f: nat -> nat, x: nat, y: nat): nat -> nat { z => if z == x then y else f(z) }

  /** alt_llist_remove, assignment by assignment. */
  function Unlink(l: Links, e: nat): Links {
    var a := l.(prev := Set(l.prev, l.next(e), l.prev(e)));
    var b := a.(next := Set(a.next, a.prev(e), a.next(e)));
    var c := b.(prev := Set(b.prev, e, e));
    c.(next := Set(c.next, e, e))
  }

  /** alt_llist_insert at the head of the list. */
  function Link(l: Links, e: nat): Links {
    var a := l.(prev := Set(l.prev, e, HEAD));
    var b := a.(next := Set(a.next, e, a.next(HEAD)));
    var c := b.(prev := Set(b.prev, b.next(HEAD), e));
    c.(next := Set(c.next, HEAD, e))
  }

  /** The links of the elements of `ring`, head first, make a closed list; every other element
      is linked to itself. */
  ghost predicate Ring(l: Links, ring: seq<nat>) {
    && ring != [] && ring[0] == HEAD
    && (forall i, j | 0 <= i < j < |ring| :: ring[i] != ring[j])
    && (forall i | 0 <= i < |ring| - 1 :: l.next(ring[i]) == ring[i + 1])
    && (forall i | 1 <= i < |ring| :: l.prev(ring[i]) == ring[i - 1])
    && l.next(ring[|ring| - 1]) == HEAD && l.prev(HEAD) == ring[|ring| - 1]
    && (forall x: nat | x !in ring :: l.next(x) == x && l.prev(x) == x)
  }

  /** What removal does to the links: the neighbours of e are joined. */
  lemma UnlinkValues(l: Links, e: nat, x: nat)
    requires l.next(e) != e && l.prev(e) != e
    ensures var m := Unlink(l, e);
            && m.next(x) == (if x == e then e else if x == l.prev(e) then l.next(e) else l.next(x))
            && m.prev(x) == (if x == e then e else if x == l.next(e) then l.prev(e) else l.prev(x))
  {
  }

  lemma UnlinkAlone(l: Links, e: nat, x: nat)
    requires l.next(e) == e == l.prev(e)
    ensures Unlink(l, e).next(x) == l.next(x) && Unlink(l, e).prev(x) == l.prev(x)
  {
  }

  function Drop(ring: seq<nat>, k: nat): (rest: seq<nat>)
    requires k < |ring|
    ensures |rest| == |ring| - 1
    ensures forall i | 0 <= i < |rest| :: rest[i] == ring[if i < k then i else i + 1]
  {
    ring[..k] + ring[k + 1..]
  }

  lemma DropHolds(ring: seq<nat>, k: nat, x: nat)
    requires k < |ring| && forall i, j | 0 <= i < j < |ring| :: ring[i] != ring[j]
    ensures x in Drop(ring, k) <==> x in ring && x != ring[k]
  {
    hide Drop;
    if x in ring && x != ring[k] {
      var i :| 0 <= i < |ring| && ring[i] == x;
      assert Drop(ring, k)[if i < k then i else i - 1] == x;
    }
  }

  /** Removing an element leaves a closed list of the others in their order. */
  lemma UnlinkOne(l: Links, ring: seq<nat>, e: nat, k: nat)
    requires Ring(l, ring) && e != HEAD && k < |ring| && ring[k] == e
    ensures Ring(Unlink(l, e), Drop(ring, k))
  {
    hide Unlink, Drop;
    var m, rest := Unlink(l, e), Drop(ring, k);
    assert 0 < k;
    var p, n := ring[k - 1], if k + 1 < |ring| then ring[k + 1] else HEAD;
    assert l.prev(e) == p && l.next(e) == n && p != e && n != e;
    forall x: nat
      ensures m.next(x) == (if x == e then e else if x == p then n else l.next(x))
      ensures m.prev(x) == (if x == e then e else if x == n then p else l.prev(x))
    {
      UnlinkValues(l, e, x);
    }
    Rewired(l, m, ring, k, p, n);
    forall x: nat | x !in rest ensures m.next(x) == x && m.prev(x) == x {
      DropHolds(ring, k, x);
      DropHolds(ring, k, p);
      DropHolds(ring, k, n);
      assert HEAD == ring[0] && n in ring;
    }
  }

  lemma Rewired(l: Links, m: Links, ring: seq<nat>, k: nat, p: nat, n: nat)
    requires Ring(l, ring) && 0 < k < |ring|
    requires p == ring[k - 1] && n == if k + 1 < |ring| then ring[k + 1] else HEAD
    requires forall x: nat :: m.next(x) == if x == ring[k] then ring[k] else if x == p then n else l.next(x)
    requires forall x: nat :: m.prev(x) == if x == ring[k] then ring[k] else if x == n then p else l.prev(x)
    ensures var rest := Drop(ring, k);
            && (forall i | 0 <= i < |rest| - 1 :: m.next(rest[i]) == rest[i + 1])
            && (forall i | 1 <= i < |rest| :: m.prev(rest[i]) == rest[i - 1])
            && m.next(rest[|rest| - 1]) == HEAD && m.prev(HEAD) == rest[|rest| - 1]
  {
    hide Drop;
    var rest := Drop(ring, k);
    forall i | 0 <= i < |rest| - 1 ensures m.next(rest[i]) == rest[i + 1] {
      var j := if i < k then i else i + 1;
      assert rest[i] == ring[j] && l.next(ring[j]) == ring[j + 1];
    }
    forall i | 1 <= i < |rest| ensures m.prev(rest[i]) == rest[i - 1] {
      var j := if i < k then i else i + 1;
      assert rest[i] == ring[j] && l.prev(ring[j]) == ring[j - 1];
    }
  }

  // ---------------------------------------------------------------- the walk

  /** What the callback of an alarm does, if the alarm is due: the alarms it stops, in order,
      and whether it returns zero.  An alarm that is not due does nothing. */
  datatype Reply = Reply(stops: seq<nat>, ends: bool)

  datatype Walk = Walk(links: Links, at: nat)

  function Stop(l: Links, es: seq<nat>): Links {
    if es == [] then l else Unlink(Stop(l, es[..|es| - 1]), es[|es| - 1])
  }

  /** One turn of the loop of alt_tick: the successor is saved before the callback. */
  function Step(w: Walk, r: Reply): Walk {
    if w.at == HEAD then w
    else
      var next := w.links.next(w.at);
      var l := Stop(w.links, r.stops);
      Walk(if r.ends then Unlink(l, w.at) else l, next)
  }

  /** k turns; what a callback does may depend on the turn. */
  function Steps(w: Walk, replies: (nat, nat) -> Reply, k: nat): Walk {
    if k == 0 then w
    else
      var before := Steps(w, replies, k - 1);
      Step(before, replies(k - 1, before.at))
  }

  function Start(l: Links): Walk { Walk(l, l.next(HEAD)) }

  /** Callbacks stop alarms, not the list head. */
  ghost predicate Proper(replies: (nat, nat) -> Reply) { forall k, a: nat :: HEAD !in replies(k, a).stops }

  /** In turn k the callback leaves its saved successor on the list. */
  ghost predicate SparesNext(w: Walk, replies: (nat, nat) -> Reply, k: nat) {
    var v := Steps(w, replies, k);
    v.at != HEAD ==> v.links.next(v.at) !in replies(k, v.at).stops
  }

  // ---------------------------------------------------------------- stopping several

  /** Stopping alarms other than `keep` leaves it on the list, with no more alarms behind it. */
  lemma {:induction false} StopOthers(l: Links, ring: seq<nat>, es: seq<nat>, keep: nat)
    returns (rest: seq<nat>, j: nat)
    requires Ring(l, ring) && HEAD !in es && keep < |ring| && ring[keep] !in es
    ensures Ring(Stop(l, es), rest) && j < |rest| && rest[j] == ring[keep] && |rest| - j <= |ring| - keep
    decreases |es|
  {
    hide Ring, Unlink;
    if es == [] {
      return ring, keep;
    }
    var before, e := es[..|es| - 1], es[|es| - 1];
    rest, j := StopOthers(l, ring, before, keep);
    rest, j := UnlinkOther(Stop(l, before), rest, e, j);
  }

  lemma Distinct(l: Links, ring: seq<nat>)
    requires Ring(l, ring)
    ensures forall i, j | 0 <= i < j < |ring| :: ring[i] != ring[j]
  {
  }

  lemma UnlinkAbsent(l: Links, ring: seq<nat>, e: nat)
    requires Ring(l, ring) && e !in ring
    ensures Ring(Unlink(l, e), ring)
  {
    hide Unlink;
    forall x: nat ensures Unlink(l, e).next(x) == l.next(x) && Unlink(l, e).prev(x) == l.prev(x) {
      UnlinkAlone(l, e, x);
    }
  }

  lemma UnlinkOther(l: Links, ring: seq<nat>, e: nat, keep: nat) returns (rest: seq<nat>, j: nat)
    requires Ring(l, ring) && e != HEAD && keep < |ring| && ring[keep] != e
    ensures Ring(Unlink(l, e), rest) && j < |rest| && rest[j] == ring[keep] && |rest| - j <= |ring| - keep
  {
    hide Unlink;
    if e in ring {
      var k :| 0 <= k < |ring| && ring[k] == e;
      UnlinkOne(l, ring, e, k);
      rest := Drop(ring, k);
      j := if keep < k then keep else keep - 1;
    } else {
      UnlinkAbsent(l, ring, e);
      rest, j := ring, keep;
    }
  }

  /** Stopping alarms keeps the list closed, and takes them all off it. */
  lemma {:induction false} StopAll(l: Links, ring: seq<nat>, es: seq<nat>) returns (rest: seq<nat>)
    requires Ring(l, ring) && HEAD !in es
    ensures Ring(Stop(l, es), rest)
    ensures forall x :: x in rest ==> x in ring && x !in es
    decreases |es|
  {
    hide Ring, Unlink;
    if es == [] { return ring; }
    var before, e := es[..|es| - 1], es[|es| - 1];
    var r := StopAll(l, ring, before);
    rest := UnlinkGone(Stop(l, before), r, e);
    assert forall x :: x in es ==> x in before || x == e;
  }

  lemma UnlinkGone(l: Links, ring: seq<nat>, e: nat) returns (rest: seq<nat>)
    requires Ring(l, ring) && e != HEAD
    ensures Ring(Unlink(l, e), rest) && forall x :: x in rest ==> x in ring && x != e
  {
    hide Unlink, Drop, Ring;
    if e in ring {
      var k :| 0 <= k < |ring| && ring[k] == e;
      UnlinkOne(l, ring, e, k);
      rest := Drop(ring, k);
      Distinct(l, ring);
      forall x: nat | x in rest ensures x in ring && x != e { DropHolds(ring, k, x); }
    } else {
      UnlinkAbsent(l, ring, e);
      rest := ring;
    }
  }

  // ---------------------------------------------------------------- walks that go well

  /** The walk is at the head, or at an alarm of the list with less than m alarms behind it. */
  ghost predicate Within(w: Walk, ring: seq<nat>, m: nat) {
    Ring(w.links, ring) && (w.at == HEAD || exists i :: 1 <= i < |ring| && ring[i] == w.at && |ring| - i <= m)
  }

  /** A turn that spares its successor brings the walk nearer to the end. */
  lemma GoodTurn(w: Walk, ring: seq<nat>, m: nat, r: Reply) returns (rest: seq<nat>)
    requires Within(w, ring, m) && w.at != HEAD && HEAD !in r.stops && w.links.next(w.at) !in r.stops
    ensures m > 0 && Within(Step(w, r), rest, m - 1)
  {
    hide Unlink, Stop;
    var i :| 1 <= i < |ring| && ring[i] == w.at && |ring| - i <= m;
    var next := w.links.next(w.at);
    var j := if i + 1 < |ring| then i + 1 else 0;
    assert ring[j] == next != w.at;
    var p;
    rest, p := StopOthers(w.links, ring, r.stops, j);
    if r.ends {
      rest, p := UnlinkOther(Stop(w.links, r.stops), rest, w.at, p);
    }
    assert rest[p] == next;
    if next != HEAD {
      assert p != 0 && |rest| - p <= m - 1;
    }
  }

  lemma {:induction false} GoodTurns(w: Walk, ring: seq<nat>, replies: (nat, nat) -> Reply, m: nat, n: nat)
    returns (rest: seq<nat>)
    requires Within(w, ring, m) && Proper(replies) && n <= m
    requires forall k: nat :: SparesNext(w, replies, k)
    ensures Within(Steps(w, replies, n), rest, m - n)
    decreases n
  {
    hide Step, Within;
    if n == 0 { return ring; }
    var r := GoodTurns(w, ring, replies, m, n - 1);
    var v := Steps(w, replies, n - 1);
    assert SparesNext(w, replies, n - 1);
    if v.at == HEAD {
      AtHead(v, r, m - n + 1, replies(n - 1, v.at));
      rest := r;
    } else {
      rest := GoodTurn(v, r, m - n + 1, replies(n - 1, v.at));
    }
  }

  lemma AtHead(w: Walk, ring: seq<nat>, m: nat, r: Reply)
    requires Within(w, ring, m) && w.at == HEAD && m > 0
    ensures Step(w, r) == w && Within(w, ring, m - 1)
  {
  }

  // ---------------------------------------------------------------- walks that get stuck

  /** The walk is at an alarm that is not on the list any more. */
  ghost predicate Stuck(w: Walk) { exists ring: seq<nat> :: Ring(w.links, ring) && w.at !in ring }

  lemma StuckStays(w: Walk, r: Reply)
    requires Stuck(w) && HEAD !in r.stops
    ensures Stuck(Step(w, r)) && w.at != HEAD
  {
    hide Unlink, Stop;
    var ring: seq<nat> :| Ring(w.links, ring) && w.at !in ring;
    assert ring[0] == HEAD;
    var rest := Turned(w, ring, r);
    assert w.links.next(w.at) == w.at;
    assert Ring(Step(w, r).links, rest) && Step(w, r).at !in rest;
  }

  /** Whatever a callback does, the list stays closed; what it stops is off the list. */
  lemma Turned(w: Walk, ring: seq<nat>, r: Reply) returns (rest: seq<nat>)
    requires Ring(w.links, ring) && w.at != HEAD && HEAD !in r.stops
    ensures Ring(Step(w, r).links, rest) && forall x :: x in rest ==> x in ring && x !in r.stops
  {
    hide Ring, Unlink, Stop;
    rest := StopAll(w.links, ring, r.stops);
    if r.ends {
      rest := UnlinkGone(Stop(w.links, r.stops), rest, w.at);
    }
  }

  lemma {:induction false} Closed(w: Walk, ring: seq<nat>, replies: (nat, nat) -> Reply, k: nat)
    returns (rest: seq<nat>)
    requires Ring(w.links, ring) && Proper(replies)
    ensures Ring(Steps(w, replies, k).links, rest)
    decreases k
  {
    hide Ring;
    if k == 0 { return ring; }
    var r := Closed(w, ring, replies, k - 1);
    var v := Steps(w, replies, k - 1);
    if v.at == HEAD { rest := r; } else { rest := Turned(v, r, replies(k - 1, v.at)); }
  }

  lemma {:induction false} StuckForEver(w: Walk, replies: (nat, nat) -> Reply, k: nat, n: nat)
    requires Proper(replies) && k <= n && Stuck(Steps(w, replies, k))
    ensures Stuck(Steps(w, replies, n)) && Steps(w, replies, n).at != HEAD
    decreases n
  {
    hide Step, Stuck;
    if k < n {
      StuckForEver(w, replies, k, n - 1);
      var u := Steps(w, replies, n - 1);
      StuckStays(u, replies(n - 1, u.at));
      OneMore(w, replies, n - 1);
    }
    StuckStays(Steps(w, replies, n), Reply([], false));
  }

  /** Once at the head, always at the head. */
  lemma {:induction false} HeadStays(w: Walk, replies: (nat, nat) -> Reply, n: nat, k: nat)
    requires n <= k && Steps(w, replies, n).at == HEAD
    ensures Steps(w, replies, k).at == HEAD
    decreases k
  {
    if n < k { HeadStays(w, replies, n, k - 1); }
  }

  /** A callback that stops its saved successor leaves the walk on an alarm that is linked to
      itself. */
  lemma StoppingNextSticks(w: Walk, ring: seq<nat>, r: Reply)
    requires Ring(w.links, ring) && w.at != HEAD && HEAD !in r.stops && w.links.next(w.at) in r.stops
    ensures Stuck(Step(w, r))
  {
    hide Ring, Unlink, Stop;
    var rest := Turned(w, ring, r);
    assert Ring(Step(w, r).links, rest) && Step(w, r).at !in rest;
  }

  // ---------------------------------------------------------------- the exact condition

  /** The walk of a tick comes to its end if and only if no callback stops the alarm that was
      its successor when it was called. */
  lemma WalkEndsExactlyWhen(l: Links, ring: seq<nat>, replies: (nat, nat) -> Reply)
    requires Ring(l, ring) && Proper(replies)
    ensures (exists n: nat :: Steps(Start(l), replies, n).at == HEAD)
            <==> (forall k: nat :: SparesNext(Start(l), replies, k))
  {
    hide Steps, Step, Within, Stuck;
    var w := Start(l);
    if forall k: nat :: SparesNext(w, replies, k) {
      StartsWithin(l, ring);
      var rest := GoodTurns(w, ring, replies, |ring|, |ring|);
      NothingLeft(Steps(w, replies, |ring|), rest);
    } else {
      var k: nat :| !SparesNext(w, replies, k);
      var v := Steps(w, replies, k);
      var rest := Closed(w, ring, replies, k);
      StoppingNextSticks(v, rest, replies(k, v.at));
      OneMore(w, replies, k);
      forall n: nat ensures Steps(w, replies, n).at != HEAD {
        if n <= k {
          if Steps(w, replies, n).at == HEAD { HeadStays(w, replies, n, k); }
        } else {
          StuckForEver(w, replies, k + 1, n);
        }
      }
    }
  }

  lemma OneMore(w: Walk, replies: (nat, nat) -> Reply, k: nat)
    ensures Steps(w, replies, k + 1) == Step(Steps(w, replies, k), replies(k, Steps(w, replies, k).at))
  {
  }

  lemma StartsWithin(l: Links, ring: seq<nat>)
    requires Ring(l, ring)
    ensures Within(Start(l), ring, |ring|)
  {
    if |ring| > 1 { assert ring[1] == Start(l).at; } else { assert l.next(ring[0]) == HEAD; }
  }

  lemma NothingLeft(w: Walk, ring: seq<nat>)
    requires Within(w, ring, 0)
    ensures w.at == HEAD
  {
  }

  // ---------------------------------------------------------------- starting twice

  lemma NextIsInjective(l: Links, ring: seq<nat>, a: nat, b: nat)
    requires Ring(l, ring) && a in ring && b in ring && l.next(a) == l.next(b)
    ensures a == b
  {
    var i :| 0 <= i < |ring| && ring[i] == a;
    var j :| 0 <= j < |ring| && ring[j] == b;
    assert i + 1 < |ring| ==> l.next(a) == ring[i + 1] != ring[0];
    assert j + 1 < |ring| ==> l.next(b) == ring[j + 1] != ring[0];
    if i + 1 < |ring| && j + 1 < |ring| { assert ring[i + 1] == ring[j + 1]; }
  }

  lemma NextIsOnRing(l: Links, ring: seq<nat>, a: nat)
    requires Ring(l, ring) && a in ring
    ensures l.next(a) in ring
  {
    var i :| 0 <= i < |ring| && ring[i] == a;
    assert if i + 1 < |ring| then l.next(a) == ring[i + 1] else l.next(a) == ring[0];
  }

  /** Starting an alarm leaves a closed list if and only if the alarm was not registered. */
  lemma StartKeepsListExactlyWhen(l: Links, ring: seq<nat>, e: nat)
    requires Ring(l, ring) && e != HEAD
    ensures (exists r :: Ring(Link(l, e), r)) <==> e !in ring
  {
    var m := Link(l, e);
    if e !in ring {
      LinkOne(l, ring, e);
      assert Ring(m, Push(ring, e));
    } else if r :| Ring(m, r) {
      var k :| 0 <= k < |ring| && ring[k] == e;
      var p := if k == 1 then e else ring[k - 1];
      assert k > 0 && m.next(HEAD) == e && p != HEAD;
      assert m.next(p) == e;
      assert r[0] == HEAD && HEAD in r;
      NextIsOnRing(m, r, HEAD);
      assert p in r;
      NextIsInjective(m, r, p, HEAD);
      assert false;
    }
  }

  lemma LinkValues(l: Links, e: nat, x: nat)
    requires e != HEAD && l.next(HEAD) != e
    ensures var m := Link(l, e);
            && m.next(x) == (if x == HEAD then e else if x == e then l.next(HEAD) else l.next(x))
            && m.prev(x) == (if x == l.next(HEAD) then e else if x == e then HEAD else l.prev(x))
  {
  }

  function Push(ring: seq<nat>, e: nat): (r: seq<nat>)
    requires ring != []
    ensures |r| == |ring| + 1
    ensures forall i | 0 <= i < |r| :: r[i] == if i == 0 then HEAD else if i == 1 then e else ring[i - 1]
  {
    [HEAD, e] + ring[1..]
  }

  lemma PushHolds(ring: seq<nat>, e: nat, x: nat)
    requires ring != [] && ring[0] == HEAD
    ensures x in Push(ring, e) <==> x in ring || x == e
  {
    hide Push;
    if x in ring {
      var i :| 0 <= i < |ring| && ring[i] == x;
      assert Push(ring, e)[if i == 0 then 0 else i + 1] == x;
    }
    assert Push(ring, e)[1] == e;
  }

  lemma LinkOne(l: Links, ring: seq<nat>, e: nat)
    requires Ring(l, ring) && e != HEAD && e !in ring
    ensures Ring(Link(l, e), Push(ring, e))
  {
    hide Link, Push;
    var m, r := Link(l, e), Push(ring, e);
    var first := if |ring| > 1 then ring[1] else HEAD;
    assert l.next(ring[0]) == first != e by { assert first in ring; }
    forall x: nat
      ensures m.next(x) == (if x == HEAD then e else if x == e then first else l.next(x))
      ensures m.prev(x) == (if x == first then e else if x == e then HEAD else l.prev(x))
    {
      LinkValues(l, e, x);
    }
    Pushed(l, m, ring, e, first);
    forall x: nat | x !in r ensures m.next(x) == x && m.prev(x) == x {
      PushHolds(ring, e, x);
      assert HEAD in ring && first in ring;
      PushHolds(ring, e, first);
      PushHolds(ring, e, HEAD);
    }
  }

  lemma Pushed(l: Links, m: Links, ring: seq<nat>, e: nat, first: nat)
    requires Ring(l, ring) && e != HEAD && e !in ring && first == if |ring| > 1 then ring[1] else HEAD
    requires forall x: nat :: m.next(x) == if x == HEAD then e else if x == e then first else l.next(x)
    requires forall x: nat :: m.prev(x) == if x == first then e else if x == e then HEAD else l.prev(x)
    ensures var r := Push(ring, e);
            && (forall i | 0 <= i < |r| - 1 :: m.next(r[i]) == r[i + 1])
            && (forall i | 1 <= i < |r| :: m.prev(r[i]) == r[i - 1])
            && m.next(r[|r| - 1]) == HEAD && m.prev(HEAD) == r[|r| - 1]
  {
    hide Push;
    var r := Push(ring, e);
    forall i | 0 <= i < |r| - 1 ensures m.next(r[i]) == r[i + 1] {
      if i >= 2 { assert r[i] == ring[i - 1] && l.next(ring[i - 1]) == ring[i]; }
    }
    forall i | 1 <= i < |r| ensures m.prev(r[i]) == r[i - 1] {
      if i >= 2 { assert r[i] == ring[i - 1] && l.prev(ring[i - 1]) == ring[i - 2]; }
    }
  }

  const SILENT: (nat, nat) -> Reply := (k, a) => Reply([], false)

  /** After an alarm that is registered is started again, even a tick in which nothing is due
      never ends. */
  lemma {:induction false} StartedTwiceNeverEnds(l: Links, ring: seq<nat>, k: nat, n: nat)
    requires Ring(l, ring) && 1 <= k < |ring|
    ensures var w := Steps(Start(Link(l, ring[k])), SILENT, n);
            w.links == Link(l, ring[k]) && w.at in ring[1..k + 1] && w.at != HEAD
    decreases n
  {
    var m := Link(l, ring[k]);
    if n == 0 {
      assert ring[1..k + 1][k - 1] == ring[k];
    } else {
      StartedTwiceNeverEnds(l, ring, k, n - 1);
      var v := Steps(Start(m), SILENT, n - 1);
      var i :| 0 <= i < k && ring[1..k + 1][i] == v.at;
      assert v.at == ring[i + 1];
      assert m.next(v.at) == if i + 1 == k then ring[1] else ring[i + 2];
      assert ring[1..k + 1][if i + 1 == k then 0 else i + 1] == m.next(v.at);
    }
  }
}
