/** Walks in a directed graph given by a successor function, and a search for everything they reach. */
module Walks {
  type Successors<!T> = T -> set<T>

  ghost predicate IsWalk<T(!new)>(next: Successors<T>, p: seq<T>) {
    && |p| > 0
    && forall i | 0 <= i < |p| - 1 :: p[i + 1] in next(p[i])
  }

  ghost predicate WalkBetween<T(!new)>(next: Successors<T>, a: T, b: T, p: seq<T>) {
    IsWalk(next, p) && p[0] == a && p[|p| - 1] == b
  }

  ghost predicate Reaches<T(!new)>(next: Successors<T>, a: T, b: T) {
    exists p :: WalkBetween(next, a, b, p)
  }

  ghost predicate OnCycle<T(!new)>(next: Successors<T>, a: T) {
    exists p :: WalkBetween(next, a, a, p) && |p| > 1
  }

  lemma ReachesSelf<T(!new)>(next: Successors<T>, a: T)
    ensures Reaches(next, a, a)
  {
    assert WalkBetween(next, a, a, [a]);
  }

  lemma ReachesStep<T(!new)>(next: Successors<T>, a: T, b: T, c: T)
    requires b in next(a) && Reaches(next, b, c)
    ensures Reaches(next, a, c)
  {
    var p :| WalkBetween(next, b, c, p);
    assert WalkBetween(next, a, c, [a] + p);
  }

  lemma ReachesThen<T(!new)>(next: Successors<T>, a: T, b: T, c: T)
    requires Reaches(next, a, b) && c in next(b)
    ensures Reaches(next, a, c)
  {
    var p :| WalkBetween(next, a, b, p);
    assert WalkBetween(next, a, c, p + [c]);
  }

  /** A vertex on a cycle starts walks of any length. */
  lemma {:induction false} CyclePumps<T(!new)>(next: Successors<T>, a: T, cycle: seq<T>, length: nat)
    returns (p: seq<T>)
    requires WalkBetween(next, a, a, cycle) && |cycle| > 1
    ensures WalkBetween(next, a, a, p) && |p| > length
  {
    if length == 0 {
      p := cycle;
    } else {
      var q := CyclePumps(next, a, cycle, length - 1);
      p := q + cycle[1..];
      assert p[|p| - 1] == cycle[|cycle| - 1];
    }
  }

  /** A vertex that reaches a cycle starts walks of any length, along which every vertex has a successor. */
  lemma ReachedCyclePumps<T(!new)>(next: Successors<T>, a: T, v: T, length: nat) returns (p: seq<T>)
    requires Reaches(next, a, v) && OnCycle(next, v)
    ensures IsWalk(next, p) && p[0] == a && |p| > length
    ensures forall i | 0 <= i < |p| :: next(p[i]) != {}
  {
    var lead :| WalkBetween(next, a, v, lead);
    var cycle :| WalkBetween(next, v, v, cycle) && |cycle| > 1;
    var long := CyclePumps(next, v, cycle, length);
    p := lead + long[1..];
    forall i | 0 <= i < |p|
      ensures next(p[i]) != {}
    {
      if i < |p| - 1 {
        assert p[i + 1] in next(p[i]);
      } else {
        assert p[i] == long[|long| - 1] == cycle[0] && cycle[1] in next(cycle[0]);
      }
    }
  }

  /** The part of a walk from its j-th vertex on is a walk. */
  lemma WalkSuffix<T(!new)>(next: Successors<T>, p: seq<T>, j: nat)
    requires IsWalk(next, p) && j < |p|
    ensures IsWalk(next, p[j..]) && p[j..][0] == p[j] && p[j..][|p| - j - 1] == p[|p| - 1]
  {
  }

  lemma ReachesTransitively<T(!new)>(next: Successors<T>, a: T, b: T, c: T)
    requires Reaches(next, a, b) && Reaches(next, b, c)
    ensures Reaches(next, a, c)
  {
    var p :| WalkBetween(next, a, b, p);
    var q :| WalkBetween(next, b, c, q);
    assert WalkBetween(next, a, c, p + q[1..]);
  }

  /** An edge and a way back to its start make a cycle. */
  lemma EdgeClosesCycle<T(!new)>(next: Successors<T>, a: T, b: T)
    requires b in next(a) && Reaches(next, b, a)
    ensures OnCycle(next, a)
  {
    var p :| WalkBetween(next, b, a, p);
    assert WalkBetween(next, a, a, [a] + p);
  }

  /** What a vertex on a cycle reaches, and is reached from, is on a cycle. */
  lemma CycleTakesIn<T(!new)>(next: Successors<T>, a: T, b: T)
    requires OnCycle(next, a) && Reaches(next, a, b) && Reaches(next, b, a)
    ensures OnCycle(next, b)
  {
    var cycle :| WalkBetween(next, a, a, cycle) && |cycle| > 1;
    var there :| WalkBetween(next, a, b, there);
    var back :| WalkBetween(next, b, a, back);
    var round := back + cycle[1..];
    assert WalkBetween(next, b, a, round);
    assert WalkBetween(next, b, b, round + there[1..]);
  }

  /** A set that holds the start and every successor of its members holds everything reachable. */
  lemma ClosedSetsHoldReachable<T(!new)>(next: Successors<T>, found: set<T>, a: T, b: T)
    requires a in found && forall v | v in found :: next(v) <= found
    requires Reaches(next, a, b)
    ensures b in found
  {
    var p :| WalkBetween(next, a, b, p);
    WalkStaysInside(next, found, p, |p| - 1);
  }

  lemma {:induction false} WalkStaysInside<T(!new)>(next: Successors<T>, found: set<T>, p: seq<T>, i: nat)
    requires IsWalk(next, p) && i < |p| && p[0] in found && forall v | v in found :: next(v) <= found
    ensures p[i] in found
  {
    if i == 0 {
    } else {
      WalkStaysInside(next, found, p, i - 1);
      assert p[i - 1 + 1] in next(p[i - 1]);
    }
  }

  /** The progress of a search: what was found is reachable, and only `todo` may still have new successors. */
  ghost predicate Searching<T(!new)>(next: Successors<T>, start: T, universe: set<T>, found: set<T>, todo: set<T>) {
    && todo <= found <= universe
    && start in found
    && (forall v | v in found :: Reaches(next, start, v))
    && (forall v | v in found && v !in todo :: next(v) <= found)
  }

  lemma SearchStep<T(!new)>(next: Successors<T>, start: T, universe: set<T>, found: set<T>, todo: set<T>, v: T)
    requires Searching(next, start, universe, found, todo) && v in todo
    requires forall u | u in universe :: next(u) <= universe
    ensures Searching(next, start, universe, found + next(v), todo - {v} + (next(v) - found))
    ensures universe - (found + next(v)) <= universe - found
    ensures next(v) - found == {} ==> todo - {v} + (next(v) - found) == todo - {v}
    ensures next(v) - found != {} ==> |universe - (found + next(v))| < |universe - found|
  {
    forall u | u in next(v)
      ensures Reaches(next, start, u)
    {
      ReachesThen(next, start, v, u);
    }
    if next(v) - found != {} {
      var u :| u in next(v) - found;
      Smaller(universe - (found + next(v)), universe - found);
    }
  }

  lemma SearchEnds<T(!new)>(next: Successors<T>, start: T, universe: set<T>, found: set<T>)
    requires Searching(next, start, universe, found, {})
    ensures forall v :: v in found <==> Reaches(next, start, v)
  {
    forall v | Reaches(next, start, v)
      ensures v in found
    {
      ClosedSetsHoldReachable(next, found, start, v);
    }
  }

  /** Everything reachable from the start, given a finite universe that no edge leaves. */
  method Search<T(!new, ==)>(next: Successors<T>, start: T, universe: set<T>) returns (found: set<T>)
    requires start in universe && forall v | v in universe :: next(v) <= universe
    ensures forall v :: v in found <==> Reaches(next, start, v)
  {
    found := {start};
    var todo := {start};
    ReachesSelf(next, start);
    while todo != {}
      invariant Searching(next, start, universe, found, todo)
      decreases |universe - found|, |todo|
    {
      var v :| v in todo;
      SearchStep(next, start, universe, found, todo, v);
      ghost var left := universe - found;
      var unseen := next(v) - found;
      found, todo := found + next(v), todo - {v} + unseen;
      if unseen == {} {
        assert universe - found == left;
      }
    }
    SearchEnds(next, start, universe, found);
  }

  lemma Smaller<T>(a: set<T>, b: set<T>)
    requires a < b
    ensures |a| < |b|
  {
    assert b == a + (b - a);
    assert |b| == |a| + |b - a|;
  }
}
