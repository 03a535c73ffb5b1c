/** What stopping at repeated names can lose: the contexts in force at the paths beyond them. Paths are what
    matters, so the graph here tells edges along which the path grows from those along which it stays. */
module SchemaLoss {
  import opened Common
  import opened SchemaGraph
  import opened Walks
  import opened SchemaWalk
  import opened SchemaWalkFacts

  ghost predicate Recorded(defs: Schema, visit: Visit)
    requires Visits(defs, Text(ROOT), "", [], []).Ok?
  {
    var table := RecordContexts(map[], Visits(defs, Text(ROOT), "", [], []).value);
    Label(visit.path) in table && visit.context in table[Label(visit.path)]
  }

  /** Every context in force at every path, over all routes from the root, is in the second dictionary. */
  ghost predicate LosesNothing(defs: Schema)
    requires Visits(defs, Text(ROOT), "", [], []).Ok?
  {
    forall turns | Follow(defs, Text(ROOT), "", [], turns).Some? ::
      Recorded(defs, Follow(defs, Text(ROOT), "", [], turns).value)
  }

  // Definitions as they are met: whether the path is still empty decides along which edges it grows

  datatype Place = Place(name: string, atRoot: bool)

  const TOP := Place(ROOT, true)

  /** A path that is empty or not, to ask for children at. */
  function Sample(atRoot: bool): string {
    if atRoot then "" else "x"
  }

  function ChildrenAt(defs: Schema, u: Place): seq<Child> {
    if IsDefinition(defs, u.name) then Children(defs[u.name], Sample(u.atRoot)) else []
  }

  function PlaceOf(child: Child): Place
    requires NamedSpec(child.spec).Some?
  {
    Place(NamedSpec(child.spec).value, child.path == "")
  }

  function Onward(defs: Schema): Successors<Place> {
    u => set child | child in ChildrenAt(defs, u) && NamedSpec(child.spec).Some? :: PlaceOf(child)
  }

  /** The edges along which the path stays: one-of alternatives, and an empty key at the empty path. */
  function Level(defs: Schema): Successors<Place> {
    u => set child | child in ChildrenAt(defs, u) && NamedSpec(child.spec).Some? && child.path == Sample(u.atRoot) ::
        PlaceOf(child)
  }

  /** The edges along which the path grows. */
  function Growing(defs: Schema): Successors<Place> {
    u => set child | child in ChildrenAt(defs, u) && NamedSpec(child.spec).Some? && child.path != Sample(u.atRoot) ::
        PlaceOf(child)
  }

  function At(visit: Visit): Place {
    Place(visit.name, visit.path == "")
  }

  // Children at any path

  /** A child in one of the four parts of the list of children. */
  ghost predicate AlikeAt(children: seq<Child>, path: string, others: seq<Child>, other: string, i: int) {
    && 0 <= i < |children| == |others|
    && children[i].spec == others[i].spec
    && (children[i].path == path <==> others[i].path == other)
    && (children[i].path == "" <==> others[i].path == "")
  }

  ghost predicate Alike(children: seq<Child>, path: string, others: seq<Child>, other: string) {
    |children| == |others| && forall i | 0 <= i < |children| :: AlikeAt(children, path, others, other, i)
  }

  lemma AlikeAppends(a: seq<Child>, b: seq<Child>, path: string, c: seq<Child>, d: seq<Child>, other: string)
    requires Alike(a, path, c, other) && Alike(b, path, d, other)
    ensures Alike(a + b, path, c + d, other)
  {
    forall i | 0 <= i < |a + b|
      ensures AlikeAt(a + b, path, c + d, other, i)
    {
      assert if i < |a| then AlikeAt(a, path, c, other, i) else AlikeAt(b, path, d, other, i - |a|);
    }
  }

  /** The children differ only in what their paths start with, if both paths are empty or neither is. */
  lemma ChildrenAlike(node: Definition, path: string, other: string)
    requires path == "" <==> other == ""
    ensures Alike(Children(node, path), path, Children(node, other), other)
  {
    var one, props, loose := OneOfPart(node, path), PropertiesPart(node, path), LoosePart(node, path);
    var one', props', loose' := OneOfPart(node, other), PropertiesPart(node, other), LoosePart(node, other);
    AlikeAppends(one, props, path, one', props', other);
    AlikeAppends(one + props, loose, path, one' + props', loose', other);
    AlikeAppends(one + props + loose, SequencePart(node, path), path, one' + props' + loose', SequencePart(node, other),
      other);
  }

  lemma PathsNeverShrink(node: Definition, path: string, i: nat)
    requires i < |Children(node, path)|
    ensures |Children(node, path)[i].path| >= |path|
    ensures Children(node, path)[i].path != path ==> |Children(node, path)[i].path| > |path|
  {
  }

  /** A child that makes the empty path grow makes every path grow. */
  lemma GrowsAnywhere(node: Definition, path: string, i: nat)
    requires path != "" && i < |Children(node, "")|
    ensures |Children(node, path)| == |Children(node, "")|
    ensures Children(node, "")[i].path != "" ==> |Children(node, path)[i].path| > |path|
  {
    ChildrenAnywhere(node, "", path);
  }

  // Routes, cut and joined

  lemma FollowNames(defs: Schema, spec: Spec, path: string, inherited: seq<string>, turns: seq<nat>)
    requires NamedSpec(spec).Some?
    ensures Follow(defs, spec, path, inherited, turns) ==
      Follow(defs, Text(NamedSpec(spec).value), path, inherited, turns)
  {
  }

  /** A route that goes on from a visit. */
  function FollowFrom(defs: Schema, visit: Visit, turns: seq<nat>): Option<Visit> {
    Follow(defs, Text(visit.name), visit.path, visit.context, turns)
  }

  /** A definition whose own context is in force is visited with that context again. */
  lemma FollowReenters(defs: Schema, spec: Spec, path: string, inherited: seq<string>, turns: seq<nat>)
    requires NamedSpec(spec).Some? && IsDefinition(defs, NamedSpec(spec).value)
    ensures var name := NamedSpec(spec).value;
      Follow(defs, spec, path, inherited, turns) ==
        Follow(defs, Text(name), path, Effective(defs[name], inherited), turns)
  {
  }

  lemma {:induction false} FollowAppends(defs: Schema, spec: Spec, path: string, inherited: seq<string>, a: seq<nat>,
                                         b: seq<nat>)
    ensures Follow(defs, spec, path, inherited, a + b) ==
      match Follow(defs, spec, path, inherited, a) case None => None case Some(visit) => FollowFrom(defs, visit, b)
    decreases |a|
  {
    if NamedSpec(spec).None? || !IsDefinition(defs, NamedSpec(spec).value) {
    } else if a == [] {
      assert a + b == b;
      FollowReenters(defs, spec, path, inherited, b);
    } else {
      var name := NamedSpec(spec).value;
      var children := Children(defs[name], path);
      assert (a + b)[0] == a[0] && (a + b)[1..] == a[1..] + b;
      if a[0] < |children| {
        FollowAppends(defs, children[a[0]].spec, children[a[0]].path, Effective(defs[name], inherited), a[1..], b);
      }
    }
  }

  /** What a route passes are the names it visits on the way. */
  lemma {:induction false} PassedIsFollowed(defs: Schema, spec: Spec, path: string, inherited: seq<string>,
                                            turns: seq<nat>, i: nat)
    requires Follow(defs, spec, path, inherited, turns).Some? && i < |Passed(defs, spec, path, turns)|
    ensures |Passed(defs, spec, path, turns)| == |turns|
    ensures Follow(defs, spec, path, inherited, turns[..i]).Some?
    ensures Follow(defs, spec, path, inherited, turns[..i]).value.name == Passed(defs, spec, path, turns)[i]
    decreases |turns|
  {
    var name := NamedSpec(spec).value;
    var child := Children(defs[name], path)[turns[0]];
    var rest := Passed(defs, child.spec, child.path, turns[1..]);
    if i > 0 {
      PassedIsFollowed(defs, child.spec, child.path, Effective(defs[name], inherited), turns[1..], i - 1);
      assert turns[..i][0] == turns[0] && turns[..i][1..] == turns[1..][..i - 1];
    } else {
      PassedLength(defs, child.spec, child.path, Effective(defs[name], inherited), turns[1..]);
    }
  }

  lemma {:induction false} PassedLength(defs: Schema, spec: Spec, path: string, inherited: seq<string>, turns: seq<nat>)
    requires Follow(defs, spec, path, inherited, turns).Some?
    ensures |Passed(defs, spec, path, turns)| == |turns|
    decreases |turns|
  {
    if turns == [] {
    } else {
      var name := NamedSpec(spec).value;
      var child := Children(defs[name], path)[turns[0]];
      PassedLength(defs, child.spec, child.path, Effective(defs[name], inherited), turns[1..]);
    }
  }

  // Routes and the graph

  /** A growing edge lies on some way from one place to the other. */
  ghost predicate GrowsOnTheWay(defs: Schema, from: Place, to: Place) {
    exists a, b :: GrowsBetween(defs, from, a, b, to)
  }

  ghost predicate GrowsBetween(defs: Schema, from: Place, a: Place, b: Place, to: Place) {
    Reaches(Onward(defs), from, a) && b in Growing(defs)(a) && Reaches(Onward(defs), b, to)
  }

  lemma ChildIsOnward(defs: Schema, name: string, path: string, i: nat)
    requires IsDefinition(defs, name) && i < |Children(defs[name], path)|
    requires NamedSpec(Children(defs[name], path)[i].spec).Some?
    ensures var u, child := Place(name, path == ""), Children(defs[name], path)[i];
      && PlaceOf(child) in Onward(defs)(u)
      && (child.path == path ==> PlaceOf(child) in Level(defs)(u))
      && (child.path != path ==> PlaceOf(child) in Growing(defs)(u))
  {
    var u := Place(name, path == "");
    ChildrenAlike(defs[name], path, Sample(u.atRoot));
    assert AlikeAt(Children(defs[name], path), path, Children(defs[name], Sample(u.atRoot)), Sample(u.atRoot), i);
    assert Children(defs[name], Sample(u.atRoot))[i] in ChildrenAt(defs, u);
  }

  /** What the graph says about the route from one place to another, given the length of the path at both. */
  ghost predicate Climbed(defs: Schema, from: Place, path: string, to: Place, end: string) {
    && |end| >= |path|
    && Reaches(Onward(defs), from, to)
    && (end == path ==> Reaches(Level(defs), from, to))
    && (end != path ==> |end| > |path| && GrowsOnTheWay(defs, from, to))
  }

  lemma ClimbedOne(defs: Schema, from: Place, path: string, next: Place, middle: string, to: Place, end: string)
    requires Climbed(defs, next, middle, to, end)
    requires |middle| >= |path| && (middle != path ==> |middle| > |path|) && next in Onward(defs)(from)
    requires if middle == path then next in Level(defs)(from) else next in Growing(defs)(from)
    ensures Climbed(defs, from, path, to, end)
  {
    ReachesStep(Onward(defs), from, next, to);
    if end == path {
      ReachesStep(Level(defs), from, next, to);
    } else if middle != path {
      ReachesSelf(Onward(defs), from);
      assert GrowsBetween(defs, from, from, next, to);
    } else {
      var a, b :| GrowsBetween(defs, next, a, b, to);
      ReachesStep(Onward(defs), from, next, a);
      assert GrowsBetween(defs, from, a, b, to);
    }
  }

  lemma {:induction false} RouteClimbs(defs: Schema, spec: Spec, path: string, inherited: seq<string>, turns: seq<nat>)
    requires Follow(defs, spec, path, inherited, turns).Some?
    ensures var end := Follow(defs, spec, path, inherited, turns).value;
      Climbed(defs, Place(NamedSpec(spec).value, path == ""), path, At(end), end.path)
    decreases |turns|
  {
    var name := NamedSpec(spec).value;
    var end := Follow(defs, spec, path, inherited, turns).value;
    var from := Place(name, path == "");
    if turns == [] {
      ReachesSelf(Onward(defs), from);
      ReachesSelf(Level(defs), from);
    } else {
      var child := Children(defs[name], path)[turns[0]];
      RouteClimbs(defs, child.spec, child.path, Effective(defs[name], inherited), turns[1..]);
      PathsNeverShrink(defs[name], path, turns[0]);
      ChildIsOnward(defs, name, path, turns[0]);
      ClimbedOne(defs, from, path, PlaceOf(child), child.path, At(end), end.path);
    }
  }

  /** The same turns from another path, which is not empty, lead to the same name, and grow that path too. */
  lemma {:induction false} FollowsAlike(defs: Schema, spec: Spec, path: string, inherited: seq<string>,
                                        other: Spec, at: string, context: seq<string>, turns: seq<nat>)
    requires NamedSpec(spec) == NamedSpec(other) && at != ""
    requires Follow(defs, spec, path, inherited, turns).Some?
    ensures var v, w := Follow(defs, spec, path, inherited, turns), Follow(defs, other, at, context, turns);
      && w.Some? && w.value.name == v.value.name && |w.value.path| >= |at|
      && (v.value.path != path ==> |w.value.path| > |at|)
    decreases |turns|
  {
    if turns == [] {
    } else {
      var node := defs[NamedSpec(spec).value];
      var i := turns[0];
      ChildrenAnywhere(node, path, at);
      var child, twin := Children(node, path)[i], Children(node, at)[i];
      PathsNeverShrink(node, at, i);
      if path == "" {
        GrowsAnywhere(node, at, i);
      } else {
        ChildrenAlike(node, path, at);
        assert AlikeAt(Children(node, path), path, Children(node, at), at, i);
      }
      FollowsAlike(defs, child.spec, child.path, Effective(node, inherited), twin.spec, twin.path,
        Effective(node, context), turns[1..]);
    }
  }

  // Without growth on cycles, repeated stretches of a route are idle

  /** A cycle that can be reached from the root, with an edge along which the path grows. */
  ghost predicate GrowingCycle(defs: Schema) {
    exists a, b :: OnGrowingCycle(defs, a, b)
  }

  ghost predicate OnGrowingCycle(defs: Schema, a: Place, b: Place) {
    Reaches(Onward(defs), TOP, a) && b in Growing(defs)(a) && Reaches(Onward(defs), b, a)
  }

  /** No definition on a reachable cycle that keeps the path sets a context. */
  ghost predicate LevelCyclesAreSilent(defs: Schema) {
    forall u | Reaches(Onward(defs), TOP, u) && OnCycle(Level(defs), u) :: Silent(defs, u.name)
  }

  predicate Silent(defs: Schema, name: string) {
    name in defs ==> defs[name].context.None?
  }

  /** A route that grows and comes back to its name runs along a growing cycle. */
  lemma ReturnGrows(defs: Schema, v: Visit, stretch: seq<nat>, w: Visit)
    requires Reaches(Onward(defs), TOP, At(v))
    requires FollowFrom(defs, v, stretch) == Some(w) && w.name == v.name && w.path != v.path
    ensures GrowingCycle(defs)
    decreases if v.path == "" then 1 else 0
  {
    var next := Onward(defs);
    RouteClimbs(defs, Text(v.name), v.path, v.context, stretch);
    ReachesTransitively(next, TOP, At(v), At(w));
    if v.path != "" {
      var a, b :| GrowsBetween(defs, At(v), a, b, At(w));
      ReachesTransitively(next, TOP, At(v), a);
      ReachesTransitively(next, b, At(w), a);
      assert OnGrowingCycle(defs, a, b);
    } else {
      FollowsAlike(defs, Text(v.name), v.path, v.context, Text(w.name), w.path, w.context, stretch);
      ReturnGrows(defs, w, stretch, FollowFrom(defs, w, stretch).value);
    }
  }

  /** Along edges that keep the path, past definitions without a context, the context stays. */
  lemma {:induction false} LevelKeepsContext(defs: Schema, spec: Spec, path: string, context: seq<string>,
                                             turns: seq<nat>)
    requires Follow(defs, spec, path, context, turns).Some?
    requires Follow(defs, spec, path, context, turns).value.path == path
    requires forall x | Reaches(Level(defs), Place(NamedSpec(spec).value, path == ""), x)
                        && Reaches(Level(defs), x, At(Follow(defs, spec, path, context, turns).value)) ::
                          Silent(defs, x.name)
    ensures Follow(defs, spec, path, context, turns).value.context == context
    decreases |turns|
  {
    var name, level := NamedSpec(spec).value, Level(defs);
    var end, from := Follow(defs, spec, path, context, turns).value, Place(name, path == "");
    RouteClimbs(defs, spec, path, context, turns);
    ReachesSelf(level, from);
    assert Silent(defs, from.name);
    if turns != [] {
      var child := Children(defs[name], path)[turns[0]];
      RouteClimbs(defs, child.spec, child.path, context, turns[1..]);
      PathsNeverShrink(defs[name], path, turns[0]);
      ChildIsOnward(defs, name, path, turns[0]);
      forall x | Reaches(level, PlaceOf(child), x) && Reaches(level, x, At(end))
        ensures Silent(defs, x.name)
      {
        ReachesStep(level, from, PlaceOf(child), x);
      }
      LevelKeepsContext(defs, child.spec, child.path, context, turns[1..]);
    }
  }

  /** A stretch of edges that keep the path and comes back to its name is on a cycle of such edges. */
  lemma LevelReturnIsCycle(defs: Schema, v: Visit, stretch: seq<nat>, w: Visit)
    requires stretch != [] && FollowFrom(defs, v, stretch) == Some(w) && w.name == v.name && w.path == v.path
    ensures OnCycle(Level(defs), At(v))
  {
    var child := Children(defs[v.name], v.path)[stretch[0]];
    RouteClimbs(defs, child.spec, child.path, Effective(defs[v.name], v.context), stretch[1..]);
    PathsNeverShrink(defs[v.name], v.path, stretch[0]);
    ChildIsOnward(defs, v.name, v.path, stretch[0]);
    EdgeClosesCycle(Level(defs), At(v), PlaceOf(child));
  }

  lemma LevelIsOnward(defs: Schema, u: Place)
    ensures Level(defs)(u) <= Onward(defs)(u)
  {
  }

  lemma LevelReachesOnward(defs: Schema, a: Place, b: Place)
    requires Reaches(Level(defs), a, b)
    ensures Reaches(Onward(defs), a, b)
  {
    var p :| WalkBetween(Level(defs), a, b, p);
    forall i | 0 <= i < |p| - 1
      ensures p[i + 1] in Onward(defs)(p[i])
    {
      LevelIsOnward(defs, p[i]);
      assert p[i + 1] in Level(defs)(p[i]);
    }
    assert WalkBetween(Onward(defs), a, b, p);
  }

  /** If nothing grows and nothing is set on cycles, coming back to a name changes nothing at all. */
  lemma StretchIsIdle(defs: Schema, v: Visit, stretch: seq<nat>, w: Visit)
    requires !GrowingCycle(defs) && LevelCyclesAreSilent(defs) && Reaches(Onward(defs), TOP, At(v))
    requires stretch != [] && FollowFrom(defs, v, stretch) == Some(w) && w.name == v.name
    ensures w == v
  {
    var level := Level(defs);
    if w.path != v.path {
      ReturnGrows(defs, v, stretch, w);
    }
    LevelReturnIsCycle(defs, v, stretch, w);
    forall x | Reaches(level, At(v), x) && Reaches(level, x, At(w))
      ensures Silent(defs, x.name)
    {
      CycleTakesIn(level, At(v), x);
      LevelReachesOnward(defs, At(v), x);
      ReachesTransitively(Onward(defs), TOP, At(v), x);
    }
    LevelKeepsContext(defs, Text(v.name), v.path, v.context, stretch);
  }

  /** A route without a stretch that comes back to its name leads to the same visit. */
  lemma CutStretch(defs: Schema, lead: seq<nat>, stretch: seq<nat>, rest: seq<nat>, v: Visit, w: Visit)
    requires !GrowingCycle(defs) && LevelCyclesAreSilent(defs) && stretch != []
    requires Follow(defs, Text(ROOT), "", [], lead) == Some(v)
    requires Follow(defs, Text(ROOT), "", [], lead + stretch) == Some(w)
    requires v.name == w.name
    ensures Follow(defs, Text(ROOT), "", [], lead + rest) == Follow(defs, Text(ROOT), "", [], lead + stretch + rest)
  {
    FollowAppends(defs, Text(ROOT), "", [], lead, stretch);
    RouteClimbs(defs, Text(ROOT), "", [], lead);
    StretchIsIdle(defs, v, stretch, w);
    FollowAppends(defs, Text(ROOT), "", [], lead + stretch, rest);
    FollowAppends(defs, Text(ROOT), "", [], lead, rest);
  }

  lemma SameNameTwice(defs: Schema, turns: seq<nat>, passed: seq<string>, i: nat, j: nat) returns (v: Visit, w: Visit)
    requires Follow(defs, Text(ROOT), "", [], turns).Some? && passed == Passed(defs, Text(ROOT), "", turns)
    requires i < j < |passed| && passed[i] == passed[j]
    ensures |passed| == |turns|
    ensures Follow(defs, Text(ROOT), "", [], turns[..i]) == Some(v)
    ensures Follow(defs, Text(ROOT), "", [], turns[..j]) == Some(w)
    ensures v.name == w.name
  {
    PassedIsFollowed(defs, Text(ROOT), "", [], turns, i);
    PassedIsFollowed(defs, Text(ROOT), "", [], turns, j);
    v, w := Follow(defs, Text(ROOT), "", [], turns[..i]).value, Follow(defs, Text(ROOT), "", [], turns[..j]).value;
  }

  lemma Thirds(turns: seq<nat>, i: nat, j: nat)
    requires i < j <= |turns|
    ensures turns[..i] + turns[i..j] == turns[..j] && turns[..j] + turns[j..] == turns
    ensures turns[i..j] != [] && |turns[..i] + turns[j..]| < |turns|
  {
  }

  lemma CutRepetition(defs: Schema, turns: seq<nat>, passed: seq<string>, i: nat, j: nat) returns (shorter: seq<nat>)
    requires !GrowingCycle(defs) && LevelCyclesAreSilent(defs)
    requires Follow(defs, Text(ROOT), "", [], turns).Some? && passed == Passed(defs, Text(ROOT), "", turns)
    requires i < j < |passed| && passed[i] == passed[j]
    ensures |shorter| < |turns| && Follow(defs, Text(ROOT), "", [], shorter) == Follow(defs, Text(ROOT), "", [], turns)
  {
    var v, w := SameNameTwice(defs, turns, passed, i, j);
    Thirds(turns, i, j);
    CutStretch(defs, turns[..i], turns[i..j], turns[j..], v, w);
    shorter := turns[..i] + turns[j..];
  }

  /** Every route can be cut down to one that is taken. */
  lemma {:induction false} RouteIsRecorded(defs: Schema, turns: seq<nat>, visit: Visit)
    requires Visits(defs, Text(ROOT), "", [], []).Ok? && !GrowingCycle(defs) && LevelCyclesAreSilent(defs)
    requires Follow(defs, Text(ROOT), "", [], turns) == Some(visit)
    ensures Recorded(defs, visit)
    decreases |turns|
  {
    var passed := Passed(defs, Text(ROOT), "", turns);
    if Distinct(passed) {
      assert RouteFromRoot(defs, turns, visit);
      DictionariesAreExactlyTheSimpleRoutes(defs, visit.name, Label(visit.path), visit.context);
    } else {
      var i: nat, j: nat :| i < j < |passed| && passed[i] == passed[j];
      var shorter := CutRepetition(defs, turns, passed, i, j);
      RouteIsRecorded(defs, shorter, visit);
    }
  }

  // A growing cycle has no end of paths

  lemma {:induction false} WalkHasRoute(defs: Schema, p: seq<Place>, path: string, inherited: seq<string>)
    returns (turns: seq<nat>)
    requires IsWalk(Onward(defs), p) && p[0].atRoot == (path == "") && IsDefinition(defs, p[|p| - 1].name)
    ensures var end := Follow(defs, Text(p[0].name), path, inherited, turns);
      end.Some? && At(end.value) == p[|p| - 1] && |end.value.path| >= |path|
    decreases |p|
  {
    if |p| == 1 {
      turns := [];
    } else {
      assert p[1] in Onward(defs)(p[0]);
      var turn, child := TurnToward(defs, p[0], p[1], path);
      WalkSuffix(Onward(defs), p, 1);
      PathsNeverShrink(defs[p[0].name], path, turn);
      var rest := WalkHasRoute(defs, p[1..], child.path, Effective(defs[p[0].name], inherited));
      FollowNames(defs, child.spec, child.path, Effective(defs[p[0].name], inherited), rest);
      turns := [turn] + rest;
      assert turns[1..] == rest;
    }
  }

  /** The turn that takes an edge, at any path; along a growing edge it makes the path grow. */
  lemma TurnToward(defs: Schema, u: Place, v: Place, path: string) returns (turn: nat, child: Child)
    requires v in Onward(defs)(u) && u.atRoot == (path == "")
    ensures IsDefinition(defs, u.name) && turn < |Children(defs[u.name], path)|
    ensures child == Children(defs[u.name], path)[turn] && NamedSpec(child.spec).Some? && PlaceOf(child) == v
    ensures v in Growing(defs)(u) ==> |child.path| > |path|
  {
    var near: Child;
    if v in Growing(defs)(u) {
      near :| near in ChildrenAt(defs, u) && NamedSpec(near.spec).Some? && near.path != Sample(u.atRoot) &&
        PlaceOf(near) == v;
    } else {
      near :| near in ChildrenAt(defs, u) && NamedSpec(near.spec).Some? && PlaceOf(near) == v;
    }
    turn :| turn < |ChildrenAt(defs, u)| && ChildrenAt(defs, u)[turn] == near;
    ChildrenAlike(defs[u.name], Sample(u.atRoot), path);
    assert AlikeAt(Children(defs[u.name], Sample(u.atRoot)), Sample(u.atRoot), Children(defs[u.name], path), path,
      turn);
    child := Children(defs[u.name], path)[turn];
    PathsNeverShrink(defs[u.name], path, turn);
  }

  /** Once around a growing cycle, back to the same place with a longer path. */
  lemma OneRound(defs: Schema, a: Place, b: Place, path: string, inherited: seq<string>) returns (turns: seq<nat>)
    requires OnGrowingCycle(defs, a, b) && a.atRoot == (path == "")
    ensures var end := Follow(defs, Text(a.name), path, inherited, turns);
      end.Some? && At(end.value) == a && |end.value.path| > |path|
  {
    assert b in Onward(defs)(a);
    var turn, child := TurnToward(defs, a, b, path);
    var back :| WalkBetween(Onward(defs), b, a, back);
    var rest := WalkHasRoute(defs, back, child.path, Effective(defs[a.name], inherited));
    FollowNames(defs, child.spec, child.path, Effective(defs[a.name], inherited), rest);
    turns := [turn] + rest;
    assert turns[1..] == rest;
  }

  lemma {:induction false} Rounds(defs: Schema, a: Place, b: Place, n: nat) returns (turns: seq<nat>)
    requires OnGrowingCycle(defs, a, b)
    ensures var end := Follow(defs, Text(ROOT), "", [], turns); end.Some? && At(end.value) == a && |end.value.path| >= n
    decreases n
  {
    if n == 0 {
      var lead :| WalkBetween(Onward(defs), TOP, a, lead);
      assert b in Onward(defs)(a);
      turns := WalkHasRoute(defs, lead, "", []);
    } else {
      var fewer := Rounds(defs, a, b, n - 1);
      var there := Follow(defs, Text(ROOT), "", [], fewer).value;
      var round := OneRound(defs, a, b, there.path, there.context);
      FollowAppends(defs, Text(ROOT), "", [], fewer, round);
      turns := fewer + round;
    }
  }

  lemma {:induction false} LengthsAreBounded(places: set<string>) returns (bound: nat)
    ensures forall place | place in places :: |place| <= bound
    decreases |places|
  {
    if places == {} {
      bound := 0;
    } else {
      var place :| place in places;
      var others := LengthsAreBounded(places - {place});
      bound := if others < |place| then |place| else others;
      assert forall other | other in places :: other == place || other in places - {place};
    }
  }

  // Main results

  /** A reachable cycle with a growing edge loses something, in every schema. */
  lemma GrowingCyclesLose(defs: Schema)
    requires Visits(defs, Text(ROOT), "", [], []).Ok? && GrowingCycle(defs)
    ensures !LosesNothing(defs)
  {
    var a, b :| OnGrowingCycle(defs, a, b);
    var bound := LengthsAreBounded(RecordContexts(map[], Visits(defs, Text(ROOT), "", [], []).value).Keys);
    var turns := Rounds(defs, a, b, bound + 1);
    assert !Recorded(defs, Follow(defs, Text(ROOT), "", [], turns).value);
  }

  /** If no path grows on a cycle and no context is set on one, nothing is lost. */
  lemma SilentLevelCyclesLoseNothing(defs: Schema)
    requires Visits(defs, Text(ROOT), "", [], []).Ok? && !GrowingCycle(defs) && LevelCyclesAreSilent(defs)
    ensures LosesNothing(defs)
  {
    forall turns | Follow(defs, Text(ROOT), "", [], turns).Some?
      ensures Recorded(defs, Follow(defs, Text(ROOT), "", [], turns).value)
    {
      RouteIsRecorded(defs, turns, Follow(defs, Text(ROOT), "", [], turns).value);
    }
  }

  /** Unless a context is set on a cycle that keeps the path, the second dictionary holds every context in force at
      every path exactly when no reachable cycle makes the path grow. */
  lemma LosesNothingExactly(defs: Schema)
    requires Visits(defs, Text(ROOT), "", [], []).Ok? && LevelCyclesAreSilent(defs)
    ensures LosesNothing(defs) <==> !GrowingCycle(defs)
  {
    if GrowingCycle(defs) {
      GrowingCyclesLose(defs);
    } else {
      SilentLevelCyclesLoseNothing(defs);
    }
  }

  lemma AlternativeIsOnward(defs: Schema, name: string, spec: Spec, below: string)
    requires IsDefinition(defs, name) && NamedSpec(spec) == Some(below)
    requires defs[name].oneOf.Some? && defs[name].oneOf.value.Alternatives? && spec in defs[name].oneOf.value.specs
    ensures Place(below, false) in Onward(defs)(Place(name, false))
  {
    var specs := defs[name].oneOf.value.specs;
    var i: nat :| i < |specs| && specs[i] == spec;
    assert OneOfPart(defs[name], "x")[i] in Children(defs[name], "x");
    ChildIsOnward(defs, name, "x", i);
  }

  lemma ItemGrows(defs: Schema, name: string, item: Spec, below: string)
    requires IsDefinition(defs, name) && NamedSpec(item) == Some(below)
    requires defs[name].sequence == Some(SequenceOf(item))
    ensures Place(below, false) in Growing(defs)(Place(name, false))
  {
    var child, children := SequencePart(defs[name], "x")[0], Children(defs[name], "x");
    assert child == children[|children| - 1];
    ChildIsOnward(defs, name, "x", |children| - 1);
  }

  lemma PropertyIsOnward(defs: Schema, name: string, property: Property, below: string)
    requires IsDefinition(defs, name) && NamedSpec(property.spec) == Some(below)
    requires defs[name].mapping.Some? && defs[name].mapping.value.Mapping?
    requires defs[name].mapping.value.properties.Properties?
    requires property in defs[name].mapping.value.properties.entries
    ensures Place(below, false) in Onward(defs)(Place(name, false))
  {
    var entries := defs[name].mapping.value.properties.entries;
    var i: nat :| i < |entries| && entries[i] == property;
    var at := |OneOfPart(defs[name], "x")| + i;
    assert PropertiesPart(defs[name], "x")[i] == Children(defs[name], "x")[at];
    ChildIsOnward(defs, name, "x", at);
  }

  /** An item of a list, with an alternative that has the list as a property: so `steps-item`, `parallel-step` and
      `parallel-steps` of the workflow schema, which is among those that lose something. */
  lemma NestedListsLose(defs: Schema, step: string, group: string, list: string, alternative: Spec, property: Property,
                        item: Spec)
    requires Visits(defs, Text(ROOT), "", [], []).Ok? && Reaches(Onward(defs), TOP, Place(step, false))
    requires IsDefinition(defs, step) && IsDefinition(defs, group) && IsDefinition(defs, list)
    requires defs[step].oneOf.Some? && defs[step].oneOf.value.Alternatives?
    requires alternative in defs[step].oneOf.value.specs && NamedSpec(alternative) == Some(group)
    requires defs[group].mapping.Some? && defs[group].mapping.value.Mapping?
    requires defs[group].mapping.value.properties.Properties?
    requires property in defs[group].mapping.value.properties.entries && NamedSpec(property.spec) == Some(list)
    requires defs[list].sequence == Some(SequenceOf(item)) && NamedSpec(item) == Some(step)
    ensures !LosesNothing(defs)
  {
    AlternativeIsOnward(defs, step, alternative, group);
    PropertyIsOnward(defs, group, property, list);
    ItemGrows(defs, list, item, step);
    TriangleGrows(defs, Place(step, false), Place(group, false), Place(list, false));
    GrowingCyclesLose(defs);
  }

  lemma TriangleGrows(defs: Schema, a: Place, b: Place, c: Place)
    requires Reaches(Onward(defs), TOP, a)
    requires b in Onward(defs)(a) && c in Onward(defs)(b) && a in Growing(defs)(c)
    ensures GrowingCycle(defs)
  {
    ReachesThen(Onward(defs), TOP, a, b);
    ReachesThen(Onward(defs), TOP, b, c);
    ReachesSelf(Onward(defs), c);
    ReachesStep(Onward(defs), b, c, c);
    ReachesStep(Onward(defs), a, b, c);
    assert OnGrowingCycle(defs, c, a);
  }

  /** In particular nothing is lost without a reachable cycle. */
  lemma AcyclicSchemasLoseNothing(defs: Schema)
    requires Visits(defs, Text(ROOT), "", [], []).Ok?
    requires forall u | Reaches(Onward(defs), TOP, u) :: !OnCycle(Onward(defs), u)
    ensures LosesNothing(defs)
  {
    if GrowingCycle(defs) {
      var a, b :| OnGrowingCycle(defs, a, b);
      assert b in Onward(defs)(a);
      EdgeClosesCycle(Onward(defs), a, b);
    }
    forall u | OnCycle(Level(defs), u)
      ensures OnCycle(Onward(defs), u)
    {
      LevelCycleIsCycle(defs, u);
    }
    SilentLevelCyclesLoseNothing(defs);
  }

  lemma LevelCycleIsCycle(defs: Schema, u: Place)
    requires OnCycle(Level(defs), u)
    ensures OnCycle(Onward(defs), u)
  {
    var p :| WalkBetween(Level(defs), u, u, p) && |p| > 1;
    WalkSuffix(Level(defs), p, 1);
    assert p[1] in Level(defs)(p[0]);
    LevelIsOnward(defs, u);
    assert WalkBetween(Level(defs), p[1], u, p[1..]);
    LevelReachesOnward(defs, p[1], u);
    EdgeClosesCycle(Onward(defs), u, p[1]);
  }

  // An example: a context set on a cycle that keeps the path

  /** A root with a one-of cycle through a definition that sets a context. */
  const CYCLIC_ROOT := Definition({}, None, Some(Alternatives([Text("inner")])),
                                  Some(Mapping(Properties([Property("k", Text("leaf"))]), None)), None)
  const CYCLIC_INNER := Definition({}, Some(Contexts(["github"])), Some(Alternatives([Text(ROOT)])), None, None)
  const CYCLIC_LEAF := Definition({"string"}, None, None, None, None)
  const CYCLIC: Schema := map[ROOT := CYCLIC_ROOT, "inner" := CYCLIC_INNER, "leaf" := CYCLIC_LEAF]

  lemma CyclicChildren()
    ensures Children(CYCLIC_ROOT, "") == [Child(Text("inner"), ""), Child(Text("leaf"), "k")]
    ensures Children(CYCLIC_INNER, "") == [Child(Text(ROOT), "")]
    ensures Children(CYCLIC_LEAF, "k") == []
  {
  }

  /** One level of `Visits` on a definition with sound fields that is not on the stack. */
  lemma Unfold(defs: Schema, name: string, path: string, inherited: seq<string>, stack: seq<string>, below: seq<Visit>)
    requires IsDefinition(defs, name) && ContextIsSound(defs[name]) && FieldsAreSound(defs[name]) && name !in stack
    requires VisitAll(defs, Children(defs[name], path), Effective(defs[name], inherited), stack + [name]) == Ok(below)
    ensures Visits(defs, Text(name), path, inherited, stack) ==
      Ok([Visit(name, path, Effective(defs[name], inherited))] + below)
  {
  }

  lemma OneChild(defs: Schema, child: Child, context: seq<string>, stack: seq<string>, visits: seq<Visit>)
    requires Visits(defs, child.spec, child.path, context, stack) == Ok(visits)
    ensures VisitAll(defs, [child], context, stack) == Ok(visits)
  {
    assert VisitAll(defs, [], context, stack) == Ok([]);
    assert visits + [] == visits;
  }

  lemma CyclicVisits(github: seq<string>)
    requires github == ["github"]
    ensures Visits(CYCLIC, Text(ROOT), "", [], [])
      == Ok([Visit(ROOT, "", []), Visit("inner", "", github), Visit(ROOT, "", github), Visit("leaf", "k", [])])
  {
    CyclicChildren();
    var root, inner, leaf := Child(Text(ROOT), ""), Child(Text("inner"), ""), Child(Text("leaf"), "k");
    var onRoot: seq<string> := [] + [ROOT];
    var again := Visit(ROOT, "", github);
    assert Visits(CYCLIC, Text(ROOT), "", github, onRoot + ["inner"]) == Ok([again]);
    OneChild(CYCLIC, root, github, onRoot + ["inner"], [again]);
    Unfold(CYCLIC, "inner", "", [], onRoot, [again]);
    var first := [Visit("inner", "", github)] + [again];
    OneChild(CYCLIC, inner, [], onRoot, first);
    assert VisitAll(CYCLIC, [], [], onRoot + ["leaf"]) == Ok([]);
    Unfold(CYCLIC, "leaf", "k", [], onRoot, []);
    var second := [Visit("leaf", "k", [])] + [];
    OneChild(CYCLIC, leaf, [], onRoot, second);
    VisitAllAppends(CYCLIC, [inner], [leaf], [], onRoot);
    assert [inner] + [leaf] == Children(CYCLIC_ROOT, "");
    Unfold(CYCLIC, ROOT, "", [], [], first + second);
    assert first == [Visit("inner", "", github), again] && second == [Visit("leaf", "k", [])];
    assert [Visit(ROOT, "", [])] + (first + second)
      == [Visit(ROOT, "", []), Visit("inner", "", github), again, Visit("leaf", "k", [])];
  }

  lemma CyclicRoute(github: seq<string>)
    requires github == ["github"]
    ensures Follow(CYCLIC, Text(ROOT), "", [], [0, 0, 1]) == Some(Visit("leaf", "k", github))
  {
    CyclicChildren();
    var turns: seq<nat> := [0, 0, 1];
    assert turns[1..] == [0, 1] && turns[1..][1..] == [1] && turns[1..][1..][1..] == [];
    assert Follow(CYCLIC, Text("leaf"), "k", github, []) == Some(Visit("leaf", "k", github));
    assert Follow(CYCLIC, Text(ROOT), "", github, [1]) == Some(Visit("leaf", "k", github));
    assert Follow(CYCLIC, Text("inner"), "", [], [0, 1]) == Some(Visit("leaf", "k", github));
  }

  /** With a cycle a context can be lost: below the repeated root, path `k` is in force with `github`,
      but the dictionary lacks that context for it. */
  lemma CyclesCanLoseContexts(github: seq<string>)
    requires github == ["github"]
    ensures Visits(CYCLIC, Text(ROOT), "", [], []).Ok?
    ensures Follow(CYCLIC, Text(ROOT), "", [], [0, 0, 1]) == Some(Visit("leaf", "k", github))
    ensures var table := RecordContexts(map[], Visits(CYCLIC, Text(ROOT), "", [], []).value);
      "k" in table ==> github !in table["k"]
  {
    CyclicRoute(github);
    CyclicVisits(github);
    RecordsExact(CYCLIC, Visits(CYCLIC, Text(ROOT), "", [], []).value, "", "k", github);
  }
}
