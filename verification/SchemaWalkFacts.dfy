/** What the dictionaries of `walk_schema` mean: the exact set of recorded visits, the definitions that
    are found although the walk stops at repeated names. */
module SchemaWalkFacts {
  import opened Common
  import opened SchemaGraph
  import opened Walks
  import opened SchemaWalk

  // An independent account of a visit: follow child numbers, with no stack

  function Follow(defs: Schema, spec: Spec, path: string, inherited: seq<string>, turns: seq<nat>): Option<Visit>
    decreases |turns|
  {
    match NamedSpec(spec)
    case None => None
    case Some(name) =>
      if !IsDefinition(defs, name) then None
      else
        var context := Effective(defs[name], inherited);
        if turns == [] then Some(Visit(name, path, context))
        else
          var children := Children(defs[name], path);
          if turns[0] >= |children| then None
          else Follow(defs, children[turns[0]].spec, children[turns[0]].path, context, turns[1..])
  }

  /** The names a route leaves behind, its last name excluded. */
  function Passed(defs: Schema, spec: Spec, path: string, turns: seq<nat>): seq<string>
    decreases |turns|
  {
    if turns == [] || NamedSpec(spec).None? || !IsDefinition(defs, NamedSpec(spec).value) then []
    else
      var name := NamedSpec(spec).value;
      var children := Children(defs[name], path);
      if turns[0] >= |children| then []
      else [name] + Passed(defs, children[turns[0]].spec, children[turns[0]].path, turns[1..])
  }

  /** A route to a visit that leaves no name behind twice, and none that is on the stack. */
  ghost predicate SimpleRoute(defs: Schema, spec: Spec, path: string, inherited: seq<string>, stack: seq<string>,
                              turns: seq<nat>, visit: Visit)
  {
    var passed := Passed(defs, spec, path, turns);
    && Follow(defs, spec, path, inherited, turns) == Some(visit)
    && Distinct(passed)
    && forall name | name in passed :: name !in stack
  }

  lemma DistinctTail(first: string, rest: seq<string>)
    requires Distinct([first] + rest)
    ensures Distinct(rest) && first !in rest
  {
    var all := [first] + rest;
    assert forall i | 0 <= i < |rest| :: rest[i] == all[i + 1];
    assert all[0] == first;
  }

  /** A simple route goes on as a simple route from the child it takes. */
  lemma RouteGoesOn(defs: Schema, spec: Spec, path: string, inherited: seq<string>, stack: seq<string>,
                    turns: seq<nat>, visit: Visit) returns (name: string, child: Child)
    requires turns != [] && SimpleRoute(defs, spec, path, inherited, stack, turns, visit)
    ensures NamedSpec(spec) == Some(name) && IsDefinition(defs, name) && name !in stack
    ensures turns[0] < |Children(defs[name], path)| && child == Children(defs[name], path)[turns[0]]
    ensures SimpleRoute(defs, child.spec, child.path, Effective(defs[name], inherited), stack + [name], turns[1..],
      visit)
  {
    name := NamedSpec(spec).value;
    child := Children(defs[name], path)[turns[0]];
    var rest := Passed(defs, child.spec, child.path, turns[1..]);
    assert Passed(defs, spec, path, turns) == [name] + rest;
    DistinctTail(name, rest);
    assert name in [name] + rest;
    forall other | other in rest
      ensures other !in stack + [name]
    {
      assert other in [name] + rest;
    }
  }

  lemma {:induction false} RouteIsVisited(defs: Schema, spec: Spec, path: string, inherited: seq<string>,
                                          stack: seq<string>,
                                          turns: seq<nat>, visit: Visit)
    requires Visits(defs, spec, path, inherited, stack).Ok?
    requires SimpleRoute(defs, spec, path, inherited, stack, turns, visit)
    ensures visit in Visits(defs, spec, path, inherited, stack).value
    decreases |turns|
  {
    if turns == [] {
    } else {
      var name, child := RouteGoesOn(defs, spec, path, inherited, stack, turns, visit);
      var children, context := Children(defs[name], path), Effective(defs[name], inherited);
      VisitAllExact(defs, children, context, stack + [name]);
      assert child in children;
      RouteIsVisited(defs, child.spec, child.path, context, stack + [name], turns[1..], visit);
    }
  }

  /** A visit is the one at the top, or lies below some child. */
  lemma VisitIsHereOrBelow(defs: Schema, spec: Spec, path: string, inherited: seq<string>, stack: seq<string>,
                           visit: Visit)
    returns (turn: nat)
    requires Visits(defs, spec, path, inherited, stack).Ok?
    requires visit in Visits(defs, spec, path, inherited, stack).value
    ensures NamedSpec(spec).Some? && IsDefinition(defs, NamedSpec(spec).value)
    ensures var name := NamedSpec(spec).value;
      var children, context := Children(defs[name], path), Effective(defs[name], inherited);
      || visit == Visit(name, path, context)
      || (name !in stack && turn < |children| &&
          var r := Visits(defs, children[turn].spec, children[turn].path, context, stack + [name]);
          r.Ok? && visit in r.value)
  {
    turn := 0;
    var name := NamedSpec(spec).value;
    var children, context := Children(defs[name], path), Effective(defs[name], inherited);
    if visit != Visit(name, path, context) {
      VisitAllExact(defs, children, context, stack + [name]);
      assert visit in VisitAll(defs, children, context, stack + [name]).value;
      var child :| child in children && visit in Visits(defs, child.spec, child.path, context, stack + [name]).value;
      turn :| turn < |children| && children[turn] == child;
    }
  }

  lemma {:induction false} VisitHasRoute(defs: Schema, spec: Spec, path: string, inherited: seq<string>,
                                         stack: seq<string>,
                                         visit: Visit) returns (turns: seq<nat>)
    requires Visits(defs, spec, path, inherited, stack).Ok?
    requires visit in Visits(defs, spec, path, inherited, stack).value
    ensures SimpleRoute(defs, spec, path, inherited, stack, turns, visit)
    decreases defs.Keys - Members(stack)
  {
    var turn := VisitIsHereOrBelow(defs, spec, path, inherited, stack, visit);
    var name := NamedSpec(spec).value;
    var children, context := Children(defs[name], path), Effective(defs[name], inherited);
    if visit == Visit(name, path, context) {
      turns := [];
    } else {
      assert name in defs.Keys - Members(stack) && name !in defs.Keys - Members(stack + [name]);
      var rest := VisitHasRoute(defs, children[turn].spec, children[turn].path, context, stack + [name], visit);
      turns := [turn] + rest;
      RouteFromAbove(defs, spec, path, inherited, stack, turn, rest, visit);
    }
  }

  /** A simple route from a child is one from its parent, if the parent is off the stack. */
  lemma RouteFromAbove(defs: Schema, spec: Spec, path: string, inherited: seq<string>, stack: seq<string>,
                       turn: nat, rest: seq<nat>, visit: Visit)
    requires NamedSpec(spec).Some? && IsDefinition(defs, NamedSpec(spec).value) && NamedSpec(spec).value !in stack
    requires var node := defs[NamedSpec(spec).value];
      && turn < |Children(node, path)|
      && SimpleRoute(defs, Children(node, path)[turn].spec, Children(node, path)[turn].path, Effective(node, inherited),
                     stack + [NamedSpec(spec).value], rest, visit)
    ensures SimpleRoute(defs, spec, path, inherited, stack, [turn] + rest, visit)
  {
    var name := NamedSpec(spec).value;
    var child := Children(defs[name], path)[turn];
    var passed := Passed(defs, child.spec, child.path, rest);
    assert ([turn] + rest)[1..] == rest;
    assert Passed(defs, spec, path, [turn] + rest) == [name] + passed;
    assert forall i | 0 <= i < |passed| :: passed[i] in passed;
  }

  // Names: stopping loses no definition

  /** The names a definition's children point at. */
  function Below(defs: Schema, name: string): set<string> {
    if IsDefinition(defs, name) then
      set child | child in Children(defs[name], "") && NamedSpec(child.spec).Some? :: NamedSpec(child.spec).value
    else {}
  }

  function Next(defs: Schema): Successors<string> {
    name => Below(defs, name)
  }

  predicate Faulty(defs: Schema, name: string) {
    && name !in PRIMITIVE_KINDS
    && (|| name !in defs
        || !ContextIsSound(defs[name])
        || !FieldsAreSound(defs[name])
        || exists child | child in Children(defs[name], "") :: NamedSpec(child.spec).None?)
  }

  /** The children point at the same specifications whatever the path. */
  lemma ChildrenAnywhere(node: Definition, path: string, other: string)
    ensures |Children(node, path)| == |Children(node, other)|
    ensures forall i | 0 <= i < |Children(node, path)| :: Children(node, path)[i].spec == Children(node, other)[i].spec
  {
    var one, props, loose := OneOfPart(node, path), PropertiesPart(node, path), LoosePart(node, path);
    assert |OneOfPart(node, other)| == |one| && |PropertiesPart(node, other)| == |props| &&
      |LoosePart(node, other)| == |loose|;
  }

  lemma ChildToward(defs: Schema, name: string, path: string, below: string) returns (child: Child)
    requires below in Below(defs, name)
    ensures child in Children(defs[name], path) && NamedSpec(child.spec) == Some(below)
  {
    ChildrenAnywhere(defs[name], "", path);
    var near :| near in Children(defs[name], "") && NamedSpec(near.spec) == Some(below);
    var i :| 0 <= i < |Children(defs[name], "")| && Children(defs[name], "")[i] == near;
    child := Children(defs[name], path)[i];
  }

  lemma ChildLeadsBelow(defs: Schema, name: string, path: string, child: Child)
    requires IsDefinition(defs, name) && child in Children(defs[name], path)
    ensures NamedSpec(child.spec).Some? ==> NamedSpec(child.spec).value in Below(defs, name)
    ensures NamedSpec(child.spec).None? ==> Faulty(defs, name)
  {
    ChildrenAnywhere(defs[name], path, "");
    var i :| 0 <= i < |Children(defs[name], path)| && Children(defs[name], path)[i] == child;
    assert Children(defs[name], "")[i] in Children(defs[name], "");
  }

  lemma NamesSuffice(defs: Schema, spec: Spec, path: string, inherited: seq<string>, stack: seq<string>)
    requires NamedSpec(spec).Some?
    ensures Visits(defs, spec, path, inherited, stack) ==
      Visits(defs, Text(NamedSpec(spec).value), path, inherited, stack)
  {
  }

  lemma EndIsCovered(defs: Schema, name: string, path: string, inherited: seq<string>, stack: seq<string>)
    requires name !in stack
    ensures var r := Visits(defs, Text(name), path, inherited, stack);
      r.Ok? ==>
        !Faulty(defs, name) && (IsDefinition(defs, name) ==> exists visit | visit in r.value :: visit.name == name)
  {
    var r := Visits(defs, Text(name), path, inherited, stack);
    if IsDefinition(defs, name) && r.Ok? {
      var context := Effective(defs[name], inherited);
      assert r.value[0] == Visit(name, path, context);
      VisitAllExact(defs, Children(defs[name], path), context, stack + [name]);
      forall child | child in Children(defs[name], "")
        ensures NamedSpec(child.spec).Some?
      {
        ChildrenAnywhere(defs[name], "", path);
        var i :| 0 <= i < |Children(defs[name], "")| && Children(defs[name], "")[i] == child;
        assert Children(defs[name], path)[i] in Children(defs[name], path);
      }
    }
  }

  /** The end of every walk that avoids the stack is visited, and a faulty end is reported. */
  lemma {:induction false} WalkIsCovered(defs: Schema, p: seq<string>, path: string, inherited: seq<string>,
                                         stack: seq<string>)
    requires IsWalk(Next(defs), p)
    requires forall v | v in p :: v !in stack
    ensures var r := Visits(defs, Text(p[0]), path, inherited, stack);
      r.Ok? ==>
        && !Faulty(defs, p[|p| - 1])
        && (IsDefinition(defs, p[|p| - 1]) ==> exists visit | visit in r.value :: visit.name == p[|p| - 1])
    decreases |p|
  {
    var name := p[0];
    if |p| == 1 {
      EndIsCovered(defs, name, path, inherited, stack);
    } else if name in p[1..] {
      var j :| 1 <= j < |p| && p[j] == name;
      WalkSuffix(Next(defs), p, j);
      WalkIsCovered(defs, p[j..], path, inherited, stack);
    } else {
      assert p[1] in Next(defs)(name);
      var context := Effective(defs[name], inherited);
      var child := ChildToward(defs, name, path, p[1]);
      WalkSuffix(Next(defs), p, 1);
      WalkIsCovered(defs, p[1..], child.path, context, stack + [name]);
      NamesSuffice(defs, child.spec, child.path, context, stack + [name]);
      VisitAllExact(defs, Children(defs[name], path), context, stack + [name]);
    }
  }

  /** Only reachable definitions are visited, and a failure has a reachable cause. */
  lemma {:induction false} VisitsAreReachable(defs: Schema, name: string, path: string, inherited: seq<string>,
                                              stack: seq<string>)
    ensures var r := Visits(defs, Text(name), path, inherited, stack);
      if r.Ok? then
        forall visit | visit in r.value :: IsDefinition(defs, visit.name) && Reaches(Next(defs), name, visit.name)
      else exists v :: Reaches(Next(defs), name, v) && Faulty(defs, v)
    decreases defs.Keys - Members(stack)
  {
    var next := Next(defs);
    ReachesSelf(next, name);
    if IsDefinition(defs, name) && ContextIsSound(defs[name]) && FieldsAreSound(defs[name]) && name !in stack {
      var children, context := Children(defs[name], path), Effective(defs[name], inherited);
      assert name in defs.Keys - Members(stack) && name !in defs.Keys - Members(stack + [name]);
      VisitAllExact(defs, children, context, stack + [name]);
      forall child | child in children
        ensures var r := Visits(defs, child.spec, child.path, context, stack + [name]);
          if r.Ok? then
            forall visit | visit in r.value :: IsDefinition(defs, visit.name) && Reaches(next, name, visit.name)
          else exists v :: Reaches(next, name, v) && Faulty(defs, v)
      {
        ChildLeadsBelow(defs, name, path, child);
        if NamedSpec(child.spec).Some? {
          var below := NamedSpec(child.spec).value;
          NamesSuffice(defs, child.spec, child.path, context, stack + [name]);
          VisitsAreReachable(defs, below, child.path, context, stack + [name]);
          forall v | Reaches(next, below, v)
            ensures Reaches(next, name, v)
          {
            ReachesStep(next, name, below, v);
          }
        }
      }
    }
  }

  // Main results

  /** The walk succeeds exactly when no name reachable from the root is faulty. */
  lemma AcceptsExactlyTheSound(defs: Schema)
    ensures Visits(defs, Text(ROOT), "", [], []).Ok? <==> forall v | Reaches(Next(defs), ROOT, v) :: !Faulty(defs, v)
  {
    VisitsAreReachable(defs, ROOT, "", [], []);
    forall v | Reaches(Next(defs), ROOT, v)
      ensures Visits(defs, Text(ROOT), "", [], []).Ok? ==> !Faulty(defs, v)
    {
      var p :| WalkBetween(Next(defs), ROOT, v, p);
      WalkIsCovered(defs, p, "", [], []);
    }
  }

  /** The first dictionary lists exactly the reachable definitions that carry a context. */
  lemma ContextBearersAreExactlyTheReachableOnes(defs: Schema, name: string)
    requires Visits(defs, Text(ROOT), "", [], []).Ok?
    ensures name in RecordPaths(defs, map[], Visits(defs, Text(ROOT), "", [], []).value)
      <==> Reaches(Next(defs), ROOT, name) && IsDefinition(defs, name) && defs[name].context.Some?
  {
    var visits := Visits(defs, Text(ROOT), "", [], []).value;
    var table := RecordPaths(defs, map[], visits);
    VisitsAreReachable(defs, ROOT, "", [], []);
    if name in table {
      RecordsExact(defs, visits, name, "", []);
      var place :| place in table[name];
      RecordsExact(defs, visits, name, place, []);
    }
    if Reaches(Next(defs), ROOT, name) && IsDefinition(defs, name) && defs[name].context.Some? {
      var p :| WalkBetween(Next(defs), ROOT, name, p);
      WalkIsCovered(defs, p, "", [], []);
      var visit :| visit in visits && visit.name == name;
      RecordsExact(defs, visits, name, Label(visit.path), []);
    }
  }

  ghost predicate RouteFromRoot(defs: Schema, turns: seq<nat>, visit: Visit) {
    SimpleRoute(defs, Text(ROOT), "", [], [], turns, visit)
  }

  /** Both dictionaries, entry by entry: what the routes from the root that repeat no name on the way lead to. */
  lemma DictionariesAreExactlyTheSimpleRoutes(defs: Schema, name: string, place: string, context: seq<string>)
    requires Visits(defs, Text(ROOT), "", [], []).Ok?
    ensures var table := RecordPaths(defs, map[], Visits(defs, Text(ROOT), "", [], []).value);
      name in table && place in table[name]
      <==> name in defs && defs[name].context.Some? &&
           exists turns, visit :: RouteFromRoot(defs, turns, visit) && visit.name == name && Label(visit.path) == place
    ensures var table := RecordContexts(map[], Visits(defs, Text(ROOT), "", [], []).value);
      place in table && context in table[place]
      <==> exists turns, visit ::
        RouteFromRoot(defs, turns, visit) && Label(visit.path) == place && visit.context == context
  {
    var visits := Visits(defs, Text(ROOT), "", [], []).value;
    RecordsExact(defs, visits, name, place, context);
    forall visit | visit in visits
      ensures exists turns :: RouteFromRoot(defs, turns, visit)
    {
      var turns := VisitHasRoute(defs, Text(ROOT), "", [], [], visit);
      assert RouteFromRoot(defs, turns, visit);
    }
    forall turns, visit | RouteFromRoot(defs, turns, visit)
      ensures visit in visits
    {
      RouteIsVisited(defs, Text(ROOT), "", [], [], turns, visit);
    }
  }
}
