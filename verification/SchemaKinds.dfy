/** `schema_kinds`: the primitive kinds a specification accepts, found by a recursive walk over
    one-of alternatives that stops at a name already on its path. */
module SchemaKinds {
  import opened Common
  import opened SchemaGraph
  import opened Walks

  type Kinds = Result<set<string>, AuditError>

  function SchemaKinds(defs: Schema, spec: Spec, stack: seq<string>): Kinds
    decreases defs.Keys - Members(stack), 0, 0
  {
    match NamedSpec(spec)
    case None => Err(MalformedSpec)
    case Some(name) =>
      if name in PRIMITIVE_KINDS then Ok({name})
      else if name !in defs then Err(UnknownDefinition(name))
      else if name in stack then Ok({"recursive"})
      else
        var own := OwnKinds(defs[name]);
        match defs[name].oneOf
        case None =>
          if own == {} then Err(NoRecognizedType(name)) else Ok(own)
        case Some(NotAList) => Err(MalformedField(name))
        case Some(Alternatives(specs)) =>
          assert name in defs.Keys - Members(stack) && name !in defs.Keys - Members(stack + [name]);
          match KindsOfAll(defs, specs, stack + [name])
          case Err(error) => Err(error)
          case Ok(nested) =>
            if own + nested == {} then Err(NoRecognizedType(name)) else Ok(own + nested)
  }

  /** The union over the alternatives, failing at the first that fails. */
  function KindsOfAll(defs: Schema, specs: seq<Spec>, stack: seq<string>): Kinds
    decreases defs.Keys - Members(stack), 1, |specs|
  {
    if specs == [] then Ok({})
    else
      match SchemaKinds(defs, specs[0], stack)
      case Err(error) => Err(error)
      case Ok(first) =>
        match KindsOfAll(defs, specs[1..], stack)
        case Err(error) => Err(error)
        case Ok(rest) => Ok(first + rest)
  }

  // The graph the result is about

  /** The names a definition's well-formed alternatives point at. */
  function Alternative(defs: Schema, name: string): set<string> {
    if IsDefinition(defs, name) && defs[name].oneOf.Some? && defs[name].oneOf.value.Alternatives? then
      set spec | spec in defs[name].oneOf.value.specs && NamedSpec(spec).Some? :: NamedSpec(spec).value
    else {}
  }

  function Next(defs: Schema): Successors<string> {
    name => Alternative(defs, name)
  }

  /** What one name contributes on its own. */
  function Contribution(defs: Schema, name: string): set<string> {
    if name in PRIMITIVE_KINDS then {name}
    else if name in defs then OwnKinds(defs[name])
    else {}
  }

  /** A name the audit rejects: unknown, with a malformed alternative, or with no recognized type. */
  predicate Faulty(defs: Schema, name: string) {
    name !in PRIMITIVE_KINDS &&
    (name !in defs ||
     match defs[name].oneOf
     case None => OwnKinds(defs[name]) == {}
     case Some(NotAList) => true
     case Some(Alternatives(specs)) =>
       || (exists spec | spec in specs :: NamedSpec(spec).None?)
       || (specs == [] && OwnKinds(defs[name]) == {}))
  }

  // The union over alternatives, member by member

  lemma {:induction false} UnionExact(defs: Schema, specs: seq<Spec>, stack: seq<string>)
    ensures KindsOfAll(defs, specs, stack).Ok? <==> forall spec | spec in specs :: SchemaKinds(defs, spec, stack).Ok?
    ensures KindsOfAll(defs, specs, stack).Ok? ==> forall kind ::
      kind in KindsOfAll(defs, specs, stack).value
      <==> exists spec | spec in specs :: kind in SchemaKinds(defs, spec, stack).value
  {
    if specs == [] {
    } else {
      UnionExact(defs, specs[1..], stack);
      assert specs[0] in specs;
      assert forall spec :: spec in specs <==> spec == specs[0] || spec in specs[1..];
    }
  }

  lemma NamesSuffice(defs: Schema, spec: Spec, stack: seq<string>)
    requires NamedSpec(spec).Some?
    ensures SchemaKinds(defs, spec, stack) == SchemaKinds(defs, Text(NamedSpec(spec).value), stack)
  {
  }

  /** A successful answer is never empty. */
  lemma NeverEmpty(defs: Schema, spec: Spec, stack: seq<string>)
    requires SchemaKinds(defs, spec, stack).Ok?
    ensures SchemaKinds(defs, spec, stack).value != {}
  {
  }

  // Completeness: stopping at a name on the path loses nothing

  /** Whatever the end of a walk that avoids the stack contributes is found, and a faulty end is
      reported. A walk that revisits its first name is shortened past the revisit. */
  lemma {:induction false} WalkIsCovered(defs: Schema, p: seq<string>, stack: seq<string>)
    requires IsWalk(Next(defs), p)
    requires forall v | v in p :: v !in stack
    ensures var r := SchemaKinds(defs, Text(p[0]), stack);
      r.Ok? ==> !Faulty(defs, p[|p| - 1]) && Contribution(defs, p[|p| - 1]) <= r.value
    decreases |p|
  {
    var name := p[0];
    if |p| == 1 {
      EndIsCovered(defs, name, stack);
    } else if name in p[1..] {
      var j :| 1 <= j < |p| && p[j] == name;
      WalkSuffix(Next(defs), p, j);
      WalkIsCovered(defs, p[j..], stack);
    } else {
      assert p[1] in Next(defs)(name);
      WalkSuffix(Next(defs), p, 1);
      WalkIsCovered(defs, p[1..], stack + [name]);
      var spec :| spec in defs[name].oneOf.value.specs && NamedSpec(spec) == Some(p[1]);
      NamesSuffice(defs, spec, stack + [name]);
      UnionExact(defs, defs[name].oneOf.value.specs, stack + [name]);
    }
  }

  lemma EndIsCovered(defs: Schema, name: string, stack: seq<string>)
    requires name !in stack
    ensures var r := SchemaKinds(defs, Text(name), stack);
      r.Ok? ==> !Faulty(defs, name) && Contribution(defs, name) <= r.value
  {
    if IsDefinition(defs, name) && defs[name].oneOf.Some? && defs[name].oneOf.value.Alternatives? {
      UnionExact(defs, defs[name].oneOf.value.specs, stack + [name]);
    }
  }

  /** A walk over definitions that is longer than the definitions left off the stack runs into the stack. */
  lemma {:induction false} LongWalkIsRecursive(defs: Schema, p: seq<string>, stack: seq<string>)
    requires IsWalk(Next(defs), p)
    requires forall v | v in p :: IsDefinition(defs, v)
    requires |p| > |defs.Keys - Members(stack)|
    ensures var r := SchemaKinds(defs, Text(p[0]), stack); r.Ok? ==> "recursive" in r.value
    decreases |p|
  {
    var name := p[0];
    assert IsDefinition(defs, name);
    var left, deeper := defs.Keys - Members(stack), defs.Keys - Members(stack + [name]);
    if name !in stack {
      assert deeper == left - {name} && name in left;
      assert |p| > 1;
      assert p[1] in Next(defs)(name);
      WalkSuffix(Next(defs), p, 1);
      LongWalkIsRecursive(defs, p[1..], stack + [name]);
      var specs := defs[name].oneOf.value.specs;
      var spec :| spec in specs && NamedSpec(spec) == Some(p[1]);
      NamesSuffice(defs, spec, stack + [name]);
      UnionExact(defs, specs, stack + [name]);
      if SchemaKinds(defs, Text(name), stack).Ok? {
        assert "recursive" in KindsOfAll(defs, specs, stack + [name]).value;
      }
    }
  }

  // Soundness: everything found is there

  ghost predicate Justified(defs: Schema, root: string, name: string, kind: string) {
    if kind == "recursive" then exists v :: Reaches(Next(defs), root, v) && OnCycle(Next(defs), v)
    else exists v :: Reaches(Next(defs), name, v) && kind in Contribution(defs, v)
  }

  /** `stack + [name]` is the walk taken from the root so far. */
  lemma {:induction false} AnswerIsJustified(defs: Schema, name: string, stack: seq<string>)
    requires IsWalk(Next(defs), stack + [name])
    ensures var r := SchemaKinds(defs, Text(name), stack);
      if r.Ok? then forall kind | kind in r.value :: Justified(defs, (stack + [name])[0], name, kind)
      else exists v :: Reaches(Next(defs), name, v) && Faulty(defs, v)
    decreases defs.Keys - Members(stack)
  {
    var next, path := Next(defs), stack + [name];
    ReachesSelf(next, name);
    if IsDefinition(defs, name) && name in stack {
      var i :| 0 <= i < |stack| && stack[i] == name;
      assert WalkBetween(next, path[0], name, path);
      WalkSuffix(next, path, i);
      assert WalkBetween(next, name, name, path[i..]);
      assert Reaches(next, path[0], name) && OnCycle(next, name);
    } else if IsDefinition(defs, name) && defs[name].oneOf.Some? && defs[name].oneOf.value.Alternatives? {
      var specs := defs[name].oneOf.value.specs;
      UnionExact(defs, specs, path);
      assert name in defs.Keys - Members(stack) && name !in defs.Keys - Members(path);
      forall spec | spec in specs && NamedSpec(spec).Some?
        ensures AlternativeIsJustified(defs, name, stack, spec)
      {
        var below := NamedSpec(spec).value;
        assert below in next(name);
        assert IsWalk(next, path + [below]) by {
          assert forall i | 0 <= i < |path| :: (path + [below])[i] == path[i];
        }
        NamesSuffice(defs, spec, path);
        AnswerIsJustified(defs, below, path);
        LiftAnswer(defs, path[0], name, below, SchemaKinds(defs, spec, path));
      }
      if specs != [] && SchemaKinds(defs, specs[0], path).Ok? {
        NeverEmpty(defs, specs[0], path);
        assert specs[0] in specs;
      }
    }
  }

  ghost predicate AlternativeIsJustified(defs: Schema, name: string, stack: seq<string>, spec: Spec) {
    var path := stack + [name];
    var r := SchemaKinds(defs, spec, path);
    if r.Ok? then forall kind | kind in r.value :: Justified(defs, path[0], name, kind)
    else exists v :: Reaches(Next(defs), name, v) && Faulty(defs, v)
  }

  /** What holds from an alternative holds from the definition above it. */
  lemma LiftAnswer(defs: Schema, root: string, name: string, below: string, r: Kinds)
    requires below in Next(defs)(name)
    requires if r.Ok? then forall kind | kind in r.value :: Justified(defs, root, below, kind)
      else exists v :: Reaches(Next(defs), below, v) && Faulty(defs, v)
    ensures if r.Ok? then forall kind | kind in r.value :: Justified(defs, root, name, kind)
      else exists v :: Reaches(Next(defs), name, v) && Faulty(defs, v)
  {
    forall v | Reaches(Next(defs), below, v)
      ensures Reaches(Next(defs), name, v)
    {
      ReachesStep(Next(defs), name, below, v);
    }
    if r.Ok? {
      forall kind | kind in r.value
        ensures Justified(defs, root, name, kind)
      {
        assert Justified(defs, root, below, kind);
      }
    }
  }

  // Main results

  /** The audit accepts a specification exactly when no name reachable over one-of edges is faulty. */
  lemma AcceptsExactlyTheSound(defs: Schema, spec: Spec)
    requires NamedSpec(spec).Some?
    ensures SchemaKinds(defs, spec, []).Ok?
      <==> forall v | Reaches(Next(defs), NamedSpec(spec).value, v) :: !Faulty(defs, v)
  {
    var name := NamedSpec(spec).value;
    NamesSuffice(defs, spec, []);
    AnswerIsJustified(defs, name, []);
    forall v | Reaches(Next(defs), name, v)
      ensures SchemaKinds(defs, spec, []).Ok? ==> !Faulty(defs, v)
    {
      var p :| WalkBetween(Next(defs), name, v, p);
      WalkIsCovered(defs, p, []);
    }
  }

  /** The kinds found are exactly those reachable over one-of edges. */
  lemma KindsAreTheReachableOnes(defs: Schema, spec: Spec, kind: string)
    requires SchemaKinds(defs, spec, []).Ok? && kind != "recursive"
    ensures kind in SchemaKinds(defs, spec, []).value
      <==> exists v :: Reaches(Next(defs), NamedSpec(spec).value, v) && kind in Contribution(defs, v)
  {
    var name := NamedSpec(spec).value;
    NamesSuffice(defs, spec, []);
    AnswerIsJustified(defs, name, []);
    if kind in SchemaKinds(defs, spec, []).value {
      assert Justified(defs, name, name, kind);
    }
    forall v | Reaches(Next(defs), name, v) && kind in Contribution(defs, v)
      ensures kind in SchemaKinds(defs, spec, []).value
    {
      var p :| WalkBetween(Next(defs), name, v, p);
      WalkIsCovered(defs, p, []);
    }
  }

  /** `recursive` is reported exactly when a one-of cycle is reachable. */
  lemma RecursiveExactlyOnCycles(defs: Schema, spec: Spec)
    requires SchemaKinds(defs, spec, []).Ok?
    ensures "recursive" in SchemaKinds(defs, spec, []).value
      <==> exists v :: Reaches(Next(defs), NamedSpec(spec).value, v) && OnCycle(Next(defs), v)
  {
    var name, next := NamedSpec(spec).value, Next(defs);
    NamesSuffice(defs, spec, []);
    AnswerIsJustified(defs, name, []);
    if "recursive" in SchemaKinds(defs, spec, []).value {
      assert Justified(defs, name, name, "recursive");
    }
    forall v | Reaches(next, name, v) && OnCycle(next, v)
      ensures "recursive" in SchemaKinds(defs, spec, []).value
    {
      var walk := ReachedCyclePumps(next, name, v, |defs.Keys|);
      forall u | u in walk
        ensures IsDefinition(defs, u)
      {
        var i :| 0 <= i < |walk| && walk[i] == u;
        assert next(walk[i]) != {};
      }
      assert defs.Keys - Members([]) == defs.Keys;
      LongWalkIsRecursive(defs, walk, []);
    }
  }
}
