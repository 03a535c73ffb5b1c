/** `walk_schema`: a recursive walk from `workflow-root` that records, in two dictionaries, where each
    definition with its own context sits and which contexts are in force at each path. The walk records
    a name it meets again on its own path, and goes no further below it. */
module SchemaWalk {
  import opened Common
  import opened SchemaGraph

  datatype Visit = Visit(name: string, path: string, context: seq<string>)
  datatype Child = Child(spec: Spec, path: string)

  type Trace = Result<seq<Visit>, AuditError>

  const ROOT := "workflow-root"

  // One definition's fields

  function Label(path: string): string {
    if path == "" then "<root>" else path
  }

  function Join(path: string, key: string): string {
    if path == "" then key else path + "." + key
  }

  predicate ContextIsSound(node: Definition) {
    node.context.Some? ==> node.context.value.Contexts?
  }

  predicate OneOfIsSound(node: Definition) {
    node.oneOf.Some? ==> node.oneOf.value.Alternatives? && node.oneOf.value.specs != []
  }

  predicate MappingIsSound(node: Definition) {
    node.mapping.Some? ==> node.mapping.value.Mapping? && node.mapping.value.properties.Properties?
  }

  predicate SequenceIsSound(node: Definition) {
    node.sequence.Some? ==> node.sequence.value.SequenceOf?
  }

  predicate FieldsAreSound(node: Definition) {
    OneOfIsSound(node) && MappingIsSound(node) && SequenceIsSound(node)
  }

  /** The context in force at a node: its own, or the inherited one. */
  function Effective(node: Definition, inherited: seq<string>): seq<string> {
    if node.context.Some? && node.context.value.Contexts? then node.context.value.values else inherited
  }

  function AlternativeChildren(specs: seq<Spec>, path: string): (children: seq<Child>)
    ensures |children| == |specs|
  {
    seq(|specs|, i requires 0 <= i < |specs| => Child(specs[i], path))
  }

  function PropertyChildren(entries: seq<Property>, path: string): (children: seq<Child>)
    ensures |children| == |entries|
  {
    seq(|entries|, i requires 0 <= i < |entries| => Child(entries[i].spec, Join(path, entries[i].key)))
  }

  function OneOfPart(node: Definition, path: string): seq<Child> {
    if node.oneOf.Some? && node.oneOf.value.Alternatives? then AlternativeChildren(node.oneOf.value.specs, path) else []
  }

  function PropertiesPart(node: Definition, path: string): seq<Child> {
    if node.mapping.Some? && node.mapping.value.Mapping? && node.mapping.value.properties.Properties? then
      PropertyChildren(node.mapping.value.properties.entries, path)
    else []
  }

  function LoosePart(node: Definition, path: string): seq<Child> {
    if node.mapping.Some? && node.mapping.value.Mapping? && node.mapping.value.loose.Some? then
      [Child(node.mapping.value.loose.value, Join(path, "<*>"))]
    else []
  }

  function MappingPart(node: Definition, path: string): seq<Child> {
    PropertiesPart(node, path) + LoosePart(node, path)
  }

  function SequencePart(node: Definition, path: string): seq<Child> {
    if node.sequence.Some? && node.sequence.value.SequenceOf? then
      [Child(node.sequence.value.item, path + "[*]")]
    else []
  }

  /** The children of a definition, in the order the walk takes them. */
  function Children(node: Definition, path: string): seq<Child> {
    OneOfPart(node, path) + PropertiesPart(node, path) + LoosePart(node, path) + SequencePart(node, path)
  }

  // The sequence of visits the recursive walk makes

  function Visits(defs: Schema, spec: Spec, path: string, inherited: seq<string>, stack: seq<string>): Trace
    decreases defs.Keys - Members(stack), 0, 0
  {
    match NamedSpec(spec)
    case None => Err(MalformedSpec)
    case Some(name) =>
      if name in PRIMITIVE_KINDS then Ok([])
      else if name !in defs then Err(UnknownDefinition(name))
      else
        var node := defs[name];
        var context := Effective(node, inherited);
        if !ContextIsSound(node) then Err(MalformedField(name))
        else if name in stack then Ok([Visit(name, path, context)])
        else if !FieldsAreSound(node) then Err(MalformedField(name))
        else
          assert name in defs.Keys - Members(stack) && name !in defs.Keys - Members(stack + [name]);
          match VisitAll(defs, Children(node, path), context, stack + [name])
          case Err(error) => Err(error)
          case Ok(below) => Ok([Visit(name, path, context)] + below)
  }

  function VisitAll(defs: Schema, children: seq<Child>, context: seq<string>, stack: seq<string>): Trace
    decreases defs.Keys - Members(stack), 1, |children|
  {
    if children == [] then Ok([])
    else
      match Visits(defs, children[0].spec, children[0].path, context, stack)
      case Err(error) => Err(error)
      case Ok(first) =>
        match VisitAll(defs, children[1..], context, stack)
        case Err(error) => Err(error)
        case Ok(rest) => Ok(first + rest)
  }

  lemma {:induction false} VisitAllAppends(defs: Schema, a: seq<Child>, b: seq<Child>, context: seq<string>,
                                           stack: seq<string>)
    ensures var both, first, second :=
        VisitAll(defs, a + b, context, stack), VisitAll(defs, a, context, stack), VisitAll(defs, b, context, stack);
      && (both.Ok? <==> first.Ok? && second.Ok?)
      && (both.Ok? ==> both.value == first.value + second.value)
  {
    if a == [] {
      assert a + b == b;
    } else {
      assert (a + b)[0] == a[0] && (a + b)[1..] == a[1..] + b;
      VisitAllAppends(defs, a[1..], b, context, stack);
    }
  }

  lemma {:induction false} VisitAllExact(defs: Schema, children: seq<Child>, context: seq<string>, stack: seq<string>)
    ensures VisitAll(defs, children, context, stack).Ok?
      <==> forall c | c in children :: Visits(defs, c.spec, c.path, context, stack).Ok?
    ensures VisitAll(defs, children, context, stack).Ok? ==> forall visit ::
      visit in VisitAll(defs, children, context, stack).value
      <==> exists c | c in children :: visit in Visits(defs, c.spec, c.path, context, stack).value
  {
    if children == [] {
    } else {
      VisitAllExact(defs, children[1..], context, stack);
      assert children[0] in children;
      assert forall c :: c in children <==> c == children[0] || c in children[1..];
    }
  }

  // What a sequence of visits leaves in the dictionaries

  function Extend<K, V>(table: map<K, set<V>>, key: K, value: V): map<K, set<V>> {
    table[key := (if key in table then table[key] else {}) + {value}]
  }

  function RecordPaths(defs: Schema, table: map<string, set<string>>, visits: seq<Visit>): map<string, set<string>> {
    if visits == [] then table
    else
      var before, visit := RecordPaths(defs, table, visits[..|visits| - 1]), visits[|visits| - 1];
      if visit.name in defs && defs[visit.name].context.Some? then Extend(before, visit.name, Label(visit.path))
      else before
  }

  function RecordContexts(table: map<string, set<seq<string>>>, visits: seq<Visit>): map<string, set<seq<string>>> {
    if visits == [] then table
    else
      var before, visit := RecordContexts(table, visits[..|visits| - 1]), visits[|visits| - 1];
      Extend(before, Label(visit.path), visit.context)
  }

  lemma {:induction false} RecordsAppend(defs: Schema, paths: map<string, set<string>>,
                                         contexts: map<string, set<seq<string>>>, a: seq<Visit>, b: seq<Visit>)
    ensures RecordPaths(defs, paths, a + b) == RecordPaths(defs, RecordPaths(defs, paths, a), b)
    ensures RecordContexts(contexts, a + b) == RecordContexts(RecordContexts(contexts, a), b)
    decreases |b|
  {
    if b == [] {
      assert a + b == a;
    } else {
      var c := a + b;
      assert c[..|c| - 1] == a + b[..|b| - 1] && c[|c| - 1] == b[|b| - 1];
      RecordsAppend(defs, paths, contexts, a, b[..|b| - 1]);
    }
  }

  lemma RecordsOne(defs: Schema, paths: map<string, set<string>>, contexts: map<string, set<seq<string>>>, visit: Visit)
    ensures RecordPaths(defs, paths, [visit]) ==
      if visit.name in defs && defs[visit.name].context.Some? then Extend(paths, visit.name, Label(visit.path))
      else paths
    ensures RecordContexts(contexts, [visit]) == Extend(contexts, Label(visit.path), visit.context)
  {
    assert [visit][..0] == [];
  }

  ghost predicate PlacedAt(defs: Schema, visits: seq<Visit>, name: string, place: string) {
    name in defs && defs[name].context.Some?
    && exists visit | visit in visits :: visit.name == name && Label(visit.path) == place
  }

  ghost predicate InForceAt(visits: seq<Visit>, place: string, context: seq<string>) {
    exists visit | visit in visits :: Label(visit.path) == place && visit.context == context
  }

  /** Starting from empty dictionaries, the dictionaries hold exactly what was visited. */
  lemma {:induction false} RecordsExact(defs: Schema, visits: seq<Visit>, name: string, place: string,
                                        context: seq<string>)
    ensures var paths := RecordPaths(defs, map[], visits);
      && (name in paths ==> paths[name] != {})
      && (name in paths && place in paths[name] <==> PlacedAt(defs, visits, name, place))
    ensures var contexts := RecordContexts(map[], visits);
      place in contexts && context in contexts[place] <==> InForceAt(visits, place, context)
  {
    if visits == [] {
    } else {
      var before, last := visits[..|visits| - 1], visits[|visits| - 1];
      RecordsExact(defs, before, name, place, context);
      assert forall visit :: visit in visits <==> visit in before || visit == last;
      assert PlacedAt(defs, visits, name, place) <==>
        PlacedAt(defs, before, name, place)
        || (name in defs && defs[name].context.Some? && last.name == name && Label(last.path) == place);
      assert InForceAt(visits, place, context) <==>
        InForceAt(before, place, context) || (Label(last.path) == place && last.context == context);
    }
  }

  lemma VisitOneMore(defs: Schema, done: seq<Child>, child: Child, context: seq<string>, stack: seq<string>)
    requires VisitAll(defs, done, context, stack).Ok?
    ensures var all, one :=
        VisitAll(defs, done + [child], context, stack), Visits(defs, child.spec, child.path, context, stack);
      && (all.Ok? <==> one.Ok?)
      && (all.Ok? ==> all.value == VisitAll(defs, done, context, stack).value + one.value)
  {
    VisitAllAppends(defs, done, [child], context, stack);
    var one := Visits(defs, child.spec, child.path, context, stack);
    assert VisitAll(defs, [], context, stack) == Ok([]);
    if one.Ok? {
      assert one.value + [] == one.value;
    }
  }

  /** Walking one more child appends its visits, and its records, to what is there. */
  lemma OneMoreChild(defs: Schema, done: seq<Child>, child: Child, context: seq<string>, stack: seq<string>,
                     paths: map<string, set<string>>, contexts: map<string, set<seq<string>>>, here: seq<Visit>)
    requires VisitAll(defs, done, context, stack).Ok?
    ensures var all, one :=
        VisitAll(defs, done + [child], context, stack), Visits(defs, child.spec, child.path, context, stack);
      && (all.Ok? <==> one.Ok?)
      && (all.Ok? ==>
            var before := here + VisitAll(defs, done, context, stack).value;
            && here + all.value == before + one.value
            && RecordPaths(defs, paths, here + all.value) ==
              RecordPaths(defs, RecordPaths(defs, paths, before), one.value)
            && RecordContexts(contexts, here + all.value) ==
              RecordContexts(RecordContexts(contexts, before), one.value))
  {
    VisitOneMore(defs, done, child, context, stack);
    var one := Visits(defs, child.spec, child.path, context, stack);
    if one.Ok? {
      var doneVisits := VisitAll(defs, done, context, stack).value;
      assert here + (doneVisits + one.value) == (here + doneVisits) + one.value;
      RecordsAppend(defs, paths, contexts, here + doneVisits, one.value);
    }
  }

  // The walker itself

  /** The children of the fields with what comes before and after each of them. */
  lemma FieldsInOrder(one: seq<Child>, props: seq<Child>, loose: seq<Child>, items: seq<Child>)
    ensures one + props + loose + items == [] + one + (props + loose + items)
    ensures one + props + loose + items == one + (props + loose) + items
    ensures one + props + loose + items == one + (props + loose) + items + []
    ensures [] + one == one
  {
  }

  class Walker {
    const definitions: Schema
    var contextPaths: map<string, set<string>>
    var pathContexts: map<string, set<seq<string>>>

    constructor (definitions: Schema)
      ensures this.definitions == definitions && contextPaths == map[] && pathContexts == map[]
    {
      this.definitions := definitions;
      contextPaths, pathContexts := map[], map[];
    }

    /** Records exactly the visits of `Visits`, or fails when it does. */
    method Walk(spec: Spec, path: string, inherited: seq<string>, stack: seq<string>)
      returns (r: Result<(), AuditError>)
      modifies this
      ensures r.Ok? <==> Visits(definitions, spec, path, inherited, stack).Ok?
      ensures r.Ok? ==>
        var visits := Visits(definitions, spec, path, inherited, stack).value;
        && contextPaths == RecordPaths(definitions, old(contextPaths), visits)
        && pathContexts == RecordContexts(old(pathContexts), visits)
      decreases definitions.Keys - Members(stack), 0, 0
    {
      ghost var paths0, contexts0 := contextPaths, pathContexts;
      var named := NamedSpec(spec);
      if named.None? {
        return Err(MalformedSpec);
      }
      var name := named.value;
      if name in PRIMITIVE_KINDS {
        return Ok(());
      }
      if name !in definitions {
        return Err(UnknownDefinition(name));
      }
      var node := definitions[name];
      var context := Effective(node, inherited);
      ghost var here := [Visit(name, path, context)];
      pathContexts := Extend(pathContexts, Label(path), context);
      if node.context.Some? {
        if !node.context.value.Contexts? {
          return Err(MalformedField(name));
        }
        contextPaths := Extend(contextPaths, name, Label(path));
      }
      RecordsOne(definitions, paths0, contexts0, here[0]);
      if name in stack {
        return Ok(());
      }
      var nextStack := stack + [name];
      assert name in definitions.Keys - Members(stack) && name !in definitions.Keys - Members(nextStack);
      assert here + [] == here;
      r := WalkFields(name, path, context, nextStack, paths0, contexts0, here);
    }

    /** The children done so far were walked without a failure, and the dictionaries hold their visits. */
    ghost predicate Progress(paths: map<string, set<string>>, contexts: map<string, set<seq<string>>>, here: seq<Visit>,
                             done: seq<Child>, context: seq<string>, stack: seq<string>)
      reads this
    {
      var below := VisitAll(definitions, done, context, stack);
      && below.Ok?
      && contextPaths == RecordPaths(definitions, paths, here + below.value)
      && pathContexts == RecordContexts(contexts, here + below.value)
    }

    /** The three fields of a definition that have children. */
    method WalkFields(name: string, path: string, context: seq<string>, stack: seq<string>,
                      ghost paths: map<string, set<string>>, ghost contexts: map<string, set<seq<string>>>,
                      ghost here: seq<Visit>)
      returns (r: Result<(), AuditError>)
      requires name in definitions
      requires Progress(paths, contexts, here, [], context, stack)
      modifies this
      ensures r.Ok? <==> FieldsAreSound(definitions[name])
                         && VisitAll(definitions, Children(definitions[name], path), context, stack).Ok?
      ensures r.Ok? ==> Progress(paths, contexts, here, Children(definitions[name], path), context, stack)
      decreases definitions.Keys - Members(stack), 3, 0
    {
      ghost var node := definitions[name];
      ghost var one, items := OneOfPart(node, path), SequencePart(node, path);
      ghost var props, loose := PropertiesPart(node, path), LoosePart(node, path);
      FieldsInOrder(one, props, loose, items);
      r := WalkOneOf(name, path, context, stack, paths, contexts, here, [], props + loose + items);
      if r.Err? {
        return;
      }
      r := WalkMapping(name, path, context, stack, paths, contexts, here, one, items);
      if r.Err? {
        return;
      }
      r := WalkSequence(name, path, context, stack, paths, contexts, here, one + (props + loose), []);
    }

    /** The alternatives of a definition; `before` are the children of the earlier fields, `after` those of the
        later ones. */
    method WalkOneOf(name: string, path: string, context: seq<string>, stack: seq<string>,
                     ghost paths: map<string, set<string>>, ghost contexts: map<string, set<seq<string>>>,
                     ghost here: seq<Visit>, ghost before: seq<Child>, ghost after: seq<Child>)
      returns (r: Result<(), AuditError>)
      requires name in definitions
      requires Progress(paths, contexts, here, before, context, stack)
      modifies this
      ensures r.Ok? ==>
        && OneOfIsSound(definitions[name])
        && Progress(paths, contexts, here, before + OneOfPart(definitions[name], path), context, stack)
      ensures r.Err? ==> OneOfIsSound(definitions[name]) ==>
        VisitAll(definitions, before + OneOfPart(definitions[name], path) + after, context, stack).Err?
      decreases definitions.Keys - Members(stack), 2, 0
    {
      var node := definitions[name];
      if node.oneOf.None? {
        assert before + OneOfPart(node, path) == before;
        return Ok(());
      }
      if !node.oneOf.value.Alternatives? || node.oneOf.value.specs == [] {
        return Err(MalformedField(name));
      }
      r := WalkEach(AlternativeChildren(node.oneOf.value.specs, path), context, stack, paths, contexts, here,
                    before, after);
    }

    /** The properties of a mapping, and what it allows besides them. */
    method WalkMapping(name: string, path: string, context: seq<string>, stack: seq<string>,
                       ghost paths: map<string, set<string>>, ghost contexts: map<string, set<seq<string>>>,
                       ghost here: seq<Visit>, ghost before: seq<Child>, ghost after: seq<Child>)
      returns (r: Result<(), AuditError>)
      requires name in definitions
      requires Progress(paths, contexts, here, before, context, stack)
      modifies this
      ensures r.Ok? ==>
        && MappingIsSound(definitions[name])
        && Progress(paths, contexts, here, before + MappingPart(definitions[name], path), context, stack)
      ensures r.Err? ==> MappingIsSound(definitions[name]) ==>
        VisitAll(definitions, before + MappingPart(definitions[name], path) + after, context, stack).Err?
      decreases definitions.Keys - Members(stack), 2, 0
    {
      var node := definitions[name];
      ghost var props, loose := PropertiesPart(node, path), LoosePart(node, path);
      assert before + (props + loose) == before + props + loose;
      if node.mapping.None? {
        assert before + (props + loose) == before;
        return Ok(());
      }
      if !node.mapping.value.Mapping? || !node.mapping.value.properties.Properties? {
        return Err(MalformedField(name));
      }
      assert before + (props + loose) + after == before + props + (loose + after);
      r := WalkEach(PropertyChildren(node.mapping.value.properties.entries, path), context,
                    stack, paths, contexts, here, before, loose + after);
      if r.Err? {
        return;
      }
      if node.mapping.value.loose.None? {
        assert before + props + loose == before + props;
        return Ok(());
      }
      r := WalkEach([Child(node.mapping.value.loose.value, Join(path, "<*>"))], context,
                    stack, paths, contexts, here, before + props, after);
    }

    /** The item of a sequence. */
    method WalkSequence(name: string, path: string, context: seq<string>, stack: seq<string>,
                        ghost paths: map<string, set<string>>, ghost contexts: map<string, set<seq<string>>>,
                        ghost here: seq<Visit>, ghost before: seq<Child>, ghost after: seq<Child>)
      returns (r: Result<(), AuditError>)
      requires name in definitions
      requires Progress(paths, contexts, here, before, context, stack)
      modifies this
      ensures r.Ok? ==>
        && SequenceIsSound(definitions[name])
        && Progress(paths, contexts, here, before + SequencePart(definitions[name], path), context, stack)
      ensures r.Err? ==> SequenceIsSound(definitions[name]) ==>
        VisitAll(definitions, before + SequencePart(definitions[name], path) + after, context, stack).Err?
      decreases definitions.Keys - Members(stack), 2, 0
    {
      var node := definitions[name];
      if node.sequence.None? {
        assert before + SequencePart(node, path) == before;
        return Ok(());
      }
      if !node.sequence.value.SequenceOf? {
        return Err(MalformedField(name));
      }
      r := WalkEach([Child(node.sequence.value.item, path + "[*]")], context, stack, paths, contexts, here,
                    before, after);
    }

    /** Walks the children of one field; `before` are the children of the earlier fields, `after` those of the
        later ones. */
    method WalkEach(children: seq<Child>, context: seq<string>, stack: seq<string>,
                    ghost paths: map<string, set<string>>, ghost contexts: map<string, set<seq<string>>>,
                    ghost here: seq<Visit>, ghost before: seq<Child>, ghost after: seq<Child>)
      returns (r: Result<(), AuditError>)
      requires Progress(paths, contexts, here, before, context, stack)
      modifies this
      ensures r.Ok? ==> Progress(paths, contexts, here, before + children, context, stack)
      ensures r.Err? ==> VisitAll(definitions, before + children + after, context, stack).Err?
      decreases definitions.Keys - Members(stack), 1, 0
    {
      assert before + children[..0] == before;
      for i := 0 to |children|
        invariant Progress(paths, contexts, here, before + children[..i], context, stack)
      {
        r := Walk(children[i].spec, children[i].path, context, stack);
        assert before + children[..i + 1] == (before + children[..i]) + [children[i]];
        OneMoreChild(definitions, before + children[..i], children[i], context, stack, paths, contexts, here);
        if r.Err? {
          assert before + children + after == before + children[..i + 1] + (children[i + 1..] + after);
          VisitAllAppends(definitions, before + children[..i + 1], children[i + 1..] + after, context, stack);
          return;
        }
      }
      assert children[..|children|] == children;
      r := Ok(());
    }
  }

  method WalkSchema(definitions: Schema)
    returns (r: Result<(map<string, set<string>>, map<string, set<seq<string>>>), AuditError>)
    ensures r.Ok? <==> Visits(definitions, Text(ROOT), "", [], []).Ok?
    ensures r.Ok? ==>
      var visits := Visits(definitions, Text(ROOT), "", [], []).value;
      r.value == (RecordPaths(definitions, map[], visits), RecordContexts(map[], visits))
  {
    var walker := new Walker(definitions);
    var done := walker.Walk(Text(ROOT), "", [], []);
    match done
    case Err(error) => r := Err(error);
    case Ok(_) => r := Ok((walker.contextPaths, walker.pathContexts));
  }
}
