/** `parse_context_constants`: constants are string lists or aliases of other constants, and a loop
    resolves every alias in place while later iterations already read the resolved entries. */
module AliasTable {
  import opened Common

  datatype Rhs = Literal(values: seq<string>) | Alias(target: string)

  type Declarations = map<string, Rhs>

  /** A table entry. A resolved alias keeps its alias and gains the values. */
  datatype Item = Item(values: Option<seq<string>>, alias: Option<string>)

  datatype AliasError = UnknownConstant(name: string) | AliasCycle(name: string)

  function Parsed(rhs: Rhs): Item {
    match rhs
    case Literal(values) => Item(Some(values), None)
    case Alias(target) => Item(None, Some(target))
  }

  // Alias chains in the declarations, before anything is resolved

  ghost predicate IsChain(decls: Declarations, c: seq<string>) {
    && |c| > 0
    && forall i | 0 <= i < |c| - 1 :: c[i] in decls && decls[c[i]] == Alias(c[i + 1])
  }

  /** The chain `c` ends at a literal with these values. */
  ghost predicate ChainEnds(decls: Declarations, c: seq<string>, values: seq<string>) {
    IsChain(decls, c) && c[|c| - 1] in decls && decls[c[|c| - 1]] == Literal(values)
  }

  ghost predicate Denotes(decls: Declarations, name: string, values: seq<string>) {
    exists c :: ChainEnds(decls, c, values) && c[0] == name
  }

  /** The chain `c` runs into an unknown name or into itself. */
  ghost predicate ChainBreaks(decls: Declarations, c: seq<string>) {
    IsChain(decls, c) && (c[|c| - 1] !in decls || c[|c| - 1] in c[..|c| - 1])
  }

  ghost predicate Defective(decls: Declarations, name: string) {
    exists c :: ChainBreaks(decls, c) && c[0] == name
  }

  lemma DenotesAbove(decls: Declarations, name: string, values: seq<string>)
    requires name in decls && decls[name].Alias? && Denotes(decls, decls[name].target, values)
    ensures Denotes(decls, name, values)
  {
    var c :| ChainEnds(decls, c, values) && c[0] == decls[name].target;
    assert ChainEnds(decls, [name] + c, values);
  }

  /** Two chains from one name agree as far as both go. */
  lemma {:induction false} ChainsAgree(decls: Declarations, c: seq<string>, d: seq<string>, i: nat)
    requires IsChain(decls, c) && IsChain(decls, d) && c[0] == d[0]
    requires i < |c| && i < |d|
    ensures c[i] == d[i]
  {
    if i == 0 {
    } else {
      ChainsAgree(decls, c, d, i - 1);
      assert decls[c[i - 1]] == Alias(c[i]);
    }
  }

  /** A constant denotes at most one list. */
  lemma DenotationIsUnique(decls: Declarations, name: string, values: seq<string>, others: seq<string>)
    requires Denotes(decls, name, values) && Denotes(decls, name, others)
    ensures values == others
  {
    var c :| ChainEnds(decls, c, values) && c[0] == name;
    var d :| ChainEnds(decls, d, others) && d[0] == name;
    assert |c| < |d| ==> decls[d[|c| - 1]] == Alias(d[|c|]);
    assert |d| < |c| ==> decls[c[|d| - 1]] == Alias(c[|d|]);
    ChainsAgree(decls, c, d, if |c| < |d| then |c| - 1 else |d| - 1);
  }

  /** A chain that runs into itself never reaches a literal. */
  lemma {:induction false} LoopsDenoteNothing(decls: Declarations, loop: seq<string>, c: seq<string>,
                                              values: seq<string>)
    requires IsChain(decls, loop) && |loop| > 1 && loop[0] == loop[|loop| - 1]
    requires ChainEnds(decls, c, values) && c[0] == loop[0]
    ensures false
    decreases |c|
  {
    if |c| < |loop| {
      assert decls[loop[|c| - 1]] == Alias(loop[|c|]);
      ChainsAgree(decls, c, loop, |c| - 1);
    } else {
      ChainsAgree(decls, c, loop, |loop| - 1);
      LoopsDenoteNothing(decls, loop, c[|loop| - 1..], values);
    }
  }

  /** A chain with a defect and a chain with a literal end exclude each other. */
  lemma DefectiveDenotesNothing(decls: Declarations, name: string, values: seq<string>)
    requires Defective(decls, name)
    ensures !Denotes(decls, name, values)
  {
    var b :| ChainBreaks(decls, b) && b[0] == name;
    var last := |b| - 1;
    if Denotes(decls, name, values) {
      var c :| ChainEnds(decls, c, values) && c[0] == name;
      if |c| <= last {
        assert decls[b[|c| - 1]] == Alias(b[|c|]);
        ChainsAgree(decls, b, c, |c| - 1);
      } else {
        ChainsAgree(decls, b, c, last);
        if b[last] in b[..last] {
          var i :| 0 <= i < last && b[i] == b[last];
          ChainsAgree(decls, b, c, i);
          LoopsDenoteNothing(decls, b[i..], c[i..], values);
        }
      }
    }
  }

  // The table

  ghost predicate EntryIsSound(decls: Declarations, name: string, item: Item)
    requires name in decls
  {
    && item.alias == Parsed(decls[name]).alias
    && (decls[name].Literal? ==> item.values.Some?)
    && (item.values.Some? ==> Denotes(decls, name, item.values.value))
  }

  /** Every entry is as declared, except that aliases already resolved also hold what they denote. */
  ghost predicate Sound(decls: Declarations, table: map<string, Item>) {
    && table.Keys == decls.Keys
    && forall name {:trigger EntryIsSound(decls, name, table[name])} | name in decls ::
      EntryIsSound(decls, name, table[name])
  }

  /** A sound table with every alias resolved. */
  ghost predicate Resolved(decls: Declarations, table: map<string, Item>) {
    && Sound(decls, table)
    && forall name | name in decls :: table[name].values.Some?
  }

  /** However the loop is ordered, there is only one resolved table. */
  lemma ResolvedIsUnique(decls: Declarations, table: map<string, Item>, other: map<string, Item>)
    requires Resolved(decls, table) && Resolved(decls, other)
    ensures table == other
  {
    forall name | name in decls
      ensures table[name] == other[name]
    {
      assert EntryIsSound(decls, name, table[name]) && EntryIsSound(decls, name, other[name]);
      DenotationIsUnique(decls, name, table[name].values.value, other[name].values.value);
    }
  }

  ghost function Denotation(decls: Declarations, name: string): seq<string> {
    if values :| Denotes(decls, name, values) then values else []
  }

  ghost predicate NoDefects(decls: Declarations) {
    forall name {:trigger Defective(decls, name)} | name in decls :: !Defective(decls, name)
  }

  lemma ResolvedHasNoDefect(decls: Declarations, table: map<string, Item>, name: string)
    requires Resolved(decls, table) && name in decls
    ensures !Defective(decls, name)
  {
    assert EntryIsSound(decls, name, table[name]);
    DenotesExactlyWithoutDefect(decls, name);
  }

  lemma DenotationSound(decls: Declarations, name: string)
    requires name in decls && !Defective(decls, name)
    ensures EntryIsSound(decls, name, Item(Some(Denotation(decls, name)), Parsed(decls[name]).alias))
  {
    DenotesExactlyWithoutDefect(decls, name);
  }

  ghost function DenotationTable(decls: Declarations): map<string, Item> {
    map name | name in decls :: Item(Some(Denotation(decls, name)), Parsed(decls[name]).alias)
  }

  lemma NoDefectsResolve(decls: Declarations)
    requires NoDefects(decls)
    ensures Resolved(decls, DenotationTable(decls))
  {
    var table := DenotationTable(decls);
    assert table.Keys == decls.Keys;
    forall name | name in decls
      ensures EntryIsSound(decls, name, table[name])
    {
      assert !Defective(decls, name);
      DenotationSound(decls, name);
    }
  }

  /** A table can be resolved exactly when no constant has a defect. */
  lemma ResolvableExactlyWithoutDefect(decls: Declarations)
    ensures (exists table :: Resolved(decls, table)) <==> NoDefects(decls)
  {
    if table :| Resolved(decls, table) {
      forall name | name in decls
        ensures !Defective(decls, name)
      {
        ResolvedHasNoDefect(decls, table, name);
      }
    }
    if NoDefects(decls) {
      NoDefectsResolve(decls);
    }
  }

  class Table {
    ghost const declarations: Declarations
    var parsed: map<string, Item>
    var resolving: set<string>

    ghost predicate Valid()
      reads this
    {
      Sound(declarations, parsed)
    }

    constructor (decls: Declarations)
      ensures Valid() && declarations == decls && resolving == {}
    {
      declarations := decls;
      parsed := map name | name in decls :: Parsed(decls[name]);
      resolving := {};
      new;
      forall name | name in decls
        ensures EntryIsSound(decls, name, parsed[name])
      {
        if decls[name].Literal? {
          assert ChainEnds(decls, [name], decls[name].values);
        }
      }
    }

    /** Follows one alias chain; `path` is the chain of the calls now in progress. */
    method Resolve(name: string, ghost path: seq<string>) returns (r: Result<seq<string>, AliasError>)
      requires Valid()
      requires IsChain(declarations, path + [name]) && resolving == set n | n in path
      modifies `resolving
      ensures r.Ok? ==> resolving == old(resolving) && Denotes(declarations, name, r.value)
      ensures r.Err? ==> Defective(declarations, (path + [name])[0])
      decreases parsed.Keys - resolving
    {
      ghost var chain := path + [name];
      if name !in parsed {
        assert ChainBreaks(declarations, chain);
        return Err(UnknownConstant(name));
      }
      if name in resolving {
        assert chain[..|chain| - 1] == path;
        assert ChainBreaks(declarations, chain);
        return Err(AliasCycle(name));
      }
      var item := parsed[name];
      assert EntryIsSound(declarations, name, item);
      if item.values.Some? {
        return Ok(item.values.value);
      }
      resolving := resolving + {name};
      assert forall i | 0 <= i < |chain| - 1 :: (chain + [item.alias.value])[i] == chain[i];
      r := Resolve(item.alias.value, chain);
      if r.Err? {
        assert (chain + [item.alias.value])[0] == chain[0];
        return;
      }
      resolving := resolving - {name};
      DenotesAbove(declarations, name, r.value);
    }

    /** Resolves every entry, in any order the table may be listed in. */
    method ResolveAll(order: seq<string>) returns (r: Result<(), AliasError>)
      requires Valid() && resolving == {}
      requires forall name :: name in order <==> name in declarations
      modifies this
      ensures r.Ok? ==> Resolved(declarations, parsed)
      ensures r.Ok? <==> NoDefects(declarations)
    {
      for i := 0 to |order|
        invariant Valid() && resolving == {}
        invariant forall j | 0 <= j < i :: order[j] in parsed && parsed[order[j]].values.Some?
      {
        var name := order[i];
        assert name in order;
        assert [] + [name] == [name];
        var values := Resolve(name, []);
        if values.Err? {
          return Err(values.error);
        }
        assert EntryIsSound(declarations, name, parsed[name]);
        parsed := parsed[name := parsed[name].(values := Some(values.value))];
      }
      ResolvableExactlyWithoutDefect(declarations);
      r := Ok(());
    }
  }

  // The outcome, without the loop: a constant either denotes a list or has a defect, never both

  lemma {:induction false} ChainDecides(decls: Declarations, path: seq<string>, name: string)
    requires IsChain(decls, path + [name])
    ensures Defective(decls, (path + [name])[0]) || exists values :: Denotes(decls, name, values)
    decreases decls.Keys - set n | n in path
  {
    var chain := path + [name];
    if name !in decls || name in path {
      assert chain[..|chain| - 1] == path;
      assert ChainBreaks(decls, chain);
    } else if decls[name].Literal? {
      assert ChainEnds(decls, [name], decls[name].values);
      assert Denotes(decls, name, decls[name].values);
    } else {
      var target := decls[name].target;
      assert forall i | 0 <= i < |chain| - 1 :: (chain + [target])[i] == chain[i];
      assert name in decls.Keys - (set n | n in path) && name !in decls.Keys - (set n | n in chain);
      ChainDecides(decls, chain, target);
      assert (chain + [target])[0] == chain[0];
      if values :| Denotes(decls, target, values) {
        DenotesAbove(decls, name, values);
        assert Denotes(decls, name, values);
      }
    }
  }

  lemma DenotesExactlyWithoutDefect(decls: Declarations, name: string)
    ensures (exists values :: Denotes(decls, name, values)) <==> !Defective(decls, name)
  {
    assert [] + [name] == [name];
    ChainDecides(decls, [], name);
    forall values | Denotes(decls, name, values)
      ensures !Defective(decls, name)
    {
      if Defective(decls, name) {
        DefectiveDenotesNothing(decls, name, values);
      }
    }
  }
}
