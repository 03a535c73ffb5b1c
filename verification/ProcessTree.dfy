/** `Sampler._descendants`: the processes below a root, found with a work list over the parent table. */
module ProcessTree {
  import opened Common
  import opened Walks

  /** The fields of one line of the process table; a line with two fields is a pid and its parent. */
  type Row = seq<int>

  function Children(rows: seq<Row>): Successors<int> {
    parent => set row | row in rows && |row| == 2 && row[1] == parent :: row[0]
  }

  function Get(table: map<int, seq<int>>, parent: int): seq<int> {
    if parent in table then table[parent] else []
  }

  /** The dictionary lists the children of every parent. */
  ghost predicate Tabulates(table: map<int, seq<int>>, rows: seq<Row>) {
    forall parent, child :: child in Get(table, parent) <==> child in Children(rows)(parent)
  }

  method ChildTable(rows: seq<Row>) returns (table: map<int, seq<int>>)
    ensures Tabulates(table, rows)
  {
    table := map[];
    for i := 0 to |rows|
      invariant Tabulates(table, rows[..i])
    {
      ghost var before := table;
      var row := rows[i];
      if |row| == 2 {
        table := table[row[1] := Get(table, row[1]) + [row[0]]];
      }
      RowAdds(before, table, rows, i);
    }
    assert rows[..|rows|] == rows;
  }

  lemma RowAdds(before: map<int, seq<int>>, after: map<int, seq<int>>, rows: seq<Row>, i: nat)
    requires i < |rows| && Tabulates(before, rows[..i])
    requires after == if |rows[i]| == 2 then before[rows[i][1] := Get(before, rows[i][1]) + [rows[i][0]]] else before
    ensures Tabulates(after, rows[..i + 1])
  {
    assert forall row :: row in rows[..i + 1] <==> row in rows[..i] || row == rows[i];
    forall parent, child
      ensures child in Get(after, parent) <==> child in Children(rows[..i + 1])(parent)
    {
      assert child in Children(rows[..i + 1])(parent) <==>
        child in Children(rows[..i])(parent) || (|rows[i]| == 2 && rows[i][1] == parent && rows[i][0] == child);
    }
  }

  /** Everything pushed so far: the root first, then each process when it is first met. */
  ghost predicate PushedOnce(pushed: seq<int>, found: set<int>) {
    && (forall i, j | 0 <= i < j < |pushed| :: pushed[i] != pushed[j])
    && forall p :: p in found <==> p in pushed
  }

  /** What was found is reachable and was pushed once; only pending processes, and the one being expanded, may
      have children that were not found. */
  ghost predicate Underway(next: Successors<int>, root: int, found: set<int>, pending: seq<int>, pushed: seq<int>,
                           open: set<int>)
  {
    && root in found && PushedOnce(pushed, found)
    && (forall p | p in pending :: p in found)
    && (forall p | p in found :: Reaches(next, root, p))
    && (forall p | p in found && p !in pending && p !in open :: next(p) <= found)
  }

  /** The children of one process that were not met before are found, pushed and left pending. */
  method Expand(ghost next: Successors<int>, ghost root: int, ghost universe: set<int>, parent: int, children: seq<int>,
                found0: set<int>, pending0: seq<int>, ghost pushed0: seq<int>)
    returns (found: set<int>, pending: seq<int>, ghost pushed: seq<int>)
    requires Underway(next, root, found0, pending0, pushed0, {parent}) && parent in found0 && found0 <= universe
    requires forall c :: c in children <==> c in next(parent)
    requires next(parent) <= universe
    ensures Underway(next, root, found, pending, pushed, {}) && found0 <= found <= universe
    ensures found == found0 ==> pending == pending0
  {
    found, pending, pushed := found0, pending0, pushed0;
    for i := 0 to |children|
      invariant Underway(next, root, found, pending, pushed, {parent}) && found0 <= found <= universe
      invariant forall j | 0 <= j < i :: children[j] in found
      invariant found == found0 ==> pending == pending0
    {
      var child := children[i];
      if child !in found {
        ghost var was := found;
        ReachesThen(next, root, parent, child);
        found, pending, pushed := found + {child}, pending + [child], pushed + [child];
        assert was < found && found0 != found;
      }
    }
    forall c | c in next(parent)
      ensures c in found
    {
      assert c in children;
    }
  }

  method Descendants(root: int, table: Option<seq<Row>>) returns (found: set<int>, ghost pushed: seq<int>)
    ensures root <= 0 ==> found == {}
    ensures root > 0 && table.None? ==> found == {root}
    ensures root > 0 && table.Some? ==> forall p :: p in found <==> Reaches(Children(table.value), root, p)
    ensures PushedOnce(pushed, found)
  {
    if root <= 0 {
      return {}, [];
    }
    if table.None? {
      return {root}, [root];
    }
    var rows := table.value;
    var children := ChildTable(rows);
    ghost var next := Children(rows);
    ghost var universe := {root} + set row | row in rows && |row| == 2 :: row[0];
    found, pushed := {root}, [root];
    var pending := [root];
    ReachesSelf(next, root);
    while pending != []
      invariant Underway(next, root, found, pending, pushed, {}) && found <= universe
      decreases |universe - found|, |pending|
    {
      var parent := pending[|pending| - 1];
      ghost var before, left := found, universe - found;
      var rest := pending[..|pending| - 1];
      assert forall p :: p in pending <==> p in rest || p == parent;
      found, pending, pushed := Expand(next, root, universe, parent, Get(children, parent), found, rest, pushed);
      if found != before {
        Smaller(universe - found, left);
      }
    }
    forall p | Reaches(next, root, p)
      ensures p in found
    {
      ClosedSetsHoldReachable(next, found, root, p);
    }
  }
}
