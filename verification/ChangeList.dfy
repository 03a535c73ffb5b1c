/** `host_changes`: decoding the NUL-separated name-status stream and the NUL-separated list of untracked
    files into the paths that are present on the host and the paths that are gone. */
module ChangeList {
  const NUL: char := '\0'

  /** One record of `git diff --name-status -z`. */
  datatype Record =
    | Renamed(score: string, from: string, to: string)
    | Copied(score: string, from: string, to: string)
    | Deleted(path: string)
    | Changed(code: string, path: string)

  predicate Token(s: string) {
    s != "" && NUL !in s
  }

  predicate WellFormed(r: Record) {
    match r
    case Renamed(score, from, to) => NUL !in score && Token(from) && Token(to)
    case Copied(score, from, to) => NUL !in score && Token(from) && Token(to)
    case Deleted(path) => Token(path)
    case Changed(code, path) => Token(code) && code[0] !in {'R', 'C', 'D'} && Token(path)
  }

  /** The fields of a record, each of which the stream ends with a NUL. */
  function Fields(r: Record): seq<string> {
    match r
    case Renamed(score, from, to) => ["R" + score, from, to]
    case Copied(score, from, to) => ["C" + score, from, to]
    case Deleted(path) => ["D", path]
    case Changed(code, path) => [code, path]
  }

  function AllFields(records: seq<Record>): seq<string> {
    if records == [] then [] else Fields(records[0]) + AllFields(records[1..])
  }

  function Terminated(fields: seq<string>): string {
    if fields == [] then "" else fields[0] + [NUL] + Terminated(fields[1..])
  }

  function Encode(records: seq<Record>): string {
    Terminated(AllFields(records))
  }

  // Splitting at NUL and dropping empty pieces

  function ChunksAfter(piece: string, s: string): seq<string>
    decreases |s|
  {
    if s == "" then (if piece == "" then [] else [piece])
    else if s[0] == NUL then (if piece == "" then [] else [piece]) + ChunksAfter("", s[1..])
    else ChunksAfter(piece + [s[0]], s[1..])
  }

  function Chunks(s: string): seq<string> {
    ChunksAfter("", s)
  }

  lemma {:induction false} TokenIsOneChunk(piece: string, token: string, rest: string)
    requires NUL !in token && piece + token != ""
    ensures ChunksAfter(piece, token + [NUL] + rest) == [piece + token] + Chunks(rest)
    decreases |token|
  {
    var s := token + [NUL] + rest;
    if token == "" {
      assert s[0] == NUL && s[1..] == rest && piece + token == piece;
    } else {
      assert s[0] == token[0] && s[1..] == token[1..] + [NUL] + rest;
      TokenIsOneChunk(piece + [token[0]], token[1..], rest);
      assert piece + [token[0]] + token[1..] == piece + token;
    }
  }

  /** Splitting gives back the fields that were written. */
  lemma {:induction false} ChunksOfTerminated(fields: seq<string>)
    requires forall f | f in fields :: Token(f)
    ensures Chunks(Terminated(fields)) == fields
  {
    if fields == [] {
    } else {
      assert fields[0] in fields && forall f | f in fields[1..] :: f in fields;
      ChunksOfTerminated(fields[1..]);
      assert Terminated(fields) == fields[0] + [NUL] + Terminated(fields[1..]);
      assert "" + fields[0] == fields[0];
      TokenIsOneChunk("", fields[0], Terminated(fields[1..]));
    }
  }

  // What the records say

  function Present(r: Record): seq<string> {
    match r
    case Renamed(_, _, to) => [to]
    case Copied(_, _, to) => [to]
    case Deleted(_) => []
    case Changed(_, path) => [path]
  }

  function Gone(r: Record): seq<string> {
    match r
    case Renamed(_, from, _) => [from]
    case Copied(_, _, _) => []
    case Deleted(path) => [path]
    case Changed(_, _) => []
  }

  function AllPresent(records: seq<Record>): seq<string> {
    if records == [] then [] else Present(records[0]) + AllPresent(records[1..])
  }

  function AllGone(records: seq<Record>): seq<string> {
    if records == [] then [] else Gone(records[0]) + AllGone(records[1..])
  }

  // The decoding loop

  datatype Lists = Lists(modified: seq<string>, deleted: seq<string>)

  function Field(chunks: seq<string>, i: nat): string {
    if i < |chunks| then chunks[i] else ""
  }

  /** What the loop collects from the chunks from the i-th on; fields that are missing read as empty. */
  function Collected(chunks: seq<string>, i: nat): Lists
    decreases |chunks| - i
  {
    if i >= |chunks| then Lists([], [])
    else
      var code := if chunks[i] == "" then ' ' else chunks[i][0];
      if code == 'R' then
        var rest := Collected(chunks, i + 3);
        Lists([Field(chunks, i + 2)] + rest.modified, [Field(chunks, i + 1)] + rest.deleted)
      else if code == 'C' then
        var rest := Collected(chunks, i + 3);
        Lists([Field(chunks, i + 2)] + rest.modified, rest.deleted)
      else if code == 'D' then
        var rest := Collected(chunks, i + 2);
        Lists(rest.modified, [Field(chunks, i + 1)] + rest.deleted)
      else
        var rest := Collected(chunks, i + 2);
        Lists([Field(chunks, i + 1)] + rest.modified, rest.deleted)
  }

  lemma Shifted(collected: seq<string>, path: string, rest: seq<string>)
    ensures collected + ([path] + rest) == collected + [path] + rest
  {
  }

  method ParseNameStatus(stream: string) returns (lists: Lists)
    ensures lists == Collected(Chunks(stream), 0)
  {
    var chunks := Chunks(stream);
    var modified: seq<string>, deleted: seq<string> := [], [];
    var i := 0;
    while i < |chunks|
      invariant Collected(chunks, 0)
        == Lists(modified + Collected(chunks, i).modified, deleted + Collected(chunks, i).deleted)
    {
      var code := if chunks[i] == "" then ' ' else chunks[i][0];
      if code == 'R' || code == 'C' {
        var oldPath := Field(chunks, i + 1);
        var newPath := Field(chunks, i + 2);
        ghost var rest := Collected(chunks, i + 3);
        Shifted(modified, newPath, rest.modified);
        if code == 'R' {
          Shifted(deleted, oldPath, rest.deleted);
          deleted := deleted + [oldPath];
        }
        modified := modified + [newPath];
        i := i + 3;
      } else {
        var path := Field(chunks, i + 1);
        ghost var rest := Collected(chunks, i + 2);
        if code == 'D' {
          Shifted(deleted, path, rest.deleted);
          deleted := deleted + [path];
        } else {
          Shifted(modified, path, rest.modified);
          modified := modified + [path];
        }
        i := i + 2;
      }
    }
    assert modified + [] == modified && deleted + [] == deleted;
    lists := Lists(modified, deleted);
  }

  /** One turn of the loop consumes the fields of one record and collects its paths. */
  lemma RecordIsCollected(chunks: seq<string>, i: nat, r: Record)
    requires WellFormed(r) && i + |Fields(r)| <= |chunks|
    requires chunks[i..i + |Fields(r)|] == Fields(r)
    ensures var rest := Collected(chunks, i + |Fields(r)|);
      Collected(chunks, i) == Lists(Present(r) + rest.modified, Gone(r) + rest.deleted)
  {
    var slice := chunks[i..i + |Fields(r)|];
    assert chunks[i] == slice[0] && chunks[i + 1] == slice[1];
    if r.Renamed? || r.Copied? {
      assert chunks[i + 2] == slice[2];
    }
  }

  lemma {:induction false} CollectedFromFields(prefix: seq<string>, records: seq<Record>)
    requires forall r | r in records :: WellFormed(r)
    ensures Collected(prefix + AllFields(records), |prefix|) == Lists(AllPresent(records), AllGone(records))
    decreases |records|
  {
    var chunks := prefix + AllFields(records);
    if records == [] {
    } else {
      var first, rest := records[0], records[1..];
      assert first in records && forall r | r in rest :: r in records;
      assert chunks == (prefix + Fields(first)) + AllFields(rest);
      CollectedFromFields(prefix + Fields(first), rest);
      assert chunks[|prefix|..|prefix| + |Fields(first)|] == Fields(first);
      RecordIsCollected(chunks, |prefix|, first);
    }
  }

  lemma {:induction false} FieldsAreTokens(records: seq<Record>)
    requires forall r | r in records :: WellFormed(r)
    ensures forall f | f in AllFields(records) :: Token(f)
  {
    if records == [] {
    } else {
      assert records[0] in records && forall r | r in records[1..] :: r in records;
      FieldsAreTokens(records[1..]);
    }
  }

  /** Decoding an encoded list of records recovers exactly the paths it names, in order. */
  lemma DecodesWhatWasEncoded(records: seq<Record>)
    requires forall r | r in records :: WellFormed(r)
    ensures Collected(Chunks(Encode(records)), 0) == Lists(AllPresent(records), AllGone(records))
  {
    FieldsAreTokens(records);
    ChunksOfTerminated(AllFields(records));
    assert [] + AllFields(records) == AllFields(records);
    CollectedFromFields([], records);
  }

  // Sorting and removing duplicates

  predicate Before(a: string, b: string) {
    if b == "" then false
    else if a == "" then true
    else a[0] < b[0] || (a[0] == b[0] && Before(a[1..], b[1..]))
  }

  lemma {:induction false} BeforeIsTotal(a: string, b: string)
    ensures a == b || Before(a, b) || Before(b, a)
  {
    if a != "" && b != "" && a[0] == b[0] {
      BeforeIsTotal(a[1..], b[1..]);
      if a[1..] == b[1..] {
        assert a == [a[0]] + a[1..] && b == [b[0]] + b[1..];
      }
    }
  }

  lemma {:induction false} BeforeIsTransitive(a: string, b: string, c: string)
    requires Before(a, b) && Before(b, c)
    ensures Before(a, c)
  {
    if a != "" && a[0] == b[0] == c[0] {
      BeforeIsTransitive(a[1..], b[1..], c[1..]);
    }
  }

  ghost predicate StrictlySorted(xs: seq<string>) {
    forall i | 1 <= i < |xs| :: Before(xs[i - 1], xs[i])
  }

  function InsertOnce(x: string, xs: seq<string>): seq<string> {
    if xs == [] || Before(x, xs[0]) then [x] + xs
    else if x == xs[0] then xs
    else [xs[0]] + InsertOnce(x, xs[1..])
  }

  /** `sort` followed by `dedup`. */
  function SortDedup(xs: seq<string>): seq<string> {
    if xs == [] then [] else InsertOnce(xs[0], SortDedup(xs[1..]))
  }

  lemma {:induction false} InsertOnceKeeps(x: string, xs: seq<string>)
    requires StrictlySorted(xs)
    ensures StrictlySorted(InsertOnce(x, xs))
    ensures forall y :: y in InsertOnce(x, xs) <==> y == x || y in xs
    ensures xs != [] ==> InsertOnce(x, xs)[0] == x || InsertOnce(x, xs)[0] == xs[0]
    ensures xs == [] ==> InsertOnce(x, xs)[0] == x
  {
    if xs != [] && !Before(x, xs[0]) && x != xs[0] {
      BeforeIsTotal(x, xs[0]);
      var rest := xs[1..];
      assert StrictlySorted(rest) by {
        assert forall i | 1 <= i < |rest| :: rest[i] == xs[i + 1] && Before(xs[i + 1 - 1], xs[i + 1]);
      }
      InsertOnceKeeps(x, rest);
      var r := InsertOnce(x, rest);
      assert rest != [] ==> Before(xs[1 - 1], xs[1]);
      forall i | 1 <= i < |r| + 1
        ensures Before(([xs[0]] + r)[i - 1], ([xs[0]] + r)[i])
      {
        if i > 1 {
          assert Before(r[i - 1 - 1], r[i - 1]);
        }
      }
      assert forall y :: y in xs <==> y == xs[0] || y in rest;
    }
  }

  /** The sorted list has the same paths, each once. */
  lemma {:induction false} SortDedupKeeps(xs: seq<string>)
    ensures StrictlySorted(SortDedup(xs))
    ensures forall y :: y in SortDedup(xs) <==> y in xs
  {
    if xs == [] {
    } else {
      SortDedupKeeps(xs[1..]);
      InsertOnceKeeps(xs[0], SortDedup(xs[1..]));
      assert forall y :: y in xs <==> y == xs[0] || y in xs[1..];
    }
  }

  lemma {:induction false} SortedMeansDistinct(xs: seq<string>, i: nat, j: nat)
    requires StrictlySorted(xs) && i < j < |xs|
    ensures Before(xs[i], xs[j])
    decreases j
  {
    if i < j - 1 {
      SortedMeansDistinct(xs, i, j - 1);
      assert Before(xs[j - 1], xs[j]);
      BeforeIsTransitive(xs[i], xs[j - 1], xs[j]);
    }
  }

  /** The present and the gone paths of the host, sorted and without duplicates. */
  method HostChanges(nameStatus: string, untracked: string) returns (lists: Lists)
    ensures StrictlySorted(lists.modified) && StrictlySorted(lists.deleted)
    ensures forall p :: p in lists.modified <==>
      p in Collected(Chunks(nameStatus), 0).modified || p in Chunks(untracked)
    ensures forall p :: p in lists.deleted <==> p in Collected(Chunks(nameStatus), 0).deleted
  {
    var parsed := ParseNameStatus(nameStatus);
    var modified := parsed.modified + Chunks(untracked);
    SortDedupKeeps(modified);
    SortDedupKeeps(parsed.deleted);
    lists := Lists(SortDedup(modified), SortDedup(parsed.deleted));
  }
}
