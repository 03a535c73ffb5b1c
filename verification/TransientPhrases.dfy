/** The phrases by which a failed push is taken for transient, and texts put together from fixed and inserted parts:
    what decides whether such a text has a phrase in it. */
module TransientPhrases {
  import opened Texts

  /** The phrases of transient failures. */
  const NEEDLES: seq<string> := [
    "could not resolve host", "connection refused", "connection timed out", "operation timed out",
    "failed to connect", "unable to access", "rpc failed", "hung up", "error: 5", "status 5", "502", "503",
    "temporary failure"]

  predicate HasNeedle(text: string) {
    exists n | n in NEEDLES :: Contains(Lower(text), n)
  }

  // Where the phrases cannot be

  /** Some such place is in every phrase, and in no fixed part of a refusal. */
  predicate Telling(s: string, i: int) {
    && 0 <= i < |s| - 1
    && (PairTells(s[i], s[i + 1]) || (i + 2 < |s| && TripleTells(s[i], s[i + 1], s[i + 2])))
  }

  predicate PairTells(a: char, b: char) {
    || (a == 'l' && b == 'd')
    || (a == 'n' && b == 'n')
    || (a == 'p' && b == 'e')
    || ((a == 'i' || a == 'b') && b == 'l')
    || (a == 'u' && b == 'p')
  }

  predicate TripleTells(a: char, b: char, c: char) {
    || ((a == ':' || a == 's') && b == ' ' && c == '5')
    || (a == '5' && b == '0' && (c == '2' || c == '3'))
  }

  ghost predicate Plain(text: string) {
    forall i :: !Telling(Lower(text), i)
  }

  lemma NeedlesTell(n: string)
    requires n in NEEDLES
    ensures exists i: nat :: Telling(n, i)
  {
    var places := [3, 2, 2, 1, 2, 3, 6, 5, 5, 5, 0, 0, 12];
    var at: nat :| at < |NEEDLES| && NEEDLES[at] == n;
    assert Telling(NEEDLES[at], places[at]);
  }

  lemma PlainHasNoNeedle(text: string, n: string)
    requires Plain(text) && n in NEEDLES
    ensures !Contains(Lower(text), n)
  {
    var s := Lower(text);
    if j :| 0 <= j <= |s| && n <= s[j..] {
      NeedlesTell(n);
      var i: nat :| Telling(n, i);
      assert forall k | 0 <= k < |n| :: n[k] == s[j..][k] == s[j + k];
      assert Telling(s, j + i);
    }
  }

  /** How blanks, colons and parentheses stand in a phrase. */
  predicate Shaped(n: string, i: int)
    requires 0 <= i < |n|
  {
    && n[i] != ')'
    && (n[i] == ':' ==> i + 2 < |n| && n[i + 2] == '5')
    && (n[i] == ' ' ==>
          && i + 2 <= |n|
          && n[i + 1] !in {'(', 'i'}
          && (n[i + 1] == 'o' ==> i + 2 < |n| && n[i + 2] == 'u')
          && (n[i + 1] == 'f' ==> i + 2 < |n| && n[i + 2] == 'a')
          && i >= 2
          && n[i - 1] != 'h'
          && (n[i - 1] in {'n', 't'} ==> n[i - 2] == 'o')
          && (n[i - 1] == 'e' ==> n[i - 2] in {'v', 'l'})
          && (n[i - 1] == 'd' && n[i - 2] == 'e' ==> i >= 3 && n[i - 3] in {'m', 'l'}))
  }

  lemma HostShape(i: nat)
    requires i < |"could not resolve host"|
    ensures Shaped("could not resolve host", i)
  {
  }

  lemma RefusedShape(i: nat)
    requires i < |"connection refused"|
    ensures Shaped("connection refused", i)
  {
  }

  lemma ConnectionShape(i: nat)
    requires i < |"connection timed out"|
    ensures Shaped("connection timed out", i)
  {
  }

  lemma OperationShape(i: nat)
    requires i < |"operation timed out"|
    ensures Shaped("operation timed out", i)
  {
  }

  lemma ConnectShape(i: nat)
    requires i < |"failed to connect"|
    ensures Shaped("failed to connect", i)
  {
  }

  lemma AccessShape(i: nat)
    requires i < |"unable to access"|
    ensures Shaped("unable to access", i)
  {
  }

  lemma RpcShape(i: nat)
    requires i < |"rpc failed"|
    ensures Shaped("rpc failed", i)
  {
  }

  lemma HungShape(i: nat)
    requires i < |"hung up"|
    ensures Shaped("hung up", i)
  {
  }

  lemma ErrorShape(i: nat)
    requires i < |"error: 5"|
    ensures Shaped("error: 5", i)
  {
  }

  lemma StatusShape(i: nat)
    requires i < |"status 5"|
    ensures Shaped("status 5", i)
  {
  }

  lemma TemporaryShape(i: nat)
    requires i < |"temporary failure"|
    ensures Shaped("temporary failure", i)
  {
  }

  lemma NeedlesAreShaped(n: string, i: nat)
    requires n in NEEDLES && i < |n|
    ensures Shaped(n, i)
  {
    match n
    case "could not resolve host" => HostShape(i);
    case "connection refused" => RefusedShape(i);
    case "connection timed out" => ConnectionShape(i);
    case "operation timed out" => OperationShape(i);
    case "failed to connect" => ConnectShape(i);
    case "unable to access" => AccessShape(i);
    case "rpc failed" => RpcShape(i);
    case "hung up" => HungShape(i);
    case "error: 5" => ErrorShape(i);
    case "status 5" => StatusShape(i);
    case "temporary failure" => TemporaryShape(i);
    case _ =>
  }

  /** No such place begins here, by the characters alone. */
  predicate BareAt(text: string, i: nat) {
    && (i < |text| - 1 ==> !PairTells(LowerChar(text[i]), LowerChar(text[i + 1])))
    && (i < |text| ==> text[i] != '5')
  }

  ghost predicate Bare(text: string) {
    forall i: nat :: BareAt(text, i)
  }

  lemma BareIsPlain(text: string)
    requires Bare(text)
    ensures Plain(text)
  {
    forall i
      ensures !Telling(Lower(text), i)
    {
      LowerLength(text);
      if 0 <= i < |text| - 1 {
        LowerAt(text, i);
        LowerAt(text, i + 1);
        assert BareAt(text, i) && BareAt(text, i + 1);
        if i < |text| - 2 {
          LowerAt(text, i + 2);
          assert BareAt(text, i + 2);
        }
      }
    }
  }

  lemma BareJoins(a: string, b: string)
    requires Bare(a) && Bare(b) && b != "" && b[0] == ' '
    ensures Bare(a + b)
  {
    forall i: nat
      ensures BareAt(a + b, i)
    {
      assert BareAt(a, i);
      if i >= |a| {
        assert BareAt(b, i - |a|);
      }
    }
  }

  // What surrounds an inserted text

  /** Fixed text that no phrase can run into. */
  predicate Opens(s: string) {
    && |s| >= 3
    && (|| s[0] == ')'
        || (s[0] == ':' && s[1] == ' ' && s[2] == 'i')
        || (s[0] == ' ' && (s[1] == '(' || s[1] == 'i'))
        || (s[0] == ' ' && ((s[1] == 'o' && s[2] == 'n') || (s[1] == 'f' && s[2] == 'e'))))
  }

  /** Fixed text that no phrase can run out of. */
  predicate Closes(s: string) {
    var k := |s| - 1;
    && k >= 3 && s[k] == ' '
    && (|| s[k - 1] == 'h'
        || (s[k - 1] == 't' && s[k - 2] == 'i')
        || (s[k - 1] == 'e' && s[k - 2] == 't')
        || (s[k - 1] == 'n' && s[k - 2] == 'u')
        || (s[k - 1] == 'd' && s[k - 2] == 'e' && s[k - 3] == 'n'))
  }

  lemma NothingRunsIn(a: string, s: string, rest: string, n: string, k: nat)
    requires n in NEEDLES && Crosses(a, s + rest, n, k)
    ensures !Opens(s)
  {
    NeedlesAreShaped(n, k);
    if |s| >= 3 {
      var tail := n[k..];
      assert tail[0] == n[k] == s[0];
      assert |tail| > 1 ==> tail[1] == n[k + 1] == s[1];
      assert |tail| > 2 ==> tail[2] == n[k + 2] == s[2];
    }
  }

  lemma NothingRunsOut(s: string, b: string, n: string, k: nat)
    requires n in NEEDLES && Crosses(s, b, n, k)
    ensures !Closes(s)
  {
    NeedlesAreShaped(n, k - 1);
    var head := n[..k];
    assert head == s[|s| - k..];
    assert head[k - 1] == n[k - 1] == s[|s| - 1];
    assert k > 1 ==> head[k - 2] == n[k - 2] == s[|s| - 2];
    assert k > 2 ==> head[k - 3] == n[k - 3] == s[|s| - 3];
    assert k > 3 ==> head[k - 4] == n[k - 4] == s[|s| - 4];
  }

  /** Such ends are in lower case. */
  lemma EndsAreLowered(s: string)
    ensures Opens(s) ==> Opens(Lower(s))
    ensures Closes(s) ==> Closes(Lower(s))
  {
    LowerLength(s);
    forall i: nat | i < |s|
      ensures Lower(s)[i] == LowerChar(s[i])
    {
      LowerAt(s, i);
    }
  }

  lemma PlainIsSilent(fixed: string)
    requires Plain(fixed)
    ensures !HasNeedle(fixed)
  {
    if n :| n in NEEDLES && Contains(Lower(fixed), n) {
      PlainHasNoNeedle(fixed, n);
    }
  }

  lemma AfterFixed(fixed: string, x: string)
    requires Plain(fixed) && Closes(fixed)
    ensures HasNeedle(fixed + x) <==> HasNeedle(x)
  {
    LowerAppends(fixed, x);
    EndsAreLowered(fixed);
    forall n | n in NEEDLES
      ensures Contains(Lower(fixed + x), n) <==> Contains(Lower(x), n)
    {
      PlainHasNoNeedle(fixed, n);
      ContainsInJoin(Lower(fixed), Lower(x), n);
      if CrossesSomewhere(Lower(fixed), Lower(x), n) {
        var k: nat :| Crosses(Lower(fixed), Lower(x), n, k);
        NothingRunsOut(Lower(fixed), Lower(x), n, k);
      }
    }
  }

  lemma BeforeFixed(x: string, fixed: string, rest: string)
    requires Opens(fixed)
    ensures HasNeedle(x + (fixed + rest)) <==> HasNeedle(x) || HasNeedle(fixed + rest)
  {
    LowerAppends(x, fixed + rest);
    LowerAppends(fixed, rest);
    EndsAreLowered(fixed);
    forall n | n in NEEDLES
      ensures Contains(Lower(x + (fixed + rest)), n) <==> Contains(Lower(x), n) || Contains(Lower(fixed + rest), n)
    {
      ContainsInJoin(Lower(x), Lower(fixed + rest), n);
      if CrossesSomewhere(Lower(x), Lower(fixed + rest), n) {
        var k: nat :| Crosses(Lower(x), Lower(fixed + rest), n, k);
        NothingRunsIn(Lower(x), Lower(fixed), Lower(rest), n, k);
      }
    }
  }

  lemma BeforeLastFixed(x: string, fixed: string)
    requires Opens(fixed) && Plain(fixed)
    ensures HasNeedle(x + fixed) <==> HasNeedle(x)
  {
    assert fixed + "" == fixed;
    BeforeFixed(x, fixed, "");
    PlainIsSilent(fixed);
  }

  /** Between such parts an inserted text alone decides. */
  lemma Between(first: string, x: string, last: string)
    requires Bare(first) && Closes(first) && Bare(last) && Opens(last)
    ensures HasNeedle(first + x + last) <==> HasNeedle(x)
  {
    BareIsPlain(first);
    BareIsPlain(last);
    assert first + x + last == first + (x + last);
    AfterFixed(first, x + last);
    BeforeLastFixed(x, last);
  }

  /** A part between two inserted texts lets each of them decide. */
  lemma Among(x: string, middle: string, rest: string)
    requires Bare(middle) && Opens(middle) && Closes(middle)
    ensures HasNeedle(x + (middle + rest)) <==> HasNeedle(x) || HasNeedle(rest)
  {
    BareIsPlain(middle);
    BeforeFixed(x, middle, rest);
    AfterFixed(middle, rest);
  }

  // Hashes

  predicate Hex(s: string) {
    forall i | 0 <= i < |s| :: '0' <= s[i] <= '9' || 'a' <= s[i] <= 'f'
  }

  /** The phrases other than the two codes have a blank, so a hash has none of them. */
  lemma HashHasPhraseExactly(hash: string)
    requires Hex(hash)
    ensures HasNeedle(hash) <==> Contains(hash, "502") || Contains(hash, "503")
  {
    HexIsLower(hash);
    BlankNeedles();
    forall n | n in NEEDLES && Contains(hash, n)
      ensures ' ' !in n
    {
      PartsOfHashes(hash, n);
    }
    assert NEEDLES[10] == "502" && NEEDLES[11] == "503";
  }

  lemma PartsOfHashes(hash: string, n: string)
    requires Hex(hash) && Contains(hash, n)
    ensures ' ' !in n
  {
    var i :| 0 <= i <= |hash| && n <= hash[i..];
    forall k | 0 <= k < |n|
      ensures n[k] != ' '
    {
      assert n[k] == hash[i..][k] == hash[i + k];
    }
  }

  lemma HexIsLower(hash: string)
    requires Hex(hash)
    ensures Lower(hash) == hash
  {
    LowerLength(hash);
    forall i: nat | i < |hash|
      ensures Lower(hash)[i] == hash[i]
    {
      LowerAt(hash, i);
    }
  }

  lemma BlankNeedles()
    ensures forall n | n in NEEDLES :: ' ' in n || n == "502" || n == "503"
  {
    var blanks := [5, 10, 10, 9, 6, 6, 3, 4, 6, 6, 0, 0, 9];
    forall at: nat | at < |NEEDLES|
      ensures ' ' in NEEDLES[at] || NEEDLES[at] == "502" || NEEDLES[at] == "503"
    {
      assert NEEDLES[at][blanks[at]] == ' ' || at == 10 || at == 11;
    }
  }
}
