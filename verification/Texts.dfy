/** Texts that are searched without regard to case. */
module Texts {
  /** `to_ascii_lowercase`. */
  function Lower(s: string): string {
    if s == "" then "" else [LowerChar(s[0])] + Lower(s[1..])
  }

  function LowerChar(c: char): char {
    if 'A' <= c <= 'Z' then c + ' ' else c
  }

  predicate Contains(s: string, part: string) {
    exists i | 0 <= i <= |s| :: part <= s[i..]
  }

  lemma {:induction false} LowerAppends(a: string, b: string)
    ensures Lower(a + b) == Lower(a) + Lower(b)
  {
    if a == "" {
      assert a + b == b && Lower(a) + Lower(b) == Lower(b);
    } else {
      assert (a + b)[0] == a[0] && (a + b)[1..] == a[1..] + b;
      LowerAppends(a[1..], b);
      assert [LowerChar(a[0])] + (Lower(a[1..]) + Lower(b)) == ([LowerChar(a[0])] + Lower(a[1..])) + Lower(b);
    }
  }

  lemma {:induction false} LowerAt(s: string, i: nat)
    requires i < |s|
    ensures |Lower(s)| == |s| && Lower(s)[i] == LowerChar(s[i])
  {
    LowerLength(s);
    if i > 0 {
      LowerAt(s[1..], i - 1);
    }
  }

  lemma {:induction false} LowerLength(s: string)
    ensures |Lower(s)| == |s|
  {
    if s == "" {
    } else {
      LowerLength(s[1..]);
    }
  }

  /** The part begins in the first text and ends in the second. */
  predicate Crosses(a: string, b: string, part: string, k: nat) {
    && 0 < k < |part| && k <= |a|
    && a[|a| - k..] == part[..k]
    && part[k..] <= b
  }

  ghost predicate CrossesSomewhere(a: string, b: string, part: string) {
    exists k: nat :: Crosses(a, b, part, k)
  }

  /** A part of two joined texts lies in one of them or crosses from the first into the second. */
  lemma ContainsInJoin(a: string, b: string, part: string)
    ensures Contains(a + b, part) <==> Contains(a, part) || Contains(b, part) || CrossesSomewhere(a, b, part)
  {
    var s := a + b;
    if i :| 0 <= i <= |s| && part <= s[i..] {
      assert s[i..i + |part|] == part;
      if i >= |a| {
        assert s[i..] == b[i - |a|..];
      } else if i + |part| <= |a| {
        assert a[i..][..|part|] == part;
      } else {
        var k := |a| - i;
        assert a[|a| - k..] == part[..k] by {
          assert s[i..i + |part|][..k] == a[i..];
        }
        assert b[..|part| - k] == part[k..] by {
          assert s[i..i + |part|][k..] == b[..|part| - k];
        }
        assert Crosses(a, b, part, k);
      }
    }
    JoinContains(a, b, part);
  }

  lemma JoinContains(a: string, b: string, part: string)
    ensures Contains(a, part) || Contains(b, part) || CrossesSomewhere(a, b, part) ==> Contains(a + b, part)
  {
    var s := a + b;
    if i :| 0 <= i <= |a| && part <= a[i..] {
      assert s[i..] == a[i..] + b;
    } else if i :| 0 <= i <= |b| && part <= b[i..] {
      assert s[|a| + i..] == b[i..];
    } else if k: nat :| Crosses(a, b, part, k) {
      assert s[|a| - k..] == part[..k] + b;
      assert part == part[..k] + part[k..];
      assert part <= s[|a| - k..];
    }
  }

  lemma LowerContains(a: string, part: string, b: string)
    requires Lower(part) == part
    ensures Contains(Lower(a + part + b), part)
  {
    LowerAppends(a + part, b);
    LowerAppends(a, part);
    assert Lower(a + part + b)[|Lower(a)|..] == part + Lower(b);
  }
}
