/** The identity of a cache entry: the bytes that are hashed to name its directory. SHA-256 is taken to be
    injective, so two entries share a directory exactly when these pre-images are equal. */
module CacheIdentity {
  newtype byte = x: int | 0 <= x < 256

  /** A UTF-8 string. No Rust string is longer than `isize::MAX` bytes. */
  type Text = s: seq<byte> | |s| < 0x8000_0000_0000_0000

  datatype Triple = Triple(namespace: Text, key: Text, version: Text)

  const NUL: seq<byte> := [0]

  /** The bytes of `preloop-cache-namespace-v1`. */
  const TAG: seq<byte> := [112, 114, 101, 108, 111, 111, 112, 45, 99, 97, 99, 104, 101, 45,
                           110, 97, 109, 101, 115, 112, 97, 99, 101, 45, 118, 49]

  // Big-endian lengths

  function Power256(width: nat): (p: nat)
    ensures p > 0
  {
    if width == 0 then 1 else 256 * Power256(width - 1)
  }

  function BigEndian(n: nat, width: nat): (s: seq<byte>)
    ensures |s| == width
  {
    if width == 0 then [] else BigEndian(n / 256, width - 1) + [(n % 256) as byte]
  }

  function Number(s: seq<byte>): nat {
    if s == [] then 0 else 256 * Number(s[..|s| - 1]) + s[|s| - 1] as nat
  }

  lemma {:induction false} NumberReadsBigEndian(n: nat, width: nat)
    requires n < Power256(width)
    ensures Number(BigEndian(n, width)) == n
  {
    if width == 0 {
    } else {
      NumberReadsBigEndian(n / 256, width - 1);
      var s := BigEndian(n, width);
      assert s[..|s| - 1] == BigEndian(n / 256, width - 1);
    }
  }

  lemma EightBytesSuffice()
    ensures Power256(8) == 0x1_0000_0000_0000_0000
  {
    assert Power256(4) == 0x1_0000_0000;
  }

  // The pre-images

  function Framed(component: Text): (s: seq<byte>)
    ensures |s| == 8 + |component|
  {
    BigEndian(|component|, 8) + component
  }

  function FramedTriple(t: Triple): seq<byte> {
    Framed(t.namespace) + Framed(t.key) + Framed(t.version)
  }

  /** `entry_id_scoped`, and `entry_id` for the empty namespace, before hashing. */
  function Preimage(t: Triple): seq<byte> {
    if t.namespace == [] then t.key + NUL + t.version
    else TAG + NUL + FramedTriple(t)
  }

  // Reading a framed component back

  datatype Parse = NoParse | Parsed(component: Text, rest: seq<byte>)

  function ReadFramed(s: seq<byte>): Parse {
    if |s| < 8 then NoParse
    else
      var length := Number(s[..8]);
      if length < 0x8000_0000_0000_0000 && 8 + length <= |s| then Parsed(s[8..8 + length], s[8 + length..])
      else NoParse
  }

  lemma ReadsBack(component: Text, rest: seq<byte>)
    ensures ReadFramed(Framed(component) + rest) == Parsed(component, rest)
  {
    var s := Framed(component) + rest;
    EightBytesSuffice();
    NumberReadsBigEndian(|component|, 8);
    assert s[..8] == BigEndian(|component|, 8);
    assert s[8..8 + |component|] == component;
    assert s[8 + |component|..] == rest;
  }

  lemma FramesPeel(a: Text, rest: seq<byte>, b: Text, others: seq<byte>)
    requires Framed(a) + rest == Framed(b) + others
    ensures a == b && rest == others
  {
    ReadsBack(a, rest);
    ReadsBack(b, others);
  }

  lemma Regroup(a: seq<byte>, b: seq<byte>, c: seq<byte>)
    ensures a + b + c == a + (b + (c + []))
  {
    assert c + [] == c && a + b + c == a + (b + c);
  }

  /** The three framed components can be told apart whatever they contain. */
  lemma FramedTripleIsInjective(a: Triple, b: Triple)
    requires FramedTriple(a) == FramedTriple(b)
    ensures a == b
  {
    Regroup(Framed(a.namespace), Framed(a.key), Framed(a.version));
    Regroup(Framed(b.namespace), Framed(b.key), Framed(b.version));
    FramesPeel(a.namespace, Framed(a.key) + (Framed(a.version) + []), b.namespace,
      Framed(b.key) + (Framed(b.version) + []));
    FramesPeel(a.key, Framed(a.version) + [], b.key, Framed(b.version) + []);
    FramesPeel(a.version, [], b.version, []);
  }

  // Splitting at a NUL byte

  lemma SplitsAtFirstNul(k: seq<byte>, v: seq<byte>, k': seq<byte>, v': seq<byte>)
    requires k + NUL + v == k' + NUL + v'
    requires |k| <= |k'|
    ensures k == k'[..|k|]
    ensures |k| == |k'| ==> v == v'
    ensures |k| < |k'| ==> k' == k + NUL + k'[|k| + 1..] && v == k'[|k| + 1..] + NUL + v'
  {
    var s := k + NUL + v;
    assert s[..|k|] == k && s[..|k'|] == k';
    assert s[|k|] == 0 && s[|k| + 1..] == v;
    if |k| < |k'| {
      assert k'[|k|] == s[|k|];
      assert v == s[|k| + 1..|k'|] + s[|k'|..];
      assert s[|k'|..] == NUL + v';
    }
  }

  /** Two entries without a namespace share a directory exactly when they are equal, or when one key
      continues the other across a NUL byte that the other version makes up for. */
  lemma UnscopedClashesExactly(a: Triple, b: Triple)
    requires a.namespace == [] && b.namespace == [] && |a.key| <= |b.key|
    ensures Preimage(a) == Preimage(b) <==>
      || a == b
      || exists middle: seq<byte> :: b.key == a.key + NUL + middle && a.version == middle + NUL + b.version
  {
    if Preimage(a) == Preimage(b) {
      SplitsAtFirstNul(a.key, a.version, b.key, b.version);
      if |a.key| < |b.key| {
        var middle := b.key[|a.key| + 1..];
        assert b.key == a.key + NUL + middle && a.version == middle + NUL + b.version;
      }
    }
    forall middle: seq<byte> | b.key == a.key + NUL + middle && a.version == middle + NUL + b.version
      ensures Preimage(a) == Preimage(b)
    {
      assert a.key + NUL + (middle + NUL + b.version) == (a.key + NUL + middle) + NUL + b.version;
    }
  }

  /** Two entries in named namespaces share a directory exactly when they are equal. */
  lemma ScopedClashesExactly(a: Triple, b: Triple)
    requires a.namespace != [] && b.namespace != []
    ensures Preimage(a) == Preimage(b) <==> a == b
  {
    if Preimage(a) == Preimage(b) {
      assert Preimage(a)[|TAG + NUL|..] == FramedTriple(a) && Preimage(b)[|TAG + NUL|..] == FramedTriple(b);
      FramedTripleIsInjective(a, b);
    }
  }

  /** An entry without a namespace shares a directory with a namespaced one exactly when its key is the tag and
      its version is the framed triple of the other, or its key goes on into that triple across a NUL byte. */
  lemma MixedClashesExactly(a: Triple, b: Triple)
    requires a.namespace == [] && b.namespace != []
    ensures Preimage(a) == Preimage(b) <==>
      || (a.key == TAG && a.version == FramedTriple(b))
      || exists middle: seq<byte> :: a.key == TAG + NUL + middle && FramedTriple(b) == middle + NUL + a.version
  {
    var framed := FramedTriple(b);
    assert 0 !in TAG;
    if Preimage(a) == Preimage(b) {
      if |a.key| <= |TAG| {
        SplitsAtFirstNul(a.key, a.version, TAG, framed);
      } else {
        SplitsAtFirstNul(TAG, framed, a.key, a.version);
        assert a.key == TAG + NUL + a.key[|TAG| + 1..] && framed == a.key[|TAG| + 1..] + NUL + a.version;
      }
    }
    forall middle: seq<byte> | a.key == TAG + NUL + middle && framed == middle + NUL + a.version
      ensures Preimage(a) == Preimage(b)
    {
      assert (TAG + NUL + middle) + NUL + a.version == TAG + NUL + (middle + NUL + a.version);
    }
  }

  /** What a caller can check so that an entry's directory is its own. */
  predicate Plain(t: Triple) {
    t.namespace == [] ==> 0 !in t.key && t.key != TAG
  }

  lemma PlainIsNotFramed(a: Triple, b: Triple)
    requires Plain(a) && a.namespace == [] && b.namespace != []
    ensures Preimage(a) != Preimage(b)
  {
    MixedClashesExactly(a, b);
    forall middle: seq<byte>
      ensures 0 in TAG + NUL + middle
    {
      assert (TAG + NUL + middle)[|TAG|] == 0;
    }
  }

  /** The identity is injective on plain triples. */
  lemma PlainTriplesDoNotClash(a: Triple, b: Triple)
    requires Plain(a) && Plain(b)
    ensures Preimage(a) == Preimage(b) <==> a == b
  {
    if a.namespace == [] && b.namespace == [] {
      if |a.key| <= |b.key| {
        UnscopedClashesExactly(a, b);
      } else {
        UnscopedClashesExactly(b, a);
      }
    } else if a.namespace != [] && b.namespace != [] {
      ScopedClashesExactly(a, b);
    } else if a.namespace == [] {
      PlainIsNotFramed(a, b);
    } else {
      PlainIsNotFramed(b, a);
    }
  }

  /** Entries that share a directory differ in more than their namespace. */
  lemma ClashesChangeKeyOrVersion(a: Triple, b: Triple)
    requires Preimage(a) == Preimage(b) && a.key == b.key && a.version == b.version
    ensures a == b
  {
    if a.namespace != [] && b.namespace != [] {
      ScopedClashesExactly(a, b);
    } else {
      assert |Preimage(a)| == |Preimage(b)|;
    }
  }

  /** Neither half of `Plain` can be dropped: a key with a NUL clashes with a shorter key, and the tag as
      an unscoped key clashes with any namespaced entry whose framed triple is given as the version. */
  lemma PlainIsNeeded(t: Triple)
    requires t.namespace != [] && |FramedTriple(t)| < 0x8000_0000_0000_0000
    ensures Preimage(Triple([], [97], [98, 0, 99])) == Preimage(Triple([], [97, 0, 98], [99]))
    ensures Preimage(Triple([], TAG, FramedTriple(t))) == Preimage(t)
  {
    assert [97 as byte] + NUL + [98, 0, 99] == [97, 0, 98] + NUL + [99];
  }
}
