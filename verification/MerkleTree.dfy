/** The Merkle tree over one-time keys: building it, authentication paths, and recomputing the root. */
module MerkleTree {

  /** A digest function on text; `IsHash` fixes what the source relies on, the 64 characters of its output. */
  type Digest = string -> string

  const DIGEST_LENGTH := 64

  ghost predicate IsHash(sha: Digest)
  {
    forall x :: |sha(x)| == DIGEST_LENGTH
  }

  predicate Collides(sha: Digest, a: string, b: string)
  {
    a != b && sha(a) == sha(b)
  }

  function ParentText(left: string, right: string): string { "node:" + left + ":" + right }

  function Parent(sha: Digest, left: string, right: string): string { sha(ParentText(left, right)) }

  predicate IsPowerOfTwo(n: nat)
  {
    n == 1 || (n > 0 && n % 2 == 0 && IsPowerOfTwo(n / 2))
  }

  function Log2(n: nat): nat
    requires IsPowerOfTwo(n)
  {
    if n == 1 then 0 else 1 + Log2(n / 2)
  }

  function Above(sha: Digest, level: seq<string>): (up: seq<string>)
    requires |level| % 2 == 0
    ensures |up| == |level| / 2
  {
    seq(|level| / 2, j requires 0 <= j < |level| / 2 => Parent(sha, level[2 * j], level[2 * j + 1]))
  }

  function Root(sha: Digest, level: seq<string>): string
    requires IsPowerOfTwo(|level|)
    decreases |level|
  {
    if |level| == 1 then level[0] else Root(sha, Above(sha, level))
  }

  function Sibling(i: nat): nat
  {
    if i % 2 == 0 then i + 1 else i - 1
  }

  function AuthPath(sha: Digest, level: seq<string>, i: nat): seq<string>
    requires IsPowerOfTwo(|level|) && i < |level|
    decreases |level|
  {
    if |level| == 1 then [] else [level[Sibling(i)]] + AuthPath(sha, Above(sha, level), i / 2)
  }

  function StepText(current: string, index: nat, sibling: string): string
  {
    if index % 2 == 0 then ParentText(current, sibling) else ParentText(sibling, current)
  }

  function RootFromPath(sha: Digest, leaf: string, index: nat, path: seq<string>): string
    decreases |path|
  {
    if path == [] then leaf
    else RootFromPath(sha, sha(StepText(leaf, index, path[0])), index / 2, path[1..])
  }

  /** The levels of a tree, leaves first. */
  ghost predicate AreLevels(sha: Digest, leaves: seq<string>, levels: seq<seq<string>>)
  {
    && levels != [] && levels[0] == leaves
    && (forall k | 0 <= k < |levels| :: IsPowerOfTwo(|levels[k]|))
    && forall k | 0 <= k < |levels| - 1 :: |levels[k]| > 1 && levels[k + 1] == Above(sha, levels[k])
  }

  method PairUp(sha: Digest, level: seq<string>) returns (next: seq<string>)
    requires |level| % 2 == 0
    ensures next == Above(sha, level)
  {
    next := [];
    for position := 0 to |level| / 2
      invariant |next| == position
      invariant forall j | 0 <= j < position :: next[j] == Parent(sha, level[2 * j], level[2 * j + 1])
    {
      next := next + [Parent(sha, level[2 * position], level[2 * position + 1])];
    }
  }

  lemma LevelsGrow(sha: Digest, leaves: seq<string>, levels: seq<seq<string>>)
    requires AreLevels(sha, leaves, levels)
    ensures var last := levels[|levels| - 1];
            IsPowerOfTwo(|last|) && (|last| > 1 ==>
              && |last| % 2 == 0
              && AreLevels(sha, leaves, levels + [Above(sha, last)])
              && IsPowerOfTwo(|Above(sha, last)|) && |Above(sha, last)| < |last|
              && Root(sha, Above(sha, last)) == Root(sha, last))
  {
    hide Parent;
  }

  method BuildLevels(sha: Digest, leaves: seq<string>) returns (levels: seq<seq<string>>)
    requires IsPowerOfTwo(|leaves|)
    ensures AreLevels(sha, leaves, levels)
    ensures levels != [] && levels[|levels| - 1] == [Root(sha, leaves)]
  {
    levels := [leaves];
    var current := leaves;
    while |current| > 1
      invariant AreLevels(sha, leaves, levels) && levels[|levels| - 1] == current
      invariant IsPowerOfTwo(|current|) && Root(sha, current) == Root(sha, leaves)
      decreases |current|
    {
      hide Parent, Root, IsPowerOfTwo, AreLevels;
      LevelsGrow(sha, leaves, levels);
      current := PairUp(sha, current);
      levels := levels + [current];
    }
  }

  lemma PathStep(sha: Digest, leaves: seq<string>, levels: seq<seq<string>>, k: nat, i: nat)
    requires AreLevels(sha, leaves, levels) && k < |levels| - 1 && i < |levels[k]|
    ensures IsPowerOfTwo(|levels[k]|) && IsPowerOfTwo(|levels[k + 1]|)
    ensures Sibling(i) < |levels[k]| && i / 2 < |levels[k + 1]|
    ensures AuthPath(sha, levels[k], i) == [levels[k][Sibling(i)]] + AuthPath(sha, levels[k + 1], i / 2)
  {
    hide Parent;
    assert levels[k + 1] == Above(sha, levels[k]);
  }

  /** Reads one leaf's path off the levels. */
  method ReadPath(sha: Digest, leaves: seq<string>, levels: seq<seq<string>>, leaf: nat) returns (path: seq<string>)
    requires AreLevels(sha, leaves, levels) && |levels[|levels| - 1]| == 1 && leaf < |leaves|
    ensures path == AuthPath(sha, leaves, leaf)
  {
    path := [];
    var current := leaf;
    for k := 0 to |levels| - 1
      invariant 0 <= current < |levels[k]| && IsPowerOfTwo(|levels[k]|)
      invariant path + AuthPath(sha, levels[k], current) == AuthPath(sha, leaves, leaf)
    {
      hide AuthPath, IsPowerOfTwo, AreLevels, Sibling;
      PathStep(sha, leaves, levels, k, current);
      path := path + [levels[k][Sibling(current)]];
      current := current / 2;
    }
  }

  /** Builds all levels bottom-up, then reads every leaf's path off them. */
  method BuildTree(sha: Digest, leaves: seq<string>) returns (root: string, paths: seq<seq<string>>)
    requires IsPowerOfTwo(|leaves|)
    ensures root == Root(sha, leaves)
    ensures |paths| == |leaves| && forall i | 0 <= i < |leaves| :: paths[i] == AuthPath(sha, leaves, i)
  {
    hide AuthPath, AreLevels, IsPowerOfTwo, Root;
    var levels := BuildLevels(sha, leaves);
    paths := [];
    for leaf := 0 to |leaves|
      invariant |paths| == leaf
      invariant forall i | 0 <= i < leaf :: paths[i] == AuthPath(sha, leaves, i)
    {
      var path := ReadPath(sha, leaves, levels, leaf);
      paths := paths + [path];
    }
    root := levels[|levels| - 1][0];
  }

  method RecomputeRoot(sha: Digest, leaf: string, leafIndex: nat, path: seq<string>) returns (current: string)
    ensures current == RootFromPath(sha, leaf, leafIndex, path)
  {
    current := leaf;
    var index := leafIndex;
    for k := 0 to |path|
      invariant RootFromPath(sha, current, index, path[k..]) == RootFromPath(sha, leaf, leafIndex, path)
    {
      current := sha(StepText(current, index, path[k]));
      index := index / 2;
    }
  }

  lemma AboveConcat(sha: Digest, a: seq<string>, b: seq<string>)
    requires |a| % 2 == 0 && |b| % 2 == 0
    ensures |a + b| % 2 == 0 && Above(sha, a + b) == Above(sha, a) + Above(sha, b)
  {
    hide Parent;
    var up := Above(sha, a) + Above(sha, b);
    forall j | 0 <= j < |up| ensures Above(sha, a + b)[j] == up[j] {
      if j < |a| / 2 {
        assert (a + b)[2 * j] == a[2 * j];
      } else {
        assert (a + b)[2 * j] == b[2 * j - |a|];
      }
    }
    assert Above(sha, a + b) == up;
  }

  /** Read from the top: one leaf is its own root, and the root over two equal halves hashes their roots. */
  lemma {:induction false} RootOfHalves(sha: Digest, a: seq<string>, b: seq<string>)
    requires IsPowerOfTwo(|a|) && |a| == |b|
    ensures IsPowerOfTwo(|a + b|)
    ensures Root(sha, a + b) == sha("node:" + Root(sha, a) + ":" + Root(sha, b))
    ensures |a| == 1 ==> Root(sha, a) == a[0]
    decreases |a|
  {
    hide Parent;
    assert |a + b| / 2 == |a|;
    if |a| > 1 {
      AboveConcat(sha, a, b);
      RootOfHalves(sha, Above(sha, a), Above(sha, b));
    } else {
      assert Above(sha, a + b) == [Parent(sha, a[0], b[0])];
      ParentReads(sha, a[0], b[0]);
    }
  }

  lemma ParentReads(sha: Digest, left: string, right: string)
    ensures Parent(sha, left, right) == sha("node:" + left + ":" + right)
  {
  }

  /** Hashing a node with its sibling gives the node above. */
  lemma StepGivesParent(sha: Digest, level: seq<string>, i: nat)
    requires |level| % 2 == 0 && i < |level|
    ensures Sibling(i) < |level| && i / 2 < |Above(sha, level)|
    ensures sha(StepText(level[i], i, level[Sibling(i)])) == Above(sha, level)[i / 2]
  {
    hide ParentText;
    assert 2 * (i / 2) == if i % 2 == 0 then i else i - 1;
  }

  /** Completeness: every leaf's path has the height of the tree and recomputes its root. */
  lemma {:induction false} PathRecomputesRoot(sha: Digest, level: seq<string>, i: nat)
    requires IsPowerOfTwo(|level|) && i < |level|
    ensures |AuthPath(sha, level, i)| == Log2(|level|)
    ensures RootFromPath(sha, level[i], i, AuthPath(sha, level, i)) == Root(sha, level)
    decreases |level|
  {
    hide Above, StepText, Sibling;
    if |level| > 1 {
      var rest := AuthPath(sha, Above(sha, level), i / 2);
      StepGivesParent(sha, level, i);
      PathRecomputesRoot(sha, Above(sha, level), i / 2);
      var path := AuthPath(sha, level, i);
      assert path == [level[Sibling(i)]] + rest;
      assert path[0] == level[Sibling(i)] && path[1..] == rest;
    }
  }

  /** One step of the walk determines the running digest and the sibling, though siblings are free text. */
  lemma StepTextInjective(c1: string, s1: string, c2: string, s2: string, index: nat)
    requires |c1| == |c2|
    requires StepText(c1, index, s1) == StepText(c2, index, s2)
    ensures c1 == c2 && s1 == s2
  {
    var t1, t2 := StepText(c1, index, s1), StepText(c2, index, s2);
    assert |"node:"| == 5;
    if index % 2 == 0 {
      assert c1 == t1[5..5 + |c1|] == t2[5..5 + |c2|] == c2;
      assert s1 == t1[5 + |c1| + 1..] == t2[5 + |c2| + 1..] == s2;
    } else {
      assert s1 == t1[5..5 + |s1|] == t2[5..5 + |s2|] == s2;
      assert c1 == t1[5 + |s1| + 1..] == t2[5 + |s2| + 1..] == c2;
    }
  }

  /** The text hashed at step `k` of the walk from a leaf along its path. */
  function WalkText(sha: Digest, leaf: string, index: nat, path: seq<string>, k: nat): string
    requires k < |path|
    decreases k
  {
    var text := StepText(leaf, index, path[0]);
    if k == 0 then text else WalkText(sha, sha(text), index / 2, path[1..], k - 1)
  }

  /** Some step of the two walks hashes different texts to the same digest. */
  predicate WalksCollide(sha: Digest, leaf1: string, path1: seq<string>, leaf2: string, path2: seq<string>, index: nat)
    requires |path1| == |path2|
  {
    exists k | 0 <= k < |path1| ::
      Collides(sha, WalkText(sha, leaf1, index, path1, k), WalkText(sha, leaf2, index, path2, k))
  }

  /** Binding: two different (leaf, path) pairs of one length accepted at one index against one root hash, at one and
      the same step of their walks, two different texts to one digest. */
  lemma {:induction false} DifferentPathsCollide(
      sha: Digest, leaf1: string, path1: seq<string>, leaf2: string, path2: seq<string>, index: nat)
    requires IsHash(sha) && |leaf1| == |leaf2| && |path1| == |path2|
    requires leaf1 != leaf2 || path1 != path2
    requires RootFromPath(sha, leaf1, index, path1) == RootFromPath(sha, leaf2, index, path2)
    ensures WalksCollide(sha, leaf1, path1, leaf2, path2, index)
    decreases |path1|
  {
    hide StepText;
    var a, b := StepText(leaf1, index, path1[0]), StepText(leaf2, index, path2[0]);
    assert WalkText(sha, leaf1, index, path1, 0) == a && WalkText(sha, leaf2, index, path2, 0) == b;
    if !Collides(sha, a, b) {
      if a == b {
        StepTextInjective(leaf1, path1[0], leaf2, path2[0], index);
        assert path1 == [path1[0]] + path1[1..] && path2 == [path2[0]] + path2[1..];
      }
      DifferentPathsCollide(sha, sha(a), path1[1..], sha(b), path2[1..], index / 2);
      var j :| 0 <= j < |path1| - 1
        && Collides(sha, WalkText(sha, sha(a), index / 2, path1[1..], j),
                    WalkText(sha, sha(b), index / 2, path2[1..], j));
      assert WalkText(sha, leaf1, index, path1, j + 1) == WalkText(sha, sha(a), index / 2, path1[1..], j);
      assert WalkText(sha, leaf2, index, path2, j + 1) == WalkText(sha, sha(b), index / 2, path2[1..], j);
    }
  }
}
