/** `Block.calculateMerkleRoot`: pairwise reduction of an ordered list of hashes. */
module Merkle {
  import opened Primitives

  /** The right-hand partner of `level[j]`: its successor, or itself when `level[j]` is last. */
  function Partner(level: seq<string>, j: nat): string
    requires j < |level|
  {
    if j + 1 < |level| then level[j + 1] else level[j]
  }

  /** One pass of the inner loop: `(l[0], l[1]), (l[2], l[3]), ...`, an odd last
      element paired with itself. */
  function NextLevel(c: Crypto, level: seq<string>): (next: seq<string>)
    ensures |next| == (|level| + 1) / 2
    decreases |level|
  {
    if |level| == 0 then []
    else if |level| == 1 then [c.sha256(level[0] + level[0])]
    else [c.sha256(level[0] + level[1])] + NextLevel(c, level[2..])
  }

  /** Entry `i` of the next level hashes `level[2i]` with its partner. */
  lemma {:induction false} NextLevelEntries(c: Crypto, level: seq<string>)
    ensures forall i :: 0 <= i < |NextLevel(c, level)| ==>
              2 * i < |level| && NextLevel(c, level)[i] == c.sha256(level[2 * i] + Partner(level, 2 * i))
    decreases |level|
  {
    if |level| >= 2 {
      var next := NextLevel(c, level);
      var rest := NextLevel(c, level[2..]);
      NextLevelEntries(c, level[2..]);
      forall i | 1 <= i < |next|
        ensures 2 * i < |level| && next[i] == c.sha256(level[2 * i] + Partner(level, 2 * i))
      {
        var j := i - 1;
        assert next[i] == rest[j];
        assert level[2..][2 * j] == level[2 * i];
        assert Partner(level[2..], 2 * j) == Partner(level, 2 * i);
      }
    }
  }

  /** The outer loop: reduce until one hash remains. */
  function Reduce(c: Crypto, level: seq<string>): string
    requires |level| >= 1
    decreases |level|
  {
    if |level| == 1 then level[0] else Reduce(c, NextLevel(c, level))
  }

  /** The root of an ordered list of transaction hashes; `""` for no transactions. */
  function MerkleRoot(c: Crypto, hashes: seq<string>): string
  {
    if |hashes| == 0 then "" else Reduce(c, hashes)
  }

  /** A level of more than one hash strictly shrinks, so the reduction terminates. */
  lemma NextLevelShrinks(c: Crypto, level: seq<string>)
    requires |level| > 1
    ensures 1 <= |NextLevel(c, level)| < |level|
  {
  }

  /** The cases the source and its design spell out. */
  lemma SmallRoots(c: Crypto, h1: string, h2: string, h3: string)
    ensures MerkleRoot(c, []) == ""
    ensures MerkleRoot(c, [h1]) == h1
    ensures MerkleRoot(c, [h1, h2]) == c.sha256(h1 + h2)
    ensures MerkleRoot(c, [h1, h2, h3]) == c.sha256(c.sha256(h1 + h2) + c.sha256(h3 + h3))
  {
    var l2 := NextLevel(c, [h1, h2]);
    assert [h1, h2][2..] == [];
    assert l2 == [c.sha256(h1 + h2)];
    assert Reduce(c, [h1, h2]) == Reduce(c, l2);
    var l3 := NextLevel(c, [h1, h2, h3]);
    assert [h1, h2, h3][2..] == [h3];
    assert NextLevel(c, [h3]) == [c.sha256(h3 + h3)];
    assert l3 == [c.sha256(h1 + h2), c.sha256(h3 + h3)];
    var l4 := NextLevel(c, l3);
    assert l3[2..] == [];
    assert l4 == [c.sha256(l3[0] + l3[1])];
    assert Reduce(c, [h1, h2, h3]) == Reduce(c, l3) == Reduce(c, l4);
  }

  /** Appending a copy of the last hash to an odd-length level leaves the next
      level unchanged: the self-pairing rule makes the two lists indistinguishable. */
  lemma {:induction false} DuplicateLastSameLevel(c: Crypto, level: seq<string>)
    requires |level| % 2 == 1
    ensures NextLevel(c, level + [level[|level| - 1]]) == NextLevel(c, level)
  {
    var dup := level + [level[|level| - 1]];
    var a := NextLevel(c, dup);
    var b := NextLevel(c, level);
    NextLevelEntries(c, dup);
    NextLevelEntries(c, level);
    assert |a| == |b|;
    forall i | 0 <= i < |a|
      ensures a[i] == b[i]
    {
      assert dup[2 * i] == level[2 * i];
      assert Partner(dup, 2 * i) == Partner(level, 2 * i);
    }
  }

  /** Hence a block whose transaction list has odd length at least three commits
      to the same root as that list with its last transaction repeated. */
  lemma DuplicateLastSameRoot(c: Crypto, hashes: seq<string>)
    requires |hashes| % 2 == 1 && |hashes| >= 3
    ensures MerkleRoot(c, hashes + [hashes[|hashes| - 1]]) == MerkleRoot(c, hashes)
  {
    DuplicateLastSameLevel(c, hashes);
  }

  /** The source's inner loop: one level, pair by pair. */
  method PairUp(c: Crypto, level: seq<string>) returns (next: seq<string>)
    ensures next == NextLevel(c, level)
  {
    ghost var target := NextLevel(c, level);
    NextLevelEntries(c, level);
    next := [];
    var i := 0;
    ghost var k := 0;
    while i < |level|
      invariant i == 2 * k
      invariant 0 <= k <= |target|
      invariant next == target[..k]
      decreases |level| - i
    {
      var left := level[i];
      var right := if i + 1 < |level| then level[i + 1] else left;
      assert right == Partner(level, i);
      next := next + [c.sha256(left + right)];
      i := i + 2;
      k := k + 1;
    }
  }

  /** The source's outer loop, level by level. */
  method CalculateMerkleRoot(c: Crypto, hashes: seq<string>) returns (root: string)
    ensures root == MerkleRoot(c, hashes)
    ensures |hashes| == 1 ==> root == hashes[0]
  {
    if |hashes| == 0 {
      return "";
    }
    var level := hashes;
    while |level| > 1
      invariant |level| >= 1
      invariant Reduce(c, level) == Reduce(c, hashes)
      decreases |level|
    {
      level := PairUp(c, level);
    }
    root := level[0];
  }
}
