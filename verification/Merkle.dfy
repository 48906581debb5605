/**
  The step-commitment tree of verified mode: RFC 9162 sections 2.1.1 (tree), 2.1.3.1 (audit path) and 2.1.3.2 (check).

  Hashes are a free datatype, so a digest determines what was hashed. `Bytes` is any other byte string a peer may send.
 */
module Merkle {
  import opened Bits
  import opened Digits
  import opened Wrappers

  datatype Digest<L> =
    | Bytes(raw: bytes)
    | LeafHash(salt: bytes, leaf: L)
    | NodeHash(left: Digest<L>, right: Digest<L>)
  {
    function Len(): nat {
      if Bytes? then |raw| else 32
    }
  }

  predicate AllHashes<L>(hashes: seq<Digest<L>>) {
    forall i :: 0 <= i < |hashes| ==> hashes[i].Len() == 32
  }

  /** The largest power of two below n. */
  function Split(n: nat): (k: nat)
    requires n >= 2
    ensures 0 < k < n
  {
    BitLengthBounds(n - 1);
    Pow2(BitLength(n - 1) - 1)
  }

  function Root<L>(hashes: seq<Digest<L>>): Digest<L>
    requires |hashes| > 0
    decreases |hashes|
  {
    if |hashes| == 1 then hashes[0]
    else
      var k := Split(|hashes|);
      NodeHash(Root(hashes[..k]), Root(hashes[k..]))
  }

  datatype MerkleError = EmptyTree | IndexOutOfRange

  function MerkleRoot<L>(hashes: seq<Digest<L>>): Result<Digest<L>, MerkleError> {
    if |hashes| == 0 then Failure(EmptyTree) else Success(Root(hashes))
  }

  function Path<L>(hashes: seq<Digest<L>>, index: nat): seq<Digest<L>>
    requires index < |hashes|
    decreases |hashes|
  {
    if |hashes| == 1 then []
    else
      var k := Split(|hashes|);
      if index < k then Path(hashes[..k], index) + [Root(hashes[k..])]
      else Path(hashes[k..], index - k) + [Root(hashes[..k])]
  }

  function InclusionProof<L>(hashes: seq<Digest<L>>, index: int): Result<seq<Digest<L>>, MerkleError> {
    if !(0 <= index < |hashes|) then Failure(IndexOutOfRange) else Success(Path(hashes, index))
  }

  /** The tree over a power of two of leaves and at most as many more: its root hashes both sides' roots, left first, and a
      leaf's path ends with the other side's root. */
  lemma TreeIs<L>(left: seq<Digest<L>>, right: seq<Digest<L>>, k: nat, i: nat, h: Digest<L>)
    requires 0 < |right| <= |left| == Pow2(k)
    ensures MerkleRoot([h]) == Success(h) && Path([h], 0) == []
    ensures MerkleRoot(left + right) == Success(NodeHash(MerkleRoot(left).value, MerkleRoot(right).value))
    ensures i < |left| ==> Path(left + right, i) == Path(left, i) + [MerkleRoot(right).value]
    ensures i < |right| ==> Path(left + right, |left| + i) == Path(right, i) + [MerkleRoot(left).value]
  {
    var all := left + right;
    assert Split(|all|) == |left| by {
      BitLengthUnique(|all| - 1, k);
    }
    assert all[..|left|] == left && all[|left|..] == right;
  }

  // ------------------------------------------------------------ the check, as a recursion over the tree

  /** The digest of a node from the one its path leads to below and its sibling; None when either is malformed. */
  function Attach<L>(below: Option<Digest<L>>, sibling: Digest<L>, fromLeft: bool): Option<Digest<L>> {
    if below.None? || sibling.Len() != 32 then None
    else if fromLeft then Some(NodeHash(below.value, sibling))
    else Some(NodeHash(sibling, below.value))
  }

  /** The root a path leads to, following the shape of the tree from the top; None when the path does not fit it. */
  function Rebuild<L>(leaf: Digest<L>, index: nat, size: nat, proof: seq<Digest<L>>): Option<Digest<L>>
    requires index < size
    decreases size
  {
    if size == 1 then (if proof == [] then Some(leaf) else None)
    else if proof == [] then None
    else
      var k := Split(size);
      var rest := proof[..|proof| - 1];
      if index < k then Attach(Rebuild(leaf, index, k, rest), Last(proof), true)
      else Attach(Rebuild(leaf, index - k, size - k, rest), Last(proof), false)
  }

  function Last<T>(s: seq<T>): T
    requires |s| > 0
  {
    s[|s| - 1]
  }

  /** What it means for a path to place `leaf` at `index` of a `size`-leaf tree under `root`. */
  predicate Authenticates<L(==)>(root: Digest<L>, leaf: Digest<L>, index: int, size: int, proof: seq<Digest<L>>) {
    0 <= index < size && Rebuild(leaf, index, size, proof) == Some(root)
  }

  /** A path checks against a tree's own root exactly when the leaf is the committed one and the path is the audit path:
      completeness, soundness, and refusal of every longer, shorter or different path. */
  lemma {:induction false} RebuildIsExact<L>(hashes: seq<Digest<L>>, leaf: Digest<L>, index: nat, proof: seq<Digest<L>>)
    requires index < |hashes|
    requires AllHashes(hashes)
    ensures Rebuild(leaf, index, |hashes|, proof) == Some(Root(hashes))
            <==> leaf == hashes[index] && proof == Path(hashes, index)
    decreases |hashes|
  {
    if |hashes| > 1 && proof != [] {
      var k := Split(|hashes|);
      var (rest, top) := (proof[..|proof| - 1], Last(proof));
      assert proof == rest + [top];
      if index < k {
        RebuildIsExact(hashes[..k], leaf, index, rest);
        ExactOnLeft(hashes, leaf, index, rest, top);
      } else {
        RebuildIsExact(hashes[k..], leaf, index - k, rest);
        ExactOnRight(hashes, leaf, index, rest, top);
      }
    }
  }

  lemma ExactOnLeft<L>(hashes: seq<Digest<L>>, leaf: Digest<L>, index: nat, rest: seq<Digest<L>>, top: Digest<L>)
    requires |hashes| >= 2 && index < Split(|hashes|) && AllHashes(hashes)
    requires Rebuild(leaf, index, Split(|hashes|), rest) == Some(Root(hashes[..Split(|hashes|)]))
             <==> leaf == hashes[index] && rest == Path(hashes[..Split(|hashes|)], index)
    ensures Rebuild(leaf, index, |hashes|, rest + [top]) == Some(Root(hashes))
            <==> leaf == hashes[index] && rest + [top] == Path(hashes, index)
  {
    var k := Split(|hashes|);
    RootLength(hashes[k..]);
    RebuildSnoc(leaf, index, |hashes|, rest, top);
    AttachIsExact(Rebuild(leaf, index, k, rest), top, Root(hashes[..k]), Root(hashes[k..]), true);
    PathSnoc(hashes, index, rest, top);
  }

  lemma ExactOnRight<L>(hashes: seq<Digest<L>>, leaf: Digest<L>, index: nat, rest: seq<Digest<L>>, top: Digest<L>)
    requires |hashes| >= 2 && Split(|hashes|) <= index < |hashes| && AllHashes(hashes)
    requires Rebuild(leaf, index - Split(|hashes|), |hashes| - Split(|hashes|), rest) == Some(Root(hashes[Split(|hashes|)..]))
             <==> leaf == hashes[index] && rest == Path(hashes[Split(|hashes|)..], index - Split(|hashes|))
    ensures Rebuild(leaf, index, |hashes|, rest + [top]) == Some(Root(hashes))
            <==> leaf == hashes[index] && rest + [top] == Path(hashes, index)
  {
    var k := Split(|hashes|);
    RootLength(hashes[..k]);
    RebuildSnoc(leaf, index, |hashes|, rest, top);
    AttachIsExact(Rebuild(leaf, index - k, |hashes| - k, rest), top, Root(hashes[k..]), Root(hashes[..k]), false);
    PathSnoc(hashes, index, rest, top);
  }

  lemma PathSnoc<L>(hashes: seq<Digest<L>>, index: nat, rest: seq<Digest<L>>, top: Digest<L>)
    requires index < |hashes| && |hashes| >= 2
    ensures var k := Split(|hashes|);
            rest + [top] == Path(hashes, index) <==>
              if index < k then rest == Path(hashes[..k], index) && top == Root(hashes[k..])
              else rest == Path(hashes[k..], index - k) && top == Root(hashes[..k])
  {
    var k := Split(|hashes|);
    if index < k {
      SnocEquals(rest + [top], Path(hashes[..k], index), Root(hashes[k..]));
    } else {
      SnocEquals(rest + [top], Path(hashes[k..], index - k), Root(hashes[..k]));
    }
  }

  lemma AttachIsExact<L>(below: Option<Digest<L>>, sibling: Digest<L>, root: Digest<L>, other: Digest<L>, fromLeft: bool)
    requires other.Len() == 32
    ensures Attach(below, sibling, fromLeft) == Some(if fromLeft then NodeHash(root, other) else NodeHash(other, root))
            <==> below == Some(root) && sibling == other
  {
  }

  lemma SnocEquals<T>(s: seq<T>, front: seq<T>, last: T)
    requires |s| > 0
    ensures s == front + [last] <==> Last(s) == last && s[..|s| - 1] == front
  {
    if Last(s) == last && s[..|s| - 1] == front {
      assert s == s[..|s| - 1] + [Last(s)];
    }
    if s == front + [last] {
      assert s[..|s| - 1] == front;
    }
  }

  lemma RootLength<L>(hashes: seq<Digest<L>>)
    requires |hashes| > 0
    requires AllHashes(hashes)
    ensures Root(hashes).Len() == 32
  {
  }

  // ------------------------------------------------------------ the check, as the loop computes it

  /** The inner loop: shift both numbers until `fn` is odd or zero. */
  function StripZeros(fn: nat, sn: nat): (nat, nat)
    decreases fn
  {
    if fn % 2 == 0 && fn != 0 then StripZeros(fn / 2, sn / 2) else (fn, sn)
  }

  /** The outer loop from a state (fn, sn, r) over the remaining path. */
  function Climb<L>(fn: nat, sn: nat, r: Digest<L>, proof: seq<Digest<L>>): Option<Digest<L>>
    decreases |proof|
  {
    if proof == [] then (if sn == 0 then Some(r) else None)
    else if proof[0].Len() != 32 || sn == 0 then None
    else if fn % 2 == 1 || fn == sn then
      var (f, s) := if fn % 2 == 0 then StripZeros(fn, sn) else (fn, sn);
      Climb(f / 2, s / 2, NodeHash(proof[0], r), proof[1..])
    else
      Climb(fn / 2, sn / 2, NodeHash(r, proof[0]), proof[1..])
  }

  /** In the left subtree, a complete tree of 2^j leaves, the loop runs as if the rest of the tree were not there. */
  lemma {:induction false} ClimbLeft<L>(j: nat, fn: nat, sn: nat, r: Digest<L>, proof: seq<Digest<L>>, top: Digest<L>)
    requires fn < Pow2(j) <= sn < Pow2(j + 1)
    ensures Climb(fn, sn, r, proof + [top]) == Attach(Climb(fn, Pow2(j) - 1, r, proof), top, true)
    decreases |proof|
  {
    var all := proof + [top];
    if proof == [] {
      assert all[1..] == [];
    } else {
      assert all[0] == proof[0] && all[1..] == proof[1..] + [top];
      if j > 0 && proof[0].Len() == 32 {
        var next := if fn % 2 == 1 then NodeHash(proof[0], r) else NodeHash(r, proof[0]);
        ClimbLeft(j - 1, fn / 2, sn / 2, next, proof[1..], top);
      }
    }
  }

  /** Where both numbers still hold the bit 2^j, stripping zeros strips the same number with and without that bit. */
  lemma {:induction false} StripBelowBit(j: nat, fn: nat, sn: nat) returns (j': nat, f: nat, s: nat)
    requires 0 < fn <= sn < Pow2(j)
    ensures j' >= 1 && StripZeros(fn, sn) == (f, s)
    ensures 0 < f <= s < Pow2(j') && f % 2 == 1
    ensures StripZeros(fn + Pow2(j), sn + Pow2(j)) == (f + Pow2(j'), s + Pow2(j'))
    decreases fn
  {
    if fn % 2 == 1 {
      j', f, s := j, fn, sn;
    } else {
      var half := Pow2(j - 1);
      assert Pow2(j) == half + half;
      j', f, s := StripBelowBit(j - 1, fn / 2, sn / 2);
      assert (fn + Pow2(j)) / 2 == fn / 2 + half && (sn + Pow2(j)) / 2 == sn / 2 + half;
    }
  }

  lemma {:induction false} StripPow2(j: nat)
    ensures StripZeros(Pow2(j), Pow2(j)) == (1, 1)
  {
    if j > 0 { StripPow2(j - 1); }
  }

  lemma ParityKept(j: nat, n: nat)
    requires j >= 1
    ensures (n + Pow2(j)) % 2 == n % 2
  {
    assert Pow2(j) == 2 * Pow2(j - 1);
  }

  /** In the right subtree the loop runs in step with the loop over that subtree alone, the right border included. Here f and
      s are positions in the subtree and the loop sees them with the bit 2^j added. */
  lemma {:induction false} ClimbRight<L>(j: nat, f: nat, s: nat, r: Digest<L>, proof: seq<Digest<L>>, top: Digest<L>)
    requires f <= s < Pow2(j)
    ensures Climb(f + Pow2(j), s + Pow2(j), r, proof + [top]) == Attach(Climb(f, s, r, proof), top, false)
    decreases |proof|, 2
  {
    if s == 0 {
      ClimbSubtreeRoot(j, r, proof, top);
    } else if f == s && f % 2 == 0 {
      ClimbBorder(j, f, r, proof, top);
    } else {
      ParityKept(j, f);
      var all := proof + [top];
      assert all[0] == if proof == [] then top else proof[0];
      ClimbRightStep(j, f, s, if f % 2 == 1 || f == s then NodeHash(all[0], r) else NodeHash(r, all[0]), all, proof, top);
    }
  }

  /** On the right border zeros are stripped first, the same number with and without the bit 2^j. */
  lemma {:induction false} ClimbBorder<L>(j: nat, s: nat, r: Digest<L>, proof: seq<Digest<L>>, top: Digest<L>)
    requires 0 < s < Pow2(j) && s % 2 == 0
    ensures Climb(s + Pow2(j), s + Pow2(j), r, proof + [top]) == Attach(Climb(s, s, r, proof), top, false)
    decreases |proof|, 1
  {
    var all := proof + [top];
    assert all[0] == if proof == [] then top else proof[0];
    ParityKept(j, s);
    var j', f', s' := StripBelowBit(j, s, s);
    ClimbRightStep(j', f', s', NodeHash(all[0], r), all, proof, top);
  }

  /** At the subtree's own root only the sibling may follow, and the loop is then at the tree's root. */
  lemma {:induction false} ClimbSubtreeRoot<L>(j: nat, r: Digest<L>, proof: seq<Digest<L>>, top: Digest<L>)
    ensures Climb(Pow2(j), Pow2(j), r, proof + [top]) == Attach(Climb(0, 0, r, proof), top, false)
  {
    StripPow2(j);
    var all := proof + [top];
    assert Pow2(j) % 2 == 1 ==> j == 0;
    assert all[1..] == [] <==> proof == [];
    assert Climb(0, 0, NodeHash(all[0], r), all[1..]) == if proof == [] then Some(NodeHash(top, r)) else None;
  }

  /** One turn of the loop below the subtree's root: the rest of the path goes on one bit lower. */
  lemma {:induction false} ClimbRightStep<L>(
    j: nat, f: nat, s: nat, next: Digest<L>, all: seq<Digest<L>>, proof: seq<Digest<L>>, top: Digest<L>
  )
    requires f <= s < Pow2(j) && 0 < s
    requires all == proof + [top]
    ensures (s + Pow2(j)) / 2 != 0
    ensures proof == [] ==> all[1..] == []
    ensures proof != [] ==> Climb((f + Pow2(j)) / 2, (s + Pow2(j)) / 2, next, all[1..])
                            == Attach(Climb(f / 2, s / 2, next, proof[1..]), top, false)
    decreases |proof|, 0
  {
    var half := Pow2(j - 1);
    assert Pow2(j) == half + half;
    assert (f + Pow2(j)) / 2 == f / 2 + half && (s + Pow2(j)) / 2 == s / 2 + half;
    if proof != [] {
      assert all[1..] == proof[1..] + [top];
      ClimbRight(j - 1, f / 2, s / 2, next, proof[1..], top);
    }
  }

  lemma SplitIsTopBit(size: nat) returns (j: nat)
    requires size >= 2
    ensures Split(size) == Pow2(j) <= size - 1 < Pow2(j + 1) == Pow2(j) + Pow2(j)
  {
    BitLengthBounds(size - 1);
    j := BitLength(size - 1) - 1;
  }

  lemma RebuildSnoc<L>(leaf: Digest<L>, index: nat, size: nat, rest: seq<Digest<L>>, top: Digest<L>)
    requires index < size && size >= 2
    ensures Rebuild(leaf, index, size, rest + [top]) ==
            if index < Split(size) then Attach(Rebuild(leaf, index, Split(size), rest), top, true)
            else Attach(Rebuild(leaf, index - Split(size), size - Split(size), rest), top, false)
  {
    assert (rest + [top])[..|rest + [top]| - 1] == rest;
  }

  /** The last element of a path joins the subtree the index is in to the rest of the tree. */
  lemma ClimbSnoc<L>(leaf: Digest<L>, index: nat, size: nat, rest: seq<Digest<L>>, top: Digest<L>)
    requires index < size && size >= 2
    ensures Climb(index, size - 1, leaf, rest + [top]) ==
            if index < Split(size) then Attach(Climb(index, Split(size) - 1, leaf, rest), top, true)
            else Attach(Climb(index - Split(size), size - Split(size) - 1, leaf, rest), top, false)
  {
    var j := SplitIsTopBit(size);
    if index < Split(size) {
      ClimbLeft(j, index, size - 1, leaf, rest, top);
    } else {
      ClimbRight(j, index - Split(size), size - 1 - Split(size), leaf, rest, top);
    }
  }

  /** The loop over bit-shifted indices computes what the recursion over the tree does, for every size and every path. */
  lemma {:induction false} ClimbIsRebuild<L>(leaf: Digest<L>, index: nat, size: nat, proof: seq<Digest<L>>)
    requires index < size
    ensures Climb(index, size - 1, leaf, proof) == Rebuild(leaf, index, size, proof)
    decreases size
  {
    if size > 1 && proof != [] {
      var (rest, top) := (proof[..|proof| - 1], Last(proof));
      assert proof == rest + [top];
      RebuildSnoc(leaf, index, size, rest, top);
      ClimbSnoc(leaf, index, size, rest, top);
      if index < Split(size) {
        ClimbIsRebuild(leaf, index, Split(size), rest);
      } else {
        ClimbIsRebuild(leaf, index - Split(size), size - Split(size), rest);
      }
    }
  }

  /** The check itself. `fn & 1` is `fn % 2 == 1` and `>>= 1` halves. */
  method VerifyInclusion<L(==)>(root: Digest<L>, leaf: Digest<L>, index: int, size: int, proof: seq<Digest<L>>) returns (ok: bool)
    ensures ok <==> Authenticates(root, leaf, index, size, proof)
  {
    if !(0 <= index < size) {
      return false;
    }
    ClimbIsRebuild(leaf, index, size, proof);
    var fn: nat, sn: nat, r := index, size - 1, leaf;
    for i := 0 to |proof|
      invariant Climb(index, size - 1, leaf, proof) == Climb(fn, sn, r, proof[i..])
    {
      var p := proof[i];
      assert proof[i..][1..] == proof[i + 1..];
      if p.Len() != 32 || sn == 0 {
        return false;
      }
      if fn % 2 == 1 || fn == sn {
        r := NodeHash(p, r);
        if fn % 2 == 0 {
          ghost var before := StripZeros(fn, sn);
          while fn % 2 == 0 && fn != 0
            invariant StripZeros(fn, sn) == before
          {
            fn, sn := fn / 2, sn / 2;
          }
        }
      } else {
        r := NodeHash(r, p);
      }
      fn, sn := fn / 2, sn / 2;
    }
    return sn == 0 && r == root;
  }

  /** Every leaf of a tree has an inclusion proof, and nothing else has. */
  lemma ProofExists<L>(hashes: seq<Digest<L>>, index: int)
    ensures InclusionProof(hashes, index).Success? <==> 0 <= index && index < |hashes|
  {
  }

  /** End to end: the iterative check accepts a leaf and a path against a tree's root exactly when they are the tree's own. */
  method VerifyAgainstTree<L(==)>(hashes: seq<Digest<L>>, leaf: Digest<L>, index: nat, proof: seq<Digest<L>>) returns (ok: bool)
    requires index < |hashes|
    requires AllHashes(hashes)
    ensures ok <==> leaf == hashes[index] && InclusionProof(hashes, index) == Success(proof)
  {
    RebuildIsExact(hashes, leaf, index, proof);
    ok := VerifyInclusion(MerkleRoot(hashes).value, leaf, index, |hashes|, proof);
  }
}
