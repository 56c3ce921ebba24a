/**
 The hash tree of section 2.1 of RFC 6962 over page entries, as pure
 definitions shared by both ends of the protocol (host/merkletree.py and
 vm/src/merkle.c).  SHA-256 is ideal: a digest is the term that was hashed, and
 the 0x00 / 0x01 prefixes keep leaves and inner nodes apart.
 */
module MerkleTerms {
  import opened Machine

  /** `addr || counter`, the 8 bytes stored in a leaf. */
  datatype Entry = Entry(addr: u32, iv: u32)

  /** A 32-byte string, by how it was obtained; `Unrelated` is not a hash the tree knows. */
  datatype Digest =
    | EmptyHash
    | LeafHash(entry: Entry)
    | NodeHash(left: Digest, right: Digest)
    | Unrelated(id: nat)

  /** One packed proof element: an operation byte and a sibling digest. */
  datatype ProofStep = ProofStep(op: u8, digest: Digest)

  const OP_LEFT: u8 := 0x4c
  const OP_RIGHT: u8 := 0x52

  function LargestPowerOfTwo(n: nat): (k: nat)
    requires n > 0
    ensures k <= n < 2 * k
  {
    BitLengthBounds(n);
    Pow(2, BitLength(n) - 1)
  }

  /** The split point of a tree of n leaves: the largest power of two below n. */
  function Split(n: nat): (k: nat)
    requires n >= 2
    ensures 0 < k < n <= 2 * k
  {
    LargestPowerOfTwo(n - 1)
  }

  /** Merkle Tree Hash. */
  function Mth(entries: seq<Entry>): Digest
    decreases |entries|
  {
    if |entries| == 0 then EmptyHash
    else if |entries| == 1 then LeafHash(entries[0])
    else
      var k := Split(|entries|);
      NodeHash(Mth(entries[..k]), Mth(entries[k..]))
  }

  /** Audit path of leaf m, deepest sibling first. */
  function Path(m: nat, entries: seq<Entry>): seq<ProofStep>
    requires m < |entries|
    decreases |entries|
  {
    if |entries| == 1 then []
    else
      var k := Split(|entries|);
      if m < k then Path(m, entries[..k]) + [ProofStep(OP_RIGHT, Mth(entries[k..]))]
      else Path(m - k, entries[k..]) + [ProofStep(OP_LEFT, Mth(entries[..k]))]
  }

  /** One step of recomputing a root: any operation byte but 'L' puts the sibling on the right. */
  function HashUp(digest: Digest, step: ProofStep): Digest {
    if step.op == OP_LEFT then NodeHash(step.digest, digest) else NodeHash(digest, step.digest)
  }

  function FoldProof(digest: Digest, proof: seq<ProofStep>): Digest {
    if proof == [] then digest
    else HashUp(FoldProof(digest, proof[..|proof| - 1]), proof[|proof| - 1])
  }

  function BitCount(x: nat): nat {
    if x == 0 then 0 else x % 2 + BitCount(x / 2)
  }

  // ---- Proofs made by the host are accepted, and yield the updated root ----

  /** Recomputing from an audit path, with the leaf replaced, gives the hash of the updated list. */
  lemma {:induction false} PathRecomputesUpdatedRoot(m: nat, entries: seq<Entry>, entry: Entry)
    requires m < |entries|
    ensures FoldProof(LeafHash(entry), Path(m, entries)) == Mth(entries[m := entry])
    decreases |entries|
  {
    if |entries| > 1 {
      var k := Split(|entries|);
      var updated := entries[m := entry];
      var path := Path(m, entries);
      if m < k {
        PathRecomputesUpdatedRoot(m, entries[..k], entry);
        assert updated[..k] == entries[..k][m := entry] && updated[k..] == entries[k..];
        assert path[..|path| - 1] == Path(m, entries[..k]);
      } else {
        PathRecomputesUpdatedRoot(m - k, entries[k..], entry);
        assert updated[..k] == entries[..k] && updated[k..] == entries[k..][m - k := entry];
        assert path[..|path| - 1] == Path(m - k, entries[k..]);
      }
    }
  }

  /** Up to 2^levels leaves, no audit path has more than `levels` steps. */
  lemma {:induction false} PathLengthBound(m: nat, entries: seq<Entry>, levels: nat)
    requires m < |entries| <= Pow(2, levels)
    ensures |Path(m, entries)| <= levels
    decreases |entries|
  {
    if |entries| > 1 {
      var k := Split(|entries|);
      assert levels > 0;
      SplitBound(|entries|, levels);
      if m < k {
        PathLengthBound(m, entries[..k], levels - 1);
      } else {
        PathLengthBound(m - k, entries[k..], levels - 1);
      }
    }
  }

  /** Above 2^levels leaves, the first leaf's path has more than `levels` steps. */
  lemma {:induction false} FirstPathLength(entries: seq<Entry>, levels: nat)
    requires |entries| > Pow(2, levels)
    ensures |Path(0, entries)| > levels
    decreases |entries|
  {
    PowPositive(2, levels);
    var k := Split(|entries|);
    if levels > 0 {
      assert Pow(2, levels) == 2 * Pow(2, levels - 1);
      FirstPathLength(entries[..k], levels - 1);
    }
  }

  lemma SplitBound(n: nat, levels: nat)
    requires 2 <= n <= Pow(2, levels) && levels > 0
    ensures Split(n) <= Pow(2, levels - 1) && n - Split(n) <= Pow(2, levels - 1)
  {
    var e := BitLength(n - 1) - 1;
    if e >= levels {
      PowMonotone(2, levels, e);
    } else {
      PowMonotone(2, e, levels - 1);
    }
  }

  // ---- Appending ----

  lemma {:induction false} BitCountSplits(e: nat, r: nat)
    requires r < Pow(2, e)
    ensures BitCount(Pow(2, e) + r) == 1 + BitCount(r)
  {
    if e > 0 {
      var half := Pow(2, e - 1);
      BitCountSplits(e - 1, r / 2);
      assert (2 * half + r) / 2 == half + r / 2 && (2 * half + r) % 2 == r % 2;
    }
  }

  lemma {:induction false} BitLengthOfPower(e: nat, r: nat)
    requires r < Pow(2, e)
    ensures BitLength(Pow(2, e) + r) == e + 1
  {
    if e > 0 {
      var half := Pow(2, e - 1);
      BitLengthOfPower(e - 1, r / 2);
      assert (2 * half + r) / 2 == half + r / 2;
    }
  }

  lemma {:induction false} BitCountBounds(x: nat)
    ensures x > 0 ==> 1 <= BitCount(x)
    ensures BitCount(x) <= x
  {
    if x > 0 {
      BitCountBounds(x / 2);
    }
  }

  /** How the split point and the number of set bits change from n leaves to n + 1. */
  lemma SplitOnAppend(n: nat)
    requires n > 0
    ensures BitCount(n) >= 1
    ensures BitCount(n) == 1 ==> Split(n + 1) == n
    ensures BitCount(n) > 1 ==> n >= 2 && Split(n + 1) == Split(n) && BitCount(n) == 1 + BitCount(n - Split(n))
  {
    BitLengthBounds(n);
    var e := BitLength(n) - 1;
    PowStep(2, e);
    var r := n - Pow(2, e);
    BitCountSplits(e, r);
    if r > 0 {
      BitCountBounds(r);
      BitLengthOfPower(e, r - 1);
      assert n - 1 == Pow(2, e) + (r - 1);
    }
  }

  /** The index at which an append cuts the audit path of the last leaf. */
  function AppendLevel(entries: seq<Entry>): int
    requires entries != []
  {
    |Path(|entries| - 1, entries)| - (BitCount(|entries|) - 1)
  }

  /** The root recomputed when `path` is cut at `cut` and `entry` is paired with the subtree below the cut. */
  function AppendAt(path: seq<ProofStep>, cut: nat, last: Entry, entry: Entry): Digest
    requires cut <= |path|
  {
    FoldProof(NodeHash(FoldProof(LeafHash(last), path[..cut]), LeafHash(entry)), path[cut..])
  }

  lemma AppendAtExtends(inner: seq<ProofStep>, step: ProofStep, cut: nat, last: Entry, entry: Entry)
    requires cut <= |inner|
    ensures AppendAt(inner + [step], cut, last, entry) == HashUp(AppendAt(inner, cut, last, entry), step)
  {
    var path := inner + [step];
    var climb := path[cut..];
    assert path[..cut] == inner[..cut];
    assert climb[..|climb| - 1] == inner[cut..];
  }

  /**
   Cutting the last leaf's audit path at AppendLevel, pairing the subtree below
   the cut with the new leaf and climbing the rest of the path gives the hash of
   the extended list.
   */
  lemma {:induction false} PathRecomputesAppendedRoot(entries: seq<Entry>, entry: Entry)
    requires entries != []
    ensures 0 <= AppendLevel(entries) <= |Path(|entries| - 1, entries)|
    ensures AppendAt(Path(|entries| - 1, entries), AppendLevel(entries), entries[|entries| - 1], entry)
         == Mth(entries + [entry])
    decreases |entries|
  {
    SplitOnAppend(|entries|);
    if BitCount(|entries|) == 1 {
      AppendToPerfectTree(entries, entry);
    } else {
      PathRecomputesAppendedRoot(entries[Split(|entries|)..], entry);
      AppendToRight(entries, entry);
    }
  }

  /** An append to an imperfect tree is an append to its right subtree. */
  lemma AppendToRight(entries: seq<Entry>, entry: Entry)
    requires |entries| > 1 && BitCount(|entries|) > 1
    requires
      var right := entries[Split(|entries|)..];
      && 0 <= AppendLevel(right) <= |Path(|right| - 1, right)|
      && AppendAt(Path(|right| - 1, right), AppendLevel(right), right[|right| - 1], entry) == Mth(right + [entry])
    ensures 0 <= AppendLevel(entries) <= |Path(|entries| - 1, entries)|
    ensures AppendAt(Path(|entries| - 1, entries), AppendLevel(entries), entries[|entries| - 1], entry)
         == Mth(entries + [entry])
  {
    hide AppendAt, FoldProof;
    var n := |entries|;
    SplitOnAppend(n);
    var k := Split(n);
    var right := entries[k..];
    var step := ProofStep(OP_LEFT, Mth(entries[..k]));
    assert Path(n - 1, entries) == Path(n - 1 - k, right) + [step];
    assert AppendLevel(entries) == AppendLevel(right);
    assert entries[n - 1] == right[|right| - 1];
    AppendAtExtends(Path(n - 1 - k, right), step, AppendLevel(right), right[|right| - 1], entry);
    AppendedMth(entries, entry, k);
  }

  lemma AppendToPerfectTree(entries: seq<Entry>, entry: Entry)
    requires entries != [] && BitCount(|entries|) == 1
    ensures AppendAt(Path(|entries| - 1, entries), |Path(|entries| - 1, entries)|, entries[|entries| - 1], entry)
         == Mth(entries + [entry])
  {
    var n := |entries|;
    var path := Path(n - 1, entries);
    SplitOnAppend(n);
    assert path[..|path|] == path && path[|path|..] == [];
    PathRecomputesUpdatedRoot(n - 1, entries, entries[n - 1]);
    assert entries[n - 1 := entries[n - 1]] == entries;
    AppendedMth(entries, entry, n);
    assert entries[..n] == entries && entries[n..] == [];
  }

  lemma AppendSlices(entries: seq<Entry>, entry: Entry, k: nat)
    requires k <= |entries|
    ensures (entries + [entry])[..k] == entries[..k]
    ensures (entries + [entry])[k..] == entries[k..] + [entry]
  {
  }

  lemma MthUnfolds(entries: seq<Entry>, k: nat)
    requires |entries| >= 2 && Split(|entries|) == k
    ensures Mth(entries) == NodeHash(Mth(entries[..k]), Mth(entries[k..]))
  {
  }

  lemma AppendedMth(entries: seq<Entry>, entry: Entry, k: nat)
    requires |entries| >= 1 && 0 < k <= |entries| && Split(|entries| + 1) == k
    ensures Mth(entries + [entry]) == NodeHash(Mth(entries[..k]), Mth(entries[k..] + [entry]))
  {
    var extended := entries + [entry];
    AppendSlices(entries, entry, k);
    MthUnfolds(extended, k);
  }

  // ---- Proofs made by anybody: only a real leaf's own audit path is accepted ----

  /** Equal up to operation bytes that mean the same. */
  ghost predicate SameProof(p: seq<ProofStep>, q: seq<ProofStep>) {
    && |p| == |q|
    && forall i :: 0 <= i < |p| ==> p[i].digest == q[i].digest && (p[i].op == OP_LEFT <==> q[i].op == OP_LEFT)
  }

  lemma SameProofExtends(p: seq<ProofStep>, inner: seq<ProofStep>, step: ProofStep)
    requires p != [] && SameProof(p[..|p| - 1], inner) && SameProof([p[|p| - 1]], [step])
    ensures SameProof(p, inner + [step])
  {
    forall i | 0 <= i < |p|
      ensures p[i].digest == (inner + [step])[i].digest && (p[i].op == OP_LEFT <==> (inner + [step])[i].op == OP_LEFT)
    {
      assert i < |p| - 1 ==> p[i] == p[..|p| - 1][i];
    }
  }

  /** A proof that reaches the root, whatever its length and bytes, is the audit path of a leaf of the list. */
  lemma {:induction false} AcceptedProofNamesLeaf(entry: Entry, proof: seq<ProofStep>, entries: seq<Entry>) returns (m: nat)
    requires FoldProof(LeafHash(entry), proof) == Mth(entries)
    ensures m < |entries| && entries[m] == entry && SameProof(proof, Path(m, entries))
    decreases |entries|
  {
    if |entries| <= 1 {
      m := 0;
    } else {
      hide SameProof;
      var k := Split(|entries|);
      var init, step := proof[..|proof| - 1], proof[|proof| - 1];
      assert FoldProof(LeafHash(entry), proof) == HashUp(FoldProof(LeafHash(entry), init), step);
      if step.op == OP_LEFT {
        m := AcceptedProofNamesLeaf(entry, init, entries[k..]);
        SameStep(step, ProofStep(OP_LEFT, Mth(entries[..k])));
        SameProofExtends(proof, Path(m, entries[k..]), ProofStep(OP_LEFT, Mth(entries[..k])));
        m := m + k;
      } else {
        m := AcceptedProofNamesLeaf(entry, init, entries[..k]);
        SameStep(step, ProofStep(OP_RIGHT, Mth(entries[k..])));
        SameProofExtends(proof, Path(m, entries[..k]), ProofStep(OP_RIGHT, Mth(entries[k..])));
      }
    }
  }

  lemma SameStep(s: ProofStep, t: ProofStep)
    requires s.digest == t.digest && (s.op == OP_LEFT <==> t.op == OP_LEFT)
    ensures SameProof([s], [t])
  {
  }

  lemma {:induction false} SameProofFolds(digest: Digest, p: seq<ProofStep>, q: seq<ProofStep>)
    requires SameProof(p, q)
    ensures FoldProof(digest, p) == FoldProof(digest, q)
    decreases |p|
  {
    if p != [] {
      SameProofFolds(digest, p[..|p| - 1], q[..|q| - 1]);
    }
  }
}
