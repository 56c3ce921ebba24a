/**
 The device's three words of Merkle state, vm/src/merkle.c: a root, a size and
 the last entry.  The ghost list is the one the host is supposed to hold; every
 accepted operation keeps the three words equal to its hash, length and last
 element, whoever wrote the proof.
 */
module DeviceMerkle {
  import opened Machine
  import opened MerkleTerms
  import opened HostMerkleTree

  /** The digests the device computes are those of the list. */
  ghost predicate Tracks(root: Digest, n: u32, last: Entry, entries: seq<Entry>) {
    && root == Mth(entries)
    && n == |entries|
    && (entries != [] ==> last == entries[|entries| - 1])
  }

  /** A proof of an entry of the list, up to meaningless operation bytes. */
  ghost predicate Proves(proof: seq<ProofStep>, entry: Entry, entries: seq<Entry>) {
    var m := IndexOf(entries, entry.addr);
    m >= 0 && entries[m] == entry && SameProof(proof, Path(m, entries))
  }

  /**
   For a list with one entry a page, reaching the root and being the audit path
   of the entry are the same thing: a forged proof of any length is refused and
   an honest one accepted.
   */
  lemma AcceptedIffAuditPath(proof: seq<ProofStep>, entry: Entry, entries: seq<Entry>)
    requires DistinctAddrs(entries)
    ensures FoldProof(LeafHash(entry), proof) == Mth(entries) <==> Proves(proof, entry, entries)
  {
    if FoldProof(LeafHash(entry), proof) == Mth(entries) {
      var m := AcceptedProofNamesLeaf(entry, proof, entries);
      assert IndexOf(entries, entry.addr) == m;
    }
    if Proves(proof, entry, entries) {
      var m := IndexOf(entries, entry.addr);
      SameProofFolds(LeafHash(entry), proof, Path(m, entries));
      PathRecomputesUpdatedRoot(m, entries, entry);
      assert entries[m := entry] == entries;
    }
  }

  lemma ProvesUpdate(proof: seq<ProofStep>, oldEntry: Entry, entry: Entry, entries: seq<Entry>)
    requires DistinctAddrs(entries) && Proves(proof, oldEntry, entries) && entry.addr == oldEntry.addr
    ensures FoldProof(LeafHash(entry), proof) == Mth(entries[IndexOf(entries, entry.addr) := entry])
  {
    var m := IndexOf(entries, entry.addr);
    SameProofFolds(LeafHash(entry), proof, Path(m, entries));
    PathRecomputesUpdatedRoot(m, entries, entry);
  }

  /** `count - (bit_count(n) - 1)` in size_t arithmetic. */
  function TreeLevel(count: u32, n: u32): u32 {
    Wrap32(count - Wrap32(BitCount(n) as int - 1))
  }

  lemma TreeLevelExact(count: u32, n: u32)
    requires n > 0 && BitCount(n) - 1 <= count
    ensures TreeLevel(count, n) == count - (BitCount(n) - 1)
  {
    BitCountBounds(n);
  }

  /** The state merkle_insert installs on a non-empty tree once the proof is accepted. */
  lemma AppendTracks(proof: seq<ProofStep>, entry: Entry, root: Digest, n: u32, last: Entry, entries: seq<Entry>)
    requires Tracks(root, n, last, entries) && DistinctAddrs(entries) && 0 < n < U32_MAX
    requires Proves(proof, last, entries)
    ensures 0 <= |proof| - (BitCount(n) - 1) <= |proof|
    ensures Tracks(AppendAt(proof, |proof| - (BitCount(n) - 1), last, entry), n + 1, entry, entries + [entry])
  {
    assert IndexOf(entries, last.addr) == n - 1;
    AppendDigest(proof, entry, n, entries);
  }

  lemma FirstTracks(entry: Entry, entries: seq<Entry>)
    requires entries == []
    ensures Tracks(LeafHash(entry), 1, entry, entries + [entry])
  {
    assert entries + [entry] == [entry];
  }

  lemma AppendedIsDistinct(entries: seq<Entry>, entry: Entry)
    requires DistinctAddrs(entries)
    ensures DistinctAddrs(entries + [entry]) <==> IndexOf(entries, entry.addr) == -1
  {
    var m := IndexOf(entries, entry.addr);
    if m >= 0 {
      assert (entries + [entry])[m].addr == (entries + [entry])[|entries|].addr;
    }
  }

  lemma PairTree(a: Entry, b: Entry)
    ensures Mth([a, b]) == NodeHash(LeafHash(a), LeafHash(b))
    ensures Path(0, [a, b]) == [ProofStep(OP_RIGHT, LeafHash(b))]
  {
    assert Split(2) == 1;
    assert [a, b][..1] == [a] && [a, b][1..] == [b];
  }

  lemma SplitsOfFour()
    ensures Split(3) == 2 && Split(4) == 2 && BitCount(3) == 2
  {
    assert BitLength(1) == 1;
    assert BitCount(1) == 1;
    assert Pow(2, 1) == 2;
  }

  lemma TreeOfThree(a: Entry, b: Entry, c: Entry)
    ensures Mth([a, b, c]) == NodeHash(NodeHash(LeafHash(a), LeafHash(b)), LeafHash(c))
    ensures Path(0, [a, b, c]) == [ProofStep(OP_RIGHT, LeafHash(b)), ProofStep(OP_RIGHT, LeafHash(c))]
  {
    hide Split;
    SplitsOfFour();
    PairTree(a, b);
    assert [a, b, c][..2] == [a, b] && [a, b, c][2..] == [c];
  }

  lemma TreeOfFour(a: Entry, b: Entry, c: Entry, d: Entry)
    ensures Mth([a, b, c, d]) == NodeHash(Mth([a, b]), Mth([c, d]))
  {
    SplitsOfFour();
    MthUnfolds([a, b, c, d], 2);
    assert [a, b, c, d][..2] == [a, b] && [a, b, c, d][2..] == [c, d];
  }

  lemma TwoSteps(digest: Digest, p: ProofStep, q: ProofStep)
    ensures FoldProof(digest, [p]) == HashUp(digest, p)
    ensures FoldProof(digest, [p, q]) == HashUp(HashUp(digest, p), q)
  {
    assert [p][..0] == [] && [p, q][..1] == [p];
  }

  /**
   Once an entry is repeated, a proof of its first occurrence is accepted in place of one of the last
   entry, and the next append yields a root that is not that of the extended list.
   */
  lemma RepeatedEntryMisplaces(e: Entry, x: Entry, entry: Entry)
    ensures
      var (entries, proof) := ([e, x, e], Path(0, [e, x, e]));
      && FoldProof(LeafHash(entries[2]), proof) == Mth(entries)
      && |proof| - (BitCount(3) - 1) == 1
      && AppendAt(proof, 1, entries[2], entry) != Mth([e, x, e, entry])
  {
    hide Mth, Path, FoldProof, BitCount;
    SplitsOfFour();
    TreeOfThree(e, x, e);
    var (p, q) := (ProofStep(OP_RIGHT, LeafHash(x)), ProofStep(OP_RIGHT, LeafHash(e)));
    TwoSteps(LeafHash(e), p, q);
    assert [p, q][..1] == [p] && [p, q][1..] == [q];
    TwoSteps(NodeHash(HashUp(LeafHash(e), p), LeafHash(entry)), q, q);
    TreeOfFour(e, x, e, entry);
    PairTree(e, x);
  }

  lemma AppendDigest(proof: seq<ProofStep>, entry: Entry, n: nat, entries: seq<Entry>)
    requires n == |entries| > 0 && SameProof(proof, Path(n - 1, entries))
    ensures 0 <= |proof| - (BitCount(n) - 1) <= |proof|
    ensures AppendAt(proof, |proof| - (BitCount(n) - 1), entries[n - 1], entry) == Mth(entries + [entry])
  {
    PathRecomputesAppendedRoot(entries, entry);
    BitCountBounds(n);
    SameProofAppends(proof, Path(n - 1, entries), AppendLevel(entries), entries[n - 1], entry);
  }

  lemma SameProofAppends(p: seq<ProofStep>, q: seq<ProofStep>, cut: nat, last: Entry, entry: Entry)
    requires SameProof(p, q) && cut <= |p|
    ensures AppendAt(p, cut, last, entry) == AppendAt(q, cut, last, entry)
  {
    SameProofFolds(LeafHash(last), p[..cut], q[..cut]);
    SameProofFolds(NodeHash(FoldProof(LeafHash(last), p[..cut]), LeafHash(entry)), p[cut..], q[cut..]);
  }

  /** Recompute a root from a leaf, or, without an entry, from the digest given. */
  method ProofHash(entry: Option<Entry>, proof: seq<ProofStep>, start: Digest) returns (digest: Digest)
    ensures digest == FoldProof(if entry.Some? then LeafHash(entry.value) else start, proof)
  {
    digest := if entry.Some? then LeafHash(entry.value) else start;
    ghost var leaf := digest;
    var i := 0;
    while i < |proof|
      invariant 0 <= i <= |proof|
      invariant digest == FoldProof(leaf, proof[..i])
    {
      if proof[i].op == OP_LEFT {
        digest := NodeHash(proof[i].digest, digest);
      } else {
        digest := NodeHash(digest, proof[i].digest);
      }
      assert proof[..i + 1][..i] == proof[..i];
      i := i + 1;
    }
    assert proof[..|proof|] == proof;
  }

  method CountBits(number: u32) returns (count: nat)
    ensures count == BitCount(number)
  {
    var x := number;
    count := 0;
    while x != 0
      invariant 0 <= x
      invariant count + BitCount(x) == BitCount(number)
      decreases x
    {
      count := count + x % 2;
      x := x / 2;
    }
  }

  /** The tail of merkle_insert: pair the subtree below `treeLevel` with the new leaf and climb to the root. */
  method AppendedRoot(last: Entry, entry: Entry, proof: seq<ProofStep>, treeLevel: nat, root: Digest)
      returns (digest: Digest)
    requires treeLevel <= |proof|
    ensures digest == AppendAt(proof, treeLevel, last, entry)
  {
    var subtree := ProofHash(Some(last), proof[..treeLevel], root);
    var sibling := ProofStep(OP_LEFT, subtree);
    digest := ProofHash(Some(entry), [sibling], root);
    assert [sibling][..0] == [];
    digest := ProofHash(None, proof[treeLevel..], digest);
  }

  class MerkleContext {
    var root: Digest
    var n: u32
    var last: Entry
    ghost var entries: seq<Entry>

    ghost predicate Valid()
      reads this
    {
      Tracks(root, n, last, entries) && DistinctAddrs(entries)
    }

    /** The manifest supplies the state; `initial` is the list it was computed from. */
    constructor (root: Digest, n: u32, last: Entry, ghost initial: seq<Entry>)
      requires Tracks(root, n, last, initial) && DistinctAddrs(initial)
      ensures Valid() && entries == initial
    {
      this.root, this.n, this.last, this.entries := root, n, last, initial;
    }

    method VerifyProof(entry: Entry, proof: seq<ProofStep>) returns (ok: bool)
      requires Valid()
      ensures ok <==> Proves(proof, entry, entries)
    {
      AcceptedIffAuditPath(proof, entry, entries);
      var digest := ProofHash(Some(entry), proof, root);
      ok := digest == root;
    }

    /**
     Append an entry.  Accepted exactly with the audit path of the last entry (any proof at all
     for the first entry); root, size and last entry are then those of the extended list.  Appending
     a second entry for a page is not refused, but it ends the invariant.
     */
    method Insert(entry: Entry, proof: seq<ProofStep>) returns (ok: bool)
      requires Valid() && |proof| <= U32_MAX
      modifies this
      ensures ok <==> old(n) == 0 || (old(n) < U32_MAX && Proves(proof, old(last), old(entries)))
      ensures entries == if ok then old(entries) + [entry] else old(entries)
      ensures Tracks(root, n, last, entries)
      ensures Valid() <==> !ok || IndexOf(old(entries), entry.addr) == -1
    {
      hide AppendAt, DistinctAddrs, Proves, Mth, FoldProof, Path, IndexOf;
      AppendedIsDistinct(entries, entry);
      if n == 0 {
        FirstTracks(entry, entries);
        root := LeafHash(entry);
        last := entry;
        n := n + 1;
        entries := entries + [entry];
        return true;
      } else if n == U32_MAX {
        return false;
      }

      var count: u32 := |proof|;
      var bits := CountBits(n);
      var treeLevel := Wrap32(count - Wrap32(bits as int - 1));
      assert treeLevel == TreeLevel(count, n);
      AcceptedIffAuditPath(proof, last, entries);
      if Proves(proof, last, entries) {
        AppendTracks(proof, entry, root, n, last, entries);
        TreeLevelExact(count, n);
      }
      if treeLevel > count {
        return false;
      }

      var digest := ProofHash(Some(last), proof, root);
      if digest != root {
        return false;
      }
      root := AppendedRoot(last, entry, proof, treeLevel, root);

      last := entry;
      n := n + 1;
      entries := entries + [entry];
      ok := true;
    }

    /** Replace the entry of a page; accepted exactly with the audit path of the entry being replaced. */
    method Update(oldEntry: Entry, entry: Entry, proof: seq<ProofStep>) returns (ok: bool)
      requires Valid() && oldEntry.addr == entry.addr
      modifies this
      ensures Valid() && n == old(n)
      ensures ok <==> Proves(proof, oldEntry, old(entries))
      ensures entries == if ok then old(entries)[IndexOf(old(entries), entry.addr) := entry] else old(entries)
    {
      ok := VerifyProof(oldEntry, proof);
      if !ok {
        return;
      }
      ProvesUpdate(proof, oldEntry, entry, entries);
      root := ProofHash(Some(entry), proof, root);
      if last == oldEntry {
        last := entry;
      }
      entries := entries[IndexOf(entries, entry.addr) := entry];
    }
  }
}
