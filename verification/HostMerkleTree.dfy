/** The host's full list of page entries, host/merkletree.py. */
module HostMerkleTree {
  import opened Machine
  import opened MerkleTerms

  ghost predicate DistinctAddrs(entries: seq<Entry>) {
    forall i, j :: 0 <= i < j < |entries| ==> entries[i].addr != entries[j].addr
  }

  /** Index of the entry of a page, or -1. */
  function IndexOf(entries: seq<Entry>, addr: u32): (i: int)
    ensures -1 <= i < |entries|
    ensures i == -1 <==> forall j :: 0 <= j < |entries| ==> entries[j].addr != addr
    ensures i >= 0 ==> entries[i].addr == addr && forall j :: 0 <= j < i ==> entries[j].addr != addr
  {
    if entries == [] then -1
    else if entries[|entries| - 1].addr == addr && IndexOf(entries[..|entries| - 1], addr) == -1 then |entries| - 1
    else IndexOf(entries[..|entries| - 1], addr)
  }

  /** What a proof request yields: the entry and its audit path, or a failed assertion. */
  function ProofOf(entries: seq<Entry>, m: int): Option<(Entry, seq<ProofStep>)>
    requires m < |entries|
  {
    if m < 0 then None else Some((entries[m], Path(m, entries)))
  }

  /** An audit path leads from its entry to the hash of the list. */
  lemma PathProvesEntry(m: nat, entries: seq<Entry>)
    requires m < |entries|
    ensures FoldProof(LeafHash(entries[m]), Path(m, entries)) == Mth(entries)
  {
    PathRecomputesUpdatedRoot(m, entries, entries[m]);
    assert entries[m := entries[m]] == entries;
  }

  class MerkleTree {
    var entries: seq<Entry>

    constructor ()
      ensures entries == []
    {
      entries := [];
    }

    method FindIndexByAddr(addr: u32) returns (i: int)
      ensures i == IndexOf(entries, addr)
    {
      i := 0;
      while i < |entries|
        invariant 0 <= i <= |entries|
        invariant forall j :: 0 <= j < i ==> entries[j].addr != addr
      {
        if entries[i].addr == addr {
          return;
        }
        i := i + 1;
      }
      i := -1;
    }

    /** Fails, as the Python assertion does, when the page has no entry. */
    method Update(value: Entry) returns (ok: bool)
      modifies this
      ensures ok == (IndexOf(old(entries), value.addr) >= 0)
      ensures entries == if ok then old(entries)[IndexOf(old(entries), value.addr) := value] else old(entries)
    {
      var i := FindIndexByAddr(value.addr);
      if i == -1 {
        return false;
      }
      var e := entries[i];
      entries := entries[i := e.(iv := value.iv)];
      ok := true;
    }

    /** Fails when the page already has an entry. */
    method Insert(value: Entry) returns (ok: bool)
      modifies this
      ensures ok == (IndexOf(old(entries), value.addr) == -1)
      ensures entries == if ok then old(entries) + [value] else old(entries)
    {
      var i := FindIndexByAddr(value.addr);
      if i != -1 {
        return false;
      }
      entries := entries + [value];
      ok := true;
    }

    /** The entry of a page with a proof of it; fails when the page has no entry. */
    method GetProof(addr: u32) returns (r: Option<(Entry, seq<ProofStep>)>)
      ensures r == ProofOf(entries, IndexOf(entries, addr))
      ensures r.None? <==> forall e :: e in entries ==> e.addr != addr
      ensures r.Some? ==> r.value.0.addr == addr && FoldProof(LeafHash(r.value.0), r.value.1) == Mth(entries)
    {
      var m := FindIndexByAddr(addr);
      if m != -1 {
        PathProvesEntry(m, entries);
      }
      r := if m == -1 then None else Some((entries[m], Path(m, entries)));
    }

    /** The newest entry with a proof of it; fails exactly on an empty tree. */
    method GetProofOfLastEntry() returns (r: Option<(Entry, seq<ProofStep>)>)
      ensures r == ProofOf(entries, |entries| - 1)
      ensures r.None? <==> entries == []
      ensures r.Some? ==> r.value.0 == entries[|entries| - 1] && FoldProof(LeafHash(r.value.0), r.value.1) == Mth(entries)
    {
      if |entries| == 0 {
        return None;
      }
      var m := |entries| - 1;
      PathProvesEntry(m, entries);
      r := Some((entries[m], Path(m, entries)));
    }

    method HasAddr(addr: u32) returns (found: bool)
      ensures found == (IndexOf(entries, addr) >= 0)
    {
      var m := FindIndexByAddr(addr);
      found := m != -1;
    }
  }
}
