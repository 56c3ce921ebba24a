/**
 io_exchange: one command out, one reply in.  Behind it is either the honest
 host or anybody: replies are then arbitrary, except that a tag nobody was ever
 given cannot be produced.
 */
module HostLink {
  import opened Machine
  import opened MerkleTerms
  import opened Pages
  import opened Protocol
  import opened HostMerkleTree
  import opened HostStream
  import opened DeviceMerkle
  import opened PagedState

  /** The tag a command shows to the host. */
  function TagsIn(cmd: Command): set<Mac> {
    if cmd.CommitHmac? then {cmd.mac} else {}
  }

  /** What a reply can be: its tag was seen before (or is junk), and its size fits in an APDU. */
  predicate Possible(reply: Reply, seen: set<Mac>) {
    match reply
    case HmacReply(_, mac) => mac.Hmac? ==> mac in seen
    case ProofReply(proof) => |proof| <= MAX_PROOF_STEPS
    case PageReply(_, rest) => |rest| <= 255
    case BufferReply(_, _, data) => |data| <= 255
    case _ => true
  }

  class Channel {
    const honest: bool
    const host: DeviceStream
    /** Every tag given to the host, at signing or since. */
    var seen: set<Mac>

    ghost predicate Valid()
      reads this, host, host.merkletree
    {
      forall a :: a in host.pages ==> host.pages[a].mac in seen
    }

    constructor (honest: bool, host: DeviceStream, seen: set<Mac>)
      requires forall a :: a in host.pages ==> host.pages[a].mac in seen
      ensures Valid() && this.honest == honest && this.host == host && this.seen == seen
    {
      this.honest, this.host, this.seen := honest, host, seen;
    }

    method IoExchange(cmd: Command) returns (reply: Reply)
      requires Valid()
      requires cmd.RecvBuffer? ==> cmd.maxsize <= PAGE_SIZE
      modifies this`seen, host, host.merkletree
      ensures Valid()
      ensures seen == old(seen) + TagsIn(cmd)
      ensures Possible(reply, seen)
      ensures honest ==> (host.View(), reply) == HostStep(old(host.View()), cmd)
    {
      seen := seen + TagsIn(cmd);
      if honest {
        ghost var before := host.View();
        reply := host.Handle(cmd);
        HonestRepliesArePossible(before, cmd, seen);
      } else {
        reply := *;
        if !Possible(reply, seen) {
          reply := NoReply;
        }
      }
    }
  }

  lemma HonestRepliesArePossible(h: HostState, cmd: Command, seen: set<Mac>)
    requires forall a :: a in h.pages ==> h.pages[a].mac in seen
    requires TagsIn(cmd) <= seen
    requires cmd.RecvBuffer? ==> cmd.maxsize <= PAGE_SIZE
    ensures Possible(HostStep(h, cmd).1, seen)
    ensures forall a :: a in HostStep(h, cmd).0.pages ==> HostStep(h, cmd).0.pages[a].mac in seen
  {
  }

  // ---- What the honest host answers to a well-behaved device ----

  /** The audit path sent for an entry is short enough and proves it. */
  lemma OwnPathProves(entries: seq<Entry>, m: nat)
    requires m < |entries| <= 128 && DistinctAddrs(entries)
    ensures |Path(m, entries)| <= MAX_PROOF_STEPS
    ensures IndexOf(entries, entries[m].addr) == m
    ensures Proves(Path(m, entries), entries[m], entries)
  {
    PathFits(m, entries);
  }

  /** Every audit path fits in one message exactly up to 128 entries. */
  lemma ProofsFit(entries: seq<Entry>)
    ensures (forall m: nat :: m < |entries| ==> |Path(m, entries)| <= MAX_PROOF_STEPS) <==> |entries| <= 128
  {
    if |entries| <= 128 {
      forall m: nat | m < |entries|
        ensures |Path(m, entries)| <= MAX_PROOF_STEPS
      {
        PathFits(m, entries);
      }
    } else {
      assert Pow(2, 7) == 128;
      FirstPathLength(entries, 7);
    }
  }

  lemma HonestServes(l: Layout, c: Cipher, b: Backing, h: HostState, addr: u32)
    requires HostInv(l, c, b, h) && addr in b.store && Aligned(addr)
    ensures
      var page := HostCopy(l, c, addr, b.store[addr]);
      var (h1, r1) := HostStep(h, RequestPage(addr));
      var (h2, r2) := HostStep(h1, RequestHmac);
      && r1 == PageReply(page.data[0], page.data[1..]) && r2 == HmacReply(page.iv, page.mac)
      && h2 == h.(phase := if l.code.Contains(addr) then Idle else HmacSent(addr))
  {
    assert h.pages[addr] == HostCopy(l, c, addr, b.store[addr]);
    assert HostStep(h, RequestPage(addr)) == PageStep(h, addr);
    var h1 := PageStep(h, addr).0;
    assert HostStep(h1, RequestHmac) == HmacStep(h1, addr);
  }

  lemma HonestProves(l: Layout, c: Cipher, b: Backing, h: HostState, addr: u32)
    requires HostInv(l, c, b, h.(phase := Idle)) && h.phase == HmacSent(addr) && EntriesInv(l, b)
    requires addr in b.store && !l.code.Contains(addr) && |b.entries| <= 128
    ensures
      var (h', r) := HostStep(h, RequestProof);
      h' == h.(phase := Idle) && r.ProofReply? && Proves(r.proof, Entry(addr, b.store[addr].iv), b.entries)
  {
    assert h.pages[addr] == HostCopy(l, c, addr, b.store[addr]);
    EntryIffExists(l, b, addr);
    OwnPathProves(b.entries, IndexOf(b.entries, addr));
    assert HostStep(h, RequestProof) == ProveStep(h, addr);
  }

  /** The entry whose proof the host returns on a commit: the one replaced, or the last one. */
  function ProvedOnCommit(entries: seq<Entry>, addr: u32): Entry
    requires entries != []
  {
    var m := IndexOf(entries, addr);
    if m >= 0 then entries[m] else entries[|entries| - 1]
  }

  lemma HonestCommits(l: Layout, c: Cipher, b: Backing, h: HostState, p: Page)
    requires HostInv(l, c, b, h) && EntriesInv(l, b) && NextVersion(l, b, p)
    ensures
      var (h1, r1) := HostStep(h, CommitPage(c.Sealed(p.data, p.addr, p.iv)));
      var (h2, r2) := HostStep(h1, CommitHmac(p.addr, p.iv, TagOf(c, p)));
      && (r1 == Ack)
      && (r2.ProofReply? ==> h2.io == h.io && HostInv(l, c, Committed(c, b, p), h2))
      && (0 < |b.entries| <= 128 ==> r2.ProofReply? && Proves(r2.proof, ProvedOnCommit(b.entries, p.addr), b.entries))
  {
    var sealed := c.Sealed(p.data, p.addr, p.iv);
    var h1 := h.(phase := DataReceived(sealed));
    assert HostStep(h, CommitPage(sealed)) == (h1, Ack);
    assert HostStep(h1, CommitHmac(p.addr, p.iv, TagOf(c, p))) == CommitStep(h1, p.addr, p.iv, TagOf(c, p));
    CommitKeepsHost(l, c, b, p, h);
    WriteIgnoresPhase(h, DataReceived(sealed), p.addr, sealed, TagOf(c, p), p.iv);
    if 0 < |b.entries| <= 128 {
      CommitStepAccepts(l, b, h1, p, TagOf(c, p));
    }
  }

  lemma WriteIgnoresPhase(h: HostState, phase: Phase, addr: u32, data: PageData, mac: Mac, iv: u32)
    ensures WritePage(h.(phase := phase), addr, data, mac, iv) == WritePage(h, addr, data, mac, iv).(phase := phase)
  {
  }

  lemma CommitStepAccepts(l: Layout, b: Backing, h: HostState, p: Page, mac: Mac)
    requires h.phase.DataReceived? && h.entries == b.entries && EntriesInv(l, b) && NextVersion(l, b, p)
    requires WritePage(h, p.addr, h.phase.data, mac, p.iv).alive
    requires 0 < |b.entries| <= 128
    ensures
      var (h', r) := CommitStep(h, p.addr, p.iv, mac);
      && h' == WritePage(h, p.addr, h.phase.data, mac, p.iv).(phase := Idle)
      && r.ProofReply? && Proves(r.proof, ProvedOnCommit(b.entries, p.addr), b.entries)
  {
    var m := IndexOf(b.entries, p.addr);
    EntryIffExists(l, b, p.addr);
    if m >= 0 {
      OwnPathProves(b.entries, m);
    } else {
      OwnPathProves(b.entries, |b.entries| - 1);
    }
  }

  /**
   A page the host has never seen is recorded exactly when the tree is not empty and the
   proof of its last entry fits in one message; so the first data page has to come with the application.
   */
  lemma NewPageRecorded(h: HostState, addr: u32, iv: u32, mac: Mac)
    requires h.alive && h.phase.DataReceived? && Aligned(addr) && addr !in h.pages && IndexOf(h.entries, addr) == -1
    ensures
      CommitStep(h, addr, iv, mac).1.ProofReply?
      <==> h.entries != [] && |Path(|h.entries| - 1, h.entries)| <= MAX_PROOF_STEPS
  {
    var proof := ProofOf(h.entries, |h.entries| - 1);
    assert proof.None? <==> h.entries == [];
  }
}
