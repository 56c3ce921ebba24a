/**
 The signing handshake between vm/src/app_signature.c and host/app.py: the host
 ends up with the authentication tag of every page, in address order.
 */
module Signing {
  import opened Machine
  import opened Pages
  import opened Manifests

  /** One AES block, and the exclusive or of CBC chaining. */
  type Block = b: seq<bv8> | |b| == 16 witness seq(16, i => 0)

  function ZeroBlock(): Block {
    Repeat<bv8>(0, 16)
  }

  function Xor(a: Block, b: Block): (r: Block)
    ensures |r| == 16
  {
    seq(16, i requires 0 <= i < 16 => a[i] ^ b[i])
  }

  /** The 32 bytes of a tag, as the two AES blocks it is encrypted in. */
  datatype Tag = Tag(first: Block, second: Block)

  /** AES under the temporary key, and the HMAC of a page with its address and a counter of zero. */
  datatype Crypto = Crypto(encrypt: Block -> Block, decrypt: Block -> Block, hmac: (PageData, u32) -> Tag) {
    ghost predicate Valid() {
      forall b: Block {:trigger encrypt(b)} :: decrypt(encrypt(b)) == b
    }

    /** generate_hmac: the tag of a page that was never committed. */
    function Hmac(page: PageData, addr: u32): Tag {
      hmac(page, addr)
    }

    /** CBC over the two blocks of a tag. */
    function EncryptTag(iv: Block, tag: Tag): Tag {
      var first := encrypt(Xor(tag.first, iv));
      Tag(first, encrypt(Xor(tag.second, first)))
    }

    function DecryptTag(iv: Block, enc: Tag): Tag {
      Tag(Xor(decrypt(enc.first), iv), Xor(decrypt(enc.second), enc.first))
    }
  }

  /** The chaining value before the i-th of some encrypted tags, when the stream starts from `iv`. */
  function Previous(iv: Block, enc: seq<Tag>, i: nat): Block
    requires i <= |enc|
  {
    if i == 0 then iv else enc[i - 1].second
  }

  function ChainBefore(enc: seq<Tag>, i: nat): Block
    requires i <= |enc|
  {
    Previous(ZeroBlock(), enc, i)
  }

  /** `enc` is one CBC stream of `tags`, over page and section boundaries. */
  ghost predicate Chained(c: Crypto, tags: seq<Tag>, enc: seq<Tag>) {
    && |enc| == |tags|
    && (forall i :: 0 <= i < |enc| ==> enc[i] == c.EncryptTag(ChainBefore(enc, i), tags[i]))
  }

  lemma XorTwice(a: Block, b: Block)
    ensures Xor(Xor(a, b), b) == a
  {
    forall i | 0 <= i < 16
      ensures Xor(Xor(a, b), b)[i] == a[i]
    {
      XorBits(a[i], b[i]);
    }
  }

  lemma XorBits(x: bv8, y: bv8)
    ensures (x ^ y) ^ y == x
  {
  }

  lemma DecryptUndoesEncrypt(c: Crypto, iv: Block, tag: Tag)
    requires c.Valid()
    ensures c.DecryptTag(iv, c.EncryptTag(iv, tag)) == tag
  {
    hide Xor;
    var enc := c.EncryptTag(iv, tag);
    XorTwice(tag.first, iv);
    XorTwice(tag.second, enc.first);
    assert c.decrypt(enc.first) == Xor(tag.first, iv);
    assert c.decrypt(enc.second) == Xor(tag.second, enc.first);
  }

  lemma ChainGrows(c: Crypto, tags: seq<Tag>, enc: seq<Tag>, tag: Tag)
    requires Chained(c, tags, enc)
    ensures Chained(c, tags + [tag], enc + [c.EncryptTag(ChainBefore(enc, |enc|), tag)])
  {
    hide Xor, Crypto.EncryptTag;
    var next := c.EncryptTag(ChainBefore(enc, |enc|), tag);
    forall i: nat | i < |enc| + 1
      ensures (enc + [next])[i] == c.EncryptTag(ChainBefore(enc + [next], i), (tags + [tag])[i])
    {
      ChainKept(enc, next, i);
    }
  }

  lemma ChainKept(enc: seq<Tag>, next: Tag, i: nat)
    requires i <= |enc|
    ensures ChainBefore(enc + [next], i) == ChainBefore(enc, i)
  {
    hide ZeroBlock;
  }

  /** encrypt_hmac: encrypts a tag in place and moves the chain on. */
  method EncryptHmac(c: Crypto, iv: Block, mac: Tag) returns (enc: Tag, next: Block)
    ensures enc == c.EncryptTag(iv, mac) && next == enc.second
    ensures c.Valid() ==> c.DecryptTag(iv, enc) == mac
  {
    hide Xor;
    if c.Valid() {
      DecryptUndoesEncrypt(c, iv, mac);
    }
    var first := c.encrypt(Xor(mac.first, iv));
    enc := Tag(first, c.encrypt(Xor(mac.second, first)));
    next := enc.second;
  }

  /** decrypt_hmac: the AES object remembers the last ciphertext block from one list to the next. */
  method DecryptHmacs(c: Crypto, iv: Block, enc: seq<Tag>) returns (tags: seq<Tag>, next: Block)
    ensures |tags| == |enc|
    ensures forall i :: 0 <= i < |enc| ==> tags[i] == c.DecryptTag(Previous(iv, enc, i), enc[i])
    ensures next == Previous(iv, enc, |enc|)
  {
    hide Xor, Crypto.DecryptTag;
    tags, next := [], iv;
    for k := 0 to |enc|
      invariant |tags| == k && next == Previous(iv, enc, k)
      invariant forall i :: 0 <= i < k ==> tags[i] == c.DecryptTag(Previous(iv, enc, i), enc[i])
    {
      tags := tags + [c.DecryptTag(next, enc[k])];
      next := enc[k].second;
    }
  }

  /** The second list goes on where the first one stopped. */
  lemma ChainAcross(first: seq<Tag>, second: seq<Tag>, i: nat)
    requires i < |first + second|
    ensures i < |first| ==> ChainBefore(first + second, i) == Previous(ZeroBlock(), first, i)
    ensures i >= |first| ==>
      ChainBefore(first + second, i) == Previous(Previous(ZeroBlock(), first, |first|), second, i - |first|)
  {
    hide ZeroBlock;
  }

  /** Every page tagged under its own address. */
  function PageTags(c: Crypto, m: Manifest, pages: seq<PageData>): (tags: seq<Tag>)
    requires m.HasPages() && |pages| <= m.PageCount()
    ensures |tags| == |pages|
  {
    seq(|pages|, i requires 0 <= i < |pages| => (AddrFits(m, i); c.Hmac(pages[i], m.AddrOf(i))))
  }

  /** host/app.py: the pages of the two sections and the tags received for them. */
  class HostSigner {
    const code: seq<PageData>
    const data: seq<PageData>
    var sent: nat
    var codeMacs: seq<Tag>
    var dataMacs: seq<Tag>

    ghost predicate Valid()
      reads this
    {
      && sent <= |code| + |data|
      && |codeMacs| == (if sent <= |code| then sent else |code|)
      && |codeMacs| + |dataMacs| == sent
    }

    /** Every tag received so far. */
    ghost function Received(): seq<Tag>
      reads this
    {
      codeMacs + dataMacs
    }

    /** Every page sent so far. */
    ghost function Sent(): seq<PageData>
      requires sent <= |code| + |data|
      reads this
    {
      (code + data)[..sent]
    }

    constructor (code: seq<PageData>, data: seq<PageData>)
      ensures Valid() && sent == 0 && this.code == code && this.data == data && codeMacs == dataMacs == []
    {
      this.code, this.data := code, data;
      sent, codeMacs, dataMacs := 0, [], [];
    }

    /** The answer to CMD_REQUEST_APP_PAGE; past the last page the host's status assertion fails. */
    method NextPage() returns (page: Option<PageData>)
      requires Valid()
      ensures page == if sent < |code| + |data| then Some((code + data)[sent]) else None
    {
      if sent < |code| {
        page := Some(code[sent]);
      } else if sent < |code| + |data| {
        page := Some(data[sent - |code|]);
      } else {
        page := None;
      }
    }

    method TakeMac(enc: Tag)
      requires Valid() && sent < |code| + |data|
      modifies this`sent, this`codeMacs, this`dataMacs
      ensures Valid() && sent == old(sent) + 1
      ensures Received() == old(Received()) + [enc] && Sent() == old(Sent()) + [(code + data)[old(sent)]]
    {
      if sent < |code| {
        codeMacs := codeMacs + [enc];
      } else {
        dataMacs := dataMacs + [enc];
      }
      sent := sent + 1;
    }

    /** The end of device_sign_app: both lists are decrypted with one AES object. */
    method DecryptMacs(c: Crypto, ghost tags: seq<Tag>)
      requires Valid() && c.Valid() && Chained(c, tags, Received())
      modifies this`codeMacs, this`dataMacs
      ensures Valid() && Received() == tags
    {
      hide Crypto.EncryptTag, Crypto.DecryptTag, Crypto.Valid;
      ghost var enc := Received();
      var next;
      var fromCode, fromData;
      fromCode, next := DecryptHmacs(c, ZeroBlock(), codeMacs);
      fromData, next := DecryptHmacs(c, next, dataMacs);
      forall i | 0 <= i < |enc|
        ensures (fromCode + fromData)[i] == tags[i]
      {
        ChainAcross(codeMacs, dataMacs, i);
        DecryptUndoesEncrypt(c, ChainBefore(enc, i), tags[i]);
      }
      assert |fromCode + fromData| == |tags|;
      codeMacs, dataMacs := fromCode, fromData;
    }
  }

  /** The device has asked for the pages the host sent, and answered with their chained tags. */
  ghost predicate InStep(host: HostSigner, c: Crypto, m: Manifest, iv: Block, hashed: seq<PageData>)
    reads host
  {
    && host.Valid() && m.HasPages() && host.sent <= m.PageCount()
    && hashed == host.Sent() && iv == ChainBefore(host.Received(), |host.Received()|)
    && Chained(c, PageTags(c, m, hashed), host.Received())
  }

  /** One round of compute_section_hmacs. */
  method ComputePageHmac(host: HostSigner, c: Crypto, ghost m: Manifest, iv0: Block, addr: u32, hashed0: seq<PageData>)
      returns (ok: bool, iv: Block, hashed: seq<PageData>)
    requires InStep(host, c, m, iv0, hashed0) && host.sent < m.PageCount() && addr == m.AddrOf(host.sent)
    modifies host`sent, host`codeMacs, host`dataMacs
    ensures InStep(host, c, m, iv, hashed)
    ensures ok == (old(host.sent) < |host.code| + |host.data|)
    ensures host.sent == old(host.sent) + (if ok then 1 else 0)
  {
    hide Chained, ChainBefore, Crypto.EncryptTag, Aligned, Crypto.Hmac;
    hide Manifest.AddrOf, Manifest.CodeCount, Manifest.DataCount, Manifest.PageCount;
    var page := host.NextPage();
    if page.None? {
      return false, iv0, hashed0;
    }
    ok, hashed := true, hashed0 + [page.value];
    var mac := c.Hmac(page.value, addr);
    assert PageTags(c, m, hashed) == PageTags(c, m, hashed0) + [mac];
    var enc;
    enc, iv := EncryptHmac(c, iv0, mac);
    ChainGrows(c, PageTags(c, m, hashed0), host.Received(), mac);
    LastChain(host.Received(), enc);
    host.TakeMac(enc);
  }

  lemma LastChain(received: seq<Tag>, enc: Tag)
    ensures ChainBefore(received + [enc], |received| + 1) == enc.second
    ensures |received + [enc]| == |received| + 1
  {
  }

  /** compute_section_hmacs: one page requested, hashed, authenticated and its encrypted tag sent, page by page. */
  method ComputeSectionHmacs(host: HostSigner, c: Crypto, ghost m: Manifest, ghost first: nat,
                             iv0: Block, start: u32, end: u32, hashed0: seq<PageData>)
      returns (ok: bool, iv: Block, hashed: seq<PageData>)
    requires InStep(host, c, m, iv0, hashed0) && host.sent == first && IsSection(m, first, start, end)
    modifies host`sent, host`codeMacs, host`dataMacs
    ensures InStep(host, c, m, iv, hashed)
    ensures start <= end && (ok <==> first + SectionCount(start, end) <= |host.code| + |host.data|)
    ensures ok ==> host.sent == first + SectionCount(start, end)
  {
    hide InStep, IsSection, Aligned, SectionCount;
    ok, iv, hashed := true, iv0, hashed0;
    var addr: u32 := start;
    StillValid(host, c, m, iv, hashed);
    SectionStarts(m, first, start, end);
    while addr < end
      invariant Aligned(addr) && start <= addr <= end && InStep(host, c, m, iv, hashed)
      invariant host.sent == first + SectionCount(start, addr) <= |host.code| + |host.data|
      decreases (end as int) - (addr as int)
    {
      NextInSection(m, first, start, addr, end);
      ok, iv, hashed := ComputePageHmac(host, c, m, iv, addr, hashed);
      if !ok {
        return;
      }
      addr := addr + PAGE_SIZE;
    }
  }

  /** The addresses from `start` to `end` are those of the pages from the `first` on. */
  predicate IsSection(m: Manifest, first: nat, start: u32, end: u32)
    requires m.HasPages()
  {
    || (first == 0 && start == m.code.start && end == m.code.end)
    || (first == m.CodeCount() && start == m.data.start && end == m.bss)
  }

  lemma SectionStarts(m: Manifest, first: nat, start: u32, end: u32)
    requires m.HasPages() && IsSection(m, first, start, end)
    ensures Aligned(start) && Aligned(end) && start <= end && SectionCount(start, start) == 0
  {
  }

  lemma NextInSection(m: Manifest, first: nat, start: u32, addr: u32, end: u32)
    requires m.HasPages() && IsSection(m, first, start, end) && Aligned(addr) && start <= addr < end
    ensures addr + PAGE_SIZE <= end && Aligned(addr + PAGE_SIZE)
    ensures SectionCount(start, addr + PAGE_SIZE) == SectionCount(start, addr) + 1 <= SectionCount(start, end)
    ensures first + SectionCount(start, addr) < m.PageCount() && m.AddrOf(first + SectionCount(start, addr)) == addr
  {
    PageIndex(start, addr);
    PageIndex(start, end);
    NextAligned(addr);
  }

  lemma StillValid(host: HostSigner, c: Crypto, m: Manifest, iv: Block, hashed: seq<PageData>)
    requires InStep(host, c, m, iv, hashed)
    ensures m.HasPages() && host.sent <= |host.code| + |host.data|
  {
  }

  /**
   handle_sign_app: the key is released exactly when the signed manifest commits to the
   pages received.  `hsmSigned` and `signed` are the outcomes of checking the manifest's
   signature and of making the device's own.
   */
  method HandleSignApp(host: HostSigner, c: Crypto, m: Manifest, hsmSigned: bool, signed: bool) returns (released: bool)
    requires host.Valid() && host.sent == 0 && m.HasPages()
    modifies host`sent, host`codeMacs, host`dataMacs
    ensures host.Valid()
    ensures released ==> host.sent == m.PageCount() && Chained(c, PageTags(c, m, host.Sent()), host.Received())
    ensures
      var pages := host.code + host.data;
      released <==> hsmSigned && signed && m.PageCount() <= |pages| && Commits(m, pages[..m.PageCount()])
  {
    hide Chained, Crypto.EncryptTag, Crypto.Hmac, Aligned, PageTags;
    if !hsmSigned {
      return false;
    }
    var ok, iv, hashed;
    StartInStep(host, c, m);
    ok, iv, hashed := ComputeSectionHmacs(host, c, m, 0, ZeroBlock(), m.code.start, m.code.end, []);
    if !ok {
      return false;
    }
    ok, iv, hashed := ComputeSectionHmacs(host, c, m, m.CodeCount(), iv, m.data.start, m.bss, hashed);
    if !ok {
      return false;
    }
    released := m.appHash == AppHash(m.code.start, m.code.end, m.data.start, m.bss, hashed) && signed;
  }

  predicate Commits(m: Manifest, pages: seq<PageData>) {
    m.appHash == AppHash(m.code.start, m.code.end, m.data.start, m.bss, pages)
  }

  lemma StartInStep(host: HostSigner, c: Crypto, m: Manifest)
    requires host.Valid() && host.sent == 0 && m.HasPages()
    ensures InStep(host, c, m, ZeroBlock(), [])
  {
  }

  /**
   device_sign_app: when it succeeds the host holds, in the clear, the tag of every page
   under its own address and counter 0, which are the tags the streaming device accepts.
   */
  method DeviceSignApp(host: HostSigner, c: Crypto, m: Manifest, hsmSigned: bool, signed: bool) returns (ok: bool)
    requires host.Valid() && host.sent == 0 && m.HasPages() && c.Valid()
    modifies host`sent, host`codeMacs, host`dataMacs
    ensures ok <==> (hsmSigned && signed && 0 < |host.code| + |host.data| == m.PageCount() && Commits(m, host.code + host.data))
    ensures ok ==> host.Received() == PageTags(c, m, host.code + host.data)
    ensures ok && |host.code| == m.CodeCount() ==> StaticTagsHeld(host, c, m)
  {
    hide Chained, Crypto.Hmac, Crypto.Valid, Aligned, PageTags;
    var released := HandleSignApp(host, c, m, hsmSigned, signed);
    // Without pages the first status is not a page request; with pages left over the last one is.
    if !released || host.sent != |host.code| + |host.data| || host.sent == 0 {
      assert (host.code + host.data)[..|host.code| + |host.data|] == host.code + host.data;
      return false;
    }
    assert (host.code + host.data)[..host.sent] == host.code + host.data;
    host.DecryptMacs(c, PageTags(c, m, host.code + host.data));
    ok := true;
    if |host.code| == m.CodeCount() {
      HoldsStaticTags(host, c, m);
    }
  }

  /** The tags of consecutive pages of a section. */
  function SectionTags(c: Crypto, start: u32, pages: seq<PageData>): (tags: seq<Tag>)
    requires start + PAGE_SIZE * |pages| <= U32_MAX
    ensures |tags| == |pages|
  {
    seq(|pages|, i requires 0 <= i < |pages| => c.Hmac(pages[i], start + PAGE_SIZE * i))
  }

  /** Each list has the tag of every page of its section, under the page's address. */
  ghost predicate StaticTagsHeld(host: HostSigner, c: Crypto, m: Manifest)
    requires m.HasPages()
    reads host
  {
    && m.code.start + PAGE_SIZE * |host.code| <= m.code.end && m.data.start + PAGE_SIZE * |host.data| <= m.bss
    && host.codeMacs == SectionTags(c, m.code.start, host.code)
    && host.dataMacs == SectionTags(c, m.data.start, host.data)
  }

  lemma HoldsStaticTags(host: HostSigner, c: Crypto, m: Manifest)
    requires host.Valid() && m.HasPages()
    requires host.sent == |host.code| + |host.data| == m.PageCount() && |host.code| == m.CodeCount()
    requires host.Received() == PageTags(c, m, host.code + host.data)
    ensures StaticTagsHeld(host, c, m)
  {
    hide Aligned, Crypto.Hmac;
    PageIndex(m.code.start, m.code.end);
    PageIndex(m.data.start, m.bss);
    var tags := host.Received();
    forall i: nat | i < |host.code|
      ensures host.codeMacs[i] == c.Hmac(host.code[i], m.code.start + PAGE_SIZE * i)
    {
      assert host.codeMacs[i] == tags[i];
    }
    forall i: nat | i < |host.data|
      ensures host.dataMacs[i] == c.Hmac(host.data[i], m.data.start + PAGE_SIZE * i)
    {
      assert host.dataMacs[i] == tags[|host.code| + i];
    }
  }
}
