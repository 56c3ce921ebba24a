/**
 System calls that walk guest memory page by page, vm/src/ecall.c: each equals
 its definition on the flat memory, whatever pages the buffers cross, share or
 evict.
 */
module Syscalls {
  import opened Machine
  import opened Pages
  import opened PagedState
  import opened Flat
  import opened Vm
  import opened Runs

  /** An access to the page of `addr`. */
  function Touch(addr: u32, writeable: bool): Access {
    if writeable then Store(addr, 1, 0) else Load(addr, 1)
  }

  /** The page accesses for a buffer: one for each part that stays in a page. */
  function Touches(addr: u32, size: nat, writeable: bool): seq<Access>
    decreases size
  {
    if size == 0 then []
    else
      var n := BufferMinSize(addr, size);
      [Touch(addr, writeable)] + Touches(Wrap32(addr + n), size - n, writeable)
  }

  /** From where `past` ended, none of these accesses is blocked. */
  ghost predicate Clear(l: Layout, past: Past, more: seq<Access>) {
    forall k :: 0 < k <= |more| ==> !Blocked(l, past.start, past.made + more[..k])
  }

  /** The accesses of a call: `made` were made, then comes `a`. */
  predicate Splits(all: seq<Access>, made: seq<Access>, a: Access, rest: seq<Access>) {
    all == made + ([a] + rest)
  }

  lemma LastAccess(made: seq<Access>, a: Access)
    ensures Splits(made + [a], made, a, [])
  {
    assert [a] + [] == [a];
  }

  lemma ClearNext(l: Layout, past: Past, all: seq<Access>, made: seq<Access>, a: Access, rest: seq<Access>)
    requires Splits(all, made, a, rest)
    ensures Clear(l, past, all) ==> !Blocked(l, past.Then(made).start, past.Then(made).made + [a])
    ensures past.Then(made).Then([a]) == past.Then(made + [a])
    ensures all == (made + [a]) + rest
  {
    hide Blocked;
    assert all[..|made| + 1] == made + [a];
    assert past.made + (made + [a]) == (past.made + made) + [a];
  }

  lemma ThenNothing(past: Past)
    ensures past.Then([]) == past
  {
  }

  /** get_buffer: a pointer to a guest buffer inside one page. */
  method GetBuffer(d: Device, addr: u32, size: nat, writeable: bool, ghost past: Past, ghost f: FlatMemory)
      returns (ok: bool, k: Kind, slot: nat)
    requires Going(d, past, f)
    modifies d.Repr()
    ensures ok ==> Going(d, past.Then([Touch(addr, writeable)]), f) && d.Holds(k, slot, addr)
    ensures ok ==> 0 < size <= BufferMaxSize(addr) && addr > 0 && addr + size <= U32_MAX
    ensures ok && writeable ==> k != Code
    ensures d.channel.honest && 0 < size <= BufferMaxSize(addr) && !ok ==>
      Blocked(d.layout, past.start, past.made + [Touch(addr, writeable)])
    ensures d.channel.honest && ok ==> d.HostIo() == old(d.HostIo())
  {
    hide Device.Linked, CachesInv, Frontier, Agrees, Reach, Advanced, Blocked;
    k, slot := Code, 0;
    if size == 0 || size > PAGE_SIZE {
      return false, k, slot;
    }
    ok := FitInPage(addr, size);
    if !ok {
      return;
    }
    ok, k, slot := NextPage(d, Touch(addr, writeable), past, f);
    if ok {
      AlignedGap(PageStart(addr), d.layout.Of(k).end);
    }
  }

  /** Read a buffer inside one page. */
  method ReadBuffer(d: Device, addr: u32, n: nat, ghost past: Past, ghost f: FlatMemory) returns (ok: bool, bytes: seq<u8>)
    requires Going(d, past, f)
    modifies d.Repr()
    ensures ok ==> Going(d, past.Then([Touch(addr, false)]), f) && bytes == Bytes(f, addr, n) && n > 0
    ensures ok ==> addr > 0 && addr + n <= U32_MAX
    ensures d.channel.honest && 0 < n <= BufferMaxSize(addr) && !ok ==>
      Blocked(d.layout, past.start, past.made + [Touch(addr, false)])
    ensures d.channel.honest && ok ==> d.HostIo() == old(d.HostIo())
  {
    hide Device.Valid, Agrees, Reach, Advanced, Blocked;
    bytes := [];
    var k, slot;
    ok, k, slot := GetBuffer(d, addr, n, false, past, f);
    if ok {
      bytes := d.LoadBytes(k, slot, addr, n);
      BytesAgree(d.mem, f, addr, n);
    }
  }

  /** Overwrite a buffer inside one page. */
  method WriteBuffer(d: Device, addr: u32, bytes: seq<u8>, ghost past: Past, ghost f: FlatMemory) returns (ok: bool)
    requires Going(d, past, f)
    modifies d.Repr()
    ensures ok ==> Going(d, past.Then([Touch(addr, true)]), Write(f, addr, bytes)) && bytes != []
    ensures ok ==> addr > 0 && addr + |bytes| <= U32_MAX
    ensures d.channel.honest && 0 < |bytes| <= BufferMaxSize(addr) && !ok ==>
      Blocked(d.layout, past.start, past.made + [Touch(addr, true)])
    ensures d.channel.honest && ok ==> d.HostIo() == old(d.HostIo())
  {
    hide Device.Valid, Agrees, Overwritten, Reach, Advanced, Blocked;
    var k, slot;
    ok, k, slot := GetBuffer(d, addr, |bytes|, true, past, f);
    if ok {
      ghost var before := d.mem;
      d.StoreBytes(k, slot, addr, bytes);
      OverwrittenAgrees(before, d.mem, f, addr, bytes);
    }
  }

  lemma GoingSame(d: Device, past: Past, f: FlatMemory, g: FlatMemory)
    requires Going(d, past, f) && Same(f, g)
    ensures Going(d, past, g)
  {
    hide Device.Valid, Agrees, Reach, Advanced;
    SameAgrees(d.mem, f, g);
  }

  /** Touches up to the end of a page, and then those from there. */
  lemma {:induction false} TouchesAppend(addr: u32, done: nat, more: nat, writeable: bool)
    requires addr + done <= U32_MAX && (done == 0 || Aligned(addr + done))
    ensures Touches(addr, done + more, writeable) == Touches(addr, done, writeable) + Touches(addr + done, more, writeable)
    decreases done
  {
    if done > 0 {
      var n := BufferMaxSize(addr);
      UpToPageEnd(addr, done);
      WrapSmall(addr + n);
      TouchesAppend(addr + n, done - n, more, writeable);
    }
  }

  lemma UpToPageEnd(addr: u32, done: nat)
    requires done > 0 && addr + done <= U32_MAX && Aligned(addr + done)
    ensures BufferMaxSize(addr) <= done && BufferMinSize(addr, done) == BufferMaxSize(addr)
  {
    AlignedGap(PageStart(addr), addr + done);
  }

  lemma TouchesUnfold(addr: u32, size: nat, writeable: bool)
    requires size > 0
    ensures
      var n := BufferMinSize(addr, size);
      Touches(addr, size, writeable) == [Touch(addr, writeable)] + Touches(Wrap32(addr + n), size - n, writeable)
  {
  }

  lemma NoTouches(addr: u32, writeable: bool)
    ensures Touches(addr, 0, writeable) == []
  {
  }

  // ---- memset ----

  /** sys_memset fills exactly the range; it does not fail if no access to the pages of the range is blocked. */
  method SysMemset(d: Device, addr: u32, c: int, size: u32, ghost past: Past, ghost f: FlatMemory) returns (ok: bool, ret: u32)
    requires Going(d, past, f)
    modifies d.Repr()
    ensures ret == addr
    ensures ok ==> Going(d, past.Then(Touches(addr, size, true)), Write(f, addr, Repeat<u8>(c % 0x100, size)))
    ensures ok && size > 0 ==> addr + size <= U32_MAX
    ensures d.channel.honest && Clear(d.layout, past, Touches(addr, size, true)) ==> ok
    ensures d.channel.honest && ok ==> d.HostIo() == old(d.HostIo())
  {
    hide Going, Past.Then, Clear, Blocked, Write, Same, BufferMaxSize, Touches, Touch, Wrap32;
    WrapSmall(addr);
    ret := addr;
    ok := true;
    var p, rest := addr, size;
    ghost var all, made := Touches(addr, size, true), [];
    ghost var done := 0;
    ThenNothing(past);
    WriteNothing(f, addr);
    GoingSame(d, past, f, Write(f, addr, Repeat<u8>(c % 0x100, 0)));
    while rest > 0
      invariant done + rest == size && p == Wrap32(addr + done)
      invariant Going(d, past.Then(made), Write(f, addr, Repeat<u8>(c % 0x100, done)))
      invariant all == made + Touches(p, rest, true)
      invariant done > 0 ==> addr + done <= U32_MAX
      invariant d.channel.honest ==> d.HostIo() == old(d.HostIo())
    {
      var n := BufferMinSize(p, rest);
      ghost var g, filled := Write(f, addr, Repeat<u8>(c % 0x100, done)), Repeat<u8>(c % 0x100, done);
      WrapSmall(addr + done);
      TouchesUnfold(p, rest, true);
      ClearNext(d.layout, past, all, made, Touch(p, true), Touches(Wrap32(p + n), rest - n, true));
      ok := WriteBuffer(d, p, Repeat<u8>(c % 0x100, n), past.Then(made), g);
      if !ok {
        return;
      }
      made := made + [Touch(p, true)];
      WriteAppend(f, addr, filled, Repeat<u8>(c % 0x100, n));
      assert filled + Repeat<u8>(c % 0x100, n) == Repeat<u8>(c % 0x100, done + n);
      GoingSame(d, past.Then(made), Write(g, p, Repeat<u8>(c % 0x100, n)), Write(f, addr, Repeat<u8>(c % 0x100, done + n)));
      p := Wrap32(p + n);
      rest := rest - n;
      done := done + n;
    }
    NoTouches(p, true);
    assert made == all;
  }

  // ---- memcpy ----

  /** Bytes copied in one go: up to the end of either page. */
  function Chunk(dst: u32, src: u32, size: nat): (n: nat)
    ensures n <= size && (size > 0 ==> n > 0)
  {
    BufferMinSize(src, BufferMinSize(dst, size))
  }

  /** What a chunk by chunk copy does to a flat memory. */
  function ChunkCopy(f: FlatMemory, dst: u32, src: u32, size: nat): FlatMemory
    decreases size
  {
    if size == 0 then f
    else
      var n := Chunk(dst, src, size);
      ChunkCopy(Write(f, dst, Bytes(f, src, n)), Wrap32(dst + n), Wrap32(src + n), size - n)
  }

  /** One chunk, a source not below the destination, or no overlap at all. */
  predicate CopiesWhole(dst: u32, src: u32, size: nat) {
    size == Chunk(dst, src, size) || dst <= src || src + size <= dst
  }

  lemma {:induction false} ChunkCopyIsCopy(f: FlatMemory, dst: u32, src: u32, size: nat)
    requires dst + size <= U32_MAX && src + size <= U32_MAX && CopiesWhole(dst, src, size)
    ensures Same(ChunkCopy(f, dst, src, size), Write(f, dst, Bytes(f, src, size)))
    decreases size
  {
    hide Chunk, Write, Bytes, Wrap32;
    var n := Chunk(dst, src, size);
    WrapSmall(dst + n);
    WrapSmall(src + n);
    var x, y := Bytes(f, src, n), Bytes(f, src + n, size - n);
    var g := Write(f, dst, x);
    if size > 0 {
      BytesAppend(f, src, n, size - n);
      WriteAppend(f, dst, x, y);
      if n < size {
        ChunkCopyIsCopy(g, dst + n, src + n, size - n);
        BytesBeside(f, dst, x, src + n, size - n);
      } else {
        WriteNothing(g, dst + n);
        assert y == [];
      }
    } else {
      WriteNothing(f, dst);
      assert Bytes(f, src, 0) == [];
    }
  }

  ghost predicate AllZero(f: FlatMemory) {
    forall a: u32 :: f(a) == 0
  }

  lemma {:induction false} ZerosStayZeros(f: FlatMemory, dst: u32, src: u32, size: nat)
    requires AllZero(f)
    ensures AllZero(ChunkCopy(f, dst, src, size))
    decreases size
  {
    if size > 0 {
      var n := Chunk(dst, src, size);
      forall i | 0 <= i < n
        ensures Bytes(f, src, n)[i] == 0
      {
        assert Bytes(f, src, n)[i] == f(Wrap32(src + i));
      }
      ZerosStayZeros(Write(f, dst, Bytes(f, src, n)), Wrap32(dst + n), Wrap32(src + n), size - n);
    }
  }

  /** A first chunk that reads zeros and covers the only byte that is not zero. */
  lemma FirstChunkErases(f: FlatMemory, dst: u32, src: u32, n: nat, at: u32)
    requires src + n <= U32_MAX && forall a: u32 :: a != at ==> f(a) == 0
    requires src + n <= at && dst <= at < dst + n
    ensures AllZero(Write(f, dst, Bytes(f, src, n)))
  {
    forall i | 0 <= i < n
      ensures Bytes(f, src, n)[i] == 0
    {
      BytesAt(f, src, n, i);
    }
  }

  /**
   The condition is exact: a forward overlap of more than one chunk loses bytes
   of some memory, as the first chunk overwrites source bytes still to be read.
   */
  lemma ChunkCopyIsCopyOnlyIf(dst: u32, src: u32, size: nat) returns (f: FlatMemory, at: u32)
    requires dst + size <= U32_MAX && src + size <= U32_MAX && !CopiesWhole(dst, src, size)
    ensures ChunkCopy(f, dst, src, size)(at) != Write(f, dst, Bytes(f, src, size))(at)
  {
    hide Chunk, Wrap32, Bytes;
    var n := Chunk(dst, src, size);
    var j := if dst - src > n then dst - src else n;
    f, at := (a: u32) => if a == src + j then 1 else 0, dst + j;
    FirstChunkErases(f, dst, src, n, src + j);
    ZerosStayZeros(Write(f, dst, Bytes(f, src, n)), Wrap32(dst + n), Wrap32(src + n), size - n);
    ChunkCopyUnfolds(f, dst, src, size);
    BytesAt(f, src, size, j);
  }

  /** The page accesses of a copy: the source and the destination of every chunk. */
  function CopyTouches(dst: u32, src: u32, size: nat): seq<Access>
    decreases size
  {
    if size == 0 then []
    else
      var n := Chunk(dst, src, size);
      [Touch(src, false)] + ([Touch(dst, true)] + CopyTouches(Wrap32(dst + n), Wrap32(src + n), size - n))
  }

  lemma CopyTouchesUnfold(dst: u32, src: u32, size: nat)
    requires size > 0
    ensures
      var n := Chunk(dst, src, size);
      CopyTouches(dst, src, size) == [Touch(src, false)] + ([Touch(dst, true)] + CopyTouches(Wrap32(dst + n), Wrap32(src + n), size - n))
  {
  }

  /**
   sys_memcpy: a chunk by chunk copy, hence a whole copy whenever that is not ruled out by
   overlap; it does not fail if no access to the pages of the two ranges is blocked.
   */
  method SysMemcpy(d: Device, dst: u32, src: u32, size: u32, ghost past: Past, ghost f: FlatMemory) returns (ok: bool, ret: u32)
    requires Going(d, past, f)
    modifies d.Repr()
    ensures ret == dst
    ensures ok ==> Going(d, past.Then(CopyTouches(dst, src, size)), ChunkCopy(f, dst, src, size))
    ensures ok && size > 0 ==> dst + size <= U32_MAX && src + size <= U32_MAX
    ensures ok && CopiesWhole(dst, src, size) ==> Agrees(d.mem, Write(f, dst, Bytes(f, src, size)))
    ensures d.channel.honest && Clear(d.layout, past, CopyTouches(dst, src, size)) ==> ok
    ensures d.channel.honest && ok ==> d.HostIo() == old(d.HostIo())
  {
    hide Going, Past.Then, Clear, Blocked, Agrees, Write, Same, BufferMaxSize;
    hide CopiesWhole, ChunkCopy, CopyTouches, Touch, Bytes, Wrap32;
    WrapSmall(dst);
    WrapSmall(src);
    ret := dst;
    ok := true;
    var p, q, rest := dst, src, size;
    ghost var g, done := f, 0;
    ghost var all, made := CopyTouches(dst, src, size), [];
    ThenNothing(past);
    while rest > 0
      invariant done + rest == size && p == Wrap32(dst + done) && q == Wrap32(src + done)
      invariant Going(d, past.Then(made), g) && ChunkCopy(g, p, q, rest) == ChunkCopy(f, dst, src, size)
      invariant all == made + CopyTouches(p, q, rest)
      invariant done > 0 ==> dst + done <= U32_MAX && src + done <= U32_MAX
      invariant d.channel.honest ==> d.HostIo() == old(d.HostIo())
    {
      var a := BufferMinSize(p, rest);
      var n := BufferMinSize(q, a);
      ghost var after := CopyTouches(Wrap32(p + n), Wrap32(q + n), rest - n);
      CopyTouchesUnfold(p, q, rest);
      ClearNext(d.layout, past, all, made, Touch(q, false), [Touch(p, true)] + after);
      var tmp;
      ok, tmp := ReadBuffer(d, q, n, past.Then(made), g);
      if !ok {
        return;
      }
      made := made + [Touch(q, false)];
      ClearNext(d.layout, past, all, made, Touch(p, true), after);
      ok := WriteBuffer(d, p, tmp, past.Then(made), g);
      if !ok {
        return;
      }
      made := made + [Touch(p, true)];
      ChunkCopyUnfolds(g, p, q, rest);
      WrapSmall(dst + done);
      WrapSmall(src + done);
      g := Write(g, p, tmp);
      p, q, rest := Wrap32(p + n), Wrap32(q + n), rest - n;
      done := done + n;
    }
    CopyTouchesEnd(p, q);
    assert made == all;
    ChunkCopyEnds(g, p, q);
    GoingAgrees(d, past.Then(made), g);
    if CopiesWhole(dst, src, size) {
      CopyEnds(d.mem, f, dst, src, size);
    }
  }

  lemma CopyTouchesEnd(dst: u32, src: u32)
    ensures CopyTouches(dst, src, 0) == []
  {
  }

  lemma CopyEnds(mem: map<u32, PageData>, f: FlatMemory, dst: u32, src: u32, size: nat)
    requires Agrees(mem, ChunkCopy(f, dst, src, size)) && CopiesWhole(dst, src, size)
    requires size > 0 ==> dst + size <= U32_MAX && src + size <= U32_MAX
    ensures Agrees(mem, Write(f, dst, Bytes(f, src, size)))
  {
    if size > 0 {
      ChunkCopyIsCopy(f, dst, src, size);
    } else {
      WriteNothing(f, dst);
      assert Bytes(f, src, 0) == [];
    }
    SameAgrees(mem, ChunkCopy(f, dst, src, size), Write(f, dst, Bytes(f, src, size)));
  }

  lemma ChunkCopyUnfolds(f: FlatMemory, dst: u32, src: u32, size: nat)
    requires size > 0
    ensures
      var n := Chunk(dst, src, size);
      ChunkCopy(f, dst, src, size) == ChunkCopy(Write(f, dst, Bytes(f, src, n)), Wrap32(dst + n), Wrap32(src + n), size - n)
  {
  }

  lemma ChunkCopyEnds(f: FlatMemory, dst: u32, src: u32)
    ensures ChunkCopy(f, dst, src, 0) == f
  {
  }

  // ---- copies between the guest and the device's own buffers ----

  lemma NoBytes(f: FlatMemory, addr: u32)
    ensures Bytes(f, addr, 0) == []
  {
  }

  /** copy_guest_buffer. */
  method CopyGuestBuffer(d: Device, src: u32, size: nat, ghost past: Past, ghost f: FlatMemory) returns (ok: bool, buf: seq<u8>)
    requires Going(d, past, f)
    modifies d.Repr()
    ensures ok ==> Going(d, past.Then(Touches(src, size, false)), f) && buf == Bytes(f, src, size)
    ensures d.channel.honest && Clear(d.layout, past, Touches(src, size, false)) ==> ok
    ensures d.channel.honest && ok ==> d.HostIo() == old(d.HostIo())
  {
    hide Going, Past.Then, Clear, Blocked, BufferMaxSize, Bytes, Touches, Touch, Wrap32;
    NoBytes(f, src);
    WrapSmall(src);
    ok, buf := true, [];
    var p, rest := src, size;
    ghost var all, made := Touches(src, size, false), [];
    ThenNothing(past);
    while rest > 0
      invariant Going(d, past.Then(made), f) && |buf| + rest == size && p == Wrap32(src + |buf|)
      invariant all == made + Touches(p, rest, false)
      invariant buf == Bytes(f, src, |buf|)
      invariant |buf| > 0 ==> src + |buf| <= U32_MAX
      invariant d.channel.honest ==> d.HostIo() == old(d.HostIo())
    {
      var n := BufferMinSize(p, rest);
      TouchesUnfold(p, rest, false);
      ClearNext(d.layout, past, all, made, Touch(p, false), Touches(Wrap32(p + n), rest - n, false));
      var bytes;
      ok, bytes := ReadBuffer(d, p, n, past.Then(made), f);
      if !ok {
        return;
      }
      made := made + [Touch(p, false)];
      WrapSmall(src + |buf|);
      BytesAppend(f, src, |buf|, n);
      buf := buf + bytes;
      p, rest := Wrap32(p + n), rest - n;
    }
    NoTouches(p, false);
    assert made == all;
  }

  /** copy_host_buffer. */
  method CopyHostBuffer(d: Device, dst: u32, buf: seq<u8>, ghost past: Past, ghost f: FlatMemory) returns (ok: bool)
    requires Going(d, past, f)
    modifies d.Repr()
    ensures ok ==> Going(d, past.Then(Touches(dst, |buf|, true)), Write(f, dst, buf))
    ensures d.channel.honest && Clear(d.layout, past, Touches(dst, |buf|, true)) ==> ok
    ensures d.channel.honest && ok ==> d.HostIo() == old(d.HostIo())
  {
    hide Going, Past.Then, Clear, Blocked, Write, Same, BufferMaxSize, Touches, Touch, Wrap32;
    WrapSmall(dst);
    ok := true;
    var p, done := dst, 0;
    ghost var all, made := Touches(dst, |buf|, true), [];
    ThenNothing(past);
    WriteNothing(f, dst);
    GoingSame(d, past, f, Write(f, dst, buf[..0]));
    while done < |buf|
      invariant 0 <= done <= |buf| && p == Wrap32(dst + done)
      invariant Going(d, past.Then(made), Write(f, dst, buf[..done]))
      invariant all == made + Touches(p, |buf| - done, true)
      invariant done > 0 ==> dst + done <= U32_MAX
      invariant d.channel.honest ==> d.HostIo() == old(d.HostIo())
    {
      var n := BufferMinSize(p, |buf| - done);
      ghost var g := Write(f, dst, buf[..done]);
      TouchesUnfold(p, |buf| - done, true);
      ClearNext(d.layout, past, all, made, Touch(p, true), Touches(Wrap32(p + n), |buf| - done - n, true));
      ok := WriteBuffer(d, p, buf[done..done + n], past.Then(made), g);
      if !ok {
        return;
      }
      made := made + [Touch(p, true)];
      WrapSmall(dst + done);
      WriteAppend(f, dst, buf[..done], buf[done..done + n]);
      assert buf[..done] + buf[done..done + n] == buf[..done + n];
      GoingSame(d, past.Then(made), Write(g, p, buf[done..done + n]), Write(f, dst, buf[..done + n]));
      p, done := Wrap32(p + n), done + n;
    }
    NoTouches(p, true);
    assert made == all && buf[..done] == buf;
  }

  // ---- strlen and strnlen ----

  /** Index of the first zero of a chunk, or its length (the C library's strnlen). */
  method StrnlenOf(bytes: seq<u8>) returns (i: nat)
    ensures i <= |bytes| && (i < |bytes| ==> bytes[i] == 0)
    ensures forall j :: 0 <= j < i ==> bytes[j] != 0
  {
    i := 0;
    while i < |bytes| && bytes[i] != 0
      invariant i <= |bytes| && forall j :: 0 <= j < i ==> bytes[j] != 0
    {
      i := i + 1;
    }
  }

  function CharAt(f: FlatMemory, addr: u32, i: nat): u8 {
    f(Wrap32(addr + i))
  }

  /** No zero among the first n bytes of a string. */
  ghost predicate NoZero(f: FlatMemory, addr: u32, n: nat) {
    forall i :: 0 <= i < n ==> CharAt(f, addr, i) != 0
  }

  lemma NoZeroYet(f: FlatMemory, addr: u32)
    ensures NoZero(f, addr, 0)
  {
  }

  lemma NoZeroAppend(f: FlatMemory, addr: u32, m: nat, n: nat, bytes: seq<u8>)
    requires addr + m <= U32_MAX && NoZero(f, addr, m)
    requires bytes == Bytes(f, addr + m, n) && forall j :: 0 <= j < n ==> bytes[j] != 0
    ensures NoZero(f, addr, m + n)
  {
    forall i | 0 <= i < m + n
      ensures CharAt(f, addr, i) != 0
    {
      if i >= m {
        var j := i - m;
        assert bytes[j] == f(Wrap32(addr + m + j));
      }
    }
  }

  /** What the first zero of the next bytes says of the string. */
  lemma StringChunk(f: FlatMemory, addr: u32, size: nat, p: u32, bytes: seq<u8>, length: nat)
    requires addr + size <= U32_MAX && p == Wrap32(addr + size) && NoZero(f, addr, size)
    requires bytes == Bytes(f, p, |bytes|) && length <= |bytes|
    requires (length < |bytes| ==> bytes[length] == 0) && forall j :: 0 <= j < length ==> bytes[j] != 0
    ensures NoZero(f, addr, size + length) && (length < |bytes| ==> CharAt(f, addr, size + length) == 0)
  {
    hide NoZero;
    assert bytes[..length] == Bytes(f, p, length);
    NoZeroAppend(f, addr, size, length, bytes[..length]);
    assert length < |bytes| ==> bytes[length] == f(Wrap32(p + length));
  }

  /** n is the index of the first zero of the string, or `maxlen` if there is none before it. */
  ghost predicate IsLength(f: FlatMemory, addr: u32, maxlen: nat, n: nat) {
    n <= maxlen && NoZero(f, addr, n) && (n < maxlen ==> CharAt(f, addr, n) == 0)
  }

  /** The C library's strnlen on the flat memory. */
  function LengthOf(f: FlatMemory, addr: u32, maxlen: nat): (n: nat)
    ensures n <= maxlen
    decreases maxlen
  {
    if maxlen == 0 || f(addr) == 0 then 0 else 1 + LengthOf(f, Wrap32(addr + 1), maxlen - 1)
  }

  lemma {:induction false} LengthIs(f: FlatMemory, addr: u32, maxlen: nat)
    ensures IsLength(f, addr, maxlen, LengthOf(f, addr, maxlen))
    decreases maxlen
  {
    WrapSmall(addr);
    if maxlen > 0 && f(addr) != 0 {
      var next := Wrap32(addr + 1);
      LengthIs(f, next, maxlen - 1);
      var n := LengthOf(f, addr, maxlen);
      forall i | 0 < i <= n
        ensures CharAt(f, addr, i) == CharAt(f, next, i - 1)
      {
        WrapTwice(addr + 1, i - 1);
      }
    }
  }

  lemma WrapTwice(x: nat, y: nat)
    ensures Wrap32(Wrap32(x) + y) == Wrap32(x + y)
  {
  }

  /** The first bytes of a string have no zero, so they are part of it. */
  lemma NotLonger(f: FlatMemory, addr: u32, maxlen: nat, size: nat)
    requires NoZero(f, addr, size) && size <= maxlen
    ensures size <= LengthOf(f, addr, maxlen)
    ensures size < maxlen && CharAt(f, addr, size) == 0 ==> size == LengthOf(f, addr, maxlen)
  {
    LengthIs(f, addr, maxlen);
  }

  /** How many bytes of a string of n characters are looked at. */
  function Examined(maxlen: nat, n: nat): nat {
    if n < maxlen then n + 1 else maxlen
  }

  /** Going on through a buffer of which `size` of t bytes are done, by a chunk that may go beyond them. */
  lemma NextPart(all: seq<Access>, made: seq<Access>, p: u32, t: nat, size: nat, chunk: nat, writeable: bool)
    requires size < t && all == made + Touches(p, t - size, writeable)
    requires size + chunk < t ==> chunk == BufferMaxSize(p)
    requires size + chunk >= t ==> t - size <= BufferMaxSize(p)
    ensures
      var rest := if size + chunk < t then Touches(Wrap32(p + chunk), t - size - chunk, writeable) else [];
      Splits(all, made, Touch(p, writeable), rest)
  {
    hide Touch, Wrap32;
    TouchesUnfold(p, t - size, writeable);
    if size + chunk >= t {
      NoTouches(Wrap32(p + (t - size)), writeable);
    }
  }

  /** The string at an address ends before the address space does. */
  predicate Terminated(f: FlatMemory, addr: u32) {
    LengthOf(f, addr, U32_MAX) < U32_MAX
  }

  /**
   sys_strlen returns the index of the first zero; on a string that has one it does not fail if
   no access to the pages of the string and its zero is blocked.
   */
  method SysStrlen(d: Device, addr: u32, ghost past: Past, ghost f: FlatMemory) returns (ok: bool, size: nat)
    requires Going(d, past, f)
    modifies d.Repr()
    ensures ok ==> Terminated(f, addr) && size == LengthOf(f, addr, U32_MAX) && addr + size <= U32_MAX
    ensures ok ==> Going(d, past.Then(Touches(addr, size + 1, false)), f)
    ensures
      var all := Touches(addr, LengthOf(f, addr, U32_MAX) + 1, false);
      d.channel.honest && Terminated(f, addr) && Clear(d.layout, past, all) ==> ok
    ensures d.channel.honest && ok ==> d.HostIo() == old(d.HostIo())
  {
    hide Going, Past.Then, Clear, Blocked, NoZero, LengthOf, Touches, Touch, Bytes, Wrap32, CharAt;
    WrapSmall(addr);
    size := 0;
    var p := addr;
    ghost var n := LengthOf(f, addr, U32_MAX);
    ghost var all, made := Touches(addr, n + 1, false), [];
    ThenNothing(past);
    NoZeroYet(f, addr);
    while true
      invariant Going(d, past.Then(made), f) && NoZero(f, addr, size) && p == Wrap32(addr + size)
      invariant size <= n && all == made + Touches(p, n + 1 - size, false)
      invariant addr + size <= U32_MAX
      invariant d.channel.honest ==> d.HostIo() == old(d.HostIo())
      decreases U32_MAX - p
    {
      var chunk := BufferMaxSize(p);
      WrapSmall(addr + size);
      NextPart(all, made, p, n + 1, size, chunk, false);
      ClearNext(d.layout, past, all, made, Touch(p, false),
                if size + chunk < n + 1 then Touches(Wrap32(p + chunk), n + 1 - size - chunk, false) else []);
      var bytes;
      ok, bytes := ReadBuffer(d, p, chunk, past.Then(made), f);
      if !ok {
        return;
      }
      made := made + [Touch(p, false)];
      var length := StrnlenOf(bytes);
      StringChunk(f, addr, size, p, bytes, length);
      ghost var before := size;
      size := size + length;
      NotLonger(f, addr, U32_MAX, size);
      if length < chunk {
        assert made == all;
        return;
      }
      WrapSmall(p + chunk);
      WrapSmall(addr + size);
      p := p + chunk;
    }
  }

  /**
   sys_strnlen returns the index of the first zero, or the maximum if there is none before it;
   it does not fail if no access to the pages of the bytes it looks at is blocked.
   */
  method SysStrnlen(d: Device, addr: u32, maxlen: u32, ghost past: Past, ghost f: FlatMemory) returns (ok: bool, size: nat)
    requires Going(d, past, f)
    modifies d.Repr()
    ensures ok ==> size == LengthOf(f, addr, maxlen)
    ensures ok ==> Going(d, past.Then(Touches(addr, Examined(maxlen, size), false)), f)
    ensures
      var all := Touches(addr, Examined(maxlen, LengthOf(f, addr, maxlen)), false);
      d.channel.honest && Clear(d.layout, past, all) ==> ok
    ensures d.channel.honest && ok ==> d.HostIo() == old(d.HostIo())
  {
    hide Going, Past.Then, Clear, Blocked, NoZero, LengthOf, Touches, Touch, BufferMaxSize, Bytes, Wrap32, CharAt;
    WrapSmall(addr);
    ok, size := true, 0;
    var p, rest := addr, maxlen;
    ghost var t := Examined(maxlen, LengthOf(f, addr, maxlen));
    ghost var all, made := Touches(addr, t, false), [];
    ThenNothing(past);
    NoZeroYet(f, addr);
    NotLonger(f, addr, maxlen, 0);
    while rest > 0
      invariant Going(d, past.Then(made), f) && NoZero(f, addr, size) && p == Wrap32(addr + size)
      invariant size + rest == maxlen && size <= t && (size > 0 ==> addr + size <= U32_MAX)
      invariant size <= LengthOf(f, addr, maxlen) && all == made + Touches(p, t - size, false)
      invariant d.channel.honest ==> d.HostIo() == old(d.HostIo())
    {
      var chunk := BufferMinSize(p, rest);
      WrapSmall(addr + size);
      NextPart(all, made, p, t, size, chunk, false);
      ghost var after := if size + chunk < t then Touches(Wrap32(p + chunk), t - size - chunk, false) else [];
      ClearNext(d.layout, past, all, made, Touch(p, false), after);
      var bytes;
      ok, bytes := ReadBuffer(d, p, chunk, past.Then(made), f);
      if !ok {
        return;
      }
      made := made + [Touch(p, false)];
      var length := StrnlenOf(bytes);
      StringChunk(f, addr, size, p, bytes, length);
      size := size + length;
      NotLonger(f, addr, maxlen, size);
      if length < chunk {
        assert made == all;
        return;
      }
      p, rest := Wrap32(p + chunk), rest - chunk;
      NoTouches(p, false);
    }
    NoTouches(p, false);
    assert made == all;
  }
}
