/** The flat byte memory that the paged one refines. */
module Flat {
  import opened Machine
  import opened Pages
  import opened PagedState
  import Numerals

  /** A flat byte memory over all 32-bit addresses. */
  type FlatMemory = u32 -> u8

  /** The bytes from `addr` on, and their little-endian value. */
  function Bytes(f: FlatMemory, addr: u32, n: nat): (bytes: seq<u8>)
    ensures |bytes| == n
  {
    seq<u8>(n, i requires 0 <= i < n => f(Wrap32(addr + i)))
  }

  function Write(f: FlatMemory, addr: u32, bytes: seq<u8>): FlatMemory {
    (a: u32) => if addr <= a < addr + |bytes| then bytes[a - addr] else f(a)
  }

  ghost predicate Agrees(mem: map<u32, PageData>, f: FlatMemory) {
    forall a: u32 :: FlatByte(mem, a) == f(a)
  }

  lemma SameMemoryAgrees(mem: map<u32, PageData>, mem': map<u32, PageData>, f: FlatMemory)
    requires Agrees(mem, f) && SameMemory(mem, mem')
    ensures Agrees(mem', f)
  {
  }

  lemma OverwrittenAgrees(mem: map<u32, PageData>, mem': map<u32, PageData>, f: FlatMemory, addr: u32, bytes: seq<u8>)
    requires Agrees(mem, f) && Overwritten(mem, mem', addr, bytes)
    ensures Agrees(mem', Write(f, addr, bytes))
  {
  }

  lemma BytesAgree(mem: map<u32, PageData>, f: FlatMemory, addr: u32, n: nat)
    requires Agrees(mem, f) && addr + n <= U32_MAX + 1
    ensures FlatBytes(mem, addr, n) == Bytes(f, addr, n)
  {
    forall i | 0 <= i < n
      ensures FlatBytes(mem, addr, n)[i] == Bytes(f, addr, n)[i]
    {
      var a: u32 := addr + i;
      assert Wrap32(addr + i) == a && FlatByte(mem, a) == f(a);
    }
  }

  ghost predicate Same(f: FlatMemory, g: FlatMemory) {
    forall a: u32 :: f(a) == g(a)
  }

  lemma SameAgrees(mem: map<u32, PageData>, f: FlatMemory, g: FlatMemory)
    requires Agrees(mem, f) && Same(f, g)
    ensures Agrees(mem, g)
  {
  }

  lemma WriteNothing(f: FlatMemory, addr: u32)
    ensures Same(f, Write(f, addr, []))
  {
  }

  /** Two adjacent writes are one. */
  lemma WriteAppend(f: FlatMemory, addr: u32, x: seq<u8>, y: seq<u8>)
    requires addr + |x| <= U32_MAX
    ensures Same(Write(Write(f, addr, x), addr + |x|, y), Write(f, addr, x + y))
  {
  }

  lemma BytesAt(f: FlatMemory, addr: u32, n: nat, i: nat)
    requires i < n && addr + i <= U32_MAX
    ensures Bytes(f, addr, n)[i] == f(addr + i)
  {
    assert Wrap32(addr + i) == addr + i;
  }

  lemma BytesAppend(f: FlatMemory, addr: u32, m: nat, n: nat)
    requires addr + m <= U32_MAX
    ensures Bytes(f, addr, m + n) == Bytes(f, addr, m) + Bytes(f, addr + m, n)
  {
  }

  /** A write leaves the bytes of a disjoint range. */
  lemma BytesBeside(f: FlatMemory, addr: u32, bytes: seq<u8>, a: u32, n: nat)
    requires a + n <= U32_MAX + 1 && (a + n <= addr || addr + |bytes| <= a)
    ensures Bytes(Write(f, addr, bytes), a, n) == Bytes(f, a, n)
  {
    forall i | 0 <= i < n
      ensures Bytes(Write(f, addr, bytes), a, n)[i] == Bytes(f, a, n)[i]
    {
      BytesAt(f, a, n, i);
      BytesAt(Write(f, addr, bytes), a, n, i);
    }
  }

  // ---- A value written is the value read ----

  lemma {:induction false} LittleEndianRoundTrip(v: nat, n: nat)
    ensures Pow(0x100, n) > 0 && FromLittleEndian(ToLittleEndian(v, n)) == v % Pow(0x100, n)
  {
    PowPositive(0x100, n);
    if n > 0 {
      var bytes := ToLittleEndian(v, n);
      assert bytes[1..] == ToLittleEndian(v / 0x100, n - 1);
      LittleEndianRoundTrip(v / 0x100, n - 1);
      PowPositive(0x100, n - 1);
      LowBytes(v, Pow(0x100, n - 1));
    }
  }

  lemma LowBytes(v: nat, p: nat)
    requires p > 0
    ensures v % (0x100 * p) == v % 0x100 + 0x100 * (v / 0x100 % p)
  {
    var q, r := v / 0x100 / p, v / 0x100 % p;
    assert v / 0x100 == q * p + r;
    assert v == q * (0x100 * p) + (0x100 * r + v % 0x100) by {
      assert q * (0x100 * p) == 0x100 * (q * p);
    }
    Numerals.DivStep(q, 0x100 * p, 0x100 * r + v % 0x100);
  }

  lemma BytesWritten(f: FlatMemory, addr: u32, bytes: seq<u8>)
    requires addr + |bytes| <= U32_MAX + 1
    ensures Bytes(Write(f, addr, bytes), addr, |bytes|) == bytes
  {
    forall i | 0 <= i < |bytes|
      ensures Bytes(Write(f, addr, bytes), addr, |bytes|)[i] == bytes[i]
    {
      BytesAt(Write(f, addr, bytes), addr, |bytes|, i);
    }
  }
}
