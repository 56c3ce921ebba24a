/** Machine integers and the few stock types shared by every component. */
module Machine {
  type u8 = x: int | 0 <= x < 0x100
  type u16 = x: int | 0 <= x < 0x1_0000
  type u32 = x: int | 0 <= x < 0x1_0000_0000
  type u64 = x: int | 0 <= x < 0x1_0000_0000_0000_0000

  const U32_MAX: u32 := 0xffff_ffff

  datatype Option<+T> = None | Some(value: T)

  /** Wrap-around of C's unsigned 32-bit arithmetic (also `size_t` on the device). */
  function Wrap32(x: int): u32 {
    x % 0x1_0000_0000
  }

  lemma WrapSmall(x: int)
    requires 0 <= x <= U32_MAX
    ensures Wrap32(x) == x
  {
  }

  /** n copies of x. */
  function Repeat<T>(x: T, n: nat): (s: seq<T>)
    ensures |s| == n
  {
    seq(n, i => x)
  }

  /** b raised to the power e. */
  function Pow(b: nat, e: nat): nat {
    if e == 0 then 1 else b * Pow(b, e - 1)
  }

  lemma PowStep(b: nat, e: nat)
    ensures Pow(b, e + 1) == b * Pow(b, e)
  {
  }

  lemma {:induction false} PowPositive(b: nat, e: nat)
    requires b > 0
    ensures Pow(b, e) > 0
  {
    if e > 0 {
      PowPositive(b, e - 1);
    }
  }

  lemma {:induction false} PowAdd(b: nat, e: nat, f: nat)
    ensures Pow(b, e + f) == Pow(b, e) * Pow(b, f)
  {
    if e > 0 {
      PowAdd(b, e - 1, f);
      assert Pow(b, e + f) == b * Pow(b, e - 1 + f) == b * (Pow(b, e - 1) * Pow(b, f));
    }
  }

  lemma {:induction false} PowMonotone(b: nat, e: nat, f: nat)
    requires b > 0 && e <= f
    ensures Pow(b, e) <= Pow(b, f)
  {
    if e < f {
      PowMonotone(b, e, f - 1);
      PowPositive(b, f - 1);
      assert Pow(b, f) == b * Pow(b, f - 1) >= 1 * Pow(b, f - 1);
    }
  }

  /** The bit length of a number. */
  function BitLength(x: nat): nat {
    if x == 0 then 0 else 1 + BitLength(x / 2)
  }

  lemma {:induction false} BitLengthBounds(x: nat)
    requires x > 0
    ensures BitLength(x) > 0 && Pow(2, BitLength(x) - 1) <= x < Pow(2, BitLength(x))
  {
    if x == 1 {
      assert BitLength(1) == 1 + BitLength(0) == 1;
      assert Pow(2, 0) == 1 && Pow(2, 1) == 2;
    } else {
      BitLengthBounds(x / 2);
      PowStep(2, BitLength(x / 2) - 1);
      PowStep(2, BitLength(x / 2));
    }
  }
}
