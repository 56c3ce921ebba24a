/** Schoolbook multiplication of two uint128_t, mul128 of vm/src/uint256.c. */
module Mul128 {
  import opened Machine
  import opened Numerals
  import opened Limbs
  import opened Uint128

  const B: nat := 0x1_0000_0000

  function Hi(x: u64): (h: u32) {
    x / B
  }

  function Lo(x: u64): (l: u32) {
    x % B
  }

  /** The four 32-bit parts of two limbs, most significant first. */
  function Quarters(upper: u64, lower: u64): (q: seq<u32>)
    ensures |q| == 4
  {
    [Hi(upper), Lo(upper), Hi(lower), Lo(lower)]
  }

  /** The product of two quarters, which fits in a limb. */
  function P(t: seq<u32>, b: seq<u32>, x: nat, y: nat): u64
    requires |t| == |b| == 4 && x < 4 && y < 4
  {
    ProductFits(t[x], b[y]);
    (t[x] as int) * (b[y] as int)
  }

  /** products[3 - x][y] = top[x] * bottom[y]. */
  ghost predicate Filled(products: array2<u64>, top: seq<u32>, bottom: seq<u32>)
    reads products
    requires |top| == |bottom| == 4 && products.Length0 == products.Length1 == 4
  {
    forall x, y :: 0 <= x < 4 && 0 <= y < 4 ==> products[3 - x, y] == P(top, bottom, x, y)
  }

  lemma ProductFits(a: u32, b: u32)
    ensures a * b < W64
  {
    MulMonotone(a, U32_MAX, b);
    MulMonotone(b, U32_MAX, U32_MAX);
  }

  method Products(top: seq<u32>, bottom: seq<u32>) returns (products: array2<u64>)
    requires |top| == |bottom| == 4
    ensures fresh(products) && products.Length0 == products.Length1 == 4 && Filled(products, top, bottom)
  {
    products := new u64[4, 4]((i, j) => 0);
    var y := 3;
    while y > -1
      invariant -1 <= y <= 3
      invariant forall i, j :: 0 <= i < 4 && y < j < 4 ==> products[3 - i, j] == P(top, bottom, i, j)
    {
      var x := 3;
      while x > -1
        invariant -1 <= x <= 3
        invariant forall i, j :: 0 <= i < 4 && y < j < 4 ==> products[3 - i, j] == P(top, bottom, i, j)
        invariant forall i :: x < i < 4 ==> products[3 - i, y] == P(top, bottom, i, y)
      {
        products[3 - x, y] := P(top, bottom, x, y);
        x := x - 1;
      }
      y := y - 1;
    }
  }

  /** What the columns add up to. */
  function Columns(fourth: nat, third: nat, second: nat, first: nat): nat {
    fourth + B * third + (B * B) * second + (B * B * B) * first
  }

  /** The columns are the product, but for multiples of 2^128. */
  lemma ColumnsAreProduct(t: seq<u32>, b: seq<u32>, fourth: nat, third: nat, second: nat, first: nat)
    requires |t| == |b| == 4
    requires fourth == Lo(P(t, b, 3, 3)) && third == Lo(P(t, b, 3, 2)) + Hi(P(t, b, 3, 3)) + Lo(P(t, b, 2, 3))
    requires second == Lo(P(t, b, 3, 1)) + Hi(P(t, b, 3, 2)) + Lo(P(t, b, 2, 2)) + Hi(P(t, b, 2, 3)) + Lo(P(t, b, 1, 3))
    requires
      first == Lo(P(t, b, 3, 0)) + Hi(P(t, b, 3, 1)) + Lo(P(t, b, 2, 1)) + Hi(P(t, b, 2, 2)) + Lo(P(t, b, 1, 2))
               + Hi(P(t, b, 1, 3)) + Lo(P(t, b, 0, 3))
    ensures (Whole(t) * Whole(b)) % W128 == Columns(fourth, third, second, first) % W128
  {
    var k := Hi(P(t, b, 3, 0)) + Hi(P(t, b, 2, 1)) + Hi(P(t, b, 1, 2)) + Hi(P(t, b, 0, 3))
             + (P(t, b, 2, 0) + P(t, b, 1, 1) + P(t, b, 0, 2)) + B * (P(t, b, 1, 0) + P(t, b, 0, 1)) + (B * B) * P(t, b, 0, 0);
    Expand(t, b);
    SplitProducts(t, b);
    assert Whole(t) * Whole(b) == Columns(fourth, third, second, first) + W128 * k;
    SameModulo(Whole(t) * Whole(b), Columns(fourth, third, second, first), k);
  }

  function Whole(t: seq<u32>): nat
    requires |t| == 4
  {
    t[3] + B * t[2] + (B * B) * t[1] + (B * B * B) * t[0]
  }

  lemma Expand(t: seq<u32>, b: seq<u32>)
    requires |t| == |b| == 4
    ensures
      Whole(t) * Whole(b)
      == P(t, b, 3, 3) + B * (P(t, b, 3, 2) + P(t, b, 2, 3)) + (B * B) * (P(t, b, 3, 1) + P(t, b, 2, 2) + P(t, b, 1, 3))
         + (B * B * B) * (P(t, b, 3, 0) + P(t, b, 2, 1) + P(t, b, 1, 2) + P(t, b, 0, 3))
         + W128 * (P(t, b, 2, 0) + P(t, b, 1, 1) + P(t, b, 0, 2) + B * (P(t, b, 1, 0) + P(t, b, 0, 1)) + (B * B) * P(t, b, 0, 0))
  {
  }

  lemma SplitProducts(t: seq<u32>, b: seq<u32>)
    requires |t| == |b| == 4
    ensures forall x: nat, y: nat :: x < 4 && y < 4 ==> P(t, b, x, y) == B * Hi(P(t, b, x, y)) + Lo(P(t, b, x, y))
  {
  }

  lemma SameModulo(x: nat, y: nat, k: nat)
    requires x == y + W128 * k
    ensures x % W128 == y % W128
  {
    ModOf(x, W128, y % W128, y / W128 + k);
  }

  lemma WholeOf(upper: u64, lower: u64)
    ensures Whole(Quarters(upper, lower)) == Join(upper, lower)
  {
    assert upper == B * Hi(upper) + Lo(upper) && lower == B * Hi(lower) + Lo(lower);
  }

  /** Where the columns go in a number of two limbs. */
  lemma PlaceColumns(fourth: u32, third: u64, second: u64, first: u64)
    ensures
      var a := (Join(first * B % W64, 0) + Join(Hi(third), Lo(third) * B)) % W128;
      var b := (Join(second, 0) + a) % W128;
      (Join(0, fourth) + b) % W128 == Columns(fourth, third, second, first) % W128
  {
    var x, y, z := Join(first * B % W64, 0), Join(Hi(third), Lo(third) * B), Join(second, 0);
    assert third == B * Hi(third) + Lo(third);
    assert y == B * third;
    var k := first * B / W64;
    assert x + W128 * k == (B * B * B) * first;
    CarryLater128(x + y, z);
    CarryLater128(z + (x + y), fourth);
    SameModulo((B * B * B) * first + y + z + fourth, x + y + z + fourth, k);
  }

  lemma CarryLater128(a: nat, c: nat)
    ensures (c + a % W128) % W128 == (c + a) % W128
  {
    SameModulo(c + a, c + a % W128, a / W128);
  }

  /** mul128, also in place for either operand. */
  method Mul128(number1: Word, number2: Word, target: Word)
    modifies target
    ensures target.Value() == old(number1.Value()) * old(number2.Value()) % W128
  {
    hide P, Hi, Lo, Join, Columns, Whole;
    var top, bottom := Quarters(number1.upper, number1.lower), Quarters(number2.upper, number2.lower);
    WholeOf(number1.upper, number1.lower);
    WholeOf(number2.upper, number2.lower);
    var p := Products(top, bottom);
    CellsAre(p, top, bottom);
    var fourth32: u64 := Lo(p[0, 3]);
    var third32: u64 := Lo(p[0, 2]) + Hi(p[0, 3]);
    var second32: u64 := Lo(p[0, 1]) + Hi(p[0, 2]);
    var first32: u64 := Lo(p[0, 0]) + Hi(p[0, 1]);

    third32 := third32 + Lo(p[1, 3]);
    second32 := second32 + (Lo(p[1, 2]) + Hi(p[1, 3]));
    first32 := first32 + (Lo(p[1, 1]) + Hi(p[1, 2]));

    second32 := second32 + Lo(p[2, 3]);
    first32 := first32 + (Lo(p[2, 2]) + Hi(p[2, 3]));

    first32 := first32 + Lo(p[3, 3]);

    ColumnsAreProduct(top, bottom, fourth32, third32, second32, first32);
    AddColumns(fourth32, third32, second32, first32, target);
  }

  /** The columns put in place and added up. */
  method AddColumns(fourth32: u32, third32: u64, second32: u64, first32: u64, target: Word)
    modifies target
    ensures target.Value() == Columns(fourth32, third32, second32, first32) % W128
  {
    hide Hi, Lo, Join, Columns;
    PlaceColumns(fourth32, third32, second32, first32);
    var tmp := new Word(first32 * B % W64, 0);
    var tmp2 := new Word(Hi(third32), Lo(third32) * B);
    Add128(tmp, tmp2, target);
    tmp := new Word(second32, 0);
    Add128(tmp, target, tmp2);
    tmp := new Word(0, fourth32);
    Add128(tmp, tmp2, target);
  }

  lemma CellsAre(p: array2<u64>, t: seq<u32>, b: seq<u32>)
    requires |t| == |b| == 4 && p.Length0 == p.Length1 == 4 && Filled(p, t, b)
    ensures forall i, y :: 0 <= i < 4 && 0 <= y < 4 ==> p[i, y] == P(t, b, 3 - i, y)
  {
    forall i, y | 0 <= i < 4 && 0 <= y < 4
      ensures p[i, y] == P(t, b, 3 - i, y)
    {
      assert p[3 - (3 - i), y] == P(t, b, 3 - i, y);
    }
  }
}
