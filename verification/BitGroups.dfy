/** Regrouping of bits, convert_bits of app/app-swap/src/btc/segwit.c. */
module BitGroups {
  import opened Machine
  import opened Numerals
  import opened Limbs

  lemma {:induction false} PowOfPow(b: nat, e: nat, n: nat)
    ensures Pow(Pow(b, e), n) == Pow(b, e * n)
  {
    if n > 0 {
      PowOfPow(b, e, n - 1);
      PowAdd(b, e, e * (n - 1));
      assert e * n == e + e * (n - 1);
    } else {
      assert e * 0 == 0;
    }
  }

  /**
   Part-way through: `v` is the number read, `out` the groups written and the low
   `bits` bits of `val` those not yet written.
   */
  ghost predicate Regrouping(v: nat, out: seq<nat>, outbits: nat, val: nat, bits: nat) {
    && InBase(out, Pow(2, outbits)) && Pow(2, bits) > 0
    && v == Value(out, Pow(2, outbits)) * Pow(2, bits) + val % Pow(2, bits)
  }

  lemma RegroupingStarts(outbits: nat)
    ensures Regrouping(0, [], outbits, 0, 0)
  {
    assert Pow(2, 0) == 1;
  }

  lemma ShiftedIn(q: nat, p: nat, r: nat, i: nat, x: nat, val: nat)
    requires val == q * p + r
    ensures val * i + x == q * (p * i) + (r * i + x)
  {
    assert (q * p + r) * i == (q * p) * i + r * i;
    assert (q * p) * i == q * (p * i);
  }

  lemma Collect(v: nat, y: nat, p: nat, r: nat, i: nat)
    requires v == y * p + r
    ensures v * i == y * (p * i) + r * i
  {
    ShiftedIn(y, p, r, i, 0, v);
  }

  lemma TwoTo32()
    ensures Pow(2, 32) == 0x1_0000_0000
  {
    assert Pow(2, 4) == 16;
    PowAdd(2, 4, 4);
    PowAdd(2, 8, 8);
    PowAdd(2, 16, 16);
  }

  lemma LowBitsKept(x: nat, a: nat, b: nat)
    requires a > 0 && b > 0 && a * b > 0
    ensures x % (a * b) % b == x % b
  {
    var q, r := x / (a * b), x % (a * b);
    assert x == q * (a * b) + r;
    assert q * (a * b) == (q * a) * b;
    var q', r' := r / b, r % b;
    assert r == q' * b + r';
    assert x == (q * a + q') * b + r' by {
      assert (q * a + q') * b == (q * a) * b + q' * b;
    }
    DivStep(q * a + q', b, r');
  }

  lemma ReadArithmetic(p: nat, i: nat, m: nat, w: nat, val: nat, x: nat, next: nat, v: nat, y: nat)
    requires p > 0 && i > 0 && m > 0 && w == m * (p * i) && w > 0 && x < i
    requires next == (val * i + x) % w && v == y * p + val % p
    ensures p * i > 0 && v * i + x == y * (p * i) + next % (p * i)
  {
    LowBitsKept(val * i + x, m, p * i);
    var q, r := val / p, val % p;
    assert val == q * p + r;
    ProductBelow(r, p, x, i);
    ShiftedIn(q, p, r, i, x, val);
    DivStep(q, p * i, r * i + x);
    Collect(v, y, p, r, i);
  }

  lemma WriteArithmetic(o: nat, p: nat, val: nat, d: nat, v: nat, y: nat)
    requires o > 0 && p > 0 && d == val / p % o && o * p > 0 && v == y * (o * p) + val % (o * p)
    ensures v == (y * o + d) * p + val % p
  {
    NestedMod(o, p, val, val / p, val % p, val / p / o, d);
    Collect(y * o + d, y, o, d, p);
  }

  lemma NestedMod(o: nat, p: nat, val: nat, q: nat, r: nat, q': nat, d: nat)
    requires o * p > 0 && val == q * p + r && r < p && q == q' * o + d && d < o
    ensures val % (o * p) == d * p + r
  {
    ProductBelow(d, o, r, p);
    Collect(q, q', o, d, p);
    DivStep(q', o * p, d * p + r);
  }

  lemma PadArithmetic(p: nat, f: nat, m: nat, w: nat, val: nat, d: nat, v: nat, y: nat)
    requires p > 0 && f > 0 && m > 0 && p * f > 0 && w == m * (p * f) && w > 0
    requires d == val * f % w % (p * f) && v == y * p + val % p
    ensures y * (p * f) + d == v * f && (d == 0 <==> val % p == 0)
  {
    LowBitsKept(val * f, m, p * f);
    var q, r := val / p, val % p;
    assert val == q * p + r;
    ProductBelow(r, p, 0, f);
    Collect(val, q, p, r, f);
    DivStep(q, p * f, r * f);
    Collect(v, y, p, r, f);
    ProductZero(r, f);
  }

  /** 2^a * 2^b with what is left of a machine word. */
  lemma WordSplit(a: nat, b: nat)
    requires a + b <= 32
    ensures Pow(2, a) > 0 && Pow(2, b) > 0 && Pow(2, 32 - a - b) > 0 && Pow(2, a) * Pow(2, b) == Pow(2, a + b) > 0
    ensures 0x1_0000_0000 == Pow(2, 32 - a - b) * (Pow(2, a) * Pow(2, b))
  {
    PowPositive(2, a);
    PowPositive(2, b);
    PowPositive(2, a + b);
    PowPositive(2, 32 - a - b);
    PowAdd(2, a, b);
    PowAdd(2, 32 - a - b, a + b);
    TwoTo32();
  }

  /** One more group in. */
  lemma ReadGroup(v: nat, out: seq<nat>, outbits: nat, val: nat, bits: nat, inbits: nat, x: nat, next: nat)
    requires Regrouping(v, out, outbits, val, bits) && x < Pow(2, inbits) && bits + inbits <= 32
    requires next == (val * Pow(2, inbits) + x) % 0x1_0000_0000
    ensures Regrouping(v * Pow(2, inbits) + x, out, outbits, next, bits + inbits)
  {
    hide Value, InBase, Pow;
    WordSplit(bits, inbits);
    ReadArithmetic(Pow(2, bits), Pow(2, inbits), Pow(2, 32 - bits - inbits), 0x1_0000_0000,
                   val, x, next, v, Value(out, Pow(2, outbits)));
  }

  /** The group `val >> (bits - outbits)`. */
  function GroupAt(val: nat, bits: nat, outbits: nat): (d: nat)
    requires outbits <= bits
  {
    PowPositive(2, bits - outbits);
    PowPositive(2, outbits);
    val / Pow(2, bits - outbits) % Pow(2, outbits)
  }

  /** One group out. */
  lemma WriteGroup(v: nat, out: seq<nat>, outbits: nat, val: nat, bits: nat)
    requires Regrouping(v, out, outbits, val, bits) && outbits <= bits <= 32
    ensures Regrouping(v, out + [GroupAt(val, bits, outbits)], outbits, val, bits - outbits)
  {
    hide Value, Pow;
    var d := GroupAt(val, bits, outbits);
    WordSplit(outbits, bits - outbits);
    WriteArithmetic(Pow(2, outbits), Pow(2, bits - outbits), val, d, v, Value(out, Pow(2, outbits)));
    ValueAppend(out, d, Pow(2, outbits));
  }

  /** The group `val << (outbits - bits)`, in a machine word. */
  function PaddedGroup(val: nat, bits: nat, outbits: nat): (d: nat)
    requires bits <= outbits
  {
    PowPositive(2, outbits);
    val * Pow(2, outbits - bits) % 0x1_0000_0000 % Pow(2, outbits)
  }

  /** The last group, filled up with zero bits. */
  lemma PadGroup(v: nat, out: seq<nat>, outbits: nat, val: nat, bits: nat)
    requires Regrouping(v, out, outbits, val, bits) && bits <= outbits <= 32
    ensures
      var d := PaddedGroup(val, bits, outbits);
      && InBase(out + [d], Pow(2, outbits)) && Value(out + [d], Pow(2, outbits)) == v * Pow(2, outbits - bits)
      && (d == 0 <==> val % Pow(2, bits) == 0)
  {
    hide Value, Pow;
    var d := PaddedGroup(val, bits, outbits);
    WordSplit(bits, outbits - bits);
    PadArithmetic(Pow(2, bits), Pow(2, outbits - bits), Pow(2, 32 - outbits), 0x1_0000_0000,
                  val, d, v, Value(out, Pow(2, outbits)));
    ValueAppend(out, d, Pow(2, outbits));
  }

  lemma ProductZero(r: nat, f: nat)
    requires f > 0
    ensures r * f == 0 <==> r == 0
  {
    if r > 0 {
      MulMonotone(1, r, f);
    }
  }

  // ---- The result ----

  /** Groups needed for n groups of inbits bits, the last one filled up. */
  function GroupCount(n: nat, inbits: nat, outbits: nat): nat
    requires outbits > 0
  {
    (inbits * n + outbits - 1) / outbits
  }

  function Filling(n: nat, inbits: nat, outbits: nat): (fill: nat)
    requires outbits > 0
    ensures fill < outbits && inbits * n + fill == outbits * GroupCount(n, inbits, outbits)
  {
    CountGroups(inbits * n, outbits);
    outbits * GroupCount(n, inbits, outbits) - inbits * n
  }

  lemma CountGroups(total: nat, outbits: nat)
    requires outbits > 0
    ensures total <= outbits * ((total + outbits - 1) / outbits) < total + outbits
  {
    var q := (total + outbits - 1) / outbits;
    assert total + outbits - 1 == q * outbits + (total + outbits - 1) % outbits;
  }

  /** The regrouped number, filled up with zero bits at the end. */
  function Padded(input: seq<nat>, inbits: nat, outbits: nat): (s: seq<nat>)
    requires 1 <= outbits
    ensures |s| == GroupCount(|input|, inbits, outbits)
  {
    TwoAtLeast(outbits);
    FixedDigits(Value(input, Pow(2, inbits)) * Pow(2, Filling(|input|, inbits, outbits)), Pow(2, outbits),
                GroupCount(|input|, inbits, outbits))
  }

  function HighBits(v: nat, n: nat): nat {
    PowPositive(2, n);
    v / Pow(2, n)
  }

  function LowBits(v: nat, n: nat): nat {
    PowPositive(2, n);
    v % Pow(2, n)
  }

  /** The regrouped number, if the bits left over are zero and fewer than an input group. */
  function Unpadded(input: seq<nat>, inbits: nat, outbits: nat): Option<seq<nat>>
    requires 1 <= outbits
  {
    var rest := inbits * |input| % outbits;
    var v := Value(input, Pow(2, inbits));
    TwoAtLeast(outbits);
    if rest < inbits && LowBits(v, rest) == 0 then
      Some(FixedDigits(HighBits(v, rest), Pow(2, outbits), inbits * |input| / outbits))
    else None
  }

  lemma TwoAtLeast(n: nat)
    requires n >= 1
    ensures Pow(2, n) >= 2
  {
    PowMonotone(2, 1, n);
    assert Pow(2, 1) == 2;
  }

  /** Room for one more whole group. */
  lemma RoomForGroup(outlen: nat, bits: nat, outbits: nat, n: nat, inbits: nat, k: nat)
    requires outbits > 0 && bits >= outbits && outbits * outlen + bits == inbits * k && k <= n
    ensures outlen + 1 <= GroupCount(n, inbits, outbits)
    ensures outbits * (outlen + 1) + (bits - outbits) == inbits * k
  {
    MulMonotone(k, n, inbits);
    CountGroups(inbits * n, outbits);
    assert outbits * (outlen + 1) == outbits * outlen + outbits;
    if outlen + 1 > GroupCount(n, inbits, outbits) {
      MulMonotone(GroupCount(n, inbits, outbits) + 1, outlen + 1, outbits);
    }
  }

  lemma MachineGroups(val: u32, bits: nat, outbits: nat)
    requires 1 <= outbits <= 8
    ensures outbits <= bits ==> GroupAt(val, bits, outbits) < 256
    ensures bits <= outbits ==> PaddedGroup(val, bits, outbits) < 256
  {
    PowPositive(2, outbits);
    PowMonotone(2, outbits, 8);
    assert Pow(2, 8) == 256 by {
      assert Pow(2, 4) == 16;
      PowAdd(2, 4, 4);
    }
  }

  /** The inner loop: whole groups go out. */
  method WriteGroups(out: array<u8>, start: nat, outlen0: nat, outbits: nat, val: u32, bits0: nat,
                     ghost v: nat, ghost n: nat, ghost inbits: nat, ghost k: nat)
      returns (outlen: nat, bits: nat)
    requires 1 <= outbits <= 8 && bits0 <= 32 && k <= n
    requires outbits * outlen0 + bits0 == inbits * k && start + GroupCount(n, inbits, outbits) <= out.Length
    requires start + outlen0 <= out.Length && Regrouping(v, out[start..start + outlen0], outbits, val, bits0)
    modifies out
    ensures bits < outbits && outbits * outlen + bits == inbits * k && out[..start] == old(out[..start])
    ensures start + outlen <= out.Length && Regrouping(v, out[start..start + outlen], outbits, val, bits)
  {
    hide Regrouping, GroupAt, PaddedGroup, GroupCount;
    outlen, bits := outlen0, bits0;
    while bits >= outbits
      invariant bits <= 32 && outbits * outlen + bits == inbits * k && out[..start] == old(out[..start])
      invariant start + outlen <= out.Length && Regrouping(v, out[start..start + outlen], outbits, val, bits)
    {
      RoomForGroup(outlen, bits, outbits, n, inbits, k);
      MachineGroups(val, bits, outbits);
      ghost var written := out[start..start + outlen];
      WriteGroup(v, written, outbits, val, bits);
      out[start + outlen] := GroupAt(val, bits, outbits);
      assert out[start..start + outlen + 1] == written + [out[start + outlen]];
      bits := bits - outbits;
      outlen := outlen + 1;
    }
  }

  /** The outer loop: reads group after group. */
  method Regroup(out: array<u8>, start: nat, outbits: nat, input: seq<u8>, inbits: nat)
      returns (outlen: nat, val: u32, bits: nat)
    requires 1 <= outbits <= 8 && 1 <= inbits <= 8 && InBase(input, Pow(2, inbits))
    requires start + GroupCount(|input|, inbits, outbits) <= out.Length
    modifies out
    ensures bits < outbits && outbits * outlen + bits == inbits * |input| && out[..start] == old(out[..start])
    ensures start + outlen <= out.Length
    ensures Regrouping(Value(input, Pow(2, inbits)), out[start..start + outlen], outbits, val, bits)
  {
    hide Value, Regrouping, Pow, GroupCount;
    outlen, val, bits := 0, 0, 0;
    RegroupingStarts(outbits);
    assert out[start..start + 0] == [];
    NoValue(inbits);
    for k := 0 to |input|
      invariant bits < outbits && outbits * outlen + bits == inbits * k && out[..start] == old(out[..start])
      invariant start + outlen <= out.Length
      invariant Regrouping(Value(input[..k], Pow(2, inbits)), out[start..start + outlen], outbits, val, bits)
    {
      ghost var v := Value(input[..k], Pow(2, inbits));
      assert input[..k + 1] == input[..k] + [input[k]];
      ValueAppend(input[..k], input[k], Pow(2, inbits));
      var next := (val * Pow(2, inbits) + input[k]) % 0x1_0000_0000;
      ReadGroup(v, out[start..start + outlen], outbits, val, bits, inbits, input[k], next);
      val := next;
      bits := bits + inbits;
      OneMoreGroup(inbits, k);
      outlen, bits := WriteGroups(out, start, outlen, outbits, val, bits, v * Pow(2, inbits) + input[k], |input|, inbits, k + 1);
    }
    assert input[..|input|] == input;
  }

  lemma NoValue(inbits: nat)
    ensures Value([], Pow(2, inbits)) == 0
  {
  }

  lemma OneMoreGroup(inbits: nat, k: nat)
    ensures inbits * (k + 1) == inbits * k + inbits
  {
  }

  /**
   convert_bits for groups of at most 8 bits, writing to `out` from `start` on.  With
   padding the last group is filled up; without it what is left over must be less than
   an input group and zero.
   */
  method ConvertBits(out: array<u8>, start: nat, outbits: nat, input: seq<u8>, inbits: nat, pad: bool)
      returns (ok: bool, outlen: nat)
    requires 1 <= outbits <= 8 && 1 <= inbits <= 8 && InBase(input, Pow(2, inbits))
    requires start + GroupCount(|input|, inbits, outbits) <= out.Length
    modifies out
    ensures start + outlen <= out.Length && out[..start] == old(out[..start])
    ensures pad ==> ok && out[start..start + outlen] == Padded(input, inbits, outbits)
    ensures !pad ==> (ok <==> Unpadded(input, inbits, outbits).Some?)
    ensures !pad && ok ==> out[start..start + outlen] == Unpadded(input, inbits, outbits).value
  {
    hide Value, Pow, InBase, Regrouping, GroupCount, PaddedGroup, Padded, Unpadded;
    var val, bits;
    outlen, val, bits := Regroup(out, start, outbits, input, inbits);
    ghost var v, written := Value(input, Pow(2, inbits)), out[start..start + outlen];
    MachineGroups(val, bits, outbits);
    PadGroup(v, written, outbits, val, bits);
    if pad {
      if bits != 0 {
        PaddedIs(input, inbits, outbits, outlen, bits, written + [PaddedGroup(val, bits, outbits)]);
        out[start + outlen] := PaddedGroup(val, bits, outbits);
        assert out[start..start + outlen + 1] == written + [out[start + outlen]];
        outlen := outlen + 1;
      } else {
        UnpaddedIs(input, inbits, outbits, outlen, val, bits, written);
        AlreadyFull(input, inbits, outbits, outlen, val, written);
      }
    } else {
      UnpaddedIs(input, inbits, outbits, outlen, val, bits, written);
      if PaddedGroup(val, bits, outbits) != 0 || bits >= inbits {
        return false, outlen;
      }
    }
    ok := true;
  }

  /** With bits left over, the filled-up groups are the padded result. */
  lemma PaddedIs(input: seq<nat>, inbits: nat, outbits: nat, outlen: nat, bits: nat, groups: seq<nat>)
    requires 0 < bits < outbits && outbits * outlen + bits == inbits * |input| && |groups| == outlen + 1
    requires InBase(groups, Pow(2, outbits))
    requires Value(groups, Pow(2, outbits)) == Value(input, Pow(2, inbits)) * Pow(2, outbits - bits)
    ensures groups == Padded(input, inbits, outbits) && outlen < GroupCount(|input|, inbits, outbits)
  {
    hide Value, Pow, FixedDigits;
    TwoAtLeast(outbits);
    LastGroupCount(outlen, outbits, bits, |input|, inbits);
    FixedDigitsUnique(groups, Pow(2, outbits));
  }

  lemma LastGroupCount(outlen: nat, outbits: nat, bits: nat, n: nat, inbits: nat)
    requires 0 < bits < outbits && outbits * outlen + bits == inbits * n
    ensures GroupCount(n, inbits, outbits) == outlen + 1 && Filling(n, inbits, outbits) == outbits - bits
  {
    assert outbits * (outlen + 1) == outbits * outlen + outbits;
    DivStep(outlen + 1, outbits, bits - 1);
  }

  lemma AlreadyFull(input: seq<nat>, inbits: nat, outbits: nat, outlen: nat, val: nat, written: seq<nat>)
    requires 0 < outbits && outbits * outlen == inbits * |input| && |written| == outlen
    requires Regrouping(Value(input, Pow(2, inbits)), written, outbits, val, 0)
    ensures written == Padded(input, inbits, outbits)
  {
    hide Value;
    TwoAtLeast(outbits);
    DivStep(outlen, outbits, outbits - 1);
    assert Pow(2, 0) == 1;
    FixedDigitsUnique(written, Pow(2, outbits));
  }

  /** What is left over decides whether there is an unpadded result. */
  lemma UnpaddedIs(input: seq<nat>, inbits: nat, outbits: nat, outlen: nat, val: nat, bits: nat, written: seq<nat>)
    requires bits < outbits && outbits * outlen + bits == inbits * |input| && |written| == outlen
    requires Regrouping(Value(input, Pow(2, inbits)), written, outbits, val, bits)
    ensures Pow(2, bits) > 0
    ensures Unpadded(input, inbits, outbits) == if bits < inbits && val % Pow(2, bits) == 0 then Some(written) else None
  {
    hide Value;
    TwoAtLeast(outbits);
    DivStep(outlen, outbits, bits);
    DivStep(Value(written, Pow(2, outbits)), Pow(2, bits), val % Pow(2, bits));
    FixedDigitsUnique(written, Pow(2, outbits));
  }

  // ---- The two directions undo each other ----

  /** Eight to five bits with padding, then five to eight without: the bytes come back. */
  lemma UnpaddedUndoesPadded(bytes: seq<nat>)
    requires InBase(bytes, 256)
    ensures InBase(Padded(bytes, 8, 5), 32) && Unpadded(Padded(bytes, 8, 5), 5, 8) == Some(bytes)
  {
    hide Value;
    Powers32And256();
    var n, fill := |bytes|, Filling(|bytes|, 8, 5);
    var m, v := GroupCount(n, 8, 5), Value(bytes, 256);
    ValueBound(bytes, 256);
    PaddedFits(v, n, m, fill);
    FixedDigitsValue(v * Pow(2, fill), 32, m);
    PowPositive(2, fill);
    DivStep(v, Pow(2, fill), 0);
    DivStep(n, 8, fill);
    FixedDigitsUnique(bytes, 256);
  }

  lemma Powers32And256()
    ensures Pow(2, 5) == 32 && Pow(2, 8) == 256
  {
    assert Pow(2, 3) == 8;
    assert Pow(2, 5) == 32;
    PowAdd(2, 3, 5);
  }

  lemma PaddedFits(v: nat, n: nat, m: nat, fill: nat)
    requires v < Pow(256, n) && 8 * n + fill == 5 * m
    ensures v * Pow(2, fill) < Pow(32, m)
  {
    Powers32And256();
    PowOfPow(2, 8, n);
    PowOfPow(2, 5, m);
    PowAdd(2, 8 * n, fill);
    PowPositive(2, fill);
    ProductBelow(v, Pow(256, n), 0, Pow(2, fill));
  }

  /** Five to eight bits without padding accepts exactly what eight to five bits with padding gives. */
  lemma UnpaddedAcceptsPadded(groups: seq<nat>, bytes: seq<nat>)
    requires InBase(groups, 32) && InBase(bytes, 256)
    ensures Unpadded(groups, 5, 8) == Some(bytes) <==> Padded(bytes, 8, 5) == groups
  {
    hide Value;
    UnpaddedUndoesPadded(bytes);
    if Unpadded(groups, 5, 8) == Some(bytes) {
      Powers32And256();
      var m, n, rest := |groups|, 5 * |groups| / 8, 5 * |groups| % 8;
      var v := Value(groups, 32);
      PowPositive(2, rest);
      ValueBound(groups, 32);
      UnpaddedFits(v, n, m, rest);
      FixedDigitsValue(v / Pow(2, rest), 256, n);
      assert GroupCount(n, 8, 5) == m && Filling(n, 8, 5) == rest;
      FixedDigitsUnique(groups, 32);
    }
  }

  lemma UnpaddedFits(v: nat, n: nat, m: nat, rest: nat)
    requires v < Pow(32, m) && 8 * n + rest == 5 * m && Pow(2, rest) > 0
    ensures v / Pow(2, rest) < Pow(256, n)
    ensures v % Pow(2, rest) == 0 ==> v / Pow(2, rest) * Pow(2, rest) == v
  {
    Powers32And256();
    PowOfPow(2, 8, n);
    PowOfPow(2, 5, m);
    PowAdd(2, 8 * n, rest);
    QuotientFits(v, Pow(2, rest), Pow(256, n));
  }

  lemma QuotientFits(v: nat, p: nat, b: nat)
    requires p > 0 && v < b * p
    ensures v / p < b && (v % p == 0 ==> v / p * p == v)
  {
    var q, r := v / p, v % p;
    assert v == q * p + r;
    HighPart(q, b, p, r);
  }
}
