/** Base58 text, app/app-swap/src/btc/base58.c. */
module Base58 {
  import opened Machine
  import opened Numerals

  const MAX_DEC_INPUT_SIZE := 164
  const MAX_ENC_INPUT_SIZE := 120
  const TABLE_SIZE := 128

  /** BASE58_TABLE: the digit of a character code, or 0xFF; the six runs of the table. */
  function Table(c: nat): u8
    requires c < TABLE_SIZE
  {
    if 49 <= c <= 57 then c - 49
    else if 65 <= c <= 72 then c - 65 + 9
    else if 74 <= c <= 78 then c - 74 + 17
    else if 80 <= c <= 90 then c - 80 + 22
    else if 97 <= c <= 107 then c - 97 + 33
    else if 109 <= c <= 122 then c - 109 + 44
    else 0xFF
  }

  /** BASE58_ALPHABET: 1-9, A-Z without I and O, a-z without l. */
  function Letter(d: nat): char
    requires d < 58
  {
    if d < 9 then '1' + d as char
    else if d < 17 then 'A' + (d - 9) as char
    else if d < 22 then 'J' + (d - 17) as char
    else if d < 33 then 'P' + (d - 22) as char
    else if d < 44 then 'a' + (d - 33) as char
    else 'm' + (d - 44) as char
  }

  predicate IsLetter(c: char) {
    c as int < TABLE_SIZE && Table(c as int) != 0xFF
  }

  lemma TableInvertsLetter(d: nat)
    requires d < 58
    ensures IsLetter(Letter(d)) && Table(Letter(d) as int) == d
  {
  }

  lemma LetterInvertsTable(c: char)
    requires IsLetter(c)
    ensures Table(c as int) < 58 && Letter(Table(c as int)) == c
  {
  }

  // ---- What the two functions compute ----

  predicate Base58Text(text: string) {
    forall i :: 0 <= i < |text| ==> IsLetter(text[i])
  }

  function DigitsOf(text: string): (s: seq<nat>)
    requires Base58Text(text)
    ensures |s| == |text|
  {
    seq(|text|, i requires 0 <= i < |text| => Table(text[i] as int))
  }

  function TextOf(digits: seq<nat>): (text: string)
    requires InBase(digits, 58)
    ensures |text| == |digits|
  {
    seq(|digits|, i requires 0 <= i < |digits| => Letter(digits[i]))
  }

  /** The same number in another base, keeping the leading zeros. */
  function Rebase(s: seq<nat>, b: nat, b': nat): seq<nat>
    requires b' >= 2
  {
    Zeros(LeadingZeros(s)) + Digits(Value(s, b), b')
  }

  function Encoding(bytes: seq<u8>): string {
    DigitsDenote(Value(bytes, 256), 58);
    TextOf(Rebase(bytes, 256, 58))
  }

  function Decoding(text: string): (bytes: seq<u8>)
    requires Base58Text(text)
  {
    DigitsDenote(Value(DigitsOf(text), 58), 256);
    Rebase(DigitsOf(text), 58, 256)
  }

  lemma RebaseKeepsNumber(s: seq<nat>, b: nat, b': nat)
    requires b' >= 2
    ensures InBase(Rebase(s, b, b'), b') && Value(Rebase(s, b, b'), b') == Value(s, b)
    ensures LeadingZeros(Rebase(s, b, b')) == LeadingZeros(s)
  {
    var d := Digits(Value(s, b), b');
    DigitsDenote(Value(s, b), b');
    ValueSkipsZeros(LeadingZeros(s), d, b');
    LeadingZerosAre(LeadingZeros(s), d);
  }

  lemma RebaseRoundTrip(s: seq<nat>, b: nat, b': nat)
    requires b >= 2 && b' >= 2 && InBase(s, b)
    ensures Rebase(Rebase(s, b, b'), b', b) == s
  {
    hide Value, Digits, LeadingZeros;
    RebaseKeepsNumber(s, b, b');
    var k := LeadingZeros(s);
    assert s == Zeros(k) + s[k..];
    ValueWithoutLeadingZeros(s, b);
    DigitsUnique(s[k..], b);
  }

  /** Decoding undoes encoding, on every byte string. */
  lemma DecodingUndoesEncoding(bytes: seq<u8>)
    ensures Base58Text(Encoding(bytes)) && Decoding(Encoding(bytes)) == bytes
  {
    var digits := Rebase(bytes, 256, 58);
    RebaseKeepsNumber(bytes, 256, 58);
    forall i | 0 <= i < |digits|
      ensures IsLetter(Encoding(bytes)[i]) && Table(Encoding(bytes)[i] as int) == digits[i]
    {
      TableInvertsLetter(digits[i]);
    }
    assert DigitsOf(Encoding(bytes)) == digits;
    RebaseRoundTrip(bytes, 256, 58);
  }

  /** Encoding undoes decoding, on every text over the alphabet. */
  lemma EncodingUndoesDecoding(text: string)
    requires Base58Text(text)
    ensures Encoding(Decoding(text)) == text
  {
    var digits := DigitsOf(text);
    forall i | 0 <= i < |text|
      ensures digits[i] < 58 && Letter(digits[i]) == text[i]
    {
      LetterInvertsTable(text[i]);
    }
    RebaseRoundTrip(digits, 58, 256);
    assert TextOf(digits) == text;
  }

  // ---- Capacity ----

  /** Room for the base-58 digits of n bytes, in the code's integer arithmetic. */
  function DigitRoom(n: nat): (r: nat)
    ensures r >= 1
  {
    n * 138 / 100 + 1
  }

  /** 256^r <= 58^Spare(r) for the remainders modulo 8. */
  function Spare(r: nat): nat
    requires r < 8
  {
    if r == 0 then 0 else if r == 1 then 2 else if r == 2 then 3 else if r == 3 then 5
    else if r == 4 then 6 else if r == 5 then 7 else if r == 6 then 9 else 10
  }

  lemma PowerTable256()
    ensures Pow(256, 1) == 256 && Pow(256, 2) == 65536 && Pow(256, 3) == 16777216 && Pow(256, 4) == 4294967296
    ensures Pow(256, 5) == 1099511627776 && Pow(256, 6) == 281474976710656
    ensures Pow(256, 7) == 72057594037927936 && Pow(256, 8) == 18446744073709551616
  {
    assert Pow(256, 0) == 1;
    assert Pow(256, 1) == 256;
    assert Pow(256, 2) == 65536;
    assert Pow(256, 3) == 16777216;
    assert Pow(256, 4) == 4294967296;
    assert Pow(256, 5) == 1099511627776;
    assert Pow(256, 6) == 281474976710656;
    assert Pow(256, 7) == 72057594037927936;
  }

  lemma PowerTable58()
    ensures Pow(58, 2) == 3364 && Pow(58, 3) == 195112 && Pow(58, 5) == 656356768 && Pow(58, 6) == 38068692544
    ensures Pow(58, 7) == 2207984167552 && Pow(58, 9) == 7427658739644928
    ensures Pow(58, 10) == 430804206899405824 && Pow(58, 11) == 24986644000165537792
  {
    assert Pow(58, 0) == 1;
    assert Pow(58, 1) == 58;
    assert Pow(58, 2) == 3364;
    assert Pow(58, 3) == 195112;
    assert Pow(58, 4) == 11316496;
    assert Pow(58, 5) == 656356768;
    assert Pow(58, 6) == 38068692544;
    assert Pow(58, 7) == 2207984167552;
    assert Pow(58, 8) == 128063081718016;
    assert Pow(58, 9) == 7427658739644928;
    assert Pow(58, 10) == 430804206899405824;
  }

  lemma SpareCovers(r: nat)
    requires r < 8
    ensures Pow(256, r) <= Pow(58, Spare(r))
  {
    PowerTable256();
    PowerTable58();
  }

  /** Eight bytes never need more than eleven digits. */
  lemma {:induction false} EightBytesFitElevenDigits(q: nat, r: nat)
    requires r < 8
    ensures Pow(256, 8 * q + r) <= Pow(58, 11 * q + Spare(r))
    decreases q
  {
    if q == 0 {
      SpareCovers(r);
    } else {
      EightBytesFitElevenDigits(q - 1, r);
      PowerTable256();
      PowerTable58();
      PowAdd(256, 8, 8 * (q - 1) + r);
      PowAdd(58, 11, 11 * (q - 1) + Spare(r));
      MulBoth(Pow(256, 8), Pow(58, 11), Pow(256, 8 * (q - 1) + r), Pow(58, 11 * (q - 1) + Spare(r)));
    }
  }

  lemma MulBoth(a: nat, b: nat, c: nat, d: nat)
    requires a <= b && c <= d
    ensures a * c <= b * d
  {
    MulMonotone(a, b, c);
    MulMonotone(c, d, b);
  }

  lemma RoomCovers(q: nat, r: nat)
    requires r < 8
    ensures 11 * q + Spare(r) <= DigitRoom(8 * q + r)
  {
  }

  /** len * 138 / 100 + 1 digits always hold a number of len bytes. */
  lemma RoomSuffices(n: nat)
    ensures Pow(256, n) <= Pow(58, DigitRoom(n))
  {
    var q, r := n / 8, n % 8;
    EightBytesFitElevenDigits(q, r);
    RoomCovers(q, r);
    PowMonotone(58, 11 * q + Spare(r), DigitRoom(n));
  }

  /** No text of at most 120 bytes is longer than what base58_decode reads. */
  lemma TextFitsDecoder(bytes: seq<u8>)
    requires |bytes| <= MAX_ENC_INPUT_SIZE
    ensures |Encoding(bytes)| <= MAX_DEC_INPUT_SIZE
  {
    var z, v := LeadingZeros(bytes), Value(bytes, 256);
    var digits := Digits(v, 58);
    DigitsDenote(v, 58);
    if v != 0 {
      var m, d := |bytes| - z, |digits| - 1;
      assert bytes == Zeros(z) + bytes[z..];
      ValueWithoutLeadingZeros(bytes, 256);
      ValueBound(bytes[z..], 256);
      ValueAtLeast(digits, 58);
      FewDigits(d, m, z, v);
    }
  }

  lemma FewDigits(d: nat, m: nat, z: nat, v: nat)
    requires m + z <= MAX_ENC_INPUT_SIZE && Pow(58, d) <= v < Pow(256, m)
    ensures d + z < MAX_DEC_INPUT_SIZE
  {
    hide Pow;
    SmallerBase(z);
    PowPositive(58, z);
    StrictProduct(Pow(58, d), Pow(256, m), Pow(58, z), Pow(256, z), v);
    PowAdd(58, d, z);
    PowAdd(256, m, z);
    PowMonotone(256, m + z, MAX_ENC_INPUT_SIZE);
    LargestText();
    if d + z >= MAX_DEC_INPUT_SIZE {
      PowMonotone(58, MAX_DEC_INPUT_SIZE, d + z);
    }
  }

  lemma StrictProduct(a: nat, b: nat, c: nat, d: nat, v: nat)
    requires a <= v < b && 0 < c <= d
    ensures a * c < b * d
  {
    MulMonotone(a + 1, b, c);
    MulMonotone(c, d, b);
    assert (a + 1) * c == a * c + c;
  }

  lemma {:induction false} SmallerBase(e: nat)
    ensures Pow(58, e) <= Pow(256, e)
  {
    if e > 0 {
      SmallerBase(e - 1);
    }
  }

  lemma LargestText()
    ensures Pow(256, MAX_ENC_INPUT_SIZE) <= Pow(58, MAX_DEC_INPUT_SIZE)
  {
    ThirtyBytes();
    PowAdd(256, 30, 30);
    PowAdd(256, 60, 60);
    PowAdd(58, 41, 41);
    PowAdd(58, 82, 82);
    MulBoth(Pow(256, 30), Pow(58, 41), Pow(256, 30), Pow(58, 41));
    MulBoth(Pow(256, 60), Pow(58, 82), Pow(256, 60), Pow(58, 82));
  }

  lemma ThirtyBytes()
    ensures Pow(256, 30) <= Pow(58, 41)
  {
    PowerTable256();
    PowerTable58();
    PowAdd(256, 8, 7);
    PowAdd(256, 15, 15);
    PowAdd(58, 11, 9);
    PowAdd(58, 20, 20);
    assert Pow(58, 41) == 58 * Pow(58, 40);
  }

  // ---- The results of the two functions, for an output buffer of `room` bytes ----

  function EncodeResult(bytes: seq<u8>, room: nat): Option<string> {
    if |bytes| > MAX_ENC_INPUT_SIZE || |Encoding(bytes)| > room then None else Some(Encoding(bytes))
  }

  function DecodeResult(text: string, room: nat): Option<seq<u8>> {
    if !(2 <= |text| <= MAX_DEC_INPUT_SIZE) || !Base58Text(text) then None
    else if |Decoding(text)| > room then None
    else Some(Decoding(text))
  }

  /** base58_decode recovers what base58_encode was given, except the texts shorter than two characters. */
  lemma DecodeAfterEncode(bytes: seq<u8>, room: nat, room': nat)
    requires EncodeResult(bytes, room).Some? && |bytes| <= room'
    ensures
      DecodeResult(EncodeResult(bytes, room).value, room') == Some(bytes)
      <==> !(bytes == [] || (|bytes| == 1 && bytes[0] < 58))
  {
    DecodingUndoesEncoding(bytes);
    TextFitsDecoder(bytes);
    ShortTexts(bytes);
  }

  /** Only the empty string and one byte below 58 have texts of less than two characters. */
  lemma ShortTexts(bytes: seq<u8>)
    ensures |Encoding(bytes)| < 2 <==> bytes == [] || (|bytes| == 1 && bytes[0] < 58)
  {
    RebaseKeepsNumber(bytes, 256, 58);
    RebaseRoundTrip(bytes, 256, 58);
    var digits := Rebase(bytes, 256, 58);
    assert Pow(58, 1) == 58;
    if |digits| == 1 {
      assert digits[..0] == [];
      assert Value(digits, 58) == digits[0] == Value(bytes, 256);
      if digits[0] == 0 {
        assert LeadingZeros(bytes) == LeadingZeros(digits) == 1 == |bytes|;
      } else {
        DigitsUnique([digits[0]], 256);
        assert [digits[0]][..0] == [];
        assert LeadingZeros(bytes) == LeadingZeros(digits) == 0;
        DigitsUnique(bytes, 256);
      }
    } else if |bytes| == 1 {
      assert bytes[..0] == [];
      assert Value(bytes, 256) == bytes[0];
      if bytes[0] < 58 {
        DigitsLength(bytes[0], 58, 1);
      }
    }
  }

  /** base58_encode recovers every text that base58_decode turns into at most 120 bytes. */
  lemma EncodeAfterDecode(text: string, room: nat, room': nat)
    requires DecodeResult(text, room).Some? && |text| <= room'
    requires |DecodeResult(text, room).value| <= MAX_ENC_INPUT_SIZE
    ensures EncodeResult(DecodeResult(text, room).value, room') == Some(text)
  {
    EncodingUndoesDecoding(text);
  }

  // ---- base58_encode ----

  lemma ValueCons(d: nat, t: seq<nat>, b: nat)
    ensures Value([d] + t, b) == d * Pow(b, |t|) + Value(t, b)
  {
    ValueConcat([d], t, b);
    assert [d][..0] == [];
  }

  /** t' with `carry` above it is t * 256 + byte. */
  ghost predicate Absorbed(t: seq<nat>, t': seq<nat>, carry: nat, byte: nat) {
    && |t| == |t'| && InBase(t', 58)
    && Value(t', 58) + carry * Pow(58, |t|) == 256 * Value(t, 58) + byte
  }

  lemma NothingAbsorbed(byte: nat)
    ensures Absorbed([], [], byte, byte)
  {
    assert Pow(58, 0) == 1;
  }

  /** One digit more: q is carried on and r stays. */
  lemma AbsorbDigit(t: seq<nat>, t': seq<nat>, d: nat, carry: nat, byte: nat, q: nat, r: nat)
    requires Absorbed(t, t', carry, byte)
    requires r + 58 * q == carry + 256 * d && r < 58
    ensures Absorbed([d] + t, [r] + t', q, byte)
  {
    hide Value, Pow;
    ValueCons(r, t', 58);
    ValueCons(d, t, 58);
    PowStep(58, |t|);
    CarryOut(r, q, carry, d, Pow(58, |t|));
  }

  lemma CarryOut(r: nat, q: nat, carry: nat, d: nat, p: nat)
    requires r + 58 * q == carry + 256 * d
    ensures r * p + q * (58 * p) == carry * p + 256 * (d * p)
  {
    assert (r + 58 * q) * p == r * p + 58 * (q * p);
    assert (carry + 256 * d) * p == carry * p + 256 * (d * p);
  }

  /** The body of the inner loop of base58_encode. */
  method AbsorbOne(buffer: array<u8>, j: nat, carry: u32, ghost t: seq<nat>, ghost t': seq<nat>, ghost byte: nat)
      returns (next: u32)
    requires j < buffer.Length && buffer[j] < 58 && carry < 256 && Absorbed(t, t', carry, byte)
    modifies buffer
    ensures next < 256 && buffer[..j] == old(buffer[..j]) && buffer[j + 1..] == old(buffer[j + 1..])
    ensures Absorbed([old(buffer[j])] + t, [buffer[j]] + t', next, byte)
  {
    hide Absorbed;
    var sum: u32 := carry + 256 * (buffer[j] as int);
    var q, r := sum / 58, sum % 58;
    CarryStays(sum, q, r);
    AbsorbDigit(t, t', buffer[j], carry, byte, q, r);
    buffer[j], next := r, q;
  }

  /** The inner loop of base58_encode: multiplies the digits by 256 and adds a byte. */
  method AbsorbByte(buffer: array<u8>, outputSize: nat, stopAt: nat, byte: u8) returns (stop: nat)
    requires 1 <= stopAt < outputSize <= buffer.Length < 0x1_0000_0000
    requires InBase(buffer[..outputSize], 58) && buffer[..stopAt] == Zeros(stopAt)
    requires 256 * Value(buffer[..outputSize], 58) + byte < Pow(58, outputSize)
    modifies buffer
    ensures InBase(buffer[..outputSize], 58) && stop < stopAt && buffer[..stop] == Zeros(stop)
    ensures Value(buffer[..outputSize], 58) == 256 * Value(old(buffer[..outputSize]), 58) + byte
    ensures stop == stopAt - 1 || Value(buffer[..outputSize], 58) >= Pow(58, outputSize - 1 - stop)
    ensures buffer[outputSize..] == old(buffer[outputSize..])
  {
    hide Value, Pow, Zeros, Absorbed, InBase, Wrap32;
    ghost var before: seq<nat> := buffer[..outputSize];
    var carry: u32 := byte;
    var j: int := outputSize - 1;
    assert buffer[outputSize..outputSize] == before[outputSize..] == [];
    NothingAbsorbed(byte);
    WrapSmall(stopAt - 1);
    while j >= 0
      invariant -1 <= j < outputSize && carry < 256
      invariant buffer[..j + 1] == before[..j + 1] && buffer[outputSize..] == old(buffer[outputSize..])
      invariant Absorbed(before[j + 1..], buffer[j + 1..outputSize], carry, byte)
      invariant j + 1 >= stopAt || carry != 0
    {
      ghost var rest, carried := buffer[j + 1..outputSize], carry;
      DigitAt(before, j);
      assert buffer[j] == buffer[..j + 1][j] == before[j];
      ghost var above := buffer[outputSize..];
      carry := AbsorbOne(buffer, j, carry, before[j + 1..], rest, byte);
      assert buffer[j + 1..outputSize] == buffer[j + 1..][..outputSize - j - 1] == rest;
      assert buffer[outputSize..] == buffer[j + 1..][outputSize - j - 1..] == above;
      assert buffer[j..outputSize] == [buffer[j]] + rest;
      assert before[j..] == [before[j]] + before[j + 1..];
      assert buffer[..j] == before[..j];
      if j <= Wrap32(stopAt - 1) && carry == 0 {
        StoppedHere(before, buffer[..outputSize], j, stopAt, byte);
        if j < stopAt - 1 {
          assert buffer[..outputSize][j + 1..] == rest;
          StoppedLate(before, rest, j, stopAt, carried, byte);
        }
        break;
      }
      j := j - 1;
    }
    if j < 0 {
      assert buffer[0..outputSize] == buffer[..outputSize];
      NeverRunsOver(carry, before, buffer[..outputSize], byte);
    }
    WrapSmall(j);
    stop := Wrap32(j);
  }

  lemma CarryStays(sum: nat, q: nat, r: nat)
    requires sum < 256 + 256 * 57 && q == sum / 58 && r == sum % 58
    ensures q < 256 && r < 58 && r + 58 * q == sum
  {
  }

  lemma DigitAt(s: seq<nat>, j: nat)
    requires j < |s| && InBase(s, 58)
    ensures s[j] < 58
  {
  }

  /** At the break the digits above are still zero. */
  lemma StoppedHere(before: seq<nat>, after: seq<nat>, j: nat, stopAt: nat, byte: nat)
    requires j < stopAt < |before| == |after| && before[..stopAt] == Zeros(stopAt) && after[..j] == before[..j]
    requires Absorbed(before[j..], after[j..], 0, byte)
    ensures after[..j] == Zeros(j) && Value(after, 58) == 256 * Value(before, 58) + byte && InBase(after, 58)
  {
    hide Value, Pow;
    ZeroPrefix(before, stopAt, j);
    assert after == Zeros(j) + after[j..];
    ValueSkipsZeros(j, after[j..], 58);
  }

  /** The number reaches as far as the digits that were touched. */
  lemma StoppedLate(before: seq<nat>, rest: seq<nat>, j: nat, stopAt: nat, carried: nat, byte: nat)
    requires j < stopAt - 1 < |before| && before[..stopAt] == Zeros(stopAt)
    requires Absorbed(before[j + 1..], rest, carried, byte) && carried != 0
    ensures 256 * Value(before, 58) + byte >= Pow(58, |before| - 1 - j)
  {
    hide Value, Pow;
    ZeroPrefix(before, stopAt, j + 1);
    AtLeastOnce(carried, Pow(58, |rest|));
  }

  lemma AtLeastOnce(x: nat, p: nat)
    requires x > 0
    ensures x * p >= p
  {
    MulMonotone(1, x, p);
  }

  lemma ZeroPrefix(s: seq<nat>, n: nat, k: nat)
    requires k <= n <= |s| && s[..n] == Zeros(n)
    ensures s[..k] == Zeros(k) && Value(s[k..], 58) == Value(s, 58)
  {
    assert s[..k] == s[..n][..k] == Zeros(k);
    assert s == Zeros(k) + s[k..];
    ValueSkipsZeros(k, s[k..], 58);
  }

  /** The number fits, so the carry is gone before the first digit has been passed. */
  lemma NeverRunsOver(carry: nat, before: seq<nat>, after: seq<nat>, byte: nat)
    requires 256 * Value(before, 58) + byte < Pow(58, |before|)
    requires Absorbed(before, after, carry, byte)
    ensures carry == 0
  {
    if carry > 0 {
      AtLeastOnce(carry, Pow(58, |before|));
    }
  }

  lemma RoomGrows(k: nat, n: nat)
    requires k < n
    ensures DigitRoom(k) + 1 <= DigitRoom(k + 1) <= DigitRoom(n)
  {
  }

  lemma RoomFits(n: nat)
    requires n <= MAX_ENC_INPUT_SIZE
    ensures DigitRoom(n) <= DigitRoom(MAX_ENC_INPUT_SIZE) == 166
  {
  }

  /** After k + 1 bytes the number still fits, with room above it for the bytes to come. */
  lemma NextByteFits(bytes: seq<u8>, k: nat, v: nat)
    requires k < |bytes| && v == Value(bytes[..k], 256)
    ensures 256 * v + bytes[k] == Value(bytes[..k + 1], 256)
    ensures 256 * v + bytes[k] < Pow(58, DigitRoom(k + 1)) <= Pow(58, DigitRoom(|bytes|))
  {
    ValueAppend(bytes[..k], bytes[k], 256);
    assert bytes[..k + 1] == bytes[..k] + [bytes[k]];
    ValueBound(bytes[..k + 1], 256);
    RoomSuffices(k + 1);
    RoomGrows(k, |bytes|);
    PowMonotone(58, DigitRoom(k + 1), DigitRoom(|bytes|));
  }

  lemma FewTouched(touched: nat, room: nat, v: nat)
    requires Pow(58, touched) <= v < Pow(58, room)
    ensures touched < room
  {
    if touched >= room {
      PowMonotone(58, room, touched);
    }
  }

  /** The outer loop of base58_encode: `stopAt` stays positive until the last byte. */
  method ConvertDigits(buffer: array<u8>, outputSize: nat, bytes: seq<u8>)
    requires outputSize == DigitRoom(|bytes|) <= buffer.Length < 0x1_0000_0000
    requires buffer[..outputSize] == Zeros(outputSize)
    modifies buffer
    ensures InBase(buffer[..outputSize], 58) && Value(buffer[..outputSize], 58) == Value(bytes, 256)
  {
    hide Value, Pow, DigitRoom;
    AllZero(buffer[..outputSize], outputSize);
    RoomStart();
    var stopAt: nat := outputSize - 1;
    assert buffer[..stopAt] == Zeros(stopAt);
    for k := 0 to |bytes|
      invariant stopAt < outputSize && outputSize - stopAt <= DigitRoom(k)
      invariant InBase(buffer[..outputSize], 58) && buffer[..stopAt] == Zeros(stopAt)
      invariant Value(buffer[..outputSize], 58) == Value(bytes[..k], 256)
    {
      RoomGrows(k, |bytes|);
      NextByteFits(bytes, k, Value(bytes[..k], 256));
      var stop := AbsorbByte(buffer, outputSize, stopAt, bytes[k]);
      if stop != stopAt - 1 {
        FewTouched(outputSize - 1 - stop, DigitRoom(k + 1), Value(bytes[..k + 1], 256));
      }
      stopAt := stop;
    }
    assert bytes[..|bytes|] == bytes;
  }

  lemma AllZero(s: seq<nat>, n: nat)
    requires s == Zeros(n)
    ensures InBase(s, 58) && Value(s, 58) == 0 == Value([], 256)
  {
    ValueZeros(n, 58);
  }

  lemma RoomStart()
    ensures DigitRoom(0) == 1
  {
  }

  /** The digits after the zeros of the buffer are the text after its ones. */
  lemma EncodedDigits(input: seq<u8>, zeroCount: nat, digits: seq<nat>, j: nat)
    requires zeroCount == LeadingZeros(input) && j == LeadingZeros(digits)
    requires InBase(digits, 58) && Value(digits, 58) == Value(input[zeroCount..], 256)
    ensures InBase(Zeros(zeroCount) + digits[j..], 58) && Encoding(input) == TextOf(Zeros(zeroCount) + digits[j..])
  {
    hide Value, Letter, Digits, TextOf;
    ValueWithoutLeadingZeros(input, 256);
    ValueWithoutLeadingZeros(digits, 58);
    DigitsUnique(digits[j..], 58);
  }

  lemma TextAt(digits: seq<nat>, i: nat)
    requires InBase(digits, 58) && i < |digits|
    ensures digits[i] < 58 && TextOf(digits)[i] == Letter(digits[i])
  {
  }

  /** base58_encode; the result is -1 or the length of the text. */
  method Base58Encode(input: seq<u8>, out: array<char>) returns (n: int)
    requires out.Length < 0x1_0000_0000
    modifies out
    ensures EncodeResult(input, out.Length).None? ==> n == -1 && out[..] == old(out[..])
    ensures EncodeResult(input, out.Length).Some? ==>
      var text := EncodeResult(input, out.Length).value;
      n == |text| && out[..n] == text && out[n..] == old(out[n..])
  {
    hide Value, Pow, InBase, Digits, Letter, Encoding, DigitRoom, TextOf, LeadingZeros;
    RoomFits(0);
    var buffer := new u8[DigitRoom(MAX_ENC_INPUT_SIZE)](_ => 0);
    if |input| > MAX_ENC_INPUT_SIZE {
      return -1;
    }
    var zeroCount := CountZeros(input);
    var length := |input| - zeroCount;
    var outputSize := DigitRoom(length);
    RoomFits(length);
    assert buffer[..outputSize] == Zeros(outputSize);
    ConvertDigits(buffer, outputSize, input[zeroCount..]);
    var digits: seq<u8> := buffer[..outputSize];
    var j := CountZeros(digits);
    EncodedDigits(input, zeroCount, digits, j);
    if out.Length < zeroCount + outputSize - j {
      return -1;
    }
    ghost var all := Zeros(zeroCount) + digits[j..];
    ghost var text := TextOf(all);
    ghost var j0 := j;
    var i := 0;
    while i < zeroCount
      invariant i <= zeroCount && out[..i] == text[..i] && buffer[..outputSize] == digits
      invariant forall k :: i <= k < out.Length ==> out[k] == old(out[k])
    {
      TextAt(all, i);
      out[i] := Letter(0);
      i := i + 1;
    }
    while j < outputSize
      invariant j0 <= j <= outputSize && i == zeroCount + (j - j0)
      invariant out[..i] == text[..i] && buffer[..outputSize] == digits
      invariant forall k :: i <= k < out.Length ==> out[k] == old(out[k])
    {
      TextAt(all, i);
      assert all[i] == digits[j0..][i - zeroCount] == digits[j] == buffer[..outputSize][j];
      out[i] := Letter(buffer[j]);
      i, j := i + 1, j + 1;
    }
    n := i;
  }

  /** The loops over leading zeros. */
  method CountZeros(s: seq<u8>) returns (k: nat)
    ensures k == LeadingZeros(s)
  {
    k := 0;
    while k < |s| && s[k] == 0
      invariant k <= |s| && LeadingZeros(s) == k + LeadingZeros(s[k..])
    {
      assert s[k..][1..] == s[k + 1..];
      k := k + 1;
    }
  }

  // ---- base58_decode ----

  lemma QuotientStays(dividend: nat, remainder: nat, d: nat)
    requires remainder < 256 && d < 58 && dividend == remainder * 58 + d
    ensures dividend < 0x1_0000 && dividend / 256 < 58 && dividend % 256 < 256
    ensures dividend == 256 * (dividend / 256) + dividend % 256
    ensures remainder == 0 ==> dividend / 256 == 0
  {
  }

  /** The inner loop of base58_decode: the digits from startAt on are divided by 256 in place. */
  method DivideBy256(tmp: array<u8>, startAt: nat, inLen: nat) returns (remainder: u16)
    requires startAt < inLen <= tmp.Length && InBase(tmp[startAt..inLen], 58)
    modifies tmp
    ensures Divided(old(tmp[startAt..inLen]), tmp[startAt..inLen], 58, 256, remainder) && tmp[startAt] == 0 && remainder < 256
  {
    hide Divided, InBase;
    ghost var before: seq<nat> := tmp[startAt..inLen];
    remainder := 0;
    NothingDivided(58, 256);
    var d := startAt;
    assert before[..0] == tmp[startAt..startAt] == [];
    while d < inLen
      invariant startAt <= d <= inLen && remainder < 256
      invariant Divided(before[..d - startAt], tmp[startAt..d], 58, 256, remainder)
      invariant tmp[d..inLen] == before[d - startAt..]
      invariant if d == startAt then remainder == 0 else tmp[startAt] == 0
    {
      DigitAt(before, d - startAt);
      assert tmp[d] == before[d - startAt];
      var dividend: u16 := remainder * 58 + tmp[d];
      QuotientStays(dividend, remainder, tmp[d]);
      DivideDigit(before[..d - startAt], tmp[startAt..d], 58, 256, remainder, tmp[d], dividend / 256, dividend % 256);
      assert before[..d - startAt + 1] == before[..d - startAt] + [tmp[d]];
      ghost var done := tmp[startAt..d];
      tmp[d] := dividend / 256;
      remainder := dividend % 256;
      assert tmp[startAt..d + 1] == done + [tmp[d]];
      d := d + 1;
    }
    assert before[..inLen - startAt] == before;
  }

  /** What is left in tmp and what has been moved to buffer make up the number. */
  ghost predicate Split(left: seq<nat>, moved: seq<nat>, v: nat) {
    InBase(left, 58) && InBase(moved, 256) && Value(left, 58) * Pow(256, |moved|) + Value(moved, 256) == v
  }

  lemma SplitStarts(left: seq<nat>)
    requires InBase(left, 58)
    ensures Split(left, [], Value(left, 58))
  {
    assert Pow(256, 0) == 1;
  }

  lemma MoveByte(left: seq<nat>, left': seq<nat>, moved: seq<nat>, r: nat, v: nat)
    requires Split(left, moved, v) && Divided(left, left', 58, 256, r) && left' != [] && left'[0] == 0
    ensures Split(left'[1..], [r] + moved, v)
  {
    hide Value, Pow;
    assert left' == Zeros(1) + left'[1..];
    ValueSkipsZeros(1, left'[1..], 58);
    ValueCons(r, moved, 256);
    PowStep(256, |moved|);
    Distribute(Value(left', 58), r, Pow(256, |moved|));
  }

  lemma Distribute(x: nat, r: nat, p: nat)
    ensures (256 * x + r) * p == x * (256 * p) + r * p
  {
  }

  lemma AllMoved(moved: seq<nat>, v: nat)
    requires Split([], moved, v)
    ensures Value(moved, 256) == v && InBase(moved, 256)
  {
  }

  /** The outer loop of base58_decode: every pass moves one byte and gives up one digit. */
  method MoveBytes(tmp: array<u8>, buffer: array<u8>, zeroCount: nat, inLen: nat) returns (j: nat)
    requires zeroCount <= inLen <= tmp.Length && inLen <= buffer.Length && tmp != buffer
    requires InBase(tmp[zeroCount..inLen], 58) && buffer[..] == Zeros(buffer.Length)
    modifies tmp, buffer
    ensures j == zeroCount && buffer[..j] == Zeros(j) && InBase(buffer[j..inLen], 256)
    ensures Value(buffer[j..inLen], 256) == Value(old(tmp[zeroCount..inLen]), 58)
  {
    hide InBase, Divided, Split, Value;
    ghost var v := Value(tmp[zeroCount..inLen], 58);
    j := inLen;
    var startAt := zeroCount;
    SplitStarts(tmp[zeroCount..inLen]);
    assert buffer[j..inLen] == [];
    while startAt < inLen
      invariant zeroCount <= startAt <= inLen && j == inLen - (startAt - zeroCount)
      invariant buffer[..j] == Zeros(j) && Split(tmp[startAt..inLen], buffer[j..inLen], v)
    {
      ghost var left, moved := tmp[startAt..inLen], buffer[j..inLen];
      SplitDigits(left, moved, v);
      var remainder := DivideBy256(tmp, startAt, inLen);
      MoveByte(left, tmp[startAt..inLen], moved, remainder, v);
      assert tmp[startAt..inLen][1..] == tmp[startAt + 1..inLen];
      if tmp[startAt] == 0 {
        startAt := startAt + 1;
      }
      j := j - 1;
      buffer[j] := remainder;
      assert buffer[j..inLen] == [remainder] + moved;
    }
    assert tmp[startAt..inLen] == [];
    AllMoved(buffer[j..inLen], v);
  }

  lemma SplitDigits(left: seq<nat>, moved: seq<nat>, v: nat)
    requires Split(left, moved, v)
    ensures InBase(left, 58)
  {
  }

  /** The look-up loop of base58_decode. */
  method LookUp(input: string, tmp: array<u8>) returns (valid: bool)
    requires |input| <= tmp.Length
    modifies tmp
    ensures valid <==> Base58Text(input)
    ensures valid ==> tmp[..|input|] == DigitsOf(input)
  {
    hide Table;
    for i := 0 to |input|
      invariant forall k :: 0 <= k < i ==> IsLetter(input[k]) && tmp[k] == Table(input[k] as int)
    {
      if input[i] as int >= TABLE_SIZE {
        return false;
      }
      tmp[i] := Table(input[i] as int);
      if tmp[i] == 0xFF {
        return false;
      }
    }
    valid := true;
  }

  /** base58_decode; the result is -1 or the number of bytes. */
  method Base58Decode(input: string, out: array<u8>) returns (n: int)
    requires out.Length < 0x1_0000_0000
    modifies out
    ensures DecodeResult(input, out.Length).None? ==> n == -1 && out[..] == old(out[..])
    ensures DecodeResult(input, out.Length).Some? ==>
      var bytes := DecodeResult(input, out.Length).value;
      n == |bytes| && out[..n] == bytes && out[n..] == old(out[n..])
  {
    hide Value, InBase, Digits, LeadingZeros, Table, Decoding;
    var inLen := |input|;
    if inLen > MAX_DEC_INPUT_SIZE || inLen < 2 {
      return -1;
    }
    var tmp := new u8[MAX_DEC_INPUT_SIZE](_ => 0);
    var buffer := new u8[MAX_DEC_INPUT_SIZE](_ => 0);
    var valid := LookUp(input, tmp);
    if !valid {
      return -1;
    }
    ghost var digits := DigitsOf(input);
    LettersInBase(input);
    var zeroCount := CountZeros(tmp[..inLen]);
    assert tmp[zeroCount..inLen] == digits[zeroCount..];
    SuffixInBase(digits, zeroCount);
    var j := MoveBytes(tmp, buffer, zeroCount, inLen);
    var skipped := CountZeros(buffer[j..inLen]);
    DecodedBytes(input, zeroCount, buffer[j..inLen], skipped);
    j := j + skipped;
    var length := inLen - (j - zeroCount);
    if out.Length < length {
      return -1;
    }
    ghost var bytes := Decoding(input);
    DecodedSlice(buffer[..inLen], zeroCount, skipped, bytes);
    assert buffer[j - zeroCount..inLen] == buffer[..inLen][j - zeroCount..] == bytes;
    forall i | 0 <= i < length {
      out[i] := buffer[j - zeroCount + i];
    }
    n := length;
  }

  lemma LettersInBase(text: string)
    requires Base58Text(text)
    ensures InBase(DigitsOf(text), 58)
  {
    forall i | 0 <= i < |text|
      ensures DigitsOf(text)[i] < 58
    {
      LetterInvertsTable(text[i]);
    }
  }

  lemma SuffixInBase(s: seq<nat>, k: nat)
    requires InBase(s, 58) && k <= |s|
    ensures InBase(s[k..], 58)
  {
  }

  /** The bytes after the zeros of the buffer are those after the zeros of the result. */
  lemma DecodedBytes(text: string, zeroCount: nat, moved: seq<nat>, skipped: nat)
    requires Base58Text(text) && zeroCount == LeadingZeros(DigitsOf(text)) && skipped == LeadingZeros(moved)
    requires InBase(moved, 256) && Value(moved, 256) == Value(DigitsOf(text)[zeroCount..], 58)
    ensures Decoding(text) == Zeros(zeroCount) + moved[skipped..]
  {
    hide Value, Digits, Table;
    var digits := DigitsOf(text);
    ValueWithoutLeadingZeros(digits, 58);
    ValueWithoutLeadingZeros(moved, 256);
    DigitsUnique(moved[skipped..], 256);
  }

  lemma DecodedSlice(buffer: seq<nat>, zeroCount: nat, skipped: nat, bytes: seq<nat>)
    requires zeroCount + skipped <= |buffer| && buffer[..zeroCount] == Zeros(zeroCount)
    requires skipped == LeadingZeros(buffer[zeroCount..]) && bytes == Zeros(zeroCount) + buffer[zeroCount..][skipped..]
    ensures buffer[skipped..] == bytes
  {
    var rest := buffer[zeroCount..];
    assert rest[..skipped] == Zeros(skipped);
    forall i | 0 <= i < |bytes|
      ensures buffer[skipped + i] == bytes[i]
    {
      if i < zeroCount && skipped + i >= zeroCount {
        assert rest[..skipped][skipped + i - zeroCount] == 0;
      } else if i < zeroCount {
        assert buffer[..zeroCount][skipped + i] == 0;
      }
    }
  }
}
