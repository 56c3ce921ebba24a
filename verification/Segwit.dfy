/** Segwit addresses, segwit_addr_encode and segwit_addr_decode of app/app-swap/src/btc/segwit.c. */
module Segwit {
  import opened Machine
  import opened Numerals
  import opened BitGroups
  import opened Bech32
  import opened Bech32Text

  /** The encoding of a version, as segwit_addr_encode chooses it. */
  function EncodingFor(witver: int): Encoding {
    if witver > 0 then Bech32m else PlainBech32
  }

  /** Version and program as 5-bit values; the version is cut to a byte. */
  function AddressData(witver: int, program: seq<u8>): (data: seq<nat>)
    ensures |data| == 1 + GroupCount(|program|, 8, 5)
  {
    [witver % 0x100] + Padded(program, 8, 5)
  }

  predicate GoodProgramLength(witver: int, n: nat) {
    2 <= n <= 40 && (witver == 0 ==> n == 20 || n == 32)
  }

  predicate AddressEncodable(hrp: string, witver: int, program: seq<u8>) {
    && witver <= 16 && GoodProgramLength(witver, |program|)
    && witver % 0x100 < 32 && GoodHrp(hrp) && |hrp| + 8 + GroupCount(|program|, 8, 5) <= 90
  }

  /** The address; the padded groups are 5-bit values. */
  function Address(hrp: string, witver: int, program: seq<u8>): string
    requires AddressEncodable(hrp, witver, program)
  {
    PaddedIsFive(program);
    Encoded(hrp, AddressData(witver, program), EncodingFor(witver))
  }

  lemma PaddedIsFive(program: seq<u8>)
    ensures InBase(Padded(program, 8, 5), 32)
  {
    UnpaddedUndoesPadded(program);
  }

  lemma ByteGroups(n: nat)
    requires n <= 40
    ensures GroupCount(n, 8, 5) <= 64
  {
  }

  /** What an address decodes to: version and program. */
  function AddressDecoded(hrp: string, addr: string): Option<(nat, seq<nat>)> {
    var d := Decoded(addr);
    if d.None? || d.value.data == [] || |d.value.data| > 65 || d.value.hrp != hrp || d.value.data[0] > 16
       || d.value.enc != EncodingFor(d.value.data[0]) then None
    else
      var program := Unpadded(d.value.data[1..], 5, 8);
      if program.None? || !GoodProgramLength(d.value.data[0], |program.value|) then None
      else Some((d.value.data[0], program.value))
  }

  /**
   segwit_addr_decode recovers version and program of every address segwit_addr_encode makes,
   exactly when the human-readable part is not empty and the version not negative.
   */
  lemma DecodedUndoesAddress(hrp: string, witver: int, program: seq<u8>)
    requires AddressEncodable(hrp, witver, program)
    ensures
      AddressDecoded(hrp, Address(hrp, witver, program)) == Some((witver, program))
      <==> hrp != "" && witver >= 0
  {
    hide Encoded, Decoded, Padded, Unpadded, Value;
    PaddedIsFive(program);
    ByteGroups(|program|);
    UnpaddedUndoesPadded(program);
    var data: seq<Five> := AddressData(witver, program);
    assert data[1..] == Padded(program, 8, 5);
    DecodedUndoesEncoded(hrp, data, EncodingFor(witver));
  }

  /** Every address segwit_addr_decode accepts is, in lower case, the one segwit_addr_encode makes. */
  lemma AddressUndoesDecoded(hrp: string, addr: string)
    requires AddressDecoded(hrp, addr).Some?
    ensures
      var (witver, program) := AddressDecoded(hrp, addr).value;
      && InBase(program, 256) && AddressEncodable(hrp, witver, program)
      && Address(hrp, witver, program) == Lowered(addr)
  {
    hide Encoded, Decoded, Padded, Lowered, Value, GroupCount;
    var d := Decoded(addr).value;
    var (witver, program) := AddressDecoded(hrp, addr).value;
    EncodedUndoesDecoded(addr);
    ProgramIsBytes(d.data[1..]);
    UnpaddedAcceptsPadded(d.data[1..], program);
    assert d.data == [d.data[0]] + d.data[1..];
    assert AddressData(witver, program) == d.data;
  }

  lemma ProgramIsBytes(groups: seq<Five>)
    ensures InBase(groups, 32)
    ensures Unpadded(groups, 5, 8).Some? ==> InBase(Unpadded(groups, 5, 8).value, 256)
  {
    Powers32And256();
  }

  /** segwit_addr_encode; the buffer takes 73 characters more than the human-readable part. */
  method SegwitAddrEncode(output: array<char>, hrp: string, witver: int, witprog: seq<u8>) returns (ok: bool)
    requires |hrp| + 73 <= output.Length
    modifies output
    ensures ok <==> AddressEncodable(hrp, witver, witprog)
    ensures ok ==>
      var text := Address(hrp, witver, witprog);
      |text| < output.Length && output[..|text|] == text && output[|text|] == '\0'
  {
    hide Encoded, Padded, Unpadded, Value, GroupCount;
    var data := new u8[65](_ => 0);
    var enc := PlainBech32;
    if witver > 16 {
      return false;
    }
    if witver == 0 && |witprog| != 20 && |witprog| != 32 {
      return false;
    }
    if |witprog| < 2 || |witprog| > 40 {
      return false;
    }
    if witver > 0 {
      enc := Bech32m;
    }
    data[0] := witver % 0x100;
    ByteGroups(|witprog|);
    BytesInBase(witprog);
    var _, datalen := ConvertBits(data, 1, 5, witprog, 8, true);
    datalen := datalen + 1;
    PaddedIsFive(witprog);
    assert data[..datalen] == [data[..1][0]] + data[1..datalen];
    assert data[..datalen] == AddressData(witver, witprog);
    FirstValue(data[..datalen]);
    ok := Bech32Encode(output, hrp, data[..datalen], enc);
  }

  lemma BytesInBase(bytes: seq<u8>)
    ensures InBase(bytes, Pow(2, 8))
  {
    Powers32And256();
  }

  /** Only the version can be too large for a symbol. */
  lemma FirstValue(data: seq<u8>)
    requires data != [] && InBase(data[1..], 32)
    ensures AllFive(data) <==> data[0] < 32
  {
    forall i | 1 <= i < |data|
      ensures data[i] < 32
    {
      assert data[1..][i - 1] == data[i];
    }
  }

  /** strncmp against a terminated string in a buffer. */
  method SameString(text: string, buffer: array<char>, limit: nat, ghost other: string) returns (same: bool)
    requires '\0' !in text && '\0' !in other && |other| < limit <= buffer.Length
    requires buffer[..|other|] == other && buffer[|other|] == '\0'
    ensures same == (text == other)
  {
    for i := 0 to limit
      invariant i <= |text| && i <= |other| && text[..i] == other[..i]
    {
      var c := if i < |text| then text[i] else '\0';
      if c != buffer[i] {
        return false;
      }
      if c == '\0' {
        return true;
      }
    }
    same := true;
  }

  lemma DecodedHasNoTerminator(addr: string)
    requires Decoded(addr).Some?
    ensures '\0' !in Decoded(addr).value.hrp
  {
    hide Checksum, ValuesOf, EncodingOf, MixedCase, AllSymbols;
    var hrp := HrpOf(addr);
    forall i | 0 <= i < |hrp|
      ensures Lowered(hrp)[i] != '\0'
    {
      assert Printable(hrp[i]);
    }
  }

  /** segwit_addr_decode. */
  method SegwitAddrDecode(witdata: array<u8>, hrp: string, addr: string) returns (ok: bool, witver: int, witdataLen: nat)
    requires 40 <= witdata.Length && '\0' !in hrp
    modifies witdata
    ensures ok <==> AddressDecoded(hrp, addr).Some?
    ensures ok ==>
      var (version, program) := AddressDecoded(hrp, addr).value;
      witver == version && witdataLen == |program| <= 40 && witdata[..witdataLen] == program
  {
    hide Decoded, Unpadded, Value, GroupCount;
    witver, witdataLen := 0, 0;
    var data := new u8[84](_ => 0);
    var hrpActual := new char[84](_ => '\0');
    var enc, dataLen := Bech32Decode(hrpActual, data, addr);
    if enc == NoEncoding {
      return false, witver, witdataLen;
    }
    ghost var d := Decoded(addr).value;
    if dataLen == 0 || dataLen > 65 {
      return false, witver, witdataLen;
    }
    DecodedHasNoTerminator(addr);
    var same := SameString(hrp, hrpActual, 84, d.hrp);
    if !same {
      return false, witver, witdataLen;
    }
    assert data[0] == data[..dataLen][0];
    if data[0] > 16 {
      return false, witver, witdataLen;
    }
    if data[0] == 0 && enc != PlainBech32 {
      return false, witver, witdataLen;
    }
    if data[0] > 0 && enc != Bech32m {
      return false, witver, witdataLen;
    }
    assert data[1..dataLen] == d.data[1..];
    FivesInBase(d.data[1..]);
    FewBytes(dataLen - 1);
    ok, witdataLen := ConvertBits(witdata, 0, 8, data[1..dataLen], 5, false);
    if !ok {
      return;
    }
    assert witdata[0..witdataLen] == witdata[..witdataLen];
    if witdataLen < 2 || witdataLen > 40 {
      return false, witver, witdataLen;
    }
    if data[0] == 0 && witdataLen != 20 && witdataLen != 32 {
      return false, witver, witdataLen;
    }
    witver := data[0];
  }

  lemma FivesInBase(data: seq<Five>)
    ensures InBase(data, Pow(2, 5))
  {
    Powers32And256();
  }

  lemma FewBytes(n: nat)
    requires n <= 64
    ensures GroupCount(n, 5, 8) <= 40
  {
  }
}
