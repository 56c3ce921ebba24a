/** bech32_encode and bech32_decode, app/app-swap/src/btc/segwit.c. */
module Bech32Text {
  import opened Machine
  import opened Bech32

  // ---- What the two functions compute ----

  /** ch >> 5 and ch & 0x1f. */
  function High(c: char): Five {
    c as int / 32 % 32
  }

  function Low(c: char): Five {
    c as int % 32
  }

  function Highs(s: string): (v: seq<Five>)
    ensures |v| == |s|
  {
    seq<Five>(|s|, i requires 0 <= i < |s| => High(s[i]))
  }

  function Lows(s: string): (v: seq<Five>)
    ensures |v| == |s|
  {
    seq<Five>(|s|, i requires 0 <= i < |s| => Low(s[i]))
  }

  /** The human-readable part as it enters the checksum. */
  function Expand(hrp: string): seq<Five> {
    Highs(hrp) + [0] + Lows(hrp)
  }

  predicate Printable(c: char) {
    33 <= c as int <= 126
  }

  predicate IsUpper(c: char) {
    'A' <= c <= 'Z'
  }

  predicate IsLower(c: char) {
    'a' <= c <= 'z'
  }

  predicate AllFive(data: seq<u8>) {
    forall i :: 0 <= i < |data| ==> data[i] < 32
  }

  predicate GoodHrp(hrp: string) {
    forall i :: 0 <= i < |hrp| ==> Printable(hrp[i]) && !IsUpper(hrp[i])
  }

  predicate Encodable(hrp: string, data: seq<u8>) {
    GoodHrp(hrp) && |hrp| + 7 + |data| <= 90 && AllFive(data)
  }

  function Symbols(values: seq<Five>): (s: string)
    ensures |s| == |values|
  {
    seq(|values|, i requires 0 <= i < |values| => Charset(values[i]))
  }

  /** The data and its checksum. */
  function Payload(hrp: string, data: seq<Five>, enc: Encoding): (s: seq<Five>)
    ensures |s| == |data| + 6
  {
    data + Groups(ChecksumWord(Expand(hrp) + data, enc), 6)
  }

  function Encoded(hrp: string, data: seq<Five>, enc: Encoding): (text: string)
    ensures |text| == |hrp| + 7 + |data|
  {
    hrp + "1" + Symbols(Payload(hrp, data, enc))
  }

  datatype Decoding = Decoding(enc: Encoding, hrp: string, data: seq<Five>)

  /** Number of characters after the last '1'. */
  function AfterSeparator(text: string): (n: nat)
    ensures n <= |text|
  {
    if text == "" || text[|text| - 1] == '1' then 0 else 1 + AfterSeparator(text[..|text| - 1])
  }

  function Lowered(s: string): (t: string)
    ensures |t| == |s|
  {
    seq(|s|, i requires 0 <= i < |s| => Lower(s[i]))
  }

  predicate AllPrintable(s: string) {
    forall i :: 0 <= i < |s| ==> Printable(s[i])
  }

  predicate AllSymbols(s: string) {
    forall i :: 0 <= i < |s| ==> CharsetRev(s[i]).Some?
  }

  function ValuesOf(s: string): (v: seq<Five>)
    requires AllSymbols(s)
    ensures |v| == |s|
  {
    seq<Five>(|s|, i requires 0 <= i < |s| => CharsetRev(s[i]).value)
  }

  predicate MixedCase(s: string) {
    (exists i :: 0 <= i < |s| && IsLower(s[i])) && (exists i :: 0 <= i < |s| && IsUpper(s[i]))
  }

  function EncodingOf(chk: bv32): Encoding {
    if chk == FinalConstant(PlainBech32) then PlainBech32
    else if chk == FinalConstant(Bech32m) then Bech32m
    else NoEncoding
  }

  /** Where bech32_decode splits a text, if its length and its separator are in order. */
  predicate WellSplit(text: string) {
    8 <= |text| <= 90 && 6 <= AfterSeparator(text) && 1 + AfterSeparator(text) < |text|
  }

  function HrpOf(text: string): string
    requires WellSplit(text)
  {
    text[..|text| - 1 - AfterSeparator(text)]
  }

  function SymbolsOf(text: string): (s: string)
    requires WellSplit(text)
    ensures |s| == AfterSeparator(text)
  {
    text[|text| - AfterSeparator(text)..]
  }

  predicate WellFormed(text: string) {
    && WellSplit(text) && AllPrintable(HrpOf(text)) && AllSymbols(SymbolsOf(text))
    && !MixedCase(HrpOf(text) + SymbolsOf(text))
  }

  function Checksum(text: string): bv32
    requires WellFormed(text)
  {
    Polymod(1, Expand(Lowered(HrpOf(text))) + ValuesOf(SymbolsOf(text)))
  }

  function Decoded(text: string): Option<Decoding> {
    if !WellFormed(text) || EncodingOf(Checksum(text)) == NoEncoding then None
    else
      var values := ValuesOf(SymbolsOf(text));
      Some(Decoding(EncodingOf(Checksum(text)), Lowered(HrpOf(text)), values[..|values| - 6]))
  }

  // ---- Round trip ----

  lemma {:induction false} SeparatorFound(hrp: string, payload: string)
    requires forall i :: 0 <= i < |payload| ==> payload[i] != '1'
    ensures AfterSeparator(hrp + "1" + payload) == |payload|
  {
    var text := hrp + "1" + payload;
    if payload != "" {
      var rest := payload[..|payload| - 1];
      SeparatorFound(hrp, rest);
      assert text[..|text| - 1] == hrp + "1" + rest;
      assert text[|text| - 1] == payload[|payload| - 1];
    } else {
      assert text[|text| - 1] == '1';
    }
  }

  lemma SymbolsAreValues(values: seq<Five>)
    ensures AllSymbols(Symbols(values)) && ValuesOf(Symbols(values)) == values
    ensures forall i :: 0 <= i < |values| ==> Symbols(values)[i] != '1' && !IsUpper(Symbols(values)[i])
  {
    forall i | 0 <= i < |values|
      ensures CharsetRev(Symbols(values)[i]) == Some(values[i]) && Symbols(values)[i] != '1' && !IsUpper(Symbols(values)[i])
    {
      CharsetInverse(values[i]);
    }
  }

  lemma GoodHrpIsLowered(hrp: string)
    requires GoodHrp(hrp)
    ensures Lowered(hrp) == hrp && AllPrintable(hrp)
  {
  }

  lemma ConstantsTellApart(enc: Encoding)
    ensures EncodingOf(FinalConstant(enc)) == enc
  {
  }

  lemma SplitsAgain(hrp: string, payload: string)
    requires 6 <= |payload| && hrp != "" && |hrp| + 1 + |payload| <= 90
    requires forall i :: 0 <= i < |payload| ==> payload[i] != '1'
    ensures WellSplit(hrp + "1" + payload)
    ensures HrpOf(hrp + "1" + payload) == hrp && SymbolsOf(hrp + "1" + payload) == payload
  {
    SeparatorFound(hrp, payload);
  }

  /** bech32_decode recovers what bech32_encode was given, unless the human-readable part is empty. */
  lemma DecodedUndoesEncoded(hrp: string, data: seq<Five>, enc: Encoding)
    requires Encodable(hrp, data) && enc != NoEncoding
    ensures Decoded(Encoded(hrp, data, enc)) == if hrp == "" then None else Some(Decoding(enc, hrp, data))
  {
    hide Symbols, ValuesOf, Groups, Polymod, ChecksumWord, FinalConstant, EncodingOf, Expand, Lowered;
    var payload := Payload(hrp, data, enc);
    var symbols := Symbols(payload);
    SymbolsAreValues(payload);
    if hrp == "" {
      SeparatorFound(hrp, symbols);
    } else {
      SplitsAgain(hrp, symbols);
      GoodHrpIsLowered(hrp);
      NoCapitals(hrp, symbols);
      ChecksumCloses(Expand(hrp) + data, enc);
      assert Expand(hrp) + payload == Expand(hrp) + data + Groups(ChecksumWord(Expand(hrp) + data, enc), 6);
      ConstantsTellApart(enc);
      assert payload[..|payload| - 6] == data;
    }
  }

  lemma NoCapitals(hrp: string, payload: string)
    requires GoodHrp(hrp) && forall i :: 0 <= i < |payload| ==> !IsUpper(payload[i])
    ensures !MixedCase(hrp + payload)
  {
  }

  lemma LoweredSymbols(s: string)
    requires AllSymbols(s)
    ensures Symbols(ValuesOf(s)) == Lowered(s)
  {
    forall i | 0 <= i < |s|
      ensures Symbols(ValuesOf(s))[i] == Lower(s[i])
    {
      CharsetRevInverse(s[i]);
    }
  }

  lemma SeparatorIsOne(text: string)
    requires AfterSeparator(text) < |text|
    ensures text[|text| - 1 - AfterSeparator(text)] == '1'
  {
    if text[|text| - 1] != '1' {
      SeparatorIsOne(text[..|text| - 1]);
    }
  }

  /** Every text bech32_decode accepts is, in lower case, the one bech32_encode makes of what was decoded. */
  lemma EncodedUndoesDecoded(text: string)
    requires Decoded(text).Some?
    ensures
      var d := Decoded(text).value;
      Encodable(d.hrp, d.data) && Encoded(d.hrp, d.data, d.enc) == Lowered(text)
  {
    hide Symbols, ValuesOf, Groups, Polymod, ChecksumWord, FinalConstant, Expand, MixedCase, CharsetRev;
    var d := Decoded(text).value;
    var hrp, symbols := HrpOf(text), SymbolsOf(text);
    var values := ValuesOf(symbols);
    var w := values[|values| - 6..];
    EncodingConstant(Checksum(text));
    assert values == d.data + w;
    assert Expand(d.hrp) + values == (Expand(d.hrp) + d.data) + w;
    ChecksumUnique(Expand(d.hrp) + d.data, w, d.enc);
    LoweredSymbols(symbols);
    SeparatorIsOne(text);
    assert text == hrp + "1" + symbols;
    assert Lowered(text) == Lowered(hrp) + "1" + Lowered(symbols);
    LoweredIsGood(hrp);
  }

  lemma EncodingConstant(chk: bv32)
    ensures EncodingOf(chk) != NoEncoding ==> chk == FinalConstant(EncodingOf(chk))
  {
  }

  lemma LoweredIsGood(hrp: string)
    requires AllPrintable(hrp)
    ensures GoodHrp(Lowered(hrp))
  {
  }

  // ---- Error detection ----

  lemma {:induction false} SeparatorBelow(text: string, n: nat)
    requires n < AfterSeparator(text)
    ensures text[|text| - 1 - n] != '1'
  {
    if n > 0 {
      SeparatorBelow(text[..|text| - 1], n - 1);
    }
  }

  lemma {:induction false} SeparatorStays(text: string, text': string)
    requires |text| == |text'| && AfterSeparator(text) < |text|
    requires forall i :: 0 <= i < |text| - AfterSeparator(text) ==> text'[i] == text[i]
    requires forall i :: |text| - AfterSeparator(text) <= i < |text| ==> text'[i] != '1'
    ensures AfterSeparator(text') == AfterSeparator(text)
  {
    var n := |text| - 1;
    if AfterSeparator(text) > 0 {
      SeparatorStays(text[..n], text'[..n]);
    } else {
      assert text'[n] == text[n] == '1' by {
        AtSeparator(text);
      }
    }
  }

  lemma AtSeparator(text: string)
    requires AfterSeparator(text) == 0 && text != ""
    ensures text[|text| - 1] == '1'
  {
  }

  /** `text'` is `text` with the value of one symbol after the separator changed. */
  predicate OneSymbolChanged(text: string, text': string, j: nat) {
    && |text'| == |text| && |text| - AfterSeparator(text) <= j < |text|
    && (forall i :: 0 <= i < |text| && i != j ==> text'[i] == text[i])
    && CharsetRev(text[j]).Some? && CharsetRev(text'[j]).Some? && CharsetRev(text[j]) != CharsetRev(text'[j])
  }

  lemma SeparatorIsNoSymbol()
    ensures CharsetRev('1').None?
  {
  }

  /** No valid text has a neighbour, one data symbol away, that is valid in the same encoding. */
  lemma SingleErrorDetected(text: string, text': string, j: nat)
    requires Decoded(text).Some? && OneSymbolChanged(text, text', j)
    ensures Decoded(text').None? || Decoded(text').value.enc != Decoded(text).value.enc
  {
    hide Polymod, FinalConstant, Expand, Lowered, CharsetRev;
    if Decoded(text').Some? {
      SeparatorIsNoSymbol();
      forall i | |text| - AfterSeparator(text) <= i < |text|
        ensures text'[i] != '1'
      {
        if i != j {
          SeparatorBelow(text, |text| - 1 - i);
        }
      }
      SeparatorStays(text, text');
      assert HrpOf(text') == HrpOf(text);
      var s, s' := SymbolsOf(text), SymbolsOf(text');
      var k := j - (|text| - AfterSeparator(text));
      var v, v' := ValuesOf(s), ValuesOf(s');
      var hrp := Expand(Lowered(HrpOf(text)));
      assert v'[..k] == v[..k] && v'[k + 1..] == v[k + 1..] && v[k] != v'[k] by {
        assert s[k] == text[j] && s'[k] == text'[j];
      }
      assert hrp + v == (hrp + v[..k]) + [v[k]] + v[k + 1..];
      assert hrp + v' == (hrp + v[..k]) + [v'[k]] + v[k + 1..];
      ChangedValueChangesChecksum(1, hrp + v[..k], v[k], v'[k], v[k + 1..]);
      SameEncodingSameChecksum(Checksum(text), Checksum(text'));
    }
  }

  lemma SameEncodingSameChecksum(x: bv32, y: bv32)
    ensures EncodingOf(x) == EncodingOf(y) != NoEncoding ==> x == y
  {
  }

  // ---- bech32_encode ----

  /** A step without a value is a step with value zero. */
  lemma PlainStep(chk: bv32)
    ensures Step(chk) == Mix(chk, 0)
  {
    hide Step, Word, Xor32;
    NoWord();
    XorWithZero(Step(chk));
  }

  /** The first pass over the human-readable part. */
  method CheckHrp(hrp: string) returns (ok: bool, chk: bv32)
    ensures ok <==> GoodHrp(hrp)
    ensures ok ==> chk == Polymod(1, Highs(hrp))
  {
    hide Mix, Polymod;
    chk := 1;
    var i := 0;
    NoHighs();
    while i < |hrp|
      invariant i <= |hrp| && chk == Polymod(1, Highs(hrp[..i])) && GoodHrp(hrp[..i])
    {
      var ch := hrp[i];
      if ch as int < 33 || ch as int > 126 {
        return false, chk;
      }
      if 'A' <= ch <= 'Z' {
        return false, chk;
      }
      PolymodAppend(1, Highs(hrp[..i]), High(ch));
      assert Highs(hrp[..i + 1]) == Highs(hrp[..i]) + [High(ch)];
      chk := Mix(chk, High(ch));
      i := i + 1;
    }
    assert hrp[..|hrp|] == hrp;
    ok := true;
  }

  lemma NoHighs()
    ensures Polymod(1, Highs("")) == 1
  {
  }

  /** The second pass copies the human-readable part. */
  method CopyHrp(output: array<char>, hrp: string, chk0: bv32, ghost before: seq<Five>) returns (chk: bv32)
    requires |hrp| <= output.Length && chk0 == Polymod(1, before)
    modifies output
    ensures output[..|hrp|] == hrp && chk == Polymod(1, before + Lows(hrp))
  {
    hide Mix, Polymod;
    chk := chk0;
    assert before + Lows(hrp[..0]) == before;
    for i := 0 to |hrp|
      invariant output[..i] == hrp[..i] && chk == Polymod(1, before + Lows(hrp[..i]))
    {
      PolymodAppend(1, before + Lows(hrp[..i]), Low(hrp[i]));
      assert before + Lows(hrp[..i + 1]) == before + Lows(hrp[..i]) + [Low(hrp[i])];
      chk := Mix(chk, Low(hrp[i]));
      output[i] := hrp[i];
    }
    assert hrp[..|hrp|] == hrp;
  }

  /** Writes the symbols of the data. */
  method WriteData(output: array<char>, start: nat, data: seq<u8>, chk0: bv32, ghost before: seq<Five>)
      returns (ok: bool, chk: bv32)
    requires start + |data| <= output.Length && chk0 == Polymod(1, before)
    modifies output
    ensures output[..start] == old(output[..start]) && (ok <==> AllFive(data))
    ensures ok ==> output[start..start + |data|] == Symbols(data) && chk == Polymod(1, before + data)
  {
    hide Mix, Polymod, Charset;
    chk := chk0;
    assert before + data[..0] == before;
    for i := 0 to |data|
      invariant output[..start] == old(output[..start]) && AllFive(data[..i])
      invariant output[start..start + i] == Symbols(data[..i]) && chk == Polymod(1, before + data[..i])
    {
      if data[i] / 32 != 0 {
        return false, chk;
      }
      PolymodAppend(1, before + data[..i], data[i]);
      assert before + data[..i + 1] == before + data[..i] + [data[i]];
      chk := Mix(chk, data[i]);
      output[start + i] := Charset(data[i]);
      assert output[start..start + i + 1] == Symbols(data[..i]) + [Charset(data[i])] == Symbols(data[..i + 1]);
    }
    assert data[..|data|] == data;
    ok := true;
  }

  /** Six steps, the final constant, and the symbols of what results. */
  method WriteChecksum(output: array<char>, start: nat, chk0: bv32, enc: Encoding, ghost before: seq<Five>)
    requires start + 6 < output.Length && chk0 == Polymod(1, before)
    modifies output
    ensures output[..start] == old(output[..start])
    ensures output[start..start + 6] == Symbols(Groups(ChecksumWord(before, enc), 6)) && output[start + 6] == '\0'
  {
    hide Mix, Step, Polymod, Charset, FinalConstant, Xor32, Top, Low5, ShiftRight;
    var chk := chk0;
    assert before + NoValues(0) == before;
    for i := 0 to 6
      invariant output[..start] == old(output[..start]) && chk == Polymod(1, before + NoValues(i))
    {
      PolymodAppend(1, before + NoValues(i), 0);
      assert before + NoValues(i + 1) == before + NoValues(i) + [0];
      PlainStep(chk);
      chk := Step(chk);
    }
    chk := Xor32(chk, FinalConstant(enc));
    for i := 0 to 6
      invariant output[..start] == old(output[..start])
      invariant output[start..start + i] == Symbols(Groups(chk, i))
    {
      ShiftGivesGroup(chk, i);
      var v := Low5(ShiftRight(chk, (5 - i) * 5)) as int;
      output[start + i] := Charset(v);
      assert output[start..start + i + 1] == Symbols(Groups(chk, i)) + [Charset(v)] == Symbols(Groups(chk, i + 1));
    }
    output[start + 6] := '\0';
  }

  function ShiftRight(x: bv32, n: nat): bv32
    requires n < 32
  {
    x >> n
  }

  /** (chk >> (5 - i) * 5) & 31 is symbol i. */
  lemma ShiftGivesGroup(chk: bv32, i: nat)
    requires i < 6
    ensures Low5(ShiftRight(chk, (5 - i) * 5)) as int == Group(chk, i)
  {
    hide Top, ShiftRight5, ShiftRight, Low5;
    WholeTop(chk);
    TopShifts(chk, 5);
    TopShifts(chk, 4);
    TopShifts(chk, 3);
    TopShifts(chk, 2);
    TopShifts(chk, 1);
    ShiftsCompose(chk);
    ShiftsAre(chk);
  }

  lemma ShiftsCompose(chk: bv32)
    ensures ShiftRight5(chk) == chk >> 5
    ensures ShiftRight5(ShiftRight5(chk)) == chk >> 10
    ensures ShiftRight5(ShiftRight5(ShiftRight5(chk))) == chk >> 15
    ensures ShiftRight5(ShiftRight5(ShiftRight5(ShiftRight5(chk)))) == chk >> 20
    ensures ShiftRight5(ShiftRight5(ShiftRight5(ShiftRight5(ShiftRight5(chk))))) == chk >> 25
  {
  }

  lemma ShiftsAre(chk: bv32)
    ensures ShiftRight(chk, 0) == chk && ShiftRight(chk, 5) == chk >> 5 && ShiftRight(chk, 10) == chk >> 10
    ensures ShiftRight(chk, 15) == chk >> 15 && ShiftRight(chk, 20) == chk >> 20 && ShiftRight(chk, 25) == chk >> 25
  {
  }

  /** bech32_encode; the buffer has room for the text and its terminator. */
  method Bech32Encode(output: array<char>, hrp: string, data: seq<u8>, enc: Encoding) returns (ok: bool)
    requires |hrp| + |data| + 8 <= output.Length
    modifies output
    ensures ok <==> Encodable(hrp, data)
    ensures ok ==> output[..|hrp| + 7 + |data|] == Encoded(hrp, data, enc) && output[|hrp| + 7 + |data|] == '\0'
  {
    hide Step, Mix, Polymod, Symbols, Groups, ChecksumWord, Highs, Lows, GoodHrp;
    var chk;
    ok, chk := CheckHrp(hrp);
    if !ok {
      return;
    }
    if |hrp| + 7 + |data| > 90 {
      return false;
    }
    PolymodAppend(1, Highs(hrp), 0);
    PlainStep(chk);
    chk := Step(chk);
    chk := CopyHrp(output, hrp, chk, Highs(hrp) + [0]);
    var at := |hrp|;
    output[at] := '1';
    ok, chk := WriteData(output, at + 1, data, chk, Expand(hrp));
    if !ok {
      return;
    }
    ghost var written := output[..at + 1 + |data|];
    WriteChecksum(output, at + 1 + |data|, chk, enc, Expand(hrp) + data);
    assert written == hrp + "1" + Symbols(data);
    SymbolsOfBoth(data, Groups(ChecksumWord(Expand(hrp) + data, enc), 6));
    assert output[..at + 7 + |data|] == written + output[at + 1 + |data|..at + 7 + |data|];
  }

  lemma SymbolsOfBoth(s: seq<Five>, t: seq<Five>)
    ensures Symbols(s + t) == Symbols(s) + Symbols(t)
  {
  }

  // ---- bech32_decode ----

  predicate SomeLower(s: string) {
    exists i :: 0 <= i < |s| && IsLower(s[i])
  }

  predicate SomeUpper(s: string) {
    exists i :: 0 <= i < |s| && IsUpper(s[i])
  }

  lemma OneMoreCharacter(s: string, c: char)
    ensures SomeLower(s + [c]) <==> SomeLower(s) || IsLower(c)
    ensures SomeUpper(s + [c]) <==> SomeUpper(s) || IsUpper(c)
  {
    assert (s + [c])[|s|] == c;
    assert forall i :: 0 <= i < |s| ==> (s + [c])[i] == s[i];
  }

  lemma LowBitsOfCase(c: char)
    ensures Low(Lower(c)) == Low(c)
  {
  }

  method CountAfterSeparator(input: string) returns (n: nat)
    ensures n == AfterSeparator(input)
  {
    n := 0;
    assert input[..|input|] == input;
    while n < |input| && input[|input| - 1 - n] != '1'
      invariant n <= |input| && AfterSeparator(input) == n + AfterSeparator(input[..|input| - n])
    {
      assert input[..|input| - n][..|input| - n - 1] == input[..|input| - n - 1];
      n := n + 1;
    }
  }

  /** Checks and lowers the human-readable part, and takes its high bits into the checksum. */
  method ReadHrp(hrp: array<char>, text: string) returns (ok: bool, chk: bv32, haveLower: bool, haveUpper: bool)
    requires |text| < hrp.Length
    modifies hrp
    ensures ok <==> AllPrintable(text)
    ensures ok ==> hrp[..|text|] == Lowered(text) && hrp[|text|] == '\0' && chk == Polymod(1, Highs(Lowered(text)))
    ensures ok ==> haveLower == SomeLower(text) && haveUpper == SomeUpper(text)
  {
    hide Mix, Polymod, Lower, High, SomeLower, SomeUpper;
    chk, haveLower, haveUpper := 1, false, false;
    NoHighs();
    NoCharacters();
    assert Lowered("") == "";
    for i := 0 to |text|
      invariant hrp[..i] == Lowered(text[..i]) && chk == Polymod(1, Highs(Lowered(text[..i]))) && AllPrintable(text[..i])
      invariant haveLower == SomeLower(text[..i]) && haveUpper == SomeUpper(text[..i])
    {
      var ch := text[i];
      assert text[..i + 1] == text[..i] + [ch];
      if ch as int < 33 || ch as int > 126 {
        return false, chk, haveLower, haveUpper;
      }
      OneMoreCharacter(text[..i], ch);
      if 'a' <= ch <= 'z' {
        haveLower := true;
      } else if 'A' <= ch <= 'Z' {
        haveUpper := true;
      }
      PolymodAppend(1, Highs(Lowered(text[..i])), High(Lower(ch)));
      assert Highs(Lowered(text[..i + 1])) == Highs(Lowered(text[..i])) + [High(Lower(ch))];
      hrp[i] := Lower(ch);
      chk := Mix(chk, High(Lower(ch)));
    }
    assert text[..|text|] == text;
    hrp[|text|] := '\0';
    ok := true;
  }

  lemma NoCharacters()
    ensures !SomeLower("") && !SomeUpper("")
  {
  }

  /** The low bits of the human-readable part, which do not depend on its case. */
  method ReadLowBits(text: string, chk0: bv32, ghost before: seq<Five>) returns (chk: bv32)
    requires chk0 == Polymod(1, before)
    ensures chk == Polymod(1, before + Lows(Lowered(text)))
  {
    hide Mix, Polymod, Lower, Low;
    chk := chk0;
    assert before + Lows(Lowered("")) == before;
    for i := 0 to |text|
      invariant chk == Polymod(1, before + Lows(Lowered(text[..i])))
    {
      PolymodAppend(1, before + Lows(Lowered(text[..i])), Low(Lower(text[i])));
      assert before + Lows(Lowered(text[..i + 1])) == before + Lows(Lowered(text[..i])) + [Low(Lower(text[i]))];
      LowBitsOfCase(text[i]);
      chk := Mix(chk, Low(text[i]));
    }
    assert text[..|text|] == text;
  }

  /** The symbols after the separator; the last six are not part of the data. */
  method ReadSymbols(data: array<u8>, text: string, chk0: bv32, lower0: bool, upper0: bool, ghost before: seq<Five>)
      returns (ok: bool, chk: bv32, haveLower: bool, haveUpper: bool)
    requires 6 <= |text| && |text| - 6 <= data.Length && chk0 == Polymod(1, before)
    modifies data
    ensures ok <==> AllSymbols(text)
    ensures ok ==> data[..|text| - 6] == ValuesOf(text)[..|text| - 6] && chk == Polymod(1, before + ValuesOf(text))
    ensures ok ==> haveLower == (lower0 || SomeLower(text)) && haveUpper == (upper0 || SomeUpper(text))
  {
    hide Mix, Polymod, CharsetRev, SomeLower, SomeUpper;
    chk, haveLower, haveUpper := chk0, lower0, upper0;
    NoCharacters();
    assert before + ValuesOf("") == before;
    for i := 0 to |text|
      invariant AllSymbols(text[..i]) && chk == Polymod(1, before + ValuesOf(text[..i]))
      invariant forall k :: 0 <= k < i && k < |text| - 6 ==> data[k] == ValuesOf(text[..i])[k]
      invariant haveLower == (lower0 || SomeLower(text[..i])) && haveUpper == (upper0 || SomeUpper(text[..i]))
    {
      var v := CharsetRev(text[i]);
      assert text[..i + 1] == text[..i] + [text[i]];
      OneMoreCharacter(text[..i], text[i]);
      if 'a' <= text[i] <= 'z' {
        haveLower := true;
      }
      if 'A' <= text[i] <= 'Z' {
        haveUpper := true;
      }
      if v.None? {
        assert !AllSymbols(text);
        return false, chk, haveLower, haveUpper;
      }
      PolymodAppend(1, before + ValuesOf(text[..i]), v.value);
      assert before + ValuesOf(text[..i + 1]) == before + ValuesOf(text[..i]) + [v.value];
      chk := Mix(chk, v.value);
      if i + 6 < |text| {
        data[i] := v.value;
      }
    }
    assert text[..|text|] == text;
    ok := true;
  }

  lemma MixedCaseOfBoth(s: string, t: string)
    ensures MixedCase(s + t) <==> (SomeLower(s) || SomeLower(t)) && (SomeUpper(s) || SomeUpper(t))
  {
    assert forall i :: 0 <= i < |s| ==> (s + t)[i] == s[i];
    assert forall i :: 0 <= i < |t| ==> (s + t)[|s| + i] == t[i];
  }

  /** bech32_decode. */
  method Bech32Decode(hrp: array<char>, data: array<u8>, input: string) returns (enc: Encoding, dataLen: nat)
    requires 84 <= hrp.Length && 84 <= data.Length
    modifies hrp, data
    ensures enc == NoEncoding <==> Decoded(input).None?
    ensures enc != NoEncoding ==>
      var d := Decoded(input).value;
      && enc == d.enc && |d.hrp| < 84 && hrp[..|d.hrp|] == d.hrp && hrp[|d.hrp|] == '\0'
      && dataLen == |d.data| <= 84 && data[..dataLen] == d.data
  {
    hide Step, Mix, Polymod, Lowered, Highs, Lows, SomeLower, SomeUpper, MixedCase, EncodingOf, CharsetRev;
    var inputLen := |input|;
    if inputLen < 8 || inputLen > 90 {
      return NoEncoding, 0;
    }
    dataLen := CountAfterSeparator(input);
    if 1 + dataLen >= inputLen || dataLen < 6 {
      return NoEncoding, dataLen;
    }
    var hrpLen := inputLen - (1 + dataLen);
    ghost var symbols := SymbolsOf(input);
    dataLen := dataLen - 6;
    var ok, chk, haveLower, haveUpper := ReadHrp(hrp, input[..hrpLen]);
    if !ok {
      return NoEncoding, dataLen;
    }
    PolymodAppend(1, Highs(Lowered(input[..hrpLen])), 0);
    PlainStep(chk);
    chk := Step(chk);
    chk := ReadLowBits(input[..hrpLen], chk, Highs(Lowered(input[..hrpLen])) + [0]);
    ok, chk, haveLower, haveUpper :=
      ReadSymbols(data, input[hrpLen + 1..], chk, haveLower, haveUpper, Expand(Lowered(input[..hrpLen])));
    if !ok {
      return NoEncoding, dataLen;
    }
    MixedCaseOfBoth(HrpOf(input), symbols);
    if haveLower && haveUpper {
      return NoEncoding, dataLen;
    }
    enc := EncodingOf(chk);
  }
}
