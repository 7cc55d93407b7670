/** The program the DeviceTree probe generates: it copies the tree's header and one 16-byte
    value to an output page, adds a marker and halts. Here it is generated, and run on the
    machine of `A64` wherever its code, source and output lie. */
module DtProgram {
  import opened Uefi
  import opened Bits
  import opened Bytes
  import opened A64

  const MARKER: imm16 := 0xabcd

  lemma MarkerBytes()
    ensures ToLe(MARKER, 4) == [0xcd, 0xab, 0, 0]
  {
    assert ToLe(MARKER, 4) == [0xcd] + ToLe(0xab, 3);
    assert ToLe(0xab, 3) == [0xab] + ToLe(0, 2);
    assert ToLe(0, 2) == [0] + ToLe(0, 1);
  }

  // The value offsets the generator takes.
  predicate Accepts(valueOffset: nat) {
    valueOffset % 4 == 0 && valueOffset + 12 <= 16380
  }

  // The tree offset the i-th output word is copied from.
  function Source(valueOffset: nat, i: nat): nat {
    if i < 2 then 4 * i else valueOffset + 4 * (i - 2)
  }

  // X0 is the tree, X1 the output.
  function Instruction(valueOffset: nat, k: nat): (i: Instr)
    requires Accepts(valueOffset) && k < 16
    ensures i != Unmodelled
  {
    if k == 0 then AddImm(3, 3, 0)
    else if k < 13 then
      var out := (k - 1) / 2;
      if k % 2 == 1 then Ldr32(2, 0, Source(valueOffset, out) / 4) else Str32(2, 1, out)
    else if k == 13 then Movz32(2, MARKER)
    else if k == 14 then Str32(2, 1, 6)
    else Hlt(0)
  }

  function ProgramWords(valueOffset: nat): (words: seq<nat>)
    requires Accepts(valueOffset)
    ensures |words| == 16
    ensures forall k :: 0 <= k < 16 ==> words[k] == Encoding(Instruction(valueOffset, k))
  {
    seq(16, k requires 0 <= k < 16 => Encoding(Instruction(valueOffset, k)))
  }

  // ----- the generators

  // Or-ing a value into a field that is zero adds it.
  lemma OrIntoField(base: nat, top: nat, low: nat, field: nat, bits: nat, shift: nat)
    requires low < Pow2(shift) && field < Pow2(bits)
    requires base == top * Pow2(bits) * Pow2(shift) + low
    ensures Or(base, field * Pow2(shift)) == base + field * Pow2(shift)
  {
    hide Bits.Or, Bits.Join, Bits.Pow2;
    JoinIsSum(top, 0, bits);
    JoinIsSum(top * Pow2(bits), low, shift);
    JoinIsSum(field, 0, shift);
    OrJoin(Join(top, 0, bits), low, field, 0, shift);
    JoinZero(field, bits);
    OrJoin(top, 0, 0, field, bits);
    OrZero(low);
    OrZero(field);
    OrZero(top);
    JoinIsSum(top, field, bits);
    JoinIsSum(top * Pow2(bits) + field, low, shift);
    Distribute(top * Pow2(bits), field, Pow2(shift));
  }

  lemma Distribute(a: nat, b: nat, c: nat)
    ensures (a + b) * c == a * c + b * c
  {
  }

  lemma FieldWidths()
    ensures Pow2(5) == 32 && Pow2(10) == 1024 && Pow2(12) == 4096 && Pow2(16) == 65536
  {
    Pow2Values();
    Pow2Four(12);
    Pow2Four(1);
  }

  // The words the two generators or together are the instructions' encodings.
  lemma GeneratedWords(imm: imm12)
    ensures Or(0xb940_0002, imm * 1024) == Encoding(Ldr32(2, 0, imm))
    ensures Or(0xb900_0022, imm * 1024) == Encoding(Str32(2, 1, imm))
    ensures Or(0x5280_0002, MARKER * 32) == Encoding(Movz32(2, MARKER))
  {
    hide Bits.Or, Bits.Pow2;
    FieldWidths();
    OrIntoField(0xb940_0002, 0x2e5, 2, imm, 12, 10);
    OrIntoField(0xb900_0022, 0x2e4, 0x22, imm, 12, 10);
    OrIntoField(0x5280_0002, 0x294, 2, MARKER, 16, 5);
  }

  // Pair by pair, then the three words at the end.
  lemma PairWords(valueOffset: nat, out: nat)
    requires Accepts(valueOffset) && out < 6
    ensures var words := ProgramWords(valueOffset);
      words[..3 + 2 * out]
      == words[..1 + 2 * out] + [Encoding(Ldr32(2, 0, Source(valueOffset, out) / 4)), Encoding(Str32(2, 1, out))]
  {
    hide A64.Encoding;
    var words := ProgramWords(valueOffset);
    assert words[1 + 2 * out] == Encoding(Instruction(valueOffset, 1 + 2 * out));
    assert words[2 + 2 * out] == Encoding(Instruction(valueOffset, 2 + 2 * out));
  }

  lemma LastWords(valueOffset: nat)
    requires Accepts(valueOffset)
    ensures var words := ProgramWords(valueOffset);
      && words[..1] == [0x9100_0063]
      && words == words[..13] + [Encoding(Movz32(2, MARKER)), Encoding(Str32(2, 1, 6)), 0xd440_0000]
  {
    assert Encoding(Instruction(valueOffset, 0)) == 0x9100_0063;
    assert Encoding(Instruction(valueOffset, 15)) == 0xd440_0000;
  }

  // Shifts left are multiplications: no field is shifted out of its 32-bit word.
  method Instructions(valueOffset: nat) returns (r: Result<seq<nat>, Status>)
    ensures r == if Accepts(valueOffset) then Ok(ProgramWords(valueOffset)) else Err(CompromisedData)
  {
    hide Bits.Or, A64.Encoding, ProgramWords, Source;
    if !(valueOffset % 4 == 0 && valueOffset + 12 <= 16380) {
      return Err(CompromisedData);
    }
    LastWords(valueOffset);
    SourceList(valueOffset);
    var words := [0x9100_0063];
    var offsets := [0, 4, valueOffset, valueOffset + 4, valueOffset + 8, valueOffset + 12];
    for out := 0 to |offsets|
      invariant words == ProgramWords(valueOffset)[..1 + 2 * out]
    {
      PairWords(valueOffset, out);
      GeneratedWords(offsets[out] / 4);
      GeneratedWords(out);
      words := words + [Or(0xb940_0002, offsets[out] / 4 * 1024)];
      words := words + [Or(0xb900_0022, out * 1024)];
    }
    GeneratedWords(6);
    words := words + [Or(0x5280_0002, MARKER * 32), Or(0xb900_0022, 6 * 1024), 0xd440_0000];
    r := Ok(words);
  }

  function Pack(words: seq<nat>): (b: seq<byte>)
    ensures |b| == 4 * |words|
  {
    if |words| == 0 then [] else Pack(words[..|words| - 1]) + ToLe(words[|words| - 1], 4)
  }

  lemma {:induction false} PackAt(words: seq<nat>, k: nat)
    requires k < |words|
    ensures Pack(words)[4 * k..4 * k + 4] == ToLe(words[k], 4)
  {
    hide Bytes.ToLe;
    var n := |words| - 1;
    assert Pack(words) == Pack(words[..n]) + ToLe(words[n], 4);
    if k == n {
      assert Pack(words)[4 * n..4 * n + 4] == ToLe(words[n], 4);
    } else {
      PackAt(words[..n], k);
      assert Pack(words)[4 * k..4 * k + 4] == Pack(words[..n])[4 * k..4 * k + 4];
    }
  }

  // The checker's own generator, which has no guard but packs into 32-bit words.
  method CheckerProgram(offset: nat) returns (r: Option<seq<byte>>)
    ensures Accepts(offset) ==> r == Some(Pack(ProgramWords(offset)))
  {
    hide Bits.Or, A64.Encoding, Pack, Source, ProgramWords;
    SourceList(offset);
    if Accepts(offset) {
      LastWords(offset);
    }
    var words := [0x9100_0063];
    var values := [0, 4, offset, offset + 4, offset + 8, offset + 12];
    for out := 0 to |values|
      invariant Accepts(offset) ==> words == ProgramWords(offset)[..1 + 2 * out]
    {
      if Accepts(offset) {
        PairWords(offset, out);
        GeneratedWords(values[out] / 4);
        GeneratedWords(out);
      }
      words := words + [Or(0xb940_0002, values[out] / 4 * 1024), Or(0xb900_0022, out * 1024)];
    }
    GeneratedWords(6);
    words := words + [Or(0x5280_0002, MARKER * 32), Or(0xb900_0022, 6 * 1024), 0xd440_0000];
    if exists k :: 0 <= k < |words| && words[k] >= WORD {
      ProgramFits(offset);
      return None;
    }
    r := Some(Pack(words));
  }

  lemma SourceList(offset: nat)
    ensures [Source(offset, 0), Source(offset, 1), Source(offset, 2)] == [0, 4, offset]
    ensures [Source(offset, 3), Source(offset, 4), Source(offset, 5)] == [offset + 4, offset + 8, offset + 12]
  {
  }

  lemma ProgramFits(offset: nat)
    ensures Accepts(offset) ==> forall k :: 0 <= k < 16 ==> ProgramWords(offset)[k] < WORD
  {
    if Accepts(offset) {
      forall k | 0 <= k < 16 ensures ProgramWords(offset)[k] < WORD {
        DecodeEncoding(Instruction(offset, k));
      }
    }
  }
}
