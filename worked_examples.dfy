/**
 * Two tracks decoded by hand: the hex dump, its bits, the frames and the
 * characters and parity flags the decoder returns for them.
 */
module ConvertExamples {
  import opened Results
  import opened Hex
  import opened Convert

  /** One hex digit in front of a decoded rest contributes its four bits in front. */
  lemma HexToBinCons(hex: string, tail: string, nibble: string, rest: string, bits: string)
    requires hex != [] && IsHexDigit(hex[0]) && hex[1..] == tail
    requires Nibble(HexDigitValue(hex[0])) == nibble && HexToBin(tail) == Ok(rest)
    requires bits == nibble + rest
    ensures HexToBin(hex) == Ok(bits)
  {
  }

  /** `'{:04b}'` of the digits used below. */
  lemma NibbleTable()
    ensures Nibble(0) == "0000" && Nibble(1) == "0001" && Nibble(2) == "0010"
    ensures Nibble(4) == "0100" && Nibble(8) == "1000"
  {
  }

  /** "4142" expands to 16 bits. */
  lemma WorkedExampleLowBits()
    ensures HexToBin("4142") == Ok("0100000101000010")
  {
    NibbleTable();
    HexToBinCons("2", "", "0010", "", "0010");
    HexToBinCons("42", "2", "0100", "0010", "01000010");
    HexToBinCons("142", "42", "0001", "01000010", "000101000010");
    HexToBinCons("4142", "142", "0100", "000101000010", "0100000101000010");
  }

  /** "004142" expands to 24 bits. */
  lemma WorkedExampleBits()
    ensures HexToBin("004142") == Ok("000000000100000101000010")
  {
    NibbleTable();
    WorkedExampleLowBits();
    HexToBinCons("04142", "4142", "0000", "0100000101000010", "00000100000101000010");
    HexToBinCons("004142", "04142", "0000", "00000100000101000010", "000000000100000101000010");
  }

  /** The three frames of the worked example, character by character. */
  lemma WorkedExampleFrames(bits: string)
    requires bits == "000000000100000101000010"
    ensures FrameCount(Sixdec, bits) == 3
    ensures FrameAt(Sixdec, bits, 0) == "0000000" && FrameAt(Sixdec, bits, 1) == "0010000"
    ensures FrameAt(Sixdec, bits, 2) == "0101000"
  {
  }

  /** The data bits 000000: 0 '1' bit(s), value 0 read least significant first. */
  lemma Data000000()
    ensures IsBinary("000000") && LsbFirstValue("000000") == 0 && CountOnes("000000") == 0
  {
  }

  /** Frame 0: data bits 000000, index 0, ' '; no '1' bits and parity 0, so it is flagged. */
  lemma SpaceFrame(frame: string)
    requires frame == "0000000"
    ensures FrameSymbol(Sixdec, frame) == Some(Symbol(' ', true))
  {
    assert DataBits(Sixdec, frame) == "000000";
    Data000000();
    assert SixdecChars[0] == ' ';
  }

  /** The data bits 001000: 1 '1' bit(s), value 4 read least significant first. */
  lemma Data001000()
    ensures IsBinary("001000") && LsbFirstValue("001000") == 4 && CountOnes("001000") == 1
  {
  }

  /** Frame 1: data bits 001000, index 4, '$'; one '1' bit and parity 0, so it passes. */
  lemma DollarFrame(frame: string)
    requires frame == "0010000"
    ensures FrameSymbol(Sixdec, frame) == Some(Symbol('$', false))
  {
    assert DataBits(Sixdec, frame) == "001000";
    Data001000();
    assert SixdecChars[4] == '$';
  }

  /** The data bits 010100: 2 '1' bit(s), value 10 read least significant first. */
  lemma Data010100()
    ensures IsBinary("010100") && LsbFirstValue("010100") == 10 && CountOnes("010100") == 2
  {
  }

  /** Frame 2: data bits 010100, index 10, '*'; two '1' bits and parity 0, so it is flagged. */
  lemma StarFrame(frame: string)
    requires frame == "0101000"
    ensures FrameSymbol(Sixdec, frame) == Some(Symbol('*', true))
  {
    assert DataBits(Sixdec, frame) == "010100";
    Data010100();
    assert SixdecChars[10] == '*';
  }

  /** The results of the worked example's three frames. */
  lemma WorkedExampleSymbols(bits: string)
    requires bits == "000000000100000101000010"
    ensures FrameSymbols(Sixdec, bits) == [Some(Symbol(' ', true)), Some(Symbol('$', false)), Some(Symbol('*', true))]
  {
    WorkedExampleFrames(bits);
    SpaceFrame(FrameAt(Sixdec, bits, 0));
    DollarFrame(FrameAt(Sixdec, bits, 1));
    StarFrame(FrameAt(Sixdec, bits, 2));
  }

  /** The loop over those three results. */
  lemma WorkedExampleCollect()
    ensures Collect([Some(Symbol(' ', true)), Some(Symbol('$', false)), Some(Symbol('*', true))]) ==
      Ok(Decoded(" $*", [true, false, true]))
  {
    var s0, s1, s2 := Some(Symbol(' ', true)), Some(Symbol('$', false)), Some(Symbol('*', true));
    CollectSnoc([], s0.value);
    assert [] + [s0] == [s0] && "" + [' '] == " " && [] + [true] == [true];
    CollectSnoc([s0], s1.value);
    assert [s0] + [s1] == [s0, s1] && " " + ['$'] == " $" && [true] + [false] == [true, false];
    CollectSnoc([s0, s1], s2.value);
    assert [s0, s1] + [s2] == [s0, s1, s2] && " $" + ['*'] == " $*";
    assert [true, false] + [true] == [true, false, true];
  }

  /**
   * The worked example: "004142" is 000000000100000101000010, three 7-bit
   * frames (indices 0, 4, 10: ' ', '$', '*') and three bits left over;
   * frames 0 and 2 fail the parity check and '*' is dropped.
   */
  lemma WorkedExample(bits: string)
    requires bits == "000000000100000101000010"
    ensures DecodeSpec(Sixdec, bits) == Ok(Decoded(" $", [true, false, true]))
  {
    WorkedExampleSymbols(bits);
    WorkedExampleCollect();
    assert DropLast(" $*") == " $";
  }

  /** "0804" expands to 16 bits. */
  lemma DigitZeroBits()
    ensures HexToBin("0804") == Ok("0000100000000100")
  {
    NibbleTable();
    HexToBinCons("4", "", "0100", "", "0100");
    HexToBinCons("04", "4", "0000", "0100", "00000100");
    HexToBinCons("804", "04", "1000", "00000100", "100000000100");
    HexToBinCons("0804", "804", "0000", "100000000100", "0000100000000100");
  }

  /** The two frames of the '0' example. */
  lemma DigitZeroFrames(bits: string)
    requires bits == "0000100000000100"
    ensures FrameCount(Sixdec, bits) == 2
    ensures FrameAt(Sixdec, bits, 0) == "0000100" && FrameAt(Sixdec, bits, 1) == "0000001"
  {
  }

  /** The data bits 000010: 1 '1' bit(s), value 16 read least significant first. */
  lemma Data000010()
    ensures IsBinary("000010") && LsbFirstValue("000010") == 16 && CountOnes("000010") == 1
  {
  }

  /** Data bits 000010, index 16, '0'; one '1' bit and parity 0, so it passes. */
  lemma ZeroFrame(frame: string)
    requires frame == "0000100"
    ensures FrameSymbol(Sixdec, frame) == Some(Symbol('0', false))
  {
    assert DataBits(Sixdec, frame) == "000010";
    Data000010();
    assert SixdecChars[16] == '0';
  }

  /** Data bits 000000, index 0, ' '; no '1' bits and parity 1, so it passes. */
  lemma OddSpaceFrame(frame: string)
    requires frame == "0000001"
    ensures FrameSymbol(Sixdec, frame) == Some(Symbol(' ', false))
  {
    assert DataBits(Sixdec, frame) == "000000";
    Data000000();
    assert SixdecChars[0] == ' ';
  }

  /** The results of the '0' example's two frames. */
  lemma DigitZeroSymbols(bits: string)
    requires bits == "0000100000000100"
    ensures FrameSymbols(Sixdec, bits) == [Some(Symbol('0', false)), Some(Symbol(' ', false))]
  {
    DigitZeroFrames(bits);
    ZeroFrame(FrameAt(Sixdec, bits, 0));
    OddSpaceFrame(FrameAt(Sixdec, bits, 1));
  }

  /** The loop over those two results. */
  lemma DigitZeroCollect()
    ensures Collect([Some(Symbol('0', false)), Some(Symbol(' ', false))]) == Ok(Decoded("0 ", [false, false]))
  {
    var s0, s1 := Some(Symbol('0', false)), Some(Symbol(' ', false));
    CollectSnoc([], s0.value);
    assert [] + [s0] == [s0] && "" + ['0'] == "0" && [] + [false] == [false];
    CollectSnoc([s0], s1.value);
    assert [s0] + [s1] == [s0, s1] && "0" + [' '] == "0 " && [false] + [false] == [false, false];
  }

  /**
   * A correctly framed '0' followed by a correctly framed space decodes to
   * "0" without warnings: the space is the dropped last character.
   */
  lemma DecodesDigitZero(bits: string)
    requires bits == "0000100000000100"
    ensures DecodeSpec(Sixdec, bits) == Ok(Decoded("0", [false, false]))
  {
    DigitZeroSymbols(bits);
    DigitZeroCollect();
    assert DropLast("0 ") == "0";
  }
}
