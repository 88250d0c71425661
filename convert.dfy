/**
 * The magnetic-stripe track decoder of hidmsr/convert.py.
 *
 * A track arrives as a hex dump. `HexToBin` expands it into a string of
 * '0'/'1' characters, four per hex digit, most significant bit first. A
 * decoder cuts that string into frames of data bits followed by one parity
 * bit (SIXDEC: 6 + 1 for tracks 1 and 3; ABA: 4 + 1 for track 2), reads the
 * data bits in reverse as an unsigned integer, looks that integer up in the
 * scheme's alphabet, flags frames whose parity is not odd, and finally
 * drops the last decoded character.
 */
module Convert {
  import opened Results
  import opened Hex

  /** SIXDEC_CHARS: the 64-character alphabet of tracks 1 and 3, written in rows of 16. */
  const SixdecChars: string :=
    " !\"#$%&'()*+,-./" + "0123456789:;<=>?" + "@ABCDEFGHIJKLMNO" + "PQRSTUVWXYZ[\\]^_"

  /** ABA_CHARS: the 16-character alphabet of track 2. */
  const AbaChars: string := "0123456789:;<=>?"

  /** The two framings the decoder knows. */
  datatype Scheme = Sixdec | Aba

  function DataWidth(scheme: Scheme): nat {
    match scheme
    case Sixdec => 6
    case Aba => 4
  }

  /** Data bits plus the one parity bit. */
  function FrameWidth(scheme: Scheme): nat {
    DataWidth(scheme) + 1
  }

  function Alphabet(scheme: Scheme): string {
    match scheme
    case Sixdec => SixdecChars
    case Aba => AbaChars
  }

  function Pow2(n: nat): (p: nat)
    ensures p >= 1
  {
    if n == 0 then 1 else 2 * Pow2(n - 1)
  }

  /** Each alphabet has exactly one character per value of the data bits. */
  lemma AlphabetSize(scheme: Scheme)
    ensures |Alphabet(scheme)| == Pow2(DataWidth(scheme))
  {
    assert Pow2(4) == 16;
    assert Pow2(6) == 64;
  }

  /** SIXDEC_CHARS is ASCII 0x20..0x5F in order. */
  lemma SixdecIsAsciiRun()
    ensures |SixdecChars| == 64
    ensures forall i :: 0 <= i < 64 ==> SixdecChars[i] as int == 0x20 + i
  {
    var r0, r1, r2, r3 := " !\"#$%&'()*+,-./", "0123456789:;<=>?", "@ABCDEFGHIJKLMNO", "PQRSTUVWXYZ[\\]^_";
    assert SixdecChars == r0 + r1 + r2 + r3;
    assert forall i :: 0 <= i < 16 ==> r0[i] as int == 0x20 + i;
    assert forall i :: 0 <= i < 16 ==> r1[i] as int == 0x30 + i;
    assert forall i :: 0 <= i < 16 ==> r2[i] as int == 0x40 + i;
    assert forall i :: 0 <= i < 16 ==> r3[i] as int == 0x50 + i;
  }

  /** ABA_CHARS is '0'..'?' in order. */
  lemma AbaIsAsciiRun()
    ensures |AbaChars| == 16
    ensures forall i :: 0 <= i < 16 ==> AbaChars[i] as int == '0' as int + i
  {
  }

  // ---------------------------------------------------------------------
  // Bit strings
  // ---------------------------------------------------------------------

  predicate IsBit(c: char) {
    c == '0' || c == '1'
  }

  predicate IsBinary(s: string) {
    forall i :: 0 <= i < |s| ==> IsBit(s[i])
  }

  function BitValue(c: char): nat {
    if c == '1' then 1 else 0
  }

  function BitChar(b: nat): char
    requires b < 2
  {
    if b == 1 then '1' else '0'
  }

  /** `int(s, 2)`: the unsigned integer whose binary digits, most significant first, are `s`. */
  function BinaryValue(s: string): (v: nat)
    requires IsBinary(s)
    ensures v < Pow2(|s|)
  {
    if s == [] then 0 else 2 * BinaryValue(s[..|s| - 1]) + BitValue(s[|s| - 1])
  }

  /** `s[::-1]` */
  function Reversed(s: string): string {
    seq(|s|, i requires 0 <= i < |s| => s[|s| - 1 - i])
  }

  /** The unsigned integer whose binary digits, least significant first, are `s`. */
  function LsbFirstValue(s: string): (v: nat)
    requires IsBinary(s)
    ensures v < Pow2(|s|)
  {
    if s == [] then 0 else BitValue(s[0]) + 2 * LsbFirstValue(s[1..])
  }

  /** `int(s[::-1], 2)` reads the bits of `s` least significant first. */
  lemma {:induction false} ReversedValue(s: string)
    requires IsBinary(s)
    ensures IsBinary(Reversed(s)) && BinaryValue(Reversed(s)) == LsbFirstValue(s)
  {
    if s != [] {
      ReversedValue(s[1..]);
      var r := Reversed(s);
      assert r[..|r| - 1] == Reversed(s[1..]);
    }
  }

  /** `sum(map(lambda x: 1 if x == '1' else 0, s))`: the number of '1' characters. */
  function CountOnes(s: string): nat {
    if s == [] then 0 else BitValue(s[0]) + CountOnes(s[1..])
  }

  // ---------------------------------------------------------------------
  // hex_to_bin
  // ---------------------------------------------------------------------

  /** The value of four binary digits, most significant first. */
  lemma FourBitValue(q: string)
    requires |q| == 4 && IsBinary(q)
    ensures BinaryValue(q) == 8 * BitValue(q[0]) + 4 * BitValue(q[1]) + 2 * BitValue(q[2]) + BitValue(q[3])
  {
    assert q[..3][..2] == q[..2];
    assert q[..2][..1] == q[..1];
    assert q[..1][..0] == [];
    assert BinaryValue(q[..1]) == BitValue(q[0]);
    assert BinaryValue(q[..2]) == 2 * BitValue(q[0]) + BitValue(q[1]);
    assert BinaryValue(q[..3]) == 4 * BitValue(q[0]) + 2 * BitValue(q[1]) + BitValue(q[2]);
  }

  /** `'{:04b}'.format(v)`: four binary digits, most significant first. */
  function Nibble(v: nat): (s: string)
    requires v < 16
    ensures |s| == 4 && IsBinary(s)
  {
    [BitChar(v / 8), BitChar(v / 4 % 2), BitChar(v / 2 % 2), BitChar(v % 2)]
  }

  /** `'{:04b}'` writes v in binary: the four digits read back as v. */
  lemma NibbleValue(v: nat)
    requires v < 16
    ensures BinaryValue(Nibble(v)) == v
  {
    FourBitValue(Nibble(v));
  }

  /** `int(ch, 16)` raises ValueError on the first character that is not a hex digit. */
  datatype HexError = NotHexDigit(position: nat)

  /**
   * hex_to_bin: each hex digit becomes its four bits, most significant
   * first; the output is a '0'/'1' string four times as long as the input,
   * and an error points at a character that is not a hex digit.
   */
  function HexToBin(hex: string): (r: Result<string, HexError>)
    ensures r.Ok? ==> |r.value| == 4 * |hex| && IsBinary(r.value)
    ensures r.Err? ==> r.error.position < |hex| && !IsHexDigit(hex[r.error.position])
    decreases |hex|
  {
    if hex == [] then Ok("")
    else if !IsHexDigit(hex[0]) then Err(NotHexDigit(0))
    else
      match HexToBin(hex[1..])
      case Ok(bits) => Ok(Nibble(HexDigitValue(hex[0])) + bits)
      case Err(NotHexDigit(p)) => Err(NotHexDigit(p + 1))
  }

  /** hex_to_bin fails exactly on a non-hex character, and reports the first one. */
  lemma {:induction false} HexToBinFails(hex: string)
    ensures HexToBin(hex).Ok? <==> AllHexDigits(hex)
    ensures HexToBin(hex).Err? ==>
      var p := HexToBin(hex).error.position;
      p < |hex| && !IsHexDigit(hex[p]) && AllHexDigits(hex[..p])
  {
    if hex != [] && IsHexDigit(hex[0]) {
      HexToBinFails(hex[1..]);
      if HexToBin(hex).Err? {
        var p := HexToBin(hex[1..]).error.position;
        assert hex[..p + 1] == [hex[0]] + hex[1..][..p];
      } else {
        assert forall i :: 1 <= i < |hex| ==> hex[i] == hex[1..][i - 1];
      }
    }
  }

  /** Bits 4i..4i+3 of hex_to_bin's output are digit i's value in binary, most significant first. */
  lemma {:induction false} HexToBinLayout(hex: string)
    requires AllHexDigits(hex)
    ensures HexToBin(hex).Ok?
    ensures |HexToBin(hex).value| == 4 * |hex|
    ensures IsBinary(HexToBin(hex).value)
    ensures forall i :: 0 <= i < |hex| ==>
      HexToBin(hex).value[4 * i .. 4 * i + 4] == Nibble(HexDigitValue(hex[i]))
  {
    if hex != [] {
      HexToBinLayout(hex[1..]);
      var rest := HexToBin(hex[1..]).value;
      var bits := HexToBin(hex).value;
      var head := Nibble(HexDigitValue(hex[0]));
      assert bits == head + rest;
      forall i | 0 <= i < |hex|
        ensures bits[4 * i .. 4 * i + 4] == Nibble(HexDigitValue(hex[i]))
      {
        if i > 0 {
          assert hex[i] == hex[1..][i - 1];
          assert bits[4 * i .. 4 * i + 4] == rest[4 * (i - 1) .. 4 * (i - 1) + 4];
        }
      }
    }
  }

  /** The inverse of hex_to_bin: every four bits become one (upper-case) hex digit. */
  function BinToHex(bits: string): (hex: string)
    requires IsBinary(bits) && |bits| % 4 == 0
    ensures |hex| == |bits| / 4 && AllHexDigits(hex)
  {
    if bits == [] then ""
    else [UpperHexDigit(BinaryValue(bits[..4]))] + BinToHex(bits[4..])
  }

  /** A bit character is written back from its value unchanged. */
  lemma BitCharOfValue(c: char)
    requires IsBit(c)
    ensures BitChar(BitValue(c)) == c
  {
  }

  /** The four binary digits of 8*b0 + 4*b1 + 2*b2 + b3 are b0, b1, b2, b3. */
  lemma NibbleDigits(b0: nat, b1: nat, b2: nat, b3: nat)
    requires b0 < 2 && b1 < 2 && b2 < 2 && b3 < 2
    ensures var v := 8 * b0 + 4 * b1 + 2 * b2 + b3;
      v / 8 == b0 && v / 4 % 2 == b1 && v / 2 % 2 == b2 && v % 2 == b3
  {
  }

  /** Four bits survive the round trip through their value. */
  lemma NibbleOfValue(q: string)
    requires |q| == 4 && IsBinary(q)
    ensures Nibble(BinaryValue(q)) == q
  {
    FourBitValue(q);
    NibbleDigits(BitValue(q[0]), BitValue(q[1]), BitValue(q[2]), BitValue(q[3]));
    BitCharOfValue(q[0]);
    BitCharOfValue(q[1]);
    BitCharOfValue(q[2]);
    BitCharOfValue(q[3]);
  }

  /** hex_to_bin undoes BinToHex: any whole number of nibbles is reproduced exactly. */
  lemma {:induction false} HexToBinOfBinToHex(bits: string)
    requires IsBinary(bits) && |bits| % 4 == 0
    ensures HexToBin(BinToHex(bits)) == Ok(bits)
  {
    if bits != [] {
      var hex := BinToHex(bits);
      HexToBinOfBinToHex(bits[4..]);
      NibbleOfValue(bits[..4]);
      assert hex[1..] == BinToHex(bits[4..]);
      assert bits == bits[..4] + bits[4..];
    }
  }

  // ---------------------------------------------------------------------
  // Frames
  // ---------------------------------------------------------------------

  /** `len(bin_str) // 7` (or `// 5`): trailing bits that do not fill a frame are ignored. */
  function FrameCount(scheme: Scheme, bits: string): nat {
    match scheme
    case Sixdec => |bits| / 7
    case Aba => |bits| / 5
  }

  /** Where frame k starts: the loop variable `i` of `range(0, chars*7, 7)` (or `chars*5, 5`). */
  function FrameStart(scheme: Scheme, k: nat): nat {
    match scheme
    case Sixdec => 7 * k
    case Aba => 5 * k
  }

  /** Every counted frame lies inside the bit string. */
  lemma FrameBounds(scheme: Scheme, bits: string, k: nat)
    requires k < FrameCount(scheme, bits)
    ensures FrameStart(scheme, k) + FrameWidth(scheme) <= |bits|
  {
  }

  /** Frames are consecutive: frame j ends at or before frame k starts when j < k. */
  lemma FrameOrder(scheme: Scheme, j: nat, k: nat)
    requires j < k
    ensures FrameStart(scheme, j) + FrameWidth(scheme) <= FrameStart(scheme, k)
  {
  }

  /** `bin_str[i:i+7]` (or `i+5`): the k-th frame. */
  function FrameAt(scheme: Scheme, bits: string, k: nat): (frame: string)
    requires k < FrameCount(scheme, bits)
    ensures |frame| == FrameWidth(scheme)
  {
    FrameBounds(scheme, bits, k);
    bits[FrameStart(scheme, k) .. FrameStart(scheme, k) + FrameWidth(scheme)]
  }

  /** `substr[:6]`: the data bits of a frame. */
  function DataBits(scheme: Scheme, frame: string): string
    requires |frame| == FrameWidth(scheme)
  {
    frame[..DataWidth(scheme)]
  }

  /** `substr[-1]`: the parity bit of a frame. */
  function ParityBit(scheme: Scheme, frame: string): char
    requires |frame| == FrameWidth(scheme)
  {
    frame[DataWidth(scheme)]
  }

  /**
   * Whether the decoder warns about this frame: with an even number of '1'
   * data bits the parity bit must be '1', with an odd number it must be '0'.
   */
  function ParityWarning(scheme: Scheme, frame: string): (w: bool)
    requires |frame| == FrameWidth(scheme)
    ensures !IsBit(ParityBit(scheme, frame)) ==> w
    ensures IsBit(ParityBit(scheme, frame)) ==>
      (w <==> (CountOnes(DataBits(scheme, frame)) + BitValue(ParityBit(scheme, frame))) % 2 == 0)
  {
    var parity := ParityBit(scheme, frame);
    if CountOnes(DataBits(scheme, frame)) % 2 == 0 then parity != '1' else parity != '0'
  }

  lemma {:induction false} CountOnesAppend(s: string, c: char)
    ensures CountOnes(s + [c]) == CountOnes(s) + BitValue(c)
  {
    if s != [] {
      CountOnesAppend(s[1..], c);
      assert (s + [c])[1..] == s[1..] + [c];
    }
  }

  /** On a binary frame the warning is raised exactly when the frame's total number of '1' bits is even. */
  lemma ParityWarningIffEven(scheme: Scheme, frame: string)
    requires |frame| == FrameWidth(scheme) && IsBit(ParityBit(scheme, frame))
    ensures ParityWarning(scheme, frame) <==> CountOnes(frame) % 2 == 0
  {
    var d := DataWidth(scheme);
    assert frame == frame[..d] + [frame[d]];
    CountOnesAppend(frame[..d], frame[d]);
  }

  /**
   * `int(bin_val[::-1], 2)`: the data bits read least significant first. It
   * is always a valid index into the scheme's alphabet.
   */
  function FrameIndex(scheme: Scheme, frame: string): (idx: nat)
    requires |frame| == FrameWidth(scheme) && IsBinary(DataBits(scheme, frame))
    ensures idx < |Alphabet(scheme)|
  {
    AlphabetSize(scheme);
    LsbFirstValue(DataBits(scheme, frame))
  }

  /** What the decoding loop computes for one frame is the frame's index and character. */
  lemma FrameIndexInRange(scheme: Scheme, frame: string)
    requires |frame| == FrameWidth(scheme) && IsBinary(frame[..|frame| - 1])
    ensures IsBinary(Reversed(frame[..|frame| - 1]))
    ensures BinaryValue(Reversed(frame[..|frame| - 1])) == FrameIndex(scheme, frame) < |Alphabet(scheme)|
  {
    ReversedValue(frame[..|frame| - 1]);
  }

  /** The character a binary frame decodes to. */
  function FrameChar(scheme: Scheme, frame: string): char
    requires |frame| == FrameWidth(scheme) && IsBinary(DataBits(scheme, frame))
  {
    Alphabet(scheme)[FrameIndex(scheme, frame)]
  }

  // ---------------------------------------------------------------------
  // One frame
  // ---------------------------------------------------------------------

  /** What one frame contributes: its character and whether its parity was flagged. */
  datatype Symbol = Symbol(ch: char, parityWarning: bool)

  /**
   * One iteration of the decoding loop as a value: None where
   * `int(bin_val[::-1], 2)` raises, otherwise the character and the flag.
   */
  function FrameSymbol(scheme: Scheme, frame: string): Option<Symbol>
    requires |frame| == FrameWidth(scheme)
  {
    if IsBinary(DataBits(scheme, frame)) then Some(Symbol(FrameChar(scheme, frame), ParityWarning(scheme, frame)))
    else None
  }

  /**
   * The body of the decoding loop for one frame: count the '1' data bits,
   * compare with the parity bit, then read the reversed data bits as an
   * index into the alphabet (None where `int(..., 2)` would raise).
   */
  method DecodeFrame(scheme: Scheme, substr: string) returns (ch: Option<char>, warning: bool)
    requires |substr| == FrameWidth(scheme)
    ensures warning == ParityWarning(scheme, substr)
    ensures ch.Some? <==> IsBinary(DataBits(scheme, substr))
    ensures ch.Some? ==> FrameSymbol(scheme, substr) == Some(Symbol(ch.value, warning))
  {
    var parity := substr[|substr| - 1];
    var binVal := substr[..|substr| - 1];
    var parityNum := CountOnes(binVal);
    warning := if parityNum % 2 == 0 then parity != '1' else parity != '0';
    if !IsBinary(binVal) {
      return None, warning;
    }
    FrameIndexInRange(scheme, substr);
    ch := Some(Alphabet(scheme)[BinaryValue(Reversed(binVal))]);
  }

  // ---------------------------------------------------------------------
  // The decoding loop over frames
  // ---------------------------------------------------------------------

  /** `int(bin_val[::-1], 2)` raises ValueError on a frame whose data bits are not all '0'/'1'. */
  datatype DecodeError = NotBinary(frame: nat)

  /** Decoded characters and one parity-warning flag per frame. */
  datatype Decoded = Decoded(text: string, warnings: seq<bool>)

  /**
   * What the loop accumulates from a run of per-frame results: characters
   * and flags in frame order, stopping at the first frame that raises.
   */
  function Collect(symbols: seq<Option<Symbol>>): Result<Decoded, DecodeError> {
    if symbols == [] then Ok(Decoded("", []))
    else
      match Collect(symbols[..|symbols| - 1])
      case Err(e) => Err(e)
      case Ok(acc) =>
        match symbols[|symbols| - 1]
        case None => Err(NotBinary(|symbols| - 1))
        case Some(sym) => Ok(Decoded(acc.text + [sym.ch], acc.warnings + [sym.parityWarning]))
  }

  /** One more binary frame appends its character and its flag. */
  lemma CollectSnoc(symbols: seq<Option<Symbol>>, sym: Symbol)
    requires Collect(symbols).Ok?
    ensures Collect(symbols + [Some(sym)]) ==
      Ok(Decoded(Collect(symbols).value.text + [sym.ch], Collect(symbols).value.warnings + [sym.parityWarning]))
  {
    assert (symbols + [Some(sym)])[..|symbols|] == symbols;
  }

  /** A frame that raises after frames that did not is reported by its own index. */
  lemma CollectSnocNone(symbols: seq<Option<Symbol>>)
    requires Collect(symbols).Ok?
    ensures Collect(symbols + [None]) == Err(NotBinary(|symbols|))
  {
    assert (symbols + [None])[..|symbols|] == symbols;
  }

  /** Once a frame raises, later frames are never looked at. */
  lemma {:induction false} CollectErrPersists(symbols: seq<Option<Symbol>>, m: nat)
    requires m <= |symbols| && Collect(symbols[..m]).Err?
    ensures Collect(symbols) == Collect(symbols[..m])
  {
    if m < |symbols| {
      var init := symbols[..|symbols| - 1];
      assert init[..m] == symbols[..m];
      CollectErrPersists(init, m);
    } else {
      assert symbols[..m] == symbols;
    }
  }

  /** The loop finishes exactly when no frame raises. */
  lemma {:induction false} CollectOk(symbols: seq<Option<Symbol>>)
    ensures Collect(symbols).Ok? <==> forall k :: 0 <= k < |symbols| ==> symbols[k].Some?
  {
    if symbols != [] {
      var init := symbols[..|symbols| - 1];
      CollectOk(init);
      assert forall k :: 0 <= k < |init| ==> init[k] == symbols[k];
    }
  }

  /** The error names the first frame that raises. */
  lemma {:induction false} CollectError(symbols: seq<Option<Symbol>>)
    requires Collect(symbols).Err?
    ensures var e := Collect(symbols).error.frame;
      e < |symbols| && symbols[e].None? && forall k :: 0 <= k < e ==> symbols[k].Some?
  {
    var init := symbols[..|symbols| - 1];
    assert forall k :: 0 <= k < |init| ==> init[k] == symbols[k];
    if Collect(init).Err? {
      CollectError(init);
    } else {
      CollectOk(init);
    }
  }

  /** Character k and flag k are those of frame k, one of each per frame. */
  lemma {:induction false} CollectShape(symbols: seq<Option<Symbol>>)
    requires Collect(symbols).Ok?
    ensures forall k :: 0 <= k < |symbols| ==> symbols[k].Some?
    ensures var d := Collect(symbols).value;
      && |d.text| == |symbols| && |d.warnings| == |symbols|
      && (forall k :: 0 <= k < |symbols| ==> d.text[k] == symbols[k].value.ch)
      && (forall k :: 0 <= k < |symbols| ==> d.warnings[k] == symbols[k].value.parityWarning)
  {
    CollectOk(symbols);
    if symbols != [] {
      var init := symbols[..|symbols| - 1];
      assert forall k :: 0 <= k < |init| ==> init[k] == symbols[k];
      CollectShape(init);
    }
  }

  /** One character and one flag per frame, or the index of a frame that exists. */
  lemma {:induction false} CollectLengths(symbols: seq<Option<Symbol>>)
    ensures Collect(symbols).Ok? ==>
      |Collect(symbols).value.text| == |symbols| && |Collect(symbols).value.warnings| == |symbols|
    ensures Collect(symbols).Err? ==> Collect(symbols).error.frame < |symbols|
  {
    if symbols != [] {
      CollectLengths(symbols[..|symbols| - 1]);
    }
  }

  // ---------------------------------------------------------------------
  // decode_sixdec / decode_aba
  // ---------------------------------------------------------------------

  /** The result of each whole frame of the bit string, in order. */
  function FrameSymbols(scheme: Scheme, bits: string): (symbols: seq<Option<Symbol>>)
    ensures |symbols| == FrameCount(scheme, bits)
  {
    seq(FrameCount(scheme, bits), k requires 0 <= k < FrameCount(scheme, bits) => FrameSymbol(scheme, FrameAt(scheme, bits, k)))
  }

  /** `output[:-1]`: the last character is dropped; the empty string stays empty. */
  function DropLast(s: string): (r: string)
    ensures |r| == (if s == [] then 0 else |s| - 1)
    ensures r == s[..|r|]
  {
    if s == [] then [] else s[..|s| - 1]
  }

  /**
   * The whole decoder: every whole frame in order, then the last character
   * dropped. It returns one flag per frame and one character fewer than
   * there are frames, or names a frame that exists.
   */
  function DecodeSpec(scheme: Scheme, bits: string): (r: Result<Decoded, DecodeError>)
    ensures r.Ok? ==> var n := FrameCount(scheme, bits);
      |r.value.warnings| == n && |r.value.text| == (if n == 0 then 0 else n - 1)
    ensures r.Err? ==> r.error.frame < FrameCount(scheme, bits)
  {
    var symbols := FrameSymbols(scheme, bits);
    CollectLengths(symbols);
    match Collect(symbols)
    case Err(e) => Err(e)
    case Ok(acc) => Ok(Decoded(DropLast(acc.text), acc.warnings))
  }

  /** Frame k either raises, ending the loop with its index, or appends its character and flag. */
  lemma CollectNextFrame(scheme: Scheme, bits: string, k: nat, text: string, warnings: seq<bool>)
    requires k < FrameCount(scheme, bits)
    requires Collect(FrameSymbols(scheme, bits)[..k]) == Ok(Decoded(text, warnings))
    ensures var symbols, frame := FrameSymbols(scheme, bits), FrameAt(scheme, bits, k);
      Collect(symbols[..k + 1]) ==
        if IsBinary(DataBits(scheme, frame)) then
          Ok(Decoded(text + [FrameChar(scheme, frame)], warnings + [ParityWarning(scheme, frame)]))
        else Err(NotBinary(k))
  {
    var symbols := FrameSymbols(scheme, bits);
    assert symbols[..k + 1] == symbols[..k] + [symbols[k]];
    if symbols[k].Some? {
      CollectSnoc(symbols[..k], symbols[k].value);
    } else {
      CollectSnocNone(symbols[..k]);
    }
  }

  /** The loop of decode_sixdec / decode_aba: one frame per iteration, in order. */
  method Decode(scheme: Scheme, bits: string) returns (r: Result<Decoded, DecodeError>)
    ensures r == DecodeSpec(scheme, bits)
  {
    var width := FrameWidth(scheme);
    var chars := FrameCount(scheme, bits);
    ghost var symbols := FrameSymbols(scheme, bits);
    var output := "";
    var warnings: seq<bool> := [];
    var i, k := 0, 0;
    while k < chars
      invariant k <= chars && i == FrameStart(scheme, k)
      invariant Collect(symbols[..k]) == Ok(Decoded(output, warnings))
    {
      FrameBounds(scheme, bits, k);
      var substr := bits[i .. i + width];
      assert substr == FrameAt(scheme, bits, k);
      var ch, warning := DecodeFrame(scheme, substr);
      CollectNextFrame(scheme, bits, k, output, warnings);
      if ch.None? {
        CollectErrPersists(symbols, k + 1);
        return Err(NotBinary(k));
      }
      output := output + [ch.value];
      warnings := warnings + [warning];
      i, k := i + width, k + 1;
    }
    assert symbols[..k] == symbols;
    r := Ok(Decoded(DropLast(output), warnings));
  }

  /** decode_sixdec: tracks 1 and 3. Every character it returns is in ASCII 0x20..0x5F. */
  method DecodeSixdec(bits: string) returns (r: Result<Decoded, DecodeError>)
    ensures r == DecodeSpec(Sixdec, bits)
    ensures r.Ok? ==> forall i :: 0 <= i < |r.value.text| ==> 0x20 <= r.value.text[i] as int <= 0x5F
  {
    r := Decode(Sixdec, bits);
    DecodeInAlphabet(Sixdec, bits);
    SixdecIsAsciiRun();
  }

  /** decode_aba: track 2. Every character it returns is in '0'..'?'. */
  method DecodeAba(bits: string) returns (r: Result<Decoded, DecodeError>)
    ensures r == DecodeSpec(Aba, bits)
    ensures r.Ok? ==> forall i :: 0 <= i < |r.value.text| ==> '0' <= r.value.text[i] <= '?'
  {
    r := Decode(Aba, bits);
    DecodeInAlphabet(Aba, bits);
    AbaIsAsciiRun();
  }

  // ---------------------------------------------------------------------
  // Properties of the decoder
  // ---------------------------------------------------------------------

  /** Frame k's result is present exactly when its data bits are all '0'/'1'. */
  lemma FrameSymbolsPresent(scheme: Scheme, bits: string)
    ensures forall k :: 0 <= k < FrameCount(scheme, bits) ==>
      (FrameSymbols(scheme, bits)[k].Some? <==> IsBinary(DataBits(scheme, FrameAt(scheme, bits, k))))
  {
  }

  /**
   * The decoder fails exactly when some whole frame has a data bit other
   * than '0'/'1', and then it names the first such frame.
   */
  lemma DecodeFails(scheme: Scheme, bits: string)
    ensures DecodeSpec(scheme, bits).Ok? <==>
      forall k :: 0 <= k < FrameCount(scheme, bits) ==> IsBinary(DataBits(scheme, FrameAt(scheme, bits, k)))
    ensures DecodeSpec(scheme, bits).Err? ==>
      var e := DecodeSpec(scheme, bits).error.frame;
      && e < FrameCount(scheme, bits)
      && !IsBinary(DataBits(scheme, FrameAt(scheme, bits, e)))
      && forall k :: 0 <= k < e ==> IsBinary(DataBits(scheme, FrameAt(scheme, bits, k)))
  {
    var symbols := FrameSymbols(scheme, bits);
    FrameSymbolsPresent(scheme, bits);
    CollectOk(symbols);
    if Collect(symbols).Err? {
      CollectError(symbols);
    }
  }

  /** The decoder never fails on a string of '0'/'1', such as hex_to_bin's output. */
  lemma BinaryDecodes(scheme: Scheme, bits: string)
    requires IsBinary(bits)
    ensures DecodeSpec(scheme, bits).Ok?
  {
    forall k | 0 <= k < FrameCount(scheme, bits)
      ensures IsBinary(DataBits(scheme, FrameAt(scheme, bits, k)))
    {
      FrameBounds(scheme, bits, k);
    }
    DecodeFails(scheme, bits);
  }

  /**
   * The decoder's result: max(frames - 1, 0) characters, character k decoded
   * from frame k, and one parity flag per frame (the dropped one included).
   */
  lemma DecodeShape(scheme: Scheme, bits: string)
    requires DecodeSpec(scheme, bits).Ok?
    ensures forall k :: 0 <= k < FrameCount(scheme, bits) ==> IsBinary(DataBits(scheme, FrameAt(scheme, bits, k)))
    ensures var d := DecodeSpec(scheme, bits).value;
      var n := FrameCount(scheme, bits);
      && |d.text| == (if n == 0 then 0 else n - 1)
      && |d.warnings| == n
      && (forall k :: 0 <= k < |d.text| ==> d.text[k] == FrameChar(scheme, FrameAt(scheme, bits, k)))
      && (forall k :: 0 <= k < n ==> d.warnings[k] == ParityWarning(scheme, FrameAt(scheme, bits, k)))
  {
    var symbols := FrameSymbols(scheme, bits);
    CollectShape(symbols);
    assert forall k :: 0 <= k < FrameCount(scheme, bits) ==> symbols[k] == FrameSymbol(scheme, FrameAt(scheme, bits, k));
  }

  /** Fewer than two whole frames decode to the empty string. */
  lemma ShortInputDecodesEmpty(scheme: Scheme, bits: string)
    requires |bits| < 2 * FrameWidth(scheme)
    requires DecodeSpec(scheme, bits).Ok?
    ensures DecodeSpec(scheme, bits).value.text == ""
  {
    DecodeShape(scheme, bits);
  }

  /** Empty input: no frames, no characters, no warnings. */
  lemma EmptyInput(scheme: Scheme)
    ensures DecodeSpec(scheme, "") == Ok(Decoded("", []))
  {
    assert FrameSymbols(scheme, "") == [];
  }

  /** Bits after the last whole frame are never read. */
  lemma TrailingBitsIgnored(scheme: Scheme, bits: string, t: string)
    requires |bits| % FrameWidth(scheme) == 0 && |t| < FrameWidth(scheme)
    ensures DecodeSpec(scheme, bits + t) == DecodeSpec(scheme, bits)
  {
    var n := FrameCount(scheme, bits);
    assert FrameCount(scheme, bits + t) == n;
    forall k | 0 <= k < n
      ensures FrameAt(scheme, bits + t, k) == FrameAt(scheme, bits, k)
    {
      FrameBounds(scheme, bits, k);
    }
    assert FrameSymbols(scheme, bits + t) == FrameSymbols(scheme, bits);
  }

  /** Every decoded character is a character of the scheme's alphabet. */
  lemma DecodeInAlphabet(scheme: Scheme, bits: string)
    ensures DecodeSpec(scheme, bits).Ok? ==>
      var text := DecodeSpec(scheme, bits).value.text;
      forall i :: 0 <= i < |text| ==> exists j :: 0 <= j < |Alphabet(scheme)| && text[i] == Alphabet(scheme)[j]
  {
    if DecodeSpec(scheme, bits).Ok? {
      DecodeShape(scheme, bits);
      var text := DecodeSpec(scheme, bits).value.text;
      forall i | 0 <= i < |text|
        ensures exists j :: 0 <= j < |Alphabet(scheme)| && text[i] == Alphabet(scheme)[j]
      {
        var j := FrameIndex(scheme, FrameAt(scheme, bits, i));
        assert text[i] == Alphabet(scheme)[j];
      }
    }
  }

  // ---------------------------------------------------------------------
  // The parity bit
  // ---------------------------------------------------------------------

  /** The bits with the parity bit of frame k inverted. */
  function FlipParity(scheme: Scheme, bits: string, k: nat): (flipped: string)
    requires k < FrameCount(scheme, bits)
    ensures |flipped| == |bits|
  {
    FrameBounds(scheme, bits, k);
    var p := FrameStart(scheme, k) + DataWidth(scheme);
    bits[p := if bits[p] == '1' then '0' else '1']
  }

  /** Flipping frame k's parity bit changes frame k's parity bit and nothing else. */
  lemma FlipParityFrames(scheme: Scheme, bits: string, k: nat, j: nat)
    requires k < FrameCount(scheme, bits) && j < FrameCount(scheme, bits)
    ensures var f := FlipParity(scheme, bits, k);
      && DataBits(scheme, FrameAt(scheme, f, j)) == DataBits(scheme, FrameAt(scheme, bits, j))
      && (j != k ==> FrameAt(scheme, f, j) == FrameAt(scheme, bits, j))
      && (j == k ==> ParityBit(scheme, FrameAt(scheme, f, j)) ==
                     if ParityBit(scheme, FrameAt(scheme, bits, j)) == '1' then '0' else '1')
  {
    FrameBounds(scheme, bits, k);
    FrameBounds(scheme, bits, j);
    if j < k {
      FrameOrder(scheme, j, k);
    } else if k < j {
      FrameOrder(scheme, k, j);
    }
  }

  /** On a '0'/'1' parity bit, inverting it inverts the frame's flag. */
  lemma FlipParityWarning(scheme: Scheme, frame: string, flipped: string)
    requires |frame| == |flipped| == FrameWidth(scheme)
    requires DataBits(scheme, flipped) == DataBits(scheme, frame) && IsBit(ParityBit(scheme, frame))
    requires ParityBit(scheme, flipped) == if ParityBit(scheme, frame) == '1' then '0' else '1'
    ensures ParityWarning(scheme, flipped) == !ParityWarning(scheme, frame)
  {
  }

  /**
   * Frame j's result after flipping frame k's parity bit: the same character,
   * the same flag unless j == k, and on a '0'/'1' parity bit the opposite
   * flag for j == k.
   */
  lemma FlipParitySymbol(scheme: Scheme, bits: string, k: nat, j: nat)
    requires k < FrameCount(scheme, bits) && j < FrameCount(scheme, bits)
    ensures var a, b := FrameSymbols(scheme, bits)[j], FrameSymbols(scheme, FlipParity(scheme, bits, k))[j];
      && a.Some? == b.Some?
      && (a.Some? ==> a.value.ch == b.value.ch)
      && (j != k ==> a == b)
      && (j == k && a.Some? && IsBit(ParityBit(scheme, FrameAt(scheme, bits, k))) ==>
            b.value.parityWarning == !a.value.parityWarning)
  {
    var f := FlipParity(scheme, bits, k);
    FlipParityFrames(scheme, bits, k, j);
    var frame, flipped := FrameAt(scheme, bits, j), FrameAt(scheme, f, j);
    if j == k && IsBit(ParityBit(scheme, frame)) {
      FlipParityWarning(scheme, frame, flipped);
    }
  }

  /** Runs of results with the same characters collect to the same text. */
  lemma CollectSameChars(a: seq<Option<Symbol>>, b: seq<Option<Symbol>>)
    requires |a| == |b|
    requires forall k :: 0 <= k < |a| ==> a[k].Some? == b[k].Some?
    requires forall k :: 0 <= k < |a| && a[k].Some? ==> a[k].value.ch == b[k].value.ch
    ensures Collect(a).Ok? == Collect(b).Ok?
    ensures Collect(a).Ok? ==> Collect(a).value.text == Collect(b).value.text
  {
    CollectOk(a);
    CollectOk(b);
    if Collect(a).Ok? {
      CollectShape(a);
      CollectShape(b);
    }
  }

  /**
   * The parity bit never affects the decoded text: flipping frame k's parity
   * bit leaves the text and every other frame's flag unchanged, and on a
   * '0'/'1' parity bit it toggles frame k's flag.
   */
  lemma FlipParityKeepsText(scheme: Scheme, bits: string, k: nat)
    requires k < FrameCount(scheme, bits)
    ensures var f := FlipParity(scheme, bits, k);
      && DecodeSpec(scheme, f).Ok? == DecodeSpec(scheme, bits).Ok?
      && (DecodeSpec(scheme, bits).Ok? ==>
            var d, e := DecodeSpec(scheme, bits).value, DecodeSpec(scheme, f).value;
            && e.text == d.text
            && |e.warnings| == |d.warnings| == FrameCount(scheme, bits)
            && (forall j :: 0 <= j < |d.warnings| && j != k ==> e.warnings[j] == d.warnings[j])
            && (IsBit(ParityBit(scheme, FrameAt(scheme, bits, k))) ==> e.warnings[k] == !d.warnings[k]))
  {
    var f := FlipParity(scheme, bits, k);
    var a, b := FrameSymbols(scheme, bits), FrameSymbols(scheme, f);
    forall j | 0 <= j < |a|
      ensures a[j].Some? == b[j].Some?
      ensures a[j].Some? ==> a[j].value.ch == b[j].value.ch
      ensures j != k ==> a[j] == b[j]
    {
      FlipParitySymbol(scheme, bits, k, j);
    }
    CollectSameChars(a, b);
    if Collect(a).Ok? {
      CollectShape(a);
      CollectShape(b);
      FlipParitySymbol(scheme, bits, k, k);
    }
  }
}
