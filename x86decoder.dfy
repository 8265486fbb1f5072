/** Splitting a byte sequence into amd64 instructions
    (lib/architectures/amd64/x86Decoder.go). The disassembler itself
    (`x86asm.Decode` and `Inst.String`) is a parameter. */
module X86Decoder {
  import opened Types

  /** `types.Instruction`: the bytes of one instruction and its text. */
  datatype Instruction = Instruction(octets: seq<byte>, disAsm: string)

  /** What one call of the disassembler on a byte sequence does: report an
      error, panic, or decode an instruction of `len` bytes whose text is
      `text`. */
  datatype DecodeOutcome =
    | DecodeFailed(cause: Error)
    | DecoderPanicked(value: string)
    | Decoded(len: int, text: string)

  /** `x86asm.Decode(bytes, 64)`, seen from outside. */
  type Decoder = seq<byte> -> DecodeOutcome

  /** The disassembler never reports an instruction of length zero. Without
      this, the loop of GadgetDecoder would not terminate. */
  ghost predicate MakesProgress(decode: Decoder)
  {
    forall bytes: seq<byte> :: decode(bytes).Decoded? ==> decode(bytes).len != 0
  }

  /** The message of the panic caused by slicing the input past its end. */
  const SliceBoundsPanic: string := "runtime error: slice bounds out of range"

  /** Decodes the one instruction at the start of `opcodes`. A decoder error
      is wrapped; a panic, of the decoder or of slicing `opcodes` to a length
      it does not have, becomes an error instead of an instruction. */
  function InstructionDecoder(decode: Decoder, opcodes: seq<byte>): (r: Result<Instruction, Error>)
    ensures r.Success? <==> decode(opcodes).Decoded? && 0 <= decode(opcodes).len <= |opcodes|
    ensures r.Success? ==> r.value.octets <= opcodes && |r.value.octets| == decode(opcodes).len
    ensures r.Success? ==> r.value.disAsm == decode(opcodes).text
    ensures decode(opcodes).DecodeFailed? ==>
              r == Failure(Wrap(decode(opcodes).cause, "Unable to decode instruction."))
    ensures decode(opcodes).DecoderPanicked? ==>
              r == Failure(PanicError(decode(opcodes).value))
  {
    match decode(opcodes)
    case DecodeFailed(cause) => Failure(Wrap(cause, "Unable to decode instruction."))
    case DecoderPanicked(value) => Failure(PanicError(value))
    case Decoded(len, text) =>
      if 0 <= len <= |opcodes| then Success(Instruction(opcodes[0..len], text))
      else Failure(PanicError(SliceBoundsPanic))
  }

  /** The error the deferred recover of InstructionDecoder makes of a panic. */
  function PanicError(value: string): Error
  {
    Error("Unable to decode instruction due to disassembler panic: " + value)
  }

  /** `types.Gadget`: a sequence of instructions. */
  type Gadget = seq<Instruction>

  /** The bytes of a gadget's instructions, in order. */
  function Concat(g: Gadget): seq<byte>
  {
    if g == [] then [] else g[0].octets + Concat(g[1..])
  }

  /** Where the `i`-th instruction of `g` starts. */
  function Offset(g: Gadget, i: nat): nat
    requires i <= |g|
  {
    |Concat(g[..i])|
  }

  /** `g` cuts `bytes` into instructions: its octets concatenate to `bytes`
      and each instruction is what the decoder makes of the bytes from its
      own offset on. */
  ghost predicate IsTiling(decode: Decoder, bytes: seq<byte>, g: Gadget)
  {
    && Concat(g) == bytes
    && forall i :: 0 <= i < |g| ==>
         Offset(g, i) <= |bytes| && InstructionDecoder(decode, bytes[Offset(g, i)..]) == Success(g[i])
  }

  /** The result of GadgetDecoder, stated recursively: peel one decoded
      instruction off the front, stop at the first failure. */
  function Segment(decode: Decoder, bytes: seq<byte>): Result<Gadget, Error>
    requires MakesProgress(decode)
    decreases |bytes|
  {
    if bytes == [] then Success([])
    else match InstructionDecoder(decode, bytes)
      case Failure(e) => Failure(Wrap(e, "Error decoding underlying instruction."))
      case Success(instr) =>
        if |bytes| <= |instr.octets| then Success([instr])
        else match Segment(decode, bytes[|instr.octets|..])
          case Failure(e) => Failure(e)
          case Success(rest) => Success([instr] + rest)
  }

  /** Prepend the instructions decoded so far to the outcome for the rest. */
  function Prepend(g: Gadget, r: Result<Gadget, Error>): Result<Gadget, Error>
  {
    match r
    case Failure(e) => Failure(e)
    case Success(rest) => Success(g + rest)
  }

  method GadgetDecoder(decode: Decoder, input: seq<byte>) returns (r: Result<Gadget, Error>)
    requires MakesProgress(decode)
    ensures r == Segment(decode, input)
    ensures input == [] ==> r == Success([])
    ensures r.Success? ==> IsTiling(decode, input, r.value) && |r.value| <= |input|
    ensures r.Failure? <==> forall g :: !IsTiling(decode, input, g)
  {
    var gadget: Gadget := [];
    var opcodes := input;
    assert Prepend([], Segment(decode, input)) == Segment(decode, input) by {
      if Segment(decode, input).Success? { assert [] + Segment(decode, input).value == Segment(decode, input).value; }
    }
    while |opcodes| > 0
      invariant Segment(decode, input) == Prepend(gadget, Segment(decode, opcodes))
      decreases |opcodes|
    {
      var instr := InstructionDecoder(decode, opcodes);
      if instr.Failure? {
        r := Failure(Wrap(instr.error, "Error decoding underlying instruction."));
        SegmentMeaning(decode, input);
        return;
      }
      PrependStep(decode, gadget, opcodes);
      gadget := gadget + [instr.value];
      var gadlen := |instr.value.octets|;
      if |opcodes| <= gadlen {
        break;
      }
      opcodes := opcodes[gadlen..];
    }
    assert gadget + [] == gadget;
    r := Success(gadget);
    SegmentMeaning(decode, input);
  }

  /** One turn of the loop of GadgetDecoder: a decoded instruction moves
      from the outcome for the rest onto the gadget decoded so far. */
  lemma PrependStep(decode: Decoder, done: Gadget, opcodes: seq<byte>)
    requires MakesProgress(decode)
    requires opcodes != [] && InstructionDecoder(decode, opcodes).Success?
    ensures var instr := InstructionDecoder(decode, opcodes).value;
            var n := |instr.octets|;
            Prepend(done, Segment(decode, opcodes))
              == if |opcodes| <= n then Success(done + [instr])
                 else Prepend(done + [instr], Segment(decode, opcodes[n..]))
  {
    var instr := InstructionDecoder(decode, opcodes).value;
    var n := |instr.octets|;
    if |opcodes| > n && Segment(decode, opcodes[n..]).Success? {
      assert done + ([instr] + Segment(decode, opcodes[n..]).value)
          == (done + [instr]) + Segment(decode, opcodes[n..]).value;
    }
  }

  /** What the recursive statement of the result means: the empty input
      gives the empty gadget, a gadget is a tiling no longer than its input,
      and a failure means no tiling exists. */
  lemma SegmentMeaning(decode: Decoder, input: seq<byte>)
    requires MakesProgress(decode)
    ensures input == [] ==> Segment(decode, input) == Success([])
    ensures Segment(decode, input).Success? ==>
              IsTiling(decode, input, Segment(decode, input).value) && |Segment(decode, input).value| <= |input|
    ensures Segment(decode, input).Failure? <==> forall g :: !IsTiling(decode, input, g)
  {
    SegmentIffTiling(decode, input);
    SegmentLength(decode, input);
  }

  lemma ConcatCons(x: Instruction, rest: Gadget)
    ensures Concat([x] + rest) == x.octets + Concat(rest)
  {
    assert ([x] + rest)[1..] == rest;
  }

  lemma OffsetCons(x: Instruction, rest: Gadget, i: nat)
    requires i <= |rest|
    ensures Offset([x] + rest, i + 1) == |x.octets| + Offset(rest, i)
    ensures i < |rest| ==> ([x] + rest)[i + 1] == rest[i]
  {
    assert ([x] + rest)[..i + 1] == [x] + rest[..i];
    ConcatCons(x, rest[..i]);
  }

  lemma {:induction false} ConcatPrefix(g: Gadget, i: nat)
    requires i <= |g|
    ensures Concat(g[..i]) <= Concat(g)
  {
    if i > 0 {
      assert g == [g[0]] + g[1..];
      assert g[..i] == [g[0]] + g[1..][..i - 1];
      ConcatCons(g[0], g[1..]);
      ConcatCons(g[0], g[1..][..i - 1]);
      ConcatPrefix(g[1..], i - 1);
    }
  }

  lemma TilingConsShape(x: Instruction, rest: Gadget)
    ensures Offset([x] + rest, 0) == 0
    ensures forall i :: 0 <= i < |rest| ==>
              Offset([x] + rest, i + 1) == |x.octets| + Offset(rest, i) && ([x] + rest)[i + 1] == rest[i]
  {
    assert ([x] + rest)[..0] == [];
    forall i | 0 <= i < |rest|
      ensures Offset([x] + rest, i + 1) == |x.octets| + Offset(rest, i) && ([x] + rest)[i + 1] == rest[i]
    {
      OffsetCons(x, rest, i);
    }
  }

  /** A tiling starting with `x`: `x` is decoded from the front and the rest
      tiles what follows it. */
  lemma TilingConsSplit(decode: Decoder, bytes: seq<byte>, x: Instruction, rest: Gadget)
    requires IsTiling(decode, bytes, [x] + rest)
    ensures x.octets <= bytes
    ensures InstructionDecoder(decode, bytes) == Success(x)
    ensures IsTiling(decode, bytes[|x.octets|..], rest)
  {
    var g := [x] + rest;
    var n := |x.octets|;
    ConcatCons(x, rest);
    TilingConsShape(x, rest);
    assert g[0] == x;
    assert bytes[..n] == x.octets;
    var tail := bytes[n..];
    assert Concat(rest) == tail;
    forall i | 0 <= i < |rest|
      ensures Offset(rest, i) <= |tail| && InstructionDecoder(decode, tail[Offset(rest, i)..]) == Success(rest[i])
    {
      TilingTailStep(decode, bytes, x, rest, i);
    }
  }

  lemma TilingTailStep(decode: Decoder, bytes: seq<byte>, x: Instruction, rest: Gadget, i: nat)
    requires IsTiling(decode, bytes, [x] + rest)
    requires i < |rest|
    ensures Offset(rest, i) <= |bytes| - |x.octets|
    ensures InstructionDecoder(decode, bytes[|x.octets|..][Offset(rest, i)..]) == Success(rest[i])
  {
    var g := [x] + rest;
    OffsetCons(x, rest, i);
    ConcatCons(x, rest);
    ConcatPrefix(rest, i);
    assert bytes[Offset(g, i + 1)..] == bytes[|x.octets|..][Offset(rest, i)..];
  }

  /** Decoding `x` from the front and tiling what follows it with `rest`
      tiles the whole input. */
  lemma TilingConsJoin(decode: Decoder, bytes: seq<byte>, x: Instruction, rest: Gadget)
    requires x.octets <= bytes
    requires InstructionDecoder(decode, bytes) == Success(x)
    requires IsTiling(decode, bytes[|x.octets|..], rest)
    ensures IsTiling(decode, bytes, [x] + rest)
  {
    var g := [x] + rest;
    var n := |x.octets|;
    ConcatCons(x, rest);
    TilingConsShape(x, rest);
    var tail := bytes[n..];
    assert x.octets + tail == bytes;
    forall i | 0 <= i < |g|
      ensures Offset(g, i) <= |bytes| && InstructionDecoder(decode, bytes[Offset(g, i)..]) == Success(g[i])
    {
      if i > 0 {
        assert bytes[Offset(g, i)..] == tail[Offset(rest, i - 1)..];
      }
    }
  }

  lemma SegmentIffTiling(decode: Decoder, bytes: seq<byte>)
    requires MakesProgress(decode)
    ensures forall g :: Segment(decode, bytes) == Success(g) <==> IsTiling(decode, bytes, g)
  {
    forall g ensures Segment(decode, bytes) == Success(g) ==> IsTiling(decode, bytes, g) {
      if Segment(decode, bytes) == Success(g) {
        SegmentIsTiling(decode, bytes);
      }
    }
    forall g ensures IsTiling(decode, bytes, g) ==> Segment(decode, bytes) == Success(g) {
      if IsTiling(decode, bytes, g) {
        TilingIsSegment(decode, bytes, g);
      }
    }
  }

  /** A successful result cuts its input into decoded instructions. */
  lemma {:induction false} SegmentIsTiling(decode: Decoder, bytes: seq<byte>)
    requires MakesProgress(decode)
    requires Segment(decode, bytes).Success?
    ensures IsTiling(decode, bytes, Segment(decode, bytes).value)
    decreases |bytes|
  {
    if bytes != [] {
      var instr := InstructionDecoder(decode, bytes).value;
      var n := |instr.octets|;
      if |bytes| <= n {
        assert Segment(decode, bytes).value == [instr] + [];
        assert bytes[n..] == [];
        TilingConsJoin(decode, bytes, instr, []);
      } else {
        SegmentIsTiling(decode, bytes[n..]);
        TilingConsJoin(decode, bytes, instr, Segment(decode, bytes[n..]).value);
      }
    }
  }

  /** The empty input has only the empty tiling: no instruction is empty. */
  lemma TilingOfEmpty(decode: Decoder, g: Gadget)
    requires MakesProgress(decode)
    requires IsTiling(decode, [], g)
    ensures g == []
  {
  }

  /** A tiling is the one GadgetDecoder finds: the cut is unique. */
  lemma {:induction false} TilingIsSegment(decode: Decoder, bytes: seq<byte>, g: Gadget)
    requires MakesProgress(decode)
    requires IsTiling(decode, bytes, g)
    ensures Segment(decode, bytes) == Success(g)
    decreases |bytes|
  {
    if bytes == [] {
      TilingOfEmpty(decode, g);
    } else {
      assert g != [];
      assert g == [g[0]] + g[1..];
      TilingConsSplit(decode, bytes, g[0], g[1..]);
      var n := |g[0].octets|;
      if |bytes| <= n {
        assert bytes[n..] == [];
        TilingOfEmpty(decode, g[1..]);
        assert g == [g[0]];
      } else {
        TilingIsSegment(decode, bytes[n..], g[1..]);
      }
    }
  }

  /** Every decoded instruction is at least one byte long, so a gadget has
      at most as many instructions as its input has bytes. */
  lemma {:induction false} SegmentLength(decode: Decoder, bytes: seq<byte>)
    requires MakesProgress(decode)
    ensures Segment(decode, bytes).Success? ==> |Segment(decode, bytes).value| <= |bytes|
    decreases |bytes|
  {
    if bytes != [] && InstructionDecoder(decode, bytes).Success? {
      var instr := InstructionDecoder(decode, bytes).value;
      if |bytes| > |instr.octets| {
        SegmentLength(decode, bytes[|instr.octets|..]);
      }
    }
  }
}
