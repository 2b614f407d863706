/** The two tools end to end, from file to text and back: when does a file come back byte for byte? */
module SelfTest {
  import opened Wrappers
  import opened Bytes
  import opened Bits
  import opened Isa
  import opened Operands
  import opened Lowering
  import opened Linker
  import opened Assembler
  import opened Listing
  import opened InsnRoundTrip
  import opened RoundTrip
  import opened CodeFile
  import Disassembler

  // ---------------------------------------------------------------- the tools

  /** read_input behind the header: the array of instructions grows until the input ends. */
  method ReadInsns(arch: Arch, format: Format, data: seq<byte>) returns (r: Result<seq<Bin>, ReadError>)
    ensures r == ReadPayload(arch, format, data)
  {
    r := ReadChunks(b => InsnAt(arch, format, b), data);
  }

  /** Read eight bytes at a time. */
  method ReadChunks(read: seq<byte> -> Result<Bin, ReadError>, data: seq<byte>) returns (r: Result<seq<Bin>, ReadError>)
    ensures r == ReadFrom(read, data, 0)
  {
    var code, pos := [], 0;
    while pos < |data|
      invariant pos <= |data| && ReadSoFar(read, data, pos, code)
    {
      if |data| - pos < 8 {
        return Err(Unaligned);
      }
      var bin := read(Chunk(data, pos));
      ReadMore(read, data, pos, code);
      if bin.Err? {
        return Err(bin.error);
      }
      code, pos := code + [bin.value], pos + 8;
    }
    assert code + [] == code;
    return Ok(code);
  }

  /** One more instruction, or an error. */
  lemma ReadMore(read: seq<byte> -> Result<Bin, ReadError>, data: seq<byte>, pos: nat, code: seq<Bin>)
    requires pos + 8 <= |data| && ReadSoFar(read, data, pos, code)
    ensures match read(Chunk(data, pos))
            case Err(e) => ReadFrom(read, data, 0) == Err(e)
            case Ok(bin) => ReadSoFar(read, data, pos + 8, code + [bin])
  {
    var (bin, rest) := (read(Chunk(data, pos)), ReadFrom(read, data, pos + 8));
    if bin.Ok? && rest.Ok? {
      assert code + ([bin.value] + rest.value) == code + [bin.value] + rest.value;
    }
  }

  /** The instructions before pos are known; reading fails or succeeds with the rest. */
  ghost predicate ReadSoFar(read: seq<byte> -> Result<Bin, ReadError>, data: seq<byte>, pos: nat, code: seq<Bin>)
    requires pos <= |data|
  {
    var (all, rest) := (ReadFrom(read, data, 0), ReadFrom(read, data, pos));
    if rest.Err? then all == rest else all.Ok? && all.value == code + rest.value
  }

  /** read_input */
  method ReadInput(arch: Arch, format: Format, file: seq<byte>) returns (r: Result<seq<Bin>, ReadError>)
    ensures r == ReadFile(arch, format, file)
  {
    var data := file;
    if format == B43 {
      if |file| < 8 {
        return Err(NoHeader);
      }
      if file[0] != 'u' as byte {
        return Err(WrongType);
      }
      if file[1] != 1 {
        return Err(WrongVersion);
      }
      data := file[8..];
    }
    r := ReadInsns(arch, format, data);
  }

  method CountInsns(output: seq<Node>) returns (count: nat)
    ensures count == |Words(output)|
  {
    count := 0;
    for i := 0 to |output|
      invariant count == |Words(output[..i])|
    {
      assert output[..i + 1][..i] == output[..i];
      if output[i].OutInsn? {
        count := count + 1;
      }
    }
    assert output[..|output|] == output;
  }

  lemma PayloadStep(write: Bin -> seq<byte>, code: seq<Bin>, bin: Bin)
    ensures Payload(write, code + [bin]) == Payload(write, code) + write(bin)
  {
    assert (code + [bin])[..|code|] == code;
  }

  /** Write the instructions of the output list; its labels are skipped. */
  method EmitInsns(write: Bin -> seq<byte>, output: seq<Node>) returns (bytes: seq<byte>)
    requires AllConcrete(output)
    ensures bytes == Payload(write, Words(output))
  {
    bytes := [];
    for i := 0 to |output|
      invariant bytes == Payload(write, Words(output[..i]))
    {
      ghost var done := Words(output[..i]);
      WordsStep(output, output, i);
      if output[i].OutInsn? {
        var bin := CodeWords(output[i].code);
        bytes := bytes + write(bin);
        PayloadStep(write, done, bin);
      } else {
        assert done + [] == done;
      }
    }
    assert output[..|output|] == output;
  }

  /** emit_code */
  method EmitCode(arch: Arch, format: Format, output: seq<Node>) returns (file: seq<byte>)
    requires AllConcrete(output)
    ensures file == FileOf(arch, format, Words(output)) && IsLaidOut(arch, format, Words(output), file)
  {
    FileLayout(arch, format, Words(output));
    var count := CountInsns(output);
    var bytes := EmitInsns(bin => InsnBytes(arch, format, bin), output);
    file := FwHeaderOf(format, count) + bytes;
  }

  /** The assembler from parsed lines to a file. */
  function AssembledFile(format: Format, stmts: seq<Stmt>): Result<seq<byte>, AsmError> {
    var d :- DirectivesFrom(stmts, 0, Directives(None, None));
    var bins :- AssembleStmts(stmts);
    if d.arch.Some? then Ok(FileOf(d.arch.value, format, bins)) else Err(NoArch)
  }

  /** The assembler's main sequence. */
  method AssembleFile(format: Format, stmts: seq<Stmt>) returns (r: Result<seq<byte>, AsmError>)
    ensures r == AssembledFile(format, stmts)
  {
    var ctx := new Context();
    var error := ctx.EvalDirectives(stmts);
    if error.Some? {
      return Err(error.value);
    }
    error := ctx.AssembleInstructions(stmts);
    if error.Some? {
      return Err(error.value);
    }
    OutputIsFresh(ctx.arch, ctx.start, stmts);
    error := ctx.ResolveLabels();
    if error.Some? {
      return Err(error.value);
    }
    var file := EmitCode(ctx.arch, format, ctx.output);
    return Ok(file);
  }

  // ---------------------------------------------------------------- the self test

  /** Disassemble a file and assemble the text again; None when either tool gives up. */
  function Rebuilt(arch: Arch, format: Format, decodeUnknown: bool, file: seq<byte>): Option<seq<byte>> {
    var code := ReadFile(arch, format, file);
    if code.Err? then None
    else
      var lines := Disassemble(arch, decodeUnknown, code.value);
      if lines.Err? then None
      else
        var stmts := ParseLines(lines.value);
        if stmts.Err? then None
        else
          var out := AssembledFile(format, stmts.value);
          if out.Ok? then Some(out.value) else None
  }

  /** The self test on a file, with the tools themselves. */
  method Rebuild(arch: Arch, format: Format, decodeUnknown: bool, file: seq<byte>) returns (r: Option<seq<byte>>)
    ensures r == Rebuilt(arch, format, decodeUnknown, file)
  {
    var code := ReadInput(arch, format, file);
    if code.Err? {
      return None;
    }
    var lines := Disassembler.DisassembleCode(arch, decodeUnknown, code.value);
    if lines.Err? {
      return None;
    }
    var stmts := ParseLines(lines.value);
    if stmts.Err? {
      return None;
    }
    var out := AssembleFile(format, stmts.value);
    return if out.Ok? then Some(out.value) else None;
  }

  /** What a listing says about its architecture. */
  lemma ListingArch(arch: Arch, diss: seq<Dis>)
    requires (forall d :: d in diss ==> |d.operands| == 5) && ParseLines(ListingOf(arch, diss)).Ok?
    ensures DirectivesFrom(ParseLines(ListingOf(arch, diss)).value, 0, Directives(None, None))
         == Ok(Directives(Some(arch), Some("entry")))
  {
    BodyLines(Labels(diss), InsnLines(diss), |diss|);
    ListingDirectives(arch, Body(Labels(diss), InsnLines(diss), |diss|));
  }

  lemma ArchKnown(arch: Arch, format: Format, stmts: seq<Stmt>)
    requires DirectivesFrom(stmts, 0, Directives(None, None)) == Ok(Directives(Some(arch), Some("entry")))
    ensures var (file, bins) := (AssembledFile(format, stmts), AssembleStmts(stmts));
            file.Ok? == bins.Ok? && (bins.Ok? ==> file.value == FileOf(arch, format, bins.value))
  {
  }

  /** Rebuilding a file is reassembling its code for the same architecture. */
  lemma RebuiltCode(arch: Arch, format: Format, decodeUnknown: bool, file: seq<byte>)
    requires ReadFile(arch, format, file).Ok?
    ensures var (out, code) := (Rebuilt(arch, format, decodeUnknown, file),
                                Reassemble(arch, decodeUnknown, ReadFile(arch, format, file).value));
            out == if code.Some? then Some(FileOf(arch, format, code.value)) else None
  {
    var lines := Disassemble(arch, decodeUnknown, ReadFile(arch, format, file).value);
    if lines.Ok? && ParseLines(lines.value).Ok? {
      ListingArch(arch, Disassembled(arch, decodeUnknown, ReadFile(arch, format, file).value).value);
      ArchKnown(arch, format, ParseLines(lines.value).value);
    }
  }

  /** The self test succeeds exactly on the files that read, whose code is canonical and whose header,
      if there is one, says what the assembler writes. */
  lemma SelfTestIsExact(arch: Arch, format: Format, decodeUnknown: bool, file: seq<byte>)
    ensures var code := ReadFile(arch, format, file);
            Rebuilt(arch, format, decodeUnknown, file) == Some(file)
            <==> code.Ok? && CanonicalImage(arch, decodeUnknown, code.value)
                 && (format == B43 ==> file[..8] == FwHeader(|code.value|))
  {
    var read := ReadFile(arch, format, file);
    if read.Ok? {
      var code := read.value;
      EmitRead(arch, format, file);
      RebuiltCode(arch, format, decodeUnknown, file);
      RoundTripIsExact(arch, decodeUnknown, code);
      var back := Reassemble(arch, decodeUnknown, code);
      if back.Some? && FileOf(arch, format, back.value) == file {
        SecondPass(arch, decodeUnknown, code);
        ReadEmitted(arch, format, back.value);
        assert back.value == code;
      }
    }
  }

  /** Rebuilding is exact: a file that reads gives the file of its rewritten code when that is accepted
      and jumps only inside, and nothing otherwise. */
  lemma WhatIsRebuilt(arch: Arch, format: Format, decodeUnknown: bool, file: seq<byte>)
    ensures var read := ReadFile(arch, format, file);
            Rebuilt(arch, format, decodeUnknown, file)
            == if read.Ok? && AllAccepted(arch, decodeUnknown, read.value) && JumpsInside(arch, read.value)
               then Some(FileOf(arch, format, RewrittenImage(arch, read.value))) else None
  {
    if ReadFile(arch, format, file).Ok? {
      EmitRead(arch, format, file);
      RebuiltCode(arch, format, decodeUnknown, file);
      WhatComesBack(arch, decodeUnknown, ReadFile(arch, format, file).value);
    }
  }

  /** Whatever file is rebuilt passes the self test. */
  lemma RebuiltPasses(arch: Arch, format: Format, decodeUnknown: bool, file: seq<byte>)
    requires Rebuilt(arch, format, decodeUnknown, file).Some?
    ensures var out := Rebuilt(arch, format, decodeUnknown, file);
            Rebuilt(arch, format, decodeUnknown, out.value) == out
  {
    var code := ReadFile(arch, format, file).value;
    EmitRead(arch, format, file);
    RebuiltCode(arch, format, decodeUnknown, file);
    SecondPass(arch, decodeUnknown, code);
    var back := Reassemble(arch, decodeUnknown, code).value;
    ReadEmitted(arch, format, back);
    RebuiltCode(arch, format, decodeUnknown, FileOf(arch, format, back));
  }
}
