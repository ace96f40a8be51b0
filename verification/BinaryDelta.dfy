/** The PAFD binary delta: instruction format, greedy block diff and replay (paf_binary_delta.c). */
module BinaryDelta {
  import opened Bytes
  import opened Codec
  import opened Seqs

  const MAGIC: nat := 0x44464150
  const BLOCK_SIZE: nat := 4096
  const MAX_LIT_CHUNK: nat := 65535

  /** An instruction as the parser sees it: any tag but 0 is a literal, whose offset field is ignored. */
  datatype Instr = Copy(offset: nat, size: nat) | Literal(tag: byte, unused: nat, data: seq<byte>)

  /** The fields fit their widths on disk. */
  predicate Printable(i: Instr) {
    match i
    case Copy(offset, size) => offset < U64_LIMIT && size < U32_LIMIT
    case Literal(tag, unused, data) => tag != 0 && unused < U64_LIMIT && |data| < U32_LIMIT
  }

  /** The fixed part of an instruction: tag, offset, size. */
  function Fields(tag: byte, offset: nat, size: nat): (s: seq<byte>)
    ensures |s| == 13
  {
    [tag] + LE(offset, 8) + LE(size, 4)
  }

  function Print(i: Instr): (s: seq<byte>)
    ensures |s| == 13 + if i.Literal? then |i.data| else 0
  {
    match i
    case Copy(offset, size) => Fields(0, offset, size)
    case Literal(tag, unused, data) => Fields(tag, unused, |data|) + data
  }

  function Header(count: nat, oldSize: nat): (s: seq<byte>)
    ensures |s| == 16
  {
    LE(MAGIC, 4) + LE(count, 4) + LE(oldSize, 8)
  }

  /** Decodes one instruction at pos. */
  function ParseAt(delta: seq<byte>, pos: nat): Parsed<Instr> {
    if pos + 13 > |delta| then Malformed
    else
      var f := delta[pos..pos + 13];
      var offset, size := FromLE(f[1..9]), FromLE(f[9..13]);
      if f[0] == 0 then Parsed(Copy(offset, size), pos + 13)
      else if pos + 13 + size > |delta| then Malformed
      else Parsed(Literal(f[0], offset, delta[pos + 13..pos + 13 + size]), pos + 13 + size)
  }

  function Parser(delta: seq<byte>): nat -> Parsed<Instr> {
    (pos: nat) => ParseAt(delta, pos)
  }

  /** Up to count instructions from pos, stopping at the first malformed one. */
  function Instructions(delta: seq<byte>, pos: nat, count: nat): seq<Instr> {
    ParseMany(Parser(delta), pos, count)
  }

  lemma FieldsDecode(f: seq<byte>, tag: byte, offset: nat, size: nat)
    requires |f| == 13 && offset < U64_LIMIT && size < U32_LIMIT
    ensures f == Fields(tag, offset, size) <==> f[0] == tag && FromLE(f[1..9]) == offset && FromLE(f[9..13]) == size
  {
    Pow256Widths();
    ThreeParts(f, [tag], LE(offset, 8), LE(size, 4));
    assert f[..1] == [f[0]];
    LEDecodes(f[1..9], offset, 8);
    LEDecodes(f[9..13], size, 4);
  }

  lemma ParseIsPrinted(delta: seq<byte>, pos: nat)
    ensures var p := ParseAt(delta, pos);
            p.Parsed? ==> pos <= p.next <= |delta| && Printable(p.item) && delta[pos..p.next] == Print(p.item)
  {
    if ParseAt(delta, pos).Parsed? {
      var Parsed(i, next) := ParseAt(delta, pos);
      var f := delta[pos..pos + 13];
      Pow256Widths();
      LEOfFromLE(f[1..9]);
      LEOfFromLE(f[9..13]);
      FieldsDecode(f, f[0], FromLE(f[1..9]), FromLE(f[9..13]));
      SplitAt(delta, pos, pos + 13, next);
    }
  }

  lemma PrintedParses(i: Instr, delta: seq<byte>, pos: nat)
    requires Printable(i) && PrintedHere(delta, Print, pos, i)
    ensures ParseAt(delta, pos) == Parsed(i, pos + |Print(i)|)
  {
    var end, f := pos + |Print(i)|, delta[pos..pos + 13];
    SplitAt(delta, pos, pos + 13, end);
    match i
    case Copy(offset, size) => FieldsDecode(f, 0, offset, size);
    case Literal(tag, unused, data) =>
      assert f == Print(i)[..13] == Fields(tag, unused, |data|);
      assert delta[pos + 13..end] == Print(i)[13..] == data;
      FieldsDecode(f, tag, unused, |data|);
  }

  /** The instruction printer and parser are inverse, byte string by byte string. */
  lemma ParserInvertsPrinter(delta: seq<byte>)
    ensures Sound(delta, Printable, Print, Parser(delta)) && Complete(delta, Printable, Print, Parser(delta))
  {
    forall p: nat
      ensures var r := ParseAt(delta, p);
              r.Parsed? ==> p <= r.next <= |delta| && Printable(r.item) && delta[p..r.next] == Print(r.item)
    {
      ParseIsPrinted(delta, p);
    }
    forall p: nat, i | Printable(i) && PrintedHere(delta, Print, p, i)
      ensures ParseAt(delta, p) == Parsed(i, p + |Print(i)|)
    {
      PrintedParses(i, delta, p);
    }
  }

  predicate AllPrintable(ins: seq<Instr>) {
    forall k :: 0 <= k < |ins| ==> Printable(ins[k])
  }

  // ---- What instructions do ----

  /** Whether a COPY stays inside the old bytes; without old bytes every COPY is refused, even an empty one. */
  predicate Fits(i: Instr, old_: seq<byte>) {
    i.Copy? ==> |old_| > 0 && i.offset + i.size <= |old_|
  }

  predicate AllFit(ins: seq<Instr>, old_: seq<byte>) {
    forall k :: 0 <= k < |ins| ==> Fits(ins[k], old_)
  }

  function Effect(i: Instr, old_: seq<byte>): seq<byte>
    requires Fits(i, old_)
  {
    if i.Copy? then old_[i.offset..i.offset + i.size] else i.data
  }

  /** The bytes written by running instructions up to the first one that does not fit. */
  function Executed(ins: seq<Instr>, old_: seq<byte>): seq<byte> {
    if ins == [] || !Fits(ins[0], old_) then [] else Effect(ins[0], old_) + Executed(ins[1..], old_)
  }

  lemma {:induction false} ExecutedAppend(a: seq<Instr>, b: seq<Instr>, old_: seq<byte>)
    requires AllFit(a, old_)
    ensures Executed(a + b, old_) == Executed(a, old_) + Executed(b, old_)
  {
    if a == [] {
      assert a + b == b;
    } else {
      HeadOfAppend(a, b);
      ExecutedAppend(a[1..], b, old_);
      Assoc(Effect(a[0], old_), Executed(a[1..], old_), Executed(b, old_));
    }
  }

  // ---- Applying a delta ----

  /** Refused: the output was never opened. Written: what the output holds, and whether the run succeeded. */
  datatype Applied = Refused | Written(ok: bool, out: seq<byte>)

  /** The header's instruction count and old size. */
  function ParseHeader(delta: seq<byte>): (r: Option<(nat, nat)>)
    ensures r.Some? ==> |delta| >= 16
  {
    if |delta| < 16 || FromLE(delta[..4]) != MAGIC then None
    else Some((FromLE(delta[4..8]), FromLE(delta[8..16])))
  }

  /** The old bytes a delta may copy from; a zero size never opens the old file. */
  function OldPrefix(oldFile: Option<seq<byte>>, oldSize: nat): (r: Option<seq<byte>>)
    ensures r.Some? ==> |r.value| == oldSize
  {
    if oldSize == 0 then Some([])
    else if oldFile.None? || |oldFile.value| < oldSize then None
    else Some(oldFile.value[..oldSize])
  }

  function Run(ins: seq<Instr>, count: nat, old_: seq<byte>): Applied {
    Written(|ins| == count && AllFit(ins, old_), Executed(ins, old_))
  }

  function Applying(delta: seq<byte>, oldFile: Option<seq<byte>>): Applied {
    var h := ParseHeader(delta);
    if h.None? then Refused
    else
      var prefix := OldPrefix(oldFile, h.value.1);
      if prefix.None? then Refused
      else Run(Instructions(delta, 16, h.value.0), h.value.0, prefix.value)
  }

  /** The 64-bit range test passes although the range leaves the old bytes: the sum has wrapped around. */
  predicate Strays(i: Instr, old_: seq<byte>) {
    i.Copy? && |old_| > 0 && Wrap64(i.offset + i.size) <= |old_| < i.offset + i.size
  }

  /** The first instruction that does not fit strays. */
  ghost predicate RunStrays(ins: seq<Instr>, old_: seq<byte>) {
    exists k :: 0 <= k < |ins| && Strays(ins[k], old_) && AllFit(ins[..k], old_)
  }

  /** Replaying delta reads outside the old bytes. Otherwise the replay does what Applying says. */
  ghost predicate GoesAstray(delta: seq<byte>, oldFile: Option<seq<byte>>) {
    var h := ParseHeader(delta);
    h.Some? &&
    var prefix := OldPrefix(oldFile, h.value.1);
    prefix.Some? && RunStrays(Instructions(delta, 16, h.value.0), prefix.value)
  }

  /** For a COPY as the format can express it: it strays exactly if there are old bytes, offset plus size reaches 2^64,
      and what is left of the sum is within the old bytes. */
  lemma StraysIff(i: Instr, old_: seq<byte>)
    requires Printable(i) && |old_| < U64_LIMIT
    ensures Strays(i, old_) <==>
            i.Copy? && |old_| > 0 && i.offset + i.size >= U64_LIMIT && i.offset + i.size - U64_LIMIT <= |old_|
  {
    if i.Copy? && i.offset + i.size >= U64_LIMIT {
      assert Wrap64(i.offset + i.size) == i.offset + i.size - U64_LIMIT;
    }
  }

  /** No COPY has offset + size at or above 2^64, so the sum in C does not wrap. */
  ghost predicate NoneWraps(ins: seq<Instr>) {
    forall k :: 0 <= k < |ins| && ins[k].Copy? ==> ins[k].offset + ins[k].size < U64_LIMIT
  }

  /** Whatever the old file, replaying delta reads inside it. */
  ghost predicate NeverAstray(delta: seq<byte>) {
    forall oldFile :: !GoesAstray(delta, oldFile)
  }

  lemma NoWrapNoStray(delta: seq<byte>)
    requires ParseHeader(delta).Some? ==> NoneWraps(Instructions(delta, 16, ParseHeader(delta).value.0))
    ensures NeverAstray(delta)
  {
    forall oldFile ensures !GoesAstray(delta, oldFile) {
    }
  }

  /** The run so far: done has been executed into file, todo is still to be parsed. */
  ghost predicate Progress(ins: seq<Instr>, done: seq<Instr>, todo: seq<Instr>, old_: seq<byte>, file: seq<byte>) {
    && ins == done + todo
    && AllFit(done, old_)
    && Executed(ins, old_) == file + Executed(todo, old_)
  }

  lemma ProgressStep(ins: seq<Instr>, done: seq<Instr>, todo: seq<Instr>, old_: seq<byte>, file: seq<byte>)
    requires Progress(ins, done, todo, old_, file) && todo != [] && Fits(todo[0], old_)
    ensures Progress(ins, done + [todo[0]], todo[1..], old_, file + Effect(todo[0], old_))
  {
    assert todo == [todo[0]] + todo[1..];
    Assoc(done, [todo[0]], todo[1..]);
    Assoc(file, Effect(todo[0], old_), Executed(todo[1..], old_));
  }

  lemma {:induction false} ProgressStops(ins: seq<Instr>, done: seq<Instr>, todo: seq<Instr>, old_: seq<byte>,
                                         file: seq<byte>)
    requires Progress(ins, done, todo, old_, file) && (todo == [] || !Fits(todo[0], old_))
    ensures Executed(ins, old_) == file && (AllFit(ins, old_) <==> todo == [])
  {
    assert file + [] == file && done + [] == done;
    assert todo != [] ==> ins[|done|] == todo[0];
  }

  /** Where the run stops decides whether it has strayed. */
  lemma {:induction false} StopDecides(ins: seq<Instr>, done: seq<Instr>, todo: seq<Instr>, old_: seq<byte>,
                                       file: seq<byte>)
    requires Progress(ins, done, todo, old_, file) && (todo == [] || !Fits(todo[0], old_))
    ensures RunStrays(ins, old_) <==> todo != [] && Strays(todo[0], old_)
  {
    var n := |done|;
    assert ins[..n] == done && forall k :: 0 <= k < n ==> ins[k] == done[k];
    if todo != [] {
      assert ins[n] == todo[0];
      forall k | n < k < |ins| ensures !AllFit(ins[..k], old_) {
        assert ins[..k][n] == todo[0];
      }
    }
  }

  /** The magic is the bytes of "PAFD". */
  lemma MagicBytes(delta: seq<byte>)
    ensures |delta| >= 4 ==> (FromLE(delta[..4]) == MAGIC <==> delta[..4] == [0x50, 0x41, 0x46, 0x44])
  {
    if |delta| >= 4 {
      Pow256Widths();
      LEDecodes(delta[..4], MAGIC, 4);
      assert LE(0x44, 1) == [0x44] + LE(0, 0) == [0x44];
      assert LE(0x4446, 2) == [0x46] + LE(0x44, 1) == [0x46, 0x44];
      assert LE(0x44_4641, 3) == [0x41] + LE(0x4446, 2) == [0x41, 0x46, 0x44];
      assert LE(0x4446_4150, 4) == [0x50] + LE(0x44_4641, 3) == [0x50, 0x41, 0x46, 0x44];
    }
  }

  /** What the C code does with one instruction. */
  datatype Performed = Chunk(data: seq<byte>) | Rejected | OutOfBounds

  /** One instruction, with the 64-bit range test of the C code. */
  method Execute(i: Instr, oldBuf: seq<byte>) returns (p: Performed)
    requires |oldBuf| < U64_LIMIT
    ensures p == if Fits(i, oldBuf) then Chunk(Effect(i, oldBuf))
                 else if Strays(i, oldBuf) then OutOfBounds else Rejected
  {
    match i {
      case Copy(offset, size) =>
        if oldBuf == [] || Wrap64(offset + size) > |oldBuf| { return Rejected; }
        if offset + size > |oldBuf| { return OutOfBounds; }
        return Chunk(oldBuf[offset..offset + size]);
      case Literal(_, _, data) =>
        return Chunk(data);
    }
  }

  /** The instruction loop of paf_bdelta_apply, up to a read outside the old bytes, after which C promises nothing. */
  method RunInstructions(parse: nat -> Parsed<Instr>, count: nat, oldBuf: seq<byte>)
      returns (strayed: bool, ok: bool, file: seq<byte>)
    requires |oldBuf| < U64_LIMIT
    ensures strayed <==> RunStrays(ParseMany(parse, 16, count), oldBuf)
    ensures Written(ok, file) == Run(ParseMany(parse, 16, count), count, oldBuf)
  {
    ghost var ins := ParseMany(parse, 16, count);
    ghost var done, todo, left := [], ins, count;
    var pos, i := 16, 0;
    file := [];
    assert done + ins == ins && file + Executed(ins, oldBuf) == Executed(ins, oldBuf);
    while i < count
      invariant i + left == count && |done| == i && Progress(ins, done, todo, oldBuf, file)
      invariant todo == ParseMany(parse, pos, left)
    {
      var p := parse(pos);
      if p.Malformed? {
        ProgressStops(ins, done, todo, oldBuf, file);
        StopDecides(ins, done, todo, oldBuf, file);
        return false, false, file;
      }
      var Parsed(instr, next) := p;
      assert ins[i] == todo[0] == instr;
      var performed := Execute(instr, oldBuf);
      if !performed.Chunk? {
        ProgressStops(ins, done, todo, oldBuf, file);
        StopDecides(ins, done, todo, oldBuf, file);
        return performed.OutOfBounds?, false, file;
      }
      ProgressStep(ins, done, todo, oldBuf, file);
      done, todo, left := done + [instr], todo[1..], left - 1;
      file, pos, i := file + performed.data, next, i + 1;
    }
    ProgressStops(ins, done, todo, oldBuf, file);
    StopDecides(ins, done, todo, oldBuf, file);
    return false, true, file;
  }

  lemma OldSizeFits(delta: seq<byte>)
    requires |delta| >= 16
    ensures FromLE(delta[8..16]) < U64_LIMIT
  {
    Pow256Widths();
    LEOfFromLE(delta[8..16]);
  }

  /** paf_bdelta_apply on any bytes: out is None when the output file was never opened; strayed tells of a read outside
      the old bytes, which happens exactly if the first instruction that does not fit passes the wrapped range test. */
  method Apply(delta: seq<byte>, oldFile: Option<seq<byte>>)
      returns (strayed: bool, status: int, out: Option<seq<byte>>)
    ensures strayed <==> GoesAstray(delta, oldFile)
    ensures !strayed ==> status == if Applying(delta, oldFile) == Refused || !Applying(delta, oldFile).ok then -1 else 0
    ensures !strayed ==> out == if Applying(delta, oldFile) == Refused then None else Some(Applying(delta, oldFile).out)
    ensures |delta| < 16 || delta[..4] != [0x50, 0x41, 0x46, 0x44] ==> !strayed && status == -1 && out == None
  {
    MagicBytes(delta);
    if |delta| < 16 { return false, -1, None; }
    if FromLE(delta[..4]) != MAGIC { return false, -1, None; }
    var count, oldSize := FromLE(delta[4..8]), FromLE(delta[8..16]);
    assert ParseHeader(delta) == Some((count, oldSize));
    OldSizeFits(delta);
    var oldBuf := [];
    if oldSize > 0 {
      if oldFile.None? || |oldFile.value| < oldSize { return false, -1, None; }
      oldBuf := oldFile.value[..oldSize];
    }
    assert OldPrefix(oldFile, oldSize) == Some(oldBuf);
    var ok, file;
    strayed, ok, file := RunInstructions(Parser(delta), count, oldBuf);
    return strayed, if ok then 0 else -1, Some(file);
  }

  // ---- What the parser accepts ----

  /** The delta starts with a header for these instructions followed by their printed form. */
  ghost predicate IsScript(delta: seq<byte>, oldSize: nat, ins: seq<Instr>) {
    && oldSize < U64_LIMIT && |ins| < U32_LIMIT && AllPrintable(ins)
    && Header(|ins|, oldSize) + PrintMany(Print, ins) <= delta
  }

  /** The old file provides the prefix the header asks for. */
  ghost predicate Provides(oldFile: Option<seq<byte>>, prefix: seq<byte>) {
    prefix == [] || (oldFile.Some? && prefix <= oldFile.value)
  }

  lemma HeaderFields(delta: seq<byte>, count: nat, oldSize: nat)
    requires |delta| >= 16
    requires count < U32_LIMIT && oldSize < U64_LIMIT
    ensures delta[..16] == Header(count, oldSize) <==> ParseHeader(delta) == Some((count, oldSize))
  {
    Pow256Widths();
    var h := delta[..16];
    ThreeParts(h, LE(MAGIC, 4), LE(count, 4), LE(oldSize, 8));
    assert h[..4] == delta[..4] && h[4..8] == delta[4..8] && h[8..16] == delta[8..16];
    LEDecodes(delta[..4], MAGIC, 4);
    LEDecodes(delta[4..8], count, 4);
    LEDecodes(delta[8..16], oldSize, 8);
  }

  /** Scripts are exactly what the header and instruction parsers read back. */
  lemma ScriptIff(delta: seq<byte>, oldSize: nat, ins: seq<Instr>)
    ensures IsScript(delta, oldSize, ins) <==>
            ParseHeader(delta) == Some((|ins|, oldSize)) && Instructions(delta, 16, |ins|) == ins
  {
    if IsScript(delta, oldSize, ins) {
      PrefixParts(Header(|ins|, oldSize), PrintMany(Print, ins), delta);
      HeaderFields(delta, |ins|, oldSize);
      ParserInvertsPrinter(delta);
      ParseOfPrint(delta, Printable, Print, Parser(delta), 16, ins);
    }
    if ParseHeader(delta) == Some((|ins|, oldSize)) && Instructions(delta, 16, |ins|) == ins {
      Pow256Widths();
      LEOfFromLE(delta[4..8]);
      LEOfFromLE(delta[8..16]);
      HeaderFields(delta, |ins|, oldSize);
      ParserInvertsPrinter(delta);
      PrintOfParse(delta, Printable, Print, Parser(delta), 16, |ins|);
      PrefixParts(Header(|ins|, oldSize), PrintMany(Print, ins), delta);
    }
  }

  lemma ProvidedPrefix(oldFile: Option<seq<byte>>, prefix: seq<byte>)
    ensures Provides(oldFile, prefix) <==> OldPrefix(oldFile, |prefix|) == Some(prefix)
  {
    if prefix != [] && oldFile.Some? && |prefix| <= |oldFile.value| {
      assert prefix <= oldFile.value <==> oldFile.value[..|prefix|] == prefix;
    }
  }

  lemma {:induction false} ScriptAccepted(delta: seq<byte>, oldFile: Option<seq<byte>>, prefix: seq<byte>,
                                          ins: seq<Instr>)
    requires IsScript(delta, |prefix|, ins) && Provides(oldFile, prefix) && AllFit(ins, prefix)
    ensures Applying(delta, oldFile) == Written(true, Executed(ins, prefix))
  {
    ScriptIff(delta, |prefix|, ins);
    ProvidedPrefix(oldFile, prefix);
  }

  /** Applying succeeds on exactly the printed in-range scripts, and writes what they stand for. */
  lemma AcceptanceIff(delta: seq<byte>, oldFile: Option<seq<byte>>, out: seq<byte>)
    ensures Applying(delta, oldFile) == Written(true, out) <==>
            exists prefix, ins ::
              IsScript(delta, |prefix|, ins) && Provides(oldFile, prefix) && AllFit(ins, prefix) &&
              Executed(ins, prefix) == out
  {
    if Applying(delta, oldFile) == Written(true, out) {
      var (count, oldSize) := ParseHeader(delta).value;
      var prefix, ins := OldPrefix(oldFile, oldSize).value, Instructions(delta, 16, count);
      ScriptIff(delta, oldSize, ins);
      ProvidedPrefix(oldFile, prefix);
      assert IsScript(delta, |prefix|, ins);
    }
    forall prefix, ins | IsScript(delta, |prefix|, ins) && Provides(oldFile, prefix) && AllFit(ins, prefix)
      ensures Applying(delta, oldFile) == Written(true, Executed(ins, prefix))
    {
      ScriptAccepted(delta, oldFile, prefix, ins);
    }
  }

  // ---- Two deltas at the edge of the range test ----

  /** The delta of 29 bytes that holds one COPY for an old file of ten bytes. */
  function OneCopy(offset: nat, size: nat): seq<byte> {
    Header(1, 10) + Print(Copy(offset, size))
  }

  lemma OneCopyParses(offset: nat, size: nat)
    requires offset < U64_LIMIT && size < U32_LIMIT
    ensures |OneCopy(offset, size)| == 29 && ParseHeader(OneCopy(offset, size)) == Some((1, 10))
    ensures Instructions(OneCopy(offset, size), 16, 1) == [Copy(offset, size)]
  {
    var ins := [Copy(offset, size)];
    assert PrintMany(Print, ins) == Print(ins[0]) + PrintMany(Print, ins[1..]);
    assert PrintMany(Print, ins) == Print(ins[0]);
    ScriptIff(OneCopy(offset, size), 10, ins);
  }

  /** A concrete delta that goes astray: one byte from offset 2^64 - 1. The sum wraps to 0, which passes the test. */
  lemma StrayingDelta(old_: seq<byte>)
    requires |old_| == 10
    ensures GoesAstray(OneCopy(U64_LIMIT - 1, 1), Some(old_))
  {
    OneCopyParses(U64_LIMIT - 1, 1);
    var copy := Copy(U64_LIMIT - 1, 1);
    StraysIff(copy, old_);
    assert old_[..10] == old_;
    assert Instructions(OneCopy(U64_LIMIT - 1, 1), 16, 1)[0] == copy;
  }

  /** A wrapping COPY need not go astray: a hundred bytes from the same offset wrap to 99 and are refused. */
  lemma RefusedWrap(old_: seq<byte>)
    requires |old_| == 10
    ensures !GoesAstray(OneCopy(U64_LIMIT - 1, 100), Some(old_))
    ensures Applying(OneCopy(U64_LIMIT - 1, 100), Some(old_)) == Written(false, [])
  {
    OneCopyParses(U64_LIMIT - 1, 100);
    var copy := Copy(U64_LIMIT - 1, 100);
    StraysIff(copy, old_);
    assert old_[..10] == old_;
  }
}
