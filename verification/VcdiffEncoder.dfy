/**
 * A reference encoder: any instruction list, spelt with any opcodes of the table that match it and any
 * address mode that can express its addresses, decodes to its meaning. The encoder keeps its own
 * address cache; a mode is usable only as far as that cache agrees with the decoder's.
 */
module VcdiffEncoder {
  import opened Bytes
  import Varint
  import T = CodeTable
  import opened F = VcdiffFormat
  import X = VcdiffExec

  // ---------------------------------------------------------------- addresses

  /** Byte `b` selects `addr` in the third of the cache that a SAME mode reads. */
  predicate Selects(c: Cache, mode: nat, b: byte, addr: Word)
    requires 2 + T.NEAR_SIZE <= mode < T.NUM_MODES
  {
    c.same[(mode - 2 - T.NEAR_SIZE) * 256 + b] == addr
  }

  /** A SAME mode can express an address only if its third of the cache holds it; the others always can. */
  ghost predicate Expressible(c: Cache, mode: nat, addr: Word)
  {
    && mode < T.NUM_MODES
    && (mode >= 2 + T.NEAR_SIZE ==> exists b: byte :: Selects(c, mode, b, addr))
  }

  function OffsetOf(c: Cache, here: nat, mode: nat, addr: Word): Word
    requires mode < 2 + T.NEAR_SIZE
  {
    if mode == 0 then addr
    else if mode == 1 then (here - addr) % WORD_LIMIT
    else (addr - c.near[mode - 2]) % WORD_LIMIT
  }

  ghost function EncodeAddr(c: Cache, here: nat, mode: nat, addr: Word): seq<byte>
    requires Expressible(c, mode, addr)
  {
    if mode < 2 + T.NEAR_SIZE then Varint.Write(OffsetOf(c, here, mode, addr))
    else
      var b: byte :| Selects(c, mode, b, addr);
      [b]
  }

  lemma OffsetRoundTrip(c: Cache, here: nat, mode: nat, addr: Word)
    requires mode < 2 + T.NEAR_SIZE
    ensures OffsetAddress(c, here, mode, OffsetOf(c, here, mode, addr)) == addr
  {
  }

  /** Whatever the mode, the decoder with the same cache locates the address that was encoded. */
  lemma AddrRoundTrip(c: Cache, here: nat, mode: nat, addr: Word, rest: seq<byte>)
    requires Expressible(c, mode, addr)
    ensures var a := EncodeAddr(c, here, mode, addr);
            Locate(c, here, mode, a + rest) == Ok(Located(addr, |a|)) && (a + rest)[|a|..] == rest
  {
    if mode < 2 + T.NEAR_SIZE {
      Varint.RoundTrip(OffsetOf(c, here, mode, addr), rest);
      OffsetRoundTrip(c, here, mode, addr);
    }
  }

  // ---------------------------------------------------------------- instructions

  /** The three sections of a window. */
  datatype Code = Code(inst: seq<byte>, data: seq<byte>, addr: seq<byte>)

  /** Half of an opcode can stand for an instruction. */
  ghost predicate Matches(t: T.Template, i: Inst, c: Cache)
  {
    && (match t
        case Noop => false
        case Add(_) => i.Add?
        case Run(_) => i.Run?
        case Copy(_, mode) => i.Copy? && i.addr < WORD_LIMIT && Expressible(c, mode, i.addr))
    && (if t.size == 0 then Size(i) < Varint.VARINT_LIMIT else t.size == Size(i))
  }

  /** The bytes of one instruction, the opcode itself apart. */
  ghost function EncodeInst(t: T.Template, i: Inst, c: Cache, here: nat): Code
    requires Matches(t, i, c)
  {
    Code(
      if t.size == 0 then Varint.Write(Size(i)) else [],
      match i case Add(bytes) => bytes case Run(fill, _) => [fill] case Copy(_, _) => [],
      if i.Copy? then EncodeAddr(c, here, t.mode, i.addr) else [])
  }

  ghost function CacheAfter(c: Cache, i: Inst): Cache
    requires i.Copy? ==> i.addr < WORD_LIMIT
  {
    if i.Copy? then Remember(c, i.addr) else c
  }

  /**
   * The sections of an instruction list under a choice of opcodes, or none if the opcodes do not match.
   * `ts` holds the halves still due of the opcode last emitted.
   */
  ghost function Encode(ts: seq<T.Template>, ops: seq<byte>, insts: seq<Inst>, c: Cache, here: nat): Option<Code>
    decreases |ops|, |ts|
  {
    if ts == [] then
      if ops == [] then if insts == [] then Some(Code([], [], [])) else None
      else
        match Encode(T.Passes(ops[0]), ops[1..], insts, c, here)
        case None => None
        case Some(k) => Some(k.(inst := [ops[0]] + k.inst))
    else if ts[0].Noop? then Encode(ts[1..], ops, insts, c, here)
    else if insts == [] || !Matches(ts[0], insts[0], c) then None
    else
      match Encode(ts[1..], ops, insts[1..], CacheAfter(c, insts[0]), here + Size(insts[0]))
      case None => None
      case Some(k) =>
        var e := EncodeInst(ts[0], insts[0], c, here);
        Some(Code(e.inst + k.inst, e.data + k.data, e.addr + k.addr))
  }

  /** Once its size is known, an encoded instruction is parsed from its data and its address. */
  lemma SizedRoundTrip(t: T.Template, i: Inst, c: Cache, here: nat, k: Code)
    requires Matches(t, i, c)
    ensures var e := EncodeInst(t, i, c, here);
            ParseSized(t, Size(i), Sections(k.inst, e.data + k.data, e.addr + k.addr, c, here)) ==
            Ok(Parsed(i, Sections(k.inst, k.data, k.addr, CacheAfter(c, i), here + Size(i))))
  {
    var e := EncodeInst(t, i, c, here);
    match i
    case Add(bytes) =>
      assert (e.data + k.data)[..|bytes|] == bytes && (e.data + k.data)[|bytes|..] == k.data;
      assert e.addr + k.addr == k.addr;
    case Run(_, _) =>
      assert (e.data + k.data)[1..] == k.data;
      assert e.addr + k.addr == k.addr;
    case Copy(addr, _) =>
      AddrRoundTrip(c, here, t.mode, addr, k.addr);
      assert e.data + k.data == k.data;
  }

  /** After an encoded instruction, decoder and encoder agree on the cache and on what is left. */
  lemma InstRoundTrip(t: T.Template, i: Inst, c: Cache, here: nat, k: Code)
    requires Matches(t, i, c)
    ensures var e := EncodeInst(t, i, c, here);
            ParseInst(t, Sections(e.inst + k.inst, e.data + k.data, e.addr + k.addr, c, here)) ==
            Ok(Parsed(i, Sections(k.inst, k.data, k.addr, CacheAfter(c, i), here + Size(i))))
  {
    var e := EncodeInst(t, i, c, here);
    if t.size == 0 {
      Varint.RoundTrip(Size(i), k.inst);
    }
    assert (e.inst + k.inst)[|e.inst|..] == k.inst;
    SizedRoundTrip(t, i, c, here, k);
  }

  /** Every encoding of an instruction list parses back to that list. */
  lemma {:induction false} EncodeParses(ts: seq<T.Template>, ops: seq<byte>, insts: seq<Inst>, c: Cache, here: nat)
    requires Encode(ts, ops, insts, c, here).Some?
    ensures var k := Encode(ts, ops, insts, c, here).value;
            ParseInsts(ts, Sections(k.inst, k.data, k.addr, c, here)) == Ok(insts)
    decreases |ops|, |ts|
  {
    var k := Encode(ts, ops, insts, c, here).value;
    if ts == [] {
      if ops != [] {
        EncodeParses(T.Passes(ops[0]), ops[1..], insts, c, here);
        assert k.inst[1..] == Encode(T.Passes(ops[0]), ops[1..], insts, c, here).value.inst;
      }
    } else if ts[0].Noop? {
      EncodeParses(ts[1..], ops, insts, c, here);
    } else {
      var i := insts[0];
      var rest := Encode(ts[1..], ops, insts[1..], CacheAfter(c, i), here + Size(i)).value;
      EncodeParses(ts[1..], ops, insts[1..], CacheAfter(c, i), here + Size(i));
      InstRoundTrip(ts[0], i, c, here, rest);
      assert [i] + insts[1..] == insts;
    }
  }

  /** The opcodes that spell any list: variable sizes and absolute addresses. */
  function PlainOps(insts: seq<Inst>): seq<byte>
  {
    if insts == [] then []
    else [PlainOp(insts[0])] + PlainOps(insts[1..])
  }

  function PlainOp(i: Inst): (op: byte)
    ensures T.EntryOf(op).second == T.Noop && T.EntryOf(op).first ==
            match i case Add(_) => T.Add(0) case Run(_, _) => T.Run(0) case Copy(_, _) => T.Copy(0, 0)
  {
    match i
    case Add(_) => T.ADD_ANY
    case Run(_, _) => T.RUN_ANY
    case Copy(_, _) => T.CopyAny(0)
  }

  ghost predicate Encodable(i: Inst)
  {
    Size(i) < Varint.VARINT_LIMIT && (i.Copy? ==> i.addr < WORD_LIMIT)
  }

  /** No list of encodable instructions is out of the encoder's reach. */
  lemma {:induction false} PlainOpsEncode(insts: seq<Inst>, c: Cache, here: nat)
    requires forall n :: 0 <= n < |insts| ==> Encodable(insts[n])
    ensures Encode([], PlainOps(insts), insts, c, here).Some?
  {
    if insts != [] {
      var i, ops := insts[0], PlainOps(insts);
      PlainOpsEncode(insts[1..], CacheAfter(c, i), here + Size(i));
      var ts := T.Passes(ops[0]);
      assert ops[1..] == PlainOps(insts[1..]);
      assert Matches(ts[0], i, c);
      assert ts[1..] == [T.Noop] && ts[1..][1..] == [];
      assert Encode(ts[1..], ops[1..], insts[1..], CacheAfter(c, i), here + Size(i)).Some?;
      assert Encode(ts, ops[1..], insts, c, here).Some?;
    }
  }

  // ---------------------------------------------------------------- windows

  /** One window as a sender chooses it; the bits that the decoder ignores are free. */
  datatype Plan = Plan(
    indicator: byte, segment: Segment, deltaIndicator: byte, ops: seq<byte>, insts: seq<Inst>, checksum: seq<byte>)

  function SegmentLength(s: Segment): nat
  {
    if s.NoSegment? then 0 else s.len
  }

  ghost function PlanCode(p: Plan): Option<Code>
  {
    Encode([], p.ops, p.insts, EmptyCache(), SegmentLength(p.segment))
  }

  function TotalSize(insts: seq<Inst>): nat
  {
    if insts == [] then 0 else Size(insts[0]) + TotalSize(insts[1..])
  }

  ghost function EncodeBody(p: Plan): seq<byte>
    requires PlanCode(p).Some?
  {
    var k := PlanCode(p).value;
    Varint.Write(TotalSize(p.insts)) + ([p.deltaIndicator] + (Varint.Write(|k.data|) + (Varint.Write(|k.inst|)
      + (Varint.Write(|k.addr|) + (k.data + k.inst + k.addr)))))
  }

  /** A window indicator announces the kind of segment, whose fields fit varints. */
  predicate Announces(indicator: byte, s: Segment)
  {
    && (s.FromSource? <==> HasBit(indicator, WIN_SOURCE))
    && (s.FromTarget? <==> !HasBit(indicator, WIN_SOURCE) && HasBit(indicator, WIN_TARGET))
    && (!s.NoSegment? ==> s.pos < Varint.VARINT_LIMIT && s.len < Varint.VARINT_LIMIT)
  }

  /** The indicators agree with the plan, and every length fits a varint. */
  ghost predicate Sendable(p: Plan)
  {
    && PlanCode(p).Some?
    && p.deltaIndicator % DELTA_DECOMP == 0
    && Announces(p.indicator, p.segment)
    && |p.checksum| == (if HasBit(p.indicator, WIN_CHECKSUM) then CHECKSUM_SIZE else 0)
    && TotalSize(p.insts) < Varint.VARINT_LIMIT
    && |EncodeBody(p)| < Varint.VARINT_LIMIT
  }

  ghost function EncodeWindow(p: Plan): seq<byte>
    requires Sendable(p)
  {
    [p.indicator] + (EncodeSegment(p.segment) + (Varint.Write(|EncodeBody(p)|) + (EncodeBody(p) + p.checksum)))
  }

  function EncodeSegment(s: Segment): seq<byte>
  {
    if s.NoSegment? then [] else Varint.Write(s.len) + Varint.Write(s.pos)
  }

  ghost function WindowOf(p: Plan): Window
    requires PlanCode(p).Some?
  {
    var k := PlanCode(p).value;
    Window(p.segment, TotalSize(p.insts), k.data, k.inst, k.addr)
  }

  lemma HeadParses(indicator: byte, s: Segment, rest: seq<byte>)
    requires Announces(indicator, s)
    ensures ParseHead([indicator] + (EncodeSegment(s) + rest)) == Ok(Head(s, HasBit(indicator, WIN_CHECKSUM), rest))
  {
    var fields := EncodeSegment(s) + rest;
    assert ([indicator] + fields)[1..] == fields;
    if s.NoSegment? {
      assert fields == rest;
    } else {
      SegmentFieldsParse(s.len, s.pos, rest);
    }
  }

  lemma LengthsParse(d: nat, i: nat, a: nat, rest: seq<byte>)
    requires d < Varint.VARINT_LIMIT && i < Varint.VARINT_LIMIT && a < Varint.VARINT_LIMIT
    ensures ParseLengths(Varint.Write(d) + (Varint.Write(i) + (Varint.Write(a) + rest))) == Ok(Lengths(d, i, a, rest))
  {
    Varint.RoundTrip(d, Varint.Write(i) + (Varint.Write(a) + rest));
    Varint.RoundTrip(i, Varint.Write(a) + rest);
    Varint.RoundTrip(a, rest);
  }

  lemma OpeningParses(target: nat, indicator: byte, tail: seq<byte>)
    requires target < Varint.VARINT_LIMIT && indicator % DELTA_DECOMP == 0
    ensures ParseOpening(Varint.Write(target) + ([indicator] + tail)) == Ok(Opening(target, tail))
  {
    Varint.RoundTrip(target, [indicator] + tail);
    assert ([indicator] + tail)[1..] == tail;
  }

  lemma CutsConcatenation(seg: Segment, target: nat, d: seq<byte>, i: seq<byte>, a: seq<byte>)
    ensures CutSections(seg, target, Lengths(|d|, |i|, |a|, d + i + a)) == Ok(Window(seg, target, d, i, a))
  {
    var s := d + i + a;
    assert s[..|d|] == d;
    assert s[|d|..|d| + |i|] == i;
    assert s[|d| + |i|..|d| + |i| + |a|] == a;
  }

  lemma SectionsParse(p: Plan)
    requires Sendable(p)
    ensures ParseSections(p.segment, EncodeBody(p)) == Ok(WindowOf(p))
  {
    var k := PlanCode(p).value;
    var sections := k.data + k.inst + k.addr;
    assert |sections| < |EncodeBody(p)|;
    LengthsParse(|k.data|, |k.inst|, |k.addr|, sections);
    CutsConcatenation(p.segment, TotalSize(p.insts), k.data, k.inst, k.addr);
    OpeningParses(TotalSize(p.insts), p.deltaIndicator,
                  Varint.Write(|k.data|) + (Varint.Write(|k.inst|) + (Varint.Write(|k.addr|) + sections)));
  }

  lemma ExtentParses(body: seq<byte>, checksum: seq<byte>, rest: seq<byte>)
    requires |body| < Varint.VARINT_LIMIT && (checksum == [] || |checksum| == CHECKSUM_SIZE)
    ensures ParseExtent(checksum != [], Varint.Write(|body|) + (body + (checksum + rest))) == Ok(Extent(body, rest))
  {
    var p := body + (checksum + rest);
    Varint.RoundTrip(|body|, p);
    assert p[..|body|] == body;
    assert p[|body|..] == checksum + rest;
    assert (checksum + rest)[|checksum|..] == rest;
  }

  /** An encoded window, whatever follows it, parses to the window it encodes. */
  lemma WindowParses(p: Plan, rest: seq<byte>)
    requires Sendable(p)
    ensures var s := EncodeWindow(p) + rest;
            var h := ParseHead(s);
            h.Ok? && ParseBody(h.value) == Ok(Body(WindowOf(p), rest))
  {
    var body := EncodeBody(p);
    var coded := Varint.Write(|body|) + (body + (p.checksum + rest));
    assert EncodeWindow(p) + rest == [p.indicator] + (EncodeSegment(p.segment) + coded) by {
      Assoc([p.indicator], EncodeSegment(p.segment) + (Varint.Write(|body|) + (body + p.checksum)), rest);
      Assoc(EncodeSegment(p.segment), Varint.Write(|body|) + (body + p.checksum), rest);
      Assoc(Varint.Write(|body|), body + p.checksum, rest);
      Assoc(body, p.checksum, rest);
    }
    HeadParses(p.indicator, p.segment, coded);
    ExtentParses(body, p.checksum, rest);
    SectionsParse(p);
  }

  // ---------------------------------------------------------------- files

  ghost function EncodeWindows(ps: seq<Plan>): seq<byte>
    requires forall n :: 0 <= n < |ps| ==> Sendable(ps[n])
  {
    if ps == [] then [] else EncodeWindow(ps[0]) + EncodeWindows(ps[1..])
  }

  ghost function EncodeFile(header: byte, ps: seq<Plan>): seq<byte>
    requires forall n :: 0 <= n < |ps| ==> Sendable(ps[n])
  {
    MAGIC + [header] + EncodeWindows(ps)
  }

  /** What a list of plans means: each window appends the value of its instructions. */
  ghost function PlansMean(source: Option<seq<byte>>, out: seq<byte>, ps: seq<Plan>): Option<seq<byte>>
    decreases |ps|
  {
    if ps == [] then Some(out)
    else
      match SegmentBytes(source, out, ps[0].segment)
      case None => None
      case Some(seg) =>
        match Eval(seg, [], ps[0].insts)
        case None => None
        case Some(t) => PlansMean(source, out + t, ps[1..])
  }

  lemma {:induction false} EvalSize(seg: seq<byte>, tgt: seq<byte>, insts: seq<Inst>)
    ensures var r := Eval(seg, tgt, insts);
            r.Some? ==> |r.value| == |tgt| + TotalSize(insts)
    decreases |insts|
  {
    if insts != [] && Reaches(|seg| + |tgt|, insts[0]) {
      EvalSize(seg, tgt + Yield(seg, tgt, insts[0]), insts[1..]);
    }
  }

  /** The target of an encoded window is the value of its instructions. */
  lemma WindowRoundTrip(source: Option<seq<byte>>, out: seq<byte>, p: Plan)
    requires Sendable(p)
    ensures WindowTarget(source, out, WindowOf(p))
         == match SegmentBytes(source, out, p.segment) case None => None case Some(seg) => Eval(seg, [], p.insts)
  {
    var seg := SegmentBytes(source, out, p.segment);
    if seg.Some? {
      EncodeParses([], p.ops, p.insts, EmptyCache(), |seg.value|);
      EvalSize(seg.value, [], p.insts);
    }
  }

  lemma {:induction false} WindowsRoundTrip(source: Option<seq<byte>>, out: seq<byte>, ps: seq<Plan>)
    requires forall n :: 0 <= n < |ps| ==> Sendable(ps[n])
    ensures var ws := ParseWindows(EncodeWindows(ps));
            ws.Ok? && Output(source, out, ws.value) == PlansMean(source, out, ps)
    decreases |ps|
  {
    if ps != [] {
      WindowParses(ps[0], EncodeWindows(ps[1..]));
      WindowRoundTrip(source, out, ps[0]);
      var t := WindowTarget(source, out, WindowOf(ps[0]));
      WindowsRoundTrip(source, if t.Some? then out + t.value else out, ps[1..]);
      var more := ParseWindows(EncodeWindows(ps[1..])).value;
      assert ([WindowOf(ps[0])] + more)[1..] == more;
    }
  }

  /** The round trip: an encoded delta means, to the decoder's format, what its plans mean. */
  lemma {:induction false} FileRoundTrip(source: Option<seq<byte>>, header: byte, ps: seq<Plan>)
    requires forall n :: 0 <= n < |ps| ==> Sendable(ps[n])
    requires !HasBit(header, HDR_DECOMP) && !HasBit(header, HDR_CODETBL)
    ensures Meaning(source, EncodeFile(header, ps)) == PlansMean(source, [], ps)
  {
    var delta := EncodeFile(header, ps);
    assert delta[..4] == MAGIC && delta[5..] == EncodeWindows(ps);
    WindowsRoundTrip(source, [], ps);
  }

  /** So the decoder, given the room, returns exactly the target the sender had in mind. */
  lemma {:induction false} DecoderRoundTrip(source: Option<seq<byte>>, header: byte, ps: seq<Plan>, cap: nat)
    requires forall n :: 0 <= n < |ps| ==> Sendable(ps[n])
    requires !HasBit(header, HDR_DECOMP) && !HasBit(header, HDR_CODETBL)
    ensures forall out :: X.Exec(source, cap, EncodeFile(header, ps)) == Ok(out) <==>
                          PlansMean(source, [], ps) == Some(out) && |out| <= cap
  {
    FileRoundTrip(source, header, ps);
    X.ExecIsMeaning(source, cap, EncodeFile(header, ps));
  }
}
