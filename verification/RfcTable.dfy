/**
 * The default instruction table of section 5.6 of RFC 3284, and how far the table that the source builds
 * agrees with it.
 */
module RfcTable {
  import opened Bytes
  import T = CodeTable
  import opened F = VcdiffFormat
  import X = VcdiffExec
  import E = VcdiffEncoder
  import Varint

  /** The default table in closed form. */
  function Standard(op: byte): T.Entry
  {
    if op == 0 then T.Entry(T.Run(0), T.Noop)
    else if op <= 18 then T.Entry(T.Add(op - 1), T.Noop)
    else if op <= 162 then
      var k := op - 19;
      T.Entry(T.Copy(if k % 16 == 0 then 0 else k % 16 + 3, k / 16), T.Noop)
    else if op <= 234 then
      var k := op - 163;
      T.Entry(T.Add(k % 12 / 3 + 1), T.Copy(k % 3 + 4, k / 12))
    else if op <= 246 then
      var k := op - 235;
      T.Entry(T.Add(k % 4 + 1), T.Copy(4, k / 4 + 6))
    else T.Entry(T.Copy(4, op - 247), T.Add(1))
  }

  /** The rows of the table in section 5.6, by their first index. */
  lemma {:induction false} StandardRows(size: nat, mode: nat)
    ensures Standard(0) == T.Entry(T.Run(0), T.Noop)
    ensures size <= 17 ==> Standard(1 + size) == T.Entry(T.Add(size), T.Noop)
    ensures mode < 9 ==> Standard(19 + 16 * mode) == T.Entry(T.Copy(0, mode), T.Noop)
    ensures mode < 9 && 4 <= size <= 18 ==>
              Standard(16 + 16 * mode + size) == T.Entry(T.Copy(size, mode), T.Noop)
    ensures mode < 9 ==> Standard(247 + mode) == T.Entry(T.Copy(4, mode), T.Add(1))
  {
  }

  lemma {:induction false} StandardPairs(size: nat, mode: nat, add: nat)
    requires 1 <= add <= 4
    ensures mode < 6 && 4 <= size <= 6 ==>
              Standard(163 + 12 * mode + 3 * (add - 1) + (size - 4)) == T.Entry(T.Add(add), T.Copy(size, mode))
    ensures 6 <= mode < 9 ==> Standard(235 + 4 * (mode - 6) + (add - 1)) == T.Entry(T.Add(add), T.Copy(4, mode))
  {
  }

  predicate Shared(op: byte)
  {
    1 <= op <= 17 || 19 <= op <= 165 || 232 <= op <= 234 || op == 251
  }

  /** The opcodes for which the two tables have the same entry. */
  lemma SharedExactly(op: byte)
    ensures T.EntryOf(op) == Standard(op) <==> Shared(op)
  {
    if 163 <= op <= 234 {
      AddCopyShared(op - 163);
    }
  }

  /** ADD then COPY: one table varies the size of the ADD slowest, the other the mode of the COPY. */
  lemma AddCopyShared(k: nat)
    requires k < 72
    ensures k / 18 == k % 12 / 3 && k % 18 / 3 == k / 12 <==> k < 3 || k >= 69
  {
    var add, mode := k / 18, k / 12;
    assert 18 * add <= k < 18 * add + 18 && 12 * mode <= k < 12 * mode + 12;
    if k < 36 {
      assert add < 2 && mode < 3;
    } else {
      assert 2 <= add < 4 && 3 <= mode < 6;
    }
  }

  // ---------------------------------------------------------------- a decoder with the default table

  /** `ParseInsts` under the default table. */
  function ParseInstsStandard(ts: seq<T.Template>, s: Sections): Result<seq<Inst>, Error>
    decreases |s.inst|, |ts|
  {
    if ts == [] then
      if s.inst == [] then Ok([])
      else
        var e := Standard(s.inst[0]);
        ParseInstsStandard([e.first, e.second], s.(inst := s.inst[1..]))
    else if ts[0].Noop? then ParseInstsStandard(ts[1..], s)
    else
      var p :- ParseInst(ts[0], s);
      var more :- ParseInstsStandard(ts[1..], p.rest);
      Ok([p.inst] + more)
  }

  function WindowTargetStandard(source: Option<seq<byte>>, out: seq<byte>, w: Window): Option<seq<byte>>
  {
    match SegmentBytes(source, out, w.segment)
    case None => None
    case Some(seg) =>
      match ParseInstsStandard([], Start(w, seg))
      case Err(_) => None
      case Ok(insts) =>
        var t := Eval(seg, [], insts);
        if t.Some? && |t.value| == w.targetLen then t else None
  }

  function OutputStandard(source: Option<seq<byte>>, out: seq<byte>, ws: seq<Window>): Option<seq<byte>>
    decreases |ws|
  {
    if ws == [] then Some(out)
    else
      match WindowTargetStandard(source, out, ws[0])
      case None => None
      case Some(t) => OutputStandard(source, out + t, ws[1..])
  }

  /** What a delta means to a decoder with the default table. */
  function MeaningStandard(source: Option<seq<byte>>, delta: seq<byte>): Option<seq<byte>>
  {
    match ParseFile(delta)
    case Err(_) => None
    case Ok(ws) => OutputStandard(source, [], ws)
  }

  // ---------------------------------------------------------------- agreement

  /** The opcodes of an instruction section, as far as its sizes can be read. */
  function Opcodes(ts: seq<T.Template>, inst: seq<byte>): seq<byte>
    decreases |inst|, |ts|
  {
    if ts == [] then
      if inst == [] then [] else [inst[0]] + Opcodes(T.Passes(inst[0]), inst[1..])
    else if ts[0].Noop? then Opcodes(ts[1..], inst)
    else
      match ReadSize(ts[0].size, inst)
      case Err(_) => []
      case Ok(x) => Opcodes(ts[1..], inst[x.size..])
  }

  predicate AllShared(ops: seq<byte>)
  {
    forall i :: 0 <= i < |ops| ==> Shared(ops[i])
  }

  lemma {:induction false} ParsesAlike(ts: seq<T.Template>, s: Sections)
    requires AllShared(Opcodes(ts, s.inst))
    ensures ParseInstsStandard(ts, s) == ParseInsts(ts, s)
    decreases |s.inst|, |ts|
  {
    if ts == [] {
      if s.inst != [] {
        var op, rest := s.inst[0], Opcodes(T.Passes(s.inst[0]), s.inst[1..]);
        assert ([op] + rest)[0] == op && ([op] + rest)[1..] == rest;
        SharedExactly(op);
        ParsesAlike(T.Passes(op), s.(inst := s.inst[1..]));
      }
    } else if ts[0].Noop? {
      ParsesAlike(ts[1..], s);
    } else {
      var p := ParseInst(ts[0], s);
      if p.Ok? {
        ParsesAlike(ts[1..], p.value.rest);
      }
    }
  }

  lemma TargetsAlike(source: Option<seq<byte>>, out: seq<byte>, w: Window)
    requires AllShared(Opcodes([], w.inst))
    ensures WindowTargetStandard(source, out, w) == WindowTarget(source, out, w)
  {
    var seg := SegmentBytes(source, out, w.segment);
    if seg.Some? {
      ParsesAlike([], Start(w, seg.value));
    }
  }

  lemma {:induction false} OutputsAlike(source: Option<seq<byte>>, out: seq<byte>, ws: seq<Window>)
    requires forall i :: 0 <= i < |ws| ==> AllShared(Opcodes([], ws[i].inst))
    ensures OutputStandard(source, out, ws) == Output(source, out, ws)
    decreases |ws|
  {
    if ws != [] {
      TargetsAlike(source, out, ws[0]);
      var t := WindowTarget(source, out, ws[0]);
      if t.Some? {
        OutputsAlike(source, out + t.value, ws[1..]);
      }
    }
  }

  /** A delta of shared opcodes only means to the decoder what it means under the default table. */
  lemma {:induction false} SharedOpcodesMeanTheSame(source: Option<seq<byte>>, cap: nat, delta: seq<byte>)
    requires ParseFile(delta).Ok? ==> forall w :: w in ParseFile(delta).value ==> AllShared(Opcodes([], w.inst))
    ensures MeaningStandard(source, delta) == Meaning(source, delta)
    ensures X.Accepted(X.Exec(source, cap, delta)) == X.Within(cap, MeaningStandard(source, delta))
  {
    var ws := ParseFile(delta);
    if ws.Ok? {
      assert forall i :: 0 <= i < |ws.value| ==> ws.value[i] in ws.value;
      OutputsAlike(source, [], ws.value);
    }
    X.ExecIsMeaning(source, cap, delta);
  }

  // ---------------------------------------------------------------- a delta of one RUN

  /** One window without a segment whose only instruction is a RUN of five bytes, as the default table spells it. */
  function RunDelta(fill: byte): seq<byte>
  {
    MAGIC + [0, 0, 8, 5, 0, 1, 2, 0, fill, 0, 5]
  }

  function RunWindow(fill: byte): Window
  {
    Window(NoSegment, 5, [fill], [0, 5], [])
  }

  lemma SmallVarint(v: nat)
    requires v < 128
    ensures Varint.Write(v) == [v]
  {
    assert Varint.HighGroups(0) == [];
  }

  lemma RunOpeningParses(s: seq<byte>, rest: seq<byte>)
    requires s == [5, 0] + rest
    ensures ParseOpening(s) == Ok(Opening(5, rest))
  {
    SmallVarint(5);
    assert s == Varint.Write(5) + ([0] + rest);
    E.OpeningParses(5, 0, rest);
  }

  lemma RunLengthsParse(s: seq<byte>, rest: seq<byte>)
    requires s == [1, 2, 0] + rest
    ensures ParseLengths(s) == Ok(Lengths(1, 2, 0, rest))
  {
    SmallVarint(0);
    SmallVarint(1);
    SmallVarint(2);
    assert s == Varint.Write(1) + (Varint.Write(2) + (Varint.Write(0) + rest));
    E.LengthsParse(1, 2, 0, rest);
  }

  lemma RunCuts(fill: byte, s: seq<byte>)
    requires s == [fill, 0, 5]
    ensures CutSections(NoSegment, 5, Lengths(1, 2, 0, s)) == Ok(RunWindow(fill))
  {
    var data: seq<byte>, inst: seq<byte>, none: seq<byte> := [fill], [0, 5], [];
    assert s == data + inst + none;
    E.CutsConcatenation(NoSegment, 5, data, inst, none);
  }

  lemma RunSectionsParse(fill: byte, s: seq<byte>)
    requires s == [5, 0, 1, 2, 0, fill, 0, 5]
    ensures ParseSections(NoSegment, s) == Ok(RunWindow(fill))
  {
    var sections: seq<byte> := [fill, 0, 5];
    var lengths := [1, 2, 0] + sections;
    assert s == [5, 0] + lengths;
    RunOpeningParses(s, lengths);
    RunLengthsParse(lengths, sections);
    RunCuts(fill, sections);
  }

  lemma RunBodyParses(fill: byte, s: seq<byte>)
    requires s == [8, 5, 0, 1, 2, 0, fill, 0, 5]
    ensures ParseBody(Head(NoSegment, false, s)) == Ok(Body(RunWindow(fill), []))
  {
    var body: seq<byte>, none: seq<byte> := [5, 0, 1, 2, 0, fill, 0, 5], [];
    SmallVarint(8);
    E.ExtentParses(body, none, none);
    assert s == Varint.Write(8) + (body + (none + none));
    RunSectionsParse(fill, body);
  }

  lemma PlainHeadParses(s: seq<byte>, rest: seq<byte>)
    requires s == [0] + rest
    ensures ParseHead(s) == Ok(Head(NoSegment, false, rest))
  {
    assert s[1..] == rest;
  }

  lemma RunDeltaParses(fill: byte)
    ensures var s := RunDelta(fill)[5..];
            ParseHeader(RunDelta(fill)) == Ok(s) && s == [0, 8, 5, 0, 1, 2, 0, fill, 0, 5]
  {
    assert RunDelta(fill)[..4] == MAGIC;
  }

  lemma RunWindowsParse(fill: byte, s: seq<byte>)
    requires s == [0, 8, 5, 0, 1, 2, 0, fill, 0, 5]
    ensures ParseWindows(s) == Ok([RunWindow(fill)])
  {
    var none: seq<Window> := [];
    var rest: seq<byte> := [8, 5, 0, 1, 2, 0, fill, 0, 5];
    assert s == [0] + rest;
    PlainHeadParses(s, rest);
    RunBodyParses(fill, rest);
    assert ParseWindows([]) == Ok(none) && [RunWindow(fill)] + none == [RunWindow(fill)];
  }

  lemma RunInstParses(fill: byte, t: Sections)
    requires t == Sections([5], [fill], [], EmptyCache(), 0)
    ensures ParseInst(T.Run(0), t) == Ok(Parsed(Run(fill, 5), Sections([], [], [], EmptyCache(), 5)))
  {
    SmallVarint(5);
    Varint.RoundTrip(5, []);
    assert [5] + [] == Varint.Write(5) && t.inst[1..] == [] && t.data[1..] == [];
  }

  lemma RunParsesStandard(fill: byte)
    ensures ParseInstsStandard([], Start(RunWindow(fill), [])) == Ok([Run(fill, 5)])
  {
    var s := Start(RunWindow(fill), []);
    var t, done := s.(inst := [5]), Sections([], [], [], EmptyCache(), 5);
    RunInstParses(fill, t);
    assert [T.Run(0), T.Noop][1..] == [T.Noop] && [T.Noop][1..] == [];
    assert ParseInstsStandard([T.Noop], done) == ParseInstsStandard([], done) == Ok([]);
    var run: seq<Inst> := [Run(fill, 5)];
    assert run + [] == run && s.(inst := s.inst[1..]) == t;
    assert ParseInstsStandard([T.Run(0), T.Noop], t) == Ok(run + []);
  }

  /** To the source the opcode of the RUN is nothing and its size an ADD of four bytes. */
  lemma RunParses(fill: byte)
    ensures ParseInsts([], Start(RunWindow(fill), [])) == Err(Invalid)
  {
    var s := Start(RunWindow(fill), []);
    var t := s.(inst := [5]);
    assert s.(inst := s.inst[1..]) == t && t.inst[1..] == [];
    assert [T.Noop, T.Noop][1..] == [T.Noop] && [T.Noop][1..] == [];
    assert ParseInsts(T.Passes(5), t.(inst := [])) == Err(Invalid);
    assert ParseInsts(T.Passes(0), t) == ParseInsts([T.Noop], t) == ParseInsts([], t);
  }

  lemma RunExecutes(fill: byte, room: nat)
    ensures X.ExecInsts([], room, [], Start(RunWindow(fill), []), []) == Err(Invalid)
  {
    var s := Start(RunWindow(fill), []);
    var t := s.(inst := [5]);
    assert s.(inst := s.inst[1..]) == t && t.inst[1..] == [];
    assert [T.Noop, T.Noop][1..] == [T.Noop] && [T.Noop][1..] == [];
    assert X.ExecInsts([], room, T.Passes(5), t.(inst := []), []) == Err(Invalid);
    assert X.ExecInsts([], room, T.Passes(0), t, []) == X.ExecInsts([], room, [T.Noop], t, []);
  }

  lemma RunTargets(source: Option<seq<byte>>, fill: byte)
    ensures WindowTargetStandard(source, [], RunWindow(fill)) == Some(Fill(fill, 5))
    ensures WindowTarget(source, [], RunWindow(fill)) == None
  {
    RunParsesStandard(fill);
    RunParses(fill);
    var run: seq<Inst>, none: seq<byte> := [Run(fill, 5)], [];
    assert run[1..] == [] && none + Fill(fill, 5) == Fill(fill, 5);
    assert Eval(none, none, run) == Some(Fill(fill, 5));
  }

  lemma RunFails(source: Option<seq<byte>>, cap: nat, fill: byte, s: seq<byte>)
    requires s == [0, 8, 5, 0, 1, 2, 0, fill, 0, 5]
    ensures X.ExecWindows(source, cap, s, []) == Err(if cap < 5 then OutputFull else Invalid)
  {
    var rest: seq<byte> := [8, 5, 0, 1, 2, 0, fill, 0, 5];
    assert s == [0] + rest;
    PlainHeadParses(s, rest);
    RunBodyParses(fill, rest);
    RunExecutes(fill, cap);
    assert X.ExecWindow(cap, [], [], RunWindow(fill)) == Err(if cap < 5 then OutputFull else Invalid);
  }

  /** The output of a single window is its target. */
  lemma OneWindow(source: Option<seq<byte>>, ws: seq<Window>, t: Option<seq<byte>>)
    requires |ws| == 1
    ensures WindowTarget(source, [], ws[0]) == t ==> Output(source, [], ws) == t
    ensures WindowTargetStandard(source, [], ws[0]) == t ==> OutputStandard(source, [], ws) == t
  {
    assert ws[1..] == [];
    if t.Some? {
      var none: seq<byte> := [];
      assert none + t.value == t.value;
    }
  }

  lemma RunFileParses(fill: byte)
    ensures ParseFile(RunDelta(fill)) == Ok([RunWindow(fill)])
  {
    RunDeltaParses(fill);
    RunWindowsParse(fill, RunDelta(fill)[5..]);
  }

  /** A delta that is five bytes under the default table means nothing to the source, which refuses it. */
  lemma StandardRunIsRefused(source: Option<seq<byte>>, cap: nat, fill: byte)
    ensures MeaningStandard(source, RunDelta(fill)) == Some(Fill(fill, 5))
    ensures Meaning(source, RunDelta(fill)) == None
    ensures X.Exec(source, cap, RunDelta(fill)) == Err(if cap < 5 then OutputFull else Invalid)
  {
    RunFileParses(fill);
    OneWindow(source, [RunWindow(fill)], None);
    OneWindow(source, [RunWindow(fill)], Some(Fill(fill, 5)));
    RunTargets(source, fill);
    RunDeltaParses(fill);
    RunFails(source, cap, fill, RunDelta(fill)[5..]);
  }
}
