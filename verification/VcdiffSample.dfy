/** One delta in full, byte by byte: a COPY by address, and one of the same address by the SAME cache. */
module VcdiffSample {
  import opened Bytes
  import Varint
  import T = CodeTable
  import opened F = VcdiffFormat
  import X = VcdiffExec
  import E = VcdiffEncoder

  /** A window over the first ten bytes of the source, with a checksum of four bytes, whatever they are. */
  function Delta(check: seq<byte>): seq<byte>
  {
    [0xD6, 0xC3, 0xC4, 0x00, 0x00] + ([5, 10, 0] + ([11] + (Encoding() + check)))
  }

  /** Target length, indicator, three lengths, then COPY 2 in mode 0, COPY 2 in mode 6, and the two addresses. */
  function Encoding(): seq<byte>
  {
    [4, 0, 0, 4, 2, 19, 2, 115, 2, 4, 4]
  }

  function TheWindow(): Window
  {
    Window(FromSource(0, 10), 4, [], [19, 2, 115, 2], [4, 4])
  }

  lemma Small(v: nat)
    requires v < 128
    ensures Varint.Write(v) == [v]
  {
    assert Varint.HighGroups(0) == [];
  }

  lemma OpeningParses(s: seq<byte>, rest: seq<byte>)
    requires s == [4, 0] + rest
    ensures ParseOpening(s) == Ok(Opening(4, rest))
  {
    Small(4);
    assert s == Varint.Write(4) + ([0] + rest);
    E.OpeningParses(4, 0, rest);
  }

  lemma LengthsParse(s: seq<byte>, rest: seq<byte>)
    requires s == [0, 4, 2] + rest
    ensures ParseLengths(s) == Ok(Lengths(0, 4, 2, rest))
  {
    Small(0);
    Small(4);
    Small(2);
    assert s == Varint.Write(0) + (Varint.Write(4) + (Varint.Write(2) + rest));
    E.LengthsParse(0, 4, 2, rest);
  }

  lemma Cuts(s: seq<byte>)
    requires s == [19, 2, 115, 2, 4, 4]
    ensures CutSections(FromSource(0, 10), 4, Lengths(0, 4, 2, s)) == Ok(TheWindow())
  {
    var data: seq<byte>, inst: seq<byte>, addr: seq<byte> := [], [19, 2, 115, 2], [4, 4];
    assert s == data + inst + addr;
    E.CutsConcatenation(FromSource(0, 10), 4, data, inst, addr);
  }

  lemma SectionsParse(s: seq<byte>)
    requires s == Encoding()
    ensures ParseSections(FromSource(0, 10), s) == Ok(TheWindow())
  {
    var sections: seq<byte> := [19, 2, 115, 2, 4, 4];
    var lengths := [0, 4, 2] + sections;
    assert s == [4, 0] + lengths;
    OpeningParses(s, lengths);
    LengthsParse(lengths, sections);
    Cuts(sections);
  }

  lemma BodyParses(check: seq<byte>, s: seq<byte>)
    requires |check| == 4 && s == [11] + (Encoding() + check)
    ensures ParseBody(Head(FromSource(0, 10), true, s)) == Ok(Body(TheWindow(), []))
  {
    Small(11);
    ExtentFails(true, 11, Encoding() + check);
    assert (Encoding() + check)[..11] == Encoding();
    SectionsParse(Encoding());
  }

  lemma HeadParses(s: seq<byte>, rest: seq<byte>)
    requires s == [5, 10, 0] + rest
    ensures ParseHead(s) == Ok(Head(FromSource(0, 10), true, rest))
  {
    var fields := Varint.Write(10) + Varint.Write(0) + rest;
    assert fields == [10, 0] + rest by {
      Small(10);
      Small(0);
    }
    assert s == [5] + fields;
    HeadFields(5, 10, 0, rest);
  }

  lemma HeaderParses(check: seq<byte>)
    ensures ParseHeader(Delta(check)) == Ok([5, 10, 0] + ([11] + (Encoding() + check)))
  {
    var delta := Delta(check);
    assert delta[..4] == [0xD6, 0xC3, 0xC4, 0x00] && delta[4] == 0;
    assert delta[5..] == [5, 10, 0] + ([11] + (Encoding() + check));
  }

  lemma FileParses(check: seq<byte>)
    requires |check| == 4
    ensures ParseFile(Delta(check)) == Ok([TheWindow()])
  {
    HeaderParses(check);
    WindowsParse(check, [11] + (Encoding() + check));
  }

  lemma WindowsParse(check: seq<byte>, rest: seq<byte>)
    requires |check| == 4 && rest == [11] + (Encoding() + check)
    ensures ParseWindows([5, 10, 0] + rest) == Ok([TheWindow()])
  {
    HeadParses([5, 10, 0] + rest, rest);
    BodyParses(check, rest);
    NoMore([5, 10, 0] + rest);
  }

  lemma NoMore(s: seq<byte>)
    requires s != [] && ParseHead(s).Ok? && ParseBody(ParseHead(s).value) == Ok(Body(TheWindow(), []))
    ensures ParseWindows(s) == Ok([TheWindow()])
  {
    var none: seq<Window> := [];
    assert ParseWindows([]) == Ok(none) && [TheWindow()] + none == [TheWindow()];
  }

  // ---------------------------------------------------------------- the two instructions

  /** The sections after the first COPY. */
  function Second(): Sections
  {
    Sections([115, 2], [], [4], Remember(EmptyCache(), 4), 12)
  }

  lemma FirstCopy()
    ensures ParseInst(T.Copy(0, 0), Sections([2, 115, 2], [], [4, 4], EmptyCache(), 10)) ==
            Ok(Parsed(Copy(4, 2), Second()))
  {
    Varint.OneByte(2, [115, 2]);
    Varint.OneByte(4, [4]);
    var inst: seq<byte>, addr: seq<byte> := [2, 115, 2], [4, 4];
    assert [2] + [115, 2] == inst && [4] + [4] == addr && inst[1..] == [115, 2] && addr[1..] == [4];
  }

  lemma SecondCopy()
    ensures ParseInst(T.Copy(0, 6), Second().(inst := [2])) ==
            Ok(Parsed(Copy(4, 2), Sections([], [], [], Remember(Remember(EmptyCache(), 4), 4), 14)))
  {
    Varint.OneByte(2, []);
    JustCopiedIsLocated(EmptyCache(), 4, 12, []);
    var inst: seq<byte>, addr: seq<byte> := [2], [4];
    assert [2] + [] == inst && [4] + [] == addr && inst[1..] == [] && addr[1..] == [];
  }

  lemma OneOpcode(op: byte, mode: nat, s: Sections, p: Parsed)
    requires mode < 9 && op == 19 + 16 * mode && s.inst != [] && s.inst[0] == op
    requires ParseInst(T.Copy(0, mode), s.(inst := s.inst[1..])) == Ok(p)
    ensures ParseInsts([], s) ==
            var more := ParseInsts([], p.rest);
            if more.Err? then Err(more.error) else Ok([p.inst] + more.value)
  {
    T.Layout(0, mode);
    var ts := T.Passes(op);
    assert ts == [T.Copy(0, mode), T.Noop] && ts[1..] == [T.Noop] && [T.Noop][1..] == [];
    assert ParseInsts([T.Noop], p.rest) == ParseInsts([], p.rest);
  }

  lemma InstsParse()
    ensures ParseInsts([], Sections([19, 2, 115, 2], [], [4, 4], EmptyCache(), 10)) == Ok([Copy(4, 2), Copy(4, 2)])
  {
    var s := Sections([19, 2, 115, 2], [], [4, 4], EmptyCache(), 10);
    var done := Sections([], [], [], Remember(Remember(EmptyCache(), 4), 4), 14);
    var c: Inst, none: seq<Inst> := Copy(4, 2), [];
    FirstCopy();
    assert s.inst[1..] == [2, 115, 2];
    OneOpcode(19, 0, s, Parsed(c, Second()));
    SecondCopy();
    assert Second().inst[1..] == [2];
    OneOpcode(115, 6, Second(), Parsed(c, done));
    assert ParseInsts([], done) == Ok(none) && [c] + none == [c] && [c] + [c] == [c, c];
  }

  lemma CopyYields(seg: seq<byte>, tgt: seq<byte>)
    requires |seg| == 10
    ensures Yield(seg, tgt, Copy(4, 2)) == [seg[4], seg[5]]
  {
    var u := seg + tgt;
    ModStep(0, |u| - 4);
    ModStep(1, |u| - 4);
    assert u[4] == seg[4] && u[5] == seg[5];
  }

  lemma CopiesMean(seg: seq<byte>)
    requires |seg| == 10
    ensures Eval(seg, [], [Copy(4, 2), Copy(4, 2)]) == Some([seg[4], seg[5], seg[4], seg[5]])
  {
    var c: Inst, once: seq<byte> := Copy(4, 2), [seg[4], seg[5]];
    CopyYields(seg, []);
    CopyYields(seg, once);
    EvalOne(seg, [], c, [c], once);
    EvalOne(seg, once, c, [], [seg[4], seg[5], seg[4], seg[5]]);
  }

  lemma EvalOne(seg: seq<byte>, tgt: seq<byte>, c: Inst, more: seq<Inst>, next: seq<byte>)
    requires Reaches(|seg| + |tgt|, c) && next == tgt + Yield(seg, tgt, c)
    ensures Eval(seg, tgt, [c] + more) == Eval(seg, next, more)
  {
    assert ([c] + more)[1..] == more;
  }

  lemma WindowMeans(source: seq<byte>)
    requires |source| >= 10
    ensures WindowTarget(Some(source), [], TheWindow()) == Some([source[4], source[5], source[4], source[5]])
  {
    var seg := source[0..10];
    assert SegmentBytes(Some(source), [], FromSource(0, 10)) == Some(seg);
    InstsParse();
    CopiesMean(seg);
  }

  /** Bytes 4 and 5 of the source, twice: the second time the address comes from the cache. */
  lemma DeltaMeans(source: seq<byte>, check: seq<byte>, cap: nat)
    requires |source| >= 10 && |check| == 4
    ensures Meaning(Some(source), Delta(check)) == Some([source[4], source[5], source[4], source[5]])
    ensures X.Accepted(X.Exec(Some(source), cap, Delta(check))) ==
            if cap < 4 then None else Some([source[4], source[5], source[4], source[5]])
  {
    FileParses(check);
    WindowMeans(source);
    OneWindow(Some(source), [TheWindow()], Some([source[4], source[5], source[4], source[5]]));
    X.ExecIsMeaning(Some(source), cap, Delta(check));
  }

  lemma OneWindow(source: Option<seq<byte>>, ws: seq<Window>, t: Option<seq<byte>>)
    requires |ws| == 1 && WindowTarget(source, [], ws[0]) == t
    ensures Output(source, [], ws) == t
  {
    assert ws[1..] == [];
    if t.Some? {
      var none: seq<byte> := [];
      assert none + t.value == t.value;
    }
  }
}
