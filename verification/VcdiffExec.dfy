/**
 * The decoder as a function: parsing, evaluation and the capacity checks in the order in which the
 * source interleaves them, so that it fails with the same status. It succeeds exactly when the
 * format gives the delta a meaning that fits the buffer.
 */
module VcdiffExec {
  import opened Bytes
  import opened F = VcdiffFormat
  import T = CodeTable
  import Varint

  datatype Stepped = Stepped(rest: Sections, tgt: seq<byte>)

  /** An instruction of known size; `room` is the space from the start of the window to the end of the buffer. */
  function ExecSized(seg: seq<byte>, room: nat, t: T.Template, size: nat, s: Sections, tgt: seq<byte>)
    : (r: Result<Stepped, Error>)
    requires !t.Noop?
    ensures r.Ok? ==> r.value.rest.inst == s.inst && |r.value.tgt| <= room
  {
    var p :- ParseSized(t, size, s);
    if |tgt| + Size(p.inst) > room then Err(OutputFull)
    else if !Reaches(|seg| + |tgt|, p.inst) then Err(Invalid)
    else Ok(Stepped(p.rest, tgt + Yield(seg, tgt, p.inst)))
  }

  /** COPY, as an equation. */
  lemma ExecCopy(seg: seq<byte>, room: nat, t: T.Template, size: nat, s: Sections, tgt: seq<byte>)
    requires t.Copy?
    ensures ExecSized(seg, room, t, size, s, tgt) ==
            var l := Locate(s.cache, s.here, t.mode, s.addr);
            if l.Err? then Err(l.error)
            else if |tgt| + size > room then Err(OutputFull)
            else if !Reaches(|seg| + |tgt|, Copy(l.value.addr, size)) then Err(Invalid)
            else
              var i, cache := Copy(l.value.addr, size), Remember(s.cache, l.value.addr);
              Ok(Stepped(s.(addr := s.addr[l.value.used..], cache := cache, here := s.here + size),
                         tgt + Yield(seg, tgt, i)))
  {
    assert t == T.Copy(t.size, t.mode);
  }

  /** One half of an opcode. */
  function ExecInst(seg: seq<byte>, room: nat, t: T.Template, s: Sections, tgt: seq<byte>): (r: Result<Stepped, Error>)
    requires !t.Noop?
    ensures r.Ok? ==> |r.value.rest.inst| <= |s.inst| && |r.value.tgt| <= room
  {
    var x :- ReadSize(t.size, s.inst);
    ExecSized(seg, room, t, x.value, s.(inst := s.inst[x.size..]), tgt)
  }

  function ExecInsts(seg: seq<byte>, room: nat, ts: seq<T.Template>, s: Sections, tgt: seq<byte>)
    : (r: Result<seq<byte>, Error>)
    decreases |s.inst|, |ts|
  {
    if ts == [] then
      if s.inst == [] then Ok(tgt)
      else ExecInsts(seg, room, T.Passes(s.inst[0]), s.(inst := s.inst[1..]), tgt)
    else if ts[0].Noop? then ExecInsts(seg, room, ts[1..], s, tgt)
    else
      var n :- ExecInst(seg, room, ts[0], s, tgt);
      ExecInsts(seg, room, ts[1..], n.rest, n.tgt)
  }

  /** One step of the instruction loop, as an equation. */
  lemma ExecPass(seg: seq<byte>, room: nat, t: T.Template, ts: seq<T.Template>, s: Sections, tgt: seq<byte>)
    ensures t.Noop? ==> ExecInsts(seg, room, [t] + ts, s, tgt) == ExecInsts(seg, room, ts, s, tgt)
    ensures !t.Noop? ==>
              var n := ExecInst(seg, room, t, s, tgt);
              ExecInsts(seg, room, [t] + ts, s, tgt) ==
              if n.Err? then Err(n.error) else ExecInsts(seg, room, ts, n.value.rest, n.value.tgt)
  {
  }

  /** The target the instructions make, which must come out as long as announced. */
  function ExecTarget(seg: seq<byte>, room: nat, targetLen: nat, s: Sections): Result<seq<byte>, Error>
  {
    var t :- ExecInsts(seg, room, [], s, []);
    if |t| != targetLen then Err(Invalid) else Ok(t)
  }

  /** One window, given its segment and the output before it. */
  function ExecWindow(cap: nat, out: seq<byte>, seg: seq<byte>, w: Window): (r: Result<seq<byte>, Error>)
    requires |out| <= cap
    ensures r.Ok? ==> |out| + |r.value| <= cap
  {
    if |out| + w.targetLen > cap then Err(OutputFull)
    else ExecTarget(seg, cap - |out|, w.targetLen, Start(w, seg))
  }

  /** The windows in `s`, after the output of earlier windows. */
  function ExecWindows(source: Option<seq<byte>>, cap: nat, s: seq<byte>, out: seq<byte>): Result<seq<byte>, Error>
    requires |out| <= cap
    decreases |s|
  {
    if s == [] then Ok(out)
    else
      var h :- ParseHead(s);
      var seg := SegmentBytes(source, out, h.segment);
      if seg.None? then Err(Invalid)
      else
        var b :- ParseBody(h);
        var t :- ExecWindow(cap, out, seg.value, b.window);
        ExecWindows(source, cap, b.rest, out + t)
  }

  function Exec(source: Option<seq<byte>>, cap: nat, delta: seq<byte>): Result<seq<byte>, Error>
  {
    var s :- ParseHeader(delta);
    ExecWindows(source, cap, s, [])
  }

  // ---------------------------------------------------------------- which status

  /** The file header: too short, then the magic, then its two bits. */
  lemma {:induction false} HeaderStatus(source: Option<seq<byte>>, cap: nat, delta: seq<byte>)
    ensures |delta| < 5 ==> Exec(source, cap, delta) == Err(Truncated)
    ensures |delta| >= 5 && delta[..4] != [0xD6, 0xC3, 0xC4, 0] ==> Exec(source, cap, delta) == Err(InvalidMagic)
    ensures |delta| >= 5 && delta[..4] == [0xD6, 0xC3, 0xC4, 0] ==>
              Exec(source, cap, delta) ==
              if delta[4] % 2 == 1 then Err(SecondaryComp)
              else if delta[4] / 2 % 2 == 1 then Err(CustomTable)
              else ExecWindows(source, cap, delta[5..], [])
  {
  }

  /** A window: its head, then the range of its segment, then its body, then its instructions. */
  lemma {:induction false} WindowStatus(source: Option<seq<byte>>, cap: nat, s: seq<byte>, out: seq<byte>)
    requires s != [] && |out| <= cap
    ensures var h, r := ParseHead(s), ExecWindows(source, cap, s, out);
            if h.Err? then r == Err(h.error)
            else if SegmentBytes(source, out, h.value.segment).None? then r == Err(Invalid)
            else if ParseBody(h.value).Err? then r == Err(ParseBody(h.value).error)
            else
              var b, seg := ParseBody(h.value).value, SegmentBytes(source, out, h.value.segment).value;
              var t := ExecInsts(seg, cap - |out|, [], Start(b.window, seg), []);
              if |out| + b.window.targetLen > cap then r == Err(OutputFull)
              else if t.Err? then r == Err(t.error)
              else if |t.value| != b.window.targetLen then r == Err(Invalid)
              else r == ExecWindows(source, cap, b.rest, out + t.value)
  {
  }

  /** ADD and RUN: their data, then the room; a size that is not in the table must be read first. */
  lemma {:induction false} BlockStatus(seg: seq<byte>, room: nat, size: nat, s: Sections, tgt: seq<byte>)
    ensures ExecSized(seg, room, T.Add(0), size, s, tgt) ==
            if |s.data| < size then Err(Invalid)
            else if |tgt| + size > room then Err(OutputFull)
            else Ok(Stepped(s.(data := s.data[size..], here := s.here + size), tgt + s.data[..size]))
    ensures ExecSized(seg, room, T.Run(0), size, s, tgt) ==
            if s.data == [] then Err(Invalid)
            else if |tgt| + size > room then Err(OutputFull)
            else Ok(Stepped(s.(data := s.data[1..], here := s.here + size), tgt + seq(size, _ => s.data[0])))
    ensures Varint.Read(s.inst).None? ==> ExecInst(seg, room, T.Add(0), s, tgt) == Err(Truncated)
  {
  }

  // ---------------------------------------------------------------- exactness

  function Accepted(r: Result<seq<byte>, Error>): Option<seq<byte>>
  {
    if r.Ok? then Some(r.value) else None
  }

  function Within(cap: int, r: Option<seq<byte>>): Option<seq<byte>>
  {
    if r.Some? && |r.value| <= cap then r else None
  }

  /** Interleaved execution succeeds exactly when parsing, then evaluating, succeeds and fits. */
  lemma {:induction false} ExecInstsIsParseThenEval(
    seg: seq<byte>, room: nat, ts: seq<T.Template>, s: Sections, tgt: seq<byte>)
    requires |tgt| <= room
    ensures var r := ParseInsts(ts, s);
            Accepted(ExecInsts(seg, room, ts, s, tgt)) ==
            Within(room, if r.Ok? then Eval(seg, tgt, r.value) else None)
    decreases |s.inst|, |ts|
  {
    if ts == [] {
      if s.inst != [] {
        ExecInstsIsParseThenEval(seg, room, T.Passes(s.inst[0]), s.(inst := s.inst[1..]), tgt);
      }
    } else if ts[0].Noop? {
      ExecInstsIsParseThenEval(seg, room, ts[1..], s, tgt);
    } else {
      var p := ParseInst(ts[0], s);
      if p.Ok? {
        var i := p.value.inst;
        if Reaches(|seg| + |tgt|, i) {
          var tgt' := tgt + Yield(seg, tgt, i);
          if |tgt'| <= room {
            ExecInstsIsParseThenEval(seg, room, ts[1..], p.value.rest, tgt');
          }
        }
        var more := ParseInsts(ts[1..], p.value.rest);
        if more.Ok? {
          assert ([i] + more.value)[1..] == more.value;
        }
      }
    }
  }

  lemma ExecWindowIsTarget(source: Option<seq<byte>>, cap: nat, out: seq<byte>, w: Window)
    requires |out| <= cap
    ensures var seg := SegmentBytes(source, out, w.segment);
            seg.Some? ==>
              Accepted(ExecWindow(cap, out, seg.value, w)) == Within(cap - |out|, WindowTarget(source, out, w))
  {
    var seg := SegmentBytes(source, out, w.segment);
    if seg.Some? {
      ExecInstsIsParseThenEval(seg.value, cap - |out|, [], Start(w, seg.value), []);
    }
  }

  lemma {:induction false} ExecWindowsIsParseThenOutput(
    source: Option<seq<byte>>, cap: nat, s: seq<byte>, out: seq<byte>)
    requires |out| <= cap
    ensures var r := ParseWindows(s);
            Accepted(ExecWindows(source, cap, s, out)) ==
            Within(cap, if r.Ok? then Output(source, out, r.value) else None)
    decreases |s|
  {
    if s != [] && ParseHead(s).Ok? && ParseBody(ParseHead(s).value).Ok? {
      var h := ParseHead(s).value;
      var b := ParseBody(h).value;
      var w, more := b.window, ParseWindows(b.rest);
      SegmentOfBody(h);
      ExecWindowIsTarget(source, cap, out, w);
      if more.Ok? {
        assert ([w] + more.value)[1..] == more.value;
      }
      var t := WindowTarget(source, out, w);
      if t.Some? {
        if more.Ok? {
          OutputGrows(source, out + t.value, more.value);
        }
        if |out + t.value| <= cap {
          ExecWindowsIsParseThenOutput(source, cap, b.rest, out + t.value);
        }
      }
    }
  }

  lemma SegmentOfBody(h: Head)
    ensures ParseBody(h).Ok? ==> ParseBody(h).value.window.segment == h.segment
  {
  }

  /** Windows only append: the output of the windows before stays as it is. */
  lemma {:induction false} OutputGrows(source: Option<seq<byte>>, out: seq<byte>, ws: seq<Window>)
    ensures Output(source, out, ws).Some? ==> out <= Output(source, out, ws).value
    ensures Output(source, out, ws).Some? ==> |Output(source, out, ws).value| == |out| + TotalTarget(ws)
    decreases |ws|
  {
    if ws != [] {
      var t := WindowTarget(source, out, ws[0]);
      if t.Some? {
        OutputGrows(source, out + t.value, ws[1..]);
      }
    }
  }

  function TotalTarget(ws: seq<Window>): nat
  {
    if ws == [] then 0 else ws[0].targetLen + TotalTarget(ws[1..])
  }

  /** The decoder succeeds exactly when the delta has a meaning for the source and the meaning fits. */
  lemma {:induction false} ExecIsMeaning(source: Option<seq<byte>>, cap: nat, delta: seq<byte>)
    ensures Accepted(Exec(source, cap, delta)) == Within(cap, Meaning(source, delta))
  {
    var s := ParseHeader(delta);
    if s.Ok? {
      ExecWindowsIsParseThenOutput(source, cap, s.value, []);
    }
  }

  /** The table has no COPY of an unknown mode. */
  lemma {:induction false} InstsNeverBadOpcode(
    seg: seq<byte>, room: nat, ts: seq<T.Template>, s: Sections, tgt: seq<byte>)
    requires forall k :: 0 <= k < |ts| && ts[k].Copy? ==> ts[k].mode < T.NUM_MODES
    ensures ExecInsts(seg, room, ts, s, tgt) != Err(BadOpcode)
    decreases |s.inst|, |ts|
  {
    if ts == [] {
      if s.inst != [] {
        InstsNeverBadOpcode(seg, room, T.Passes(s.inst[0]), s.(inst := s.inst[1..]), tgt);
      }
    } else if ts[0].Noop? {
      InstsNeverBadOpcode(seg, room, ts[1..], s, tgt);
    } else {
      var n := ExecInst(seg, room, ts[0], s, tgt);
      if n.Ok? {
        InstsNeverBadOpcode(seg, room, ts[1..], n.value.rest, n.value.tgt);
      }
    }
  }

  lemma HeadNeverBadOpcode(s: seq<byte>)
    requires s != []
    ensures ParseHead(s) != Err(BadOpcode)
  {
  }

  lemma BodyNeverBadOpcode(h: Head)
    ensures ParseBody(h) != Err(BadOpcode)
  {
  }

  lemma WindowNeverBadOpcode(cap: nat, out: seq<byte>, seg: seq<byte>, w: Window)
    requires |out| <= cap
    ensures ExecWindow(cap, out, seg, w) != Err(BadOpcode)
  {
    InstsNeverBadOpcode(seg, cap - |out|, [], Start(w, seg), []);
  }

  lemma {:induction false} WindowsNeverBadOpcode(source: Option<seq<byte>>, cap: nat, s: seq<byte>, out: seq<byte>)
    requires |out| <= cap
    ensures ExecWindows(source, cap, s, out) != Err(BadOpcode)
    decreases |s|
  {
    if s != [] {
      HeadNeverBadOpcode(s);
      var h := ParseHead(s);
      if h.Ok? {
        BodyNeverBadOpcode(h.value);
        var b, seg := ParseBody(h.value), SegmentBytes(source, out, h.value.segment);
        if seg.Some? && b.Ok? {
          WindowNeverBadOpcode(cap, out, seg.value, b.value.window);
          var t := ExecWindow(cap, out, seg.value, b.value.window);
          if t.Ok? {
            WindowsNeverBadOpcode(source, cap, b.value.rest, out + t.value);
          }
        }
      }
    }
  }

  /** So no delta at all makes the decoder report a bad opcode. */
  lemma {:induction false} NeverBadOpcode(source: Option<seq<byte>>, cap: nat, delta: seq<byte>)
    ensures Exec(source, cap, delta) != Err(BadOpcode)
  {
    var s := ParseHeader(delta);
    if s.Ok? {
      WindowsNeverBadOpcode(source, cap, s.value, []);
    }
  }
}
