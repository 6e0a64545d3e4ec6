/**
 * The decoder over buffers: cursors into the delta, an address cache and an output array that are
 * changed in place, and a segment that may lie inside the output array itself.
 */
module VcdiffDecoder {
  import opened Bytes
  import Varint
  import T = CodeTable
  import opened F = VcdiffFormat
  import opened X = VcdiffExec

  class Decoder {
    const source: Option<seq<byte>>
    const delta: seq<byte>
    const output: array<byte>
    const cap: nat
    const near: array<Word>
    const same: array<Word>
    var nearNext: nat
    var outPos: nat
    var segment: Segment
    var windowStart: nat
    var written: nat
    var dataCur: nat
    var dataEnd: nat
    var instCur: nat
    var instEnd: nat
    var addrCur: nat
    var addrEnd: nat

    ghost predicate Valid()
      reads this
    {
      && cap <= output.Length
      && near.Length == T.NEAR_SIZE && same.Length == SAME_SLOTS && near != same
      && output as object !in {near, same}
      && outPos == windowStart + written <= cap
      && nearNext < T.NEAR_SIZE
      && dataCur <= dataEnd <= |delta|
      && instCur <= instEnd <= |delta|
      && addrCur <= addrEnd <= |delta|
      && match segment {
           case NoSegment => true
           case FromSource(pos, len) => source.Some? && pos + len <= |source.value|
           case FromTarget(pos, len) => pos + len <= windowStart
         }
    }

    /** Everything written so far; the current window's target is its tail. */
    ghost function Out(): seq<byte>
      requires Valid()
      reads this, output
    {
      output[..outPos]
    }

    ghost function Seg(): seq<byte>
      requires Valid()
      reads this, output
    {
      SegmentBytes(source, Out()[..windowStart], segment).value
    }

    ghost function Tgt(): seq<byte>
      requires Valid()
      reads this, output
    {
      Out()[windowStart..]
    }

    ghost function Cache(): F.Cache
      requires Valid()
      reads this, near, same
    {
      CacheData(near[..], nearNext, same[..])
    }

    ghost function Rest(): Sections
      requires Valid()
      reads this, near, same, output
    {
      Sections(delta[instCur..instEnd], delta[dataCur..dataEnd], delta[addrCur..addrEnd], Cache(), |Seg()| + written)
    }

    function SegLen(): nat
      reads this
    {
      if segment.NoSegment? then 0 else segment.len
    }

    constructor (source: Option<seq<byte>>, delta: seq<byte>, output: array<byte>, cap: nat)
      requires cap <= output.Length
      ensures Valid() && outPos == 0 && fresh(near) && fresh(same)
      ensures this.source == source && this.delta == delta && this.output == output && this.cap == cap
    {
      this.source, this.delta, this.output, this.cap := source, delta, output, cap;
      near, same := new Word[T.NEAR_SIZE](_ => 0), new Word[SAME_SLOTS](_ => 0);
      nearNext, outPos, windowStart, written, segment := 0, 0, 0, 0, NoSegment;
      dataCur, dataEnd, instCur, instEnd, addrCur, addrEnd := 0, 0, 0, 0, 0, 0;
    }

    /** Reads one varint field and moves past it. */
    method ReadField(pos: nat, end: nat) returns (st: Status, value: nat, next: nat)
      requires pos <= end <= |delta|
      ensures match ReadVarint(delta[pos..end])
              case Err(e) => st == e
              case Ok(x) => st == OK && value == x.value && next == pos + x.size <= end
                            && delta[next..end] == delta[pos..end][x.size..]
      ensures st == OK || st == Truncated
    {
      var n, v := Varint.ReadAt(delta, pos, end);
      if n == 0 {
        return Truncated, 0, pos;
      }
      return OK, v, pos + n;
    }

    /** A block write at the output cursor, as `memcpy` and `memset` do it. */
    method Append(bytes: seq<byte>)
      requires Valid() && outPos + |bytes| <= cap
      modifies this`outPos, this`written, output
      ensures Valid() && output[cap..] == old(output[cap..])
      ensures Out() == old(Out()) + bytes && Tgt() == old(Tgt()) + bytes && Seg() == old(Seg())
      ensures Rest() == old(Rest()).(here := old(Rest()).here + |bytes|)
    {
      ghost var was := output[..];
      forall k | 0 <= k < |bytes| {
        output[outPos + k] := bytes[k];
      }
      Overwritten(was, output[..], outPos, bytes);
      outPos := outPos + |bytes|;
      written := written + |bytes|;
      Extended(was[..old(outPos)], bytes, windowStart);
    }

    // ------------------------------------------------------------- COPY

    /** The 32-bit arithmetic on truncated operands. */
    method ResolveOffset(mode: nat, a: nat) returns (addr: Word)
      requires Valid() && mode < 2 + T.NEAR_SIZE
      ensures addr == OffsetAddress(Cache(), |Seg()| + written, mode, a)
    {
      var a32 := a % WORD_LIMIT;
      if mode == 0 {
        addr := a32;
      } else if mode == 1 {
        var here := (SegLen() + written) % WORD_LIMIT;
        addr := (here - a32) % WORD_LIMIT;
        TruncatedDifference(SegLen() + written, a);
      } else {
        addr := (near[mode - 2] + a32) % WORD_LIMIT;
        TruncatedSum(near[mode - 2], a);
      }
    }

    /** The address of a COPY, per mode. */
    method ReadAddress(mode: nat) returns (st: Status, addr: Word)
      requires Valid()
      modifies this`addrCur
      ensures Valid()
      ensures match Locate(old(Cache()), old(|Seg()| + written), mode, old(delta[addrCur..addrEnd]))
              case Err(e) => st == e
              case Ok(l) => st == OK && addr == l.addr
                            && delta[addrCur..addrEnd] == old(delta[addrCur..addrEnd])[l.used..]
      ensures mode < T.NUM_MODES ==> st != BadOpcode
    {
      addr := 0;
      if mode >= T.NUM_MODES {
        return BadOpcode, 0;
      }
      if mode < 2 + T.NEAR_SIZE {
        var a: nat, next: nat;
        st, a, next := ReadField(addrCur, addrEnd);
        if st != OK {
          return;
        }
        addrCur := next;
        addr := ResolveOffset(mode, a);
      } else {
        if addrCur >= addrEnd {
          return Truncated, 0;
        }
        var b := delta[addrCur];
        addrCur := addrCur + 1;
        addr := same[(mode - 2 - T.NEAR_SIZE) * 256 + b];
        st := OK;
      }
    }

    method RememberAddress(addr: Word)
      requires Valid()
      modifies this`nearNext, near, same
      ensures Valid() && Cache() == Remember(old(Cache()), addr)
    {
      near[nearNext] := addr;
      nearNext := (nearNext + 1) % T.NEAR_SIZE;
      same[addr % SAME_SLOTS] := addr;
    }

    /**
     * Appends the byte at an address of segment and target, if there is one; a target segment is
     * read from the output array that is being written.
     */
    method CopyByte(combined: nat) returns (ok: bool)
      requires Valid() && outPos < cap
      modifies this`outPos, this`written, output
      ensures Valid() && output[cap..] == old(output[cap..])
      ensures ok <==> combined < old(|Seg()| + |Tgt()|)
      ensures Out() == old(Out()) + if ok then [old((Seg() + Tgt())[combined])] else []
    {
      var b: byte;
      if combined < SegLen() {
        if segment.FromSource? {
          b := source.value[segment.pos + combined];
          assert b == source.value[segment.pos..segment.pos + segment.len][combined];
        } else {
          b := output[segment.pos + combined];
          assert b == Out()[..windowStart][segment.pos..segment.pos + segment.len][combined];
        }
        assert b == Seg()[combined];
      } else {
        var off := combined - SegLen();
        if off >= written {
          return false;
        }
        b := output[windowStart + off];
        assert b == Tgt()[off];
      }
      output[outPos] := b;
      outPos := outPos + 1;
      written := written + 1;
      return true;
    }

    /** Byte `j` of a COPY that began with output `out` and segment and target `u`. */
    method CopyNext(addr: Word, j: nat, ghost out: seq<byte>, ghost u: seq<byte>) returns (ok: bool)
      requires Valid() && outPos < cap && (j == 0 || addr < |u|)
      requires windowStart <= |out| && SegmentBytes(source, out[..windowStart], segment).Some?
      requires u == SegmentBytes(source, out[..windowStart], segment).value + out[windowStart..]
      requires Out() == out + Cyclic(u, addr, j)
      modifies this`outPos, this`written, output
      ensures Valid() && output[cap..] == old(output[cap..])
      ensures ok <==> addr < |u|
      ensures ok ==> Out() == out + Cyclic(u, addr, j + 1)
      ensures !ok ==> Out() == old(Out())
    {
      CopyStep(source, segment, windowStart, out, addr, j);
      ok := CopyByte(addr + j);
    }

    /** The byte-by-byte loop: it can fail only on its first byte, and appends the cyclic extension. */
    method CopyBytes(addr: Word, size: nat) returns (st: Status)
      requires Valid() && outPos + size <= cap
      modifies this`outPos, this`written, output
      ensures Valid() && output[cap..] == old(output[cap..]) && old(Out()) <= Out()
      ensures st == if size == 0 || addr < |old(Seg() + Tgt())| then OK else Invalid
      ensures st == OK ==> Out() == old(Out()) + Cyclic(old(Seg() + Tgt()), addr, size)
    {
      ghost var out, u := Out(), Seg() + Tgt();
      for j := 0 to size
        invariant Valid() && (j == 0 || addr < |u|)
        invariant Out() == out + Cyclic(u, addr, j)
        invariant output[cap..] == old(output[cap..])
      {
        var ok := CopyNext(addr, j, out, u);
        if !ok {
          return Invalid;
        }
      }
      return OK;
    }

    /** The decoder is where the functional decoder says it should be. */
    ghost predicate Follows(r: Result<Stepped, Error>, st: Status)
      requires Valid()
      reads this, near, same, output
    {
      r == if st == OK then Ok(Stepped(Rest(), Tgt())) else Err(st)
    }

    /** Resolves the address of a COPY and remembers it. */
    method TakeAddress(mode: nat) returns (st: Status, addr: Word)
      requires Valid()
      modifies this`addrCur, this`nearNext, near, same
      ensures Valid() && Seg() == old(Seg()) && Tgt() == old(Tgt())
      ensures match Locate(old(Rest()).cache, old(Rest()).here, mode, old(Rest()).addr)
              case Err(e) => st == e
              case Ok(l) =>
                && st == OK && addr == l.addr
                && Rest() == old(Rest()).(addr := old(Rest()).addr[l.used..],
                                          cache := Remember(old(Rest()).cache, l.addr))
    {
      st, addr := ReadAddress(mode);
      if st == OK {
        RememberAddress(addr);
      }
    }

    /** The copy loop as the window sees it. */
    method CopyTarget(addr: Word, size: nat) returns (st: Status)
      requires Valid() && outPos + size <= cap
      modifies this`outPos, this`written, output
      ensures Valid() && output[cap..] == old(output[cap..]) && old(Out()) <= Out()
      ensures st == if Reaches(old(|Seg()| + |Tgt()|), Copy(addr, size)) then OK else Invalid
      ensures st == OK ==> Tgt() == old(Tgt()) + Yield(old(Seg()), old(Tgt()), Copy(addr, size))
      ensures st == OK ==> Rest() == old(Rest()).(here := old(Rest()).here + size)
    {
      ghost var out, u := Out(), Seg() + Tgt();
      st := CopyBytes(addr, size);
      if st == OK {
        Extended(out, Cyclic(u, addr, size), windowStart);
      }
    }

    /** COPY: resolve the address, remember it, check the room, then copy. */
    method ExecuteCopy(ghost t: T.Template, mode: nat, size: nat) returns (st: Status)
      requires Valid() && t.Copy? && t.mode == mode
      modifies this`addrCur, this`nearNext, this`outPos, this`written, near, same, output
      ensures Valid() && output[cap..] == old(output[cap..]) && old(Out()) <= Out()
      ensures Follows(ExecSized(old(Seg()), cap - windowStart, t, size, old(Rest()), old(Tgt())), st)
    {
      ExecCopy(Seg(), cap - windowStart, t, size, Rest(), Tgt());
      var addr;
      st, addr := TakeAddress(mode);
      if st != OK {
        return;
      }
      if outPos + size > cap {
        return OutputFull;
      }
      st := CopyTarget(addr, size);
    }

    // ------------------------------------------------------------- ADD and RUN

    method TakeData(size: nat) returns (bytes: seq<byte>)
      requires Valid() && size <= dataEnd - dataCur
      modifies this`dataCur
      ensures Valid() && Out() == old(Out()) && Seg() == old(Seg()) && Tgt() == old(Tgt())
      ensures bytes == old(Rest()).data[..size] && Rest() == old(Rest()).(data := old(Rest()).data[size..])
    {
      bytes := delta[dataCur..dataCur + size];
      SliceOfSlice(delta, dataCur, dataEnd, 0, size);
      dataCur := dataCur + size;
    }

    method ExecuteAdd(ghost t: T.Template, size: nat) returns (st: Status)
      requires Valid() && t.Add?
      modifies this`dataCur, this`outPos, this`written, output
      ensures Valid() && output[cap..] == old(output[cap..]) && old(Out()) <= Out()
      ensures Follows(ExecSized(old(Seg()), cap - windowStart, t, size, old(Rest()), old(Tgt())), st)
    {
      if dataEnd - dataCur < size {
        return Invalid;
      }
      if outPos + size > cap {
        return OutputFull;
      }
      var bytes := TakeData(size);
      Append(bytes);
      return OK;
    }

    method ExecuteRun(ghost t: T.Template, size: nat) returns (st: Status)
      requires Valid() && t.Run?
      modifies this`dataCur, this`outPos, this`written, output
      ensures Valid() && output[cap..] == old(output[cap..]) && old(Out()) <= Out()
      ensures Follows(ExecSized(old(Seg()), cap - windowStart, t, size, old(Rest()), old(Tgt())), st)
    {
      if dataCur >= dataEnd {
        return Invalid;
      }
      var fill := TakeData(1);
      if outPos + size > cap {
        return OutputFull;
      }
      Append(Fill(fill[0], size));
      return OK;
    }

    // ------------------------------------------------------------- instructions

    method ReadInstSize(fixed: nat) returns (st: Status, size: nat)
      requires Valid()
      modifies this`instCur
      ensures Valid() && Out() == old(Out()) && Seg() == old(Seg()) && Tgt() == old(Tgt())
      ensures match ReadSize(fixed, old(Rest()).inst)
              case Err(e) => st == e
              case Ok(x) => st == OK && size == x.value && Rest() == old(Rest()).(inst := old(Rest()).inst[x.size..])
    {
      if fixed != 0 {
        return OK, fixed;
      }
      var next: nat;
      st, size, next := ReadField(instCur, instEnd);
      if st == OK {
        instCur := next;
      }
    }

    method ExecuteSized(t: T.Template, size: nat) returns (st: Status)
      requires Valid() && !t.Noop?
      modifies this`dataCur, this`addrCur, this`nearNext, this`outPos, this`written, near, same, output
      ensures Valid() && output[cap..] == old(output[cap..]) && old(Out()) <= Out()
      ensures Follows(ExecSized(old(Seg()), cap - windowStart, t, size, old(Rest()), old(Tgt())), st)
    {
      match t {
        case Add(_) => st := ExecuteAdd(t, size);
        case Run(_) => st := ExecuteRun(t, size);
        case Copy(_, mode) => st := ExecuteCopy(t, mode, size);
      }
    }

    /** One half of an opcode refines one step of the functional decoder. */
    method ExecuteInst(t: T.Template) returns (st: Status)
      requires Valid() && !t.Noop?
      modifies this`instCur, this`dataCur, this`addrCur, this`nearNext, this`outPos, this`written, near, same, output
      ensures Valid() && output[cap..] == old(output[cap..]) && old(Out()) <= Out() && Seg() == old(Seg())
      ensures Follows(ExecInst(old(Seg()), cap - windowStart, t, old(Rest()), old(Tgt())), st)
    {
      var size;
      st, size := ReadInstSize(t.size);
      if st != OK {
        return;
      }
      st := ExecuteSized(t, size);
      assert Out()[..windowStart] == old(Out())[..windowStart];
    }

    /** One pass of an opcode, `ts` being the passes after it. */
    method RunPass(t: T.Template, ghost ts: seq<T.Template>, ghost room: nat) returns (st: Status)
      requires Valid() && room == cap - windowStart
      modifies this`instCur, this`dataCur, this`addrCur, this`nearNext, this`outPos, this`written, near, same, output
      ensures Valid() && output[cap..] == old(output[cap..]) && old(Out()) <= Out()
      ensures Seg() == old(Seg()) && (st == OK ==> old(instCur) <= instCur)
      ensures ExecInsts(old(Seg()), room, [t] + ts, old(Rest()), old(Tgt()))
           == if st == OK then ExecInsts(Seg(), room, ts, Rest(), Tgt()) else Err(st)
    {
      ExecPass(Seg(), room, t, ts, Rest(), Tgt());
      if t.Noop? {
        return OK;
      }
      st := ExecuteInst(t);
      assert st == OK ==> |Rest().inst| <= |old(Rest()).inst|;
    }

    /** The two passes of one opcode. */
    method RunPasses(ce: T.Entry, ghost room: nat) returns (st: Status)
      requires Valid() && room == cap - windowStart
      modifies this`instCur, this`dataCur, this`addrCur, this`nearNext, this`outPos, this`written, near, same, output
      ensures Valid() && output[cap..] == old(output[cap..]) && old(Out()) <= Out()
      ensures Seg() == old(Seg()) && (st == OK ==> old(instCur) <= instCur)
      ensures ExecInsts(old(Seg()), room, [ce.first, ce.second], old(Rest()), old(Tgt()))
           == if st == OK then ExecInsts(Seg(), room, [], Rest(), Tgt()) else Err(st)
    {
      ghost var ts := [ce.first, ce.second];
      ghost var seg := Seg();
      ghost var r := ExecInsts(seg, room, ts, Rest(), Tgt());
      for pass := 0 to 2
        invariant Valid() && output[cap..] == old(output[cap..]) && old(Out()) <= Out()
        invariant Seg() == seg && old(instCur) <= instCur
        invariant r == ExecInsts(seg, room, ts[pass..], Rest(), Tgt())
      {
        var t := if pass == 0 then ce.first else ce.second;
        assert ts[pass..] == [t] + ts[pass + 1..];
        st := RunPass(t, ts[pass + 1..], room);
        if st != OK {
          return;
        }
      }
      return OK;
    }

    method NextOpcode() returns (opcode: byte)
      requires Valid() && instCur < instEnd
      modifies this`instCur
      ensures Valid() && instCur == old(instCur) + 1 && old(Rest()).inst != []
      ensures opcode == old(Rest()).inst[0] && Rest() == old(Rest()).(inst := old(Rest()).inst[1..])
      ensures Seg() == old(Seg()) && Tgt() == old(Tgt()) && Out() == old(Out())
    {
      opcode := delta[instCur];
      instCur := instCur + 1;
    }

    /** The instruction loop. */
    method RunInstructions(table: array<T.Entry>) returns (st: Status)
      requires Valid() && T.IsTable(table) && output as object != table
      modifies this`instCur, this`dataCur, this`addrCur, this`nearNext, this`outPos, this`written, near, same, output
      ensures Valid() && output[cap..] == old(output[cap..]) && old(Out()) <= Out()
      ensures ExecInsts(old(Seg()), cap - windowStart, [], old(Rest()), old(Tgt()))
           == if st == OK then Ok(Tgt()) else Err(st)
    {
      ghost var seg, room := Seg(), cap - windowStart;
      ghost var r := ExecInsts(seg, room, [], Rest(), Tgt());
      while instCur < instEnd
        invariant Valid() && T.IsTable(table)
        invariant output[cap..] == old(output[cap..]) && old(Out()) <= Out() && Seg() == seg
        invariant r == ExecInsts(seg, room, [], Rest(), Tgt())
        decreases instEnd - instCur
      {
        var opcode := NextOpcode();
        st := RunPasses(table[opcode], room);
        if st != OK {
          return;
        }
      }
      return OK;
    }

    // ------------------------------------------------------------- windows

    method ReadTail(pos: nat) returns (st: Status, value: nat, next: nat)
      requires pos <= |delta|
      ensures match ReadVarint(delta[pos..])
              case Err(e) => st == e
              case Ok(x) => st == OK && value == x.value && pos < next <= |delta|
                            && delta[next..] == delta[pos..][x.size..]
      ensures st == OK || st == Truncated
    {
      assert delta[pos..|delta|] == delta[pos..];
      st, value, next := ReadField(pos, |delta|);
    }

    method ReadHead(p: nat) returns (st: Status, seg: Segment, checksum: bool, next: nat)
      requires p < |delta|
      ensures match ParseHead(delta[p..])
              case Err(e) => st == e
              case Ok(h) => st == OK && p < next <= |delta| && h == Head(seg, checksum, delta[next..])
      ensures st == OK ==> ParseHead(delta[p..]).Ok?
    {
      var ind := delta[p];
      next := p + 1;
      assert delta[p..][1..] == delta[next..];
      seg, checksum, st := NoSegment, HasBit(ind, WIN_CHECKSUM), OK;
      if HasBit(ind, WIN_SOURCE) || HasBit(ind, WIN_TARGET) {
        var len: nat, pos: nat;
        st, len, next := ReadTail(next);
        if st != OK {
          return;
        }
        st, pos, next := ReadTail(next);
        if st != OK {
          return;
        }
        seg := if HasBit(ind, WIN_SOURCE) then FromSource(pos, len) else FromTarget(pos, len);
      }
    }

    method ReadLengths(start: nat, end: nat) returns (st: Status, data: nat, inst: nat, addr: nat, next: nat)
      requires start <= end <= |delta|
      ensures st == OK ==> next <= end
      ensures ParseLengths(delta[start..end])
           == if st == OK then Ok(Lengths(data, inst, addr, delta[next..end])) else Err(st)
    {
      data, inst, addr := 0, 0, 0;
      st, data, next := ReadField(start, end);
      if st != OK {
        return;
      }
      st, inst, next := ReadField(next, end);
      if st != OK {
        return;
      }
      st, addr, next := ReadField(next, end);
    }

    method ReadOpening(start: nat, end: nat) returns (st: Status, targetLen: nat, w: nat)
      requires start <= end <= |delta|
      ensures st == OK ==> w <= end
      ensures ParseOpening(delta[start..end]) == if st == OK then Ok(Opening(targetLen, delta[w..end])) else Err(st)
    {
      st, targetLen, w := ReadField(start, end);
      if st != OK {
        return;
      }
      if w >= end {
        st := Truncated;
        return;
      }
      if delta[w] % DELTA_DECOMP != 0 {
        st := SecondaryComp;
        return;
      }
      assert delta[w..end][1..] == delta[w + 1..end];
      w := w + 1;
    }

    /** Sections of the given lengths from `w` on, as the marks between them. */
    method Cut(ghost seg: Segment, ghost targetLen: nat, w: nat, end: nat, data: nat, inst: nat, addr: nat)
      returns (st: Status, d: nat, i: nat, a: nat, z: nat)
      requires w <= end <= |delta|
      ensures st == OK ==> d <= i <= a <= z <= end
      ensures CutSections(seg, targetLen, Lengths(data, inst, addr, delta[w..end]))
           == if st == OK then Ok(Window(seg, targetLen, delta[d..i], delta[i..a], delta[a..z])) else Err(st)
    {
      if end - w < (data + inst + addr) % SIZE_LIMIT {
        return Truncated, 0, 0, 0, 0;
      }
      if end - w < data + inst + addr {
        return Wrapped, 0, 0, 0, 0;
      }
      Cuts(delta, seg, targetLen, w, end, data, inst, addr);
      return OK, w, w + data, w + data + inst, w + data + inst + addr;
    }

    method ReadSections(ghost seg: Segment, start: nat, end: nat)
      returns (st: Status, targetLen: nat, d: nat, i: nat, a: nat, z: nat)
      requires start <= end <= |delta|
      ensures st == OK ==> d <= i <= a <= z <= end
      ensures ParseSections(seg, delta[start..end])
           == if st == OK then Ok(Window(seg, targetLen, delta[d..i], delta[i..a], delta[a..z])) else Err(st)
    {
      d, i, a, z := 0, 0, 0, 0;
      var w, data, inst, addr;
      st, targetLen, w := ReadOpening(start, end);
      if st != OK {
        return;
      }
      st, data, inst, addr, w := ReadLengths(w, end);
      if st != OK {
        return;
      }
      st, d, i, a, z := Cut(seg, targetLen, w, end, data, inst, addr);
    }

    /** The length of the delta encoding, `w` to `end`, and the checksum that may follow it. */
    method ReadExtent(checksum: bool, p: nat) returns (st: Status, w: nat, end: nat, next: nat)
      requires p <= |delta|
      ensures st == OK ==> p < w <= end <= next <= |delta|
      ensures match ParseExtent(checksum, delta[p..])
              case Err(e) => st == e
              case Ok(x) => st == OK && x == Extent(delta[w..end], delta[next..])
    {
      var len: nat;
      st, len, w := ReadTail(p);
      end, next := w, w;
      if st != OK {
        return;
      }
      if |delta| - w < len {
        st := Truncated;
        return;
      }
      end, next := w + len, w + len;
      assert delta[w..][..len] == delta[w..end];
      assert delta[w..][len..] == delta[end..];
      if checksum {
        if |delta| - end < CHECKSUM_SIZE {
          st := Truncated;
          return;
        }
        next := end + CHECKSUM_SIZE;
        assert delta[end..][CHECKSUM_SIZE..] == delta[next..];
      }
    }

    method ReadBody(seg: Segment, checksum: bool, p: nat)
      returns (st: Status, targetLen: nat, d: nat, i: nat, a: nat, z: nat, next: nat)
      requires p <= |delta|
      ensures st == OK ==> d <= i <= a <= z <= |delta| && p < next <= |delta|
      ensures ParseBody(Head(seg, checksum, delta[p..]))
           == if st == OK then Ok(Body(Window(seg, targetLen, delta[d..i], delta[i..a], delta[a..z]), delta[next..]))
              else Err(st)
    {
      targetLen, d, i, a, z := 0, 0, 0, 0, 0;
      var w, end;
      st, w, end, next := ReadExtent(checksum, p);
      if st != OK {
        return;
      }
      st, targetLen, d, i, a, z := ReadSections(seg, w, end);
    }

    /** Opens a window: cursors on its sections, an empty target, a cleared address cache. */
    method OpenWindow(seg: Segment, ghost targetLen: nat, d: nat, i: nat, a: nat, z: nat)
      requires Valid() && d <= i <= a <= z <= |delta|
      requires SegmentBytes(source, Out(), seg).Some?
      modifies this`segment, this`windowStart, this`written, this`dataCur, this`dataEnd, this`instCur, this`instEnd,
               this`addrCur, this`addrEnd, this`nearNext, near, same
      ensures Valid() && windowStart == outPos == old(outPos) && Tgt() == [] && Out() == old(Out())
      ensures SegmentBytes(source, old(Out()), seg) == Some(Seg())
      ensures Rest() == Start(Window(seg, targetLen, delta[d..i], delta[i..a], delta[a..z]), Seg())
    {
      segment, windowStart, written := seg, outPos, 0;
      dataCur, dataEnd, instCur, instEnd, addrCur, addrEnd := d, i, i, a, a, z;
      assert Out()[..windowStart] == Out();
      ClearCache();
    }

    method ClearCache()
      requires Valid()
      modifies this`nearNext, near, same
      ensures Valid() && Cache() == EmptyCache()
    {
      nearNext := 0;
      forall k | 0 <= k < near.Length {
        near[k] := 0;
      }
      forall k | 0 <= k < same.Length {
        same[k] := 0;
      }
      assert near[..] == Zeros(T.NEAR_SIZE) && same[..] == Zeros(SAME_SLOTS);
    }

    /** The source's range check on a segment, against the source or the output so far. */
    method InRange(seg: Segment) returns (ok: bool)
      requires Valid()
      ensures ok <==> SegmentBytes(source, Out(), seg).Some?
    {
      match seg {
        case NoSegment => return true;
        case FromSource(pos, len) => return source.Some? && pos + len <= |source.value|;
        case FromTarget(pos, len) => return pos + len <= outPos;
      }
    }

    /** A window whose sections are cut, over a segment in range. */
    method RunWindow(table: array<T.Entry>, seg: Segment, targetLen: nat, d: nat, i: nat, a: nat, z: nat)
      returns (st: Status)
      requires Valid() && T.IsTable(table) && output as object != table
      requires d <= i <= a <= z <= |delta| && SegmentBytes(source, Out(), seg).Some?
      modifies this, near, same, output
      ensures Valid() && output[cap..] == old(output[cap..]) && old(Out()) <= Out()
      ensures st == OK ==> Out() == old(Out()) + Tgt()
      ensures ExecWindow(cap, old(Out()), SegmentBytes(source, old(Out()), seg).value,
                         Window(seg, targetLen, delta[d..i], delta[i..a], delta[a..z]))
           == if st == OK then Ok(Tgt()) else Err(st)
    {
      if outPos + targetLen > cap {
        return OutputFull;
      }
      OpenWindow(seg, targetLen, d, i, a, z);
      st := FillWindow(table, targetLen);
    }

    /** Runs the instructions of an open window, whose target must come out as long as announced. */
    method FillWindow(table: array<T.Entry>, targetLen: nat) returns (st: Status)
      requires Valid() && T.IsTable(table) && output as object != table && Tgt() == []
      modifies this`instCur, this`dataCur, this`addrCur, this`nearNext, this`outPos, this`written, near, same, output
      ensures Valid() && output[cap..] == old(output[cap..]) && old(Out()) <= Out()
      ensures st == OK ==> Out() == old(Out()) + Tgt()
      ensures ExecTarget(old(Seg()), cap - windowStart, targetLen, old(Rest()))
           == if st == OK then Ok(Tgt()) else Err(st)
    {
      ghost var out := Out();
      st := RunInstructions(table);
      if st == OK {
        assert Out() == out + Tgt();
        if written != targetLen {
          st := Invalid;
        }
      }
    }

    /** One window: on success the output has grown by its target and the cursor moved past it. */
    method DecodeWindow(table: array<T.Entry>, p: nat) returns (st: Status, next: nat)
      requires Valid() && T.IsTable(table) && output as object != table
      requires p < |delta|
      modifies this, near, same, output
      ensures Valid() && output[cap..] == old(output[cap..]) && old(Out()) <= Out()
      ensures st == OK ==> p < next <= |delta|
      ensures ExecWindows(source, cap, delta[p..], old(Out()))
           == if st == OK then ExecWindows(source, cap, delta[next..], Out()) else Err(st)
    {
      var seg, checksum;
      st, seg, checksum, next := ReadHead(p);
      if st != OK {
        return;
      }
      var ok := InRange(seg);
      if !ok {
        st := Invalid;
        return;
      }
      var targetLen, d, i, a, z;
      st, targetLen, d, i, a, z, next := ReadBody(seg, checksum, next);
      if st != OK {
        return;
      }
      st := RunWindow(table, seg, targetLen, d, i, a, z);
    }
  }

  lemma Cuts(s: seq<byte>, seg: Segment, targetLen: nat, w: nat, end: nat, d: nat, i: nat, a: nat)
    requires w <= end <= |s| && w + d + i + a <= end
    ensures CutSections(seg, targetLen, Lengths(d, i, a, s[w..end]))
         == Ok(Window(seg, targetLen, s[w..w + d], s[w + d..w + d + i], s[w + d + i..w + d + i + a]))
  {
    assert (d + i + a) % SIZE_LIMIT <= d + i + a <= |s[w..end]|;
    SliceOfSlice(s, w, end, 0, d);
    SliceOfSlice(s, w, end, d, d + i);
    SliceOfSlice(s, w, end, d + i, d + i + a);
  }

  lemma SliceOfSlice(s: seq<byte>, lo: nat, hi: nat, a: nat, b: nat)
    requires lo <= hi <= |s| && a <= b <= hi - lo
    ensures s[lo..hi][a..b] == s[lo + a..lo + b]
  {
    var x, y := s[lo..hi][a..b], s[lo + a..lo + b];
    assert |x| == |y|;
    assert forall k :: 0 <= k < |x| ==> x[k] == y[k];
  }

  /**
   * The decoder of the source: it fails with the status of the functional decoder, succeeds exactly when
   * the delta means something that fits, and then the buffer starts with that meaning.
   */
  method Decode(source: Option<seq<byte>>, delta: seq<byte>, output: array<byte>, cap: nat)
    returns (st: Status, outputLen: nat)
    requires cap <= output.Length
    modifies output
    ensures match Exec(source, cap, delta)
            case Err(e) => st == e && st != OK && outputLen == cap
            case Ok(out) => st == OK && outputLen == |out| <= cap && output[..outputLen] == out
    ensures st == OK <==> Meaning(source, delta).Some? && |Meaning(source, delta).value| <= cap
    ensures st == OK ==> Meaning(source, delta) == Some(output[..outputLen])
    ensures output[cap..] == old(output[cap..])
  {
    ExecIsMeaning(source, cap, delta);
    outputLen := cap;
    var table := T.Build();
    if |delta| < 5 {
      return Truncated, cap;
    }
    if delta[..4] != MAGIC {
      return InvalidMagic, cap;
    }
    if HasBit(delta[4], HDR_DECOMP) {
      return SecondaryComp, cap;
    }
    if HasBit(delta[4], HDR_CODETBL) {
      return CustomTable, cap;
    }
    var p := 5;
    var d := new Decoder(source, delta, output, cap);
    assert d.Out() == [];
    while p < |delta|
      invariant d.Valid() && fresh(d) && fresh(d.near) && fresh(d.same) && T.IsTable(table)
      invariant d.source == source && d.delta == delta && d.output == output && d.cap == cap
      invariant 5 <= p <= |delta|
      invariant output[cap..] == old(output[cap..])
      invariant Exec(source, cap, delta) == ExecWindows(source, cap, delta[p..], d.Out())
    {
      st, p := d.DecodeWindow(table, p);
      if st != OK {
        return st, cap;
      }
    }
    return OK, d.outPos;
  }

  lemma Overwritten(was: seq<byte>, now: seq<byte>, pos: nat, bytes: seq<byte>)
    requires |was| == |now| && pos + |bytes| <= |now|
    requires forall k :: 0 <= k < |now| && !(pos <= k < pos + |bytes|) ==> now[k] == was[k]
    requires forall k :: 0 <= k < |bytes| ==> now[pos + k] == bytes[k]
    ensures now[..pos + |bytes|] == was[..pos] + bytes
    ensures forall c :: pos + |bytes| <= c <= |now| ==> now[c..] == was[c..]
  {
  }

  lemma Extended(out: seq<byte>, ext: seq<byte>, start: nat)
    requires start <= |out|
    ensures (out + ext)[..start] == out[..start]
    ensures (out + ext)[start..] == out[start..] + ext
  {
  }

  /** One more byte of a COPY, read from the output that the COPY itself has extended. */
  lemma CopyStep(source: Option<seq<byte>>, segment: Segment, start: nat, out: seq<byte>, addr: nat, j: nat)
    requires start <= |out| && SegmentBytes(source, out[..start], segment).Some?
    requires var u := SegmentBytes(source, out[..start], segment).value + out[start..];
             j == 0 || addr < |u|
    ensures var u := SegmentBytes(source, out[..start], segment).value + out[start..];
            var now := out + Cyclic(u, addr, j);
            var v := SegmentBytes(source, now[..start], segment);
            && v.Some? && |v.value + now[start..]| == |u| + j
            && (addr < |u| ==> now + [(v.value + now[start..])[addr + j]] == out + Cyclic(u, addr, j + 1))
  {
    var u := SegmentBytes(source, out[..start], segment).value + out[start..];
    var ext := Cyclic(u, addr, j);
    assert (out + ext)[..start] == out[..start];
    assert (out + ext)[start..] == out[start..] + ext;
    assert SegmentBytes(source, out[..start], segment).value + (out[start..] + ext) == u + ext;
    if addr < |u| {
      CyclicStep(u, addr, j);
    }
  }

  lemma TruncatedDifference(here: nat, a: nat)
    ensures (here % WORD_LIMIT - a % WORD_LIMIT) % WORD_LIMIT == (here - a) % WORD_LIMIT
  {
  }

  lemma TruncatedSum(n: nat, a: nat)
    ensures (n + a % WORD_LIMIT) % WORD_LIMIT == (n + a) % WORD_LIMIT
  {
  }
}
