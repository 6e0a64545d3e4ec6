/**
 * What a VCDIFF delta says and what it means, in the style of sections 3, 4 and 5 of RFC 3284:
 * a delta parses into windows, a window's sections parse into instructions, and instructions
 * have a meaning over the source segment and the target built so far.
 */
module VcdiffFormat {
  import opened Bytes
  import Varint
  import T = CodeTable

  datatype Status =
    OK | InvalidMagic | SecondaryComp | CustomTable | Truncated | Invalid | OutputFull | BadOpcode
      /** Not a status of the source: its 64-bit sum of section lengths wrapped unnoticed; see `CutSections`. */
    | Wrapped

  type Error = s: Status | s != OK witness Invalid

  /** uint32_t, the type of COPY addresses and of the address cache. */
  const WORD_LIMIT := 0x1_0000_0000
  type Word = w: int | 0 <= w < WORD_LIMIT

  /** Three blocks of 256. */
  const SAME_SLOTS := 768

  // ---------------------------------------------------------------- address cache

  datatype CacheData = CacheData(near: seq<Word>, next: nat, same: seq<Word>)
  type Cache = c: CacheData | |c.near| == T.NEAR_SIZE && c.next < T.NEAR_SIZE && |c.same| == SAME_SLOTS
    witness CacheData(Zeros(T.NEAR_SIZE), 0, Zeros(SAME_SLOTS))

  function Zeros(n: nat): (z: seq<Word>)
    ensures |z| == n && forall k :: 0 <= k < n ==> z[k] == 0
  {
    seq(n, _ => 0)
  }

  /** The cache at the start of every window. */
  function EmptyCache(): Cache
  {
    CacheData(Zeros(T.NEAR_SIZE), 0, Zeros(SAME_SLOTS))
  }

  /** Every COPY address is entered in both caches. */
  function Remember(c: Cache, addr: Word): Cache
  {
    CacheData(c.near[c.next := addr], (c.next + 1) % T.NEAR_SIZE, c.same[addr % SAME_SLOTS := addr])
  }

  datatype Located = Located(addr: Word, used: nat)

  /** A varint or, where there is none, a truncation. */
  function ReadVarint(s: seq<byte>): (r: Result<Varint.Varint, Error>)
    ensures r.Ok? ==> 1 <= r.value.size <= |s|
  {
    match Varint.Read(s)
    case None => Err(Truncated)
    case Some(x) => Ok(x)
  }

  /** The address that an offset denotes in a mode that takes a varint. */
  function OffsetAddress(c: Cache, here: nat, mode: nat, a: nat): Word
    requires mode < 2 + T.NEAR_SIZE
  {
    if mode == 0 then a % WORD_LIMIT
    else if mode == 1 then (here - a) % WORD_LIMIT
    else (c.near[mode - 2] + a) % WORD_LIMIT
  }

  /** The address that the front of the address section denotes in a mode; all arithmetic is modulo 2^32. */
  function Locate(c: Cache, here: nat, mode: nat, s: seq<byte>): (r: Result<Located, Error>)
    ensures r.Ok? ==> 1 <= r.value.used <= |s|
  {
    if mode >= T.NUM_MODES then Err(BadOpcode)
    else if mode >= 2 + T.NEAR_SIZE then
      if s == [] then Err(Truncated)
      else Ok(Located(c.same[(mode - 2 - T.NEAR_SIZE) * 256 + s[0]], 1))
    else
      var x :- ReadVarint(s);
      Ok(Located(OffsetAddress(c, here, mode, x.value), x.size))
  }

  /** The cache after a list of addresses, oldest first. */
  function RememberAll(c: Cache, addrs: seq<Word>): Cache
  {
    if addrs == [] then c else Remember(RememberAll(c, addrs[..|addrs| - 1]), addrs[|addrs| - 1])
  }

  /** The last address of a list with a remainder is the `k`th. */
  predicate IsLastWith(addrs: seq<Word>, r: nat, k: nat)
  {
    k < |addrs| && addrs[k] % 768 == r && forall j :: k < j < |addrs| ==> addrs[j] % 768 != r
  }

  /** SAME holds, for each remainder modulo 768, the last address of the window that has it, or 0. */
  lemma {:induction false} SameHoldsLast(addrs: seq<Word>, r: nat, k: nat)
    requires r < 768
    ensures IsLastWith(addrs, r, k) ==> RememberAll(EmptyCache(), addrs).same[r] == addrs[k]
    ensures (forall j :: 0 <= j < |addrs| ==> addrs[j] % 768 != r) ==> RememberAll(EmptyCache(), addrs).same[r] == 0
  {
    if addrs != [] {
      SameHoldsLast(addrs[..|addrs| - 1], r, k);
    }
  }

  /** NEAR holds the last four addresses of the window, each at its position modulo 4, and 0 before there are any. */
  lemma {:induction false} NearHoldsLastFour(addrs: seq<Word>, i: nat)
    ensures RememberAll(EmptyCache(), addrs).next == |addrs| % 4
    ensures i < |addrs| <= i + 4 ==> RememberAll(EmptyCache(), addrs).near[i % 4] == addrs[i]
    ensures |addrs| <= i < 4 ==> RememberAll(EmptyCache(), addrs).near[i] == 0
  {
    if addrs != [] {
      NearHoldsLastFour(addrs[..|addrs| - 1], i);
    }
  }

  /** An address just copied can be named again in one byte: by its SAME mode, and by its NEAR mode with offset 0. */
  lemma {:induction false} JustCopiedIsLocated(c: Cache, addr: Word, here: nat, rest: seq<byte>)
    ensures Locate(Remember(c, addr), here, 6 + addr % 768 / 256, [addr % 256] + rest) == Ok(Located(addr, 1))
    ensures Locate(Remember(c, addr), here, 2 + c.next, [0] + rest) == Ok(Located(addr, 1))
  {
    Remainders(addr);
    Varint.OneByte(0, rest);
  }

  lemma Remainders(addr: nat)
    ensures addr % 768 / 256 < 3 && addr % 768 / 256 * 256 + addr % 256 == addr % 768
  {
    var q, r := addr / 768, addr % 768;
    var b, low := r / 256, r % 256;
    assert addr == 256 * (3 * q + b) + low;
    ModUnique(addr, 256, 3 * q + b, low);
  }

  /** What an offset means: itself, a distance back from here, or a distance on from a NEAR address, modulo 2^32. */
  lemma {:induction false} OffsetMeans(c: Cache, here: nat, mode: nat, a: nat)
    requires mode < 6
    ensures var addr := OffsetAddress(c, here, mode, a);
            && (mode == 0 ==> addr == a % 0x1_0000_0000)
            && (mode == 1 ==> (addr + a) % 0x1_0000_0000 == here % 0x1_0000_0000)
            && (mode >= 2 ==> (addr - c.near[mode - 2]) % 0x1_0000_0000 == a % 0x1_0000_0000)
  {
  }

  /** The address section by mode: a varint for the first six, one byte for the next three, nothing else. */
  lemma {:induction false} LocateByMode(c: Cache, here: nat, mode: nat, s: seq<byte>)
    ensures mode >= 9 ==> Locate(c, here, mode, s) == Err(BadOpcode)
    ensures 6 <= mode < 9 ==>
              Locate(c, here, mode, s) ==
              if s == [] then Err(Truncated) else Ok(Located(c.same[(mode - 6) * 256 + s[0]], 1))
    ensures mode < 6 ==>
              var x := Varint.Read(s);
              Locate(c, here, mode, s) ==
              if x.None? then Err(Truncated)
              else Ok(Located(OffsetAddress(c, here, mode, x.value.value), x.value.size))
  {
  }

  // ---------------------------------------------------------------- instructions

  datatype Inst = Add(bytes: seq<byte>) | Run(fill: byte, size: nat) | Copy(addr: nat, size: nat)

  function Size(i: Inst): nat
  {
    match i
    case Add(bytes) => |bytes|
    case Run(_, size) => size
    case Copy(_, size) => size
  }

  /** What remains of the three sections, with the cache and the current address. */
  datatype Sections = Sections(inst: seq<byte>, data: seq<byte>, addr: seq<byte>, cache: Cache, here: nat)

  datatype Parsed = Parsed(inst: Inst, rest: Sections)

  /** The instruction of a kind and size, once the size is known. */
  function ParseSized(t: T.Template, size: nat, s: Sections): (r: Result<Parsed, Error>)
    requires !t.Noop?
    ensures r.Ok? ==> r.value.rest.inst == s.inst && r.value.rest.here == s.here + Size(r.value.inst)
    ensures r.Ok? ==> Size(r.value.inst) == size
  {
    match t
    case Add(_) =>
      if |s.data| < size then Err(Invalid)
      else Ok(Parsed(Add(s.data[..size]), s.(data := s.data[size..], here := s.here + size)))
    case Run(_) =>
      if s.data == [] then Err(Invalid)
      else Ok(Parsed(Run(s.data[0], size), s.(data := s.data[1..], here := s.here + size)))
    case Copy(_, mode) =>
      var l :- Locate(s.cache, s.here, mode, s.addr);
      Ok(Parsed(Copy(l.addr, size),
                Sections(s.inst, s.data, s.addr[l.used..], Remember(s.cache, l.addr), s.here + size)))
  }

  /** A size fixed by the table, or a varint of the instruction section. */
  function ReadSize(fixed: nat, inst: seq<byte>): (r: Result<Varint.Varint, Error>)
    ensures r.Ok? ==> r.value.size <= |inst|
  {
    if fixed == 0 then ReadVarint(inst) else Ok(Varint.Varint(fixed, 0))
  }

  /** The instruction of one half of an opcode. */
  function ParseInst(t: T.Template, s: Sections): (r: Result<Parsed, Error>)
    requires !t.Noop?
    ensures r.Ok? ==> |r.value.rest.inst| <= |s.inst| && r.value.rest.here == s.here + Size(r.value.inst)
  {
    var x :- ReadSize(t.size, s.inst);
    ParseSized(t, x.value, s.(inst := s.inst[x.size..]))
  }

  /** All instructions of a window; `ts` holds the halves still due of the current opcode. */
  function ParseInsts(ts: seq<T.Template>, s: Sections): Result<seq<Inst>, Error>
    decreases |s.inst|, |ts|
  {
    if ts == [] then
      if s.inst == [] then Ok([])
      else ParseInsts(T.Passes(s.inst[0]), s.(inst := s.inst[1..]))
    else if ts[0].Noop? then ParseInsts(ts[1..], s)
    else
      var p :- ParseInst(ts[0], s);
      var more :- ParseInsts(ts[1..], p.rest);
      Ok([p.inst] + more)
  }

  // ---------------------------------------------------------------- meaning of instructions

  /** A COPY of no bytes reaches anywhere; any other must start inside segment and target. */
  predicate Reaches(known: nat, i: Inst)
  {
    i.Copy? ==> i.size == 0 || i.addr < known
  }

  /** `n` bytes read cyclically from the tail of `u` that starts at `a`. */
  function Cyclic(u: seq<byte>, a: nat, n: nat): (r: seq<byte>)
    requires n == 0 || a < |u|
    ensures |r| == n
  {
    seq(n, k requires 0 <= k < n => u[a + k % (|u| - a)])
  }

  function Fill(fill: byte, n: nat): (r: seq<byte>)
    ensures |r| == n
  {
    seq(n, _ => fill)
  }

  /** The bytes that an instruction appends to the target. */
  function Yield(seg: seq<byte>, tgt: seq<byte>, i: Inst): (r: seq<byte>)
    requires Reaches(|seg| + |tgt|, i)
    ensures |r| == Size(i)
  {
    match i
    case Add(bytes) => bytes
    case Run(fill, size) => Fill(fill, size)
    case Copy(addr, size) => Cyclic(seg + tgt, addr, size)
  }

  /** ADD appends its bytes, RUN one byte over and over. */
  lemma {:induction false} AddAndRunYield(seg: seq<byte>, tgt: seq<byte>, i: Inst, k: nat)
    requires !i.Copy? && k < Size(i)
    ensures Yield(seg, tgt, i)[k] == if i.Add? then i.bytes[k] else i.fill
  {
  }

  function Eval(seg: seq<byte>, tgt: seq<byte>, insts: seq<Inst>): (r: Option<seq<byte>>)
    ensures r.Some? ==> tgt <= r.value
    decreases |insts|
  {
    if insts == [] then Some(tgt)
    else if !Reaches(|seg| + |tgt|, insts[0]) then None
    else Eval(seg, tgt + Yield(seg, tgt, insts[0]), insts[1..])
  }

  /** Every byte of `ext` equals the byte of `u + ext` that lies `|u| - a` places before it. */
  ghost predicate SelfReferential(u: seq<byte>, a: nat, ext: seq<byte>)
  {
    && (ext != [] ==> a < |u|)
    && forall k :: 0 <= k < |ext| ==> ext[k] == (u + ext)[a + k]
  }

  /** A COPY is self-referential extension: the cyclic bytes are the only ones that extend so. */
  lemma {:induction false} CyclicIsSelfReference(u: seq<byte>, a: nat, ext: seq<byte>)
    requires ext == [] || a < |u|
    ensures ext == Cyclic(u, a, |ext|) <==> SelfReferential(u, a, ext)
  {
    var p := |u| - a;
    if ext == Cyclic(u, a, |ext|) {
      forall k | 0 <= k < |ext|
        ensures ext[k] == (u + ext)[a + k]
      {
        ModStep(k, p);
      }
    }
    if SelfReferential(u, a, ext) {
      forall k | 0 <= k < |ext|
        ensures ext[k] == Cyclic(u, a, |ext|)[k]
      {
        SelfReferenceIsCyclic(u, a, ext, k);
      }
    }
  }

  lemma {:induction false} SelfReferenceIsCyclic(u: seq<byte>, a: nat, ext: seq<byte>, k: nat)
    requires SelfReferential(u, a, ext) && k < |ext|
    ensures ext[k] == u[a + k % (|u| - a)]
  {
    var p := |u| - a;
    ModStep(k, p);
    assert ext[k] == (u + ext)[a + k];
    if k >= p {
      SelfReferenceIsCyclic(u, a, ext, k - p);
    }
  }

  /** Copying byte by byte, each byte may have been written by this very COPY. */
  lemma {:induction false} CyclicStep(u: seq<byte>, a: nat, n: nat)
    requires a < |u|
    ensures Cyclic(u, a, n + 1) == Cyclic(u, a, n) + [(u + Cyclic(u, a, n))[a + n]]
  {
    ModStep(n, |u| - a);
  }

  lemma ModStep(k: nat, p: nat)
    requires p > 0
    ensures k < p ==> k % p == k
    ensures k >= p ==> k % p == (k - p) % p
  {
    if k >= p {
      var q, r := (k - p) / p, (k - p) % p;
      assert k == p * (q + 1) + r;
      ModUnique(k, p, q + 1, r);
    }
  }

  lemma ModUnique(k: nat, p: nat, q: int, r: nat)
    requires 0 <= r < p && k == p * q + r
    ensures k % p == r
  {
    var d := k / p - q;
    assert p * d == r - k % p;
    assert d == 0;
  }

  // ---------------------------------------------------------------- windows and files

  /** Where a window's source segment lies: in the source, or in the output of earlier windows. */
  datatype Segment = NoSegment | FromSource(pos: nat, len: nat) | FromTarget(pos: nat, len: nat)

  datatype Window = Window(segment: Segment, targetLen: nat, data: seq<byte>, inst: seq<byte>, addr: seq<byte>)

  const WIN_SOURCE := 1
  const WIN_TARGET := 2
  const WIN_CHECKSUM := 4
  const DELTA_DECOMP := 8
  const HDR_DECOMP := 1
  const HDR_CODETBL := 2
  const MAGIC: seq<byte> := [0xD6, 0xC3, 0xC4, 0x00]
  const CHECKSUM_SIZE := 4

  datatype Head = Head(segment: Segment, checksum: bool, rest: seq<byte>)

  /** The window indicator and the segment fields. */
  function ParseHead(s: seq<byte>): (r: Result<Head, Error>)
    requires s != []
    ensures r.Ok? ==> |r.value.rest| < |s|
  {
    var ind, p := s[0], s[1..];
    if !HasBit(ind, WIN_SOURCE) && !HasBit(ind, WIN_TARGET) then Ok(Head(NoSegment, HasBit(ind, WIN_CHECKSUM), p))
    else
      var len :- ReadVarint(p);
      var pos :- ReadVarint(p[len.size..]);
      var segment :=
        if HasBit(ind, WIN_SOURCE) then FromSource(pos.value, len.value) else FromTarget(pos.value, len.value);
      Ok(Head(segment, HasBit(ind, WIN_CHECKSUM), p[len.size..][pos.size..]))
  }

  /** The two fields of a segment, length first. */
  lemma SegmentFieldsParse(len: nat, pos: nat, rest: seq<byte>)
    requires len < Varint.VARINT_LIMIT && pos < Varint.VARINT_LIMIT
    ensures var s := Varint.Write(len) + Varint.Write(pos) + rest;
            var n := |Varint.Write(len)|;
            && ReadVarint(s) == Ok(Varint.Varint(len, n)) && n <= |s|
            && ReadVarint(s[n..]) == Ok(Varint.Varint(pos, |Varint.Write(pos)|))
            && |Varint.Write(pos)| <= |s[n..]| && s[n..][|Varint.Write(pos)|..] == rest
  {
    Assoc(Varint.Write(len), Varint.Write(pos), rest);
    Varint.RoundTrip(len, Varint.Write(pos) + rest);
    Varint.RoundTrip(pos, rest);
  }

  /** Bit 0 of the indicator takes the segment from the source, else bit 1 from the target; the length comes first. */
  lemma {:induction false} HeadFields(ind: byte, len: nat, pos: nat, rest: seq<byte>)
    requires len < Varint.VARINT_LIMIT && pos < Varint.VARINT_LIMIT
    ensures ind % 4 == 0 ==> ParseHead([ind] + rest) == Ok(Head(NoSegment, ind / 4 % 2 == 1, rest))
    ensures ind % 4 != 0 ==>
              ParseHead([ind] + (Varint.Write(len) + Varint.Write(pos) + rest)) ==
              Ok(Head(if ind % 2 == 1 then FromSource(pos, len) else FromTarget(pos, len), ind / 4 % 2 == 1, rest))
  {
    if ind % 4 == 0 {
      assert ([ind] + rest)[1..] == rest;
    } else {
      var p := Varint.Write(len) + Varint.Write(pos) + rest;
      assert ([ind] + p)[1..] == p;
      SegmentFieldsParse(len, pos, rest);
    }
  }

  /** The delta encoding of a window: too long for what is left, or the four bytes of its checksum missing. */
  lemma {:induction false} ExtentFails(checksum: bool, len: nat, rest: seq<byte>)
    requires len < Varint.VARINT_LIMIT
    ensures |rest| < len + (if checksum then 4 else 0) <==>
            ParseExtent(checksum, Varint.Write(len) + rest) == Err(Truncated)
    ensures |rest| >= len + (if checksum then 4 else 0) ==>
            ParseExtent(checksum, Varint.Write(len) + rest)
            == Ok(Extent(rest[..len], rest[len + (if checksum then 4 else 0)..]))
  {
    Varint.RoundTrip(len, rest);
    if checksum && |rest| >= len + 4 {
      assert rest[len..][4..] == rest[len + 4..];
    }
  }

  /** Any of the three compression bits of the delta indicator is refused, and a missing indicator is a truncation. */
  lemma {:induction false} OpeningFails(target: nat, rest: seq<byte>)
    requires target < Varint.VARINT_LIMIT
    ensures rest == [] ==> ParseOpening(Varint.Write(target) + rest) == Err(Truncated)
    ensures rest != [] && rest[0] % 8 != 0 ==> ParseOpening(Varint.Write(target) + rest) == Err(SecondaryComp)
    ensures rest != [] && rest[0] % 8 == 0 ==>
              ParseOpening(Varint.Write(target) + rest) == Ok(Opening(target, rest[1..]))
  {
    Varint.RoundTrip(target, rest);
  }

  datatype Lengths = Lengths(data: nat, inst: nat, addr: nat, rest: seq<byte>)

  function ParseLengths(s: seq<byte>): Result<Lengths, Error>
  {
    var d :- ReadVarint(s);
    var s1 := s[d.size..];
    var i :- ReadVarint(s1);
    var s2 := s1[i.size..];
    var a :- ReadVarint(s2);
    Ok(Lengths(d.value, i.value, a.value, s2[a.size..]))
  }

  /** uint64_t, in which the source adds the three section lengths. */
  const SIZE_LIMIT := 0x1_0000_0000_0000_0000

  /**
   * The sections must lie in what is left. The sum is tested modulo 2^64; where that lets lengths through whose
   * true sum is too large, the sections would lie outside the delta and nothing is said of what follows.
   */
  function CutSections(segment: Segment, targetLen: nat, l: Lengths): Result<Window, Error>
  {
    if |l.rest| < (l.data + l.inst + l.addr) % SIZE_LIMIT then Err(Truncated)
    else if |l.rest| < l.data + l.inst + l.addr then Err(Wrapped)
    else
      Ok(Window(segment, targetLen, l.rest[..l.data], l.rest[l.data..l.data + l.inst],
                l.rest[l.data + l.inst..l.data + l.inst + l.addr]))
  }

  /** Three varints can wrap the sum, two cannot: it is harmless exactly if the wrapped sum is too large as well. */
  lemma WrappedExactly(segment: Segment, targetLen: nat, l: Lengths)
    requires |l.rest| < SIZE_LIMIT
    requires l.data < Varint.VARINT_LIMIT && l.inst < Varint.VARINT_LIMIT && l.addr < Varint.VARINT_LIMIT
    ensures var sum := l.data + l.inst + l.addr;
            && l.data + l.inst < SIZE_LIMIT
            && (CutSections(segment, targetLen, l) == Err(Wrapped) <==>
                  sum >= SIZE_LIMIT && sum - SIZE_LIMIT <= |l.rest|)
            && (CutSections(segment, targetLen, l).Ok? <==> sum <= |l.rest|)
            && (sum > |l.rest| && !(sum >= SIZE_LIMIT && sum - SIZE_LIMIT <= |l.rest|) ==>
                  CutSections(segment, targetLen, l) == Err(Truncated))
  {
    var sum := l.data + l.inst + l.addr;
    assert sum >= SIZE_LIMIT ==> sum % SIZE_LIMIT == sum - SIZE_LIMIT;
  }

  datatype Opening = Opening(targetLen: nat, rest: seq<byte>)

  /** The target length and the delta indicator. */
  function ParseOpening(s: seq<byte>): Result<Opening, Error>
  {
    var target :- ReadVarint(s);
    var p := s[target.size..];
    if p == [] then Err(Truncated)
    else if p[0] % DELTA_DECOMP != 0 then Err(SecondaryComp)
    else Ok(Opening(target.value, p[1..]))
  }

  /** The delta encoding of a window: its header and the three sections. */
  function ParseSections(segment: Segment, s: seq<byte>): Result<Window, Error>
  {
    var o :- ParseOpening(s);
    var l :- ParseLengths(o.rest);
    CutSections(segment, o.targetLen, l)
  }

  datatype Body = Body(window: Window, rest: seq<byte>)

  datatype Extent = Extent(encoding: seq<byte>, rest: seq<byte>)

  /** The length-delimited delta encoding; the four bytes of a checksum may follow and are skipped. */
  function ParseExtent(checksum: bool, s: seq<byte>): (r: Result<Extent, Error>)
    ensures r.Ok? ==> |r.value.rest| < |s|
  {
    var len :- ReadVarint(s);
    var p := s[len.size..];
    if |p| < len.value then Err(Truncated)
    else
      var q := p[len.value..];
      if !checksum then Ok(Extent(p[..len.value], q))
      else if |q| < CHECKSUM_SIZE then Err(Truncated)
      else Ok(Extent(p[..len.value], q[CHECKSUM_SIZE..]))
  }

  function ParseBody(h: Head): (r: Result<Body, Error>)
    ensures r.Ok? ==> |r.value.rest| < |h.rest|
  {
    var x :- ParseExtent(h.checksum, h.rest);
    var w :- ParseSections(h.segment, x.encoding);
    Ok(Body(w, x.rest))
  }

  function ParseWindows(s: seq<byte>): Result<seq<Window>, Error>
    decreases |s|
  {
    if s == [] then Ok([])
    else
      var h :- ParseHead(s);
      var b :- ParseBody(h);
      var more :- ParseWindows(b.rest);
      Ok([b.window] + more)
  }

  /** The file header; the windows follow it. */
  function ParseHeader(delta: seq<byte>): (r: Result<seq<byte>, Error>)
  {
    if |delta| < 5 then Err(Truncated)
    else if delta[..4] != MAGIC then Err(InvalidMagic)
    else if HasBit(delta[4], HDR_DECOMP) then Err(SecondaryComp)
    else if HasBit(delta[4], HDR_CODETBL) then Err(CustomTable)
    else Ok(delta[5..])
  }

  function ParseFile(delta: seq<byte>): Result<seq<Window>, Error>
  {
    var s :- ParseHeader(delta);
    ParseWindows(s)
  }

  /** The bytes of a segment; a missing source has none, not even an empty one. */
  function SegmentBytes(source: Option<seq<byte>>, out: seq<byte>, segment: Segment): Option<seq<byte>>
  {
    match segment
    case NoSegment => Some([])
    case FromSource(pos, len) =>
      if source.None? || pos + len > |source.value| then None else Some(source.value[pos..pos + len])
    case FromTarget(pos, len) => if pos + len > |out| then None else Some(out[pos..pos + len])
  }

  /** A segment lies wholly in the source, or in the output so far, and has its bytes. */
  lemma {:induction false} SegmentMeans(source: Option<seq<byte>>, out: seq<byte>, segment: Segment, k: nat)
    ensures var r := SegmentBytes(source, out, segment);
            match segment
            case NoSegment => r == Some([])
            case FromSource(pos, len) =>
              && (r.Some? <==> source.Some? && pos + len <= |source.value|)
              && (r.Some? ==> |r.value| == len && (k < len ==> r.value[k] == source.value[pos + k]))
            case FromTarget(pos, len) =>
              && (r.Some? <==> pos + len <= |out|)
              && (r.Some? ==> |r.value| == len && (k < len ==> r.value[k] == out[pos + k]))
  {
  }

  function Start(w: Window, seg: seq<byte>): Sections
  {
    Sections(w.inst, w.data, w.addr, EmptyCache(), |seg|)
  }

  /** The target of one window, given the output of the windows before it. */
  function WindowTarget(source: Option<seq<byte>>, out: seq<byte>, w: Window): Option<seq<byte>>
  {
    match SegmentBytes(source, out, w.segment)
    case None => None
    case Some(seg) =>
      match ParseInsts([], Start(w, seg))
      case Err(_) => None
      case Ok(insts) =>
        var t := Eval(seg, [], insts);
        if t.Some? && |t.value| == w.targetLen then t else None
  }

  function Output(source: Option<seq<byte>>, out: seq<byte>, ws: seq<Window>): Option<seq<byte>>
    decreases |ws|
  {
    if ws == [] then Some(out)
    else
      match WindowTarget(source, out, ws[0])
      case None => None
      case Some(t) => Output(source, out + t, ws[1..])
  }

  /** What a delta makes of a source, if it is well formed and valid for it. */
  function Meaning(source: Option<seq<byte>>, delta: seq<byte>): Option<seq<byte>>
  {
    match ParseFile(delta)
    case Err(_) => None
    case Ok(ws) => Output(source, [], ws)
  }
}
