/**
 * The payload path of a channel: base64, VCDIFF and the two alternating buffers of which the active
 * one is the base of the next delta.
 */
module DeltaChannel {
  import opened Bytes
  import Base64
  import F = VcdiffFormat
  import D = VcdiffDecoder
  import E = VcdiffEncoder

  /** A C string: no NUL among its bytes. */
  type Text = s: seq<byte> | 0 !in s

  datatype DeltaFormat = NoDelta | Vcdiff | OtherDelta

  /** An inbound message; `base64` says that its encoding mentions base64. */
  datatype Message = Message(data: Option<Text>, base64: bool, delta: DeltaFormat)

  /** What the subscribers get: nothing, or a payload that may be absent. */
  datatype Dispatch = Dropped | Dispatched(payload: Option<Text>)

  /** The C string at the start of a buffer. */
  function CString(s: seq<byte>): (r: Text)
    ensures |r| <= |s| && r == s[..|r|]
    ensures |r| < |s| ==> s[|r|] == 0
    ensures 0 !in s ==> r == s
  {
    if s == [] || s[0] == 0 then [] else [s[0]] + CString(s[1..])
  }

  lemma {:induction false} CStringOfTerminated(s: seq<byte>, n: nat)
    requires n < |s| && s[n] == 0 && forall k :: 0 <= k < n ==> s[k] != 0
    ensures CString(s) == s[..n]
  {
    if n > 0 {
      CStringOfTerminated(s[1..], n - 1);
      assert s[..n] == [s[0]] + s[1..][..n - 1];
    }
  }

  lemma {:induction false} CStringStopsAtNul(s: seq<byte>, rest: seq<byte>)
    ensures CString(s + [0] + rest) == CString(s)
  {
    var t := s + [0] + rest;
    if s != [] {
      CStringStopsAtNul(s[1..], rest);
      assert t[1..] == s[1..] + [0] + rest;
    }
  }

  // ---------------------------------------------------------------- the path as a function

  datatype Step = Step(dispatch: Dispatch, base: seq<byte>)

  /** What a delta text makes of a base within the buffers, if anything. */
  function Patched(cap: nat, base: seq<byte>, text: seq<byte>): Option<seq<byte>>
  {
    if Base64.DecodeMaxLen(|text|) > cap || Base64.Decode(text).None? then None
    else
      var p := F.Meaning(Some(base), Base64.Decode(text).value);
      if p.Some? && |p.value| < cap then p else None
  }

  /** A payload without delta: base64 is undone where it can be, within the buffer. */
  function Undeltaed(cap: nat, m: Message): Option<Text>
  {
    if m.data.Some? && m.base64 && m.delta == NoDelta then
      var d := Base64.Decode(m.data.value);
      if d.Some? && |d.value| < cap then Some(CString(d.value)) else m.data
    else m.data
  }

  function Receive(enabled: bool, cap: nat, base: seq<byte>, m: Message): Step
  {
    if enabled && m.delta == Vcdiff then
      var p := Patched(cap, base, if m.data.Some? then m.data.value else []);
      if p.None? then Step(Dropped, base) else Step(Dispatched(Some(CString(p.value))), p.value)
    else if enabled && m.data.Some? then
      Step(Dispatched(m.data), if |m.data.value| < cap then m.data.value else base)
    else Step(Dispatched(Undeltaed(cap, m)), base)
  }

  /** A channel without deltas passes data on, undoing base64 where it can, and has no base to change. */
  lemma WithoutDeltas(cap: nat, base: seq<byte>, m: Message)
    ensures Receive(false, cap, base, m).base == base
    ensures m.data.None? || !m.base64 || m.delta != NoDelta ==>
              Receive(false, cap, base, m).dispatch == Dispatched(m.data)
    ensures m.data.Some? && m.base64 && m.delta == NoDelta ==>
              var d := Base64.Decode(m.data.value);
              Receive(false, cap, base, m).dispatch ==
              Dispatched(Some(if d.Some? && |d.value| < cap then CString(d.value) else m.data.value))
  {
  }

  /** A channel with deltas patches VCDIFF, and passes on and stores everything else as it is. */
  lemma WithDeltas(cap: nat, base: seq<byte>, m: Message)
    ensures m.delta != Vcdiff && m.data.None? ==> Receive(true, cap, base, m) == Step(Dispatched(None), base)
    ensures m.delta != Vcdiff && m.data.Some? ==>
              Receive(true, cap, base, m) ==
              Step(Dispatched(m.data), if |m.data.value| < cap then m.data.value else base)
    ensures m.delta == Vcdiff ==>
              var text := if m.data.Some? then m.data.value else [];
              var raw := Base64.Decode(text);
              if |text| / 4 * 3 + 3 <= cap && raw.Some?
                 && F.Meaning(Some(base), raw.value).Some? && |F.Meaning(Some(base), raw.value).value| < cap
              then
                var p := F.Meaning(Some(base), raw.value).value;
                Receive(true, cap, base, m) == Step(Dispatched(Some(CString(p))), p)
              else Receive(true, cap, base, m) == Step(Dropped, base)
  {
  }

  // ---------------------------------------------------------------- the buffers

  class DeltaState {
    const cap: nat
    const bufs: seq<array<byte>>
    var enabled: bool
    var lens: seq<nat>
    var idx: nat

    ghost predicate Valid()
      reads this
    {
      && cap > 0 && |bufs| == 2 && bufs[0] != bufs[1]
      && bufs[0].Length == cap && bufs[1].Length == cap
      && |lens| == 2 && lens[0] <= cap && lens[1] <= cap && idx < 2
    }

    /** The active buffer's contents: the base of the next delta. */
    ghost function Base(): seq<byte>
      requires Valid()
      reads this, bufs
    {
      bufs[idx][..lens[idx]]
    }

    constructor (cap: nat, enabled: bool)
      requires cap > 0
      ensures Valid() && Base() == [] && this.cap == cap && this.enabled == enabled
      ensures fresh(bufs[0]) && fresh(bufs[1])
    {
      this.cap, this.enabled := cap, enabled;
      var b0, b1 := new byte[cap](_ => 0), new byte[cap](_ => 0);
      bufs, lens, idx := [b0, b1], [0, 0], 0;
    }

    /** The delta branch: the result goes to the inactive buffer, which becomes the active one. */
    method ApplyDelta(text: Text) returns (d: Dispatch)
      requires Valid()
      modifies this`lens, this`idx, bufs[1 - idx]
      ensures Valid()
      ensures var p := Patched(cap, old(Base()), text);
              if p.None? then d == Dropped && Base() == old(Base()) && idx == old(idx) && lens == old(lens)
              else d == Dispatched(Some(CString(p.value))) && Base() == p.value
    {
      var src, dst := idx, 1 - idx;
      var ok, outLen := DecodePatch(bufs[src][..lens[src]], text, bufs[dst]);
      if !ok {
        return Dropped;
      }
      var payload := Terminate(bufs[dst], outLen);
      lens := lens[dst := outLen];
      idx := dst;
      return Dispatched(Some(payload));
    }

    /** A full message becomes the new base if it fits. */
    method StoreFull(data: Text)
      requires Valid()
      modifies this`lens, this`idx, bufs[1 - idx]
      ensures Valid() && Base() == if |data| < cap then data else old(Base())
    {
      var dst := 1 - idx;
      if |data| < cap {
        var buf := bufs[dst];
        forall k | 0 <= k < |data| {
          buf[k] := data[k];
        }
        lens := lens[dst := |data|];
        idx := dst;
      }
    }

    /** Base64 without a delta is undone, in a buffer of its own, where it can be. */
    method Resolve(m: Message) returns (resolved: Option<Text>)
      requires Valid()
      ensures resolved == Undeltaed(cap, m)
    {
      resolved := m.data;
      if m.data.Some? && m.base64 && m.delta == NoDelta {
        var buf := new byte[cap];
        var ok, n := Base64.DecodeTo(buf, cap - 1, m.data.value);
        if ok {
          var s := Terminate(buf, n);
          resolved := Some(s);
        }
      }
    }

    /** One message, up to what the subscribers get; a dropped one leaves the active buffer alone. */
    method OnMessage(m: Message) returns (d: Dispatch)
      requires Valid()
      modifies this`lens, this`idx, bufs[1 - idx]
      ensures Valid()
      ensures Step(d, Base()) == Receive(enabled, cap, old(Base()), m)
      ensures d == Dropped ==> idx == old(idx) && lens == old(lens) && bufs[idx][..] == old(bufs[idx][..])
    {
      var resolved := Resolve(m);
      if enabled && m.delta == Vcdiff {
        d := ApplyDelta(if m.data.Some? then m.data.value else []);
      } else if enabled && m.data.Some? {
        StoreFull(m.data.value);
        d := Dispatched(m.data);
      } else {
        d := Dispatched(resolved);
      }
    }

    method OnDisconnect()
      requires Valid()
      modifies this`lens, this`idx
      ensures Valid() && Base() == []
    {
      lens, idx := [0, 0], 0;
    }

    /** A whole run of the channel against a sender. */
    method Play(sends: seq<Send>) returns (got: seq<Dispatch>)
      requires Valid()
      modifies this`lens, this`idx, bufs[0], bufs[1]
      ensures Valid()
      ensures (got, Base()) == Run(enabled, cap, old(Base()), sends)
      ensures !enabled && BinariesFit(cap, sends) ==> (got == Expected(sends) <==> PatchesAreTheirPayload(sends))
      ensures enabled && Faithful(cap, old(Base()), sends) ==>
                && (got == Expected(sends) <==> TextOnly(sends))
                && (TextOnly(sends) ==> Base() == LastPayload(old(Base()), sends))
    {
      got := [];
      ghost var base := Base();
      assert sends[0..] == sends && [] + Run(enabled, cap, base, sends).0 == Run(enabled, cap, base, sends).0;
      for i := 0 to |sends|
        invariant Valid()
        invariant var r := Run(enabled, cap, Base(), sends[i..]);
                  (got + r.0, r.1) == Run(enabled, cap, base, sends)
      {
        assert sends[i..][1..] == sends[i + 1..];
        if sends[i].Disconnect? {
          OnDisconnect();
        } else {
          var d := OnMessage(MessageOf(sends[i]));
          Assoc(got, [d], Run(enabled, cap, Base(), sends[i + 1..]).0);
          got := got + [d];
        }
      }
      assert got + [] == got;
      if enabled && Faithful(cap, base, sends) {
        ChainIsFaithful(cap, base, sends);
      } else if !enabled && BinariesFit(cap, sends) {
        PlainRunIsFaithful(cap, base, sends);
      }
    }
  }

  /** Base64, then VCDIFF: the raw delta passes through the buffer that then takes the result. */
  method DecodePatch(source: seq<byte>, text: Text, out: array<byte>) returns (ok: bool, outLen: nat)
    requires out.Length > 0
    modifies out
    ensures var p := Patched(out.Length, source, text);
            && (ok <==> p.Some?)
            && (ok ==> outLen < out.Length && out[..outLen] == p.value)
  {
    if Base64.DecodeMaxLen(|text|) > out.Length {
      return false, 0;
    }
    Base64.DecodeFits(text);
    var decoded, rawLen := Base64.DecodeTo(out, out.Length, text);
    if !decoded {
      return false, 0;
    }
    var raw := out[..rawLen];
    var st, n := D.Decode(Some(source), raw, out, out.Length - 1);
    return st == F.OK, n;
  }

  /** Writes the NUL after the first `n` bytes, which is within the buffer, and reads the C string. */
  method Terminate(buf: array<byte>, n: nat) returns (s: Text)
    requires n < buf.Length
    modifies buf
    ensures buf[..n] == old(buf[..n]) && s == CString(old(buf[..n]))
  {
    ghost var p := buf[..n];
    buf[n] := 0;
    s := ReadCString(buf, n);
    assert buf[..] == p + [0] + buf[n + 1..];
    CStringStopsAtNul(p, buf[n + 1..]);
  }

  /** Reads a buffer as a C string, given that it is terminated at `n`. */
  method ReadCString(buf: array<byte>, n: nat) returns (s: Text)
    requires n < buf.Length && buf[n] == 0
    ensures s == CString(buf[..])
  {
    var k := 0;
    while buf[k] != 0
      invariant k <= n && forall j :: 0 <= j < k ==> buf[j] != 0
      decreases n - k
    {
      k := k + 1;
    }
    CStringOfTerminated(buf[..], k);
    assert buf[..k] == buf[..][..k];
    s := buf[..k];
  }

  // ---------------------------------------------------------------- whole runs

  /** What a sender does: a full payload, bytes in base64, a payload as a delta text, or losing the connection. */
  datatype Send = Full(payload: Text) | Binary(bytes: seq<byte>) | Patch(payload: Text, text: Text) | Disconnect

  function MessageOf(s: Send): Message
    requires !s.Disconnect?
  {
    match s
    case Full(p) => Message(Some(p), false, NoDelta)
    case Binary(b) =>
      Base64.EncodeHasNoNul(b);
      Message(Some(Base64.Encode(b)), true, NoDelta)
    case Patch(_, text) => Message(Some(text), false, Vcdiff)
  }

  function Run(enabled: bool, cap: nat, base: seq<byte>, sends: seq<Send>): (seq<Dispatch>, seq<byte>)
    decreases |sends|
  {
    if sends == [] then ([], base)
    else if sends[0].Disconnect? then Run(enabled, cap, [], sends[1..])
    else
      var s := Receive(enabled, cap, base, MessageOf(sends[0]));
      var r := Run(enabled, cap, s.base, sends[1..]);
      ([s.dispatch] + r.0, r.1)
  }

  /** The sender's side: payloads fit, and each delta yields its payload from the one before it. */
  predicate Faithful(cap: nat, last: seq<byte>, sends: seq<Send>)
    decreases |sends|
  {
    sends == [] ||
    match sends[0]
    case Disconnect => Faithful(cap, [], sends[1..])
    case Full(p) => |p| < cap && Faithful(cap, p, sends[1..])
    case Binary(b) => |b| < cap && Faithful(cap, b, sends[1..])
    case Patch(p, text) =>
      && |p| < cap && Base64.DecodeMaxLen(|text|) <= cap
      && Base64.Decode(text).Some? && F.Meaning(Some(last), Base64.Decode(text).value) == Some(p)
      && Faithful(cap, p, sends[1..])
  }

  function PayloadOf(s: Send): seq<byte>
  {
    match s
    case Full(p) => p
    case Binary(b) => b
    case Patch(p, _) => p
    case Disconnect => []
  }

  /** Every payload sent, in order, as a C string. */
  function Expected(sends: seq<Send>): seq<Dispatch>
  {
    if sends == [] then []
    else if sends[0].Disconnect? then Expected(sends[1..])
    else [Dispatched(Some(CString(PayloadOf(sends[0]))))] + Expected(sends[1..])
  }

  function LastPayload(last: seq<byte>, sends: seq<Send>): seq<byte>
    decreases |sends|
  {
    if sends == [] then last else LastPayload(PayloadOf(sends[0]), sends[1..])
  }

  /** The sender puts no bytes into base64. */
  predicate TextOnly(sends: seq<Send>)
  {
    forall i :: 0 <= i < |sends| && sends[i].Binary? ==> sends[i].bytes == []
  }

  /**
   * A channel with deltas passes base64 on undecoded, and takes that text for the base, where one without deltas
   * decodes it: the two agree only on no bytes at all.
   */
  lemma BinaryIsNotDecoded(cap: nat, base: seq<byte>, b: seq<byte>)
    requires |b| < cap
    ensures var m, text := MessageOf(Binary(b)), Base64.Encode(b);
            && Receive(true, cap, base, m) == Step(Dispatched(Some(text)), if |text| < cap then text else base)
            && Receive(false, cap, base, m).dispatch == Dispatched(Some(CString(b)))
            && (text == CString(b) <==> b == []) && (text == b <==> b == [])
  {
    Base64.EncodeHasNoNul(b);
    Base64.EncodeLength(b);
    Base64.RoundTrip(b, []);
    assert Base64.Encode(b) + [] == Base64.Encode(b);
  }

  /**
   * Every payload is dispatched as it was sent exactly if no bytes were sent in base64, and then the base is always
   * the last payload.
   */
  lemma {:induction false} ChainIsFaithful(cap: nat, base: seq<byte>, sends: seq<Send>)
    requires cap > 0 && Faithful(cap, base, sends)
    ensures Run(true, cap, base, sends).0 == Expected(sends) <==> TextOnly(sends)
    ensures TextOnly(sends) ==> Run(true, cap, base, sends).1 == LastPayload(base, sends)
    decreases |sends|
  {
    if sends != [] {
      var s, rest := sends[0], sends[1..];
      TextOnlyStep(sends);
      ChainIsFaithful(cap, PayloadOf(s), rest);
      if !s.Disconnect? {
        var got, want := Receive(true, cap, base, MessageOf(s)), Dispatched(Some(CString(PayloadOf(s))));
        if s.Binary? {
          BinaryIsNotDecoded(cap, base, s.bytes);
        }
        assert got.dispatch == want ==> got.base == PayloadOf(s);
        Heads(got.dispatch, Run(true, cap, got.base, rest).0, want, Expected(rest));
      }
    }
  }

  /** Bytes put into base64 fit the buffer that undoes it. */
  predicate BinariesFit(cap: nat, sends: seq<Send>)
  {
    forall i :: 0 <= i < |sends| && sends[i].Binary? ==> |sends[i].bytes| < cap
  }

  predicate PatchesAreTheirPayload(sends: seq<Send>)
  {
    forall i :: 0 <= i < |sends| && sends[i].Patch? ==> sends[i].text == sends[i].payload
  }

  /**
   * A channel without deltas dispatches everything as it was sent, whatever its length, except that the text of a
   * delta goes out as it is.
   */
  lemma {:induction false} PlainRunIsFaithful(cap: nat, base: seq<byte>, sends: seq<Send>)
    requires BinariesFit(cap, sends)
    ensures Run(false, cap, base, sends).0 == Expected(sends) <==> PatchesAreTheirPayload(sends)
    decreases |sends|
  {
    if sends != [] {
      var s, rest := sends[0], sends[1..];
      assert forall i :: 0 <= i < |sends| - 1 ==> rest[i] == sends[i + 1];
      assert BinariesFit(cap, rest);
      assert PatchesAreTheirPayload(sends) <==> PatchesAreTheirPayload(rest) && (s.Patch? ==> s.text == s.payload);
      PlainRunIsFaithful(cap, if s.Disconnect? then [] else base, rest);
      if !s.Disconnect? {
        var got, want := Receive(false, cap, base, MessageOf(s)), Dispatched(Some(CString(PayloadOf(s))));
        if s.Binary? {
          BinaryIsNotDecoded(cap, base, s.bytes);
        }
        Heads(got.dispatch, Run(false, cap, base, rest).0, want, Expected(rest));
      }
    }
  }

  lemma Heads(a: Dispatch, s: seq<Dispatch>, b: Dispatch, t: seq<Dispatch>)
    ensures [a] + s == [b] + t <==> a == b && s == t
  {
    assert ([a] + s)[0] == a && ([a] + s)[1..] == s;
    assert ([b] + t)[0] == b && ([b] + t)[1..] == t;
  }

  lemma TextOnlyStep(sends: seq<Send>)
    requires sends != []
    ensures TextOnly(sends) <==> TextOnly(sends[1..]) && (sends[0].Binary? ==> sends[0].bytes == [])
  {
    assert forall i :: 0 <= i < |sends| - 1 ==> sends[1..][i] == sends[i + 1];
  }

  /** A delta made by the reference encoder and base64 is one that the chain accepts. */
  lemma EncodedPatchIsFaithful(cap: nat, last: seq<byte>, header: byte, plans: seq<E.Plan>, p: Text)
    requires forall n :: 0 <= n < |plans| ==> E.Sendable(plans[n])
    requires !HasBit(header, F.HDR_DECOMP) && !HasBit(header, F.HDR_CODETBL)
    requires E.PlansMean(Some(last), [], plans) == Some(p) && |p| < cap
    requires Base64.DecodeMaxLen(|Base64.Encode(E.EncodeFile(header, plans))|) <= cap
    ensures var text := Base64.Encode(E.EncodeFile(header, plans));
            0 !in text && Faithful(cap, last, [Patch(p, text)])
  {
    var delta := E.EncodeFile(header, plans);
    var text := Base64.Encode(delta);
    Base64.EncodeHasNoNul(delta);
    Base64.RoundTrip(delta, []);
    assert text + [] == text;
    E.FileRoundTrip(Some(last), header, plans);
  }
}
