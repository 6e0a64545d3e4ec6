/** Variable-length integers: big-endian groups of seven bits, the top bit set on all but the last. */
module Varint {
  import opened Bytes

  const MAX_VARINT_BYTES := 9
  /** 2^63: every nine-byte varint is below it, so no 64-bit shift in the source loses a bit. */
  const VARINT_LIMIT := 0x8000_0000_0000_0000

  datatype Varint = Varint(value: nat, size: nat)

  // ---------------------------------------------------------------- the format

  /** The number that the seven-bit groups of `s` spell out. */
  function Base128(s: seq<byte>): (v: nat)
  {
    if s == [] then 0 else Base128(s[..|s| - 1]) * 128 + s[|s| - 1] % 128
  }

  /** The first `n` bytes of `s` are exactly one varint. */
  ghost predicate IsVarint(s: seq<byte>, n: nat)
  {
    && 1 <= n <= MAX_VARINT_BYTES
    && n <= |s|
    && s[n - 1] < 128
    && forall i :: 0 <= i < n - 1 ==> s[i] >= 128
  }

  function Pow128(n: nat): nat
  {
    if n == 0 then 1 else 128 * Pow128(n - 1)
  }

  lemma {:induction false} Base128Bound(s: seq<byte>)
    ensures Base128(s) < Pow128(|s|)
  {
    if s != [] {
      Base128Bound(s[..|s| - 1]);
    }
  }

  // ------------------------------------------------------------- the reader

  /** The scan of the source: `n` bytes are already folded into `v`. */
  function Scan(s: seq<byte>, v: nat, n: nat): Option<Varint>
    requires n <= |s|
    decreases |s| - n
  {
    if n == |s| then None
    else
      var v' := v * 128 + s[n] % 128;
      if s[n] < 128 then Some(Varint(v', n + 1))
      else if n + 1 >= MAX_VARINT_BYTES then None
      else Scan(s, v', n + 1)
  }

  /** A varint at the front of `s`, if there is one. */
  function Read(s: seq<byte>): (r: Option<Varint>)
    ensures r.Some? ==> 1 <= r.value.size <= MAX_VARINT_BYTES && r.value.size <= |s|
    ensures r.Some? ==> r.value.value < VARINT_LIMIT
  {
    ScanBounds(s);
    Scan(s, 0, 0)
  }

  lemma {:induction false} ScanFinds(s: seq<byte>, v: nat, n: nat)
    requires n <= |s| && n < MAX_VARINT_BYTES
    requires v == Base128(s[..n])
    requires forall i :: 0 <= i < n ==> s[i] >= 128
    ensures forall x: Varint :: Scan(s, v, n) == Some(x) <==> IsVarint(s, x.size) && x.value == Base128(s[..x.size])
    decreases |s| - n
  {
    if n < |s| {
      assert s[..n + 1][..n] == s[..n];
      if s[n] >= 128 && n + 1 < MAX_VARINT_BYTES {
        ScanFinds(s, v * 128 + s[n] % 128, n + 1);
      }
    }
  }

  lemma ScanBounds(s: seq<byte>)
    ensures var r := Scan(s, 0, 0);
            r.Some? ==> 1 <= r.value.size <= MAX_VARINT_BYTES && r.value.size <= |s| && r.value.value < VARINT_LIMIT
  {
    ScanFinds(s, 0, 0);
    var r := Scan(s, 0, 0);
    if r.Some? {
      assert IsVarint(s, r.value.size);
      Base128Bound(s[..r.value.size]);
      Pow128Monotone(r.value.size, MAX_VARINT_BYTES);
      Pow128Nine();
    }
  }

  /** The reader accepts exactly the varints of the format, with exactly their value and length. */
  lemma ReadIsExact(s: seq<byte>, x: Varint)
    ensures Read(s) == Some(x) <==> IsVarint(s, x.size) && x.value == Base128(s[..x.size])
  {
    ScanFinds(s, 0, 0);
  }

  lemma {:induction false} Pow128Monotone(m: nat, n: nat)
    requires m <= n
    ensures Pow128(m) <= Pow128(n)
    decreases n - m
  {
    if m < n {
      Pow128Monotone(m, n - 1);
    }
  }

  lemma Pow128Nine()
    ensures Pow128(9) == VARINT_LIMIT
  {
  }

  /**
   * The source's loop over a buffer: `size` is the number of bytes consumed, 0 on truncation or overflow.
   */
  method ReadAt(buf: seq<byte>, pos: nat, end: nat) returns (size: nat, value: nat)
    requires pos <= end <= |buf|
    ensures size == 0 <==> Read(buf[pos..end]).None?
    ensures size != 0 ==> Read(buf[pos..end]) == Some(Varint(value, size)) && size <= end - pos
  {
    ghost var s := buf[pos..end];
    var v: nat, n: nat := 0, 0;
    while pos + n < end
      invariant pos + n <= end
      invariant n < MAX_VARINT_BYTES
      invariant Read(s) == Scan(s, v, n)
    {
      var b := buf[pos + n];
      assert b == s[n];
      n := n + 1;
      v := v * 128 + b % 128;
      if b < 128 {
        return n, v;
      }
      if n >= MAX_VARINT_BYTES {
        return 0, 0;
      }
    }
    return 0, 0;
  }

  // ------------------------------------------------------------- the writer

  /** The continued groups of a value, most significant first. */
  function HighGroups(v: nat): seq<byte>
  {
    if v == 0 then [] else HighGroups(v / 128) + [128 + v % 128]
  }

  /** The shortest varint of `v`. */
  function Write(v: nat): (s: seq<byte>)
    ensures s != []
  {
    HighGroups(v / 128) + [v % 128]
  }

  lemma {:induction false} HighGroupsSpell(v: nat, n: nat)
    requires v < Pow128(n)
    ensures Base128(HighGroups(v)) == v && |HighGroups(v)| <= n
    ensures forall i :: 0 <= i < |HighGroups(v)| ==> HighGroups(v)[i] >= 128
  {
    if v != 0 {
      var hi := HighGroups(v / 128);
      HighGroupsSpell(v / 128, n - 1);
      assert (hi + [128 + v % 128])[..|hi|] == hi;
    }
  }

  lemma LastGroup(hi: seq<byte>, d: byte)
    requires d < 128
    ensures Base128(hi + [d]) == Base128(hi) * 128 + d
  {
    var w := hi + [d];
    assert w[..|w| - 1] == hi && w[|w| - 1] == d;
    assert d % 128 == d;
  }

  lemma EightHighGroups(v: nat)
    requires v < VARINT_LIMIT
    ensures v / 128 < Pow128(8)
  {
    Pow128Nine();
  }

  lemma WriteIsVarint(v: nat)
    requires v < VARINT_LIMIT
    ensures IsVarint(Write(v), |Write(v)|) && Base128(Write(v)) == v
  {
    EightHighGroups(v);
    HighGroupsSpell(v / 128, 8);
    LastGroup(HighGroups(v / 128), v % 128);
  }

  /** Whatever follows it, a written value below 2^63 reads back whole. */
  lemma RoundTrip(v: nat, rest: seq<byte>)
    requires v < VARINT_LIMIT
    ensures Read(Write(v) + rest) == Some(Varint(v, |Write(v)|))
    ensures (Write(v) + rest)[|Write(v)|..] == rest
  {
    var w := Write(v);
    WriteIsVarint(v);
    assert (w + rest)[..|w|] == w;
    ReadIsExact(w + rest, Varint(v, |w|));
  }

  /** One byte below 128 is itself, two make a multiple of 128 and a rest. */
  lemma {:induction false} OneByte(b: byte, rest: seq<byte>)
    requires b < 128
    ensures Read([b] + rest) == Some(Varint(b, 1))
  {
    LastGroup([], b);
    assert ([b] + rest)[..1] == [] + [b];
    ReadIsExact([b] + rest, Varint(b, 1));
  }

  lemma {:induction false} TwoBytes(a: byte, b: byte, rest: seq<byte>)
    requires a < 128 && b < 128
    ensures Read([128 + a, b] + rest) == Some(Varint(a * 128 + b, 2))
  {
    var s := [128 + a, b] + rest;
    assert Base128([128 + a]) == a by {
      assert [128 + a][..0] == [];
    }
    LastGroup([128 + a], b);
    assert s[..2] == [128 + a] + [b];
    ReadIsExact(s, Varint(a * 128 + b, 2));
  }
}
