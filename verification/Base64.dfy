/** Base64 in the alphabet of section 4 of RFC 4648, over byte buffers as the source uses it. */
module Base64 {
  import opened Bytes

  const PAD: byte := 61
  const PADDING := -2
  const INVALID := -1

  /** The encoding table: 'A'..'Z', 'a'..'z', '0'..'9', '+', '/'. */
  function Digit(v: int): (c: byte)
    requires 0 <= v < 64
    ensures Value(c) == v && !IsBlank(c)
  {
    if v < 26 then v + 65
    else if v < 52 then v + 71
    else if v < 62 then v - 4
    else if v == 62 then 43
    else 47
  }

  /** The decoding table. */
  function Value(c: byte): (v: int)
    ensures PADDING <= v < 64
  {
    if 65 <= c <= 90 then c - 65
    else if 97 <= c <= 122 then c - 71
    else if 48 <= c <= 57 then c + 4
    else if c == 43 then 62
    else if c == 47 then 63
    else if c == PAD then PADDING
    else INVALID
  }

  /** Trailing bytes that the decoder skips: NUL, line feed, carriage return, space. */
  predicate IsBlank(c: byte)
  {
    c == 0 || c == 10 || c == 13 || c == 32
  }

  function EncodeLen(n: nat): nat
  {
    (n + 2) / 3 * 4 + 1
  }

  function DecodeMaxLen(n: nat): nat
  {
    n / 4 * 3 + 3
  }

  // ---------------------------------------------------------------- encoding

  /** The six-bit groups of a 24-bit triple, padded after the first `digits`. */
  function Quad(a: byte, b: byte, c: byte, digits: nat): (q: seq<byte>)
    ensures |q| == 4
  {
    [Digit(a / 4),
     Digit(a % 4 * 16 + b / 16),
     if digits > 2 then Digit(b % 16 * 4 + c / 64) else PAD,
     if digits > 3 then Digit(c % 64) else PAD]
  }

  function Encode(s: seq<byte>): seq<byte>
  {
    if s == [] then []
    else if |s| == 1 then Quad(s[0], 0, 0, 2)
    else if |s| == 2 then Quad(s[0], s[1], 0, 3)
    else Quad(s[0], s[1], s[2], 4) + Encode(s[3..])
  }

  lemma {:induction false} EncodeLength(s: seq<byte>)
    ensures |Encode(s)| == EncodeLen(|s|) - 1
  {
    if |s| >= 3 {
      EncodeLength(s[3..]);
      assert EncodeLen(|s|) == EncodeLen(|s| - 3) + 4;
    } else {
      assert EncodeLen(0) == 1 && EncodeLen(1) == 5 && EncodeLen(2) == 5;
    }
  }

  /** The shifts and masks of the source pick the six-bit groups. */
  lemma TripleDigits(a: byte, b: byte, c: byte)
    ensures var t := a * 65536 + b * 256 + c;
            && t / 262144 % 64 == a / 4 && t / 4096 % 64 == a % 4 * 16 + b / 16
            && t / 64 % 64 == b % 16 * 4 + c / 64 && t % 64 == c % 64
  {
    var t := a * 65536 + b * 256 + c;
    Divides(t, 262144, a / 4, a % 4 * 65536 + b * 256 + c);
    Divides(a / 4, 64, 0, a / 4);
    Divides(t, 4096, a * 16 + b / 16, b % 16 * 256 + c);
    Divides(a * 16 + b / 16, 64, a / 4, a % 4 * 16 + b / 16);
    Divides(t, 64, a * 1024 + b * 4 + c / 64, c % 64);
    Divides(a * 1024 + b * 4 + c / 64, 64, a * 16 + b / 16, b % 16 * 4 + c / 64);
  }

  lemma Divides(t: nat, m: nat, q: nat, r: nat)
    requires r < m && t == m * q + r
    ensures t / m == q && t % m == r
  {
    var d := t / m - q;
    assert m * d == r - t % m;
    assert d == 0;
  }

  method EncodeTo(dst: array<byte>, src: seq<byte>) returns (o: nat)
    requires dst.Length >= EncodeLen(|src|)
    modifies dst
    ensures o == EncodeLen(|src|) - 1
    ensures dst[..o] == Encode(src) && dst[o] == 0
    ensures dst[o + 1..] == old(dst[o + 1..])
  {
    var i: nat := 0;
    o := 0;
    assert src[0..] == src;
    ghost var text := Encode(src);
    assert |text| < dst.Length by {
      EncodeLength(src);
    }
    while i + 2 < |src|
      invariant i <= |src| && o <= dst.Length && |text| < dst.Length
      invariant dst[..o] + Encode(src[i..]) == text
      invariant dst[o..] == old(dst[o..])
    {
      assert Encode(src[i..]) == Quad(src[i], src[i + 1], src[i + 2], 4) + Encode(src[i + 3..]) by {
        assert src[i..][3..] == src[i + 3..];
      }
      ghost var before := dst[..o];
      o := PutQuad(dst, o, src[i], src[i + 1], src[i + 2], 4);
      Assoc(before, Quad(src[i], src[i + 1], src[i + 2], 4), Encode(src[i + 3..]));
      i := i + 3;
    }
    ghost var before, rest := dst[..o], src[i..];
    if i < |src| {
      var two := i + 1 < |src|;
      o := PutQuad(dst, o, src[i], if two then src[i + 1] else 0, 0, if two then 3 else 2);
    }
    assert dst[..o] == before + Encode(rest);
    assert dst[o..] == old(dst[o..]);
    ghost var tail := dst[o + 1..];
    assert tail == dst[o..][1..];
    dst[o] := 0;
    assert dst[..o] == text && dst[o + 1..] == tail;
    EncodeLength(src);
  }

  /** The source assembles the triple and shifts the groups out of it. */
  method Sextets(a: byte, b: byte, c: byte) returns (v0: nat, v1: nat, v2: nat, v3: nat)
    ensures v0 == a / 4 && v1 == a % 4 * 16 + b / 16 && v2 == b % 16 * 4 + c / 64 && v3 == c % 64
  {
    var triple: nat := a * 65536 + b * 256 + c;
    TripleDigits(a, b, c);
    v0, v1, v2, v3 := triple / 262144 % 64, triple / 4096 % 64, triple / 64 % 64, triple % 64;
  }

  /** Four characters from a triple, of which the first `digits` carry its bits. */
  method PutQuad(dst: array<byte>, o: nat, a: byte, b: byte, c: byte, digits: nat) returns (next: nat)
    requires o + 4 <= dst.Length && 2 <= digits <= 4
    modifies dst
    ensures next == o + 4
    ensures dst[..next] == old(dst[..o]) + Quad(a, b, c, digits)
    ensures dst[next..] == old(dst[next..])
  {
    var v0, v1, v2, v3 := Sextets(a, b, c);
    dst[o] := Digit(v0);
    dst[o + 1] := Digit(v1);
    dst[o + 2] := if digits > 2 then Digit(v2) else PAD;
    dst[o + 3] := if digits > 3 then Digit(v3) else PAD;
    next := o + 4;
    assert dst[..o] == old(dst[..o]);
  }

  // ---------------------------------------------------------------- decoding

  function Strip(s: seq<byte>): (r: seq<byte>)
    ensures |r| <= |s|
  {
    if s != [] && IsBlank(s[|s| - 1]) then Strip(s[..|s| - 1]) else s
  }

  /** Four characters: undecodable, the last ones, or three full bytes. */
  datatype Group = Bad | Last(bytes: seq<byte>) | Full(bytes: seq<byte>)

  function DecodeGroup(s: seq<byte>): (g: Group)
    requires |s| >= 4
    ensures !g.Bad? ==> |g.bytes| <= 3
  {
    var a, b, c, d := Value(s[0]), Value(s[1]), Value(s[2]), Value(s[3]);
    if a < 0 || b < 0 then Bad
    else if c == PADDING then Last([a * 4 + b / 16])
    else if c < 0 then Bad
    else if d == PADDING then Last([a * 4 + b / 16, b % 16 * 16 + c / 4])
    else if d < 0 then Bad
    else Full([a * 4 + b / 16, b % 16 * 16 + c / 4, c % 4 * 64 + d])
  }

  function Prefixed(p: seq<byte>, r: Option<seq<byte>>): Option<seq<byte>>
  {
    match r case None => None case Some(v) => Some(p + v)
  }

  lemma PrefixedNothing(r: Option<seq<byte>>)
    ensures Prefixed([], r) == r
  {
    if r.Some? {
      assert [] + r.value == r.value;
    }
  }

  /** Groups of four up to the first padding; a rest of fewer than four characters is ignored. */
  function DecodeQuads(s: seq<byte>): Option<seq<byte>>
  {
    if |s| < 4 then Some([])
    else
      match DecodeGroup(s)
      case Bad => None
      case Last(bytes) => Some(bytes)
      case Full(bytes) => Prefixed(bytes, DecodeQuads(s[4..]))
  }

  function Decode(s: seq<byte>): Option<seq<byte>>
  {
    DecodeQuads(Strip(s))
  }

  /** What decodes is shorter than the advertised maximum, so a buffer of that size never overflows. */
  lemma DecodeFits(s: seq<byte>)
    ensures Decode(s).Some? ==> |Decode(s).value| < DecodeMaxLen(|s|)
  {
    QuadsBound(Strip(s));
  }

  lemma {:induction false} QuadsBound(s: seq<byte>)
    ensures DecodeQuads(s).Some? ==> |DecodeQuads(s).value| <= |s| / 4 * 3
  {
    if |s| >= 4 {
      QuadsBound(s[4..]);
    }
  }

  /** One group, byte by byte against the room that is left. */
  method DecodeGroupTo(dst: array<byte>, dstLen: nat, o: nat, s: seq<byte>) returns (ok: bool, last: bool, next: nat)
    requires dstLen <= dst.Length && o <= dstLen && |s| >= 4
    modifies dst
    ensures var g := DecodeGroup(s);
            && (ok <==> !g.Bad? && o + |g.bytes| <= dstLen)
            && (ok ==> next == o + |g.bytes| && last == g.Last? && dst[..next] == old(dst[..o]) + g.bytes)
    ensures dst[dstLen..] == old(dst[dstLen..])
  {
    last, next := false, o;
    var a, b, c, d := Value(s[0]), Value(s[1]), Value(s[2]), Value(s[3]);
    if a < 0 || b < 0 || next + 1 > dstLen {
      return false, false, o;
    }
    dst[next] := a * 4 + b / 16;
    next := next + 1;
    if c == PADDING {
      return true, true, next;
    }
    if c < 0 || next + 1 > dstLen {
      return false, false, o;
    }
    dst[next] := b % 16 * 16 + c / 4;
    next := next + 1;
    if d == PADDING {
      return true, true, next;
    }
    if d < 0 || next + 1 > dstLen {
      return false, false, o;
    }
    dst[next] := c % 4 * 64 + d;
    next := next + 1;
    ok := true;
  }

  /** The decoder fails exactly on text it cannot decode or on a result larger than the buffer. */
  method DecodeTo(dst: array<byte>, dstLen: nat, src: seq<byte>) returns (ok: bool, olen: nat)
    requires dstLen <= dst.Length
    modifies dst
    ensures ok <==> Decode(src).Some? && |Decode(src).value| <= dstLen
    ensures ok ==> olen <= dstLen && dst[..olen] == Decode(src).value
    ensures dst[dstLen..] == old(dst[dstLen..])
  {
    var srcLen := StrippedLength(src);
    ghost var s := src[..srcLen];
    var o: nat, i: nat := 0, 0;
    assert s[0..] == s;
    PrefixedNothing(DecodeQuads(s));
    while i + 3 < srcLen
      invariant i <= srcLen && o <= dstLen
      invariant Decode(src) == Prefixed(dst[..o], DecodeQuads(s[i..]))
      invariant dst[dstLen..] == old(dst[dstLen..])
    {
      ghost var before, g, more := dst[..o], DecodeGroup(s[i..]), DecodeQuads(s[i + 4..]);
      assert s[i..][4..] == s[i + 4..];
      assert DecodeGroup(src[i..]) == g;
      var last;
      ok, last, o := DecodeGroupTo(dst, dstLen, o, src[i..]);
      if !ok {
        return false, 0;
      }
      if last {
        return true, o;
      }
      if more.Some? {
        Assoc(before, g.bytes, more.value);
      }
      i := i + 4;
    }
    assert dst[..o] + [] == dst[..o];
    return true, o;
  }

  method StrippedLength(src: seq<byte>) returns (n: nat)
    ensures n <= |src| && Strip(src) == src[..n]
  {
    n := |src|;
    assert src[..n] == src;
    while n > 0 && IsBlank(src[n - 1])
      invariant n <= |src| && Strip(src) == Strip(src[..n])
    {
      assert src[..n][..n - 1] == src[..n - 1];
      n := n - 1;
    }
    assert n > 0 ==> src[..n][n - 1] == src[n - 1];
    assert Strip(src[..n]) == src[..n];
  }

  // ---------------------------------------------------------------- round trip

  lemma GroupRoundTrip(a: byte, b: byte, c: byte, digits: nat, rest: seq<byte>)
    requires 2 <= digits <= 4 && (digits < 4 ==> c == 0) && (digits < 3 ==> b == 0)
    ensures DecodeGroup(Quad(a, b, c, digits) + rest)
         == if digits == 2 then Last([a]) else if digits == 3 then Last([a, b]) else Full([a, b, c])
  {
    var s := Quad(a, b, c, digits) + rest;
    assert Value(s[0]) == a / 4 && Value(s[1]) == a % 4 * 16 + b / 16;
    assert Value(s[2]) == if digits > 2 then b % 16 * 4 + c / 64 else PADDING;
    assert Value(s[3]) == if digits > 3 then c % 64 else PADDING;
    Divides(a % 4 * 16 + b / 16, 16, a % 4, b / 16);
    Divides(b % 16 * 4 + c / 64, 4, b % 16, c / 64);
  }

  /** Three bytes are the first group of the text. */
  lemma {:induction false} FirstGroup(s: seq<byte>, rest: seq<byte>)
    requires |s| > 2
    ensures DecodeQuads(Encode(s) + rest) == Prefixed(s[..3], DecodeQuads(Encode(s[3..]) + rest))
  {
    var more, t := Encode(s[3..]) + rest, Encode(s) + rest;
    Assoc(Quad(s[0], s[1], s[2], 4), Encode(s[3..]), rest);
    assert t == Quad(s[0], s[1], s[2], 4) + more && t[4..] == more;
    GroupRoundTrip(s[0], s[1], s[2], 4, more);
    assert s[..3] == [s[0], s[1], s[2]];
  }

  lemma {:induction false} PaddedGroup(s: seq<byte>, rest: seq<byte>)
    requires 1 <= |s| <= 2
    ensures DecodeQuads(Encode(s) + rest) == Some(s)
  {
    if |s| == 1 {
      GroupRoundTrip(s[0], 0, 0, 2, rest);
      assert s == [s[0]];
    } else {
      GroupRoundTrip(s[0], s[1], 0, 3, rest);
      assert s == [s[0], s[1]];
    }
  }

  /** What a text decodes to, or why not, is decided from its first group on. */
  lemma {:induction false} GroupByGroup(s: seq<byte>, rest: seq<byte>, tail: Option<seq<byte>>)
    requires |s| > 2 && DecodeQuads(Encode(s[3..]) + rest) == tail
    ensures DecodeQuads(Encode(s) + rest) == Prefixed(s[..3], tail)
  {
    FirstGroup(s, rest);
  }

  /** Text decodes to its bytes; after padding anything may follow, and otherwise fewer than four characters. */
  lemma {:induction false} QuadsThenRest(s: seq<byte>, rest: seq<byte>)
    requires |s| % 3 != 0 || |rest| < 4
    ensures DecodeQuads(Encode(s) + rest) == Some(s)
  {
    if s == [] {
      assert Encode(s) + rest == rest;
    } else if |s| <= 2 {
      PaddedGroup(s, rest);
    } else {
      ThreeLess(s);
      QuadsThenRest(s[3..], rest);
      GroupByGroup(s, rest, Some(s[3..]));
      assert s == s[..3] + s[3..];
    }
  }

  lemma ThreeLess(s: seq<byte>)
    requires |s| >= 3
    ensures |s[3..]| % 3 == |s| % 3
  {
  }

  lemma {:induction false} EncodedEndsInText(s: seq<byte>)
    requires s != []
    ensures var e := Encode(s); e != [] && !IsBlank(e[|e| - 1])
  {
    if |s| > 3 {
      EncodedEndsInText(s[3..]);
    }
  }

  lemma {:induction false} StripBlanks(s: seq<byte>, blanks: seq<byte>)
    requires s == [] || !IsBlank(s[|s| - 1])
    requires forall k :: 0 <= k < |blanks| ==> IsBlank(blanks[k])
    ensures Strip(s + blanks) == s
  {
    if blanks == [] {
      assert s + blanks == s;
    } else {
      var t := s + blanks;
      assert t[..|t| - 1] == s + blanks[..|blanks| - 1];
      StripBlanks(s, blanks[..|blanks| - 1]);
    }
  }

  /** Every byte string survives encoding and decoding, also with blanks after the text. */
  lemma {:induction false} RoundTrip(s: seq<byte>, blanks: seq<byte>)
    requires forall k :: 0 <= k < |blanks| ==> IsBlank(blanks[k])
    ensures Decode(Encode(s) + blanks) == Some(s)
  {
    if s != [] {
      EncodedEndsInText(s);
    }
    StripBlanks(Encode(s), blanks);
    QuadsThenRest(s, []);
    assert Encode(s) + [] == Encode(s);
  }

  /** Encoded text holds no NUL, so as a C string it is as long as it is. */
  lemma {:induction false} EncodeHasNoNul(s: seq<byte>)
    ensures 0 !in Encode(s)
  {
    if |s| >= 3 {
      EncodeHasNoNul(s[3..]);
    }
  }

  // ---------------------------------------------------------------- the alphabet, and what is passed over

  /** The alphabet in its order, both ways; every other character but the padding is undecodable. */
  lemma {:induction false} Alphabet(v: nat, c: byte)
    requires v < 64
    ensures Digit(v) ==
            if v < 26 then 'A' as int + v else if v < 52 then 'a' as int + (v - 26)
            else if v < 62 then '0' as int + (v - 52) else if v == 62 then '+' as int else '/' as int
    ensures Value(c) == PADDING <==> c == '=' as int
    ensures Value(c) >= 0 ==> Digit(Value(c)) == c
    ensures Value(c) < 0 ==> c != Digit(v)
    ensures IsBlank(c) <==> c in {0, '\n' as int, '\r' as int, ' ' as int}
  {
  }

  /** Up to three characters after complete groups are passed over, and so is everything after a padded group. */
  lemma {:induction false} RestIsPassedOver(s: seq<byte>, rest: seq<byte>)
    requires rest == [] || !IsBlank(rest[|rest| - 1])
    requires |s| % 3 != 0 || |rest| < 4
    ensures Decode(Encode(s) + rest) == Some(s)
  {
    if rest == [] {
      RoundTrip(s, rest);
    } else {
      var t := Encode(s) + rest;
      assert t[|t| - 1] == rest[|rest| - 1];
      QuadsThenRest(s, rest);
    }
  }

  /** A character that is no digit, met before any padding, spoils the text. */
  lemma {:induction false} BadCharacterSpoils(s: seq<byte>, q: seq<byte>, rest: seq<byte>)
    requires |s| % 3 == 0 && |q| == 4 && (q + rest)[|q + rest| - 1] !in {0, 10, 13, 32}
    requires Value(q[0]) < 0 || Value(q[1]) < 0 || Value(q[2]) == INVALID
             || (Value(q[2]) != PADDING && Value(q[3]) == INVALID)
    ensures Decode(Encode(s) + (q + rest)) == None
  {
    var t := Encode(s) + (q + rest);
    assert t[|t| - 1] == (q + rest)[|q + rest| - 1];
    BadGroupSpoils(s, q, rest);
  }

  lemma {:induction false} BadGroupSpoils(s: seq<byte>, q: seq<byte>, rest: seq<byte>)
    requires |s| % 3 == 0 && |q| == 4 && DecodeGroup(q + rest).Bad?
    ensures DecodeQuads(Encode(s) + (q + rest)) == None
  {
    if s == [] {
      assert Encode(s) + (q + rest) == q + rest;
    } else {
      ThreeLess(s);
      BadGroupSpoils(s[3..], q, rest);
      GroupByGroup(s, q + rest, None);
    }
  }
}
