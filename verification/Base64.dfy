/** The base64 encoder and the two-pass decoder of base64.c, against the encoding of section 5.2 of RFC 1521.
    Shifts and masks on non-negative values are written as divisions and remainders by powers of two. */
module Base64 {
  import opened Bytes

  const PAD: byte := 61
  const SPACE: byte := 32
  const CR: byte := 13
  const LF: byte := 10
  const INVALID: byte := 127

  /** The entries of base64_enc_map: upper case, lower case, digits, plus and slash. */
  function EncMap(v: nat): byte
    requires v < 64
  {
    if v < 26 then 65 + v
    else if v < 52 then 71 + v
    else if v < 62 then v - 4
    else if v == 62 then 43
    else 47
  }

  /** The entries of base64_dec_map: 0 to 63 for symbols, 64 for the padding, 127 for everything else. */
  function DecMap(c: nat): (v: byte)
    requires c < 128
    ensures v <= 64 || v == INVALID
    ensures v == 64 <==> c == PAD
  {
    if 65 <= c <= 90 then c - 65
    else if 97 <= c <= 122 then c - 71
    else if 48 <= c <= 57 then c + 4
    else if c == 43 then 62
    else if c == 47 then 63
    else if c == PAD then 64
    else INVALID
  }

  /** The two maps are inverse to each other, in both directions. */
  lemma MapsAreInverse(v: nat, c: nat)
    ensures v < 64 ==> EncMap(v) < 128 && DecMap(EncMap(v)) == v
    ensures c < 128 && DecMap(c) < 64 ==> EncMap(DecMap(c)) == c
  {
  }

  predicate IsBreak(c: byte) {
    c == CR || c == LF || c == SPACE
  }

  /** What a byte stands for in the second pass: its six bits, with padding read as zero. */
  function SixBits(c: byte): (v: nat)
    ensures v < 64
  {
    if c < 128 then DecMap(c) % 64 else 0
  }

  //
  // Encoding
  //

  /** 24 bits as four symbols, the last one or two of which may be padding instead. */
  function Group(c1: byte, c2: byte, c3: byte, pads: nat): seq<byte> {
    [EncMap(c1 / 4 % 64), EncMap((c1 % 4 * 16 + c2 / 16) % 64),
     if pads >= 2 then PAD else EncMap((c2 % 16 * 4 + c3 / 64) % 64), if pads >= 1 then PAD else EncMap(c3 % 64)]
  }

  /** The alphabet of the encoding. */
  lemma Alphabet(v: nat)
    requires v < 64
    ensures EncMap(v) ==
            if v < 26 then 'A' as int + v
            else if v < 52 then 'a' as int + (v - 26)
            else if v < 62 then '0' as int + (v - 52)
            else if v == 62 then '+' as int else '/' as int
  {
  }

  /** The symbols of three bytes are the digits of their 24 bits, in base 64; fewer bytes are filled up with zeros, and
      the last symbols with padding. */
  lemma GroupDigits(c1: byte, c2: byte, c3: byte)
    ensures
      var g := Group(c1, c2, c3, 0);
      && |g| == 4 && (forall i | 0 <= i < 4 :: g[i] < 128)
      && c1 * 65536 + c2 * 256 + c3 ==
         ((DecMap(g[0]) * 64 + DecMap(g[1])) * 64 + DecMap(g[2])) * 64 + DecMap(g[3])
    ensures Group(c1, c2, 0, 1) == Group(c1, c2, 0, 0)[..3] + [61]
    ensures Group(c1, 0, 0, 2) == Group(c1, 0, 0, 0)[..2] + [61, 61]
  {
    hide DecMap, EncMap;
    var v1, v2, v3, v4 := c1 / 4 % 64, (c1 % 4 * 16 + c2 / 16) % 64, (c2 % 16 * 4 + c3 / 64) % 64, c3 % 64;
    MapsAreInverse(v1, 0);
    MapsAreInverse(v2, 0);
    MapsAreInverse(v3, 0);
    MapsAreInverse(v4, 0);
  }

  /** The encoding of a byte string, group by group. */
  function Encoded(src: seq<byte>): seq<byte> {
    if |src| == 0 then []
    else if |src| == 1 then Group(src[0], 0, 0, 2)
    else if |src| == 2 then Group(src[0], src[1], 0, 1)
    else Group(src[0], src[1], src[2], 0) + Encoded(src[3..])
  }

  /** Four symbols for every three bytes begun. */
  lemma {:induction false} EncodedSize(src: seq<byte>, t: nat, r: nat)
    requires |src| == 3 * t + r && r < 3
    ensures |Encoded(src)| == 4 * (if r == 0 then t else t + 1)
  {
    if t > 0 {
      EncodedSize(src[3..], t - 1, r);
    }
  }

  lemma {:induction false} EncodedAppend(a: seq<byte>, b: seq<byte>, t: nat)
    requires |a| == 3 * t
    ensures Encoded(a + b) == Encoded(a) + Encoded(b)
  {
    hide Group;
    if t == 0 {
      assert a + b == b;
    } else {
      EncodedAppend(a[3..], b, t - 1);
      assert (a + b)[3..] == a[3..] + b;
    }
  }

  datatype Code = Ok | BufferTooSmall | InvalidCharacter

  const SIZE_MAX: nat := 0xFFFF_FFFF

  /** mbedtls_base64_encode: the symbols and a terminating zero, if they fit. */
  method Encode(dst: array?<byte>, dlen: nat, src: seq<byte>) returns (code: Code, olen: nat)
    requires if dst == null then dlen == 0 else dlen <= dst.Length
    modifies if dst != null then {dst} else {}
    ensures |src| == 0 ==> code == Ok && olen == 0
    ensures |src| > 0 && |Encoded(src)| > SIZE_MAX - 1 ==> code == BufferTooSmall && olen == SIZE_MAX
    ensures 0 < |Encoded(src)| <= SIZE_MAX - 1 ==>
      if dlen < |Encoded(src)| + 1 then code == BufferTooSmall && olen == |Encoded(src)| + 1
      else code == Ok && olen == |Encoded(src)| && dst[..olen + 1] == Encoded(src) + [0]
    ensures dst != null && (code == BufferTooSmall || |src| == 0) ==> dst[..] == old(dst[..])
    ensures dst != null && code == Ok && |src| > 0 ==> dst[olen + 1..] == old(dst[olen + 1..])
  {
    hide *;
    var slen := |src|;
    if slen == 0 {
      EncodedNothing();
      return Ok, 0;
    }
    ghost var t, r := slen / 3, slen % 3;
    EncodedSize(src, t, r);
    var n := slen / 3 + (if slen % 3 != 0 then 1 else 0);
    if n > (SIZE_MAX - 1) / 4 {
      return BufferTooSmall, SIZE_MAX;
    }
    n := n * 4;
    if dlen < n + 1 {
      return BufferTooSmall, n + 1;
    }
    olen := PutAll(dst, src);
    code := Ok;
  }

  /** The writing part of the encoder, once the room has been found sufficient. */
  method PutAll(dst: array<byte>, src: seq<byte>) returns (olen: nat)
    requires |Encoded(src)| < dst.Length
    modifies dst
    ensures olen == |Encoded(src)| && dst[..olen + 1] == Encoded(src) + [0]
    ensures dst[olen + 1..] == old(dst[olen + 1..])
  {
    hide *;
    var slen := |src|;
    ghost var t, r := slen / 3, slen % 3;
    EncodedSize(src, t, r);
    var n := slen / 3 * 3;
    var i, p := 0, 0;
    ghost var g := 0;
    assert src[..0] == [];
    EncodedNothing();
    while i < n
      invariant 0 <= g <= t && i == 3 * g && p == 4 * g
      invariant dst[..p] == Encoded(src[..i])
      invariant forall k | p <= k < dst.Length :: dst[k] == old(dst[k])
    {
      PutGroup(dst, p, src[i], src[i + 1], src[i + 2]);
      EncodedNext(src, i, g);
      i, p, g := i + 3, p + 4, g + 1;
    }
    assert src == src[..i] + src[i..];
    EncodedAppend(src[..i], src[i..], t);
    if i < slen {
      PutTail(dst, p, src[i..]);
      p := p + 4;
    } else {
      EncodedNothing();
    }
    olen := p;
    dst[p] := 0;
    assert dst[..p + 1] == dst[..p] + [0];
  }

  /** The body of the loop: three bytes become four symbols. */
  method PutGroup(dst: array<byte>, p: nat, c1: byte, c2: byte, c3: byte)
    requires p + 4 <= dst.Length
    modifies dst
    ensures dst[..p + 4] == old(dst[..p]) + Group(c1, c2, c3, 0)
    ensures forall k | p + 4 <= k < dst.Length :: dst[k] == old(dst[k])
  {
    dst[p] := EncMap(c1 / 4 % 64);
    dst[p + 1] := EncMap((c1 % 4 * 16 + c2 / 16) % 64);
    dst[p + 2] := EncMap((c2 % 16 * 4 + c3 / 64) % 64);
    dst[p + 3] := EncMap(c3 % 64);
  }

  /** The one or two bytes left over, padded to a group. */
  method PutTail(dst: array<byte>, p: nat, tail: seq<byte>)
    requires p + 4 <= dst.Length && 1 <= |tail| <= 2
    modifies dst
    ensures dst[..p + 4] == old(dst[..p]) + Encoded(tail)
    ensures forall k | p + 4 <= k < dst.Length :: dst[k] == old(dst[k])
  {
    var c1 := tail[0];
    var c2 := if 1 < |tail| then tail[1] else 0;
    dst[p] := EncMap(c1 / 4 % 64);
    dst[p + 1] := EncMap((c1 % 4 * 16 + c2 / 16) % 64);
    if 1 < |tail| {
      dst[p + 2] := EncMap(c2 % 16 * 4 % 64);
    } else {
      dst[p + 2] := PAD;
    }
    dst[p + 3] := PAD;
  }

  lemma EncodedNothing()
    ensures Encoded([]) == []
  {
  }

  lemma EncodedNext(src: seq<byte>, i: nat, g: nat)
    requires i == 3 * g && i + 3 <= |src|
    ensures Encoded(src[..i + 3]) == Encoded(src[..i]) + Group(src[i], src[i + 1], src[i + 2], 0)
  {
    var s := src[i..i + 3];
    assert src[..i + 3] == src[..i] + s;
    EncodedAppend(src[..i], s, g);
    assert Encoded(s) == Group(s[0], s[1], s[2], 0) + Encoded(s[3..]) && Encoded(s[3..]) == [];
  }

  //
  // Decoding, first pass: check for validity and count the symbols
  //

  datatype Scan = Rejected | Accepted(symbols: nat, pads: nat)

  function LeadingSpaces(s: seq<byte>): (k: nat)
    ensures k <= |s| && (k < |s| ==> s[k] != SPACE)
    ensures forall i | 0 <= i < k :: s[i] == SPACE
  {
    if |s| > 0 && s[0] == SPACE then 1 + LeadingSpaces(s[1..]) else 0
  }

  /** The first pass from a point where n symbols, j of them padding, have been seen. Spaces may only
      precede a line break or the end; padding may only be followed by padding, twice at most. */
  function FirstPass(s: seq<byte>, n: nat, j: nat): Scan
    decreases |s|
  {
    var k := LeadingSpaces(s);
    if k == |s| then Accepted(n, j)
    else
      var c, rest := s[k], s[k + 1..];
      var j' := if c == PAD then j + 1 else j;
      if c == LF || (c == CR && |rest| > 0 && rest[0] == LF) then FirstPass(rest, n, j)
      else if k != 0 || j' > 2 || c > 127 || DecMap(c) == INVALID || (DecMap(c) < 64 && j' != 0) then Rejected
      else FirstPass(rest, n + 1, j')
  }

  /** The length the first pass promises. */
  function PromisedLength(n: nat, j: nat): int {
    if n == 0 then 0 else (n * 6 + 7) / 8 - j
  }

  //
  // Decoding, second pass
  //

  /** The second pass: bytes written, the 32-bit accumulator, symbols in the current group, and three less
      the padding seen. */
  datatype Decoder = Decoder(out: seq<byte>, x: nat, n: nat, j: int)

  const START := Decoder([], 0, 0, 3)

  function Feed(d: Decoder, c: byte): Decoder {
    if IsBreak(c) then d
    else
      var j := if c == PAD then d.j - 1 else d.j;
      var x := (d.x * 64 + SixBits(c)) % 0x1_0000_0000;
      if d.n + 1 == 4 then Decoder(d.out + GroupBytes(x, j), x, 0, j) else Decoder(d.out, x, d.n + 1, j)
  }

  /** The bytes of a complete group that the padding seen so far leaves. */
  function GroupBytes(x: nat, j: int): (r: seq<byte>)
    ensures |r| == if j <= 0 then 0 else if j >= 3 then 3 else j
  {
    (if j > 0 then [x / 0x1_0000 % 256] else []) +
    (if j > 1 then [x / 0x100 % 256] else []) +
    (if j > 2 then [x % 256] else [])
  }

  function FeedAll(d: Decoder, s: seq<byte>): Decoder
    decreases |s|
  {
    if |s| == 0 then d else FeedAll(Feed(d, s[0]), s[1..])
  }

  datatype Decoding = Invalid | TooSmall(needed: int) | Decoded(bytes: seq<byte>)

  /** What mbedtls_base64_decode answers for a buffer with room for dlen bytes, or for none at all. */
  function Decode(src: seq<byte>, room: bool, dlen: nat): Decoding {
    match FirstPass(src, 0, 0)
    case Rejected => Invalid
    case Accepted(n, j) =>
      if n == 0 then Decoded([])
      else if !room || dlen < PromisedLength(n, j) then TooSmall(PromisedLength(n, j))
      else Decoded(FeedAll(START, src).out)
  }

  //
  // What the two passes agree on
  //

  /** The symbols of a text: everything but line breaks and spaces. */
  function Symbols(s: seq<byte>): seq<byte> {
    if |s| == 0 then [] else (if IsBreak(s[0]) then [] else [s[0]]) + Symbols(s[1..])
  }

  function Pads(s: seq<byte>): nat {
    if |s| == 0 then 0 else (if s[0] == PAD then 1 else 0) + Pads(s[1..])
  }

  /** The bytes written for n symbols of which the last j are padding: three a complete group, less the
      padding that fell inside complete groups. */
  function WrittenLength(n: nat, j: nat): int {
    3 * (n / 4) - (if j > n % 4 then j - n % 4 else 0)
  }

  lemma {:induction false} SkipSpaces(s: seq<byte>, d: Decoder)
    ensures
      var rest := s[LeadingSpaces(s)..];
      FeedAll(d, s) == FeedAll(d, rest) && Symbols(s) == Symbols(rest) && Pads(s) == Pads(rest)
  {
    if |s| > 0 && s[0] == SPACE {
      SkipSpaces(s[1..], d);
      assert s[1..][LeadingSpaces(s[1..])..] == s[LeadingSpaces(s)..];
    }
  }

  /** The first pass counts symbols and padding, and the second pass writes accordingly: both passes run from
      the same point of the text, with the same counts behind them. */
  lemma {:induction false} PassesAgree(s: seq<byte>, n: nat, j: nat, d: Decoder)
    requires FirstPass(s, n, j).Accepted? && j <= 2 && j <= n
    requires d.n == n % 4 && d.j == 3 - j && |d.out| == WrittenLength(n, j)
    ensures
      var a := FirstPass(s, n, j);
      && a.symbols == n + |Symbols(s)| && a.pads == j + Pads(s) && a.pads <= 2 && a.pads <= a.symbols
      && |FeedAll(d, s).out| == WrittenLength(a.symbols, a.pads)
    decreases |s|
  {
    var k := LeadingSpaces(s);
    SkipSpaces(s, d);
    if k < |s| {
      var c, rest := s[k], s[k + 1..];
      assert s[k..][0] == c && s[k..][1..] == rest;
      if c == LF || (c == CR && |rest| > 0 && rest[0] == LF) {
        PassesAgree(rest, n, j, d);
      } else {
        OneSymbol(n, j, d, c);
        PassesAgree(rest, n + 1, if c == PAD then j + 1 else j, Feed(d, c));
      }
    }
  }

  lemma OneSymbol(n: nat, j: nat, d: Decoder, c: byte)
    requires d.n == n % 4 && d.j == 3 - j && |d.out| == WrittenLength(n, j) && !IsBreak(c)
    requires if c == PAD then j <= 1 else j == 0
    ensures
      var d', j' := Feed(d, c), if c == PAD then j + 1 else j;
      d'.n == (n + 1) % 4 && d'.j == 3 - j' && |d'.out| == WrittenLength(n + 1, j')
  {
  }

  /** The buffer is never overrun: for every accepted text the second pass writes at most what the first pass
      promised, and exactly that just when no symbol of the last, incomplete group carries data lost. */
  lemma PromiseKept(src: seq<byte>)
    requires FirstPass(src, 0, 0).Accepted?
    ensures
      var n, j := |Symbols(src)|, Pads(src);
      && FirstPass(src, 0, 0) == Accepted(n, j)
      && |FeedAll(START, src).out| == WrittenLength(n, j) <= PromisedLength(n, j)
      && (WrittenLength(n, j) == PromisedLength(n, j) <==>
          n % 4 == 0 || (n % 4 == 1 && j >= 1) || (n % 4 == 2 && j == 2))
  {
    PassesAgree(src, 0, 0, START);
  }

  /** For instance, three symbols promise three bytes, and none is written. */
  lemma ThreeSymbolsFail(src: seq<byte>)
    requires src == [81, 85, 74]
    ensures FirstPass(src, 0, 0) == Accepted(3, 0) && |FeedAll(START, src).out| < PromisedLength(3, 0) == 3
  {
    hide FeedAll;
    var s1, s2 := [85, 74], [74];
    assert src[1..] == s1 && s1[1..] == s2 && s2[1..] == [];
    assert DecMap(81) == 16 && DecMap(85) == 20 && DecMap(74) == 9;
    assert FirstPass([], 3, 0) == Accepted(3, 0);
    assert FirstPass(s2, 2, 0) == Accepted(3, 0);
    assert FirstPass(s1, 1, 0) == Accepted(3, 0);
    PromiseKept(src);
  }

  //
  // Round trip
  //

  predicate NoBreaks(s: seq<byte>) {
    forall i | 0 <= i < |s| :: !IsBreak(s[i])
  }

  lemma {:induction false} EncodedHasNoBreaks(x: seq<byte>)
    ensures NoBreaks(Encoded(x))
  {
    if |x| >= 3 {
      EncodedHasNoBreaks(x[3..]);
    }
  }

  /** A complete group of symbols, starting and ending between groups. */
  function Accumulated(x: nat, a: nat, b: nat, c: nat, e: nat): nat {
    ((((x * 64 + a) % 0x1_0000_0000 * 64 + b) % 0x1_0000_0000 * 64 + c) % 0x1_0000_0000 * 64 + e) % 0x1_0000_0000
  }

  lemma FeedGroup(d: Decoder, g: seq<byte>, rest: seq<byte>)
    requires d.n == 0 && |g| == 4 && NoBreaks(g)
    ensures
      var j := d.j - Pads(g);
      var x := Accumulated(d.x, SixBits(g[0]), SixBits(g[1]), SixBits(g[2]), SixBits(g[3]));
      FeedAll(d, g + rest) == FeedAll(Decoder(d.out + GroupBytes(x, j), x, 0, j), rest)
  {
    var d1 := Feed(d, g[0]);
    var d2 := Feed(d1, g[1]);
    var d3 := Feed(d2, g[2]);
    var d4 := Feed(d3, g[3]);
    FeedTwo(d, g[0], g[1], g[2..] + rest);
    assert g + rest == [g[0], g[1]] + (g[2..] + rest);
    FeedTwo(d2, g[2], g[3], rest);
    assert g[2..] + rest == [g[2], g[3]] + rest;
    PadsOfGroup(g);
  }

  lemma FeedTwo(d: Decoder, a: byte, b: byte, rest: seq<byte>)
    ensures FeedAll(d, [a, b] + rest) == FeedAll(Feed(Feed(d, a), b), rest)
  {
    var s := [a, b] + rest;
    assert s[1..] == [b] + rest && ([b] + rest)[1..] == rest;
  }

  lemma PadsOfGroup(g: seq<byte>)
    requires |g| == 4
    ensures Pads(g) == (if g[0] == PAD then 1 else 0) + (if g[1] == PAD then 1 else 0)
                     + (if g[2] == PAD then 1 else 0) + (if g[3] == PAD then 1 else 0)
  {
    assert g[1..][1..] == g[2..] && g[2..][1..] == g[3..] && g[3..][1..] == [];
    assert Pads(g[3..]) == if g[3] == PAD then 1 else 0;
    assert Pads(g[2..]) == (if g[2] == PAD then 1 else 0) + Pads(g[3..]);
    assert Pads(g[1..]) == (if g[1] == PAD then 1 else 0) + Pads(g[2..]);
  }

  lemma ThreeBytes(t: nat, p: byte, q: byte, r: byte)
    ensures
      var y := t * 0x100_0000 + p * 0x1_0000 + q * 0x100 + r;
      y / 0x1_0000 % 256 == p && y / 0x100 % 256 == q && y % 256 == r
  {
    var y := t * 0x100_0000 + p * 0x1_0000 + q * 0x100 + r;
    assert y / 0x1_0000 == t * 256 + p;
    assert y / 0x100 == (t * 256 + p) * 256 + q;
  }

  /** One symbol shifted into the accumulator: what was above the low bits stays above them. */
  lemma Shift(x: nat, a: nat) returns (q: nat)
    requires a < 64
    ensures (x * 64 + a) % 0x1_0000_0000 == x * 64 + a - 0x1_0000_0000 * q
  {
    q := (x * 64 + a) / 0x1_0000_0000;
  }

  /** The accumulator keeps the last 24 bits, whatever came before. */
  lemma LastGroup(x: nat, a: nat, b: nat, c: nat, e: nat)
    requires a < 64 && b < 64 && c < 64 && e < 64
    ensures
      var y := Accumulated(x, a, b, c, e);
      y / 0x1_0000 % 256 == a * 4 + b / 16 && y / 0x100 % 256 == b % 16 * 16 + c / 4 && y % 256 == c % 4 * 64 + e
  {
    var m := 0x1_0000_0000;
    var q1 := Shift(x, a);
    var x1 := (x * 64 + a) % m;
    var q2 := Shift(x1, b);
    var x2 := (x1 * 64 + b) % m;
    var q3 := Shift(x2, c);
    var x3 := (x2 * 64 + c) % m;
    var q4 := Shift(x3, e);
    var t := x - 0x400_0000 * q1 - 0x10_0000 * q2 - 0x4000 * q3 - 0x100 * q4;
    var y := Accumulated(x, a, b, c, e);
    assert y == t * 0x100_0000 + a * 0x4_0000 + b * 0x1000 + c * 64 + e;
    ThreeBytes(t, a * 4 + b / 16, b % 16 * 16 + c / 4, c % 4 * 64 + e);
  }

  lemma SymbolFeedsBack(v: nat)
    requires v < 64
    ensures EncMap(v) < 128 && DecMap(EncMap(v)) == v && SixBits(EncMap(v)) == v && EncMap(v) != PAD
    ensures !IsBreak(EncMap(v))
  {
    MapsAreInverse(v, 0);
  }

  lemma BytesOfSixBits(c1: byte, c2: byte, c3: byte)
    ensures
      var v1, v2, v3, v4 := c1 / 4 % 64, (c1 % 4 * 16 + c2 / 16) % 64, (c2 % 16 * 4 + c3 / 64) % 64, c3 % 64;
      v1 * 4 + v2 / 16 == c1 && v2 % 16 * 16 + v3 / 4 == c2 && v3 % 4 * 64 + v4 == c3
  {
    var h1, h2, h3 := c1 / 4, c2 / 16, c3 / 64;
    assert h1 % 64 == h1 && (c1 % 4 * 16 + h2) % 64 == c1 % 4 * 16 + h2 && (c2 % 16 * 4 + h3) % 64 == c2 % 16 * 4 + h3;
  }

  /** Four symbols of a group put back the three bytes they encode, as far as padding leaves them. */
  lemma GroupFeedsBack(d: Decoder, c1: byte, c2: byte, c3: byte, pads: nat, rest: seq<byte>) returns (x: nat)
    requires d.n == 0 && d.j == 3 && pads <= 2 && (pads >= 1 ==> c3 == 0) && (pads == 2 ==> c2 == 0)
    ensures FeedAll(d, Group(c1, c2, c3, pads) + rest)
         == FeedAll(Decoder(d.out + [c1, c2, c3][..3 - pads], x, 0, 3 - pads), rest)
  {
    hide EncMap, SixBits, Accumulated, FeedAll, Pads;
    var g := Group(c1, c2, c3, pads);
    var v1, v2, v3, v4 := c1 / 4 % 64, (c1 % 4 * 16 + c2 / 16) % 64, (c2 % 16 * 4 + c3 / 64) % 64, c3 % 64;
    SymbolFeedsBack(v1);
    SymbolFeedsBack(v2);
    SymbolFeedsBack(v3);
    SymbolFeedsBack(v4);
    PadIsZero();
    assert pads >= 1 ==> v4 == 0;
    assert pads == 2 ==> v3 == 0;
    FeedGroup(d, g, rest);
    PadsOfGroup(g);
    assert Pads(g) == pads;
    x := Accumulated(d.x, v1, v2, v3, v4);
    LastGroup(d.x, v1, v2, v3, v4);
    BytesOfSixBits(c1, c2, c3);
    assert GroupBytes(x, 3 - pads) == [c1, c2, c3][..3 - pads];
  }

  lemma PadIsZero()
    ensures SixBits(PAD) == 0 && !IsBreak(PAD)
  {
  }

  lemma LastOfEncoded(x: seq<byte>)
    ensures |x| == 1 ==> Encoded(x) == Group(x[0], 0, 0, 2)
    ensures |x| == 2 ==> Encoded(x) == Group(x[0], x[1], 0, 1)
    ensures |x| >= 3 ==> Encoded(x) == Group(x[0], x[1], x[2], 0) + Encoded(x[3..])
  {
    hide EncMap;
  }

  /** Decoding undoes encoding, from any point between groups. */
  lemma {:induction false} EncodedFeedsBack(x: seq<byte>, d: Decoder)
    requires d.n == 0 && d.j == 3
    ensures FeedAll(d, Encoded(x)).out == d.out + x
    decreases |x|
  {
    hide Group, Encoded, Feed;
    LastOfEncoded(x);
    if |x| == 0 {
      EncodedNothing();
    } else if |x| == 1 {
      var y := GroupFeedsBack(d, x[0], 0, 0, 2, []);
      assert Group(x[0], 0, 0, 2) + [] == Encoded(x);
      assert [x[0], 0 as byte, 0][..1] == x;
    } else if |x| == 2 {
      var y := GroupFeedsBack(d, x[0], x[1], 0, 1, []);
      assert Group(x[0], x[1], 0, 1) + [] == Encoded(x);
      assert [x[0], x[1], 0 as byte][..2] == x;
    } else {
      var y := GroupFeedsBack(d, x[0], x[1], x[2], 0, Encoded(x[3..]));
      EncodedFeedsBack(x[3..], Decoder(d.out + x[..3], y, 0, 3));
      assert [x[0], x[1], x[2]][..3] == x[..3] && x == x[..3] + x[3..];
    }
  }

  predicate AllSpaces(s: seq<byte>) {
    forall i | 0 <= i < |s| :: s[i] == SPACE
  }

  /** The first pass over one symbol. */
  lemma PassSymbol(c: byte, rest: seq<byte>, n: nat, j: nat)
    requires !IsBreak(c)
    ensures
      var j' := if c == PAD then j + 1 else j;
      FirstPass([c] + rest, n, j) ==
        if j' > 2 || c > 127 || DecMap(c) == INVALID || (DecMap(c) < 64 && j' != 0) then Rejected
        else FirstPass(rest, n + 1, j')
  {
    var s := [c] + rest;
    assert s[1..] == rest && LeadingSpaces(s) == 0;
  }

  lemma PassGroup(c1: byte, c2: byte, c3: byte, pads: nat, rest: seq<byte>, n: nat)
    requires pads <= 2 && (pads >= 1 ==> c3 == 0) && (pads == 2 ==> c2 == 0)
    ensures FirstPass(Group(c1, c2, c3, pads) + rest, n, 0) == FirstPass(rest, n + 4, pads)
  {
    hide EncMap, FirstPass;
    var g := Group(c1, c2, c3, pads);
    SymbolFeedsBack(c1 / 4 % 64);
    SymbolFeedsBack((c1 % 4 * 16 + c2 / 16) % 64);
    SymbolFeedsBack((c2 % 16 * 4 + c3 / 64) % 64);
    SymbolFeedsBack(c3 % 64);
    assert g + rest == [g[0]] + ([g[1]] + ([g[2]] + ([g[3]] + rest)));
    PassSymbol(g[0], [g[1]] + ([g[2]] + ([g[3]] + rest)), n, 0);
    PassSymbol(g[1], [g[2]] + ([g[3]] + rest), n + 1, 0);
    PassSymbol(g[2], [g[3]] + rest, n + 2, 0);
    PassSymbol(g[3], rest, n + 3, if pads == 2 then 1 else 0);
  }

  lemma {:induction false} EncodedPasses(x: seq<byte>, n: nat, t: nat, r: nat)
    requires |x| == 3 * t + r && r < 3
    ensures FirstPass(Encoded(x), n, 0) ==
            Accepted(n + 4 * (if r == 0 then t else t + 1), if r == 0 then 0 else 3 - r)
  {
    hide Group, Encoded, FirstPass;
    LastOfEncoded(x);
    PassTail([], n, 0);
    PassTail([], n + 4, 1);
    PassTail([], n + 4, 2);
    if |x| == 0 {
      EncodedNothing();
    } else if |x| == 1 {
      PassGroup(x[0], 0, 0, 2, [], n);
      assert Encoded(x) == Encoded(x) + [];
    } else if |x| == 2 {
      PassGroup(x[0], x[1], 0, 1, [], n);
      assert Encoded(x) == Encoded(x) + [];
    } else {
      PassGroup(x[0], x[1], x[2], 0, Encoded(x[3..]), n);
      EncodedPasses(x[3..], n + 4, t - 1, r);
    }
  }

  /** Decoding an encoding gives the bytes back: into any buffer that holds them, and with the exact size
      asked for when the buffer is too small. */
  lemma RoundTrip(x: seq<byte>, room: bool, dlen: nat)
    ensures Decode(Encoded(x), room, dlen) ==
            if x == [] || (room && |x| <= dlen) then Decoded(x) else TooSmall(|x|)
  {
    hide FirstPass, FeedAll, Encoded;
    var t, r := |x| / 3, |x| % 3;
    EncodedPasses(x, 0, t, r);
    EncodedFeedsBack(x, START);
  }

  //
  // Line breaks
  //

  /** What may stand between two symbols: line feeds, with or without a carriage return, each of them
      possibly after spaces. */
  predicate IsGap(g: seq<byte>)
    decreases |g|
  {
    |g| > 0 ==>
      var k := LeadingSpaces(g);
      k < |g| && if g[k] == LF then IsGap(g[k + 1..])
                 else g[k] == CR && k + 1 < |g| && g[k + 1] == LF && IsGap(g[k + 2..])
  }

  predicate Layout(s: seq<byte>, gaps: seq<seq<byte>>, tail: seq<byte>) {
    NoBreaks(s) && |gaps| == |s| + 1 && (forall i | 0 <= i < |gaps| :: IsGap(gaps[i])) && AllSpaces(tail)
  }

  /** The symbols with a gap before each of them, a last gap and trailing spaces. */
  function LaidOut(s: seq<byte>, gaps: seq<seq<byte>>, tail: seq<byte>): seq<byte>
    requires Layout(s, gaps, tail)
  {
    gaps[0] + if s == [] then tail else [s[0]] + LaidOut(s[1..], gaps[1..], tail)
  }

  lemma {:induction false} LeadingSpacesAppend(g: seq<byte>, s: seq<byte>)
    requires LeadingSpaces(g) < |g|
    ensures LeadingSpaces(g + s) == LeadingSpaces(g)
  {
    if g[0] == SPACE {
      LeadingSpacesAppend(g[1..], s);
      assert (g + s)[1..] == g[1..] + s;
    }
  }

  lemma {:induction false} PassGap(g: seq<byte>, s: seq<byte>, n: nat, j: nat)
    requires IsGap(g)
    ensures FirstPass(g + s, n, j) == FirstPass(s, n, j)
    decreases |g|
  {
    if |g| == 0 {
      assert g + s == s;
    } else {
      var k := LeadingSpaces(g);
      LeadingSpacesAppend(g, s);
      var rest := (g + s)[k + 1..];
      assert rest == g[k + 1..] + s;
      if g[k] == LF {
        PassGap(g[k + 1..], s, n, j);
      } else {
        assert rest[0] == LF && LeadingSpaces(rest) == 0;
        assert rest[1..] == g[k + 2..] + s;
        PassGap(g[k + 2..], s, n, j);
      }
    }
  }

  lemma {:induction false} PassTail(tail: seq<byte>, n: nat, j: nat)
    requires AllSpaces(tail)
    ensures FirstPass(tail, n, j) == Accepted(n, j)
  {
  }

  predicate OnlyBreaks(g: seq<byte>) {
    forall i | 0 <= i < |g| :: IsBreak(g[i])
  }

  lemma {:induction false} GapsAreBreaks(g: seq<byte>)
    requires IsGap(g)
    ensures OnlyBreaks(g)
    decreases |g|
  {
    if |g| > 0 {
      var k := LeadingSpaces(g);
      var m := if g[k] == LF then k + 1 else k + 2;
      GapsAreBreaks(g[m..]);
      forall i | 0 <= i < |g|
        ensures IsBreak(g[i])
      {
        if i >= m {
          assert g[i] == g[m..][i - m];
        }
      }
    }
  }

  lemma {:induction false} FeedGap(d: Decoder, g: seq<byte>, s: seq<byte>)
    requires OnlyBreaks(g)
    ensures FeedAll(d, g + s) == FeedAll(d, s)
  {
    if |g| == 0 {
      assert g + s == s;
    } else {
      assert (g + s)[1..] == g[1..] + s;
      FeedGap(d, g[1..], s);
    }
  }

  lemma {:induction false} LayoutPasses(s: seq<byte>, gaps: seq<seq<byte>>, tail: seq<byte>, n: nat, j: nat, d: Decoder)
    requires Layout(s, gaps, tail)
    ensures FirstPass(LaidOut(s, gaps, tail), n, j) == FirstPass(s, n, j)
    ensures FeedAll(d, LaidOut(s, gaps, tail)) == FeedAll(d, s)
    decreases |s|
  {
    hide FirstPass, Feed;
    GapsAreBreaks(gaps[0]);
    if s == [] {
      PassGap(gaps[0], tail, n, j);
      PassTail(tail, n, j);
      PassTail([], n, j);
      FeedGap(d, gaps[0], tail);
      FeedGap(d, tail, []);
      assert tail + [] == tail;
    } else {
      var rest := LaidOut(s[1..], gaps[1..], tail);
      PassGap(gaps[0], [s[0]] + rest, n, j);
      FeedGap(d, gaps[0], [s[0]] + rest);
      assert ([s[0]] + rest)[1..] == rest;
      PassSymbol(s[0], rest, n, j);
      assert s == [s[0]] + s[1..];
      PassSymbol(s[0], s[1..], n, j);
      LayoutPasses(s[1..], gaps[1..], tail, n + 1, if s[0] == PAD then j + 1 else j, Feed(d, s[0]));
    }
  }

  /** Line breaks between symbols change nothing, whatever the symbols are: the same bytes, the same size asked
      for, or the same rejection. */
  lemma LineBreaksDoNotMatter(s: seq<byte>, gaps: seq<seq<byte>>, tail: seq<byte>, room: bool, dlen: nat)
    requires Layout(s, gaps, tail)
    ensures Decode(LaidOut(s, gaps, tail), room, dlen) == Decode(s, room, dlen)
  {
    LayoutPasses(s, gaps, tail, 0, 0, START);
  }

  lemma {:induction false} LeadingSpacesOf(a: seq<byte>, b: seq<byte>)
    requires AllSpaces(a) && |b| > 0 && b[0] != SPACE
    ensures LeadingSpaces(a + b) == |a|
  {
    if |a| == 0 {
      assert a + b == b;
    } else {
      assert (a + b)[1..] == a[1..] + b;
      LeadingSpacesOf(a[1..], b);
    }
  }

  /** One more line break at the front of a gap. */
  lemma LongerGap(spaces: seq<byte>, eol: seq<byte>, g: seq<byte>)
    requires AllSpaces(spaces) && (eol == [LF] || eol == [CR, LF]) && IsGap(g)
    ensures IsGap(spaces + eol + g)
  {
    hide LeadingSpaces;
    var k, w := |spaces|, spaces + eol + g;
    LeadingSpacesOf(spaces, eol + g);
    assert w == spaces + (eol + g);
    assert w[k..] == eol + g;
    assert w[k] == eol[0] && w[k + |eol|..] == g;
    if |eol| == 2 {
      assert w[k + 1] == eol[1];
    }
  }

  lemma LongerFirstGap(s: seq<byte>, gaps: seq<seq<byte>>, tail: seq<byte>, spaces: seq<byte>, eol: seq<byte>)
    returns (wider: seq<seq<byte>>)
    requires Layout(s, gaps, tail) && AllSpaces(spaces) && (eol == [LF] || eol == [CR, LF])
    ensures Layout(s, wider, tail) && LaidOut(s, wider, tail) == spaces + eol + LaidOut(s, gaps, tail)
  {
    hide IsGap;
    var line := spaces + eol;
    LongerGap(spaces, eol, gaps[0]);
    wider := [line + gaps[0]] + gaps[1..];
    assert wider[1..] == gaps[1..];
    assert forall i | 1 <= i < |wider| :: wider[i] == gaps[i];
  }

  lemma PassBreak(src: seq<byte>, k: nat, eol: seq<byte>, next: seq<byte>, n: nat, j: nat)
    requires k == LeadingSpaces(src) && (eol == [LF] || eol == [CR, LF]) && src[k..] == eol + next
    ensures FirstPass(src, n, j) == FirstPass(next, n, j) && Symbols(src) == Symbols(next)
  {
    SkipSpaces(src, START);
    assert src[k] == src[k..][0] && src[k + 1..] == src[k..][1..];
    if |eol| == 2 {
      assert src[k + 1..] == [LF] + next;
      PassLineFeed(next, n, j);
      assert ([LF] + next)[1..] == next;
    } else {
      assert src[k + 1..] == next;
    }
  }

  lemma PassOther(src: seq<byte>, n: nat, j: nat)
    requires FirstPass(src, n, j).Accepted? && LeadingSpaces(src) < |src|
    requires
      var k := LeadingSpaces(src);
      src[k] != LF && (src[k] == CR ==> k + 1 < |src| ==> src[k + 1] != LF)
    ensures LeadingSpaces(src) == 0 && !IsBreak(src[0])
    ensures FirstPass(src[1..], n + 1, if src[0] == PAD then j + 1 else j).Accepted?
  {
  }

  /** The other way round: every text the first pass accepts is its symbols laid out in lines. */
  lemma {:induction false} AcceptedLayout(src: seq<byte>, n: nat, j: nat)
    returns (gaps: seq<seq<byte>>, tail: seq<byte>)
    requires FirstPass(src, n, j).Accepted?
    ensures Layout(Symbols(src), gaps, tail) && src == LaidOut(Symbols(src), gaps, tail)
    decreases |src|
  {
    hide IsGap, Layout, LaidOut, FirstPass;
    var k := LeadingSpaces(src);
    if k == |src| {
      SkipSpaces(src, START);
      gaps, tail := [[]], src;
      EmptyLayout(src);
    } else if src[k] == LF || (src[k] == CR && k + 1 < |src| && src[k + 1] == LF) {
      hide Symbols;
      var eol := if src[k] == LF then [LF] else [CR, LF];
      var next := src[k + |eol|..];
      PassBreak(src, k, eol, next, n, j);
      gaps, tail := AcceptedLayout(next, n, j);
      gaps := LongerFirstGap(Symbols(next), gaps, tail, src[..k], eol);
      assert src == src[..k] + eol + next;
    } else {
      PassOther(src, n, j);
      gaps, tail := AcceptedLayout(src[1..], n + 1, if src[0] == PAD then j + 1 else j);
      gaps := LayOutSymbol(src[0], Symbols(src[1..]), gaps, tail);
      assert src == [src[0]] + src[1..];
    }
  }

  lemma EmptyLayout(tail: seq<byte>)
    requires AllSpaces(tail)
    ensures Layout([], [[]], tail) && LaidOut([], [[]], tail) == tail
  {
  }

  lemma EmptyGap()
    ensures IsGap([])
  {
  }

  lemma PassLineFeed(s: seq<byte>, n: nat, j: nat)
    ensures FirstPass([LF] + s, n, j) == FirstPass(s, n, j)
  {
    assert ([LF] + s)[1..] == s && LeadingSpaces([LF] + s) == 0;
  }

  lemma LayOutSymbol(c: byte, s: seq<byte>, gaps: seq<seq<byte>>, tail: seq<byte>) returns (more: seq<seq<byte>>)
    requires !IsBreak(c) && Layout(s, gaps, tail)
    ensures Layout([c] + s, more, tail) && LaidOut([c] + s, more, tail) == [c] + LaidOut(s, gaps, tail)
  {
    hide IsGap;
    EmptyGap();
    more := [[]] + gaps;
    assert more[1..] == gaps && ([c] + s)[1..] == s;
  }

  /** Symbols from the alphabet, with padding only at the end. */
  predicate WellFormed(s: seq<byte>) {
    && (forall i | 0 <= i < |s| :: s[i] < 128 && DecMap(s[i]) != INVALID)
    && (forall i, k | 0 <= i < k < |s| && s[i] == PAD :: s[k] == PAD)
  }

  /** Which symbols are accepted: with LineBreaksDoNotMatter and AcceptedLayout, exactly which texts. */
  lemma {:induction false} AcceptedSymbols(s: seq<byte>, n: nat, j: nat)
    requires NoBreaks(s)
    ensures FirstPass(s, n, j).Accepted? <==>
            WellFormed(s) && (s == [] || j + Pads(s) <= 2) && (j > 0 ==> Pads(s) == |s|)
  {
    hide DecMap;
    if s == [] {
      PassTail([], n, j);
    } else {
      var c, rest := s[0], s[1..];
      assert s == [c] + rest;
      PassSymbol(c, rest, n, j);
      AcceptedSymbols(rest, n + 1, if c == PAD then j + 1 else j);
      AllPads(rest);
      PadInTable();
      assert WellFormed(s) <==>
               c < 128 && DecMap(c) != INVALID && WellFormed(rest) && (c == PAD ==> Pads(rest) == |rest|) by {
        assert forall i | 0 < i < |s| :: s[i] == rest[i - 1];
        assert forall i | 0 <= i < |rest| :: rest[i] == s[i + 1];
      }
    }
  }

  lemma PadInTable()
    ensures DecMap(PAD) == 64
    ensures forall c: nat | c < 128 && DecMap(c) != INVALID && c != PAD :: DecMap(c) < 64
  {
  }

  lemma {:induction false} AllPads(s: seq<byte>)
    ensures Pads(s) <= |s| && (Pads(s) == |s| <==> forall i | 0 <= i < |s| :: s[i] == PAD)
  {
    if |s| > 0 {
      AllPads(s[1..]);
      assert forall i | 0 < i < |s| :: s[i] == s[1..][i - 1];
    }
  }

  //
  // The decoder
  //

  /** Every symbol the first pass lets through has an entry in the 128-byte table. */
  lemma {:induction false} SymbolsInTable(s: seq<byte>, n: nat, j: nat)
    requires FirstPass(s, n, j).Accepted?
    ensures forall i | 0 <= i < |s| :: IsBreak(s[i]) || (s[i] < 128 && DecMap(s[i]) != INVALID)
    decreases |s|
  {
    var k := LeadingSpaces(s);
    if k < |s| {
      var c, rest := s[k], s[k + 1..];
      if c == LF || (c == CR && |rest| > 0 && rest[0] == LF) {
        SymbolsInTable(rest, n, j);
      } else {
        SymbolsInTable(rest, n + 1, if c == PAD then j + 1 else j);
      }
      assert forall i | k < i < |s| :: s[i] == rest[i - k - 1];
    }
  }

  lemma {:induction false} OutputOnlyGrows(d: Decoder, s: seq<byte>)
    ensures d.out <= FeedAll(d, s).out
    decreases |s|
  {
    if |s| > 0 {
      assert d.out <= Feed(d, s[0]).out;
      OutputOnlyGrows(Feed(d, s[0]), s[1..]);
    }
  }

  /** mbedtls_base64_decode. No store goes beyond dlen, and a text that is refused leaves everything as it was. */
  method DecodeInto(dst: array?<byte>, dlen: nat, olenBefore: nat, src: seq<byte>) returns (code: Code, olen: int)
    requires dst != null ==> dlen <= dst.Length
    modifies if dst != null then {dst} else {}
    ensures match Decode(src, dst != null, dlen)
            case Invalid => code == InvalidCharacter && olen == olenBefore
            case TooSmall(needed) => code == BufferTooSmall && olen == needed
            case Decoded(bytes) =>
              code == Ok && olen == |bytes| && (bytes != [] ==> dst != null && olen <= dlen && dst[..olen] == bytes)
    ensures dst != null ==> forall k | (if code == Ok then olen else 0) <= k < dst.Length :: dst[k] == old(dst[k])
  {
    hide FirstPass, FeedAll, WrittenLength, Symbols, Pads;
    var n, j := CheckAndCount(src);
    if n < 0 {
      return InvalidCharacter, olenBefore;
    }
    PromiseKept(src);
    if n == 0 {
      return Ok, 0;
    }
    n := (n * 6 + 7) / 8;
    n := n - j;
    if dst == null || dlen < n {
      return BufferTooSmall, n;
    }
    SymbolsInTable(src, 0, 0);
    olen := WriteSymbols(dst, src);
    code := Ok;
  }

  /** One turn of the first pass, in terms of positions in the text. */
  lemma PassAt(src: seq<byte>, start: nat, i: nat, n: nat, j: nat)
    requires start <= i < |src| && LeadingSpaces(src[start..]) == i - start
    ensures
      var c, j' := src[i], if src[i] == PAD then j + 1 else j;
      FirstPass(src[start..], n, j) ==
        if c == LF || (c == CR && i + 1 < |src| && src[i + 1] == LF) then FirstPass(src[i + 1..], n, j)
        else if i != start || j' > 2 || c > 127 || DecMap(c) == INVALID || (DecMap(c) < 64 && j' != 0) then Rejected
        else FirstPass(src[i + 1..], n + 1, j')
  {
    hide LeadingSpaces, DecMap;
    var k := i - start;
    assert src[start..][k] == src[i] && src[start..][k + 1..] == src[i + 1..];
  }

  lemma SpacesFrom(src: seq<byte>, i: nat)
    requires i < |src|
    ensures LeadingSpaces(src[i..]) == if src[i] == SPACE then 1 + LeadingSpaces(src[i + 1..]) else 0
  {
    assert src[i..][1..] == src[i + 1..];
  }

  lemma OnlySpacesFrom(src: seq<byte>, start: nat, n: nat, j: nat)
    requires start <= |src| && LeadingSpaces(src[start..]) == |src| - start
    ensures FirstPass(src[start..], n, j) == Accepted(n, j)
  {
  }

  /** The first loop; a negative count says that the text is refused. */
  method CheckAndCount(src: seq<byte>) returns (symbols: int, pads: nat)
    ensures FirstPass(src, 0, 0) == if symbols < 0 then Rejected else Accepted(symbols, pads)
  {
    hide LeadingSpaces, FirstPass, DecMap;
    var slen := |src|;
    var i, n, j := 0, 0, 0;
    assert src[0..] == src;
    while i < slen
      invariant 0 <= i <= slen
      invariant FirstPass(src[i..], n, j) == FirstPass(src, 0, 0)
    {
      ghost var start := i;
      var x := 0;
      while i < slen && src[i] == SPACE
        invariant start <= i <= slen && x == i - start
        invariant LeadingSpaces(src[start..]) == x + LeadingSpaces(src[i..])
      {
        SpacesFrom(src, i);
        i := i + 1;
        x := x + 1;
      }
      if i == slen {
        OnlySpacesFrom(src, start, n, j);
        return n, j;
      }
      SpacesFrom(src, i);
      PassAt(src, start, i, n, j);
      if slen - i >= 2 && src[i] == CR && src[i + 1] == LF {
        i := i + 1;
        continue;
      }
      if src[i] == LF {
        i := i + 1;
        continue;
      }
      if x != 0 {
        return -1, j;
      }
      if src[i] == PAD {
        j := j + 1;
        if j > 2 {
          return -1, j;
        }
      }
      if src[i] > 127 || DecMap(src[i]) == INVALID {
        return -1, j;
      }
      if DecMap(src[i]) < 64 && j != 0 {
        return -1, j;
      }
      n := n + 1;
      i := i + 1;
    }
    OnlySpacesFrom(src, i, n, j);
    return n, j;
  }

  /** The second loop. */
  method WriteSymbols(dst: array<byte>, src: seq<byte>) returns (olen: nat)
    requires |FeedAll(START, src).out| <= dst.Length
    requires forall i | 0 <= i < |src| :: IsBreak(src[i]) || src[i] < 128
    modifies dst
    ensures olen <= dst.Length && dst[..olen] == FeedAll(START, src).out
    ensures forall k | olen <= k < dst.Length :: dst[k] == old(dst[k])
  {
    hide DecMap;
    var i, p := 0, 0;
    var j: int, n: nat, x: nat := 3, 0, 0;
    while i < |src|
      invariant 0 <= i <= |src| && 0 <= p <= dst.Length && n < 4
      invariant FeedAll(Decoder(dst[..p], x, n, j), src[i..]) == FeedAll(START, src)
      invariant forall k | p <= k < dst.Length :: dst[k] == old(dst[k])
    {
      var c := src[i];
      ghost var d := Decoder(dst[..p], x, n, j);
      assert src[i..][0] == c && src[i..][1..] == src[i + 1..];
      OutputOnlyGrows(Feed(d, c), src[i + 1..]);
      i := i + 1;
      if c == CR || c == LF || c == SPACE {
        continue;
      }
      j := j - if DecMap(c) == 64 then 1 else 0;
      x := (x * 64 + DecMap(c) % 64) % 0x1_0000_0000;
      n := n + 1;
      if n == 4 {
        n := 0;
        p := WriteGroup(dst, p, x, j);
      }
    }
    olen := p;
  }

  /** The bytes of a group, as many as the padding leaves. */
  method WriteGroup(dst: array<byte>, p: nat, x: nat, j: int) returns (end: nat)
    requires p + |GroupBytes(x, j)| <= dst.Length
    modifies dst
    ensures end == p + |GroupBytes(x, j)| && dst[..end] == old(dst[..p]) + GroupBytes(x, j)
    ensures forall k | end <= k < dst.Length :: dst[k] == old(dst[k])
  {
    end := p;
    if j > 0 {
      dst[end] := x / 0x1_0000 % 256;
      end := end + 1;
    }
    if j > 1 {
      dst[end] := x / 0x100 % 256;
      end := end + 1;
    }
    if j > 2 {
      dst[end] := x % 256;
      end := end + 1;
    }
  }
}
