/** Turning a UF2 file into a binary image (uf2.py). */
module Uf2 {
  import opened Bytes
  import opened Sequences

  const BLOCK_SIZE := 512
  const MAGIC_START0 := 0x0A324655
  const MAGIC_START1 := 0x9E5D5157
  const MAGIC_END := 0x0AB16F30
  const DATA_OFFSET := 32
  const MAX_PAYLOAD_SIZE := 476

  datatype Result<T> = Ok(value: T) | Uf2Error

  datatype Block = Block(addr: nat, no: nat, total: nat, payload: seq<byte>)

  /** _u32le. */
  function U32(s: seq<byte>, offset: nat): nat
    requires offset + 4 <= |s|
  {
    FromLe(s[offset..offset + 4])
  }

  function PayloadSize(block: seq<byte>): nat
    requires |block| == BLOCK_SIZE
  {
    U32(block, 16)
  }

  /** What every block must be by itself. */
  predicate WellFormed(block: seq<byte>) {
    && |block| == BLOCK_SIZE
    && U32(block, 0) == MAGIC_START0 && U32(block, 4) == MAGIC_START1 && U32(block, 508) == MAGIC_END
    && 0 < PayloadSize(block) <= MAX_PAYLOAD_SIZE && 0 < U32(block, 24) && U32(block, 20) < U32(block, 24)
  }

  function Parsed(block: seq<byte>): (b: Block)
    requires WellFormed(block)
    ensures |b.payload| > 0
  {
    Block(U32(block, 12), U32(block, 20), U32(block, 24), block[DATA_OFFSET..DATA_OFFSET + PayloadSize(block)])
  }

  predicate AllWellFormed(bs: seq<seq<byte>>) {
    forall i | 0 <= i < |bs| :: WellFormed(bs[i])
  }

  /** Blocks agree on their number, and on the payload where they have the same address. */
  predicate Agree(a: seq<byte>, b: seq<byte>)
    requires WellFormed(a) && WellFormed(b)
  {
    Parsed(a).total == Parsed(b).total && (Parsed(a).addr == Parsed(b).addr ==> Parsed(a).payload == Parsed(b).payload)
  }

  predicate AllAgree(bs: seq<seq<byte>>)
    requires AllWellFormed(bs)
  {
    forall i, j | 0 <= i < |bs| && 0 <= j < |bs| :: Agree(bs[i], bs[j])
  }

  function Numbers(bs: seq<seq<byte>>): set<nat>
    requires AllWellFormed(bs)
  {
    set i | 0 <= i < |bs| :: Parsed(bs[i]).no
  }

  function Payloads(bs: seq<seq<byte>>): map<nat, seq<byte>>
    requires AllWellFormed(bs)
  {
    if bs == [] then map[]
    else Payloads(bs[..|bs| - 1])[Parsed(bs[|bs| - 1]).addr := Parsed(bs[|bs| - 1]).payload]
  }

  predicate Acceptable(bs: seq<seq<byte>>) {
    bs != [] && AllWellFormed(bs) && AllAgree(bs) && |Numbers(bs)| == Parsed(bs[0]).total
  }

  lemma {:induction false} PayloadsAre(bs: seq<seq<byte>>)
    requires AllWellFormed(bs)
    ensures forall a: nat :: a in Payloads(bs) ==>
              exists i :: 0 <= i < |bs| && Parsed(bs[i]).addr == a && Parsed(bs[i]).payload == Payloads(bs)[a]
    ensures forall i | 0 <= i < |bs| :: Parsed(bs[i]).addr in Payloads(bs)
  {
    hide WellFormed, Parsed;
    if bs != [] {
      var init := bs[..|bs| - 1];
      PayloadsAre(init);
      forall a: nat | a in Payloads(bs)
        ensures exists i :: 0 <= i < |bs| && Parsed(bs[i]).addr == a && Parsed(bs[i]).payload == Payloads(bs)[a]
      {
        if a == Parsed(bs[|bs| - 1]).addr {
          assert Parsed(bs[|bs| - 1]).payload == Payloads(bs)[a];
        } else {
          assert a in Payloads(init) && Payloads(init)[a] == Payloads(bs)[a];
          var i :| 0 <= i < |init| && Parsed(init[i]).addr == a && Parsed(init[i]).payload == Payloads(init)[a];
          assert bs[i] == init[i];
        }
      }
      forall i | 0 <= i < |bs|
        ensures Parsed(bs[i]).addr in Payloads(bs)
      {
        if i < |bs| - 1 {
          assert bs[i] == init[i];
        }
      }
    }
  }

  ghost predicate SameBlocks(a: seq<seq<byte>>, b: seq<seq<byte>>) {
    forall x :: x in a <==> x in b
  }

  /** Order and repetition of blocks do not matter: acceptance and payloads depend on which blocks there are. */
  lemma SameBlocksSamePayloads(a: seq<seq<byte>>, b: seq<seq<byte>>)
    requires SameBlocks(a, b)
    ensures Acceptable(a) <==> Acceptable(b)
    ensures Acceptable(a) ==> Payloads(a) == Payloads(b)
  {
    if Acceptable(a) {
      OneWay(a, b);
    }
    if Acceptable(b) {
      OneWay(b, a);
    }
  }

  lemma OneWay(a: seq<seq<byte>>, b: seq<seq<byte>>)
    requires SameBlocks(a, b) && Acceptable(a)
    ensures Acceptable(b) && Payloads(a) == Payloads(b)
  {
    hide WellFormed, Parsed, Agree;
    assert a[0] in b;
    forall i | 0 <= i < |b|
      ensures WellFormed(b[i]) && b[i] in a
    {
      assert b[i] in b;
      var k :| 0 <= k < |a| && a[k] == b[i];
    }
    forall i, j | 0 <= i < |b| && 0 <= j < |b|
      ensures Agree(b[i], b[j])
    {
      assert b[i] in a && b[j] in a;
    }
    SameNumbers(a, b);
    SameNumbers(b, a);
    assert Numbers(a) == Numbers(b);
    assert b[0] in a;
    SameTotals(a, b);
    PayloadsAre(a);
    PayloadsAre(b);
    SameValues(a, b);
  }

  lemma SameNumbers(a: seq<seq<byte>>, b: seq<seq<byte>>)
    requires SameBlocks(a, b) && AllWellFormed(a) && AllWellFormed(b)
    ensures Numbers(a) <= Numbers(b)
  {
    hide WellFormed, Parsed;
    forall n | n in Numbers(a)
      ensures n in Numbers(b)
    {
      var i :| 0 <= i < |a| && Parsed(a[i]).no == n;
      assert a[i] in b;
    }
  }

  lemma SameTotals(a: seq<seq<byte>>, b: seq<seq<byte>>)
    requires a != [] && b != [] && SameBlocks(a, b) && AllWellFormed(a) && AllWellFormed(b) && AllAgree(a)
    ensures Parsed(a[0]).total == Parsed(b[0]).total
  {
    hide WellFormed, Parsed;
    assert b[0] in a;
  }

  lemma SameValues(a: seq<seq<byte>>, b: seq<seq<byte>>)
    requires SameBlocks(a, b) && AllWellFormed(a) && AllWellFormed(b) && AllAgree(a) && AllAgree(b)
    ensures Payloads(a) == Payloads(b)
  {
    hide WellFormed, Parsed, Payloads;
    PayloadsAre(a);
    PayloadsAre(b);
    forall x: nat | x in Payloads(a)
      ensures x in Payloads(b) && Payloads(a)[x] == Payloads(b)[x]
    {
      var i :| 0 <= i < |a| && Parsed(a[i]).addr == x && Parsed(a[i]).payload == Payloads(a)[x];
      assert a[i] in b;
      var j :| 0 <= j < |b| && b[j] == a[i];
      var k :| 0 <= k < |b| && Parsed(b[k]).addr == x && Parsed(b[k]).payload == Payloads(b)[x];
      assert Agree(b[j], b[k]);
    }
    forall x: nat | x in Payloads(b)
      ensures x in Payloads(a)
    {
      var i :| 0 <= i < |b| && Parsed(b[i]).addr == x && Parsed(b[i]).payload == Payloads(b)[x];
      assert b[i] in a;
    }
  }

  //
  // Assembling the image
  //

  predicate Increasing(ks: seq<nat>) {
    forall i, j | 0 <= i < j < |ks| :: ks[i] < ks[j]
  }

  predicate Sorts(ks: seq<nat>, m: map<nat, seq<byte>>) {
    Increasing(ks) && (forall i | 0 <= i < |ks| :: ks[i] in m) && (forall a | a in m :: a in ks)
  }

  /** There is one way only to sort the addresses. */
  lemma {:induction false} SortedOnce(a: seq<nat>, b: seq<nat>)
    requires Increasing(a) && Increasing(b) && forall x: nat :: x in a <==> x in b
    ensures a == b
    decreases |a|
  {
    assert (a != [] ==> a[0] in a) && (b != [] ==> b[0] in b);
    if a != [] {
      var x, y := a[|a| - 1], b[|b| - 1];
      assert x in b && y in a by {
        assert a[|a| - 1] in a;
        assert b[|b| - 1] in b;
      }
      assert x == y;
      var a', b' := a[..|a| - 1], b[..|b| - 1];
      forall z: nat
        ensures z in a' <==> z in b'
      {
        LastOnly(a, z);
        LastOnly(b, z);
      }
      SortedOnce(a', b');
    }
  }

  lemma LastOnly(a: seq<nat>, z: nat)
    requires Increasing(a) && a != []
    ensures z in a[..|a| - 1] <==> z in a && z != a[|a| - 1]
  {
    if z in a && z != a[|a| - 1] {
      var i :| 0 <= i < |a| && a[i] == z;
      assert a[..|a| - 1][i] == z;
    }
  }

  /** The byte at an address once the payloads have been written in order: that of the last payload there, if any. */
  function ByteAt(ks: seq<nat>, m: map<nat, seq<byte>>, a: nat): byte
    requires forall i | 0 <= i < |ks| :: ks[i] in m
  {
    if ks == [] then 255
    else
      var k := ks[|ks| - 1];
      if k <= a < k + |m[k]| then m[k][a - k] else ByteAt(ks[..|ks| - 1], m, a)
  }

  /** The end of the last payload. */
  function EndOf(ks: seq<nat>, m: map<nat, seq<byte>>): (n: nat)
    requires forall i | 0 <= i < |ks| :: ks[i] in m
    ensures forall i | 0 <= i < |ks| :: ks[i] + |m[ks[i]]| <= n
    ensures ks != [] ==> exists i :: 0 <= i < |ks| && n == ks[i] + |m[ks[i]]|
  {
    if ks == [] then 0
    else
      var k, n := ks[|ks| - 1], EndOf(ks[..|ks| - 1], m);
      assert forall i | 0 <= i < |ks| - 1 :: ks[..|ks| - 1][i] == ks[i];
      if n < k + |m[k]| then k + |m[k]| else n
  }

  /** The image and its base address. */
  function Assembled(ks: seq<nat>, m: map<nat, seq<byte>>): (seq<byte>, nat)
    requires ks != [] && Sorts(ks, m)
  {
    assert ks[0] in m;
    (seq<byte>(EndOf(ks, m) - ks[0], i requires 0 <= i => ByteAt(ks, m, ks[0] + i)), ks[0])
  }

  function BlockAt(raw: seq<byte>, i: nat): (b: seq<byte>)
    requires (i + 1) * BLOCK_SIZE <= |raw|
    ensures |b| == BLOCK_SIZE
  {
    raw[i * BLOCK_SIZE..(i + 1) * BLOCK_SIZE]
  }

  function Blocks(raw: seq<byte>, n: nat): (bs: seq<seq<byte>>)
    requires n * BLOCK_SIZE <= |raw|
    ensures |bs| == n && forall i | 0 <= i < n :: bs[i] == BlockAt(raw, i)
  {
    seq(n, i requires 0 <= i < n => BlockAt(raw, i))
  }

  ghost predicate IsAssembled(m: map<nat, seq<byte>>, v: (seq<byte>, nat)) {
    exists ks :: ks != [] && Sorts(ks, m) && v == Assembled(ks, m)
  }

  /** What converting a file of n blocks gives: an image if they are acceptable, and an error for all others. */
  ghost predicate Converts(raw: seq<byte>, n: nat, r: Result<(seq<byte>, nat)>)
    requires |raw| == n * BLOCK_SIZE
  {
    var bs := Blocks(raw, n);
    if Acceptable(bs) then r.Ok? && IsAssembled(Payloads(bs), r.value) else r == Uf2Error
  }

  /** Two files of the same blocks, in any order and with any repetitions, convert to the same image and base
      address, or both fail. */
  lemma SameBlocksSameImage(raw1: seq<byte>, n1: nat, r1: Result<(seq<byte>, nat)>,
                            raw2: seq<byte>, n2: nat, r2: Result<(seq<byte>, nat)>)
    requires |raw1| == n1 * BLOCK_SIZE && |raw2| == n2 * BLOCK_SIZE && SameBlocks(Blocks(raw1, n1), Blocks(raw2, n2))
    requires Converts(raw1, n1, r1) && Converts(raw2, n2, r2)
    ensures r1 == r2
  {
    hide Payloads, IsAssembled, SameBlocks, Blocks, WellFormed, Parsed, AllAgree;
    SameBlocksSamePayloads(Blocks(raw1, n1), Blocks(raw2, n2));
    if r1.Ok? {
      AssembledOnce(Payloads(Blocks(raw1, n1)), r1.value, r2.value);
    }
  }

  lemma AssembledOnce(m: map<nat, seq<byte>>, v: (seq<byte>, nat), w: (seq<byte>, nat))
    requires IsAssembled(m, v) && IsAssembled(m, w)
    ensures v == w
  {
    hide Assembled, Sorts;
    var k1 :| k1 != [] && Sorts(k1, m) && v == Assembled(k1, m);
    var k2 :| k2 != [] && Sorts(k2, m) && w == Assembled(k2, m);
    SortedSame(k1, k2, m);
  }

  lemma SortedSame(a: seq<nat>, b: seq<nat>, m: map<nat, seq<byte>>)
    requires Sorts(a, m) && Sorts(b, m)
    ensures a == b
  {
    forall x: nat
      ensures x in a <==> x in b
    {
      if x in a {
        var i :| 0 <= i < |a| && a[i] == x;
      }
      if x in b {
        var i :| 0 <= i < |b| && b[i] == x;
      }
    }
    SortedOnce(a, b);
  }

  /** Where payloads do not overlap, each lies at its address, and there is 0xFF in the gaps. */
  predicate Disjoint(m: map<nat, seq<byte>>) {
    forall a, b | a in m && b in m && a < b :: a + |m[a]| <= b
  }

  lemma {:induction false} ByteOfPayload(ks: seq<nat>, m: map<nat, seq<byte>>, j: nat, a: nat)
    requires Increasing(ks) && (forall i | 0 <= i < |ks| :: ks[i] in m) && Disjoint(m)
    requires j < |ks| && ks[j] <= a < ks[j] + |m[ks[j]]|
    ensures ByteAt(ks, m, a) == m[ks[j]][a - ks[j]]
  {
    if j < |ks| - 1 {
      ByteOfPayload(ks[..|ks| - 1], m, j, a);
    }
  }

  lemma {:induction false} ByteOfGap(ks: seq<nat>, m: map<nat, seq<byte>>, a: nat)
    requires forall i | 0 <= i < |ks| :: ks[i] in m && !(ks[i] <= a < ks[i] + |m[ks[i]]|)
    ensures ByteAt(ks, m, a) == 255
  {
    if ks != [] {
      ByteOfGap(ks[..|ks| - 1], m, a);
    }
  }

  /** A payload lies between base and end. */
  lemma Within(ks: seq<nat>, m: map<nat, seq<byte>>, j: nat)
    requires Sorts(ks, m) && j < |ks|
    ensures ks[j] in m && ks[0] <= ks[j] && ks[j] + |m[ks[j]]| <= EndOf(ks, m)
  {
  }

  lemma AssembledAt(ks: seq<nat>, m: map<nat, seq<byte>>, i: nat)
    requires ks != [] && Sorts(ks, m) && i < EndOf(ks, m) - ks[0]
    ensures i < |Assembled(ks, m).0| && Assembled(ks, m).0[i] == ByteAt(ks, m, ks[0] + i)
  {
    hide ByteAt, EndOf;
  }

  lemma AssembledSize(ks: seq<nat>, m: map<nat, seq<byte>>)
    requires ks != [] && Sorts(ks, m)
    ensures EndOf(ks, m) >= ks[0] && |Assembled(ks, m).0| == EndOf(ks, m) - ks[0] && Assembled(ks, m).1 == ks[0]
  {
    hide ByteAt, EndOf;
    Within(ks, m, 0);
  }

  lemma PayloadInPlace(ks: seq<nat>, m: map<nat, seq<byte>>, k: nat)
    requires ks != [] && Sorts(ks, m) && Disjoint(m) && k in m
    ensures
      var (image, base) := Assembled(ks, m);
      base <= k && k + |m[k]| <= base + |image| && image[k - base..k - base + |m[k]|] == m[k]
  {
    hide ByteAt, Disjoint, Assembled, EndOf;
    var image, base := Assembled(ks, m).0, ks[0];
    var j :| 0 <= j < |ks| && ks[j] == k;
    Within(ks, m, j);
    AssembledSize(ks, m);
    forall i | 0 <= i < |m[k]|
      ensures image[k - base + i] == m[k][i]
    {
      ByteOfPayload(ks, m, j, k + i);
      AssembledAt(ks, m, k - base + i);
    }
    assert image[k - base..k - base + |m[k]|] == m[k];
  }

  lemma {:induction false} ByteOnTop(ks: seq<nat>, m: map<nat, seq<byte>>, j: nat, a: nat)
    requires forall i | 0 <= i < |ks| :: ks[i] in m
    requires j < |ks| && ks[j] <= a < ks[j] + |m[ks[j]]|
    requires forall i | j < i < |ks| :: !(ks[i] <= a < ks[i] + |m[ks[i]]|)
    ensures ByteAt(ks, m, a) == m[ks[j]][a - ks[j]]
  {
    if j < |ks| - 1 {
      ByteOnTop(ks[..|ks| - 1], m, j, a);
    }
  }

  /** The image reaches from the first address to the last end; and where payloads overlap, the one with the higher
      address is seen. */
  lemma HigherOnTop(ks: seq<nat>, m: map<nat, seq<byte>>, k: nat, a: nat)
    requires ks != [] && Sorts(ks, m) && k in m && k <= a < k + |m[k]|
    requires forall h | h in m && h > k :: !(h <= a < h + |m[h]|)
    ensures
      var (image, base) := Assembled(ks, m);
      && base in m && (forall h | h in m :: base <= h && h + |m[h]| <= base + |image|)
      && (exists h :: h in m && h + |m[h]| == base + |image|) && image[a - base] == m[k][a - k]
  {
    hide ByteAt, Assembled, EndOf;
    AssembledSize(ks, m);
    forall h | h in m
      ensures ks[0] <= h && h + |m[h]| <= EndOf(ks, m)
    {
      var i :| 0 <= i < |ks| && ks[i] == h;
      Within(ks, m, i);
    }
    var j :| 0 <= j < |ks| && ks[j] == k;
    assert forall i | j < i < |ks| :: ks[i] in m && ks[i] > k;
    ByteOnTop(ks, m, j, a);
    AssembledAt(ks, m, a - ks[0]);
  }

  lemma GapFilled(ks: seq<nat>, m: map<nat, seq<byte>>, i: nat)
    requires ks != [] && Sorts(ks, m) && i < |Assembled(ks, m).0|
    requires forall k | k in m :: !(k <= Assembled(ks, m).1 + i < k + |m[k]|)
    ensures Assembled(ks, m).0[i] == 255
  {
    ByteOfGap(ks, m, Assembled(ks, m).1 + i);
  }

  //
  // Splitting an image into blocks
  //

  lemma U32At(s: seq<byte>, offset: nat, v: nat)
    requires v < 0x1_0000_0000 && offset + 4 <= |s| && s[offset..offset + 4] == Le(v, 4)
    ensures U32(s, offset) == v
  {
    Ranges();
    FromLeOfLe(v, 4);
  }

  /** A block as a file holds it; flags and file size are not looked at. */
  function Written(b: Block, flags: nat, fileSize: nat): (s: seq<byte>)
    requires b.addr < 0x1_0000_0000 && b.no < b.total < 0x1_0000_0000 && 0 < |b.payload| <= MAX_PAYLOAD_SIZE
    requires flags < 0x1_0000_0000 && fileSize < 0x1_0000_0000
    ensures |s| == BLOCK_SIZE
  {
    Le(MAGIC_START0, 4) + Le(MAGIC_START1, 4) + Le(flags, 4) + Le(b.addr, 4) + Le(|b.payload|, 4) + Le(b.no, 4) +
        Le(b.total, 4)
    + Le(fileSize, 4) + b.payload + seq<byte>(MAX_PAYLOAD_SIZE - |b.payload|, _ => 0) + Le(MAGIC_END, 4)
  }

  lemma WrittenParses(b: Block, flags: nat, fileSize: nat)
    requires b.addr < 0x1_0000_0000 && b.no < b.total < 0x1_0000_0000 && 0 < |b.payload| <= MAX_PAYLOAD_SIZE
    requires flags < 0x1_0000_0000 && fileSize < 0x1_0000_0000
    ensures WellFormed(Written(b, flags, fileSize)) && Parsed(Written(b, flags, fileSize)) == b
  {
    hide Le, U32;
    var s := Written(b, flags, fileSize);
    assert s[508..512] == Le(MAGIC_END, 4);
    U32At(s, 0, MAGIC_START0);
    U32At(s, 4, MAGIC_START1);
    U32At(s, 12, b.addr);
    U32At(s, 16, |b.payload|);
    U32At(s, 20, b.no);
    U32At(s, 24, b.total);
    U32At(s, 508, MAGIC_END);
    assert s[DATA_OFFSET..DATA_OFFSET + |b.payload|] == b.payload;
  }

  predicate Pieces(ps: seq<seq<byte>>) {
    ps != [] && forall i | 0 <= i < |ps| :: ps[i] != []
  }

  function Offset(ps: seq<seq<byte>>, i: nat): nat
    requires i <= |ps|
  {
    |Flat(ps[..i])|
  }

  lemma OffsetNext(ps: seq<seq<byte>>, i: nat)
    requires i < |ps|
    ensures Offset(ps, i + 1) == Offset(ps, i) + |ps[i]|
    ensures Flat(ps[..i + 1]) == Flat(ps[..i]) + ps[i]
  {
    assert ps[..i + 1][..i] == ps[..i];
  }

  lemma {:induction false} OffsetsIncrease(ps: seq<seq<byte>>, i: nat, j: nat)
    requires i < j <= |ps|
    ensures Offset(ps, i) + |ps[i]| <= Offset(ps, j)
    decreases j
  {
    OffsetNext(ps, j - 1);
    if i < j - 1 {
      OffsetsIncrease(ps, i, j - 1);
    }
  }

  /** Blocks that carry the pieces of an image one after the other. */
  predicate Carries(bs: seq<seq<byte>>, ps: seq<seq<byte>>, base: nat) {
    |bs| == |ps| && forall i | 0 <= i < |ps| ::
      WellFormed(bs[i]) && Parsed(bs[i]) == Block(base + Offset(ps, i), i, |ps|, ps[i])
  }

  lemma {:induction false} RangeSize(s: set<nat>, n: nat)
    requires forall x: nat :: x in s <==> x < n
    ensures |s| == n
    decreases n
  {
    if n > 0 {
      RangeSize(s - {n - 1}, n - 1);
    } else {
      assert s == {};
    }
  }

  lemma CarriersAcceptable(bs: seq<seq<byte>>, ps: seq<seq<byte>>, base: nat)
    requires Pieces(ps) && Carries(bs, ps, base)
    ensures Acceptable(bs)
  {
    hide WellFormed, Parsed, Offset;
    forall i, j | 0 <= i < |bs| && 0 <= j < |bs|
      ensures Agree(bs[i], bs[j])
    {
      if i < j {
        OffsetsIncrease(ps, i, j);
      } else if j < i {
        OffsetsIncrease(ps, j, i);
      }
    }
    forall x: nat
      ensures x in Numbers(bs) <==> x < |ps|
    {
      if x < |ps| {
        assert Parsed(bs[x]).no == x;
      }
    }
    RangeSize(Numbers(bs), |ps|);
  }

  /** The addresses in order. */
  function Addresses(ps: seq<seq<byte>>, base: nat): (ks: seq<nat>)
    ensures |ks| == |ps| && forall i | 0 <= i < |ps| :: ks[i] == base + Offset(ps, i)
  {
    seq(|ps|, i requires 0 <= i < |ps| => base + Offset(ps, i))
  }

  lemma CarrierAt(bs: seq<seq<byte>>, ps: seq<seq<byte>>, base: nat, i: nat)
    requires Pieces(ps) && Carries(bs, ps, base) && Acceptable(bs) && i < |ps|
    ensures base + Offset(ps, i) in Payloads(bs) && Payloads(bs)[base + Offset(ps, i)] == ps[i]
  {
    hide WellFormed, Parsed, Offset, Payloads, Pieces;
    PayloadsAre(bs);
    var m, a := Payloads(bs), base + Offset(ps, i);
    assert Parsed(bs[i]).addr in m;
    var k :| 0 <= k < |bs| && Parsed(bs[k]).addr == a && Parsed(bs[k]).payload == m[a];
    assert Agree(bs[i], bs[k]);
  }

  lemma CarrierOf(bs: seq<seq<byte>>, ps: seq<seq<byte>>, base: nat, a: nat) returns (i: nat)
    requires Carries(bs, ps, base) && AllWellFormed(bs) && a in Payloads(bs)
    ensures i < |ps| && a == base + Offset(ps, i)
  {
    hide WellFormed, Parsed, Offset, Payloads;
    PayloadsAre(bs);
    i :| 0 <= i < |bs| && Parsed(bs[i]).addr == a && Parsed(bs[i]).payload == Payloads(bs)[a];
  }

  lemma CarriersPayloads(bs: seq<seq<byte>>, ps: seq<seq<byte>>, base: nat)
    requires Pieces(ps) && Carries(bs, ps, base)
    ensures AllWellFormed(bs) && InPlace(ps, base, Payloads(bs))
  {
    hide WellFormed, Parsed, Offset, Payloads, Carries, AllAgree, Pieces;
    CarriersAcceptable(bs, ps, base);
    var m, ks := Payloads(bs), Addresses(ps, base);
    forall i | 0 <= i < |ks|
      ensures ks[i] in m && m[ks[i]] == ps[i]
    {
      CarrierAt(bs, ps, base, i);
    }
    forall a | a in m
      ensures a in ks
    {
      var i := CarrierOf(bs, ps, base, a);
      assert ks[i] == a;
    }
    Apart(ps, base, m);
  }

  /** The pieces, one after the other from the base address on. */
  predicate InPlace(ps: seq<seq<byte>>, base: nat, m: map<nat, seq<byte>>) {
    var ks := Addresses(ps, base);
    Sorts(ks, m) && Disjoint(m) && forall i | 0 <= i < |ps| :: m[ks[i]] == ps[i]
  }

  lemma Apart(ps: seq<seq<byte>>, base: nat, m: map<nat, seq<byte>>)
    requires Pieces(ps)
    requires
      var ks := Addresses(ps, base);
      (forall i | 0 <= i < |ks| :: ks[i] in m && m[ks[i]] == ps[i]) && forall a | a in m :: a in ks
    ensures InPlace(ps, base, m)
  {
    hide Offset;
    var ks := Addresses(ps, base);
    AddressesApart(ps, base);
    forall a, b | a in m && b in m && a < b
      ensures a + |m[a]| <= b
    {
      var i :| 0 <= i < |ks| && ks[i] == a;
      var j :| 0 <= j < |ks| && ks[j] == b;
      assert i < j;
    }
  }

  lemma AddressesApart(ps: seq<seq<byte>>, base: nat)
    requires Pieces(ps)
    ensures var ks := Addresses(ps, base); Increasing(ks) && forall i, j | 0 <= i < j < |ks| :: ks[i] + |ps[i]| <= ks[j]
  {
    hide Offset;
    var ks := Addresses(ps, base);
    forall i, j | 0 <= i < j < |ks|
      ensures ks[i] + |ps[i]| <= ks[j]
    {
      OffsetsIncrease(ps, i, j);
    }
  }

  /** Converting any split of an image into blocks, in any order and with any repetitions, gives the image back. */
  lemma SplitConverts(ps: seq<seq<byte>>, base: nat, bs: seq<seq<byte>>, raw: seq<byte>, n: nat,
                      r: Result<(seq<byte>, nat)>)
    requires Pieces(ps) && Carries(bs, ps, base)
    requires |raw| == n * BLOCK_SIZE && SameBlocks(bs, Blocks(raw, n)) && Converts(raw, n, r)
    ensures r == Ok((Flat(ps), base))
  {
    hide WellFormed, Parsed, Payloads, SameBlocks, Blocks, Assembled, Pieces, Carries, Sorts, Disjoint;
    CarriersAcceptable(bs, ps, base);
    SameBlocksSamePayloads(bs, Blocks(raw, n));
    CarriersPayloads(bs, ps, base);
    var m, ks := Payloads(bs), Addresses(ps, base);
    AssembledPieces(ps, base, m);
    assert IsAssembled(m, (Flat(ps), base));
    AssembledOnce(m, r.value, (Flat(ps), base));
  }

  lemma AssembledPieces(ps: seq<seq<byte>>, base: nat, m: map<nat, seq<byte>>)
    requires Pieces(ps)
    requires InPlace(ps, base, m)
    ensures Addresses(ps, base) != [] && Assembled(Addresses(ps, base), m) == (Flat(ps), base)
  {
    hide Assembled, Sorts, Disjoint;
    assert ps[..|ps|] == ps;
    BaseIs(ps, base, m);
    EndIs(ps, base, m);
    var got := Assembled(Addresses(ps, base), m).0;
    forall i | 0 <= i < |ps|
      ensures PieceAt(got, ps, i)
    {
      PieceInPlace(ps, base, m, i);
    }
    AllPieces(got, ps, |ps|);
    assert got[..|Flat(ps)|] == got;
  }

  lemma EndIs(ps: seq<seq<byte>>, base: nat, m: map<nat, seq<byte>>)
    requires Pieces(ps) && InPlace(ps, base, m)
    ensures Addresses(ps, base) != [] && |Assembled(Addresses(ps, base), m).0| == |Flat(ps)|
  {
    hide Flat;
    var ks, last := Addresses(ps, base), |ps| - 1;
    BaseIs(ps, base, m);
    assert ps[..|ps|] == ps;
    OffsetNext(ps, last);
    assert ks[last] + |m[ks[last]]| == base + |Flat(ps)|;
    forall i | 0 <= i < |ks|
      ensures ks[i] + |m[ks[i]]| <= base + |Flat(ps)|
    {
      OffsetsIncrease(ps, i, |ps|);
    }
  }

  predicate PieceAt(got: seq<byte>, ps: seq<seq<byte>>, i: nat)
    requires i < |ps|
  {
    Offset(ps, i) + |ps[i]| <= |got| && got[Offset(ps, i)..Offset(ps, i) + |ps[i]|] == ps[i]
  }

  lemma {:induction false} AllPieces(got: seq<byte>, ps: seq<seq<byte>>, n: nat)
    requires n <= |ps| && forall i | 0 <= i < |ps| :: PieceAt(got, ps, i)
    ensures Offset(ps, n) <= |got| && got[..Offset(ps, n)] == Flat(ps[..n])
  {
    if n > 0 {
      AllPieces(got, ps, n - 1);
      OffsetNext(ps, n - 1);
      assert PieceAt(got, ps, n - 1);
      OnePieceMore(got, Flat(ps[..n - 1]), ps[n - 1]);
    }
  }

  lemma PieceInPlace(ps: seq<seq<byte>>, base: nat, m: map<nat, seq<byte>>, i: nat)
    requires Pieces(ps) && InPlace(ps, base, m) && i < |ps|
    ensures Addresses(ps, base) != [] && PieceAt(Assembled(Addresses(ps, base), m).0, ps, i)
  {
    hide Assembled, Sorts, Disjoint, Offset;
    var ks := Addresses(ps, base);
    KeyThere(ps, base, m, i);
    PayloadInPlace(ks, m, ks[i]);
    BaseIs(ps, base, m);
  }

  lemma OnePieceMore(got: seq<byte>, c: seq<byte>, p: seq<byte>)
    requires |c| + |p| <= |got| && got[..|c|] == c && got[|c|..|c| + |p|] == p
    ensures got[..|c| + |p|] == c + p
  {
    assert got[..|c| + |p|] == got[..|c|] + got[|c|..|c| + |p|];
  }

  lemma KeyThere(ps: seq<seq<byte>>, base: nat, m: map<nat, seq<byte>>, i: nat)
    requires InPlace(ps, base, m) && i < |ps|
    ensures Addresses(ps, base)[i] in m
  {
  }

  lemma BaseIs(ps: seq<seq<byte>>, base: nat, m: map<nat, seq<byte>>)
    requires ps != [] && InPlace(ps, base, m)
    ensures Addresses(ps, base) != [] && Assembled(Addresses(ps, base), m).1 == base
  {
    assert ps[..0] == [];
  }

  //
  // The conversion
  //

  lemma NoBlocks(raw: seq<byte>)
    requires |raw| == 0 || |raw| % BLOCK_SIZE != 0
    ensures forall n: nat :: |raw| == n * BLOCK_SIZE ==> Converts(raw, n, Uf2Error)
  {
    hide Acceptable, Blocks;
    forall n: nat | |raw| == n * BLOCK_SIZE
      ensures Converts(raw, n, Uf2Error)
    {
      assert n == 0;
      EmptyRefused(Blocks(raw, 0));
    }
  }

  /** A file is accepted if every block is well formed, all name the number of different blocks that there are, and
      blocks at the same address have the same payload. */
  lemma AcceptableIs(bs: seq<seq<byte>>)
    ensures Acceptable(bs) <==>
            && |bs| > 0 && (forall i | 0 <= i < |bs| :: WellFormed(bs[i]))
            && (forall i, j | 0 <= i < |bs| && 0 <= j < |bs| ::
                  var a, b := Parsed(bs[i]), Parsed(bs[j]);
                  a.total == b.total && (a.addr == b.addr ==> a.payload == b.payload))
            && |set i | 0 <= i < |bs| :: Parsed(bs[i]).no| == Parsed(bs[0]).total
  {
    hide WellFormed, Parsed;
    assert bs != [] && AllWellFormed(bs) ==> (AllAgree(bs) <==>
      forall i, j | 0 <= i < |bs| && 0 <= j < |bs| :: Agree(bs[i], bs[j]));
  }

  lemma EmptyRefused(bs: seq<seq<byte>>)
    requires bs == []
    ensures !Acceptable(bs)
  {
  }

  lemma TotalsDiffer(bs: seq<seq<byte>>, i: nat, j: nat)
    requires i < |bs| && j < |bs| && WellFormed(bs[i]) && WellFormed(bs[j])
    requires Parsed(bs[i]).total != Parsed(bs[j]).total
    ensures !Acceptable(bs)
  {
    hide WellFormed, Parsed;
    assert !Agree(bs[i], bs[j]);
  }

  lemma NothingSeen()
    ensures AllWellFormed([]) && AllAgree([]) && Payloads([]) == map[] && Numbers([]) == {}
  {
  }

  lemma Disagreement(bs: seq<seq<byte>>, i: nat, j: nat)
    requires i < |bs| && j < |bs| && WellFormed(bs[i]) && WellFormed(bs[j]) && !Agree(bs[i], bs[j])
    ensures !Acceptable(bs)
  {
  }

  lemma Conflict(bs: seq<seq<byte>>, index: nat) returns (i: nat)
    requires index < |bs| && AllWellFormed(bs[..index]) && WellFormed(bs[index])
    requires var m, b := Payloads(bs[..index]), Parsed(bs[index]); b.addr in m && m[b.addr] != b.payload
    ensures i < index && WellFormed(bs[i]) && !Agree(bs[i], bs[index])
  {
    hide WellFormed, Parsed, Payloads;
    var m, a := Payloads(bs[..index]), Parsed(bs[index]).addr;
    PayloadsAre(bs[..index]);
    i :| 0 <= i < index && Parsed(bs[..index][i]).addr == a && Parsed(bs[..index][i]).payload == m[a];
    assert bs[..index][i] == bs[i];
  }

  lemma AnotherBlock(bs: seq<seq<byte>>, index: nat)
    requires index < |bs| && AllWellFormed(bs[..index]) && AllAgree(bs[..index]) && WellFormed(bs[index])
    requires index > 0 ==> WellFormed(bs[0]) && Parsed(bs[0]).total == Parsed(bs[index]).total
    requires var m, b := Payloads(bs[..index]), Parsed(bs[index]); b.addr in m ==> m[b.addr] == b.payload
    ensures AllWellFormed(bs[..index + 1]) && AllAgree(bs[..index + 1])
    ensures Payloads(bs[..index + 1]) == Payloads(bs[..index])[Parsed(bs[index]).addr := Parsed(bs[index]).payload]
    ensures Numbers(bs[..index + 1]) == Numbers(bs[..index]) + {Parsed(bs[index]).no}
  {
    hide WellFormed, Parsed;
    var before, now := bs[..index], bs[..index + 1];
    assert now[..index] == before && now[index] == bs[index];
    assert forall i | 0 <= i < index :: now[i] == before[i] == bs[i];
    PayloadsAre(before);
    forall i | 0 <= i < index
      ensures Agree(before[i], bs[index])
    {
      assert Agree(before[0], before[i]);
      if Parsed(before[i]).addr == Parsed(bs[index]).addr {
        var k :| 0 <= k < index && Parsed(before[k]).addr == Parsed(bs[index]).addr
        && Parsed(before[k]).payload == Parsed(bs[index]).payload;
        assert Agree(before[i], before[k]);
      }
    }
    assert AllAgree(now);
    NumbersNext(before, bs[index]);
    assert before + [bs[index]] == now;
  }

  lemma NumbersNext(before: seq<seq<byte>>, b: seq<byte>)
    requires AllWellFormed(before) && WellFormed(b)
    ensures AllWellFormed(before + [b]) && Numbers(before + [b]) == Numbers(before) + {Parsed(b).no}
  {
    hide WellFormed, Parsed;
    var now := before + [b];
    assert now[|before|] == b && forall i | 0 <= i < |before| :: now[i] == before[i];
    forall n | n in Numbers(before)
      ensures n in Numbers(now)
    {
      var i :| 0 <= i < |before| && Parsed(before[i]).no == n;
      assert Parsed(now[i]).no == n;
    }
    assert Parsed(now[|before|]).no in Numbers(now);
  }

  lemma HasPayloads(bs: seq<seq<byte>>)
    requires Acceptable(bs)
    ensures Payloads(bs) != map[]
  {
    assert Parsed(bs[|bs| - 1]).addr in Payloads(bs);
  }

  /** uf2_to_bin_bytes. */
  method Uf2ToBinBytes(raw: seq<byte>) returns (r: Result<(seq<byte>, nat)>)
    ensures |raw| == 0 || |raw| % BLOCK_SIZE != 0 ==> r == Uf2Error
    ensures forall n: nat :: |raw| == n * BLOCK_SIZE ==> Converts(raw, n, r)
  {
    hide WellFormed, Parsed, Payloads, Numbers, AllAgree, Agree;
    if |raw| == 0 || |raw| % BLOCK_SIZE != 0 {
      NoBlocks(raw);
      return Uf2Error;
    }
    var blockCount := |raw| / BLOCK_SIZE;
    ghost var bs := Blocks(raw, blockCount);
    var blocks: map<nat, seq<byte>> := map[];
    var seen: set<nat> := {};
    var expectedTotal := 0;
    NothingSeen();
    for index := 0 to blockCount
      invariant AllWellFormed(bs[..index]) && AllAgree(bs[..index])
      invariant blocks == Payloads(bs[..index]) && seen == Numbers(bs[..index])
      invariant index > 0 ==> expectedTotal == Parsed(bs[0]).total
    {
      var block := raw[index * BLOCK_SIZE..(index + 1) * BLOCK_SIZE];
      assert block == bs[index] && bs[..index + 1][..index] == bs[..index];
      var ok := CheckBlock(block);
      if !ok {
        assert !AllWellFormed(bs);
        return Uf2Error;
      }
      var b := Parsed(block);
      if index == 0 {
        expectedTotal := b.total;
      } else if b.total != expectedTotal {
        assert bs[..index][0] == bs[0];
        TotalsDiffer(bs, 0, index);
        return Uf2Error;
      }
      if b.addr in blocks && blocks[b.addr] != b.payload {
        var i := Conflict(bs, index);
        Disagreement(bs, i, index);
        return Uf2Error;
      }
      AnotherBlock(bs, index);
      blocks := blocks[b.addr := b.payload];
      seen := seen + {b.no};
    }
    assert bs[..blockCount] == bs;
    if |seen| != expectedTotal {
      return Uf2Error;
    }
    HasPayloads(bs);
    var v := Assemble(blocks);
    r := Ok(v);
  }

  /** The checks of a block by itself, in the source's order. The payload always fits into the block. */
  method CheckBlock(block: seq<byte>) returns (ok: bool)
    requires |block| == BLOCK_SIZE
    ensures ok == WellFormed(block)
    ensures ok <==>
            && FromLe(block[0..4]) == 0x0A324655 && FromLe(block[4..8]) == 0x9E5D5157
            && FromLe(block[508..512]) == 0x0AB16F30 && 0 < FromLe(block[16..20]) <= 476
            && 0 < FromLe(block[24..28]) && FromLe(block[20..24]) < FromLe(block[24..28])
  {
    if U32(block, 0) != MAGIC_START0 || U32(block, 4) != MAGIC_START1 {
      return false;
    }
    if U32(block, 508) != MAGIC_END {
      return false;
    }
    var payloadSize := U32(block, 16);
    if payloadSize <= 0 || payloadSize > MAX_PAYLOAD_SIZE {
      return false;
    }
    var blockNo, totalBlocks := U32(block, 20), U32(block, 24);
    if totalBlocks <= 0 {
      return false;
    }
    if blockNo >= totalBlocks {
      return false;
    }
    ok := true;
  }

  /** The addresses sorted. */
  method SortedAddresses(blocks: map<nat, seq<byte>>) returns (ks: seq<nat>)
    ensures Sorts(ks, blocks)
  {
    ks := [];
    var rest := blocks.Keys;
    while rest != {}
      invariant rest <= blocks.Keys && Increasing(ks) && (forall a | a in ks :: a in blocks)
      invariant forall a | a in blocks :: a in rest || a in ks
      invariant forall i, b | 0 <= i < |ks| && b in rest :: ks[i] < b
      decreases rest
    {
      var a := Least(rest);
      rest := rest - {a};
      ks := ks + [a];
    }
    assert forall i | 0 <= i < |ks| :: ks[i] in ks;
  }

  method Least(s: set<nat>) returns (a: nat)
    requires s != {}
    ensures a in s && forall b | b in s :: a <= b
  {
    a :| a in s;
    var rest := s - {a};
    while rest != {}
      invariant rest <= s && a in s && forall b | b in s :: b in rest || a <= b
      decreases rest
    {
      var b :| b in rest;
      if b < a {
        a := b;
      }
      rest := rest - {b};
    }
  }

  /** The second half: a field of 0xFF, and the payloads written over it in order. */
  method Assemble(blocks: map<nat, seq<byte>>) returns (v: (seq<byte>, nat))
    requires blocks != map[]
    ensures IsAssembled(blocks, v)
  {
    var ks := SortedAddresses(blocks);
    assert ks != [] by {
      var a :| a in blocks;
    }
    hide ByteAt, EndOf, WrittenUpTo, Assembled;
    AssembledSize(ks, blocks);
    var base, end := ks[0], EndOf(ks, blocks);
    var image := new byte[end - base](_ => 255);
    WriteAll(ks, blocks, base, image);
    v := (image[..], base);
    AllWritten(ks, blocks, base, image[..]);
  }

  method WriteAll(ks: seq<nat>, blocks: map<nat, seq<byte>>, base: nat, image: array<byte>)
    requires ks != [] && Sorts(ks, blocks) && base == ks[0] && base + image.Length == EndOf(ks, blocks)
    requires forall i | 0 <= i < image.Length :: image[i] == 255
    modifies image
    ensures WrittenUpTo(ks, |ks|, blocks, base, image[..])
  {
    hide ByteAt, EndOf, WrittenUpTo;
    NothingWritten(ks, blocks, base, image[..]);
    for k := 0 to |ks|
      invariant WrittenUpTo(ks, k, blocks, base, image[..])
    {
      var address: nat := ks[k];
      Within(ks, blocks, k);
      ghost var before := image[..];
      WritePayload(image, address - base, blocks[address]);
      OneWritten(ks, k, blocks, base, before, image[..]);
    }
  }

  method WritePayload(image: array<byte>, offset: nat, payload: seq<byte>)
    requires offset + |payload| <= image.Length
    modifies image
    ensures image[..] == old(image[..])[..offset] + payload + old(image[..])[offset + |payload|..]
  {
    forall i | 0 <= i < |payload| {
      image[offset + i] := payload[i];
    }
  }

  /** The image after the first k payloads. */
  ghost predicate WrittenUpTo(ks: seq<nat>, k: nat, m: map<nat, seq<byte>>, base: nat, image: seq<byte>) {
    k <= |ks| && (forall i | 0 <= i < |ks| :: ks[i] in m) &&
    forall i | 0 <= i < |image| :: image[i] == ByteAt(ks[..k], m, base + i)
  }

  lemma NothingWritten(ks: seq<nat>, m: map<nat, seq<byte>>, base: nat, image: seq<byte>)
    requires (forall i | 0 <= i < |ks| :: ks[i] in m) && forall i | 0 <= i < |image| :: image[i] == 255
    ensures WrittenUpTo(ks, 0, m, base, image)
  {
  }

  lemma OneWritten(ks: seq<nat>, k: nat, m: map<nat, seq<byte>>, base: nat, before: seq<byte>, image: seq<byte>)
    requires k < |ks| && WrittenUpTo(ks, k, m, base, before) && base <= ks[k]
    requires
      var offset, payload := ks[k] - base, m[ks[k]];
      offset + |payload| <= |before| && image == before[..offset] + payload + before[offset + |payload|..]
    ensures WrittenUpTo(ks, k + 1, m, base, image)
  {
    assert ks[..k + 1][..k] == ks[..k] && ks[..k + 1][k] == ks[k];
  }

  lemma AllWritten(ks: seq<nat>, m: map<nat, seq<byte>>, base: nat, image: seq<byte>)
    requires ks != [] && Sorts(ks, m) && base == ks[0] && WrittenUpTo(ks, |ks|, m, base, image)
    requires ks[0] in m && |image| == EndOf(ks, m) - base
    ensures IsAssembled(m, (image, base))
  {
    hide ByteAt, Assembled, EndOf;
    assert ks[..|ks|] == ks;
    AssembledSize(ks, m);
    forall i | 0 <= i < |image|
      ensures image[i] == Assembled(ks, m).0[i]
    {
      AssembledAt(ks, m, i);
    }
    assert image == Assembled(ks, m).0;
  }
}
