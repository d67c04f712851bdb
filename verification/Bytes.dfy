/** Bytes as numbers, with the bitwise operation that programming flash performs. */
module Bytes {
  type byte = x: int | 0 <= x < 256

  /** Bitwise AND, bit by bit from the lowest. */
  function And(a: nat, b: nat): (r: nat)
    ensures r <= a
  {
    if a == 0 then 0 else a % 2 * (b % 2) + 2 * And(a / 2, b / 2)
  }

  /** Programming an erased byte stores the data. */
  lemma AndOnes(b: byte)
    ensures And(255, b) == b
  {
    AndOnesBelow(b, 8, 256);
  }

  lemma {:induction false} AndOnesBelow(b: nat, k: nat, p: nat)
    requires p == Power(k) && b < p
    ensures And(p - 1, b) == b
  {
    if k > 0 {
      assert (p - 1) / 2 == Power(k - 1) - 1 && (p - 1) % 2 == 1;
      AndOnesBelow(b / 2, k - 1, Power(k - 1));
    }
  }

  function Power(k: nat): (p: nat)
    ensures p >= 1
  {
    if k == 0 then 1 else 2 * Power(k - 1)
  }

  /** Programming zeros clears whatever was there. */
  lemma {:induction false} AndZero(a: nat)
    ensures And(a, 0) == 0
  {
    if a > 0 {
      AndZero(a / 2);
    }
  }

  /** Incrementing an unsigned 8-bit counter. */
  function Next8(n: nat): nat
    requires n < 256
  {
    if n == 255 then 0 else n + 1
  }

  //
  // C strings
  //

  /** The bytes before the first zero, if there is one. */
  function StrLen(s: seq<byte>): (n: nat)
    ensures n <= |s| && (n < |s| ==> s[n] == 0)
    ensures forall i | 0 <= i < n :: s[i] != 0
  {
    if s == [] || s[0] == 0 then 0 else 1 + StrLen(s[1..])
  }

  function CString(s: seq<byte>): seq<byte> {
    s[..StrLen(s)]
  }

  lemma {:induction false} StrLenIs(s: seq<byte>, n: nat)
    requires n <= |s| && (n < |s| ==> s[n] == 0) && forall i | 0 <= i < n :: s[i] != 0
    ensures StrLen(s) == n
  {
    if n > 0 {
      StrLenIs(s[1..], n - 1);
    }
  }

  //
  // Little-endian numbers
  //

  /** How many values n bytes can hold. */
  function Range(n: nat): (r: nat)
    ensures r >= 1
  {
    if n == 0 then 1 else 256 * Range(n - 1)
  }

  function FromLe(s: seq<byte>): (v: nat) {
    if s == [] then 0 else s[0] as int + 256 * FromLe(s[1..])
  }

  function Le(v: nat, n: nat): (s: seq<byte>)
    ensures |s| == n
  {
    if n == 0 then [] else [v % 256] + Le(v / 256, n - 1)
  }

  lemma {:induction false} FromLeOfLe(v: nat, n: nat)
    requires v < Range(n)
    ensures FromLe(Le(v, n)) == v
  {
    if n > 0 {
      assert v / 256 < Range(n - 1);
      FromLeOfLe(v / 256, n - 1);
      assert Le(v, n)[1..] == Le(v / 256, n - 1);
    }
  }

  lemma Ranges()
    ensures Range(1) == 0x100 && Range(2) == 0x1_0000 && Range(4) == 0x1_0000_0000
    ensures Range(8) == 0x1_0000_0000_0000_0000
  {
    assert Range(3) == 0x100_0000;
    assert Range(5) == 0x100_0000_0000;
    assert Range(6) == 0x1_0000_0000_0000;
    assert Range(7) == 0x100_0000_0000_0000;
  }
}
