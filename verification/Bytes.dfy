/** Octets, Python's clamped slices, byte masks and big-endian numbers. */
module Bytes {

  type Byte = b: int | 0 <= b < 256

  // ----- Slices -----

  function Min(a: int, b: int): int {
    if a < b then a else b
  }

  /** Python's s[lo:hi] for non-negative bounds: both ends are clamped to the sequence. */
  function Slice<T>(s: seq<T>, lo: nat, hi: nat): seq<T> {
    if lo <= hi then s[Min(lo, |s|)..Min(hi, |s|)] else []
  }

  /** Python's s[lo:] for a non-negative bound. */
  function Drop<T>(s: seq<T>, lo: nat): seq<T> {
    s[Min(lo, |s|)..]
  }

  // ----- Bit masks -----

  /** Python's a & b, digit by digit. */
  function And(a: nat, b: nat): nat {
    if a == 0 || b == 0 then 0
    else 2 * And(a / 2, b / 2) + (if a % 2 == 1 && b % 2 == 1 then 1 else 0)
  }

  /** Python's a | b, digit by digit. */
  function Or(a: nat, b: nat): nat {
    if a == 0 then b else if b == 0 then a
    else 2 * Or(a / 2, b / 2) + (if a % 2 == 1 || b % 2 == 1 then 1 else 0)
  }

  /** Python's a ^ b, digit by digit. */
  function Xor(a: nat, b: nat): nat {
    if a == 0 then b else if b == 0 then a
    else 2 * Xor(a / 2, b / 2) + (if a % 2 != b % 2 then 1 else 0)
  }

  function Pow2(k: nat): (r: nat)
    ensures r > 0
  {
    if k == 0 then 1 else 2 * Pow2(k - 1)
  }

  /** Testing the top digit of a (k + 1)-digit number. */
  lemma {:induction false} AndTopDigit(a: nat, k: nat)
    requires a < 2 * Pow2(k)
    ensures And(a, Pow2(k)) == if a < Pow2(k) then 0 else Pow2(k)
  {
    if k > 0 {
      AndTopDigit(a / 2, k - 1);
      assert Pow2(k) / 2 == Pow2(k - 1) && Pow2(k) % 2 == 0;
    } else {
      assert Pow2(0) == 1;
    }
  }

  /** Keeping the digits below the top one. */
  lemma {:induction false} AndLowDigits(a: nat, k: nat)
    requires a < 2 * Pow2(k)
    ensures And(a, Pow2(k) - 1) == if a < Pow2(k) then a else a - Pow2(k)
  {
    if k > 0 {
      AndLowDigits(a / 2, k - 1);
      assert (Pow2(k) - 1) / 2 == Pow2(k - 1) - 1 && (Pow2(k) - 1) % 2 == 1;
    } else {
      assert Pow2(0) == 1;
    }
  }

  /** Setting the top digit. */
  lemma {:induction false} OrTopDigit(a: nat, k: nat)
    requires a < 2 * Pow2(k)
    ensures Or(a, Pow2(k)) == if a < Pow2(k) then a + Pow2(k) else a
  {
    if k > 0 {
      OrTopDigit(a / 2, k - 1);
      assert Pow2(k) / 2 == Pow2(k - 1) && Pow2(k) % 2 == 0;
    } else {
      assert Pow2(0) == 1;
    }
  }

  /** What the masks 0x80 and 0x7F do to one octet. */
  lemma OctetMasks(b: Byte)
    ensures And(b, 0x80) == if b < 128 then 0 else 128
    ensures And(b, 0x7F) == if b < 128 then b else b - 128
    ensures Or(b, 0x80) == if b < 128 then b + 128 else b
  {
    assert Pow2(3) == 8;
    assert Pow2(7) == 128;
    AndTopDigit(b, 7);
    AndLowDigits(b, 7);
    OrTopDigit(b, 7);
  }

  /** `b ^ 1` moves between the two members of an even/odd pair, so it never keeps the octet. */
  lemma FlipLowBit(b: Byte)
    ensures Xor(b, 1) == if b % 2 == 0 then b + 1 else b - 1
  {
  }

  // ----- Big-endian numbers -----

  function Pow256(k: nat): (r: nat)
    ensures r > 0
  {
    if k == 0 then 1 else 256 * Pow256(k - 1)
  }

  lemma {:induction false} Pow256Monotone(a: nat, b: nat)
    requires a <= b
    ensures Pow256(a) <= Pow256(b)
    decreases b
  {
    if a < b {
      Pow256Monotone(a, b - 1);
    }
  }

  /** int.from_bytes(s, "big") */
  function FromBigEndian(s: seq<Byte>): nat {
    if s == [] then 0 else 256 * FromBigEndian(s[..|s| - 1]) + s[|s| - 1]
  }

  /** n.to_bytes(k, "big") for an n that fits in k octets. */
  function ToBigEndian(n: nat, k: nat): (s: seq<Byte>)
    ensures |s| == k
  {
    if k == 0 then [] else ToBigEndian(n / 256, k - 1) + [n % 256]
  }

  lemma {:induction false} ToThenFromBigEndian(n: nat, k: nat)
    requires n < Pow256(k)
    ensures FromBigEndian(ToBigEndian(n, k)) == n
  {
    if k > 0 {
      ToThenFromBigEndian(n / 256, k - 1);
      var s := ToBigEndian(n, k);
      assert s[..|s| - 1] == ToBigEndian(n / 256, k - 1);
    }
  }

  lemma {:induction false} FromThenToBigEndian(s: seq<Byte>)
    ensures FromBigEndian(s) < Pow256(|s|)
    ensures ToBigEndian(FromBigEndian(s), |s|) == s
  {
    if s != [] {
      var front := s[..|s| - 1];
      FromThenToBigEndian(front);
      assert FromBigEndian(s) / 256 == FromBigEndian(front);
      assert FromBigEndian(s) % 256 == s[|s| - 1];
      assert s == front + [s[|s| - 1]];
    }
  }

  /** The first octet is the highest digit. */
  lemma {:induction false} FirstOctetIsHighest(a: Byte, s: seq<Byte>)
    ensures FromBigEndian([a] + s) == a * Pow256(|s|) + FromBigEndian(s)
  {
    if s == [] {
      assert [a] + s == [a] && [a][..0] == [];
      assert Pow256(0) == 1;
    } else {
      var front, last := s[..|s| - 1], s[|s| - 1];
      assert ([a] + s)[..|s|] == [a] + front;
      FirstOctetIsHighest(a, front);
      assert Pow256(|s|) == 256 * Pow256(|front|);
      assert 256 * (a * Pow256(|front|) + FromBigEndian(front)) == a * Pow256(|s|) + 256 * FromBigEndian(front);
    }
  }

  /** The first octet is zero exactly when one octet fewer would have been enough. */
  lemma {:induction false} LeadingZero(s: seq<Byte>)
    requires s != []
    ensures s[0] == 0 <==> FromBigEndian(s) < Pow256(|s| - 1)
  {
    if |s| == 1 {
      assert FromBigEndian(s[..0]) == 0;
      assert Pow256(0) == 1;
    } else {
      var front := s[..|s| - 1];
      LeadingZero(front);
      assert Pow256(|s| - 1) == 256 * Pow256(|s| - 2);
    }
  }

  /** n.bit_length() */
  function BitLength(n: nat): (r: nat)
    ensures r == 0 <==> n == 0
  {
    if n == 0 then 0 else 1 + BitLength(n / 2)
  }

  /** The number of octets that the bit length of n, rounded up, takes. */
  function MinBytes(n: nat): nat {
    (BitLength(n) + 7) / 8
  }

  lemma {:induction false} BitLengthBound(n: nat, k: nat)
    ensures BitLength(n) <= k <==> n < Pow2(k)
  {
    if n > 0 && k > 0 {
      BitLengthBound(n / 2, k - 1);
    }
  }

  lemma {:induction false} EightDigitsAtATime(k: nat)
    ensures Pow2(8 * k) == Pow256(k)
  {
    if k > 0 {
      EightDigitsAtATime(k - 1);
      var p := Pow2(8 * k - 8);
      assert Pow2(8 * k - 4) == 16 * p by {
        assert Pow2(8 * k - 6) == 2 * Pow2(8 * k - 7);
        assert Pow2(8 * k - 4) == 2 * Pow2(8 * k - 5);
      }
      assert Pow2(8 * k) == 16 * Pow2(8 * k - 4) by {
        assert Pow2(8 * k - 2) == 2 * Pow2(8 * k - 3);
        assert Pow2(8 * k) == 2 * Pow2(8 * k - 1);
      }
    }
  }

  /** The octet count chosen from the bit length is the least one that holds the number. */
  lemma MinBytesIsLeast(n: nat, k: nat)
    ensures MinBytes(n) <= k <==> n < Pow256(k)
  {
    BitLengthBound(n, 8 * k);
    EightDigitsAtATime(k);
  }
}
