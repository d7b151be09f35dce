/**
 * The parts of the Borsh wire format that the account layouts use: fixed-width
 * little-endian integers and length-prefixed strings, plus Anchor's field widths.
 */
module Borsh {
  import opened Solana

  /** Anchor prefixes every account with an 8-byte type discriminator. */
  const DISCRIMINATOR_SIZE: nat := 8
  const PUBKEY_SIZE: nat := 32
  const U64_SIZE: nat := 8
  const I64_SIZE: nat := 8
  /** A Borsh `String` is a u32 little-endian length followed by the bytes. */
  const STRING_PREFIX_SIZE: nat := 4

  function Pow256(n: nat): (r: nat)
    ensures r >= 1
  {
    if n == 0 then 1 else 256 * Pow256(n - 1)
  }

  lemma Pow256Values()
    ensures Pow256(4) == U32_MAX + 1
    ensures Pow256(8) == U64_MAX + 1
  {
  }

  /** Division with remainder has one answer. */
  lemma DivUnique(x: int, d: int, q: int, m: int)
    requires d > 0 && x == d * q + m && 0 <= m < d
    ensures x / d == q
  {
    var q', m' := x / d, x % d;
    var k := q - q';
    assert d * k == m' - m;
  }

  /** Dividing by a and then by b is dividing by a * b. */
  lemma DivDiv(x: nat, a: nat, b: nat)
    requires a > 0 && b > 0
    ensures (x / a) / b == x / (a * b)
  {
    var q, m := x / a, x % a;
    var q2, m2 := q / b, q % b;
    assert x == (a * b) * q2 + (a * m2 + m) by {
      assert x == a * q + m;
      assert q == b * q2 + m2;
    }
    assert a * m2 + m < a * b by {
      assert a * m2 <= a * (b - 1);
    }
    DivUnique(x, a * b, q2, a * m2 + m);
  }

  /** The n-byte little-endian form of x, as Rust's `to_le_bytes` gives it for an n-byte integer. */
  function LeBytes(x: nat, n: nat): (r: Bytes)
    requires x < Pow256(n)
    ensures |r| == n
  {
    if n == 0 then []
    else
      var low: u8 := x % 256;
      [low] + LeBytes(x / 256, n - 1)
  }

  /** The byte order: byte i of `LeBytes(x, n)` is digit i of x in base 256, least significant first. */
  lemma {:induction false} LeBytesDigits(x: nat, n: nat)
    requires x < Pow256(n)
    ensures forall i :: 0 <= i < n ==> LeBytes(x, n)[i] == (x / Pow256(i)) % 256
  {
    if n > 0 {
      var rest := LeBytes(x / 256, n - 1);
      LeBytesDigits(x / 256, n - 1);
      var r := LeBytes(x, n);
      assert r == [(x % 256) as u8] + rest;
      forall i | 0 <= i < n ensures r[i] == (x / Pow256(i)) % 256 {
        if i == 0 {
          assert Pow256(0) == 1;
        } else {
          assert r[i] == rest[i - 1];
          var p := Pow256(i - 1);
          assert Pow256(i) == 256 * p;
          DivDiv(x, 256, p);
          assert rest[i - 1] == ((x / 256) / p) % 256;
        }
      }
    }
  }

  /** Reads a little-endian unsigned integer; the value always fits the width it was read from. */
  function FromLe(bs: Bytes): (r: nat)
    ensures r < Pow256(|bs|)
  {
    if bs == [] then 0 else bs[0] + 256 * FromLe(bs[1..])
  }

  lemma {:induction false} FromLeOfLeBytes(x: nat, n: nat)
    requires x < Pow256(n)
    ensures FromLe(LeBytes(x, n)) == x
  {
    if n > 0 {
      var bs := LeBytes(x, n);
      assert bs[1..] == LeBytes(x / 256, n - 1);
      FromLeOfLeBytes(x / 256, n - 1);
    }
  }

  lemma {:induction false} LeBytesOfFromLe(bs: Bytes)
    ensures LeBytes(FromLe(bs), |bs|) == bs
  {
    if bs != [] {
      LeBytesOfFromLe(bs[1..]);
      var x := FromLe(bs);
      assert x % 256 == bs[0] && x / 256 == FromLe(bs[1..]);
    }
  }

  /** Distinct integers of one width have distinct encodings, so an integer seed tells indices apart. */
  lemma LeBytesInjective(x: nat, y: nat, n: nat)
    requires x < Pow256(n) && y < Pow256(n)
    ensures LeBytes(x, n) == LeBytes(y, n) <==> x == y
  {
    if LeBytes(x, n) == LeBytes(y, n) {
      FromLeOfLeBytes(x, n);
      FromLeOfLeBytes(y, n);
    }
  }

  /** The Borsh form of a `String` (its UTF-8 bytes `s`). */
  function EncodeString(s: Bytes): (r: Bytes)
    requires |s| <= U32_MAX
    ensures |r| == StringSize(s)
    ensures r[STRING_PREFIX_SIZE..] == s
  {
    Pow256Values();
    LeBytes(|s|, STRING_PREFIX_SIZE) + s
  }

  /** The number of bytes a string field takes on the wire. */
  function StringSize(s: Bytes): nat
  {
    STRING_PREFIX_SIZE + |s|
  }

  /** Reads one string off the front of a buffer and returns it with the bytes that follow it. */
  function DecodeString(bs: Bytes): Option<(Bytes, Bytes)>
  {
    if |bs| < STRING_PREFIX_SIZE then None
    else
      var n := FromLe(bs[..STRING_PREFIX_SIZE]);
      if |bs| - STRING_PREFIX_SIZE < n then None
      else Some((bs[STRING_PREFIX_SIZE..STRING_PREFIX_SIZE + n], bs[STRING_PREFIX_SIZE + n..]))
  }

  lemma DecodeEncodeString(s: Bytes, rest: Bytes)
    requires |s| <= U32_MAX
    ensures DecodeString(EncodeString(s) + rest) == Some((s, rest))
  {
    Pow256Values();
    var bs := EncodeString(s) + rest;
    assert bs[..STRING_PREFIX_SIZE] == LeBytes(|s|, STRING_PREFIX_SIZE);
    FromLeOfLeBytes(|s|, STRING_PREFIX_SIZE);
    assert bs[STRING_PREFIX_SIZE..STRING_PREFIX_SIZE + |s|] == s;
    assert bs[STRING_PREFIX_SIZE + |s|..] == rest;
  }

  lemma EncodeDecodeString(bs: Bytes, s: Bytes, rest: Bytes)
    requires DecodeString(bs) == Some((s, rest))
    ensures |s| <= U32_MAX
    ensures EncodeString(s) + rest == bs
  {
    Pow256Values();
    var prefix := bs[..STRING_PREFIX_SIZE];
    LeBytesOfFromLe(prefix);
    assert |s| == FromLe(prefix);
    assert bs == prefix + s + rest;
  }
}
