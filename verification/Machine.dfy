/** Fixed-width words, bytes and their little-endian encodings. */
module Machine {

  datatype Option<+T> = None | Some(value: T)

  const TWO_32 := 0x1_0000_0000
  const TWO_63 := 0x8000_0000_0000_0000
  const TWO_64 := 0x1_0000_0000_0000_0000
  const U64_MAX := 0xFFFF_FFFF_FFFF_FFFF
  const U32_MAX := 0xFFFF_FFFF

  const EINVAL := 22  // errno of an invalid argument

  type u32 = x: int | 0 <= x < 0x1_0000_0000
  type byte = x: int | 0 <= x < 256
  type u64 = x: int | 0 <= x < 0x1_0000_0000_0000_0000

  function Min(a: int, b: int): int { if a <= b then a else b }

  function Max(a: int, b: int): int { if a <= b then b else a }

  function SaturatingAdd(a: u64, b: nat): (sum: u64)
    ensures a + b < TWO_64 ==> sum == a + b
    ensures a + b >= TWO_64 ==> sum == TWO_64 - 1
  {
    if a + b <= U64_MAX then a + b else U64_MAX
  }

  function SaturatingSub(a: nat, b: nat): (difference: nat)
    ensures difference == Max(a - b, 0)
  {
    if b <= a then a - b else 0
  }

  /** s cut down to newLen, or lengthened to it with fill bytes. */
  function Resized(s: seq<byte>, newLen: nat, fill: byte): (r: seq<byte>)
    ensures |r| == newLen
    ensures forall i :: 0 <= i < newLen ==> r[i] == if i < |s| then s[i] else fill
  {
    if newLen <= |s| then s[..newLen] else s + seq(newLen - |s|, _ => fill)
  }

  function Concat(parts: seq<seq<byte>>): seq<byte>
  {
    if parts == [] then [] else parts[0] + Concat(parts[1..])
  }

  function Pow256(n: nat): (p: nat)
    ensures p > 0
  {
    if n == 0 then 1 else 256 * Pow256(n - 1)
  }

  lemma WordSize()
    ensures Pow256(7) == 0x100_0000_0000_0000
    ensures Pow256(8) == TWO_64
  {
    assert Pow256(4) == TWO_32;
  }

  /** The n low-order bytes of v, least significant first. */
  function LeBytes(v: nat, n: nat): (s: seq<byte>)
    ensures |s| == n
  {
    if n == 0 then [] else [v % 256] + LeBytes(v / 256, n - 1)
  }

  function LeWord(s: seq<byte>): nat
  {
    if s == [] then 0 else s[0] + 256 * LeWord(s[1..])
  }

  lemma {:induction false} LeWordOfBytes(v: nat, n: nat)
    requires v < Pow256(n)
    ensures LeWord(LeBytes(v, n)) == v
  {
    if n != 0 {
      LeWordOfBytes(v / 256, n - 1);
      assert LeBytes(v, n)[1..] == LeBytes(v / 256, n - 1);
    }
  }

  lemma {:induction false} LeWordBound(s: seq<byte>)
    ensures LeWord(s) < Pow256(|s|)
  {
    if s != [] {
      LeWordBound(s[1..]);
    }
  }

  lemma LowByte(b: byte, high: nat)
    ensures (b + 256 * high) % 256 == b && (b + 256 * high) / 256 == high
  {
  }

  lemma {:induction false} LeBytesOfWord(s: seq<byte>)
    ensures LeWord(s) < Pow256(|s|)
    ensures LeBytes(LeWord(s), |s|) == s
  {
    LeWordBound(s);
    if s != [] {
      LeBytesOfWord(s[1..]);
      LowByte(s[0], LeWord(s[1..]));
      assert s == [s[0]] + s[1..];
    }
  }

  lemma {:induction false} LeWordAppend(s: seq<byte>, b: byte)
    ensures LeWord(s + [b]) == LeWord(s) + Pow256(|s|) * b
  {
    if s == [] {
      assert [b][1..] == [];
    } else {
      LeWordAppend(s[1..], b);
      assert (s + [b])[1..] == s[1..] + [b];
      Scaled(LeWord(s[1..]), Pow256(|s| - 1), b);
    }
  }

  lemma Scaled(x: int, p: int, b: int)
    ensures 256 * (x + p * b) == 256 * x + (256 * p) * b
  {
  }

  /** A 64-bit word is zero exactly when all of its bytes are, and its parity is that of its first byte. */
  lemma {:induction false} LeWordZero(s: seq<byte>)
    ensures LeWord(s) == 0 <==> forall i :: 0 <= i < |s| ==> s[i] == 0
  {
    if s != [] {
      LeWordZero(s[1..]);
      assert forall i :: 1 <= i < |s| ==> s[i] == s[1..][i - 1];
    }
  }

  lemma LeWordLowByte(s: seq<byte>)
    requires s != []
    ensures LeWord(s) % 256 == s[0] && LeWord(s) % 2 == s[0] % 2
  {
    assert LeWord(s) == s[0] + 256 * LeWord(s[1..]);
  }

  /** The sign bit of a 64-bit word is the top bit of its last byte. */
  lemma LeWordTopByte(s: seq<byte>)
    requires |s| == 8
    ensures LeWord(s) < TWO_64
    ensures LeWord(s) / Pow256(7) == s[7]
    ensures LeWord(s) >= TWO_63 <==> s[7] >= 128
  {
    WordSize();
    LeBytesOfWord(s);
    LeBytesOfWord(s[..7]);
    LeWordAppend(s[..7], s[7]);
    assert s == s[..7] + [s[7]];
  }

  /** A 24-byte object made of three 64-bit words. */
  function ThreeWords(a: nat, b: nat, c: nat): (s: seq<byte>)
    ensures |s| == 24
  {
    LeBytes(a, 8) + LeBytes(b, 8) + LeBytes(c, 8)
  }

  lemma ThreeWordsRead(a: u64, b: u64, c: u64)
    ensures var s := ThreeWords(a, b, c);
            LeWord(s[0..8]) == a && LeWord(s[8..16]) == b && LeWord(s[16..24]) == c
  {
    var s := ThreeWords(a, b, c);
    WordSize();
    LeWordOfBytes(a, 8);
    LeWordOfBytes(b, 8);
    LeWordOfBytes(c, 8);
    assert s[0..8] == LeBytes(a, 8);
    assert s[8..16] == LeBytes(b, 8);
    assert s[16..24] == LeBytes(c, 8);
  }
}
