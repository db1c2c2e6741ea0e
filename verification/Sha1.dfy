// SHA-1 as FIPS 180-4 defines it and HMAC as RFC 2104 defines it.

module Sha1Spec {

  type byte = bv8
  type word = bv32

  // The working variables a..e, also used for the hash value H0..H4.
  datatype Vars = Vars(a: word, b: word, c: word, d: word, e: word)

  // Section 3.2.  The operations on words have names so that a proof about
  // the rounds can hide what they do to the bits.
  function Rotl(x: word, n: nat): word
    requires 0 < n < 32
  {
    (x << n) | (x >> (32 - n))
  }

  function Add(x: word, y: word): word { x + y }
  function And(x: word, y: word): word { x & y }
  function Or(x: word, y: word): word { x | y }
  function Xor(x: word, y: word): word { x ^ y }
  function Not(x: word): word { !x }

  // Section 4.1.1.
  function Ch(x: word, y: word, z: word): word { Xor(And(x, y), And(Not(x), z)) }
  function Parity(x: word, y: word, z: word): word { Xor(Xor(x, y), z) }
  function Maj(x: word, y: word, z: word): word { Xor(Xor(And(x, y), And(x, z)), And(y, z)) }

  function F(t: nat, x: word, y: word, z: word): word {
    if t < 20 then Ch(x, y, z) else if t < 40 then Parity(x, y, z)
    else if t < 60 then Maj(x, y, z) else Parity(x, y, z)
  }

  // Section 4.2.1.
  function K(t: nat): word {
    if t < 20 then 0x5a827999 else if t < 40 then 0x6ed9eba1
    else if t < 60 then 0x8f1bbcdc else 0xca62c1d6
  }

  // They are 2^30 times the square roots of 2, 3, 5 and 10, rounded down.
  lemma RoundConstants()
    ensures IsRoot(K(0) as nat, 2) && IsRoot(K(20) as nat, 3) && IsRoot(K(40) as nat, 5) && IsRoot(K(60) as nat, 10)
  {
  }

  predicate IsRoot(k: nat, n: nat) {
    k * k <= n * 0x1000_0000_0000_0000 < (k + 1) * (k + 1)
  }

  // Section 5.3.1.
  const H0 := Vars(0x67452301, 0xefcdab89, 0x98badcfe, 0x10325476, 0xc3d2e1f0)

  // Section 6.1.2, step 1: the 80-word schedule of a 16-word block.
  function Schedule(m: seq<word>, t: nat): word
    requires |m| == 16
  {
    if t < 16 then m[t]
    else Rotl(Xor(Xor(Xor(Schedule(m, t - 3), Schedule(m, t - 8)), Schedule(m, t - 14)), Schedule(m, t - 16)), 1)
  }

  // Section 6.1.2, step 3.
  function Round(t: nat, v: Vars, w: word): Vars {
    Vars(Add(Add(Add(Add(Rotl(v.a, 5), F(t, v.b, v.c, v.d)), v.e), K(t)), w), v.a, Rotl(v.b, 30), v.c, v.d)
  }

  function Rounds(m: seq<word>, v: Vars, t: nat): Vars
    requires |m| == 16
  {
    if t == 0 then v else Round(t - 1, Rounds(m, v, t - 1), Schedule(m, t - 1))
  }

  // Section 6.1.2, step 4.
  function Compress(h: Vars, m: seq<word>): Vars
    requires |m| == 16
  {
    var v := Rounds(m, h, 80);
    Vars(Add(h.a, v.a), Add(h.b, v.b), Add(h.c, v.c), Add(h.d, v.d), Add(h.e, v.e))
  }

  // Section 3.1: four bytes as a word, most significant first.
  function BigEndian(b0: byte, b1: byte, b2: byte, b3: byte): word {
    ((b0 as word) << 24) | ((b1 as word) << 16) | ((b2 as word) << 8) | (b3 as word)
  }

  function Words(block: seq<byte>): (m: seq<word>)
    requires |block| == 64
    ensures |m| == 16
  {
    seq(16, i requires 0 <= i < 16 => BigEndian(block[4 * i], block[4 * i + 1], block[4 * i + 2], block[4 * i + 3]))
  }

  function HashBlocks(msg: seq<byte>): Vars
    requires |msg| % 64 == 0
  {
    if |msg| == 0 then H0
    else Compress(HashBlocks(msg[..|msg| - 64]), Words(msg[|msg| - 64..]))
  }

  function Zeros(n: nat): (z: seq<byte>)
    ensures |z| == n
  {
    seq(n, _ => 0)
  }

  // Truncation to uint8_t.
  function Low8(n: nat): byte {
    AsByte(n % 256)
  }

  type digit = d: nat | d < 256

  function AsByte(n: digit): byte {
    n as byte
  }

  // n shifted right by k bytes.
  function Shr(n: nat, k: nat): nat {
    if k == 0 then n else Shr(n, k - 1) / 256
  }

  // The eight base-256 digits of a 64-bit number, most significant first.
  function LengthDigits(n: nat): (d: seq<digit>)
    ensures |d| == 8
  {
    [Shr(n, 7) % 256, Shr(n, 6) % 256, Shr(n, 5) % 256, Shr(n, 4) % 256,
     Shr(n, 3) % 256, Shr(n, 2) % 256, Shr(n, 1) % 256, Shr(n, 0) % 256]
  }

  function Length64(n: nat): (l: seq<byte>)
    ensures |l| == 8
  {
    var d := LengthDigits(n);
    [AsByte(d[0]), AsByte(d[1]), AsByte(d[2]), AsByte(d[3]), AsByte(d[4]), AsByte(d[5]), AsByte(d[6]), AsByte(d[7])]
  }

  // Section 5.1.1 in bytes: 0x80, the least number of zero bytes that leaves
  // room for the length, and the length in bits.  `declared` is the number of
  // message bytes the length field speaks of.
  function PadWith(len: nat, declared: nat): (p: seq<byte>)
    ensures (len + |p|) % 64 == 0
  {
    var z := (55 - len) % 64;
    assert (len + 1 + z) % 64 == 56;
    [0x80] + Zeros(z) + Length64(8 * declared)
  }

  function Pad(len: nat): seq<byte> {
    PadWith(len, len)
  }

  function Padded(msg: seq<byte>, declared: nat): (p: seq<byte>)
    ensures |p| % 64 == 0
  {
    msg + PadWith(|msg|, declared)
  }

  // Byte k of a word, most significant first.
  function WordByte(w: word, k: nat): byte
    requires k < 4
  {
    if k == 0 then (w >> 24) as byte
    else if k == 1 then ((w >> 16) & 0xff) as byte
    else if k == 2 then ((w >> 8) & 0xff) as byte
    else (w & 0xff) as byte
  }

  function Nth(h: Vars, i: nat): word
    requires i < 5
  {
    if i == 0 then h.a else if i == 1 then h.b else if i == 2 then h.c else if i == 3 then h.d else h.e
  }

  function Digest(h: Vars): (d: seq<byte>)
    ensures |d| == 20
  {
    seq(20, i requires 0 <= i < 20 => WordByte(Nth(h, i / 4), i % 4))
  }

  // The message digest of FIPS 180-4.
  function Sha1(msg: seq<byte>): (d: seq<byte>)
    ensures |d| == 20
  {
    Digest(HashBlocks(Padded(msg, |msg|)))
  }

  function Mask(b: byte, x: byte): byte { b ^ x }

  function XorAll(s: seq<byte>, x: byte): (r: seq<byte>)
    ensures |r| == |s|
  {
    seq(|s|, i requires 0 <= i < |s| => Mask(s[i], x))
  }

  // RFC 2104, section 2: the key brought to the block length.
  function BlockKey(key: seq<byte>): (k: seq<byte>)
    ensures |k| == 64
  {
    if |key| > 64 then Sha1(key) + Zeros(44) else key + Zeros(64 - |key|)
  }

  function Hmac(key: seq<byte>, text: seq<byte>): seq<byte> {
    Sha1(XorAll(BlockKey(key), 0x5c) + Sha1(XorAll(BlockKey(key), 0x36) + text))
  }

  // ------------------------------------------------------- bit-level lemmas

  lemma ChBits(b: word, c: word, d: word)
    ensures d ^ (b & (c ^ d)) == (b & c) ^ (!b & d)
  {
  }

  lemma MajBits(b: word, c: word, d: word)
    ensures (b & c) | (d & (b | c)) == ((b & c) ^ (b & d)) ^ (c & d)
  {
  }

  lemma ChForm(b: word, c: word, d: word)
    ensures Xor(d, And(b, Xor(c, d))) == Ch(b, c, d)
  {
    calc {
      Xor(d, And(b, Xor(c, d)));
      d ^ (b & (c ^ d));
      { ChBits(b, c, d); }
      (b & c) ^ (!b & d);
      Ch(b, c, d);
    }
  }

  lemma MajForm(b: word, c: word, d: word)
    ensures Or(And(b, c), And(d, Or(b, c))) == Maj(b, c, d)
  {
    calc {
      Or(And(b, c), And(d, Or(b, c)));
      And(b, c) | And(d, Or(b, c));
      (b & c) | And(d, Or(b, c));
      (b & c) | (d & Or(b, c));
      (b & c) | (d & (b | c));
      { MajBits(b, c, d); }
      ((b & c) ^ (b & d)) ^ (c & d);
      (And(b, c) ^ (b & d)) ^ (c & d);
      (And(b, c) ^ And(b, d)) ^ (c & d);
      (And(b, c) ^ And(b, d)) ^ And(c, d);
      Xor(And(b, c), And(b, d)) ^ And(c, d);
      Maj(b, c, d);
    }
  }

  // The bytes of a word put together again.
  lemma WordBytes(w: word)
    ensures BigEndian(WordByte(w, 0), WordByte(w, 1), WordByte(w, 2), WordByte(w, 3)) == w
  {
  }
}
