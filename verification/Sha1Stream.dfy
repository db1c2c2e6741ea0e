// The incremental hasher: struct sha1nfo and the functions over it.  It absorbs
// one byte at a time into a 64-byte union buffer and keeps the message schedule
// in a ring of 16 words.

module Sha1Stream {
  import opened Sha1Spec

  const TWO32: nat := 0x1_0000_0000

  // The word view of a little-endian union of bytes.
  function WordAt(b: seq<byte>, i: nat): word
    requires 4 * i + 3 < |b|
  {
    BigEndian(b[4 * i + 3], b[4 * i + 2], b[4 * i + 1], b[4 * i])
  }

  // offset ^ 3 for an offset into a block (see FlipIsXor).
  function Flip(p: nat): (q: nat)
    requires p < 64
    ensures q < 64
  {
    4 * (p / 4) + (3 - p % 4)
  }

  lemma FlipIsXor(p: byte)
    requires p < 64
    ensures (p ^ 3) as nat == Flip(p as nat)
  {
    assert p ^ 3 == (p & 0xfc) + (3 - (p & 3));
    assert p & 3 == p % 4;
    assert p & 0xfc == 4 * (p / 4);
  }

  // Where the byte at an offset into a block is stored.
  method Place(offset: nat) returns (at: nat)
    requires offset < 64
    ensures at == Flip(offset)
  {
    hide Flip;
    var o := offset as byte;
    assert o as nat == offset;
    FlipIsXor(o);
    at := (o ^ 3) as nat;
  }

  lemma FlipFlip(p: nat)
    requires p < 64
    ensures Flip(Flip(p)) == p
  {
    assert (4 * (p / 4) + (3 - p % 4)) / 4 == p / 4;
  }

  // The five state words in host order.
  ghost predicate Holds(w: seq<word>, h: Vars) {
    w == [h.a, h.b, h.c, h.d, h.e]
  }

  // The bytes of the state union: each word least significant byte first.
  function StateBytes(w: seq<word>): (d: seq<byte>)
    requires |w| == 5
    ensures |d| == 20
  {
    seq(20, i requires 0 <= i < 20 => WordByte(w[i / 4], 3 - i % 4))
  }

  function Swapped(a: word): word {
    (a << 24) | ((a << 8) & 0x00ff0000) | ((a >> 8) & 0x0000ff00) | (a >> 24)
  }

  lemma SwapBytes(a: word, k: nat)
    requires k < 4
    ensures WordByte(Swapped(a), 3 - k) == WordByte(a, k)
  {
  }

  // Swapping every state word makes the union's bytes the digest.
  lemma SwappedDigest(h: Vars, w: seq<word>)
    requires |w| == 5 && forall i :: 0 <= i < 5 ==> w[i] == Swapped(Nth(h, i))
    ensures StateBytes(w) == Digest(h)
  {
    forall i | 0 <= i < 20 ensures StateBytes(w)[i] == Digest(h)[i] {
      SwapBytes(Nth(h, i / 4), i % 4);
    }
  }

  // Appending one full block compresses it into the chain.
  lemma HashAppend(done: seq<byte>, block: seq<byte>)
    requires |done| % 64 == 0 && |block| == 64
    ensures HashBlocks(done + block) == Compress(HashBlocks(done), Words(block))
  {
    var m := done + block;
    assert m[..|m| - 64] == done && m[|m| - 64..] == block;
  }

  // The message words are what the flipped byte order leaves in the union.
  lemma BlockWords(b: seq<byte>, block: seq<byte>)
    requires |b| == 64 && |block| == 64
    requires forall p :: 0 <= p < 64 ==> b[Flip(p)] == block[p]
    ensures forall i :: 0 <= i < 16 ==> WordAt(b, i) == Words(block)[i]
  {
    hide WordAt, Words, Flip, BigEndian;
    forall i | 0 <= i < 16 ensures WordAt(b, i) == Words(block)[i] {
      FlipWord(i);
      BlockWord(b, block, i);
    }
  }

  lemma BlockWord(b: seq<byte>, block: seq<byte>, i: nat)
    requires |b| == 64 && |block| == 64 && i < 16
    requires b[4 * i + 3] == block[4 * i] && b[4 * i + 2] == block[4 * i + 1]
    requires b[4 * i + 1] == block[4 * i + 2] && b[4 * i] == block[4 * i + 3]
    ensures WordAt(b, i) == Words(block)[i]
  {
    hide BigEndian;
  }

  lemma FlipWord(i: nat)
    requires i < 16
    ensures Flip(4 * i) == 4 * i + 3 && Flip(4 * i + 1) == 4 * i + 2
    ensures Flip(4 * i + 2) == 4 * i + 1 && Flip(4 * i + 3) == 4 * i
  {
  }

  class Sha1Info {
    const buffer: array<byte>
    var bufferOffset: nat
    const state: array<word>
    var byteCount: nat
    const keyBuffer: array<byte>
    const innerHash: array<byte>

    // The whole blocks already hashed and the bytes waiting in the buffer.
    ghost var done: seq<byte>
    ghost var pending: seq<byte>

    constructor ()
      ensures Shaped()
      ensures fresh(buffer) && fresh(state) && fresh(keyBuffer) && fresh(innerHash)
    {
      buffer := new byte[64];
      state := new word[5];
      keyBuffer := new byte[64];
      innerHash := new byte[20];
    }

    ghost predicate Shaped() {
      buffer.Length == 64 && state.Length == 5 && keyBuffer.Length == 64 && innerHash.Length == 20
      && buffer != keyBuffer && buffer != innerHash && keyBuffer != innerHash
    }

    ghost predicate Valid()
      reads this, buffer, state
    {
      && Shaped()
      && |done| % 64 == 0
      && |pending| == bufferOffset < 64
      && Holds(state[..], HashBlocks(done))
      && forall p :: 0 <= p < bufferOffset ==> buffer[Flip(p)] == pending[p]
    }

    ghost function Absorbed(): seq<byte>
      reads this
    {
      done + pending
    }

    // The object has been given exactly `msg` since initialisation.
    ghost predicate Fed(msg: seq<byte>)
      reads this, buffer, state
    {
      Valid() && Absorbed() == msg && byteCount == |msg| % TWO32
    }

    method Init()
      requires Shaped()
      modifies this, state
      ensures Fed([])
    {
      // sha1InitState, copied into the state union byte by byte
      var bytes: seq<byte> := [0x01, 0x23, 0x45, 0x67, 0x89, 0xab, 0xcd, 0xef, 0xfe, 0xdc, 0xba, 0x98,
                               0x76, 0x54, 0x32, 0x10, 0xf0, 0xe1, 0xd2, 0xc3];
      state[0], state[1], state[2], state[3], state[4] :=
        WordAt(bytes, 0), WordAt(bytes, 1), WordAt(bytes, 2), WordAt(bytes, 3), WordAt(bytes, 4);
      byteCount := 0;
      bufferOffset := 0;
      done, pending := [], [];
      InitialWords(bytes);
    }

    // buffer.w[i] = v
    method SetWord(i: nat, v: word)
      requires Shaped() && i < 16
      modifies buffer
      ensures WordAt(buffer[..], i) == v
      ensures forall j :: 0 <= j < 16 && j != i ==> WordAt(buffer[..], j) == old(WordAt(buffer[..], j))
    {
      buffer[4 * i] := WordByte(v, 3);
      buffer[4 * i + 1] := WordByte(v, 2);
      buffer[4 * i + 2] := WordByte(v, 1);
      buffer[4 * i + 3] := WordByte(v, 0);
      WordBytes(v);
    }

    // Slot q % 16 of the ring holds word q of the schedule for 16 successive q.
    ghost predicate Ring(m: seq<word>, i: nat)
      requires Shaped() && |m| == 16
      reads buffer
    {
      forall q: nat :: (if i < 16 then 0 else i - 16) <= q < (if i < 16 then 16 else i) ==>
                         WordAt(buffer[..], q % 16) == Schedule(m, q)
    }

    // Lines 62-65: the schedule word of step i, written over word i - 16.
    method Expand(i: nat, ghost m: seq<word>)
      requires Shaped() && |m| == 16 && 16 <= i && Ring(m, i)
      modifies buffer
      ensures Ring(m, i + 1)
    {
      hide Xor, Rotl, WordAt, Schedule, BigEndian, Ring;
      RingIndices(i);
      RingAt(m, i, i - 3);
      RingAt(m, i, i - 8);
      RingAt(m, i, i - 14);
      RingAt(m, i, i - 16);
      ScheduleStep(m, i);
      assert |buffer[..]| == 64;
      var t := Xor(Xor(Xor(WordAt(buffer[..], (i + 13) % 16), WordAt(buffer[..], (i + 8) % 16)),
                       WordAt(buffer[..], (i + 2) % 16)), WordAt(buffer[..], i % 16));
      RingRest(m, i);
      SetWord(i % 16, Rotl(t, 1));
      RingGrows(m, i);
    }

    lemma RingAt(m: seq<word>, i: nat, q: nat)
      requires Shaped() && |m| == 16 && Ring(m, i)
      requires (if i < 16 then 0 else i - 16) <= q < (if i < 16 then 16 else i)
      ensures WordAt(buffer[..], q % 16) == Schedule(m, q)
    {
    }

    // The fifteen words that stay when word i replaces word i - 16.
    lemma RingRest(m: seq<word>, i: nat)
      requires Shaped() && |m| == 16 && 16 <= i && Ring(m, i)
      ensures forall q: nat :: i - 15 <= q < i ==> q % 16 != i % 16 && WordAt(buffer[..], q % 16) == Schedule(m, q)
    {
      forall q: nat | i - 15 <= q < i ensures q % 16 != i % 16 { RingDistinct(q, i); }
    }

    lemma RingGrows(m: seq<word>, i: nat)
      requires Shaped() && |m| == 16 && 16 <= i
      requires forall q: nat :: i - 15 <= q < i ==> WordAt(buffer[..], q % 16) == Schedule(m, q)
      requires WordAt(buffer[..], i % 16) == Schedule(m, i)
      ensures Ring(m, i + 1)
    {
    }

    method HashBlock(ghost h: Vars, ghost m: seq<word>)
      requires Shaped() && |m| == 16
      requires Holds(state[..], h)
      requires forall j :: 0 <= j < 16 ==> WordAt(buffer[..], j) == m[j]
      modifies buffer, state
      ensures Holds(state[..], Compress(h, m))
    {
      var a, b, c, d, e := state[0], state[1], state[2], state[3], state[4];
      a, b, c, d, e := Rounds80(a, b, c, d, e, h, m);
      hide Add, Rounds;
      state[0] := Add(state[0], a);
      state[1] := Add(state[1], b);
      state[2] := Add(state[2], c);
      state[3] := Add(state[3], d);
      state[4] := Add(state[4], e);
    }

    // Lines 61-81: the loop.
    method Rounds80(a0: word, b0: word, c0: word, d0: word, e0: word, ghost h: Vars, ghost m: seq<word>)
      returns (a: word, b: word, c: word, d: word, e: word)
      requires Shaped() && |m| == 16
      requires Vars(a0, b0, c0, d0, e0) == h
      requires forall j :: 0 <= j < 16 ==> WordAt(buffer[..], j) == m[j]
      modifies buffer
      ensures Vars(a, b, c, d, e) == Rounds(m, h, 80)
    {
      a, b, c, d, e := a0, b0, c0, d0, e0;
      var i := 0;
      RingStart(m);
      hide *;
      RoundsStart(m, h);
      while i < 80
        invariant 0 <= i <= 80
        invariant Vars(a, b, c, d, e) == Rounds(m, h, i)
        invariant Ring(m, i)
      {
        if i >= 16 {
          Expand(i, m);
          RingAt(m, i + 1, i);
        } else {
          RingAt(m, i, i);
          RingEarly(m, i);
        }
        var f, k := Mix(i, b, c, d);
        RoundsStep(m, h, i);
        RoundForm(i, a, b, c, d, e, f, k, WordAt(buffer[..], i % 16));
        var t := Add(f, k);
        t := Add(t, Add(Add(Rotl(a, 5), e), WordAt(buffer[..], i % 16)));
        e := d;
        d := c;
        c := Rotl(b, 30);
        b := a;
        a := t;
        i := i + 1;
      }
    }

    lemma RingStart(m: seq<word>)
      requires Shaped() && |m| == 16
      requires forall j :: 0 <= j < 16 ==> WordAt(buffer[..], j) == m[j]
      ensures Ring(m, 0)
    {
    }

    lemma RingEarly(m: seq<word>, i: nat)
      requires Shaped() && |m| == 16 && i < 16 && Ring(m, i)
      ensures Ring(m, i + 1)
    {
    }

    method AddUncounted(data: byte)
      requires Valid()
      modifies this`bufferOffset, this`done, this`pending, buffer, state
      ensures Valid() && Absorbed() == old(Absorbed()) + [data]
      ensures bufferOffset == (old(bufferOffset) + 1) % 64
    {
      hide HashBlocks, Compress, WordAt, Words;
      ghost var b0 := buffer[..];
      ghost var block := pending + [data];
      var at := Place(bufferOffset);
      buffer[at] := data;
      assert buffer[..] == b0[Flip(|pending|) := data];
      Landed(b0, pending, data);
      bufferOffset := bufferOffset + 1;
      if bufferOffset == 64 {
        BlockWords(buffer[..], block);
        HashAppend(done, block);
        HashBlock(HashBlocks(done), Words(block));
        bufferOffset := 0;
        assert done + block == old(done + pending) + [data];
        done, pending := done + block, [];
      } else {
        assert done + block == old(done + pending) + [data];
        pending := block;
      }
    }

    method WriteByte(data: byte, ghost msg: seq<byte>)
      requires Fed(msg)
      modifies this`bufferOffset, this`done, this`pending, this`byteCount, buffer, state
      ensures Fed(msg + [data])
    {
      hide HashBlocks, Flip;
      CountOne(|msg|);
      byteCount := (byteCount + 1) % TWO32;
      AddUncounted(data);
    }

    method Write(data: seq<byte>, ghost msg: seq<byte>)
      requires Fed(msg)
      modifies this`bufferOffset, this`done, this`pending, this`byteCount, buffer, state
      ensures Fed(msg + data)
    {
      var i := 0;
      assert msg + data[..0] == msg;
      while i < |data|
        invariant 0 <= i <= |data|
        invariant Fed(msg + data[..i])
      {
        WriteByte(data[i], msg + data[..i]);
        assert msg + data[..i] + [data[i]] == msg + data[..i + 1];
        i := i + 1;
      }
      assert data[..|data|] == data;
    }

    method Pad(ghost msg: seq<byte>)
      requires Fed(msg)
      modifies this`bufferOffset, this`done, this`pending, buffer, state
      ensures Valid() && bufferOffset == 0
      ensures Absorbed() == Padded(msg, |msg| % TWO32)
    {
      Counted(msg);
      hide *;
      AddUncounted(0x80);
      PadZeros(msg);
      AddLength();
      PadShape(msg, byteCount);
    }

    // Line 112: zeros until eight bytes of the block are left.
    method PadZeros(ghost msg: seq<byte>)
      requires Valid() && Absorbed() == msg + [0x80] && bufferOffset == (|msg| + 1) % 64
      modifies this`bufferOffset, this`done, this`pending, buffer, state
      ensures Valid() && bufferOffset == 56
      ensures Absorbed() == msg + [0x80] + Zeros((55 - |msg|) % 64)
    {
      hide *;
      PaddedOne(msg, Absorbed());
      ghost var n: nat := 0;
      while bufferOffset != 56
        invariant Valid() && n <= (55 - |msg|) % 64
        invariant Absorbed() == msg + [0x80] + Zeros(n)
        invariant bufferOffset == (|msg| + 1 + n) % 64
        decreases (56 - bufferOffset) % 64
      {
        ZeroDue(|msg|, n, bufferOffset);
        AddUncounted(0x00);
        ZerosGrow(msg + [0x80], n);
        n := n + 1;
      }
      ZerosDone(|msg|, n);
    }

    lemma Counted(msg: seq<byte>)
      requires Fed(msg)
      ensures Valid() && Absorbed() == msg && bufferOffset == |msg| % 64
      ensures (bufferOffset + 1) % 64 == (|msg| + 1) % 64
      ensures byteCount == |msg| % TWO32 < TWO32
    {
      hide HashBlocks, Flip;
      BlockOffset(|done|, bufferOffset);
    }

    // Lines 114-122: the last eight bytes of the padding.
    method AddLength()
      requires Valid() && bufferOffset == 56 && byteCount < TWO32
      modifies this`bufferOffset, this`done, this`pending, buffer, state
      ensures Valid() && bufferOffset == 0
      ensures Absorbed() == old(Absorbed()) + Length64(8 * byteCount)
    {
      hide *;
      ghost var before := Absorbed();
      AddUncounted(0);
      AddUncounted(0);
      AddUncounted(0);
      AddCount();
      LengthBytes(byteCount);
      Joined(before, [0, 0, 0], CountBytes(byteCount), Length64(8 * byteCount));
    }

    method AddCount()
      requires Valid() && bufferOffset == 59
      modifies this`bufferOffset, this`done, this`pending, buffer, state
      ensures Valid() && bufferOffset == 0
      ensures Absorbed() == old(Absorbed()) + CountBytes(byteCount)
    {
      hide HashBlocks, Low8, CountBytes, Valid, Absorbed;
      ghost var before := Absorbed();
      AddUncounted(Low8(byteCount / 0x2000_0000));
      AddUncounted(Low8(byteCount / 0x20_0000));
      AddUncounted(Low8(byteCount / 0x2000));
      AddUncounted(Low8(byteCount / 0x20));
      AddUncounted(Low8(byteCount * 8 % TWO32));
      Five(before, byteCount);
    }

    // The digest of what was written, with the length the 32-bit counter holds.
    method Result(ghost msg: seq<byte>) returns (hash: seq<byte>)
      requires Fed(msg)
      modifies this`bufferOffset, this`done, this`pending, buffer, state
      ensures hash == Digest(HashBlocks(Padded(msg, |msg| % TWO32)))
      ensures |msg| < TWO32 ==> hash == Sha1(msg)
    {
      hide HashBlocks, Padded, Digest, Valid, Fed, Absorbed, Sha1;
      Pad(msg);
      Complete(HashBlocks(Padded(msg, |msg| % TWO32)));
      hash := SwapState(HashBlocks(Padded(msg, |msg| % TWO32)));
      if |msg| < TWO32 { DigestForm(msg); }
    }

    // Lines 130-139: the words put in big-endian order, read as bytes.
    method SwapState(ghost h: Vars) returns (hash: seq<byte>)
      requires Shaped()
      requires forall j :: 0 <= j < 5 ==> state[j] == Nth(h, j)
      modifies state
      ensures hash == Digest(h)
    {
      hide Swapped, WordByte, Nth;
      var i := 0;
      while i < 5
        invariant 0 <= i <= 5
        invariant forall j :: 0 <= j < 5 ==> state[j] == if j < i then Swapped(Nth(h, j)) else Nth(h, j)
      {
        state[i] := Swapped(state[i]);
        i := i + 1;
      }
      SwappedDigest(h, state[..]);
      hash := StateBytes(state[..]);
    }

    lemma Complete(h: Vars)
      requires Valid() && bufferOffset == 0 && |Absorbed()| % 64 == 0 && h == HashBlocks(Absorbed())
      ensures Shaped()
      ensures forall j :: 0 <= j < 5 ==> state[j] == Nth(h, j)
    {
      hide HashBlocks, Flip;
      assert Absorbed() == done;
      forall j | 0 <= j < 5 ensures state[j] == Nth(h, j) {
        assert state[j] == state[..][j];
      }
    }

    method InitHmac(key: seq<byte>)
      requires Shaped() && |key| < 0x8000_0000
      modifies this, buffer, state, keyBuffer
      ensures keyBuffer[..] == BlockKey(key)
      ensures Fed(XorAll(BlockKey(key), 0x36))
    {
      hide HashBlocks, Valid, Fed, Sha1, XorAll;
      PrepareKey(key);
      Init();
      WriteKey(0x36, BlockKey(key));
    }

    // Lines 150-159: the key brought to the block length.
    method PrepareKey(key: seq<byte>)
      requires Shaped() && |key| < 0x8000_0000
      modifies this, buffer, state, keyBuffer
      ensures keyBuffer[..] == BlockKey(key)
    {
      hide HashBlocks, PadWith, Valid, Fed, Sha1;
      forall i | 0 <= i < 64 { keyBuffer[i] := 0; }
      if |key| > 64 {
        Init();
        Write(key, []);
        assert [] + key == key;
        var hash := Result(key);
        forall i | 0 <= i < 20 { keyBuffer[i] := hash[i]; }
      } else {
        forall i | 0 <= i < |key| { keyBuffer[i] := key[i]; }
      }
    }

    // Lines 162-164 and 173: the padded key, masked, is written first.
    method WriteKey(mask: byte, ghost k: seq<byte>)
      requires Shaped() && Fed([]) && |k| == 64 && keyBuffer[..] == k
      modifies this`bufferOffset, this`done, this`pending, this`byteCount, buffer, state
      ensures Fed(XorAll(k, mask))
    {
      hide Valid, Fed, HashBlocks, XorAll, Mask;
      var i := 0;
      XorStart(k, mask);
      while i < 64
        invariant 0 <= i <= 64
        invariant keyBuffer[..] == k
        invariant Fed(XorAll(k[..i], mask))
      {
        assert keyBuffer[i] == k[i];
        XorStep(k, i, mask);
        WriteByte(Mask(keyBuffer[i], mask), XorAll(k[..i], mask));
        i := i + 1;
      }
      assert k[..64] == k;
    }

    method ResultHmac(ghost key: seq<byte>, ghost text: seq<byte>) returns (hash: seq<byte>)
      requires Shaped() && keyBuffer[..] == BlockKey(key)
      requires Fed(XorAll(BlockKey(key), 0x36) + text)
      requires |text| + 64 < TWO32
      modifies this, buffer, state, innerHash
      ensures hash == Hmac(key, text)
    {
      hide HashBlocks, PadWith, Sha1, BlockKey, XorAll, Digest, Fed, Valid;
      assert |XorAll(BlockKey(key), 0x36) + text| < TWO32;
      var inner := Result(XorAll(BlockKey(key), 0x36) + text);
      forall i | 0 <= i < 20 { innerHash[i] := inner[i]; }
      assert innerHash[..] == inner;
      Init();
      WriteKey(0x5c, BlockKey(key));
      WriteInner(inner, XorAll(BlockKey(key), 0x5c));
      hash := Result(XorAll(BlockKey(key), 0x5c) + inner);
      HmacForm(key, text);
    }

    // Line 174.
    method WriteInner(ghost inner: seq<byte>, ghost msg: seq<byte>)
      requires Shaped() && Fed(msg) && |inner| == 20 && innerHash[..] == inner
      modifies this`bufferOffset, this`done, this`pending, this`byteCount, buffer, state
      ensures Fed(msg + inner)
    {
      hide Valid, Fed, HashBlocks;
      var i := 0;
      assert msg + inner[..0] == msg;
      while i < 20
        invariant 0 <= i <= 20
        invariant innerHash[..] == inner
        invariant Fed(msg + inner[..i])
      {
        WriteByte(innerHash[i], msg + inner[..i]);
        assert msg + inner[..i] + [inner[i]] == msg + inner[..i + 1];
        i := i + 1;
      }
      assert inner[..20] == inner;
    }
  }

  // The byte count shifted as lines 118-122 shift it.
  function CountBytes(n: nat): seq<byte> {
    [Low8(n / 0x2000_0000), Low8(n / 0x20_0000), Low8(n / 0x2000), Low8(n / 0x20), Low8(n * 8 % TWO32)]
  }

  lemma Five(s: seq<byte>, n: nat)
    ensures s + [Low8(n / 0x2000_0000)] + [Low8(n / 0x20_0000)] + [Low8(n / 0x2000)] + [Low8(n / 0x20)]
            + [Low8(n * 8 % TWO32)] == s + CountBytes(n)
  {
    hide Low8;
  }

  lemma Joined(s: seq<byte>, z: seq<byte>, c: seq<byte>, l: seq<byte>)
    requires z == [0, 0, 0] && l == z + c
    ensures s + [0] + [0] + [0] + c == s + l
  {
  }

  lemma PaddedOne(msg: seq<byte>, a: seq<byte>)
    requires a == msg + [0x80]
    ensures a == msg + [0x80] + Zeros(0)
  {
  }

  lemma ZerosGrow(s: seq<byte>, n: nat)
    ensures s + Zeros(n) + [0x00] == s + Zeros(n + 1)
  {
  }

  // While the offset is not 56 a zero is due, and the offset cycles to 56.
  lemma ZeroDue(len: nat, n: nat, offset: nat)
    requires n <= (55 - len) % 64
    requires offset == (len + 1 + n) % 64 != 56
    ensures n < (55 - len) % 64
    ensures (len + 1 + (n + 1)) % 64 == (offset + 1) % 64
    ensures (56 - (offset + 1) % 64) % 64 < (56 - offset) % 64
  {
  }

  // The zeros written are the least number the standard allows.
  lemma ZerosDone(len: nat, n: nat)
    requires n <= (55 - len) % 64
    requires (len + 1 + n) % 64 == 56
    ensures n == (55 - len) % 64
  {
  }

  lemma PadShape(msg: seq<byte>, declared: nat)
    ensures msg + [0x80] + Zeros((55 - |msg|) % 64) + Length64(8 * declared) == Padded(msg, declared)
  {
    hide Length64, Zeros;
  }

  lemma XorStart(k: seq<byte>, mask: byte)
    ensures XorAll(k[..0], mask) == []
  {
  }

  lemma XorStep(k: seq<byte>, i: nat, mask: byte)
    requires i < |k|
    ensures XorAll(k[..i], mask) + [Mask(k[i], mask)] == XorAll(k[..i + 1], mask)
  {
    hide Mask;
  }

  lemma DigestForm(msg: seq<byte>)
    requires |msg| < TWO32
    ensures Digest(HashBlocks(Padded(msg, |msg| % TWO32))) == Sha1(msg)
  {
    hide HashBlocks, Digest, Padded;
    assert |msg| % TWO32 == |msg|;
  }

  lemma HmacForm(key: seq<byte>, text: seq<byte>)
    ensures Hmac(key, text) == Sha1(XorAll(BlockKey(key), 0x5c) + Sha1(XorAll(BlockKey(key), 0x36) + text))
  {
  }

  lemma BlockOffset(d: nat, p: nat)
    requires d % 64 == 0 && p < 64
    ensures (d + p) % 64 == p && (d + p + 1) % 64 == (p + 1) % 64
  {
    var k := d / 64;
    Remainder(d + p, k, p);
    if p < 63 {
      Remainder(d + p + 1, k, p + 1);
    } else {
      Remainder(d + p + 1, k + 1, 0);
    }
  }

  lemma Remainder(n: nat, k: nat, r: nat)
    requires n == 64 * k + r && r < 64
    ensures n % 64 == r
  {
    var q := n / 64;
    assert n == 64 * q + n % 64;
    assert 64 * (q - k) == r - n % 64;
  }

  lemma CountOne(n: nat)
    ensures (n % TWO32 + 1) % TWO32 == (n + 1) % TWO32
  {
  }

  // The shifted count bytes are the bytes of the 64-bit length in bits.
  lemma LengthBytes(n: nat)
    requires n < TWO32
    ensures Length64(8 * n) == [0, 0, 0] + CountBytes(n)
  {
    LowOfWrapped(n * 8);
    Shifts(8 * n);
    EightTimes(n);
    hide Shr, AsByte;
    assert AsByte(0) == 0 by { ZeroByte(); }
  }

  lemma ZeroByte()
    ensures AsByte(0) == 0
  {
  }

  lemma EightTimes(n: nat)
    requires n < TWO32
    ensures 8 * n / 0x1_0000_0000 == n / 0x2000_0000
    ensures 8 * n / 0x100_0000 == n / 0x20_0000
    ensures 8 * n / 0x1_0000 == n / 0x2000
    ensures 8 * n / 0x100 == n / 0x20
    ensures 8 * n / 0x100_0000_0000 == 0
    ensures 8 * n / 0x1_0000_0000_0000 == 0
    ensures 8 * n / 0x100_0000_0000_0000 == 0
  {
  }

  lemma LowOfWrapped(n: nat)
    ensures Low8(n % TWO32) == Low8(n)
  {
    hide AsByte;
    assert n % TWO32 % 256 == n % 256;
  }

  lemma Shifts(n: nat)
    ensures Shr(n, 0) == n && Shr(n, 1) == n / 0x100 && Shr(n, 2) == n / 0x1_0000 && Shr(n, 3) == n / 0x100_0000
    ensures Shr(n, 4) == n / 0x1_0000_0000 && Shr(n, 5) == n / 0x100_0000_0000
    ensures Shr(n, 6) == n / 0x1_0000_0000_0000 && Shr(n, 7) == n / 0x100_0000_0000_0000
    ensures Shr(n, 8) == n / 0x1_0000_0000_0000_0000
  {
    assert Shr(n, 1) == Shr(n, 0) / 256;
    assert Shr(n, 2) == Shr(n, 1) / 256;
    assert Shr(n, 3) == Shr(n, 2) / 256;
    assert Shr(n, 4) == Shr(n, 3) / 256;
    assert Shr(n, 5) == Shr(n, 4) / 256;
    assert Shr(n, 6) == Shr(n, 5) / 256;
    assert Shr(n, 7) == Shr(n, 6) / 256;
    assert Shr(n, 8) == Shr(n, 7) / 256;
  }

  // The write of one byte leaves the earlier ones of the block in place.
  lemma Landed(b: seq<byte>, pending: seq<byte>, data: byte)
    requires |b| == 64 && |pending| < 64
    requires forall p :: 0 <= p < |pending| ==> b[Flip(p)] == pending[p]
    ensures forall p :: 0 <= p <= |pending| ==> b[Flip(|pending|) := data][Flip(p)] == (pending + [data])[p]
  {
    forall p | 0 <= p < |pending| ensures Flip(p) != Flip(|pending|) {
      FlipFlip(p);
      FlipFlip(|pending|);
    }
  }

  lemma ScheduleStep(m: seq<word>, t: nat)
    requires |m| == 16 && t >= 16
    ensures Schedule(m, t) ==
        Rotl(Xor(Xor(Xor(Schedule(m, t - 3), Schedule(m, t - 8)), Schedule(m, t - 14)), Schedule(m, t - 16)), 1)
  {
  }

  lemma RoundsStart(m: seq<word>, h: Vars)
    requires |m| == 16
    ensures Rounds(m, h, 0) == h
  {
  }

  lemma RoundsStep(m: seq<word>, h: Vars, i: nat)
    requires |m| == 16
    ensures Rounds(m, h, i + 1) == Round(i, Rounds(m, h, i), Schedule(m, i))
  {
  }

  // Lines 66-74: the function of the step and its constant.
  method Mix(i: nat, b: word, c: word, d: word) returns (f: word, k: word)
    ensures f == F(i, b, c, d) && k == K(i)
  {
    hide And, Or, Xor, Not, Ch, Maj;
    if i < 20 {
      f, k := Xor(d, And(b, Xor(c, d))), 0x5a827999;
      ChForm(b, c, d);
    } else if i < 40 {
      f, k := Xor(Xor(b, c), d), 0x6ed9eba1;
    } else if i < 60 {
      f, k := Or(And(b, c), And(d, Or(b, c))), 0x8f1bbcdc;
      MajForm(b, c, d);
    } else {
      f, k := Xor(Xor(b, c), d), 0xca62c1d6;
    }
  }

  // One step of the loop is one round of the standard.
  lemma RoundForm(i: nat, a: word, b: word, c: word, d: word, e: word, f: word, k: word, w: word)
    requires f == F(i, b, c, d) && k == K(i)
    ensures Vars(Add(Add(f, k), Add(Add(Rotl(a, 5), e), w)), a, Rotl(b, 30), c, d) == Round(i, Vars(a, b, c, d, e), w)
  {
    hide F, K, Rotl, Add;
    SumForm(f, k, Rotl(a, 5), e, w);
  }

  lemma SumForm(f: word, k: word, r: word, e: word, w: word)
    ensures Add(Add(f, k), Add(Add(r, e), w)) == Add(Add(Add(Add(r, f), e), k), w)
  {
    hide Add;
    AddAssoc(Add(f, k), Add(r, e), w);
    AddComm(Add(f, k), Add(r, e));
    AddAssoc(Add(r, e), f, k);
    AddAssoc(r, e, f);
    AddComm(e, f);
    AddAssoc(r, f, e);
  }

  lemma AddComm(x: word, y: word)
    ensures Add(x, y) == Add(y, x)
  {
  }

  lemma AddAssoc(x: word, y: word, z: word)
    ensures Add(x, Add(y, z)) == Add(Add(x, y), z)
  {
    calc {
      Add(x, Add(y, z));
      x + Add(y, z);
      x + (y + z);
      (x + y) + z;
      Add(x, y) + z;
      Add(Add(x, y), z);
    }
  }

  // The ring indices of the alternate method, section 6.1.3.
  lemma RingIndices(i: nat)
    requires i >= 16
    ensures (i + 13) % 16 == (i - 3) % 16 && (i + 8) % 16 == (i - 8) % 16
    ensures (i + 2) % 16 == (i - 14) % 16 && i % 16 == (i - 16) % 16
  {
  }

  lemma RingDistinct(q: nat, i: nat)
    requires q < i < q + 16
    ensures q % 16 != i % 16
  {
  }

  lemma InitialWords(b: seq<byte>)
    requires b == [0x01, 0x23, 0x45, 0x67, 0x89, 0xab, 0xcd, 0xef, 0xfe, 0xdc, 0xba, 0x98,
                   0x76, 0x54, 0x32, 0x10, 0xf0, 0xe1, 0xd2, 0xc3]
    ensures Vars(WordAt(b, 0), WordAt(b, 1), WordAt(b, 2), WordAt(b, 3), WordAt(b, 4)) == H0
  {
  }

  // ---------------------------------------------------------- main results

  // The digest as lower-case hexadecimal, two digits a byte.
  function Hex(d: seq<byte>): (h: string)
    ensures |h| == 2 * |d|
  {
    if |d| == 0 then "" else [HexDigit(d[0] >> 4), HexDigit(d[0] & 0xf)] + Hex(d[1..])
  }

  function HexDigit(b: byte): char
    requires b < 16
  {
    "0123456789abcdef"[b as int]
  }

  lemma {:induction false} HexAppend(d: seq<byte>, b: byte)
    ensures Hex(d + [b]) == Hex(d) + [HexDigit(b >> 4), HexDigit(b & 0xf)]
  {
    hide HexDigit;
    if |d| == 0 {
      assert d + [b] == [b];
    } else {
      assert (d + [b])[1..] == d[1..] + [b];
      HexAppend(d[1..], b);
    }
  }

  // Reading the text back, the first digit of a byte counting sixteen times, gives
  // the bytes.
  lemma {:induction false} HexIs(d: seq<byte>, i: nat)
    requires i < |d|
    ensures ReadsAs(Hex(d)[2 * i], Hex(d)[2 * i + 1], d[i])
    decreases |d|
  {
    hide HexDigit, IsPair;
    if i == 0 {
      ByteDigits(d[0]);
      assert IsPair(d[0], Hex(d)[0], Hex(d)[1], (d[0] >> 4) as nat, (d[0] & 0xf) as nat);
    } else {
      HexIs(d[1..], i - 1);
      assert Hex(d)[2 * i] == Hex(d[1..])[2 * (i - 1)] && Hex(d)[2 * i + 1] == Hex(d[1..])[2 * (i - 1) + 1];
    }
  }

  ghost predicate ReadsAs(first: char, second: char, b: byte) {
    exists hi: nat, lo: nat :: IsPair(b, first, second, hi, lo)
  }

  predicate IsPair(b: byte, first: char, second: char, hi: nat, lo: nat) {
    && hi < 16 && lo < 16 && b as nat == 16 * hi + lo
    && first == "0123456789abcdef"[hi] && second == "0123456789abcdef"[lo]
  }

  lemma ByteDigits(b: byte)
    ensures b >> 4 < 16 && b & 0xf < 16
    ensures IsPair(b, HexDigit(b >> 4), HexDigit(b & 0xf), (b >> 4) as nat, (b & 0xf) as nat)
  {
    assert b == 16 * (b >> 4) + (b & 0xf);
    HalvesAdd(b >> 4, b & 0xf);
  }

  lemma HalvesAdd(x: byte, y: byte)
    requires x < 16 && y < 16
    ensures (16 * x + y) as nat == 16 * (x as nat) + y as nat
  {
    assert 16 * x == x * 16;
  }

  // The whole-buffer entry point: the hexadecimal digest, which for messages
  // under 2^32 bytes is the SHA-1 of the data.
  method GetSHA1(data: seq<byte>) returns (result: string)
    ensures result == Hex(Digest(HashBlocks(Padded(data, |data| % TWO32))))
    ensures |data| < TWO32 ==> result == Hex(Sha1(data))
  {
    hide HashBlocks, Padded, Digest, Sha1, PadWith, Hex;
    var s := new Sha1Info();
    s.Init();
    s.Write(data, []);
    assert [] + data == data;
    var hash := s.Result(data);
    result := ToHex(hash);
  }

  // Its loop over the digest.
  method ToHex(hash: seq<byte>) returns (result: string)
    requires |hash| == 20
    ensures result == Hex(hash)
  {
    hide HexDigit, Hex;
    result := "";
    HexNone();
    var i := 0;
    while i < 20
      invariant 0 <= i <= 20
      invariant result == Hex(hash[..i])
    {
      HexAppend(hash[..i], hash[i]);
      assert hash[..i] + [hash[i]] == hash[..i + 1];
      result := result + [HexDigit(hash[i] >> 4), HexDigit(hash[i] & 0xf)];
      i := i + 1;
    }
    assert hash[..20] == hash;
  }

  lemma HexNone()
    ensures Hex([]) == ""
  {
  }

  // Any cutting of the message into writes gives the digest of the whole.
  method HashPieces(pieces: seq<seq<byte>>) returns (hash: seq<byte>)
    requires |Join(pieces)| < TWO32
    ensures hash == Sha1(Join(pieces))
  {
    hide HashBlocks, Sha1, PadWith;
    var s := new Sha1Info();
    s.Init();
    var i := 0;
    while i < |pieces|
      invariant 0 <= i <= |pieces|
      invariant s.Shaped() && s.Fed(Join(pieces[..i]))
      invariant fresh(s) && fresh(s.buffer) && fresh(s.state)
    {
      s.Write(pieces[i], Join(pieces[..i]));
      assert pieces[..i + 1][..i] == pieces[..i];
      i := i + 1;
    }
    assert pieces[..|pieces|] == pieces;
    hash := s.Result(Join(pieces));
  }

  function Join(pieces: seq<seq<byte>>): seq<byte> {
    if |pieces| == 0 then [] else Join(pieces[..|pieces| - 1]) + pieces[|pieces| - 1]
  }

  // The 32-bit byte counter is enough exactly for messages under 2^32 bytes:
  // from there on the length field written is not the length in bits.
  lemma CounterIsEnough(len: nat)
    requires len < 0x2000_0000_0000_0000
    ensures LengthDigits(8 * (len % TWO32)) == LengthDigits(8 * len) <==> len < TWO32
  {
    hide LengthDigits;
    if len < TWO32 {
      assert len % TWO32 == len;
    } else if LengthDigits(8 * (len % TWO32)) == LengthDigits(8 * len) {
      DigitsInjective(8 * (len % TWO32), 8 * len);
      assert false;
    }
  }

  lemma DigitsInjective(m: nat, n: nat)
    requires m < 0x1_0000_0000_0000_0000 && n < 0x1_0000_0000_0000_0000
    requires LengthDigits(m) == LengthDigits(n)
    ensures m == n
  {
    Shifts(m);
    Shifts(n);
    hide LengthDigits;
    var k: nat := 8;
    while k > 0
      invariant k <= 8
      invariant Shr(m, k) == Shr(n, k)
    {
      k := k - 1;
      DigitsNth(m, k);
      DigitsNth(n, k);
    }
  }

  lemma DigitsNth(n: nat, k: nat)
    requires k < 8
    ensures LengthDigits(n)[7 - k] == Shr(n, k) % 256
  {
    hide Shr;
    if k == 0 {} else if k == 1 {} else if k == 2 {} else if k == 3 {}
    else if k == 4 {} else if k == 5 {} else if k == 6 {} else { assert k == 7; }
  }
}
