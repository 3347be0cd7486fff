/** The fused AES-GCM pass (aes/arm/seal_open.rs), against section 7 of NIST SP 800-38D for 96-bit nonces. */
module Gcm {
  // The AES block cipher under the key is the parameter `enc`.

  import opened Arith
  import opened Words
  import opened Bytes
  import opened Gf2
  import opened GhashField
  import opened Ghash

  type Nonce = s: seq<u8> | |s| == 12 witness seq(12, _ => 0)

  // ---------------------------------------------------------------------------
  // The specification
  // ---------------------------------------------------------------------------

  function XorBlock(a: Block, b: Block): (r: Block)
    ensures forall i :: 0 <= i < 16 ==> r[i] == XorByte(a[i], b[i])
  {
    seq(16, i requires 0 <= i < 16 => XorByte(a[i], b[i]))
  }

  /** The 16-byte counter block of a 96-bit nonce. */
  function CounterBlock(nonce: Nonce, counter: u32): Block {
    nonce + BeBytes(counter as int, 4)
  }

  /** The counter of block i of the text: inc32 applied from 2 on. */
  function CounterAt(i: nat): u32 {
    ((2 + i) % 0x1_0000_0000) as u32
  }

  function KeyByte(enc: Block -> Block, nonce: Nonce, j: nat): u8 {
    enc(CounterBlock(nonce, CounterAt(j / 16)))[j % 16]
  }

  /** Counter mode from counter 2: the same function encrypts and decrypts. */
  function Ctr(enc: Block -> Block, nonce: Nonce, data: seq<u8>): (r: seq<u8>)
    ensures |r| == |data|
  {
    seq(|data|, j requires 0 <= j < |data| => XorByte(data[j], KeyByte(enc, nonce, j)))
  }

  const ZERO_BLOCK: Block := seq(16, _ => 0)

  /** The two bit lengths, big-endian. */
  function LengthBlock(aad: nat, text: nat): Block {
    BeBytes(aad * 8, 8) + BeBytes(text * 8, 8)
  }

  /** GHASH over the padded associated data, the padded ciphertext and the lengths. */
  function Hash(enc: Block -> Block, aad: seq<u8>, ciphertext: seq<u8>): nat {
    HashFrom(Reflect(enc(ZERO_BLOCK)), 0, Blocks(aad) + Blocks(ciphertext) + [LengthBlock(|aad|, |ciphertext|)])
  }

  function Tag(enc: Block -> Block, nonce: Nonce, aad: seq<u8>, ciphertext: seq<u8>): Block {
    XorBlock(Unreflect(Hash(enc, aad, ciphertext)), enc(CounterBlock(nonce, 1)))
  }

  datatype Opened = Accepted(plaintext: seq<u8>) | Refused

  function Sealed(enc: Block -> Block, nonce: Nonce, aad: seq<u8>, plaintext: seq<u8>): (seq<u8>, Block) {
    var ciphertext := Ctr(enc, nonce, plaintext);
    (ciphertext, Tag(enc, nonce, aad, ciphertext))
  }

  function OpenSpec(enc: Block -> Block, nonce: Nonce, aad: seq<u8>, ciphertext: seq<u8>, tag: Block): Opened {
    if tag == Tag(enc, nonce, aad, ciphertext) then Accepted(Ctr(enc, nonce, ciphertext)) else Refused
  }

  lemma CtrTwice(enc: Block -> Block, nonce: Nonce, data: seq<u8>)
    ensures Ctr(enc, nonce, Ctr(enc, nonce, data)) == data
  {
    hide XorByte, KeyByte;
    forall j | 0 <= j < |data| ensures Ctr(enc, nonce, Ctr(enc, nonce, data))[j] == data[j] {
      XorByteTwice(data[j], KeyByte(enc, nonce, j));
    }
  }

  /** `open` accepts exactly what `seal` produces, and returns what was sealed. */
  lemma OpenInvertsSeal(enc: Block -> Block, nonce: Nonce, aad: seq<u8>, plaintext: seq<u8>, ciphertext: seq<u8>,
                        tag: Block)
    ensures OpenSpec(enc, nonce, aad, ciphertext, tag) == Accepted(plaintext)
       <==> Sealed(enc, nonce, aad, plaintext) == (ciphertext, tag)
  {
    hide Ctr, Tag;
    CtrTwice(enc, nonce, plaintext);
    CtrTwice(enc, nonce, ciphertext);
  }

  // ---------------------------------------------------------------------------
  // One block of counter mode, in place
  // ---------------------------------------------------------------------------

  /** The first n bytes processed, the rest as it was. */
  function Mixed(enc: Block -> Block, nonce: Nonce, data: seq<u8>, n: nat): (r: seq<u8>)
    requires n <= |data|
    ensures |r| == |data|
  {
    Ctr(enc, nonce, data)[..n] + data[n..]
  }

  lemma MixedEnds(enc: Block -> Block, nonce: Nonce, data: seq<u8>)
    ensures Mixed(enc, nonce, data, 0) == data && Mixed(enc, nonce, data, |data|) == Ctr(enc, nonce, data)
  {
    hide Ctr;
  }

  lemma MixedAt(enc: Block -> Block, nonce: Nonce, data: seq<u8>, n: nat, j: nat)
    requires n <= |data| && j < |data|
    ensures Mixed(enc, nonce, data, n)[j] == if j < n then XorByte(data[j], KeyByte(enc, nonce, j)) else data[j]
  {
    hide XorByte, KeyByte;
  }

  lemma CtrAt(enc: Block -> Block, nonce: Nonce, data: seq<u8>, j: nat)
    requires j < |data|
    ensures Ctr(enc, nonce, data)[j] == XorByte(data[j], KeyByte(enc, nonce, j))
  {
    hide XorByte, KeyByte;
  }

  /** The block of key stream the counter selects. */
  lemma KeyBlock(enc: Block -> Block, nonce: Nonce, at: nat, counter: u32, k: Block)
    requires at % 16 == 0 && counter == CounterAt(at / 16) && k == enc(CounterBlock(nonce, counter))
    ensures forall i :: 0 <= i < 16 ==> KeyByte(enc, nonce, at + i) == k[i]
  {
    hide CounterBlock, CounterAt;
  }

  /** Writing one processed block moves the boundary by sixteen. */
  lemma MixedStep(enc: Block -> Block, nonce: Nonce, data: seq<u8>, at: nat, k: Block, before: seq<u8>, c: Block,
                  after: seq<u8>)
    requires at + 16 <= |data| && before == Mixed(enc, nonce, data, at)
    requires forall i :: 0 <= i < 16 ==> KeyByte(enc, nonce, at + i) == k[i]
    requires c == XorBlock(Load(before, at), k) && after == before[..at] + c + before[at + 16..]
    ensures after == Mixed(enc, nonce, data, at + 16) && c == Load(Ctr(enc, nonce, data), at)
  {
    hide XorByte, KeyByte, Ctr, Mixed, XorBlock;
    forall i | 0 <= i < 16 ensures c[i] == Ctr(enc, nonce, data)[at + i] {
      MixedAt(enc, nonce, data, at, at + i);
      CtrAt(enc, nonce, data, at + i);
      assert Load(before, at)[i] == before[at + i];
      assert KeyByte(enc, nonce, at + i) == k[i];
    }
    forall j | 0 <= j < |data| ensures after[j] == Mixed(enc, nonce, data, at + 16)[j] {
      MixedAt(enc, nonce, data, at, j);
      MixedAt(enc, nonce, data, at + 16, j);
      CtrAt(enc, nonce, data, j);
    }
  }

  /** Load a block, add the key stream, store it back. */
  method CtrBlock(enc: Block -> Block, nonce: Nonce, counter: u32, buffer: array<u8>, at: nat, ghost data: seq<u8>)
    returns (c: Block)
    requires at + 16 <= buffer.Length == |data| && at % 16 == 0 && counter == CounterAt(at / 16)
    requires buffer[..] == Mixed(enc, nonce, data, at)
    modifies buffer
    ensures buffer[..] == Mixed(enc, nonce, data, at + 16) && c == Load(Ctr(enc, nonce, data), at)
  {
    hide *;
    var k := enc(CounterBlock(nonce, counter));
    ghost var before := buffer[..];
    c := XorBlock(Load(buffer[..], at), k);
    CopyInto(buffer, at, c);
    KeyBlock(enc, nonce, at, counter, k);
    assert before[..at] == old(buffer[..at]) && before[at + 16..] == old(buffer[at + 16..]);
    MixedStep(enc, nonce, data, at, k, before, c, buffer[..]);
  }

  /** The longest text whose group counters stay in 32 bits: one byte below 2^36. */
  const MAX_TEXT: nat := 0xf_ffff_ffff

  /** The offset is a whole number of groups of that many blocks. */
  ghost predicate Grouped(offset: nat, group: nat) {
    exists j: nat :: offset == Blocks16(j, group)
  }

  function Blocks16(j: nat, group: nat): nat {
    16 * (j * group)
  }

  lemma GroupMoves(offset: nat, group: nat)
    requires Grouped(offset, group)
    ensures Grouped(offset + 16 * group, group)
  {
    var j: nat :| offset == Blocks16(j, group);
    assert (j + 1) * group == j * group + group;
    assert offset + 16 * group == Blocks16(j + 1, group);
  }

  /** Groups of eight are two groups of four. */
  lemma GroupHalves(offset: nat)
    requires Grouped(offset, 8)
    ensures Grouped(offset, 4)
  {
    var j: nat :| offset == Blocks16(j, 8);
    assert offset == Blocks16(2 * j, 4);
  }

  lemma NoGroups()
    ensures Grouped(0, 8)
  {
    assert 0 == Blocks16(0, 8);
  }

  /** Inside an aligned group of four or eight blocks the plain additions to the counter do not overflow. */
  lemma CounterFits(counter: u32, offset: nat, group: nat, k: nat, len: nat)
    requires group == 4 || group == 8
    requires offset % 16 == 0 && Grouped(offset, group) && counter == CounterAt(offset / 16) && k < group
    requires offset + 16 * group <= len <= MAX_TEXT
    ensures counter as int + k < 0x1_0000_0000 && counter as int + k == CounterAt((offset + 16 * k) / 16) as int
  {
    var j: nat :| offset == Blocks16(j, group);
    assert group == 4 || group == 8;
    assert offset / 16 == j * group && (offset + 16 * k) / 16 == j * group + k;
  }

  /** No group of eight overflows exactly for the texts below 2^36 bytes. */
  lemma CounterFitsExactly(len: nat)
    ensures (forall j: nat {:trigger CounterAt(8 * j)} :: 128 * j + 128 <= len ==>
               CounterAt(8 * j) as int + 7 < 0x1_0000_0000)
       <==> len <= MAX_TEXT
  {
    if len > MAX_TEXT {
      assert 128 * 0x1fff_ffff + 128 <= len && CounterAt(8 * 0x1fff_ffff) as int + 7 == 0x1_0000_0001;
    }
  }

  lemma MaxText(n: nat)
    requires n <= MAX_TEXT
    ensures n < 0x2000_0000_0000_0000
  {
  }

  lemma CounterMoves(counter: u32, offset: nat, k: u32)
    requires offset % 16 == 0 && counter == CounterAt(offset / 16)
    ensures WrappingAdd32(counter, k) == CounterAt((offset + 16 * k as int) / 16)
  {
    assert (offset + 16 * k as int) / 16 == offset / 16 + k as int;
    var n := 2 + offset / 16;
    SameRemainder(n + k as int, n % 0x1_0000_0000 + k as int, n / 0x1_0000_0000, 0x1_0000_0000);
  }

  /** Eight independent blocks. */
  method CtrEight(enc: Block -> Block, nonce: Nonce, counter: u32, buffer: array<u8>, offset: nat, ghost data: seq<u8>)
    returns (c0: Block, c1: Block, c2: Block, c3: Block, c4: Block, c5: Block, c6: Block, c7: Block)
    requires offset + 128 <= buffer.Length == |data| <= MAX_TEXT
    requires offset % 16 == 0 && Grouped(offset, 8) && counter == CounterAt(offset / 16)
    requires buffer[..] == Mixed(enc, nonce, data, offset)
    modifies buffer
    ensures buffer[..] == Mixed(enc, nonce, data, offset + 128)
    ensures [c0, c1, c2, c3, c4, c5, c6, c7] == Four(Ctr(enc, nonce, data), offset)
        + Four(Ctr(enc, nonce, data), offset + 64)
  {
    hide *;
    CounterFits(counter, offset, 8, 1, |data|);
    CounterFits(counter, offset, 8, 2, |data|);
    CounterFits(counter, offset, 8, 3, |data|);
    CounterFits(counter, offset, 8, 4, |data|);
    CounterFits(counter, offset, 8, 5, |data|);
    CounterFits(counter, offset, 8, 6, |data|);
    CounterFits(counter, offset, 8, 7, |data|);
    c0 := CtrBlock(enc, nonce, counter, buffer, offset, data);
    c1 := CtrBlock(enc, nonce, counter + 1, buffer, offset + 16, data);
    c2 := CtrBlock(enc, nonce, counter + 2, buffer, offset + 32, data);
    c3 := CtrBlock(enc, nonce, counter + 3, buffer, offset + 48, data);
    c4 := CtrBlock(enc, nonce, counter + 4, buffer, offset + 64, data);
    c5 := CtrBlock(enc, nonce, counter + 5, buffer, offset + 80, data);
    c6 := CtrBlock(enc, nonce, counter + 6, buffer, offset + 96, data);
    c7 := CtrBlock(enc, nonce, counter + 7, buffer, offset + 112, data);
    EightIs(Ctr(enc, nonce, data), offset);
  }

  /** Four independent blocks. */
  method CtrFour(enc: Block -> Block, nonce: Nonce, counter: u32, buffer: array<u8>, offset: nat, ghost data: seq<u8>)
    returns (c0: Block, c1: Block, c2: Block, c3: Block)
    requires offset + 64 <= buffer.Length == |data| <= MAX_TEXT
    requires offset % 16 == 0 && Grouped(offset, 4) && counter == CounterAt(offset / 16)
    requires buffer[..] == Mixed(enc, nonce, data, offset)
    modifies buffer
    ensures buffer[..] == Mixed(enc, nonce, data, offset + 64)
    ensures [c0, c1, c2, c3] == Four(Ctr(enc, nonce, data), offset)
  {
    hide *;
    CounterFits(counter, offset, 4, 1, |data|);
    CounterFits(counter, offset, 4, 2, |data|);
    CounterFits(counter, offset, 4, 3, |data|);
    c0 := CtrBlock(enc, nonce, counter, buffer, offset, data);
    c1 := CtrBlock(enc, nonce, counter + 1, buffer, offset + 16, data);
    c2 := CtrBlock(enc, nonce, counter + 2, buffer, offset + 32, data);
    c3 := CtrBlock(enc, nonce, counter + 3, buffer, offset + 48, data);
    FourIs(Ctr(enc, nonce, data), offset);
  }

  // ---------------------------------------------------------------------------
  // seal
  // ---------------------------------------------------------------------------

  /** Everything before `offset` is encrypted and hashed. */
  ghost predicate Sealing(enc: Block -> Block, nonce: Nonce, data: seq<u8>, from: nat, offset: nat,
                          buffer: array<u8>, ghash: Accumulator)
    reads buffer, ghash
  {
    && offset <= |data| == buffer.Length && offset % 16 == 0
    && buffer[..] == Mixed(enc, nonce, data, offset)
    && ghash.Valid() && ghash.acc == HashFrom(ghash.h, from, Blocks(Ctr(enc, nonce, data)[..offset]))
  }

  /** The end of a group: the buffer and the hash have moved on by n bytes. */
  lemma SealingMoves(enc: Block -> Block, nonce: Nonce, data: seq<u8>, from: nat, offset: nat, n: nat,
                     buffer: array<u8>, ghash: Accumulator, blocks: seq<Block>)
    requires offset + n <= |data| == buffer.Length && offset % 16 == 0 && n % 16 == 0
    requires buffer[..] == Mixed(enc, nonce, data, offset + n) && ghash.Valid()
    requires Blocks(Ctr(enc, nonce, data)[..offset + n]) == Blocks(Ctr(enc, nonce, data)[..offset]) + blocks
    requires ghash.acc == HashFrom(ghash.h, HashFrom(ghash.h, from, Blocks(Ctr(enc, nonce, data)[..offset])), blocks)
    ensures Sealing(enc, nonce, data, from, offset + n, buffer, ghash)
  {
    hide Ctr, Mixed, HashFrom, Blocks;
    HashAppend(ghash.h, from, Blocks(Ctr(enc, nonce, data)[..offset]), blocks);
  }

  lemma SealingParts(enc: Block -> Block, nonce: Nonce, data: seq<u8>, from: nat, offset: nat,
                     buffer: array<u8>, ghash: Accumulator)
    requires Sealing(enc, nonce, data, from, offset, buffer, ghash)
    ensures offset <= |data| == buffer.Length && offset % 16 == 0
    ensures buffer[..] == Mixed(enc, nonce, data, offset)
    ensures ghash.Valid() && ghash.acc == HashFrom(ghash.h, from, Blocks(Ctr(enc, nonce, data)[..offset]))
  {
    hide Ctr, Mixed, HashFrom, Blocks;
  }

  /** Eight blocks per pass. */
  method SealEight(enc: Block -> Block, nonce: Nonce, counter: u32, buffer: array<u8>, offset: nat, ghash: Accumulator,
                   ghost data: seq<u8>, ghost from: nat)
    requires Sealing(enc, nonce, data, from, offset, buffer, ghash)
    requires offset + 128 <= |data| <= MAX_TEXT
    requires offset % 16 == 0 && Grouped(offset, 8) && counter == CounterAt(offset / 16)
    modifies buffer, ghash`acc
    ensures Sealing(enc, nonce, data, from, offset + 128, buffer, ghash)
  {
    hide *;
    SealingParts(enc, nonce, data, from, offset, buffer, ghash);
    var c0, c1, c2, c3, c4, c5, c6, c7 := CtrEight(enc, nonce, counter, buffer, offset, data);
    ghash.AbsorbEightVectors(c0, c1, c2, c3, c4, c5, c6, c7);
    EightBlocks(Ctr(enc, nonce, data), offset);
    SealingMoves(enc, nonce, data, from, offset, 128, buffer, ghash, [c0, c1, c2, c3, c4, c5, c6, c7]);
  }

  /** Four blocks per pass. */
  method SealFour(enc: Block -> Block, nonce: Nonce, counter: u32, buffer: array<u8>, offset: nat, ghash: Accumulator,
                  ghost data: seq<u8>, ghost from: nat)
    requires Sealing(enc, nonce, data, from, offset, buffer, ghash)
    requires offset + 64 <= |data| <= MAX_TEXT
    requires offset % 16 == 0 && Grouped(offset, 4) && counter == CounterAt(offset / 16)
    modifies buffer, ghash`acc
    ensures Sealing(enc, nonce, data, from, offset + 64, buffer, ghash)
  {
    hide *;
    SealingParts(enc, nonce, data, from, offset, buffer, ghash);
    var c0, c1, c2, c3 := CtrFour(enc, nonce, counter, buffer, offset, data);
    ghash.AbsorbFourVectors(c0, c1, c2, c3);
    FourBlocks(Ctr(enc, nonce, data), offset);
    SealingMoves(enc, nonce, data, from, offset, 64, buffer, ghash, [c0, c1, c2, c3]);
  }

  method SealOne(enc: Block -> Block, nonce: Nonce, counter: u32, buffer: array<u8>, offset: nat, ghash: Accumulator,
                 ghost data: seq<u8>, ghost from: nat)
    requires Sealing(enc, nonce, data, from, offset, buffer, ghash)
    requires offset + 16 <= |data| && counter == CounterAt(offset / 16)
    modifies buffer, ghash`acc
    ensures Sealing(enc, nonce, data, from, offset + 16, buffer, ghash)
  {
    hide *;
    SealingParts(enc, nonce, data, from, offset, buffer, ghash);
    var c := CtrBlock(enc, nonce, counter, buffer, offset, data);
    ghash.AbsorbBlock(c);
    NextBlock(Ctr(enc, nonce, data), offset, offset + 16);
    SealingMoves(enc, nonce, data, from, offset, 16, buffer, ghash, [c]);
  }

  /** The last bytes, fewer than a block. */
  method XorTail(enc: Block -> Block, nonce: Nonce, counter: u32, buffer: array<u8>, offset: nat, ghost data: seq<u8>)
    returns (tail: Block)
    requires offset < buffer.Length == |data| && |data| < offset + 16 && offset % 16 == 0
        && counter == CounterAt(offset / 16)
    requires buffer[..] == Mixed(enc, nonce, data, offset)
    modifies buffer
    ensures buffer[..] == Ctr(enc, nonce, data) && tail == Pad(Ctr(enc, nonce, data)[offset..])
  {
    hide *;
    var keystream := enc(CounterBlock(nonce, counter));
    KeyBlock(enc, nonce, offset, counter, keystream);
    var bytes := new u8[16](_ => 0);
    for index := 0 to buffer.Length - offset
      invariant buffer[..] == Mixed(enc, nonce, data, offset + index)
      invariant forall i :: 0 <= i < 16 ==> bytes[i] == if i < index then buffer[offset + i] else 0
    {
      ghost var before := buffer[..];
      buffer[offset + index] := XorByte(buffer[offset + index], keystream[index]);
      bytes[index] := buffer[offset + index];
      assert KeyByte(enc, nonce, offset + index) == keystream[index];
      assert buffer[..] == before[offset + index := buffer[offset + index]];
      MixedByte(enc, nonce, data, offset + index, before, buffer[..]);
    }
    MixedEnds(enc, nonce, data);
    tail := bytes[..];
    PadIs(Ctr(enc, nonce, data)[offset..], tail);
  }

  lemma MixedByte(enc: Block -> Block, nonce: Nonce, data: seq<u8>, at: nat, before: seq<u8>, after: seq<u8>)
    requires at < |data| && before == Mixed(enc, nonce, data, at)
    requires after == before[at := XorByte(before[at], KeyByte(enc, nonce, at))]
    ensures after == Mixed(enc, nonce, data, at + 1)
  {
    hide XorByte, KeyByte, Ctr, Mixed;
    forall j | 0 <= j < |data| ensures after[j] == Mixed(enc, nonce, data, at + 1)[j] {
      MixedAt(enc, nonce, data, at, j);
      MixedAt(enc, nonce, data, at + 1, j);
    }
  }

  lemma PadIs(s: seq<u8>, tail: seq<u8>)
    requires |s| <= 16 == |tail| && forall i :: 0 <= i < 16 ==> tail[i] == if i < |s| then s[i] else 0
    ensures tail == Pad(s)
  {
  }

  /** The lengths in bits, computed in 64-bit words. */
  method LengthBytes(aad: nat, text: nat) returns (block: Block)
    requires aad < 0x2000_0000_0000_0000 && text < 0x2000_0000_0000_0000
    ensures block == LengthBlock(aad, text)
  {
    var bytes := new u8[16](_ => 0);
    var a, t := (aad as u64) * 8, (text as u64) * 8;
    CopyInto(bytes, 0, BeBytes(a as int, 8));
    CopyInto(bytes, 8, BeBytes(t as int, 8));
    block := bytes[..];
    hide BeBytes;
    assert block == BeBytes(aad * 8, 8) + BeBytes(text * 8, 8);
  }

  /** Encrypt in place and authenticate in one pass. */
  method Seal(enc: Block -> Block, nonce: Nonce, aad: seq<u8>, buffer: array<u8>) returns (tag: Block)
    requires buffer.Length <= MAX_TEXT && |aad| < 0x2000_0000_0000_0000
    modifies buffer
    ensures (buffer[..], tag) == Sealed(enc, nonce, aad, old(buffer[..]))
  {
    hide *;
    ghost var data := buffer[..];
    var ghash := new Accumulator(enc(ZERO_BLOCK));
    var tagMask := enc(CounterBlock(nonce, 1));
    ghash.Absorb(aad);
    ghost var from := ghash.acc;
    var counter: u32 := 2;
    var offset := 0;
    var len := buffer.Length;
    StartSealing(enc, nonce, data, buffer, ghash);
    NoGroups();
    while offset + 128 <= len
      invariant Sealing(enc, nonce, data, from, offset, buffer, ghash) && counter == CounterAt(offset / 16)
      invariant 0 <= offset <= len && offset % 16 == 0 && Grouped(offset, 8)
    {
      SealEight(enc, nonce, counter, buffer, offset, ghash, data, from);
      CounterMoves(counter, offset, 8);
      GroupMoves(offset, 8);
      counter := WrappingAdd32(counter, 8);
      offset := offset + 128;
    }
    GroupHalves(offset);
    while offset + 64 <= len
      invariant Sealing(enc, nonce, data, from, offset, buffer, ghash) && counter == CounterAt(offset / 16)
      invariant 0 <= offset <= len && offset % 16 == 0 && Grouped(offset, 4)
    {
      SealFour(enc, nonce, counter, buffer, offset, ghash, data, from);
      CounterMoves(counter, offset, 4);
      GroupMoves(offset, 4);
      counter := WrappingAdd32(counter, 4);
      offset := offset + 64;
    }
    while offset + 16 <= len
      invariant Sealing(enc, nonce, data, from, offset, buffer, ghash) && counter == CounterAt(offset / 16)
      invariant 0 <= offset <= len && offset % 16 == 0
    {
      SealOne(enc, nonce, counter, buffer, offset, ghash, data, from);
      CounterMoves(counter, offset, 1);
      counter := WrappingAdd32(counter, 1);
      offset := offset + 16;
    }
    SealingParts(enc, nonce, data, from, offset, buffer, ghash);
    ghost var text := Ctr(enc, nonce, data);
    if offset < len {
      var tail := XorTail(enc, nonce, counter, buffer, offset, data);
      ghash.AbsorbBlock(tail);
      NextBlock(text, offset, len);
      assert text[offset..len] == text[offset..];
      HashAppend(ghash.h, from, Blocks(text[..offset]), [tail]);
    }
    MixedEnds(enc, nonce, data);
    assert text[..len] == text;
    MaxText(len);
    var lengths := LengthBytes(|aad|, len);
    ghash.AbsorbBlock(lengths);
    FinalHash(enc, aad, text, ghash.acc, from, lengths);
    var digest := ghash.Finish();
    tag := XorBlock(digest, tagMask);
    SealedIs(enc, nonce, aad, data, text, tag);
  }

  lemma StartSealing(enc: Block -> Block, nonce: Nonce, data: seq<u8>, buffer: array<u8>, ghash: Accumulator)
    requires buffer[..] == data && ghash.Valid()
    ensures Sealing(enc, nonce, data, ghash.acc, 0, buffer, ghash) && CounterAt(0) == 2
  {
    hide Ctr, Reflect;
    MixedEnds(enc, nonce, data);
    assert Ctr(enc, nonce, data)[..0] == [];
  }

  /** Hashing the parts one after the other is hashing their concatenation. */
  lemma FinalHash(enc: Block -> Block, aad: seq<u8>, text: seq<u8>, acc: nat, from: nat, lengths: Block)
    requires lengths == LengthBlock(|aad|, |text|)
    requires var h := Reflect(enc(ZERO_BLOCK));
      from == HashFrom(h, 0, Blocks(aad)) && acc == HashFrom(h, HashFrom(h, from, Blocks(text)), [lengths])
    ensures acc == Hash(enc, aad, text)
  {
    hide Reflect, Blocks, HashFrom, LengthBlock;
    var h := Reflect(enc(ZERO_BLOCK));
    HashAppend(h, 0, Blocks(aad), Blocks(text));
    HashAppend(h, 0, Blocks(aad) + Blocks(text), [lengths]);
  }

  lemma SealedIs(enc: Block -> Block, nonce: Nonce, aad: seq<u8>, data: seq<u8>, text: seq<u8>, tag: Block)
    requires text == Ctr(enc, nonce, data)
    requires tag == XorBlock(Unreflect(Hash(enc, aad, text)), enc(CounterBlock(nonce, 1)))
    ensures Sealed(enc, nonce, aad, data) == (text, tag)
  {
    hide Ctr, XorBlock, Unreflect, Hash, CounterBlock;
  }

  // ---------------------------------------------------------------------------
  // open
  // ---------------------------------------------------------------------------

  /** CTR mode from counter 2, eight blocks at a time, then four, then one, then the rest. */
  method ApplyCtr(enc: Block -> Block, nonce: Nonce, buffer: array<u8>)
    requires buffer.Length <= MAX_TEXT
    modifies buffer
    ensures buffer[..] == Ctr(enc, nonce, old(buffer[..]))
  {
    hide *;
    ghost var data := buffer[..];
    var counter: u32 := 2;
    var offset := 0;
    var len := buffer.Length;
    MixedEnds(enc, nonce, data);
    FirstCounter();
    NoGroups();
    while offset + 128 <= len
      invariant 0 <= offset <= len && offset % 16 == 0 && Grouped(offset, 8) && counter == CounterAt(offset / 16)
      invariant buffer[..] == Mixed(enc, nonce, data, offset)
    {
      var _, _, _, _, _, _, _, _ := CtrEight(enc, nonce, counter, buffer, offset, data);
      CounterMoves(counter, offset, 8);
      GroupMoves(offset, 8);
      counter := WrappingAdd32(counter, 8);
      offset := offset + 128;
    }
    GroupHalves(offset);
    while offset + 64 <= len
      invariant 0 <= offset <= len && offset % 16 == 0 && Grouped(offset, 4) && counter == CounterAt(offset / 16)
      invariant buffer[..] == Mixed(enc, nonce, data, offset)
    {
      var _, _, _, _ := CtrFour(enc, nonce, counter, buffer, offset, data);
      CounterMoves(counter, offset, 4);
      GroupMoves(offset, 4);
      counter := WrappingAdd32(counter, 4);
      offset := offset + 64;
    }
    while offset + 16 <= len
      invariant 0 <= offset <= len && offset % 16 == 0 && counter == CounterAt(offset / 16)
      invariant buffer[..] == Mixed(enc, nonce, data, offset)
    {
      var _ := CtrBlock(enc, nonce, counter, buffer, offset, data);
      CounterMoves(counter, offset, 1);
      counter := WrappingAdd32(counter, 1);
      offset := offset + 16;
    }
    if offset < len {
      var _ := XorTail(enc, nonce, counter, buffer, offset, data);
    }
  }

  lemma FirstCounter()
    ensures CounterAt(0) == 2
  {
  }

  /** Verify the tag, then decrypt; a refused buffer is left as it was. */
  method Open(enc: Block -> Block, nonce: Nonce, aad: seq<u8>, buffer: array<u8>, tag: Block) returns (ok: bool)
    requires buffer.Length <= MAX_TEXT && |aad| < 0x2000_0000_0000_0000
    modifies buffer
    ensures OpenSpec(enc, nonce, aad, old(buffer[..]), tag) == if ok then Accepted(buffer[..]) else Refused
    ensures !ok ==> buffer[..] == old(buffer[..])
  {
    hide *;
    var ghash := new Accumulator(enc(ZERO_BLOCK));
    var tagMask := enc(CounterBlock(nonce, 1));
    ghash.Absorb(aad);
    ghost var from := ghash.acc;
    ghash.Absorb(buffer[..]);
    MaxText(buffer.Length);
    var lengths := LengthBytes(|aad|, buffer.Length);
    ghash.AbsorbBlock(lengths);
    FinalHash(enc, aad, buffer[..], ghash.acc, from, lengths);
    var digest := ghash.Finish();
    var expected := XorBlock(digest, tagMask);
    OpenSpecIs(enc, nonce, aad, buffer[..], tag, expected);
    if expected != tag {
      return false;
    }
    ApplyCtr(enc, nonce, buffer);
    return true;
  }

  lemma OpenSpecIs(enc: Block -> Block, nonce: Nonce, aad: seq<u8>, text: seq<u8>, tag: Block, expected: Block)
    requires expected == XorBlock(Unreflect(Hash(enc, aad, text)), enc(CounterBlock(nonce, 1)))
    ensures OpenSpec(enc, nonce, aad, text, tag) == if expected == tag then Accepted(Ctr(enc, nonce, text)) else Refused
  {
    hide Ctr, XorBlock, Unreflect, Hash, CounterBlock;
  }

  // ---------------------------------------------------------------------------
  // The standard's own words
  // ---------------------------------------------------------------------------

  /** The length block holds the bit length of the associated data first, then that of the text, both big-endian. */
  lemma LengthMeaning(aad: nat, text: nat)
    requires aad < 0x2000_0000_0000_0000 && text < 0x2000_0000_0000_0000
    ensures BeVal(LengthBlock(aad, text)[..8]) == 8 * aad && BeVal(LengthBlock(aad, text)[8..]) == 8 * text
  {
    hide BeBytes, BeVal;
    BytePow8();
    BeValOfBytes(aad * 8, 8);
    BeValOfBytes(text * 8, 8);
  }

  /** Byte j of the ciphertext is byte j of the text and of the encrypted counters 2, 3, .. */
  lemma CipherMeaning(enc: Block -> Block, nonce: Nonce, aad: seq<u8>, plaintext: seq<u8>, j: nat)
    requires j < |plaintext|
    ensures |Sealed(enc, nonce, aad, plaintext).0| == |plaintext|
    ensures Sealed(enc, nonce, aad, plaintext).0[j]
         == Xor(plaintext[j], enc(nonce + BeBytes((2 + j / 16) % 0x1_0000_0000, 4))[j % 16])
  {
    hide Tag, BeBytes, Xor;
  }

  /** The tag is GHASH of both padded strings and both lengths, masked with the encrypted counter 1. */
  lemma TagMeaning(enc: Block -> Block, nonce: Nonce, aad: seq<u8>, plaintext: seq<u8>, i: nat)
    requires i < 16
    ensures var (ciphertext, tag) := Sealed(enc, nonce, aad, plaintext);
      var h := Reflect(enc(seq(16, _ => 0)));
      var lengths := BeBytes(8 * |aad|, 8) + BeBytes(8 * |plaintext|, 8);
      tag[i] == Xor(Unreflect(HashFrom(h, 0, Blocks(aad) + Blocks(ciphertext) + [lengths]))[i],
                    enc(nonce + [0, 0, 0, 1])[i])
  {
    hide Ctr, Reflect, Unreflect, HashFrom, Blocks, BeBytes, Xor, XorBlock;
    CounterOne();
    ZeroBlockIs();
    var c := Ctr(enc, nonce, plaintext);
    XorBlockAt(Unreflect(Hash(enc, aad, c)), enc(CounterBlock(nonce, 1)), i);
  }

  lemma ZeroBlockIs()
    ensures ZERO_BLOCK == seq(16, _ => 0)
  {
  }

  lemma XorBlockAt(a: Block, b: Block, i: nat)
    requires i < 16
    ensures XorBlock(a, b)[i] == Xor(a[i], b[i])
  {
    hide Xor;
  }

  lemma CounterOne()
    ensures BeBytes(1, 4) == [0, 0, 0, 1]
  {
    assert BeBytes(0, 1) == [0];
    assert BeBytes(0, 2) == [0, 0];
    assert BeBytes(0, 3) == [0, 0, 0];
  }
}
