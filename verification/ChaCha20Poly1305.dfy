/** The fused seal and open (aead/chacha20poly1305.rs), against section 2.8 of RFC 8439. */
module ChaCha20Poly1305 {
  import opened Arith
  import opened Words
  import opened Bytes
  import opened Gf2
  import C = ChaCha20
  import M = Poly1305
  import opened Poly1305Spec

  type Key = s: seq<u8> | |s| == 32 witness seq(32, _ => 0)
  type Nonce = s: seq<u8> | |s| == 12 witness seq(12, _ => 0)

  // ---------------------------------------------------------------------------
  // The specification
  // ---------------------------------------------------------------------------

  /** The one-time key: the first half of block zero. */
  function OneTimeKey(key: Key, nonce: Nonce): (r: seq<u8>)
    ensures |r| == 32
  {
    C.BlockBytes(C.Init(key, nonce, 0))[..32]
  }

  function Encrypted(key: Key, nonce: Nonce, data: seq<u8>): (r: seq<u8>)
    ensures |r| == |data|
  {
    C.XorStream(C.Init(key, nonce, 1), data)
  }

  /** What is authenticated: both strings padded to sixteen bytes, then both lengths. */
  function MacData(aad: seq<u8>, ciphertext: seq<u8>): seq<u8> {
    aad + M.ZeroPadding(|aad|) + ciphertext + M.ZeroPadding(|ciphertext|) + LeBytes(|aad|, 8) + LeBytes(|ciphertext|, 8)
  }

  function TagOf(key: Key, nonce: Nonce, aad: seq<u8>, ciphertext: seq<u8>): seq<u8> {
    Tag(OneTimeKey(key, nonce), MacData(aad, ciphertext))
  }

  datatype Opened = Accepted(plaintext: seq<u8>) | Refused

  function Sealed(key: Key, nonce: Nonce, aad: seq<u8>, plaintext: seq<u8>): (seq<u8>, seq<u8>) {
    var ciphertext := Encrypted(key, nonce, plaintext);
    (ciphertext, TagOf(key, nonce, aad, ciphertext))
  }

  function OpenSpec(key: Key, nonce: Nonce, aad: seq<u8>, ciphertext: seq<u8>, tag: seq<u8>): Opened {
    if tag == TagOf(key, nonce, aad, ciphertext) then Accepted(Encrypted(key, nonce, ciphertext)) else Refused
  }

  /** `open` accepts exactly what `seal` produces, and returns what was sealed. */
  lemma OpenInvertsSeal(key: Key, nonce: Nonce, aad: seq<u8>, plaintext: seq<u8>, ciphertext: seq<u8>, tag: seq<u8>)
    ensures OpenSpec(key, nonce, aad, ciphertext, tag) == Accepted(plaintext)
       <==> Sealed(key, nonce, aad, plaintext) == (ciphertext, tag)
  {
    hide C.XorStream, TagOf, C.Init;
    C.XorStreamTwice(C.Init(key, nonce, 1), plaintext);
    C.XorStreamTwice(C.Init(key, nonce, 1), ciphertext);
  }

  /** Two messages with different (associated data, ciphertext) authenticate different strings. */
  lemma MacDataInjective(a1: seq<u8>, c1: seq<u8>, a2: seq<u8>, c2: seq<u8>)
    requires |a1| < 0x1_0000_0000_0000_0000 && |c1| < 0x1_0000_0000_0000_0000
    requires |a2| < 0x1_0000_0000_0000_0000 && |c2| < 0x1_0000_0000_0000_0000
    requires MacData(a1, c1) == MacData(a2, c2)
    ensures a1 == a2 && c1 == c2
  {
    hide LeBytes, M.ZeroPadding;
    var m, n := MacData(a1, c1), |MacData(a1, c1)|;
    assert m[n - 16..n - 8] == LeBytes(|a1|, 8) && m[n - 8..] == LeBytes(|c1|, 8);
    assert m[n - 16..n - 8] == LeBytes(|a2|, 8) && m[n - 8..] == LeBytes(|c2|, 8);
    SameLength(|a1|, |a2|);
    SameLength(|c1|, |c2|);
    var at := |a1| + |M.ZeroPadding(|a1|)|;
    assert m[..|a1|] == a1 && m[..|a1|] == a2;
    assert m[at..at + |c1|] == c1 && m[at..at + |c1|] == c2;
  }

  lemma SameLength(m: nat, n: nat)
    requires m < 0x1_0000_0000_0000_0000 && n < 0x1_0000_0000_0000_0000 && LeBytes(m, 8) == LeBytes(n, 8)
    ensures m == n
  {
    BytePow8();
    LeValOfBytes(m, 8);
    LeValOfBytes(n, 8);
  }

  // ---------------------------------------------------------------------------
  // The code
  // ---------------------------------------------------------------------------

  lemma ZeroXor(k: u8)
    ensures XorByte(0, k) == k
  {
    XorZero(k);
  }

  /** The key stream over zeros is the block itself. */
  lemma ZeroBlock(s: C.State)
    ensures C.XorStream(s, seq(64, _ => 0)) == C.BlockBytes(s)
  {
    hide C.XorStream, C.BlockBytes, C.Advance, XorByte;
    var z: seq<u8> := seq(64, _ => 0);
    C.AdvanceZero(s);
    forall j | 0 <= j < 64 ensures C.XorStream(s, z)[j] == C.BlockBytes(s)[j] {
      C.XorStreamAt(s, z, j);
      ZeroXor(C.StreamByte(s, j));
    }
  }

  method PolyKey(key: Key, nonce: Nonce) returns (r: seq<u8>)
    ensures r == OneTimeKey(key, nonce)
  {
    hide C.XorStream, C.BlockBytes, C.Advance, C.Init, C.BlocksUsed;
    var block := new u8[64](_ => 0);
    ghost var zeros := block[..];
    assert zeros == seq<u8>(64, _ => 0) && zeros[..0] == [] && zeros[0..64] == zeros && zeros[64..] == [];
    var cipher := new C.ChaCha20(key, nonce, 0);
    assert block[..0] == zeros[..0] && block[0..64] == zeros[0..64] && block[64..] == zeros[64..];
    cipher.ApplyKeystream(block, 0, 64);
    ZeroBlock(C.Init(key, nonce, 0));
    r := block[..32];
  }

  lemma PartlyAt(s: C.State, data: seq<u8>, n: nat, j: nat)
    requires n <= |data| && j < |data|
    ensures C.Partly(s, data, 0, |data|, n)[j] == if j < n then XorByte(data[j], C.StreamByte(s, j)) else data[j]
  {
    hide C.XorStream, XorByte, C.StreamByte;
    assert data[0..|data|] == data;
    C.XorStreamAt(s, data, j);
  }

  /** A chunk processed with the advanced state is the same stretch of the whole message's encryption. */
  lemma ChunkStep(s: C.State, data: seq<u8>, offset: nat, end: nat, before: seq<u8>, after: seq<u8>)
    requires offset <= end <= |data| && offset % 64 == 0
    requires before == C.Partly(s, data, 0, |data|, offset)
    requires after == before[..offset] + C.XorStream(C.Advance(s, offset / 64), before[offset..end]) + before[end..]
    ensures after == C.Partly(s, data, 0, |data|, end)
    ensures after[offset..end] == C.XorStream(s, data)[offset..end]
  {
    hide C.XorStream, XorByte, C.StreamByte, C.Partly, C.Advance;
    var t := C.Advance(s, offset / 64);
    forall j | 0 <= j < |data| ensures after[j] == C.Partly(s, data, 0, |data|, end)[j] {
      PartlyAt(s, data, offset, j);
      PartlyAt(s, data, end, j);
      if offset <= j < end {
        C.XorStreamAt(t, before[offset..end], j - offset);
        C.StreamResumes(s, offset / 64, j - offset);
      }
    }
    forall j | offset <= j < end ensures after[j] == C.XorStream(s, data)[j] {
      PartlyAt(s, data, end, j);
      C.XorStreamAt(s, data, j);
    }
  }

  lemma WholeMessage(s: C.State, data: seq<u8>)
    ensures C.Partly(s, data, 0, |data|, 0) == data && C.Partly(s, data, 0, |data|, |data|) == C.XorStream(s, data)
  {
    hide C.XorStream;
    assert data[0..|data|] == data;
  }

  const FUSE_CHUNK: nat := 512

  lemma Chunks(offset: nat)
    ensures 0 < FUSE_CHUNK && FUSE_CHUNK % 64 == 0
    ensures offset % FUSE_CHUNK == 0 ==> offset % 64 == 0 && (offset + FUSE_CHUNK) % FUSE_CHUNK == 0
    ensures C.BlocksUsed(0) == 0
  {
    if offset % FUSE_CHUNK == 0 {
      var k := offset / FUSE_CHUNK;
      ModUnique(offset, 64, 8 * k, 0);
      ModUnique(offset + FUSE_CHUNK, FUSE_CHUNK, k + 1, 0);
    }
  }

  /** Padding after an aligned head depends on the length of the rest only. */
  lemma SamePadding(head: nat, n: nat)
    requires head % 16 == 0
    ensures M.ZeroPadding(head + n) == M.ZeroPadding(n)
  {
    SameRemainder(head + n, n, head / 16, 16);
  }

  lemma PaddedLength(n: nat)
    ensures (n + |M.ZeroPadding(n)|) % 16 == 0
  {
  }

  /** Finish the authenticator: padding, then the two lengths as 64-bit words. */
  method AbsorbLengths(mac: M.Poly1305, aad: seq<u8>, ciphertext: seq<u8>)
    requires mac.Valid() && mac.msg == aad + M.ZeroPadding(|aad|) + ciphertext
    modifies mac, mac.buffer
    ensures mac.Valid() && mac.msg == MacData(aad, ciphertext)
  {
    hide *;
    PaddedLength(|aad|);
    SamePadding(|aad| + |M.ZeroPadding(|aad|)|, |ciphertext|);
    mac.PadToBlock();
    mac.Update(LeBytes(|aad|, 8));
    mac.Update(LeBytes(|ciphertext|, 8));
    MacDataIs(aad, ciphertext);
  }

  lemma MacDataIs(aad: seq<u8>, ciphertext: seq<u8>)
    ensures MacData(aad, ciphertext) == aad + M.ZeroPadding(|aad|) + ciphertext + M.ZeroPadding(|ciphertext|)
                                        + LeBytes(|aad|, 8) + LeBytes(|ciphertext|, 8)
  {
  }

  lemma InitIs(key: Key, nonce: Nonce, aad: seq<u8>, data: seq<u8>, ciphertext: seq<u8>)
    requires ciphertext == C.XorStream(C.Init(key, nonce, 1), data)
    ensures Encrypted(key, nonce, data) == ciphertext
    ensures Sealed(key, nonce, aad, data) == (ciphertext, Tag(OneTimeKey(key, nonce), MacData(aad, ciphertext)))
  {
    hide C.XorStream, Tag, MacData, OneTimeKey, C.Init;
  }

  /** Encrypt in place, authenticating each 512-byte chunk as soon as it is encrypted. */
  method Seal(key: Key, nonce: Nonce, aad: seq<u8>, buffer: array<u8>) returns (tag: seq<u8>)
    modifies buffer
    ensures (buffer[..], tag) == Sealed(key, nonce, aad, old(buffer[..]))
  {
    hide *;
    ghost var data, len := buffer[..], buffer.Length;
    var oneTimeKey := PolyKey(key, nonce);
    var mac := new M.Poly1305(oneTimeKey);
    mac.Update(aad);
    mac.PadToBlock();
    ghost var head := mac.msg;
    assert head == aad + M.ZeroPadding(|aad|);
    var cipher := new C.ChaCha20(key, nonce, 1);
    ghost var init: C.State := cipher.state[..];
    ghost var encrypted := C.XorStream(init, data);
    var offset := 0;
    WholeMessage(init, data);
    Chunks(0);
    C.AdvanceZero(init);
    assert head + encrypted[..0] == head;
    while offset < buffer.Length
      invariant 0 <= offset <= len && (offset < len ==> offset % FUSE_CHUNK == 0)
      invariant mac.Valid() && mac.msg == head + encrypted[..offset]
      invariant cipher.Valid() && cipher.state[..] == C.Advance(init, C.BlocksUsed(offset))
      invariant buffer[..] == C.Partly(init, data, 0, len, offset)
      invariant buffer != mac.buffer
    {
      Chunks(offset);
      var end := if offset + FUSE_CHUNK < buffer.Length then offset + FUSE_CHUNK else buffer.Length;
      ghost var before := buffer[..];
      assert buffer[..offset] == before[..offset] && buffer[offset..end] == before[offset..end]
          && buffer[end..] == before[end..];
      C.UsedSoFar(offset, 0);
      C.UsedSoFar(offset, end - offset);
      C.AdvanceTwice(init, offset / 64, C.BlocksUsed(end - offset));
      cipher.ApplyKeystream(buffer, offset, end);
      ChunkStep(init, data, offset, end, before, buffer[..]);
      mac.Update(buffer[offset..end]);
      assert buffer[..][offset..end] == buffer[offset..end];
      assert encrypted[..end] == encrypted[..offset] + encrypted[offset..end];
      offset := end;
    }
    assert encrypted[..len] == encrypted;
    AbsorbLengths(mac, aad, buffer[..]);
    InitIs(key, nonce, aad, data, encrypted);
    tag := mac.Finalize();
  }

  /** Verify the tag over the ciphertext, then decrypt; a refused buffer is left as it was. */
  method Open(key: Key, nonce: Nonce, aad: seq<u8>, buffer: array<u8>, tag: seq<u8>) returns (ok: bool)
    modifies buffer
    ensures OpenSpec(key, nonce, aad, old(buffer[..]), tag) == if ok then Accepted(buffer[..]) else Refused
    ensures !ok ==> buffer[..] == old(buffer[..])
  {
    hide *;
    ghost var data := buffer[..];
    var oneTimeKey := PolyKey(key, nonce);
    var mac := new M.Poly1305(oneTimeKey);
    mac.Update(aad);
    mac.PadToBlock();
    mac.Update(buffer[..]);
    AbsorbLengths(mac, aad, buffer[..]);
    OpenSpecIs(key, nonce, aad, data, tag);
    var verified := mac.Verify(tag);
    if !verified {
      return false;
    }
    var cipher := new C.ChaCha20(key, nonce, 1);
    assert buffer[..0] == [] && buffer[0..buffer.Length] == data && buffer[buffer.Length..] == [];
    cipher.ApplyKeystream(buffer, 0, buffer.Length);
    InitIs(key, nonce, aad, data, C.XorStream(C.Init(key, nonce, 1), data));
    return true;
  }

  lemma OpenSpecIs(key: Key, nonce: Nonce, aad: seq<u8>, text: seq<u8>, tag: seq<u8>)
    ensures OpenSpec(key, nonce, aad, text, tag)
         == if tag == Tag(OneTimeKey(key, nonce), MacData(aad, text)) then Accepted(Encrypted(key, nonce, text))
            else Refused
  {
    hide Encrypted, Tag, MacData, OneTimeKey;
  }

  /** Section 2.8 of RFC 8439: the text is encrypted from block one on. */
  lemma CipherMeaning(key: Key, nonce: Nonce, aad: seq<u8>, plaintext: seq<u8>, j: nat)
    requires j < |plaintext|
    ensures |Sealed(key, nonce, aad, plaintext).0| == |plaintext|
    ensures Sealed(key, nonce, aad, plaintext).0[j]
         == Xor(plaintext[j], C.BlockBytes(C.Init(key, nonce, ((1 + j / 64) % 0x1_0000_0000) as u32))[j % 64])
  {
    hide C.BlockBytes, TagOf, C.XorStream, C.Init, Xor;
    C.StreamMeaning(C.Init(key, nonce, 1), plaintext, j);
    NextInit(key, nonce, j / 64);
  }

  /** The tag: under the first half of block zero, of both strings filled up to sixteen bytes, and both lengths. */
  lemma TagMeaning(key: Key, nonce: Nonce, aad: seq<u8>, plaintext: seq<u8>)
    ensures var (ciphertext, tag) := Sealed(key, nonce, aad, plaintext);
      tag == Tag(C.BlockBytes(C.Init(key, nonce, 0))[..32],
                 aad + seq((16 - |aad| % 16) % 16, _ => 0)
                 + ciphertext + seq((16 - |ciphertext| % 16) % 16, _ => 0)
                 + LeBytes(|aad|, 8) + LeBytes(|ciphertext|, 8))
  {
    hide C.BlockBytes, C.Init, LeBytes, Tag, C.XorStream, Encrypted;
  }

  lemma NextInit(key: Key, nonce: Nonce, n: nat)
    ensures var s := C.Init(key, nonce, 1);
      s[12 := ((s[12] as int + n) % 0x1_0000_0000) as u32] == C.Init(key, nonce, ((1 + n) % 0x1_0000_0000) as u32)
  {
  }

  /** Opening is accepting the tag sealing would give, and decrypting with the same key stream. */
  lemma OpenMeaning(key: Key, nonce: Nonce, aad: seq<u8>, ciphertext: seq<u8>, tag: seq<u8>)
    ensures OpenSpec(key, nonce, aad, ciphertext, tag).Accepted?
       <==> exists plaintext :: Sealed(key, nonce, aad, plaintext) == (ciphertext, tag)
  {
    hide Sealed, OpenSpec;
    var o := OpenSpec(key, nonce, aad, ciphertext, tag);
    if o.Accepted? {
      OpenInvertsSeal(key, nonce, aad, o.plaintext, ciphertext, tag);
    }
    if plaintext :| Sealed(key, nonce, aad, plaintext) == (ciphertext, tag) {
      OpenInvertsSeal(key, nonce, aad, plaintext, ciphertext, tag);
    }
  }
}
