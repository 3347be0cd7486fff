/** ChaCha20 (chacha/mod.rs, the portable path), against sections 2.1 to 2.4 of RFC 8439. */
module ChaCha20 {
  import opened Arith
  import opened Words
  import opened Bytes
  import opened Gf2

  type State = s: seq<u32> | |s| == 16 witness seq(16, _ => 0)

  // ---------------------------------------------------------------------------
  // The block function
  // ---------------------------------------------------------------------------

  function XorWord(a: u32, b: u32): u32 {
    hide Xor, Pow2;
    WordSizes();
    XorBound(a as int, b as int, 32);
    Xor(a as int, b as int) as u32
  }

  /** `rotate_left`. */
  function Rotl(x: u32, n: nat): u32
    requires n <= 32
  {
    hide Pow2;
    WordSizes();
    Pow2Add(n, 32 - n);
    RotlFits(x as int, Pow2(n), Pow2(32 - n), 0x1_0000_0000);
    (x as int * Pow2(n) % 0x1_0000_0000 + x as int / Pow2(32 - n)) as u32
  }

  /** The two parts of a rotated word do not overlap, for any word size w = pq. */
  lemma RotlFits(x: int, p: int, q: int, w: int)
    requires 0 <= x < w && p > 0 && q > 0 && p * q == w
    ensures 0 <= x * p % w + x / q < w
  {
    DivSmall(x, q, p);
    var j := x * p / w;
    var m := x - j * q;
    assert x * p % w == m * p by {
      assert j * w == (j * q) * p;
    }
    if m >= q {
      MulMono(p, q, m);
    }
    MulMono(p, m + 1, q);
  }

  /** One add, exclusive or and rotation. */
  function Step(s: State, x: nat, y: nat, z: nat, n: nat): State
    requires x < 16 && y < 16 && z < 16 && n <= 32
  {
    var t: State := s[x := WrappingAdd32(s[x], s[y])];
    t[z := Rotl(XorWord(t[z], t[x]), n)]
  }

  function QuarterRound(s: State, a: nat, b: nat, c: nat, d: nat): State
    requires a < 16 && b < 16 && c < 16 && d < 16
  {
    Step(Step(Step(Step(s, a, b, d, 16), c, d, b, 12), a, b, d, 8), c, d, b, 7)
  }

  /** Four column rounds and four diagonal rounds. */
  function DoubleRound(s: State): State {
    hide *;
    var s := QuarterRound(s, 0, 4, 8, 12);
    var s := QuarterRound(s, 1, 5, 9, 13);
    var s := QuarterRound(s, 2, 6, 10, 14);
    var s := QuarterRound(s, 3, 7, 11, 15);
    var s := QuarterRound(s, 0, 5, 10, 15);
    var s := QuarterRound(s, 1, 6, 11, 12);
    var s := QuarterRound(s, 2, 7, 8, 13);
    QuarterRound(s, 3, 4, 9, 14)
  }

  function Rounds(s: State, n: nat): State
    decreases n, s
  {
    if n == 0 then s else DoubleRound(Rounds(s, n - 1))
  }

  function AddStates(s: State, t: State): (r: State)
    ensures forall i :: 0 <= i < 16 ==> r[i] == WrappingAdd32(s[i], t[i])
  {
    seq(16, i requires 0 <= i < 16 => WrappingAdd32(s[i], t[i]))
  }

  /** Words as little-endian bytes. */
  function Serialize(words: seq<u32>): (r: seq<u8>)
    ensures |r| == 4 * |words|
  {
    if words == [] then [] else Serialize(words[..|words| - 1]) + LeBytes(words[|words| - 1] as int, 4)
  }

  /** The block function: twenty rounds, the feed-forward, 64 bytes. */
  function BlockBytes(s: State): (r: seq<u8>)
    ensures |r| == 64
  {
    hide Rounds, AddStates, LeBytes;
    Serialize(AddStates(Rounds(s, 10), s))
  }

  /** The state n blocks on: only the counter moves, modulo 2^32. */
  function Advance(s: State, n: nat): State {
    s[12 := ((s[12] as int + n) % 0x1_0000_0000) as u32]
  }

  /** Byte j of the key stream from this state on. */
  function StreamByte(s: State, j: nat): u8 {
    BlockBytes(Advance(s, j / 64))[j % 64]
  }

  /** Exclusive or with the key stream. */
  function XorStream(s: State, data: seq<u8>): (r: seq<u8>)
    ensures |r| == |data|
  {
    seq(|data|, j requires 0 <= j < |data| => XorByte(data[j], StreamByte(s, j)))
  }

  lemma XorStreamAt(s: State, data: seq<u8>, j: nat)
    requires j < |data|
    ensures XorStream(s, data)[j] == XorByte(data[j], StreamByte(s, j))
  {
    hide XorByte, StreamByte;
  }

  /** Decrypting is encrypting again. */
  lemma XorStreamTwice(s: State, data: seq<u8>)
    ensures XorStream(s, XorStream(s, data)) == data
  {
    hide XorStream, XorByte, StreamByte;
    forall j | 0 <= j < |data| ensures XorStream(s, XorStream(s, data))[j] == data[j] {
      XorStreamAt(s, data, j);
      XorStreamAt(s, XorStream(s, data), j);
      XorByteTwice(data[j], StreamByte(s, j));
    }
  }

  lemma AdvanceTwice(s: State, m: nat, n: nat)
    ensures Advance(Advance(s, m), n) == Advance(s, m + n)
  {
    var c := s[12] as int;
    SameRemainder(c + m + n, (c + m) % 0x1_0000_0000 + n, (c + m) / 0x1_0000_0000, 0x1_0000_0000);
  }

  /** A key stream may be resumed at any multiple of 64 bytes. */
  lemma StreamResumes(s: State, n: nat, j: nat)
    ensures StreamByte(s, 64 * n + j) == StreamByte(Advance(s, n), j)
  {
    hide BlockBytes, Advance;
    AdvanceTwice(s, n, j / 64);
    assert (64 * n + j) / 64 == n + j / 64 && (64 * n + j) % 64 == j % 64;
  }

  /** Keystream calls split at multiples of 64 concatenate. */
  lemma XorStreamSplit(s: State, a: seq<u8>, b: seq<u8>)
    requires |a| % 64 == 0
    ensures XorStream(s, a + b) == XorStream(s, a) + XorStream(Advance(s, |a| / 64), b)
  {
    hide XorStream, XorByte, StreamByte, Advance;
    var t := Advance(s, |a| / 64);
    forall j | 0 <= j < |a + b| ensures XorStream(s, a + b)[j] == (XorStream(s, a) + XorStream(t, b))[j] {
      XorStreamAt(s, a + b, j);
      if j < |a| {
        XorStreamAt(s, a, j);
      } else {
        XorStreamAt(t, b, j - |a|);
        StreamResumes(s, |a| / 64, j - |a|);
      }
    }
  }

  // ---------------------------------------------------------------------------
  // Four lanes
  // ---------------------------------------------------------------------------

  /** Four 32-bit lanes operated on together. */
  datatype Lane = Lane(w: seq<u32>) {
    ghost predicate Ok() {
      |w| == 4
    }

    function Add(rhs: Lane): (r: Lane)
      requires Ok() && rhs.Ok()
      ensures r.Ok() && forall k :: 0 <= k < 4 ==> r.w[k] == WrappingAdd32(w[k], rhs.w[k])
    {
      Lane(seq(4, i requires 0 <= i < 4 => WrappingAdd32(w[i], rhs.w[i])))
    }

    function Xored(rhs: Lane): (r: Lane)
      requires Ok() && rhs.Ok()
      ensures r.Ok() && forall k :: 0 <= k < 4 ==> r.w[k] == XorWord(w[k], rhs.w[k])
    {
      Lane(seq(4, i requires 0 <= i < 4 => XorWord(w[i], rhs.w[i])))
    }

    function RotateLeft(n: nat): (r: Lane)
      requires Ok() && n <= 32
      ensures r.Ok() && forall k :: 0 <= k < 4 ==> r.w[k] == Rotl(w[k], n)
    {
      Lane(seq(4, i requires 0 <= i < 4 => Rotl(w[i], n)))
    }
  }

  function Splat(value: u32): (r: Lane)
    ensures r.Ok() && forall k :: 0 <= k < 4 ==> r.w[k] == value
  {
    Lane(seq(4, _ => value))
  }

  ghost predicate LanesOk(v: seq<Lane>) {
    |v| == 16 && forall i :: 0 <= i < 16 ==> v[i].Ok()
  }

  /** The scalar state lane k carries. */
  function Col(v: seq<Lane>, k: nat): (s: State)
    requires LanesOk(v) && k < 4
    ensures forall i :: 0 <= i < 16 ==> s[i] == v[i].w[k]
  {
    seq(16, i requires 0 <= i < 16 => v[i].w[k])
  }

  lemma ColUpdate(v: seq<Lane>, i: nat, x: Lane, k: nat)
    requires LanesOk(v) && x.Ok() && i < 16 && k < 4
    ensures LanesOk(v[i := x]) && Col(v[i := x], k) == Col(v, k)[i := x.w[k]]
  {
  }

  /** Each lane goes through the scalar quarter round. */
  ghost predicate Quartered(before: seq<Lane>, after: seq<Lane>, a: nat, b: nat, c: nat, d: nat) {
    && LanesOk(before) && LanesOk(after) && a < 16 && b < 16 && c < 16 && d < 16
    && forall k :: 0 <= k < 4 ==> Col(after, k) == QuarterRound(Col(before, k), a, b, c, d)
  }

  lemma LaneStep(v: seq<Lane>, x: nat, y: nat, z: nat, n: nat, k: nat)
    requires LanesOk(v) && x < 16 && y < 16 && z < 16 && n <= 32 && k < 4
    ensures var t := v[x := v[x].Add(v[y])];
      && LanesOk(t) && LanesOk(t[z := t[z].Xored(t[x]).RotateLeft(n)])
      && Col(t[z := t[z].Xored(t[x]).RotateLeft(n)], k) == Step(Col(v, k), x, y, z, n)
  {
    hide WrappingAdd32, XorWord, Rotl;
    var t := v[x := v[x].Add(v[y])];
    ColUpdate(v, x, v[x].Add(v[y]), k);
    ColUpdate(t, z, t[z].Xored(t[x]).RotateLeft(n), k);
  }

  /** v[x] += v[y], then v[z] = (v[z] ^ v[x]) <<< n, on every lane. */
  method StepLanes(v: array<Lane>, x: nat, y: nat, z: nat, n: nat)
    requires v.Length == 16 && LanesOk(v[..]) && x < 16 && y < 16 && z < 16 && n <= 32
    modifies v
    ensures LanesOk(v[..]) && forall k :: 0 <= k < 4 ==> Col(v[..], k) == Step(Col(old(v[..]), k), x, y, z, n)
  {
    hide WrappingAdd32, XorWord, Rotl, Lane.Add, Lane.Xored, Lane.RotateLeft, Step, Col;
    ghost var before := v[..];
    v[x] := v[x].Add(v[y]);
    ghost var t := v[..];
    assert t == before[x := before[x].Add(before[y])];
    v[z] := v[z].Xored(v[x]).RotateLeft(n);
    assert v[..] == t[z := t[z].Xored(t[x]).RotateLeft(n)];
    forall k | 0 <= k < 4 ensures LanesOk(v[..]) && Col(v[..], k) == Step(Col(before, k), x, y, z, n) {
      LaneStep(before, x, y, z, n, k);
    }
  }

  method QuarterRoundLanes(v: array<Lane>, a: nat, b: nat, c: nat, d: nat)
    requires v.Length == 16 && LanesOk(v[..]) && a < 16 && b < 16 && c < 16 && d < 16
    modifies v
    ensures Quartered(old(v[..]), v[..], a, b, c, d)
  {
    hide Step, Col;
    StepLanes(v, a, b, d, 16);
    StepLanes(v, c, d, b, 12);
    StepLanes(v, a, b, d, 8);
    StepLanes(v, c, d, b, 7);
  }

  method DoubleRoundLanes(v: array<Lane>)
    requires v.Length == 16 && LanesOk(v[..])
    modifies v
    ensures LanesOk(v[..]) && forall k :: 0 <= k < 4 ==> Col(v[..], k) == DoubleRound(Col(old(v[..]), k))
  {
    hide QuarterRound, Col;
    QuarterRoundLanes(v, 0, 4, 8, 12);
    QuarterRoundLanes(v, 1, 5, 9, 13);
    QuarterRoundLanes(v, 2, 6, 10, 14);
    QuarterRoundLanes(v, 3, 7, 11, 15);
    QuarterRoundLanes(v, 0, 5, 10, 15);
    QuarterRoundLanes(v, 1, 6, 11, 12);
    QuarterRoundLanes(v, 2, 7, 8, 13);
    QuarterRoundLanes(v, 3, 4, 9, 14);
  }

  lemma RoundsStep(s: State, n: nat)
    ensures Rounds(s, 0) == s && Rounds(s, n + 1) == DoubleRound(Rounds(s, n))
  {
    hide DoubleRound;
  }

  /** Each lane of `after` is n double rounds on from the lane of `before`. */
  ghost predicate Rounded(before: seq<Lane>, after: seq<Lane>, n: nat) {
    LanesOk(before) && LanesOk(after) && forall k :: 0 <= k < 4 ==> Col(after, k) == Rounds(Col(before, k), n)
  }

  lemma RoundedOk(before: seq<Lane>, after: seq<Lane>, n: nat)
    requires Rounded(before, after, n)
    ensures LanesOk(after)
  {
    hide Col, Rounds;
  }

  lemma RoundedZero(v: seq<Lane>)
    requires LanesOk(v)
    ensures Rounded(v, v, 0)
  {
    hide Col;
  }

  lemma RoundedStep(before: seq<Lane>, v: seq<Lane>, w: seq<Lane>, n: nat)
    requires Rounded(before, v, n) && LanesOk(w)
    requires forall k :: 0 <= k < 4 ==> Col(w, k) == DoubleRound(Col(v, k))
    ensures Rounded(before, w, n + 1)
  {
    hide Col, Rounds, DoubleRound;
    forall k | 0 <= k < 4 ensures Col(w, k) == Rounds(Col(before, k), n + 1) {
      RoundsStep(Col(before, k), n);
    }
  }

  method RoundLanes(v: array<Lane>)
    requires v.Length == 16 && LanesOk(v[..])
    modifies v
    ensures Rounded(old(v[..]), v[..], 10)
  {
    hide *;
    ghost var before := v[..];
    RoundedZero(before);
    for i := 0 to 10
      invariant Rounded(before, v[..], i)
    {
      ghost var now := v[..];
      RoundedOk(before, now, i);
      DoubleRoundLanes(v);
      RoundedStep(before, now, v[..], i);
    }
  }

  // ---------------------------------------------------------------------------
  // The generator
  // ---------------------------------------------------------------------------

  /** `u32::from_le_bytes`. */
  function LoadWord(b: seq<u8>): u32
    requires |b| == 4
  {
    LeBound(b);
    assert BytePow(4) == 0x1_0000_0000;
    LeVal(b) as u32
  }

  function LoadWords(b: seq<u8>): (r: seq<u32>)
    requires |b| % 4 == 0
    ensures |r| == |b| / 4
  {
    seq(|b| / 4, i requires 0 <= i < |b| / 4 => LoadWord(b[4 * i..4 * i + 4]))
  }

  /** The constants, the key, the counter and the nonce (section 2.3 of RFC 8439). */
  function Init(key: seq<u8>, nonce: seq<u8>, counter: u32): State
    requires |key| == 32 && |nonce| == 12
  {
    [0x61707865, 0x3320646e, 0x79622d32, 0x6b206574] + LoadWords(key) + [counter] + LoadWords(nonce)
  }

  /** The four states in flight. */
  function InFlight(s: State): seq<u8> {
    BlockBytes(s) + BlockBytes(Advance(s, 1)) + BlockBytes(Advance(s, 2)) + BlockBytes(Advance(s, 3))
  }

  lemma AdvanceZero(s: State)
    ensures Advance(s, 0) == s
  {
  }

  lemma InFlightAt(s: State, i: nat)
    requires i < 256
    ensures |InFlight(s)| == 256 && InFlight(s)[i] == StreamByte(s, i)
  {
    hide BlockBytes, Advance;
    AdvanceZero(s);
    assert i / 64 == 0 || i / 64 == 1 || i / 64 == 2 || i / 64 == 3;
  }

  lemma SerializeStep(words: seq<u32>, n: nat)
    requires n < |words|
    ensures Serialize(words[..n + 1]) == Serialize(words[..n]) + LeBytes(words[n] as int, 4)
  {
    hide LeBytes;
    assert words[..n + 1][..n] == words[..n];
  }

  /** The lanes hold the state four times, the counters one apart. */
  ghost predicate Spread(v: seq<Lane>, s: State) {
    LanesOk(v) && forall k :: 0 <= k < 4 ==> Col(v, k) == Advance(s, k)
  }

  /** Start the four lanes. */
  method SpreadLanes(state: array<u32>) returns (v: array<Lane>)
    requires state.Length == 16
    ensures fresh(v) && v.Length == 16 && Spread(v[..], state[..])
  {
    v := new Lane[16](_ => Splat(0));
    for i := 0 to 16
      invariant LanesOk(v[..]) && forall j, k :: 0 <= j < i && 0 <= k < 4 ==> v[j].w[k] == state[j]
    {
      v[i] := Splat(state[i]);
    }
    var counter := state[12];
    v[12] := Lane([counter, WrappingAdd32(counter, 1), WrappingAdd32(counter, 2), WrappingAdd32(counter, 3)]);
    forall k | 0 <= k < 4 ensures Col(v[..], k) == Advance(state[..], k) {
      assert v[12].w[k] == Advance(state[..], k)[12];
    }
  }

  /** The feed-forward, lane by lane. */
  method FeedForward(v: array<Lane>, initial: seq<Lane>)
    requires v.Length == 16 && LanesOk(v[..]) && LanesOk(initial)
    modifies v
    ensures LanesOk(v[..])
    ensures forall k :: 0 <= k < 4 ==> Col(v[..], k) == AddStates(Col(old(v[..]), k), Col(initial, k))
  {
    hide WrappingAdd32, Lane.Add, Col, AddStates;
    ghost var before := v[..];
    for i := 0 to 16
      invariant LanesOk(v[..])
      invariant forall j :: 0 <= j < i ==> v[j] == before[j].Add(initial[j])
      invariant forall j :: i <= j < 16 ==> v[j] == before[j]
    {
      v[i] := v[i].Add(initial[i]);
    }
  }

  /** The bytes of the first `block` lanes, and of the first `word` words of the next. */
  ghost predicate Written(out: seq<u8>, v: seq<Lane>, block: nat, word: nat) {
    && LanesOk(v) && |out| == 256 && block <= 4 && word <= 16 && (block == 4 ==> word == 0)
    && out[..64 * block] == Columns(v, block)
    && (block < 4 ==> out[64 * block..64 * block + 4 * word] == Serialize(Col(v, block)[..word]))
  }

  function Columns(v: seq<Lane>, n: nat): (r: seq<u8>)
    requires LanesOk(v) && n <= 4
    ensures |r| == 64 * n
  {
    if n == 0 then [] else Columns(v, n - 1) + Serialize(Col(v, n - 1))
  }

  lemma WrittenWord(out: seq<u8>, v: seq<Lane>, block: nat, word: nat, after: seq<u8>)
    requires Written(out, v, block, word) && block < 4 && word < 16
    requires after == out[..64 * block + 4 * word] + LeBytes(v[word].w[block] as int, 4)
        + out[64 * block + 4 * word + 4..]
    ensures Written(after, v, block, word + 1)
  {
    hide LeBytes, Columns, Serialize;
    SerializeStep(Col(v, block), word);
    var at := 64 * block + 4 * word;
    assert after[..64 * block] == out[..64 * block];
    assert after[64 * block..at + 4] == out[64 * block..at] + LeBytes(v[word].w[block] as int, 4);
  }

  lemma WrittenBlock(out: seq<u8>, v: seq<Lane>, block: nat)
    requires Written(out, v, block, 16) && block < 4
    ensures Written(out, v, block + 1, 0)
  {
    hide LeBytes;
    assert Col(v, block)[..16] == Col(v, block);
    assert out[..64 * block + 64] == out[..64 * block] + out[64 * block..64 * block + 64];
    assert block + 1 < 4 ==> Col(v, block + 1)[..0] == [];
  }

  lemma WrittenStart(out: seq<u8>, v: seq<Lane>)
    requires LanesOk(v) && |out| == 256
    ensures Written(out, v, 0, 0)
  {
    hide LeBytes;
    assert Col(v, 0)[..0] == [];
  }

  lemma LaneAt(v: seq<Lane>, word: nat)
    requires LanesOk(v) && word < |v|
    ensures |v| == 16 && |v[word].w| == 4
  {
  }

  lemma LanesLength(v: seq<Lane>)
    requires LanesOk(v)
    ensures |v| == 16
  {
  }

  /** Serialise the four blocks one after the other. */
  method WriteBlocks(v: seq<Lane>, out: array<u8>)
    requires LanesOk(v) && out.Length == 256
    modifies out
    ensures Written(out[..], v, 4, 0)
  {
    hide *;
    LanesLength(v);
    WrittenStart(out[..], v);
    for block := 0 to 4
      invariant Written(out[..], v, block, 0)
    {
      for word := 0 to 16
        invariant Written(out[..], v, block, word)
      {
        LaneAt(v, word);
        ghost var before := out[..];
        var at := 64 * block + 4 * word;
        assert out[..at] == before[..at] && out[at + 4..] == before[at + 4..];
        CopyInto(out, at, LeBytes(v[word].w[block] as int, 4));
        WrittenWord(before, v, block, word, out[..]);
      }
      WrittenBlock(out[..], v, block);
    }
  }

  lemma ColumnsAre(v: seq<Lane>, out: seq<u8>)
    requires Written(out, v, 4, 0)
    ensures out == Serialize(Col(v, 0)) + Serialize(Col(v, 1)) + Serialize(Col(v, 2)) + Serialize(Col(v, 3))
  {
    hide Serialize, Col;
    assert out == out[..256];
    assert Columns(v, 4) == Columns(v, 3) + Serialize(Col(v, 3))
        && Columns(v, 3) == Columns(v, 2) + Serialize(Col(v, 2));
    assert Columns(v, 2) == Columns(v, 1) + Serialize(Col(v, 1)) && Columns(v, 1) == [] + Serialize(Col(v, 0));
  }

  lemma BlockIs(s: State, r: State)
    requires r == AddStates(Rounds(s, 10), s)
    ensures BlockBytes(s) == Serialize(r)
  {
    hide Serialize, AddStates, Rounds;
  }

  /** Four lanes are four scalar blocks. */
  lemma LanesAreBlocks(s: State, initial: seq<Lane>, rounded: seq<Lane>, v: seq<Lane>, out: seq<u8>)
    requires Spread(initial, s) && Rounded(initial, rounded, 10) && Written(out, v, 4, 0)
    requires LanesOk(v) && forall k :: 0 <= k < 4 ==> Col(v, k) == AddStates(Col(rounded, k), Col(initial, k))
    ensures out == InFlight(s)
  {
    hide Serialize, AddStates, Rounds, Col, BlockBytes, Advance;
    ColumnsAre(v, out);
    AdvanceZero(s);
    forall k | 0 <= k < 4 ensures BlockBytes(Advance(s, k)) == Serialize(Col(v, k)) {
      BlockIs(Advance(s, k), Col(v, k));
    }
  }

  lemma SpreadOk(v: seq<Lane>, s: State)
    requires Spread(v, s)
    ensures LanesOk(v)
  {
    hide Col, Advance;
  }

  /** What the first n bytes of a call leave in the buffer. */
  function Partly(s: State, data: seq<u8>, lo: nat, hi: nat, n: nat): (r: seq<u8>)
    requires lo <= hi <= |data| && n <= hi - lo
    ensures |r| == |data|
  {
    data[..lo] + XorStream(s, data[lo..hi])[..n] + data[lo + n..]
  }

  lemma PartlyStep(s: State, data: seq<u8>, lo: nat, hi: nat, n: nat, before: seq<u8>, after: seq<u8>)
    requires lo <= hi <= |data| && n < hi - lo && before == Partly(s, data, lo, hi, n)
    requires after == before[lo + n := XorByte(before[lo + n], StreamByte(s, n))]
    ensures after == Partly(s, data, lo, hi, n + 1)
  {
    hide XorStream, XorByte, StreamByte;
    XorStreamAt(s, data[lo..hi], n);
    var x := XorStream(s, data[lo..hi]);
    assert x[..n + 1] == x[..n] + [x[n]];
    assert before[lo + n] == data[lo + n];
  }

  lemma PartlyEnds(s: State, data: seq<u8>, lo: nat, hi: nat)
    requires lo <= hi <= |data|
    ensures Partly(s, data, lo, hi, 0) == data
    ensures Partly(s, data, lo, hi, hi - lo) == data[..lo] + XorStream(s, data[lo..hi]) + data[hi..]
  {
    hide XorStream;
  }

  /** Blocks a call of n bytes uses up: a short last block is used whole. */
  function BlocksUsed(n: nat): nat {
    (n + 63) / 64
  }

  lemma AdvanceCounter(s: State, n: nat, add: u32)
    ensures Advance(s, n)[12 := WrappingAdd32(Advance(s, n)[12], add)] == Advance(s, n + add as int)
  {
    AdvanceTwice(s, n, add as int);
  }

  lemma UsedSoFar(offset: nat, take: nat)
    requires offset % 64 == 0
    ensures offset / 64 + BlocksUsed(take) == BlocksUsed(offset + take)
    ensures BlocksUsed(offset) == offset / 64
  {
  }

  lemma UsedFits(take: nat)
    requires take <= 256
    ensures BlocksUsed(take) <= 4
  {
  }

  class ChaCha20 {
    const state: array<u32>

    ghost predicate Valid() {
      state.Length == 16
    }

    /** A generator for a 256-bit key and a 96-bit nonce. */
    constructor (key: seq<u8>, nonce: seq<u8>, counter: u32)
      requires |key| == 32 && |nonce| == 12
      ensures Valid() && fresh(state) && state[..] == Init(key, nonce, counter)
    {
      hide Init;
      var words := Init(key, nonce, counter);
      state := new u32[16](i requires 0 <= i < 16 => words[i]);
    }

    /** The next 256 bytes of key stream, advancing the counter by four. */
    method FourBlocks(out: array<u8>)
      requires Valid() && out.Length == 256
      modifies state, out
      ensures out[..] == InFlight(old(state[..])) && state[..] == Advance(old(state[..]), 4)
    {
      hide *;
      ValidLength();
      ghost var s: State := state[..];
      var counter := state[12];
      var v := SpreadLanes(state);
      var initial := v[..];
      SpreadOk(initial, s);
      RoundLanes(v);
      ghost var rounded := v[..];
      RoundedOk(initial, rounded, 10);
      FeedForward(v, initial);
      WriteBlocks(v[..], out);
      LanesAreBlocks(s, initial, rounded, v[..], out[..]);
      state[12] := WrappingAdd32(counter, 4);
      assert state[..] == s[12 := WrappingAdd32(counter, 4)];
      AdvanceZero(s);
      AdvanceCounter(s, 0, 4);
    }

    lemma ValidLength()
      requires Valid()
      ensures state.Length == 16
    {
    }

    /** XOR the key stream into buffer[lo..hi] in place. */
    method ApplyKeystream(buffer: array<u8>, lo: nat, hi: nat)
      requires Valid() && lo <= hi <= buffer.Length
      modifies state, buffer
      ensures buffer[..] == old(buffer[..lo]) + XorStream(old(state[..]), old(buffer[lo..hi])) + old(buffer[hi..])
      ensures state[..] == Advance(old(state[..]), BlocksUsed(hi - lo))
    {
      hide *;
      ValidLength();
      ghost var s: State, data := state[..], buffer[..];
      var offset := 0;
      var keystream := new u8[256](_ => 0);
      PartlyEnds(s, data, lo, hi);
      AdvanceZero(s);
      UsedSoFar(0, 0);
      while offset < hi - lo
        invariant 0 <= offset <= hi - lo && (offset < hi - lo ==> offset % 64 == 0)
        invariant buffer[..] == Partly(s, data, lo, hi, offset)
        invariant state[..] == Advance(s, BlocksUsed(offset))
      {
        var counter := state[12];
        ghost var now: State := state[..];
        UsedSoFar(offset, 0);
        FourBlocks(keystream);
        var take := if 256 < hi - lo - offset then 256 else hi - lo - offset;
        XorInto(buffer, keystream, s, data, lo, hi, offset, take);
        UsedFits(take);
        UsedSoFar(offset, take);
        AdvanceCounter(s, offset / 64, BlocksUsed(take) as u32);
        AdvanceSame(now, 4, WrappingAdd32(counter, BlocksUsed(take) as u32));
        state[12] := WrappingAdd32(counter, BlocksUsed(take) as u32);
        assert state[..] == Advance(now, 4)[12 := WrappingAdd32(counter, BlocksUsed(take) as u32)];
        offset := offset + take;
      }
    }

    /** The inner loop: one byte of key stream per byte of data. */
    method XorInto(buffer: array<u8>, keystream: array<u8>, ghost s: State, ghost data: seq<u8>, lo: nat, hi: nat,
                   offset: nat, take: nat)
      requires lo <= hi <= |data| == buffer.Length && offset + take <= hi - lo && take <= 256 && offset % 64 == 0
      requires buffer != keystream && keystream[..] == InFlight(Advance(s, offset / 64))
      requires buffer[..] == Partly(s, data, lo, hi, offset)
      modifies buffer
      ensures buffer[..] == Partly(s, data, lo, hi, offset + take)
    {
      hide *;
      ghost var stream := keystream[..];
      StreamLength(Advance(s, offset / 64));
      for i := 0 to take
        invariant buffer[..] == Partly(s, data, lo, hi, offset + i)
        invariant keystream[..] == stream
      {
        ghost var before := buffer[..];
        InFlightAt(Advance(s, offset / 64), i);
        StreamResumes(s, offset / 64, i);
        buffer[lo + offset + i] := XorByte(buffer[lo + offset + i], keystream[i]);
        assert stream[i] == keystream[i];
        assert buffer[..] == before[lo + offset + i := buffer[lo + offset + i]];
        PartlyStep(s, data, lo, hi, offset + i, before, buffer[..]);
      }
    }
  }

  lemma StreamLength(s: State)
    ensures |InFlight(s)| == 256
  {
    InFlightAt(s, 0);
  }

  /** Setting the counter forgets where it was. */
  lemma AdvanceSame(s: State, n: nat, counter: u32)
    ensures Advance(s, n)[12 := counter] == s[12 := counter]
  {
  }

  // ---------------------------------------------------------------------------
  // The standard's own words
  // ---------------------------------------------------------------------------

  /** The quarter round of section 2.1 of RFC 8439, line by line, on four different words of the state. */
  lemma QuarterRoundMeaning(s: State, a: nat, b: nat, c: nat, d: nat)
    requires a < 16 && b < 16 && c < 16 && d < 16 && a != b && a != c && a != d && b != c && b != d && c != d
    ensures var a1 := WrappingAdd32(s[a], s[b]);
      var d1 := Rotl(XorWord(s[d], a1), 16);
      var c1 := WrappingAdd32(s[c], d1);
      var b1 := Rotl(XorWord(s[b], c1), 12);
      var a2 := WrappingAdd32(a1, b1);
      var d2 := Rotl(XorWord(d1, a2), 8);
      var c2 := WrappingAdd32(c1, d2);
      var b2 := Rotl(XorWord(b1, c2), 7);
      QuarterRound(s, a, b, c, d) == s[a := a2][b := b2][c := c2][d := d2]
  {
    hide WrappingAdd32, Rotl, XorWord;
    var a1 := WrappingAdd32(s[a], s[b]);
    var d1 := Rotl(XorWord(s[d], a1), 16);
    var t: State := s[a := a1][d := d1];
    assert Step(s, a, b, d, 16) == t;
    var c1 := WrappingAdd32(s[c], d1);
    var b1 := Rotl(XorWord(s[b], c1), 12);
    var u: State := t[c := c1][b := b1];
    assert Step(t, c, d, b, 12) == u;
    var a2 := WrappingAdd32(a1, b1);
    var d2 := Rotl(XorWord(d1, a2), 8);
    var v: State := u[a := a2][d := d2];
    assert Step(u, a, b, d, 8) == v;
  }

  /** The word moves up by n bits, and the bits pushed out at the top come back at the bottom. */
  lemma RotlMeaning(x: u32, n: nat)
    requires n <= 32
    ensures Rotl(x, n) as int == x as int * Pow2(n) % Pow2(32) + x as int / Pow2(32 - n)
  {
    hide Pow2;
    WordSizes();
  }

  /** Four columns, then four diagonals, and ten times both (section 2.3). */
  lemma RoundsMeaning(s: State)
    ensures DoubleRound(s)
         == QuarterRound(QuarterRound(QuarterRound(QuarterRound(
              QuarterRound(QuarterRound(QuarterRound(QuarterRound(s, 0, 4, 8, 12), 1, 5, 9, 13), 2, 6, 10, 14), 3, 7,
                           11, 15),
              0, 5, 10, 15), 1, 6, 11, 12), 2, 7, 8, 13), 3, 4, 9, 14)
    ensures Rounds(s, 0) == s && forall n: nat :: Rounds(s, n + 1) == DoubleRound(Rounds(s, n))
  {
    hide QuarterRound;
  }

  /** The initial state word by word: four constants, the key, the counter, the nonce, all little-endian. */
  lemma InitMeaning(key: seq<u8>, nonce: seq<u8>, counter: u32, i: nat)
    requires |key| == 32 && |nonce| == 12 && i < 16
    ensures var s := Init(key, nonce, counter);
      && s[0] == 0x61707865 && s[1] == 0x3320646e && s[2] == 0x79622d32 && s[3] == 0x6b206574 && s[12] == counter
      && (4 <= i < 12 ==> s[i] as int == LeVal(key[4 * (i - 4)..4 * (i - 4) + 4]))
      && (13 <= i ==> s[i] as int == LeVal(nonce[4 * (i - 13)..4 * (i - 13) + 4]))
  {
    hide LeVal;
  }

  /** A block is twenty rounds added to the state they started from, each word as four little-endian bytes. */
  lemma BlockMeaning(s: State, i: nat)
    requires i < 16
    ensures BlockBytes(s)[4 * i..4 * i + 4] == LeBytes((Rounds(s, 10)[i] as int + s[i] as int) % 0x1_0000_0000, 4)
  {
    hide Rounds, AddStates, LeBytes, Serialize;
    WordBytes(AddStates(Rounds(s, 10), s), i);
  }

  lemma {:induction false} WordBytes(words: seq<u32>, i: nat)
    requires i < |words|
    ensures Serialize(words)[4 * i..4 * i + 4] == LeBytes(words[i] as int, 4)
    decreases |words|
  {
    hide LeBytes;
    var front := words[..|words| - 1];
    if i < |front| {
      WordBytes(front, i);
      assert Serialize(words)[4 * i..4 * i + 4] == Serialize(front)[4 * i..4 * i + 4];
    }
  }

  /** Byte j of the ciphertext is byte j of the text and byte j mod 64 of block j / 64. */
  lemma StreamMeaning(s: State, data: seq<u8>, j: nat)
    requires j < |data|
    ensures XorStream(s, data)[j]
         == Xor(data[j], BlockBytes(s[12 := ((s[12] as int + j / 64) % 0x1_0000_0000) as u32])[j % 64])
  {
    hide BlockBytes;
  }

  /** A call uses ceil(n / 64) blocks, and leaves every word but the counter alone. */
  lemma CounterMeaning(s: State, n: nat)
    ensures BlocksUsed(n) == (n + 63) / 64
    ensures Advance(s, n) == s[12 := ((s[12] as int + n) % 0x1_0000_0000) as u32]
  {
  }
}
