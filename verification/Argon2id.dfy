/** Argon2id with one lane (argon2/argon2id.rs), against RFC 9106. */
module Argon2id {
  // BLAKE2b and the compression function G are the parameters `blake` and `mix`.

  import opened Arith
  import opened Words
  import opened Bytes
  import opened Gf2

  type Block = s: seq<u64> | |s| == 128 witness seq(128, _ => 0)

  const ZERO_BLOCK: Block := seq(128, _ => 0)

  // ---------------------------------------------------------------------------
  // Positions
  // ---------------------------------------------------------------------------

  /** A step of the fill: four slices of `seg` blocks per pass, and the first two blocks of all given. */
  ghost predicate IsStep(pass: nat, slice: nat, index: nat, seg: nat) {
    && 2 <= seg < 0x4000_0000 && slice < 4 && index < seg
    && (pass == 0 && slice == 0 ==> 2 <= index)
  }

  function Current(slice: nat, index: nat, seg: nat): nat {
    slice * seg + index
  }

  function Previous(slice: nat, index: nat, seg: nat): int
    requires seg > 0
  {
    if Current(slice, index, seg) == 0 then 4 * seg - 1 else Current(slice, index, seg) - 1
  }

  /**
   The blocks a step may refer to (section 3.4.2 of RFC 9106): in the first pass
   everything computed so far, later the three segments finished before this one
   and what this segment has computed; never the previous block.
   */
  ghost predicate MayRefer(pass: nat, slice: nat, index: nat, seg: nat, r: nat)
    requires seg > 0
  {
    && r < 4 * seg && r != Previous(slice, index, seg)
    && if pass == 0 then r < Current(slice, index, seg) else r / seg != slice || r < Current(slice, index, seg)
  }

  /** Those blocks in the order they were computed, oldest first. */
  function Window(pass: nat, slice: nat, index: nat, seg: nat): seq<nat>
    requires IsStep(pass, slice, index, seg)
  {
    if pass == 0 then seq(Current(slice, index, seg) - 1, k requires 0 <= k => k)
    else seq(3 * seg + index - 1, k requires 0 <= k => ((slice + 1) * seg + k) % (4 * seg))
  }

  lemma StepBounds(pass: nat, slice: nat, index: nat, seg: nat)
    requires IsStep(pass, slice, index, seg)
    ensures Current(slice, index, seg) < 4 * seg && 0 <= Previous(slice, index, seg) < 4 * seg
    ensures Previous(slice, index, seg) != Current(slice, index, seg)
    ensures pass == 0 ==> Current(slice, index, seg) >= 2
    ensures 1 <= |Window(pass, slice, index, seg)| < 4 * seg
  {
    assert slice == 0 || slice == 1 || slice == 2 || slice == 3;
  }

  /** A later position of the ring, brought back into it. */
  lemma Ring(slice: nat, seg: nat, k: nat)
    requires seg > 0 && slice < 4 && k < 4 * seg
    ensures var at := (slice + 1) * seg + k;
      at % (4 * seg) == if at < 4 * seg then at else at - 4 * seg
  {
    var at := (slice + 1) * seg + k;
    assert slice == 0 || slice == 1 || slice == 2 || slice == 3;
    assert 0 <= at < 8 * seg;
    if at < 4 * seg {
      DivModOf(at, 4 * seg, 0, at);
    } else {
      DivModOf(at, 4 * seg, 1, at - 4 * seg);
    }
  }

  /** Every position is in one segment. */
  lemma SegmentOf(r: nat, seg: nat)
    requires seg > 0 && r < 4 * seg
    ensures r < seg ==> r / seg == 0
    ensures seg <= r < 2 * seg ==> r / seg == 1
    ensures 2 * seg <= r < 3 * seg ==> r / seg == 2
    ensures 3 * seg <= r ==> r / seg == 3
  {
    if r < seg {
      DivModOf(r, seg, 0, r);
    } else if r < 2 * seg {
      DivModOf(r, seg, 1, r - seg);
    } else if r < 3 * seg {
      DivModOf(r, seg, 2, r - 2 * seg);
    } else {
      DivModOf(r, seg, 3, r - 3 * seg);
    }
  }

  /** Every entry of the window may be referred to, and none is the current block. */
  lemma WindowSound(pass: nat, slice: nat, index: nat, seg: nat, k: nat)
    requires IsStep(pass, slice, index, seg) && k < |Window(pass, slice, index, seg)|
    ensures MayRefer(pass, slice, index, seg, Window(pass, slice, index, seg)[k])
    ensures Window(pass, slice, index, seg)[k] != Current(slice, index, seg)
  {
    StepBounds(pass, slice, index, seg);
    var r := Window(pass, slice, index, seg)[k];
    if pass > 0 {
      Ring(slice, seg, k);
      SegmentOf(r, seg);
    }
    assert slice == 0 || slice == 1 || slice == 2 || slice == 3;
  }

  /** And every block that may be referred to is in the window. */
  lemma WindowComplete(pass: nat, slice: nat, index: nat, seg: nat, r: nat) returns (k: nat)
    requires IsStep(pass, slice, index, seg) && MayRefer(pass, slice, index, seg, r)
    ensures k < |Window(pass, slice, index, seg)| && Window(pass, slice, index, seg)[k] == r
  {
    StepBounds(pass, slice, index, seg);
    if pass == 0 {
      k := r;
    } else {
      var from := (slice + 1) * seg;
      k := if r >= from then r - from else r + 4 * seg - from;
      InWindow(slice, index, seg, r, k);
      Ring(slice, seg, k);
    }
  }

  lemma InWindow(slice: nat, index: nat, seg: nat, r: nat, k: int)
    requires IsStep(1, slice, index, seg) && MayRefer(1, slice, index, seg, r)
    requires k == if r >= (slice + 1) * seg then r - (slice + 1) * seg else r + 4 * seg - (slice + 1) * seg
    ensures 0 <= k < 3 * seg + index - 1
  {
    assert slice == 0 || slice == 1 || slice == 2 || slice == 3;
    SegmentOf(r, seg);
  }

  lemma WindowDistinct(pass: nat, slice: nat, index: nat, seg: nat, j: nat, k: nat)
    requires IsStep(pass, slice, index, seg) && j < k < |Window(pass, slice, index, seg)|
    ensures Window(pass, slice, index, seg)[j] != Window(pass, slice, index, seg)[k]
  {
    StepBounds(pass, slice, index, seg);
    if pass > 0 {
      Ring(slice, seg, j);
      Ring(slice, seg, k);
    }
  }

  // ---------------------------------------------------------------------------
  // What the run has written
  // ---------------------------------------------------------------------------

  /** How many blocks are written before a step, the two given ones included. */
  function WriteCount(pass: nat, slice: nat, index: nat, seg: nat): nat {
    4 * seg * pass + (slice * seg + index)
  }

  /** `log` lists the blocks in the order the run wrote them, up to a step. */
  ghost predicate Logged(log: seq<nat>, pass: nat, slice: nat, index: nat, seg: nat)
    requires seg > 0
  {
    |log| == WriteCount(pass, slice, index, seg) && forall k :: 0 <= k < |log| ==> log[k] == k % (4 * seg)
  }

  /** The first of the recent writes: all of them in the first pass, those of three segments and this one later. */
  function RecentFrom(pass: nat, slice: nat, index: nat, seg: nat): int {
    if pass == 0 then 0 else WriteCount(pass, slice, index, seg) - (3 * seg + index)
  }

  /** The window is the recent writes of the run without the last one, which is the previous block. */
  lemma WindowIsLogged(log: seq<nat>, pass: nat, slice: nat, index: nat, seg: nat)
    requires IsStep(pass, slice, index, seg) && Logged(log, pass, slice, index, seg)
    ensures 0 <= RecentFrom(pass, slice, index, seg) < |log|
    ensures Window(pass, slice, index, seg) == log[RecentFrom(pass, slice, index, seg)..|log| - 1]
    ensures log[|log| - 1] == Previous(slice, index, seg)
  {
    StepBounds(pass, slice, index, seg);
    var from, w := RecentFrom(pass, slice, index, seg), Window(pass, slice, index, seg);
    assert slice == 0 || slice == 1 || slice == 2 || slice == 3;
    if pass > 0 {
      MulMono(4 * seg, 1, pass);
    }
    forall k | 0 <= k < |w| ensures w[k] == log[from + k] {
      RecentEntry(pass, slice, index, seg, k);
    }
    LastWrite(pass, slice, index, seg);
  }

  lemma RecentEntry(pass: nat, slice: nat, index: nat, seg: nat, k: nat)
    requires IsStep(pass, slice, index, seg) && k < |Window(pass, slice, index, seg)|
    ensures (RecentFrom(pass, slice, index, seg) + k) % (4 * seg) == Window(pass, slice, index, seg)[k]
  {
    StepBounds(pass, slice, index, seg);
    if pass == 0 {
      DivModOf(k, 4 * seg, 0, k);
    } else {
      assert 4 * seg * pass == 4 * seg * (pass - 1) + 4 * seg;
      SameRemainder(RecentFrom(pass, slice, index, seg) + k, (slice + 1) * seg + k, pass - 1, 4 * seg);
    }
  }

  lemma LastWrite(pass: nat, slice: nat, index: nat, seg: nat)
    requires IsStep(pass, slice, index, seg)
    ensures (WriteCount(pass, slice, index, seg) - 1) % (4 * seg) == Previous(slice, index, seg)
  {
    StepBounds(pass, slice, index, seg);
    var current := Current(slice, index, seg);
    if current == 0 {
      assert pass > 0 && 4 * seg * pass == 4 * seg * (pass - 1) + 4 * seg;
      DivModOf(WriteCount(pass, slice, index, seg) - 1, 4 * seg, pass - 1, 4 * seg - 1);
    } else {
      DivModOf(WriteCount(pass, slice, index, seg) - 1, 4 * seg, pass, current - 1);
    }
  }

  /** Writing the current block is the next entry of the log. */
  lemma LogStep(log: seq<nat>, pass: nat, slice: nat, index: nat, seg: nat)
    requires IsStep(pass, slice, index, seg) && Logged(log, pass, slice, index, seg)
    ensures Logged(log + [Current(slice, index, seg)], pass, slice, index + 1, seg)
  {
    StepBounds(pass, slice, index, seg);
    DivModOf(|log|, 4 * seg, pass, Current(slice, index, seg));
  }

  // ---------------------------------------------------------------------------
  // reference_index
  // ---------------------------------------------------------------------------

  /** The position in the window that J1 selects: |W| - 1 - (|W| * (J1^2 / 2^32)) / 2^32. */
  function Select(j1: int, size: nat): (z: int)
    requires 0 <= j1 < 0x1_0000_0000 && 1 <= size
    ensures 0 <= z < size
  {
    SquareFits(j1);
    var x := j1 * j1 / 0x1_0000_0000;
    Scaled(size, x);
    size - 1 - size * x / 0x1_0000_0000
  }

  lemma SquareFits(j1: int)
    requires 0 <= j1 < 0x1_0000_0000
    ensures 0 <= j1 * j1 <= 0xffff_fffe_0000_0001 && 0 <= j1 * j1 / 0x1_0000_0000 < 0x1_0000_0000
  {
    MulMono(j1, j1, 0xffff_ffff);
  }

  lemma Scaled(size: nat, x: int)
    requires 0 <= x < 0x1_0000_0000 && 1 <= size
    ensures 0 <= size * x && 0 <= size * x / 0x1_0000_0000 < size
  {
    MulMono(size, x, 0xffff_ffff);
    DivSmall(size * x, 0x1_0000_0000, size);
  }

  /** The block a pseudo-random word names. */
  function Reference(word: u64, pass: nat, slice: nat, index: nat, seg: nat): nat
    requires IsStep(pass, slice, index, seg)
  {
    StepBounds(pass, slice, index, seg);
    var w := Window(pass, slice, index, seg);
    w[Select(word as int % 0x1_0000_0000, |w|)]
  }

  /** The low half of a product of words that fits. */
  lemma ProductFits(area: int, x: int)
    requires 0 <= area < 0x1_0000_0000 && 0 <= x < 0x1_0000_0000
    ensures 0 <= area * x < 0x1_0000_0000_0000_0000
  {
    MulMono(area, x, 0xffff_ffff);
  }

  /**
   The code's index: every subtraction stays above zero, every product fits, and the
   result is the standard's block.
   */
  method ReferenceIndex(pseudoRandom: u64, pass: nat, slice: nat, index: nat, segmentLength: nat, blockCount: nat)
    returns (r: nat)
    requires IsStep(pass, slice, index, segmentLength) && blockCount == 4 * segmentLength
    ensures r == Reference(pseudoRandom, pass, slice, index, segmentLength)
    ensures var w, j1 := Window(pass, slice, index, segmentLength), pseudoRandom as int % 0x1_0000_0000;
      && 0 <= |w| - 1 - |w| * (j1 * j1 / 0x1_0000_0000) / 0x1_0000_0000 < |w|
      && r == w[|w| - 1 - |w| * (j1 * j1 / 0x1_0000_0000) / 0x1_0000_0000]
    ensures MayRefer(pass, slice, index, segmentLength, r)
    ensures r != Current(slice, index, segmentLength) && r < blockCount
  {
    StepBounds(pass, slice, index, segmentLength);
    var area: nat, startPosition: nat;
    if pass == 0 {
      area, startPosition := slice * segmentLength + index - 1, 0;
    } else {
      area := blockCount - segmentLength + index - 1;
      startPosition := if slice == 3 then 0 else (slice + 1) * segmentLength;
    }
    var j1 := pseudoRandom % 0x1_0000_0000;
    SquareFits(j1 as int);
    var relative := j1 * j1 / 0x1_0000_0000;
    ProductFits(area, relative as int);
    Scaled(area, relative as int);
    relative := area as u64 - 1 - area as u64 * relative / 0x1_0000_0000;
    WindowSound(pass, slice, index, segmentLength, relative as int);
    WindowEntry(pass, slice, index, segmentLength, relative as int);
    r := (startPosition + relative as int) % blockCount;
  }

  /** The code wraps its start once, at the last slice. */
  lemma WindowEntry(pass: nat, slice: nat, index: nat, seg: nat, k: nat)
    requires IsStep(pass, slice, index, seg) && k < |Window(pass, slice, index, seg)|
    ensures Window(pass, slice, index, seg)[k]
         == ((if pass == 0 || slice == 3 then 0 else (slice + 1) * seg) + k) % (4 * seg)
  {
    StepBounds(pass, slice, index, seg);
    if pass == 0 || slice == 3 {
      DivModOf(k, 4 * seg, 0, k);
    }
    if pass > 0 {
      Ring(slice, seg, k);
    }
  }

  // ---------------------------------------------------------------------------
  // The fill, one block at a time
  // ---------------------------------------------------------------------------

  /** What stays fixed during the fill. */
  datatype Env = Env(mix: (Block, Block) -> Block, seg: nat, passes: nat)

  ghost predicate EnvOk(e: Env) {
    2 <= e.seg < 0x4000_0000 && 1 <= e.passes < 0x1_0000_0000
  }

  function XorWord64(a: u64, b: u64): u64 {
    hide Xor, Pow2;
    WordSizes();
    XorBound(a as int, b as int, 64);
    Xor(a as int, b as int) as u64
  }

  function XorBlocks(a: Block, b: Block): (r: Block)
    ensures forall i :: 0 <= i < 128 ==> r[i] == XorWord64(a[i], b[i])
  {
    seq(128, i requires 0 <= i < 128 => XorWord64(a[i], b[i]))
  }

  /** The input of the data-independent addressing, with its block counter. */
  function AddressInput(e: Env, pass: nat, slice: nat, counter: u64): Block
    requires EnvOk(e) && pass < e.passes && slice < 4
  {
    [pass as u64, 0, slice as u64, (4 * e.seg) as u64, e.passes as u64, 2, counter] + seq(121, _ => 0)
  }

  function AddressBlock(e: Env, input: Block): Block {
    e.mix(ZERO_BLOCK, e.mix(ZERO_BLOCK, input))
  }

  /** Half of the first pass takes its pseudo-random words from address blocks numbered from one. */
  ghost predicate DataIndependent(pass: nat, slice: nat) {
    pass == 0 && slice < 2
  }

  function AddressCounter(index: nat): u64
    requires index < 0x4000_0000
  {
    (index / 128 + 1) as u64
  }

  ghost function PseudoRandom(e: Env, mem: seq<Block>, pass: nat, slice: nat, index: nat): u64
    requires EnvOk(e) && pass < e.passes && IsStep(pass, slice, index, e.seg) && |mem| == 4 * e.seg
  {
    if DataIndependent(pass, slice)
    then AddressBlock(e, AddressInput(e, pass, slice, AddressCounter(index)))[index % 128]
    else
      StepBounds(pass, slice, index, e.seg);
      mem[Previous(slice, index, e.seg)][0]
  }

  /** One block: G of the previous and the reference, written in the first pass and added later. */
  ghost function FillStep(e: Env, mem: seq<Block>, pass: nat, slice: nat, index: nat): (r: seq<Block>)
    requires EnvOk(e) && pass < e.passes && IsStep(pass, slice, index, e.seg) && |mem| == 4 * e.seg
    ensures |r| == |mem|
  {
    StepBounds(pass, slice, index, e.seg);
    var reference := Reference(PseudoRandom(e, mem, pass, slice, index), pass, slice, index, e.seg);
    ReferenceInRange(PseudoRandom(e, mem, pass, slice, index), pass, slice, index, e.seg);
    var current := Current(slice, index, e.seg);
    var mixed := e.mix(mem[Previous(slice, index, e.seg)], mem[reference]);
    mem[current := if pass == 0 then mixed else XorBlocks(mem[current], mixed)]
  }

  lemma ReferenceInRange(word: u64, pass: nat, slice: nat, index: nat, seg: nat)
    requires IsStep(pass, slice, index, seg)
    ensures Reference(word, pass, slice, index, seg) < 4 * seg
  {
    StepBounds(pass, slice, index, seg);
    WindowSound(pass, slice, index, seg, Select(word as int % 0x1_0000_0000, |Window(pass, slice, index, seg)|));
  }

  function Start(pass: nat, slice: nat): nat {
    if pass == 0 && slice == 0 then 2 else 0
  }

  /** The first n indices of a segment. */
  ghost function FillSegment(e: Env, mem: seq<Block>, pass: nat, slice: nat, n: nat): (r: seq<Block>)
    requires EnvOk(e) && pass < e.passes && slice < 4 && n <= e.seg && |mem| == 4 * e.seg
    ensures |r| == |mem|
    decreases n
  {
    if n <= Start(pass, slice) then mem
    else FillStep(e, FillSegment(e, mem, pass, slice, n - 1), pass, slice, n - 1)
  }

  /** The first n slices of a pass. */
  ghost function FillSlices(e: Env, mem: seq<Block>, pass: nat, n: nat): (r: seq<Block>)
    requires EnvOk(e) && pass < e.passes && n <= 4 && |mem| == 4 * e.seg
    ensures |r| == |mem|
    decreases n, e
  {
    if n == 0 then mem else FillSegment(e, FillSlices(e, mem, pass, n - 1), pass, n - 1, e.seg)
  }

  /** The first n passes. */
  ghost function FillPasses(e: Env, mem: seq<Block>, n: nat): (r: seq<Block>)
    requires EnvOk(e) && n <= e.passes && |mem| == 4 * e.seg
    ensures |r| == |mem|
    decreases n
  {
    if n == 0 then mem else FillSlices(e, FillPasses(e, mem, n - 1), n - 1, 4)
  }

  // ---------------------------------------------------------------------------
  // The three-deep loop
  // ---------------------------------------------------------------------------

  /** The address block in hand belongs to the last index processed. */
  ghost predicate Addressed(e: Env, pass: nat, slice: nat, index: nat, counter: u64, input: Block, address: Block) {
    && EnvOk(e) && pass < e.passes && slice < 4 && index <= e.seg
    && (DataIndependent(pass, slice) ==>
          && counter as int == (index + 127) / 128
          && input == AddressInput(e, pass, slice, counter)
          && (index > 0 ==> address == AddressBlock(e, input)))
  }

  lemma CounterSteps(index: nat)
    ensures index % 128 == 0 ==> (index + 127) / 128 + 1 == index / 128 + 1 && (index + 128) / 128 == index / 128 + 1
    ensures index % 128 != 0 ==> (index + 127) / 128 == index / 128 + 1 && (index + 128) / 128 == index / 128 + 1
    ensures (index + 127) / 128 <= index
  {
  }

  lemma NextInput(e: Env, pass: nat, slice: nat, counter: u64, next: u64)
    requires EnvOk(e) && pass < e.passes && slice < 4
    ensures AddressInput(e, pass, slice, counter)[6 := next] == AddressInput(e, pass, slice, next)
  {
  }

  /** The pseudo-random word of one step, moving the address block on every 128 indices. */
  method NextWord(e: Env, memory: array<Block>, pass: nat, slice: nat, index: nat, counter: u64, input: Block,
                  address: Block)
    returns (word: u64, counter': u64, input': Block, address': Block)
    requires Addressed(e, pass, slice, index, counter, input, address) && IsStep(pass, slice, index, e.seg)
    requires memory.Length == 4 * e.seg
    ensures word == PseudoRandom(e, memory[..], pass, slice, index)
    ensures word == if pass == 0 && slice < 2
                    then e.mix(ZERO_BLOCK,
                               e.mix(ZERO_BLOCK, AddressInput(e, pass, slice, (index / 128 + 1) as u64)))[index % 128]
                    else memory[Previous(slice, index, e.seg)][0]
    ensures Addressed(e, pass, slice, index + 1, counter', input', address')
  {
    hide Previous, Current, AddressInput;
    counter', input', address' := counter, input, address;
    StepBounds(pass, slice, index, e.seg);
    if pass == 0 && slice < 2 {
      CounterSteps(index);
      if index % 128 == 0 {
        NextInput(e, pass, slice, counter, counter + 1);
        counter' := counter + 1;
        input' := input[6 := counter'];
        address' := AddressBlock(e, input');
      }
      word := address'[index % 128];
    } else {
      word := memory[Previous(slice, index, e.seg)][0];
    }
  }

  /** One iteration: find the reference, which the run has written before, mix, write or add. */
  method FillBlock(e: Env, memory: array<Block>, pass: nat, slice: nat, index: nat, word: u64, ghost log: seq<nat>)
    returns (ghost log': seq<nat>)
    requires EnvOk(e) && pass < e.passes && IsStep(pass, slice, index, e.seg) && memory.Length == 4 * e.seg
    requires word == PseudoRandom(e, memory[..], pass, slice, index)
    requires Logged(log, pass, slice, index, e.seg)
    modifies memory
    ensures memory[..] == FillStep(e, old(memory[..]), pass, slice, index)
    ensures var current := slice * e.seg + index;
      var previous := if current == 0 then 4 * e.seg - 1 else current - 1;
      var reference := Reference(word, pass, slice, index, e.seg);
      && 0 <= current < memory.Length && 0 <= previous < memory.Length && reference < memory.Length
      && var mixed := e.mix(old(memory[previous]), old(memory[reference]));
      && (forall k :: 0 <= k < memory.Length && k != current ==> memory[k] == old(memory[k]))
      && (pass == 0 ==> memory[current] == mixed)
      && (pass > 0 ==> forall i :: 0 <= i < 128 ==>
            memory[current][i] as int == Xor(old(memory[current])[i] as int, mixed[i] as int))
    ensures Reference(word, pass, slice, index, e.seg) in log && Previous(slice, index, e.seg) in log
    ensures log' == log + [Current(slice, index, e.seg)] && Logged(log', pass, slice, index + 1, e.seg)
  {
    ReferenceLogged(log, word, pass, slice, index, e.seg);
    LogStep(log, pass, slice, index, e.seg);
    hide MayRefer, Reference, PseudoRandom, XorBlocks;
    StepBounds(pass, slice, index, e.seg);
    ghost var before := memory[..];
    var current := slice * e.seg + index;
    var previous := if current == 0 then 4 * e.seg - 1 else current - 1;
    var reference := ReferenceIndex(word, pass, slice, index, e.seg, 4 * e.seg);
    var mixed := e.mix(memory[previous], memory[reference]);
    if pass == 0 {
      memory[current] := mixed;
    } else {
      XorBlocksMeaning(memory[current], mixed);
      memory[current] := XorBlocks(memory[current], mixed);
    }
    log' := log + [current];
  }

  lemma ReferenceLogged(log: seq<nat>, word: u64, pass: nat, slice: nat, index: nat, seg: nat)
    requires IsStep(pass, slice, index, seg) && Logged(log, pass, slice, index, seg)
    ensures Reference(word, pass, slice, index, seg) in log && Previous(slice, index, seg) in log
  {
    hide Logged;
    StepBounds(pass, slice, index, seg);
    WindowIsLogged(log, pass, slice, index, seg);
    var w := Window(pass, slice, index, seg);
    assert w[Select(word as int % 0x1_0000_0000, |w|)] in w;
  }

  lemma SegmentStep(e: Env, mem: seq<Block>, pass: nat, slice: nat, index: nat)
    requires EnvOk(e) && pass < e.passes && slice < 4 && Start(pass, slice) <= index < e.seg && |mem| == 4 * e.seg
    ensures IsStep(pass, slice, index, e.seg)
    ensures FillSegment(e, mem, pass, slice, index + 1)
        == FillStep(e, FillSegment(e, mem, pass, slice, index), pass, slice, index)
  {
    hide FillStep;
  }

  lemma SegmentStart(e: Env, mem: seq<Block>, pass: nat, slice: nat)
    requires EnvOk(e) && pass < e.passes && slice < 4 && |mem| == 4 * e.seg
    ensures Start(pass, slice) <= e.seg && FillSegment(e, mem, pass, slice, Start(pass, slice)) == mem
  {
    hide FillStep;
  }

  /** One segment, with the address generator started as its first index needs. */
  method FillOneSegment(e: Env, memory: array<Block>, pass: nat, slice: nat, ghost log: seq<nat>)
    returns (ghost log': seq<nat>)
    requires EnvOk(e) && pass < e.passes && slice < 4 && memory.Length == 4 * e.seg
    requires Logged(log, pass, slice, Start(pass, slice), e.seg)
    modifies memory
    ensures memory[..] == FillSegment(e, old(memory[..]), pass, slice, e.seg)
    ensures log <= log' && Logged(log', pass, slice, e.seg, e.seg)
  {
    hide FillSegment, FillStep, IsStep, PseudoRandom, AddressBlock, AddressInput, Logged, Reference;
    log' := log;
    ghost var before := memory[..];
    var addressBlock, inputBlock := ZERO_BLOCK, ZERO_BLOCK;
    var addressCounter: u64 := 0;
    if pass == 0 && slice < 2 {
      inputBlock := AddressInput(e, pass, slice, 0);
    }
    var start := Start(pass, slice);
    if pass == 0 && slice < 2 && start == 2 {
      NextInput(e, pass, slice, 0, 1);
      addressCounter := addressCounter + 1;
      inputBlock := inputBlock[6 := addressCounter];
      addressBlock := AddressBlock(e, inputBlock);
    }
    SegmentStart(e, before, pass, slice);
    for index := start to e.seg
      invariant memory[..] == FillSegment(e, before, pass, slice, index)
      invariant Addressed(e, pass, slice, index, addressCounter, inputBlock, addressBlock)
      invariant log <= log' && Logged(log', pass, slice, index, e.seg)
    {
      SegmentStep(e, before, pass, slice, index);
      var word: u64;
      word, addressCounter, inputBlock, addressBlock :=
        NextWord(e, memory, pass, slice, index, addressCounter, inputBlock, addressBlock);
      log' := FillBlock(e, memory, pass, slice, index, word, log');
    }
  }

  /** All passes over the memory, in place, with the log of the blocks written, the two given ones first. */
  method Fill(e: Env, memory: array<Block>) returns (ghost log: seq<nat>)
    requires EnvOk(e) && memory.Length == 4 * e.seg
    modifies memory
    ensures memory[..] == FillPasses(e, old(memory[..]), e.passes)
    ensures [0, 1] <= log && Logged(log, e.passes, 0, 0, e.seg)
  {
    hide FillSegment, Logged;
    log := [0, 1];
    FirstLog(e.seg);
    ghost var before := memory[..];
    for pass := 0 to e.passes
      invariant memory[..] == FillPasses(e, before, pass)
      invariant [0, 1] <= log && Logged(log, pass, 0, Start(pass, 0), e.seg)
    {
      ghost var now := memory[..];
      for slice := 0 to 4
        invariant memory[..] == FillSlices(e, now, pass, slice)
        invariant [0, 1] <= log && Logged(log, pass, slice, Start(pass, slice), e.seg)
      {
        log := FillOneSegment(e, memory, pass, slice, log);
        NextSegment(log, pass, slice, e.seg);
      }
      NextPass(log, pass, e.seg);
    }
  }

  lemma FirstLog(seg: nat)
    requires seg >= 2
    ensures Logged([0, 1], 0, 0, 2, seg)
  {
    DivModOf(0, 4 * seg, 0, 0);
    DivModOf(1, 4 * seg, 0, 1);
    assert WriteCount(0, 0, 2, seg) == 2;
  }

  lemma NextSegment(log: seq<nat>, pass: nat, slice: nat, seg: nat)
    requires seg > 0 && Logged(log, pass, slice, seg, seg)
    ensures Logged(log, pass, slice + 1, 0, seg)
  {
  }

  lemma NextPass(log: seq<nat>, pass: nat, seg: nat)
    requires seg > 0 && Logged(log, pass, 4, 0, seg)
    ensures Logged(log, pass + 1, 0, 0, seg)
  {
  }

  // ---------------------------------------------------------------------------
  // The variable-length hash H'
  // ---------------------------------------------------------------------------

  /** BLAKE2b with the given output length. */
  ghost predicate IsHash(blake: (nat, seq<u8>) -> seq<u8>) {
    forall n, input {:trigger blake(n, input)} :: 1 <= n <= 64 ==> |blake(n, input)| == n
  }

  /** V_1 hashes the length and the input; V_{i+1} hashes V_i (section 3.3 of RFC 9106). */
  function Chain(blake: (nat, seq<u8>) -> seq<u8>, first: seq<u8>, i: nat): seq<u8>
    decreases i
  {
    if i == 0 then blake(64, first) else blake(64, Chain(blake, first, i - 1))
  }

  /** The first halves W_1, .., W_r. */
  function Halves(blake: (nat, seq<u8>) -> seq<u8>, first: seq<u8>, r: nat): seq<u8>
    requires IsHash(blake)
    decreases r
  {
    if r == 0 then []
    else
      ChainLength(blake, first, r - 1);
      Halves(blake, first, r - 1) + Chain(blake, first, r - 1)[..32]
  }

  lemma ChainLength(blake: (nat, seq<u8>) -> seq<u8>, first: seq<u8>, i: nat)
    requires IsHash(blake)
    ensures |Chain(blake, first, i)| == 64
  {
  }

  lemma {:induction false} HalvesLength(blake: (nat, seq<u8>) -> seq<u8>, first: seq<u8>, r: nat)
    requires IsHash(blake)
    ensures |Halves(blake, first, r)| == 32 * r
  {
    if r > 0 {
      HalvesLength(blake, first, r - 1);
      ChainLength(blake, first, r - 1);
    }
  }

  /** ceil(T / 32) - 2 first halves, then a whole hash of what is missing. */
  function HPrime(blake: (nat, seq<u8>) -> seq<u8>, input: seq<u8>, length: nat): seq<u8>
    requires IsHash(blake)
  {
    var first := LeBytes(length, 4) + input;
    if length <= 64 then blake(length, first)
    else
      var r := (length + 31) / 32 - 2;
      Halves(blake, first, r) + blake(length - 32 * r, Chain(blake, first, r - 1))
  }

  lemma HPrimeLength(blake: (nat, seq<u8>) -> seq<u8>, input: seq<u8>, length: nat)
    requires IsHash(blake) && length >= 1
    ensures |HPrime(blake, input, length)| == length
  {
    if length > 64 {
      HalvesLength(blake, LeBytes(length, 4) + input, (length + 31) / 32 - 2);
    }
  }

  /** The code's loop leaves between 33 and 64 bytes: exactly the count of the standard. */
  lemma HalfCount(length: nat, r: nat)
    requires r >= 1 && 32 < length - 32 * r <= 64
    ensures r == (length + 31) / 32 - 2
  {
  }

  method HashPrime(blake: (nat, seq<u8>) -> seq<u8>, input: seq<u8>, length: nat) returns (out: seq<u8>)
    requires IsHash(blake) && length >= 1
    ensures out == HPrime(blake, input, length) && |out| == length
  {
    HPrimeLength(blake, input, length);
    hide LeBytes, IsHash;
    ghost var first := LeBytes(length, 4) + input;
    if length <= 64 {
      return blake(length, LeBytes(length, 4) + input);
    }
    var buffer := new u8[length](_ => 0);
    var block := blake(64, LeBytes(length, 4) + input);
    ChainLength(blake, first, 0);
    CopyInto(buffer, 0, block[..32]);
    var written := 32;
    ghost var r := 1;
    assert Halves(blake, first, 1) == Halves(blake, first, 0) + Chain(blake, first, 0)[..32];
    while length - written > 64
      invariant r >= 1 && written == 32 * r && length - written > 32
      invariant block == Chain(blake, first, r - 1)
      invariant buffer[..written] == Halves(blake, first, r)
    {
      var next := blake(64, block);
      ChainLength(blake, first, r);
      ghost var done := buffer[..written];
      CopyInto(buffer, written, next[..32]);
      assert buffer[..written + 32] == done + next[..32];
      block := next;
      written := written + 32;
      r := r + 1;
    }
    HalfCount(length, r);
    var tail := blake(length - written, block);
    HalvesLength(blake, first, r);
    out := buffer[..written] + tail;
  }

  // ---------------------------------------------------------------------------
  // Argon2id
  // ---------------------------------------------------------------------------

  datatype Params = Params(memoryKib: u32, passes: u32, outputLen: nat)
  datatype Result = Ok(key: seq<u8>) | InvalidParams

  /** The parameters the standard allows for one lane, as far as the code checks them. */
  predicate Refused(params: Params, salt: seq<u8>) {
    params.memoryKib < 8 || params.passes == 0 || params.outputLen < 4 || |salt| < 8
  }

  /** H_0 binds every parameter (section 3.2 of RFC 9106). */
  function H0Input(password: seq<u8>, salt: seq<u8>, params: Params): seq<u8> {
    LeBytes(1, 4) + LeBytes(params.outputLen, 4) + LeBytes(params.memoryKib as int, 4)
        + LeBytes(params.passes as int, 4)
    + LeBytes(0x13, 4) + LeBytes(2, 4) + LeBytes(|password|, 4) + password + LeBytes(|salt|, 4) + salt
    + LeBytes(0, 4) + LeBytes(0, 4)
  }

  /** `bytes_to_block` and `block_to_bytes`. */
  function ToBlock(bytes: seq<u8>): Block
    requires |bytes| == 1024
  {
    seq(128, i requires 0 <= i < 128 => WordAt(bytes, i))
  }

  function WordAt(bytes: seq<u8>, i: nat): u64
    requires 8 * i + 8 <= |bytes|
  {
    LeBound(bytes[8 * i..8 * i + 8]);
    BytePow8();
    LeVal(bytes[8 * i..8 * i + 8]) as u64
  }

  function FromWords(words: seq<u64>): (r: seq<u8>)
    ensures |r| == 8 * |words|
  {
    if words == [] then [] else LeBytes(words[0] as int, 8) + FromWords(words[1..])
  }

  function FirstBlock(blake: (nat, seq<u8>) -> seq<u8>, h0: seq<u8>, index: nat): Block
    requires IsHash(blake)
  {
    HPrimeLength(blake, h0 + LeBytes(index, 4) + LeBytes(0, 4), 1024);
    ToBlock(HPrime(blake, h0 + LeBytes(index, 4) + LeBytes(0, 4), 1024))
  }

  ghost function Spec(blake: (nat, seq<u8>) -> seq<u8>, mix: (Block, Block) -> Block,
                      password: seq<u8>, salt: seq<u8>, params: Params): Result
    requires IsHash(blake)
  {
    if Refused(params, salt) then InvalidParams
    else
      var e := EnvOf(mix, params);
      var h0 := blake(64, H0Input(password, salt, params));
      var start := [FirstBlock(blake, h0, 0), FirstBlock(blake, h0, 1)] + seq(4 * e.seg - 2, _ => ZERO_BLOCK);
      var memory := FillPasses(e, start, e.passes);
      Ok(HPrime(blake, FromWords(memory[4 * e.seg - 1]), params.outputLen))
  }

  /** The memory is rounded down to a multiple of four blocks. */
  function EnvOf(mix: (Block, Block) -> Block, params: Params): (e: Env)
    requires params.memoryKib >= 8 && params.passes >= 1
    ensures EnvOk(e)
  {
    Env(mix, params.memoryKib as int / 4, params.passes as int)
  }

  /** Derive a key from a password with Argon2id, single lane. */
  method Argon2id(blake: (nat, seq<u8>) -> seq<u8>, mix: (Block, Block) -> Block,
                  password: seq<u8>, salt: seq<u8>, params: Params) returns (r: Result)
    requires IsHash(blake)
    ensures r == Spec(blake, mix, password, salt, params)
    ensures r.Ok? ==> |r.key| == params.outputLen
    ensures r == InvalidParams
       <==> params.memoryKib < 8 || params.passes == 0 || params.outputLen < 4 || |salt| < 8
  {
    hide FillPasses, HPrime, H0Input, FromWords, FirstBlock, IsHash;
    if params.memoryKib < 8 || params.passes == 0 || params.outputLen < 4 || |salt| < 8 {
      return InvalidParams;
    }
    var blocks := (params.memoryKib / 4) * 4;
    var e := EnvOf(mix, params);
    var h0 := blake(64, H0Input(password, salt, params));
    var memory := new Block[blocks as int](_ => ZERO_BLOCK);
    for index := 0 to 2
      invariant forall k :: 0 <= k < index ==> memory[k] == FirstBlock(blake, h0, k)
      invariant forall k :: index <= k < memory.Length ==> memory[k] == ZERO_BLOCK
    {
      memory[index] := FirstBlock(blake, h0, index);
    }
    assert memory[..] == [FirstBlock(blake, h0, 0), FirstBlock(blake, h0, 1)] + seq(4 * e.seg - 2, _ => ZERO_BLOCK);
    ghost var log := Fill(e, memory);
    var key := HashPrime(blake, FromWords(memory[4 * e.seg - 1]), params.outputLen);
    return Ok(key);
  }

  // ---------------------------------------------------------------------------
  // The standard's own words
  // ---------------------------------------------------------------------------

  lemma XorBlocksMeaning(a: Block, b: Block)
    ensures forall i :: 0 <= i < 128 ==> XorBlocks(a, b)[i] as int == Xor(a[i] as int, b[i] as int)
  {
    hide Xor;
  }

  /** The address input word by word: pass, lane 0, slice, blocks, passes, type 2, counter, then zeros. */
  lemma AddressMeaning(e: Env, pass: nat, slice: nat, counter: u64, i: nat)
    requires EnvOk(e) && pass < e.passes && slice < 4 && i < 128
    ensures var a := AddressInput(e, pass, slice, counter);
      && a[0] as int == pass && a[1] == 0 && a[2] as int == slice && a[3] as int == 4 * e.seg
      && a[4] as int == e.passes && a[5] == 2 && a[6] == counter && (i >= 7 ==> a[i] == 0)
  {
  }

  /**
   The first hash input field by field: one lane, output length, memory, passes, version
   0x13, type 2, then password and salt behind their lengths, and two empty strings.
   */
  lemma H0Meaning(password: seq<u8>, salt: seq<u8>, params: Params)
    ensures var h, n, m := H0Input(password, salt, params), |password|, |salt|;
      && |h| == 40 + n + m
      && LeVal(h[0..4]) == 1 && LeVal(h[4..8]) == params.outputLen % 0x1_0000_0000
      && LeVal(h[8..12]) == params.memoryKib as int && LeVal(h[12..16]) == params.passes as int
      && LeVal(h[16..20]) == 0x13 && LeVal(h[20..24]) == 2
      && LeVal(h[24..28]) == n % 0x1_0000_0000 && h[28..28 + n] == password
      && LeVal(h[28 + n..32 + n]) == m % 0x1_0000_0000 && h[32 + n..32 + n + m] == salt
      && LeVal(h[32 + n + m..36 + n + m]) == 0 && LeVal(h[36 + n + m..]) == 0
  {
    hide LeVal, LeBytes;
    FourBytes(1);
    FourBytes(params.outputLen);
    FourBytes(params.memoryKib as int);
    FourBytes(params.passes as int);
    FourBytes(0x13);
    FourBytes(2);
    FourBytes(|password|);
    FourBytes(|salt|);
    FourBytes(0);
    var front := LeBytes(1, 4) + LeBytes(params.outputLen, 4) + LeBytes(params.memoryKib as int, 4)
        + LeBytes(params.passes as int, 4) + LeBytes(0x13, 4) + LeBytes(2, 4);
    Slices(front, LeBytes(|password|, 4), password, LeBytes(|salt|, 4), salt, LeBytes(0, 4), LeBytes(0, 4));
    assert H0Input(password, salt, params)
        == front + LeBytes(|password|, 4) + password + LeBytes(|salt|, 4) + salt + LeBytes(0, 4) + LeBytes(0, 4);
    var h := H0Input(password, salt, params);
    assert h[..24] == front;
    FrontSlices(h, LeBytes(1, 4), LeBytes(params.outputLen, 4), LeBytes(params.memoryKib as int, 4),
                LeBytes(params.passes as int, 4), LeBytes(0x13, 4), LeBytes(2, 4));
  }

  lemma FourBytes(n: int)
    requires n >= 0
    ensures LeVal(LeBytes(n, 4)) == n % 0x1_0000_0000
  {
    hide LeVal, LeBytes;
    LowBytes(n);
    assert BytePow(4) == 0x1_0000_0000;
    LeValOfBytes(n % 0x1_0000_0000, 4);
  }

  /** Four bytes hold a number modulo 2^32. */
  lemma LowBytes(n: int)
    requires n >= 0
    ensures LeBytes(n, 4) == LeBytes(n % 0x1_0000_0000, 4)
  {
    hide *;
    LowPowers();
    LowByte(n, 0, 1, 0x1_0000_0000);
    LowByte(n, 1, 0x100, 0x100_0000);
    LowByte(n, 2, 0x1_0000, 0x1_0000);
    LowByte(n, 3, 0x100_0000, 0x100);
  }

  lemma LowByte(n: int, i: nat, w: int, c: int)
    requires n >= 0 && i < 4 && BytePow(i) == w && w * c == 0x1_0000_0000 && w > 0 && c > 0 && c % 0x100 == 0
    ensures LeBytes(n, 4)[i] == LeBytes(n % 0x1_0000_0000, 4)[i]
  {
    hide *;
    LeByteAt(n, 4, i);
    LeByteAt(n % 0x1_0000_0000, 4, i);
    LowDigit(n, w, c);
  }

  lemma LowPowers()
    ensures BytePow(0) == 1 && BytePow(1) == 0x100 && BytePow(2) == 0x1_0000 && BytePow(3) == 0x100_0000
  {
  }

  lemma LowDigit(n: int, w: int, c: int)
    requires n >= 0 && w > 0 && c > 0 && c % 0x100 == 0
    ensures n / w % 0x100 == n % (w * c) / w % 0x100
  {
    var q, m := n / (w * c), n % (w * c);
    assert n == (q * c) * w + m by {
      MulAssoc(q, c, w);
    }
    DivModOf(n, w, q * c + m / w, m % w);
    var k := c / 0x100;
    assert q * c == 0x100 * (q * k);
    SameRemainder(q * c + m / w, m / w, q * k, 0x100);
  }

  lemma Slices(front: seq<u8>, a: seq<u8>, p: seq<u8>, b: seq<u8>, s: seq<u8>, c: seq<u8>, d: seq<u8>)
    requires |front| == 24 && |a| == |b| == |c| == |d| == 4
    ensures var h, n, m := front + a + p + b + s + c + d, |p|, |s|;
      && |h| == 40 + n + m && h[24..28] == a && h[28..28 + n] == p && h[28 + n..32 + n] == b
      && h[32 + n..32 + n + m] == s && h[32 + n + m..36 + n + m] == c && h[36 + n + m..] == d
  {
  }

  lemma FrontSlices(h: seq<u8>, a: seq<u8>, b: seq<u8>, c: seq<u8>, d: seq<u8>, e: seq<u8>, f: seq<u8>)
    requires |h| >= 24 && |a| == |b| == |c| == |d| == |e| == |f| == 4 && h[..24] == a + b + c + d + e + f
    ensures h[0..4] == a && h[4..8] == b && h[8..12] == c && h[12..16] == d && h[16..20] == e && h[20..24] == f
  {
    var t := h[..24];
    assert h[0..4] == t[0..4] && h[4..8] == t[4..8] && h[8..12] == t[8..12];
    assert h[12..16] == t[12..16] && h[16..20] == t[16..20] && h[20..24] == t[20..24];
  }

  /**
   The long hash: a short output is one hash of the length and the input, a long one is
   first halves and a last whole.
   */
  lemma HPrimeMeaning(blake: (nat, seq<u8>) -> seq<u8>, input: seq<u8>, length: nat, i: nat)
    requires IsHash(blake)
    ensures var first := LeBytes(length, 4) + input;
      && (length <= 64 ==> HPrime(blake, input, length) == blake(length, first))
      && (length > 64 ==>
            var r := (length + 31) / 32 - 2;
            && |HPrime(blake, input, length)| == length
            && HPrime(blake, input, length)[32 * r..] == blake(length - 32 * r, Chain(blake, first, r - 1))
            && (i < r ==> HPrime(blake, input, length)[32 * i..32 * i + 32] == Chain(blake, first, i)[..32]))
      && Chain(blake, first, 0) == blake(64, first) && Chain(blake, first, i + 1) == blake(64, Chain(blake, first, i))
  {
    hide LeBytes, IsHash, Halves;
    var first := LeBytes(length, 4) + input;
    ChainLength(blake, first, 0);
    if length > 64 {
      var r := (length + 31) / 32 - 2;
      HPrimeLength(blake, input, length);
      HalvesLength(blake, first, r);
      if i < r {
        HalfAt(blake, first, r, i);
      }
    }
  }

  lemma {:induction false} HalfAt(blake: (nat, seq<u8>) -> seq<u8>, first: seq<u8>, r: nat, i: nat)
    requires IsHash(blake) && i < r
    ensures |Halves(blake, first, r)| == 32 * r && |Chain(blake, first, i)| == 64
    ensures Halves(blake, first, r)[32 * i..32 * i + 32] == Chain(blake, first, i)[..32]
    decreases r
  {
    HalvesLength(blake, first, r);
    HalvesLength(blake, first, r - 1);
    ChainLength(blake, first, i);
    ChainLength(blake, first, r - 1);
    if i < r - 1 {
      HalfAt(blake, first, r - 1, i);
      var front := Halves(blake, first, r - 1);
      assert Halves(blake, first, r)[32 * i..32 * i + 32] == front[32 * i..32 * i + 32];
    }
  }

  /** Word i of a block is its bytes 8 i to 8 i + 7, little-endian, both ways. */
  lemma {:induction false} WordsMeaning(words: seq<u64>, i: nat)
    requires i < |words|
    ensures FromWords(words)[8 * i..8 * i + 8] == LeBytes(words[i] as int, 8)
  {
    hide LeBytes;
    if i > 0 {
      WordsMeaning(words[1..], i - 1);
      var t := FromWords(words[1..]);
      assert FromWords(words)[8 * i..8 * i + 8] == t[8 * (i - 1)..8 * (i - 1) + 8];
    }
  }

  lemma BlockWords(bytes: seq<u8>, i: nat)
    requires |bytes| == 1024 && i < 128
    ensures ToBlock(bytes)[i] as int == LeVal(bytes[8 * i..8 * i + 8])
  {
    hide LeVal;
  }

  /**
   The key is the long hash of the last block of the filled memory, whose first two blocks
   hash H0, the index and lane 0.
   */
  lemma KeyMeaning(blake: (nat, seq<u8>) -> seq<u8>, mix: (Block, Block) -> Block,
                   password: seq<u8>, salt: seq<u8>, params: Params)
    requires IsHash(blake) && params.memoryKib >= 8 && params.passes >= 1 && params.outputLen >= 4 && |salt| >= 8
    ensures var seg := params.memoryKib as int / 4;
      var e := Env(mix, seg, params.passes as int);
      var h0 := blake(64, H0Input(password, salt, params));
      var b0, b1 := HPrime(blake, h0 + [0, 0, 0, 0, 0, 0, 0, 0],
                           1024), HPrime(blake, h0 + [1, 0, 0, 0, 0, 0, 0, 0], 1024);
      && |b0| == |b1| == 1024
      && Spec(blake, mix, password, salt, params)
         == Ok(HPrime(blake,
                      FromWords(FillPasses(e, [ToBlock(b0), ToBlock(b1)] + seq(4 * seg - 2, _ => ZERO_BLOCK),
                                           params.passes as int)[4 * seg - 1]),
                      params.outputLen))
  {
    hide HPrime, H0Input, FillPasses, FromWords, IsHash, ToBlock;
    var h0 := blake(64, H0Input(password, salt, params));
    SmallIndexes();
    assert h0 + LeBytes(0, 4) + LeBytes(0, 4) == h0 + [0, 0, 0, 0, 0, 0, 0, 0];
    assert h0 + LeBytes(1, 4) + LeBytes(0, 4) == h0 + [1, 0, 0, 0, 0, 0, 0, 0];
    HPrimeLength(blake, h0 + LeBytes(0, 4) + LeBytes(0, 4), 1024);
    HPrimeLength(blake, h0 + LeBytes(1, 4) + LeBytes(0, 4), 1024);
  }

  lemma SmallIndexes()
    ensures LeBytes(0, 4) == [0, 0, 0, 0] && LeBytes(1, 4) == [1, 0, 0, 0]
  {
    assert LeBytes(0, 1) == [0];
    assert LeBytes(0, 2) == [0, 0];
    assert LeBytes(0, 3) == [0, 0, 0];
  }
}
