/**
 * The streaming SHA-256 of chainrand.js:40-233 (js-sha256 0.9.0): a closure whose variables
 * `_h0.._h7`, `_blocks`, `_block`, `_start`, `_bytes`, `_hBytes`, `_hashed`, `_first` and
 * `_lastByteIndex` are updated in place by `update`, `finalize` and `hash`. Here they are the fields
 * of a Hasher object, and every method is proved against the byte-level definitions of Sha256Spec.
 */
module Sha256 {
  import opened Sha256Spec
  import opened Sha256Blocks
  import Utf8

  /** The working variables after round t + 1 are one Round past those after round t. */
  lemma RoundsStep(H: seq<bv32>, W: seq<bv32>, t: nat)
    requires |H| == 8 && |W| == 64 && t < 64
    ensures RoundsUpTo(H, W, t + 1) == Round(RoundsUpTo(H, W, t), K[t], W[t])
  {
  }

  /** A round whose T1 and T2 are already known. */
  lemma RoundFromParts(s: Regs, k: bv32, w: bv32, t1: bv32, t2: bv32)
    requires T1(s, k, w) == t1 && T2(s) == t2
    ensures Round(s, k, w) == Regs(Add(t1, t2), s.a, s.b, s.c, Add(s.d, t1), s.e, s.f, s.g)
  {
  }

  // The constants the first round folds in (chainrand.js:156-161), each fact on its own.

  lemma FirstT1Prefix(e: bv32, f: bv32, g: bv32, h: bv32, k: bv32)
    requires e == 0x510e527f && f == 0x9b05688c && g == 0x1f83d9ab && h == 0x5be0cd19
    requires k == 0x428a2f98
    ensures Add(Add(Add(h, BigSigma1(e)), Ch(e, f, g)), k) == 0 - 210244248
  {
  }

  lemma FirstT2(a: bv32, b: bv32, c: bv32)
    requires a == 0x6a09e667 && b == 0xbb67ae85 && c == 0x3c6ef372
    ensures Add(BigSigma0(a), Maj(a, b, c)) == 143694565
    ensures a & b == 704751109
  {
  }

  /** T1 and T2 of round 0 from H(0), with the constants of H(0) and K0 folded in. */
  lemma FirstTemporaries(s: Regs, w: bv32)
    requires s == Init(IV)
    ensures s.a & s.b == 704751109
    ensures T1(s, K[0], w) == w - 210244248
    ensures T2(s) == 143694565
    ensures s.d == 0xa54ff53a
  {
    assert s.a == 0x6a09e667 && s.b == 0xbb67ae85 && s.c == 0x3c6ef372 && s.d == 0xa54ff53a;
    assert s.e == 0x510e527f && s.f == 0x9b05688c && s.g == 0x1f83d9ab && s.h == 0x5be0cd19;
    assert K[0] == 0x428a2f98;
    FirstT1Prefix(s.e, s.f, s.g, s.h, K[0]);
    FirstT2(s.a, s.b, s.c);
  }

  /** The working variables after round t + 1, given those after round t and that round's T1 and T2. */
  lemma RoundAt(H: seq<bv32>, W: seq<bv32>, t: nat, s: Regs, t1: bv32, t2: bv32)
    requires |H| == 8 && |W| == 64 && t < 64
    requires RoundsUpTo(H, W, t) == s && T1(s, K[t], W[t]) == t1 && T2(s) == t2
    ensures RoundsUpTo(H, W, t + 1) == Regs(Add(t1, t2), s.a, s.b, s.c, Add(s.d, t1), s.e, s.f, s.g)
  {
    RoundFromParts(s, K[t], W[t], t1, t2);
  }

  /** Maj with two of its three conjunctions taken from the previous round (chainrand.js:165-166, 175-176). */
  lemma MajCached(x: bv32, y: bv32, z: bv32, xy: bv32, yz: bv32)
    requires xy == x & y && yz == y & z
    ensures xy ^ (x & z) ^ yz == Maj(x, y, z)
  {
  }

  /**
   * Round t as the unrolled loop of chainrand.js:163-199 writes it. The caller passes the
   * working variables in their current roles, and `yz` is y & z, which the round before computed.
   * The round returns x & y for the round after it, the new a (stored in d's variable) and the new
   * e (stored in h's variable): the other variables keep their values and only change roles.
   */
  method RoundStep(ghost H: seq<bv32>, ghost W: seq<bv32>, ghost t: nat,
                   x: bv32, y: bv32, z: bv32, u: bv32, p: bv32, q: bv32, r: bv32, v: bv32,
                   yz: bv32, k: bv32, w: bv32) returns (xy: bv32, a': bv32, e': bv32)
    requires |H| == 8 && |W| == 64 && t < 64 && k == K[t] && w == W[t]
    requires Regs(x, y, z, u, p, q, r, v) == RoundsUpTo(H, W, t)
    requires yz == y & z
    ensures xy == x & y
    ensures Regs(a', x, y, z, e', p, q, r) == RoundsUpTo(H, W, t + 1)
  {
    var s0 := BigSigma0(x);
    var s1 := BigSigma1(p);
    xy := x & y;
    var maj := xy ^ (x & z) ^ yz;
    var ch := Ch(p, q, r);
    var t1 := Add(Add(Add(Add(v, s1), ch), k), w);
    var t2 := Add(s0, maj);
    MajCached(x, y, z, xy, yz);
    RoundAt(H, W, t, Regs(x, y, z, u, p, q, r, v), t1, t2);
    e' := Add(u, t1);
    a' := Add(t1, t2);
  }

  /** Adding the constant d of H(0) is the subtraction the source writes (chainrand.js:159). */
  lemma AddInitialD(d: bv32, t1: bv32)
    requires d == 0xa54ff53a
    ensures Add(d, t1) == t1 - 1521486534
  {
  }

  /** The working variables after round 0 from H(0), with T1 and T2 folded into constants. */
  lemma FirstRoundRegs(H: seq<bv32>, W: seq<bv32>, w: bv32, t1: bv32)
    requires H == IV && |W| == 64 && w == W[0] && t1 == w - 210244248
    ensures H[0] & H[1] == 704751109
    ensures RoundsUpTo(H, W, 1) == Regs(t1 + 143694565, H[0], H[1], H[2], t1 - 1521486534, H[4], H[5], H[6])
  {
    var s := Init(H);
    FirstTemporaries(s, w);
    RoundAt(H, W, 0, s, t1, 143694565);
    AddInitialD(s.d, t1);
  }

  /**
   * Round 0 of the first compression (chainrand.js:156-161): with the working variables at H(0),
   * T1 is the schedule word minus a constant, the new a and e are T1 plus constants, and a & b is
   * a constant too.
   */
  method FirstStep(ghost H: seq<bv32>, ghost W: seq<bv32>, w: bv32) returns (ab: bv32, a': bv32, e': bv32)
    requires H == IV && |W| == 64 && w == W[0]
    ensures ab == H[0] & H[1]
    ensures Regs(a', H[0], H[1], H[2], e', H[4], H[5], H[6]) == RoundsUpTo(H, W, 1)
  {
    ab := 704751109;
    var t1 := w - 210244248;
    e' := t1 - 1521486534;
    a' := t1 + 143694565;
    FirstRoundRegs(H, W, w, t1);
  }

  /**
   * One pass of the unrolled loop of chainrand.js:155-200: rounds t .. t + 3, with the working
   * variables rotating through the local names. `bc` is b & c, carried over from the pass before;
   * the first round of the first compression takes the shortcut of FirstStep.
   */
  method FourRounds(ghost H: seq<bv32>, ghost W: seq<bv32>, t: nat, first: bool,
                    a: bv32, b: bv32, c: bv32, d: bv32, e: bv32, f: bv32, g: bv32, h: bv32, bc: bv32,
                    w0: bv32, w1: bv32, w2: bv32, w3: bv32)
    returns (a': bv32, b': bv32, c': bv32, d': bv32, e': bv32, f': bv32, g': bv32, h': bv32, bc': bv32)
    requires |H| == 8 && |W| == 64 && t + 4 <= 64
    requires w0 == W[t] && w1 == W[t + 1] && w2 == W[t + 2] && w3 == W[t + 3]
    requires Regs(a, b, c, d, e, f, g, h) == RoundsUpTo(H, W, t)
    requires bc == b & c
    requires first ==> t == 0 && H == IV
    ensures Regs(a', b', c', d', e', f', g', h') == RoundsUpTo(H, W, t + 4)
    ensures bc' == b' & c'
  {
    var ab, da, cd;
    d', h' := d, h;
    if first {
      ab, d', h' := FirstStep(H, W, w0);
    } else {
      ab, d', h' := RoundStep(H, W, t, a, b, c, d, e, f, g, h, bc, K[t], w0);
    }
    da, c', g' := RoundStep(H, W, t + 1, d', a, b, c, h', e, f, g, ab, K[t + 1], w1);
    cd, b', f' := RoundStep(H, W, t + 2, c', d', a, b, g', h', e, f, da, K[t + 2], w2);
    bc', a', e' := RoundStep(H, W, t + 3, b', c', d', a, f', g', h', e, cd, K[t + 3], w3);
  }

  /**
   * The length words of chainrand.js:136-137, `_hBytes << 3 | _bytes >>> 29` and `_bytes << 3`,
   * written as the arithmetic they perform on 32-bit words: the high and the low word of the bit
   * length of a message of L = hBytes * 2^32 + bytes bytes.
   */
  method BitLength(hBytes: nat, bytes: nat, ghost L: nat) returns (hi: bv32, lo: bv32)
    requires L == hBytes * 0x1_0000_0000 + bytes
    ensures hi == LengthHigh(L) && lo == LengthLow(L)
  {
    hi := ((hBytes * 8 + bytes / 0x2000_0000) % 0x1_0000_0000) as bv32;
    lo := ((bytes * 8) % 0x1_0000_0000) as bv32;
    LengthWords(hBytes, bytes);
  }

  /** The compression function is the hash value plus the registers after the 64 rounds. */
  lemma CompressOf(H: seq<bv32>, m: seq<bv32>, W: seq<bv32>, r: Regs)
    requires |H| == 8 && |m| == 16 && W == Schedule(m) && r == RoundsUpTo(H, W, 64)
    ensures Compress(H, m) == [Add(H[0], r.a), Add(H[1], r.b), Add(H[2], r.c), Add(H[3], r.d),
                               Add(H[4], r.e), Add(H[5], r.f), Add(H[6], r.g), Add(H[7], r.h)]
  {
  }

  /**
   * h is the hash value of the whole blocks x. The equation is stated under a quantifier whose
   * trigger is the HashBytes term, so that the verifier expands the hash function only in the
   * proofs that name it.
   */
  ghost predicate HashOf(h: seq<bv32>, x: seq<bv8>) {
    forall y {:trigger HashBytes(IV, y)} :: y == x && |y| % 64 == 0 ==> h == HashBytes(IV, y)
  }

  /** Before any block is compressed the hash value is H(0). */
  lemma HashOfEmpty(h: seq<bv32>)
    requires HashOf(h, [])
    ensures h == IV
  {
    assert h == HashBytes(IV, []);
  }

  /** The hash value of d followed by one block, read back from HashOf. */
  lemma HashOfBlocks(h: seq<bv32>, d: seq<bv8>, lb: seq<bv8>)
    requires |d| % 64 == 0 && |lb| == 64 && HashOf(h, d + lb[..64])
    ensures |d + lb| % 64 == 0 && h == HashBytes(IV, d + lb)
  {
    assert lb[..64] == lb;
    NextBlockLength(|d|);
  }

  /**
   * Compressing the block of the pending bytes p, whose first 16 words are ws, into the hash value
   * of the blocks before them gives the hash value of those blocks followed by this one.
   */
  lemma HashOfStep(h: seq<bv32>, done: seq<bv8>, p: seq<bv8>, ws: seq<bv32>)
    requires |h| == 8 && |done| % 64 == 0 && HashOf(h, done) && |p| >= 64 && |ws| == 16
    requires forall w {:trigger WordAt(p, w)} :: 0 <= w < 16 ==> ws[w] == WordAt(p, w)
    ensures HashOf(Compress(h, ws), done + p[..64])
  {
    assert h == HashBytes(IV, done);
    CompressPending(done, p, ws);
  }

  /** Serializing from position k on is word k's bytes followed by the rest. */
  lemma SerializeAt(H: seq<bv32>, k: nat)
    requires k < |H|
    ensures Serialize(H[k..]) == WordBytes(H[k]) + Serialize(H[k + 1..])
  {
    assert H[k..][1..] == H[k + 1..];
  }

  /** Four words from position k on, unrolled. */
  lemma SerializeFour(H: seq<bv32>, k: nat)
    requires k + 4 <= |H|
    ensures Serialize(H[k..]) == WordBytes(H[k]) + (WordBytes(H[k + 1]) + (WordBytes(H[k + 2])
                                 + (WordBytes(H[k + 3]) + Serialize(H[k + 4..]))))
  {
    SerializeAt(H, k + 3);
    SerializeAt(H, k + 2);
    SerializeAt(H, k + 1);
    SerializeAt(H, k);
  }

  /** The digest of eight words is their 32 bytes, word by word, as `digest` lists them. */
  lemma SerializeEight(H: seq<bv32>)
    requires |H| == 8
    ensures Serialize(H) == WordBytes(H[0]) + (WordBytes(H[1]) + (WordBytes(H[2]) + (WordBytes(H[3])
                            + (WordBytes(H[4]) + (WordBytes(H[5]) + (WordBytes(H[6]) + WordBytes(H[7])))))))
  {
    assert H[0..] == H && H[8..] == [];
    SerializeFour(H, 4);
    assert WordBytes(H[7]) + [] == WordBytes(H[7]);
    SerializeFour(H, 0);
  }

  /**
   * The state of one call of the source's `sha256` function. `h` holds `_h0.._h7`, `blocks` is
   * `_blocks` (created with 17 words, it grows to the 64 of the message schedule on the first
   * compression, so it is allocated with 64 here), and the other fields carry the source's names.
   * The ghost fields are the model: `done` is the bytes already compressed into `h` and `pending`
   * the bytes fed in since.
   */
  class Hasher {
    var h: seq<bv32>
    const blocks: array<bv32>
    var block: bv32
    var start: nat
    var bytes: nat
    var hBytes: nat
    var hashed: bool
    var first: bool
    var lastByteIndex: nat
    ghost var done: seq<bv8>
    ghost var pending: seq<bv8>

    /** Every byte fed in so far. */
    ghost function Msg(): seq<bv8>
      reads this`done, this`pending
    {
      done + pending
    }

    /** `h` is the hash value of the whole blocks compressed so far; `_first` says there are none. */
    ghost predicate Digested()
      reads this`h, this`done, this`first
    {
      |h| == 8 && |done| % 64 == 0 && HashOf(h, done) && first == (done == [])
    }

    /** `_hBytes` and `_bytes` count the bytes fed in, the high part in units of 2^32. */
    ghost predicate Counted()
      reads this`hBytes, this`bytes, this`done, this`pending
    {
      hBytes * 0x1_0000_0000 + bytes == |done| + |pending|
    }

    /**
     * Where the pending bytes are: fewer than 4 right after a compression, when they are the bytes
     * that overflowed into word 16 and `_block` holds them; otherwise fewer than 64, in words
     * 0..16 of `blocks`, with zeros after them.
     */
    ghost predicate Buffered()
      reads this, blocks
    {
      && blocks.Length == 64
      && (hashed ==> |pending| == start < 4 && block == WordAt(pending, 0))
      && (!hashed ==> |pending| == start < 64 && block == 0 && forall w {:trigger WordAt(pending, w)} :: 0 <= w < 17 ==> blocks[w] == WordAt(pending, w))
    }

    /**
     * After a pass of the encoding loop: the i pending bytes, more than at the start of the pass
     * and at most 67, are in words 0..16 of `blocks`.
     */
    ghost predicate Filled(i: nat)
      reads this, blocks
    {
      && blocks.Length == 64 && !hashed && block == 0
      && i == |pending| < 68 && start < i
      && forall w {:trigger WordAt(pending, w)} :: 0 <= w < 17 ==> blocks[w] == WordAt(pending, w)
    }

    /**
     * The invariant between calls. Besides the above, `_lastByteIndex` is where the last pass of
     * `update` stopped (64 past the start of the pending bytes when that pass overflowed), and
     * `_bytes` is below 2^32 because `update` carries the excess into `_hBytes`.
     */
    ghost predicate Valid()
      reads this, blocks
    {
      && Digested() && Counted() && Buffered()
      && lastByteIndex == (if hashed then start + 64 else start)
      && bytes < 0x1_0000_0000
    }

    /** The initial state of chainrand.js:58-73: H(0), an empty buffer, no bytes. */
    constructor ()
      ensures Valid() && Msg() == []
      ensures fresh(blocks)
    {
      h := IV;
      blocks := new bv32[64](_ => 0);
      block, start, bytes, hBytes := 0, 0, 0, 0;
      hashed, first := false, true;
      lastByteIndex := 0;
      done, pending := [], [];
      new;
      forall w | 0 <= w < 17
        ensures blocks[w] == WordAt(pending, w)
      {
        WordPastEnd(pending, w);
      }
    }

    /** `blocks[i >> 2] |= b << SHIFT[i & 3]` for the next byte b of the message (chainrand.js:89-102). */
    method Put(i: nat, b: bv8) returns (i': nat)
      requires blocks.Length == 64 && i == |pending| < 68
      requires forall w {:trigger WordAt(pending, w)} :: 0 <= w < 17 ==> blocks[w] == WordAt(pending, w)
      modifies this`pending, blocks
      ensures i' == i + 1 && pending == old(pending) + [b]
      ensures forall w {:trigger WordAt(pending, w)} :: 0 <= w < 17 ==> blocks[w] == WordAt(pending, w)
    {
      ghost var ws := blocks[..17];
      blocks[i / 4] := blocks[i / 4] | ShiftIn(b as bv32, i % 4);
      PutWords(pending, b, ws, blocks[..17]);
      pending := pending + [b];
      i' := i + 1;
    }

    /**
     * The start of an outer pass of `update` after a compression (chainrand.js:79-84): the word
     * that overflowed becomes word 0 and the rest of the buffer is cleared. `_block` is cleared
     * too; chainrand.js leaves it as it is (see StaleBlockExample).
     */
    method Refill()
      requires Buffered() && hashed
      modifies this`hashed, this`block, blocks
      ensures Buffered() && !hashed
    {
      hashed := false;
      ResetBlocks(block);
      block := 0;
      forall w | 1 <= w < 17
        ensures blocks[w] == WordAt(pending, w)
      {
        WordPastEnd(pending, w);
      }
    }

    /** `blocks[0] = x` and zeros in words 1..16 (chainrand.js:81-83 and 132-134). */
    method ResetBlocks(x: bv32)
      requires blocks.Length == 64
      modifies blocks
      ensures blocks[0] == x && forall w :: 1 <= w < 17 ==> blocks[w] == 0
    {
      blocks[0] := x;
      var i := 1;
      while i < 17
        invariant 1 <= i <= 17
        invariant blocks[0] == x
        invariant forall w :: 1 <= w < i ==> blocks[w] == 0
      {
        blocks[i] := 0;
        i := i + 1;
      }
    }

    /**
     * One step of the inner loop of `update` (chainrand.js:87-103): the UTF-8 bytes of the character
     * at `index`, one to four of them by the branches of Utf8.CharBytes, go into the buffer, and
     * the loop moves past the character (two code units for a surrogate pair).
     */
    method PutChar(message: seq<bv16>, index: nat, i: nat) returns (index': nat, i': nat)
      requires blocks.Length == 64 && index < |message| && i == |pending| < 64
      requires forall w {:trigger WordAt(pending, w)} :: 0 <= w < 17 ==> blocks[w] == WordAt(pending, w)
      modifies this`pending, blocks
      ensures pending == old(pending) + Utf8.CharBytes(message, index) && i < i' == |pending| < 68
      ensures index' == index + Utf8.Width(message, index)
      ensures pending + Utf8.EncodeFrom(message, index') == old(pending) + Utf8.EncodeFrom(message, index)
      ensures forall w {:trigger WordAt(pending, w)} :: 0 <= w < 17 ==> blocks[w] == WordAt(pending, w)
    {
      var code := Utf8.CharBytes(message, index);
      ghost var p := pending;
      var k := 0;
      i' := i;
      while k < |code|
        invariant 0 <= k <= |code| && i' == |pending| == |p| + k
        invariant pending == p + code[..k]
        invariant forall w {:trigger WordAt(pending, w)} :: 0 <= w < 17 ==> blocks[w] == WordAt(pending, w)
      {
        i' := Put(i', code[k]);
        k := k + 1;
      }
      assert code[..k] == code;
      index' := index + Utf8.Width(message, index);
      Utf8.EncodeFromStep(message, index);
      Regroup(p, code, Utf8.EncodeFrom(message, index'));
    }

    /**
     * The inner loop of `update` (chainrand.js:86-104): appends the UTF-8 bytes of the characters
     * from `index` on to the pending bytes until the message ends or the block is full. A lone
     * high surrogate at the end reads 0 as its low half, and `index` then ends one past the length.
     */
    method Fill(message: seq<bv16>, index: nat) returns (index': nat, i: nat)
      requires Buffered() && !hashed && index < |message|
      modifies this`pending, blocks
      ensures Filled(i)
      ensures index < index' <= |message| + 1 && (index' >= |message| || i >= 64)
      ensures pending + Utf8.EncodeFrom(message, index') == old(pending) + Utf8.EncodeFrom(message, index)
    {
      index', i := index, start;
      while index' < |message| && i < 64
        invariant index <= index' <= |message| + 1
        invariant i == |pending| < 68 && start <= i
        invariant index' == index || start < i
        invariant forall w {:trigger WordAt(pending, w)} :: 0 <= w < 17 ==> blocks[w] == WordAt(pending, w)
        invariant pending + Utf8.EncodeFrom(message, index') == old(pending) + Utf8.EncodeFrom(message, index)
        decreases |message| - index'
      {
        index', i := PutChar(message, index', i);
      }
    }

    /**
     * `hash()` on a full buffer: the first 64 pending bytes are compressed into `h` and the rest,
     * the bytes that overflowed into word 16, stay pending.
     */
    method CompressBlock()
      requires Digested() && blocks.Length == 64 && |pending| >= 64
      requires forall w {:trigger WordAt(pending, w)} :: 0 <= w < 17 ==> blocks[w] == WordAt(pending, w)
      modifies this`h, this`first, blocks, this`done, this`pending
      ensures Digested() && done + pending == old(done) + old(pending) && pending == old(pending)[64..]
    {
      CompressWords(done, pending);
      done, pending := done + pending[..64], pending[64..];
      assert done + pending == old(done) + old(pending);
    }

    /**
     * `hash()` on a buffer holding the first 16 words of x, when h is the hash value of the whole
     * blocks d: afterwards h is the hash value of d followed by the first block of x.
     */
    method CompressWords(ghost d: seq<bv8>, ghost x: seq<bv8>)
      requires |h| == 8 && |d| % 64 == 0 && HashOf(h, d) && (first ==> d == [])
      requires blocks.Length == 64 && |x| >= 64
      requires forall w {:trigger WordAt(x, w)} :: 0 <= w < 16 ==> blocks[w] == WordAt(x, w)
      modifies this`h, this`first, blocks
      ensures |h| == 8 && HashOf(h, d + x[..64]) && !first
    {
      HashOfStep(h, d, x, blocks[..16]);
      if first {
        HashOfEmpty(h);
      }
      Hash();
    }

    /**
     * The end of an outer pass of `update` (chainrand.js:106-115): the pass's bytes are counted,
     * and a full block is compressed, the word that overflowed past it kept in `_block`.
     */
    method EndBlock(i: nat)
      requires Digested() && Filled(i)
      requires hBytes * 0x1_0000_0000 + bytes + (i - start) == |done| + |pending|
      modifies this, blocks
      ensures Digested() && Counted() && Buffered()
      ensures lastByteIndex == (if hashed then start + 64 else start)
      ensures Msg() == old(Msg())
    {
      lastByteIndex := i;
      bytes := bytes + (i - start);
      if i >= 64 {
        block := blocks[16];
        OverflowWord(pending);
        start := i - 64;
        CompressBlock();
        hashed := true;
      } else {
        start := i;
      }
    }

    /**
     * `update` (chainrand.js:75-121): feeds the UTF-8 bytes of a UTF-16 string into the hash, one
     * 64-byte block per pass, and finally carries any excess of `_bytes` over 2^32 into `_hBytes`.
     */
    /**
     * One pass of the outer loop of chainrand.js:78-116: refill the buffer after a compressed
     * block, encode characters into it until it holds 64 bytes or the message ends, and compress
     * it when full.
     */
    method UpdateBlock(message: seq<bv16>, index: nat) returns (index': nat)
      requires Digested() && Counted() && Buffered()
      requires lastByteIndex == (if hashed then start + 64 else start)
      requires index < |message|
      modifies this, blocks
      ensures Digested() && Counted() && Buffered()
      ensures lastByteIndex == (if hashed then start + 64 else start)
      ensures index < index' <= |message| + 1
      ensures Msg() + Utf8.EncodeFrom(message, index') == old(Msg()) + Utf8.EncodeFrom(message, index)
    {
      if hashed {
        Refill();
      }
      ghost var d := done;
      var i;
      index', i := Fill(message, index);
      Regroup(d, pending, Utf8.EncodeFrom(message, index'));
      EndBlock(i);
    }

    method Update(message: seq<bv16>)
      requires Valid()
      modifies this, blocks
      ensures Valid()
      ensures Msg() == old(Msg()) + Utf8.Encode(message)
    {
      var index := 0;
      while index < |message|
        invariant Digested() && Counted() && Buffered()
        invariant lastByteIndex == (if hashed then start + 64 else start)
        invariant index <= |message| + 1
        invariant Msg() + Utf8.EncodeFrom(message, index) == old(Msg()) + Utf8.Encode(message)
        decreases |message| + 1 - index
      {
        index := UpdateBlock(message, index);
      }
      if bytes > 0xFFFF_FFFF {
        hBytes := hBytes + bytes / 0x1_0000_0000;
        bytes := bytes % 0x1_0000_0000;
      }
    }

    /**
     * The first three statements of `finalize` (chainrand.js:125-127): the padding byte 0x80 goes
     * after the pending bytes, at byte `_lastByteIndex` of the buffer. After a compression that
     * index is in word 16, which `_block` carries.
     */
    method AppendPadByte() returns (i: nat)
      requires Buffered() && lastByteIndex == (if hashed then start + 64 else start)
      modifies blocks, this`block
      ensures i == lastByteIndex
      ensures hashed ==> block == WordAt(pending + [0x80], 0)
      ensures !hashed ==> block == 0
      ensures !hashed ==> forall w {:trigger WordAt(pending + [0x80], w)} :: 0 <= w < 17 ==> blocks[w] == WordAt(pending + [0x80], w)
    {
      i := lastByteIndex;
      blocks[16] := block;
      if !hashed {
        WordPastEnd(pending, 16);
      }
      ghost var ws := blocks[..17];
      ExtraIsPadByte(i % 4);
      blocks[i / 4] := blocks[i / 4] | EXTRA[i % 4];
      block := blocks[16];
      if hashed {
        assert i / 4 == 16 && i % 4 == |pending| && |pending| / 4 == 0 && |pending| % 4 == |pending|;
        PutByteWord(pending, 0x80, 0);
      } else {
        PutWords(pending, 0x80, ws, blocks[..17]);
      }
    }

    /**
     * The last block (chainrand.js:136-138): words 14 and 15 get the bit length, from `_hBytes` and
     * `_bytes`, and the block is compressed. When words 0..13 hold those of the last 64 bytes lb of
     * the padded message and h is the hash value of the blocks d before it, h becomes the hash
     * value of d + lb.
     */
    method LengthBlock(ghost d: seq<bv8>, ghost lb: seq<bv8>, ghost L: nat)
      requires |h| == 8 && |d| % 64 == 0 && HashOf(h, d) && (first ==> d == [])
      requires blocks.Length == 64 && |lb| == 64 && L == hBytes * 0x1_0000_0000 + bytes
      requires forall w {:trigger WordAt(lb, w)} :: 0 <= w < 14 ==> blocks[w] == WordAt(lb, w)
      requires EndsWithLength(lb, L)
      modifies this`h, this`first, blocks
      ensures |d + lb| % 64 == 0 && h == HashBytes(IV, d + lb)
    {
      var hi, lo := BitLength(hBytes, bytes, L);
      blocks[14] := hi;
      blocks[15] := lo;
      CompressWords(d, lb);
      HashOfBlocks(h, d, lb);
    }

    /**
     * `finalize` (chainrand.js:123-139): append the padding and the length and compress the last
     * one or two blocks. h becomes the hash value of the padded message.
     */
    method Finalize()
      requires Valid()
      modifies this, blocks
      ensures h == HashBytes(IV, Pad(old(Msg())))
    {
      ghost var d, p := done, pending;
      ghost var L := |d| + |p|;
      assert L == hBytes * 0x1_0000_0000 + bytes;
      ghost var T := Tail(d, p);
      var i := AppendPadByte();
      assert pending == p;
      ghost var d', lb := PadBlocks(i, d, p, T);
      LengthBlock(d', lb, L);
    }

    /**
     * The branch of chainrand.js:128-135, after the padding byte is in place. With 56 or more
     * bytes in the buffer the length does not fit: the buffer is compressed (unless that already
     * happened in `update`) and a block of zeros follows, with `_block` as its first word. The
     * result: h is the hash value of d', and words 0..13 of the buffer are those of the last block
     * lb of the padding tail T, with d' + lb == d + T.
     */
    method PadBlocks(i: nat, ghost d: seq<bv8>, ghost p: seq<bv8>, ghost T: seq<bv8>) returns (ghost d': seq<bv8>, ghost lb: seq<bv8>)
      requires |h| == 8 && |d| % 64 == 0 && HashOf(h, d) && (first ==> d == []) && blocks.Length == 64
      requires TailWords(T, p)
      requires hashed ==> |p| < 4 && i >= 64 && block == WordAt(p + [0x80], 0)
      requires !hashed ==> |p| == i < 64 && block == 0
      requires !hashed ==> forall w {:trigger WordAt(p + [0x80], w)} :: 0 <= w < 17 ==> blocks[w] == WordAt(p + [0x80], w)
      modifies this`h, this`first, blocks
      ensures |h| == 8 && |d'| % 64 == 0 && HashOf(h, d') && (first ==> d' == [])
      ensures |lb| == 64 && lb == T[|T| - 64..] && d' + lb == d + T
      ensures forall w {:trigger WordAt(lb, w)} :: 0 <= w < 14 ==> blocks[w] == WordAt(lb, w)
    {
      d', lb := d, T[|T| - 64..];
      if i >= 56 {
        if !hashed {
          CompressWords(d, T);
          d' := d + T[..64];
          assert T == T[..64] + T[64..];
          Regroup(d, T[..64], T[64..]);
        }
        ResetBlocks(block);
      }
    }

    /** The message schedule loop of chainrand.js:145-152, expanding `blocks` in place. */
    method ExpandSchedule()
      requires blocks.Length == 64
      modifies blocks
      ensures blocks[..] == Schedule(old(blocks[..16]))
    {
      ghost var M := blocks[..16];
      var j := 16;
      while j < 64
        invariant 16 <= j <= 64
        invariant blocks[..j] == SchedulePrefix(M, j)
      {
        var t1 := blocks[j - 15];
        var s0 := SmallSigma0(t1);
        t1 := blocks[j - 2];
        var s1 := SmallSigma1(t1);
        blocks[j] := Add(Add(Add(blocks[j - 16], s0), blocks[j - 7]), s1);
        j := j + 1;
      }
      assert blocks[..] == blocks[..64];
    }

    /** The 64 rounds of chainrand.js:154-200 over the expanded schedule in `blocks`. */
    method Rounds() returns (r: Regs)
      requires blocks.Length == 64 && |h| == 8
      requires first ==> h == IV
      modifies this`first
      ensures r == RoundsUpTo(h, blocks[..], 64)
      ensures !first
    {
      ghost var W := blocks[..];
      var a, b, c, d, e, f, g, hh := h[0], h[1], h[2], h[3], h[4], h[5], h[6], h[7];
      var bc := b & c;
      var j := 0;
      ghost var n := 0;
      while j < 64
        invariant j == 4 * n && n <= 16
        invariant Regs(a, b, c, d, e, f, g, hh) == RoundsUpTo(h, W, j)
        invariant bc == b & c
        invariant first ==> j == 0 && h == IV
      {
        a, b, c, d, e, f, g, hh, bc :=
          FourRounds(h, W, j, first, a, b, c, d, e, f, g, hh, bc,
                     blocks[j], blocks[j + 1], blocks[j + 2], blocks[j + 3]);
        first := false;
        j, n := j + 4, n + 1;
      }
      r := Regs(a, b, c, d, e, f, g, hh);
    }

    /** The compression function on the first 16 words of `blocks` (chainrand.js:141-210). */
    method Hash()
      requires blocks.Length == 64 && |h| == 8
      requires first ==> h == IV
      modifies this`h, this`first, blocks
      ensures h == Compress(old(h), old(blocks[..16]))
      ensures blocks[..] == Schedule(old(blocks[..16]))
      ensures !first
    {
      ghost var M := blocks[..16];
      ExpandSchedule();
      var r := Rounds();
      CompressOf(h, M, blocks[..], r);
      h := [Add(h[0], r.a), Add(h[1], r.b), Add(h[2], r.c), Add(h[3], r.d),
            Add(h[4], r.e), Add(h[5], r.f), Add(h[6], r.g), Add(h[7], r.h)];
    }

    /** `digest` (chainrand.js:212-229): finalize, then the eight words as 32 big-endian bytes. */
    method Digest() returns (d: seq<bv8>)
      requires Valid()
      modifies this, blocks
      ensures d == Sha256Spec.Digest(old(Msg()))
    {
      Finalize();
      d := WordBytes(h[0]) + (WordBytes(h[1]) + (WordBytes(h[2]) + (WordBytes(h[3])
           + (WordBytes(h[4]) + (WordBytes(h[5]) + (WordBytes(h[6]) + WordBytes(h[7])))))));
      SerializeEight(h);
    }
  }

  /**
   * `sha256(message)` (chainrand.js:40-233): a fresh state, one `update` with the UTF-16 code
   * units of the message, then `digest`. The result is SHA-256 of the message's UTF-8 bytes.
   */
  method Sha256(message: seq<bv16>) returns (d: seq<bv8>)
    ensures d == Sha256Spec.Digest(Utf8.Encode(message))
  {
    var hasher := new Hasher();
    hasher.Update(message);
    assert hasher.Msg() == [] + Utf8.Encode(message) == Utf8.Encode(message);
    d := hasher.Digest();
  }
}
