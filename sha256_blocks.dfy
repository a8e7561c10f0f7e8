/**
 * How the streaming SHA-256 of chainrand.js:40-233 lays bytes out in its 17-word block buffer:
 * the bit facts behind `blocks[i >> 2] |= b << SHIFT[i & 3]`, the word that overflows into the
 * next block, and the words of the padded tail that `finalize` writes.
 */
module Sha256Blocks {
  import opened Sha256Spec

  /**
   * `x << SHIFT[k]` with SHIFT = [24, 16, 8, 0] (chainrand.js:44): puts a byte at position k of a
   * word, big-endian. Each shift is written with its literal amount.
   */
  function ShiftIn(x: bv32, k: nat): bv32
    requires k < 4
  {
    if k == 0 then x << 24 else if k == 1 then x << 16 else if k == 2 then x << 8 else x
  }

  /** EXTRA[k]: the padding byte 0x80 at byte k of a word (chainrand.js:43, as 32-bit patterns). */
  const EXTRA: seq<bv32> := [0x8000_0000, 0x80_0000, 0x8000, 0x80]

  // Four bit-level facts: OR-ing a byte into the free slot of a partly filled big-endian word.

  lemma OrSlot0(b: bv8)
    ensures BigEndian(0, 0, 0, 0) | ((b as bv32) << 24) == BigEndian(b, 0, 0, 0)
  {
  }

  lemma OrSlot1(x0: bv8, b: bv8)
    ensures BigEndian(x0, 0, 0, 0) | ((b as bv32) << 16) == BigEndian(x0, b, 0, 0)
  {
  }

  lemma OrSlot2(x0: bv8, x1: bv8, b: bv8)
    ensures BigEndian(x0, x1, 0, 0) | ((b as bv32) << 8) == BigEndian(x0, x1, b, 0)
  {
  }

  lemma OrSlot3(x0: bv8, x1: bv8, x2: bv8, b: bv8)
    ensures BigEndian(x0, x1, x2, 0) | (b as bv32) == BigEndian(x0, x1, x2, b)
  {
  }

  // Appending b to p fills slot |p| % 4 of word |p| / 4; one lemma per slot keeps each proof small.

  lemma PutSlot0(p: seq<bv8>, b: bv8, w: nat)
    requires |p| == 4 * w
    ensures WordAt(p + [b], w) == WordAt(p, w) | ShiftIn(b as bv32, 0)
  {
    var q := p + [b];
    assert ByteAt(q, 4 * w) == b && ByteAt(q, 4 * w + 1) == 0;
    assert ByteAt(q, 4 * w + 2) == 0 && ByteAt(q, 4 * w + 3) == 0;
    assert WordAt(p, w) == BigEndian(0, 0, 0, 0);
    assert WordAt(q, w) == BigEndian(b, 0, 0, 0);
    OrSlot0(b);
  }

  lemma PutSlot1(p: seq<bv8>, b: bv8, w: nat)
    requires |p| == 4 * w + 1
    ensures WordAt(p + [b], w) == WordAt(p, w) | ShiftIn(b as bv32, 1)
  {
    var q := p + [b];
    var x0 := p[4 * w];
    assert ByteAt(q, 4 * w) == x0 && ByteAt(q, 4 * w + 1) == b;
    assert ByteAt(q, 4 * w + 2) == 0 && ByteAt(q, 4 * w + 3) == 0;
    assert WordAt(p, w) == BigEndian(x0, 0, 0, 0);
    assert WordAt(q, w) == BigEndian(x0, b, 0, 0);
    OrSlot1(x0, b);
  }

  lemma PutSlot2(p: seq<bv8>, b: bv8, w: nat)
    requires |p| == 4 * w + 2
    ensures WordAt(p + [b], w) == WordAt(p, w) | ShiftIn(b as bv32, 2)
  {
    var q := p + [b];
    var x0, x1 := p[4 * w], p[4 * w + 1];
    assert ByteAt(q, 4 * w) == x0 && ByteAt(q, 4 * w + 1) == x1;
    assert ByteAt(q, 4 * w + 2) == b && ByteAt(q, 4 * w + 3) == 0;
    assert WordAt(p, w) == BigEndian(x0, x1, 0, 0);
    assert WordAt(q, w) == BigEndian(x0, x1, b, 0);
    OrSlot2(x0, x1, b);
  }

  lemma PutSlot3(p: seq<bv8>, b: bv8, w: nat)
    requires |p| == 4 * w + 3
    ensures WordAt(p + [b], w) == WordAt(p, w) | ShiftIn(b as bv32, 3)
  {
    var q := p + [b];
    var x0, x1, x2 := p[4 * w], p[4 * w + 1], p[4 * w + 2];
    assert ByteAt(q, 4 * w) == x0 && ByteAt(q, 4 * w + 1) == x1;
    assert ByteAt(q, 4 * w + 2) == x2 && ByteAt(q, 4 * w + 3) == b;
    assert WordAt(p, w) == BigEndian(x0, x1, x2, 0);
    assert WordAt(q, w) == BigEndian(x0, x1, x2, b);
    OrSlot3(x0, x1, x2, b);
  }

  /** Appending b to p fills slot k of word w, the slot after the last byte of p. */
  lemma PutSlotAt(p: seq<bv8>, b: bv8, w: nat, k: nat)
    requires |p| == 4 * w + k && k < 4
    ensures WordAt(p + [b], w) == WordAt(p, w) | ShiftIn(b as bv32, k)
  {
    if k == 0 {
      PutSlot0(p, b, w);
    } else if k == 1 {
      PutSlot1(p, b, w);
    } else if k == 2 {
      PutSlot2(p, b, w);
    } else {
      PutSlot3(p, b, w);
    }
  }

  /**
   * Appending byte b to the pending bytes p changes only word |p| / 4 of the block, and changes it
   * exactly as `blocks[i >> 2] |= b << SHIFT[i & 3]` does with i = |p| (chainrand.js:89).
   */
  lemma PutByteWord(p: seq<bv8>, b: bv8, w: nat)
    ensures WordAt(p + [b], w) ==
            if w == |p| / 4 then WordAt(p, w) | ShiftIn(b as bv32, |p| % 4) else WordAt(p, w)
  {
    var q := p + [b];
    if w == |p| / 4 {
      PutSlotAt(p, b, |p| / 4, |p| % 4);
    } else {
      assert ByteAt(q, 4 * w) == ByteAt(p, 4 * w) && ByteAt(q, 4 * w + 1) == ByteAt(p, 4 * w + 1);
      assert ByteAt(q, 4 * w + 2) == ByteAt(p, 4 * w + 2) && ByteAt(q, 4 * w + 3) == ByteAt(p, 4 * w + 3);
    }
  }

  /** Word 16 of a block that overflowed holds the first bytes of the next block (chainrand.js:109). */
  lemma OverflowWord(p: seq<bv8>)
    requires |p| >= 64
    ensures WordAt(p, 16) == WordAt(p[64..], 0)
  {
    var r := p[64..];
    assert ByteAt(p, 64) == ByteAt(r, 0) && ByteAt(p, 65) == ByteAt(r, 1);
    assert ByteAt(p, 66) == ByteAt(r, 2) && ByteAt(p, 67) == ByteAt(r, 3);
  }

  /** A word of the first 64 pending bytes reads the same from the 64-byte block. */
  lemma BlockWords(p: seq<bv8>, w: nat)
    requires |p| >= 64 && w < 16
    ensures Words(p[..64])[w] == WordAt(p, w)
  {
    var c := p[..64];
    assert ByteAt(c, 4 * w) == ByteAt(p, 4 * w) && ByteAt(c, 4 * w + 1) == ByteAt(p, 4 * w + 1);
    assert ByteAt(c, 4 * w + 2) == ByteAt(p, 4 * w + 2) && ByteAt(c, 4 * w + 3) == ByteAt(p, 4 * w + 3);
  }

  /** Past the last pending byte every word of the block is zero. */
  lemma WordPastEnd(p: seq<bv8>, w: nat)
    requires |p| <= 4 * w
    ensures WordAt(p, w) == 0
  {
    assert BigEndian(0, 0, 0, 0) == 0;
  }

  /** EXTRA[k] is the padding byte 0x80 put at slot k, as the update loop would put it. */
  lemma ExtraIsPadByte(k: nat)
    requires k < 4
    ensures EXTRA[k] == ShiftIn(0x80, k)
  {
  }

  /** Word n + w of p is word w of p with its first n words dropped. */
  lemma WordAtDrop(p: seq<bv8>, n: nat, w: nat)
    requires 4 * n <= |p|
    ensures WordAt(p[4 * n..], w) == WordAt(p, n + w)
  {
    var r := p[4 * n..];
    assert ByteAt(r, 4 * w) == ByteAt(p, 4 * (n + w)) && ByteAt(r, 4 * w + 1) == ByteAt(p, 4 * (n + w) + 1);
    assert ByteAt(r, 4 * w + 2) == ByteAt(p, 4 * (n + w) + 2) && ByteAt(r, 4 * w + 3) == ByteAt(p, 4 * (n + w) + 3);
  }

  /** The first word of a string that starts with four given bytes is read from those four bytes. */
  lemma WordAtPrefix(x: seq<bv8>, y: seq<bv8>)
    requires |x| == 4
    ensures WordAt(x + y, 0) == WordAt(x, 0)
  {
    var p := x + y;
    assert ByteAt(p, 0) == ByteAt(x, 0) && ByteAt(p, 1) == ByteAt(x, 1);
    assert ByteAt(p, 2) == ByteAt(x, 2) && ByteAt(p, 3) == ByteAt(x, 3);
  }

  /** The two words of the 64-bit length field at the end of a padded message. */
  lemma LengthField(hi: bv32, lo: bv32)
    ensures WordAt(WordBytes(hi) + WordBytes(lo), 0) == hi
    ensures WordAt(WordBytes(hi) + WordBytes(lo), 1) == lo
  {
    var f := WordBytes(hi) + WordBytes(lo);
    WordAtPrefix(WordBytes(hi), WordBytes(lo));
    WordBytesRoundTrip(hi);
    WordAtDrop(f, 1, 0);
    assert f[4..] == WordBytes(lo);
    WordBytesRoundTrip(lo);
  }

  /**
   * The padded tail: what follows the last full block of msg (at offset base) in the padded message.
   * It is one block when fewer than 56 bytes are pending and two blocks otherwise.
   */
  lemma PadTailLength(msg: seq<bv8>, base: nat)
    requires base % 64 == 0 && base <= |msg| && |msg| - base < 64
    ensures |Pad(msg)| == base + (if |msg| - base < 56 then 64 else 128)
  {
    PaddedTailLength(|msg|, base);
  }

  lemma PaddedTailLength(L: nat, base: nat)
    requires base % 64 == 0 && base <= L && L - base < 64
    ensures PaddedLength(L) == base + (if L - base < 56 then 64 else 128)
  {
    var k := base / 64;
    assert base == 64 * k;
    if L - base < 56 {
      assert (L + 8) / 64 == k;
    } else {
      assert (L + 8) / 64 == k + 1;
    }
  }

  /** The padded message is the whole blocks of msg followed by the padded tail. */
  lemma PadTailSplit(msg: seq<bv8>, base: nat)
    requires base % 64 == 0 && base <= |msg| && |msg| - base < 64
    ensures Pad(msg) == msg[..base] + Pad(msg)[base..]
  {
    var P := Pad(msg);
    PadTailLength(msg, base);
    assert P[..base] == P[..|msg|][..base];
  }

  /** The shape padding gives a message m: m, then 0x80, then zeros up to the last eight bytes. */
  ghost predicate PaddedShape(P: seq<bv8>, m: seq<bv8>) {
    && |m| < |P|
    && P[..|m|] == m && P[|m|] == 0x80
    && forall k :: |m| < k < |P| - 8 ==> P[k] == 0
  }

  lemma PadShape(msg: seq<bv8>)
    ensures PaddedShape(Pad(msg), msg)
  {
  }

  /** Before the last eight bytes, byte k of P after base is byte k of m's bytes after base and 0x80. */
  lemma TailByte(P: seq<bv8>, m: seq<bv8>, base: nat, k: nat)
    requires PaddedShape(P, m) && base <= |m| && base + k < |P| - 8
    ensures ByteAt(P[base..], k) == ByteAt(m[base..] + [0x80], k)
  {
    if base + k < |m| {
      assert P[base + k] == P[..|m|][base + k];
    }
  }

  /** The same for the four bytes of word w. */
  lemma TailWord(P: seq<bv8>, m: seq<bv8>, base: nat, w: nat)
    requires PaddedShape(P, m) && base <= |m| && base + 4 * w + 12 <= |P|
    ensures WordAt(P[base..], w) == WordAt(m[base..] + [0x80], w)
  {
    TailByte(P, m, base, 4 * w);
    TailByte(P, m, base, 4 * w + 1);
    TailByte(P, m, base, 4 * w + 2);
    TailByte(P, m, base, 4 * w + 3);
  }

  /** Before the length field, word w of the padded tail is word w of the pending bytes and 0x80. */
  lemma PadTailWord(msg: seq<bv8>, base: nat, w: nat)
    requires base % 64 == 0 && base <= |msg| && |msg| - base < 64
    requires 4 * w + 12 <= |Pad(msg)| - base
    ensures WordAt(Pad(msg)[base..], w) == WordAt(msg[base..] + [0x80], w)
  {
    PadShape(msg);
    TailWord(Pad(msg), msg, base, w);
  }

  /** Words 14 and 15 of the last block of the padded tail are the high and the low word of the bit length. */
  lemma PadTailLengthWords(msg: seq<bv8>, base: nat)
    requires base % 64 == 0 && base <= |msg| && |msg| - base < 64
    ensures var T := Pad(msg)[base..];
            |T| >= 64 && EndsWithLength(T[|T| - 64..], |msg|)
  {
    var P := Pad(msg);
    var T := P[base..];
    PadTailLength(msg, base);
    LastWords(P, base);
    LengthBytesWords(|msg|);
    LengthField(LengthHigh(|msg|), LengthLow(|msg|));
    LengthWordsAre(T[|T| - 64..], |msg|);
  }

  /** Words 14 and 15 of the last 64 bytes of a suffix are the two words of the last 8 bytes. */
  lemma LastWords(P: seq<bv8>, base: nat)
    requires base + 64 <= |P|
    ensures var T := P[base..];
            && WordAt(T[|T| - 64..], 14) == WordAt(P[|P| - 8..], 0)
            && WordAt(T[|T| - 64..], 15) == WordAt(P[|P| - 8..], 1)
  {
    var T := P[base..];
    var lb := T[|T| - 64..];
    assert lb[56..] == P[|P| - 8..];
    WordAtDrop(lb, 14, 0);
    WordAtDrop(lb, 14, 1);
  }

  /** Concatenation regrouped; stated as a lemma so that proofs can ask for it by name. */
  lemma Regroup(p: seq<bv8>, c: seq<bv8>, r: seq<bv8>)
    ensures (p + c) + r == p + (c + r)
  {
  }

  /** What padding appends after the whole blocks d of a message d + p: one block, or two. */
  function PadTail(d: seq<bv8>, p: seq<bv8>): (T: seq<bv8>)
    requires |d| % 64 == 0 && |p| < 64
    ensures |T| == (if |p| < 56 then 64 else 128)
  {
    PadTailLength(d + p, |d|);
    Pad(d + p)[|d|..]
  }

  /** Words 14 and 15 of the last block are the bit length of d + p. */
  lemma LastBlockLength(d: seq<bv8>, p: seq<bv8>)
    requires |d| % 64 == 0 && |p| < 64
    ensures var T := PadTail(d, p);
            var lb := T[|T| - 64..];
            EndsWithLength(lb, |d| + |p|)
  {
    PadTailLengthWords(d + p, |d|);
  }

  /** A one-block tail: words 0..13 are those of p + [0x80], so 1..13 are zeros when |p| < 4. */
  lemma ShortTail(d: seq<bv8>, p: seq<bv8>)
    requires |d| % 64 == 0 && |p| < 56
    ensures var T := PadTail(d, p);
            && T[|T| - 64..] == T
            && (forall w {:trigger WordAt(T, w)} :: 0 <= w < 14 ==> WordAt(T, w) == WordAt(p + [0x80], w))
            && (|p| < 4 ==> forall w {:trigger WordAt(T, w)} :: 1 <= w < 14 ==> WordAt(T, w) == 0)
  {
    var m := d + p;
    var T := PadTail(d, p);
    assert m[|d|..] == p;
    forall w | 0 <= w < 14
      ensures WordAt(T, w) == WordAt(p + [0x80], w)
    {
      PadTailWord(m, |d|, w);
    }
    forall w | 1 <= w < 14 && |p| < 4
      ensures WordAt(T, w) == 0
    {
      WordPastEnd(p + [0x80], w);
    }
  }

  /** A two-block tail: the first block holds the words of p + [0x80]; the last has zeros before the length. */
  lemma LongTail(d: seq<bv8>, p: seq<bv8>)
    requires |d| % 64 == 0 && 56 <= |p| < 64
    ensures var T := PadTail(d, p);
            && T[|T| - 64..] == T[64..]
            && (forall w {:trigger WordAt(T, w)} :: 0 <= w < 16 ==> WordAt(T, w) == WordAt(p + [0x80], w))
            && (forall w {:trigger WordAt(T[64..], w)} :: 0 <= w < 14 ==> WordAt(T[64..], w) == 0)
  {
    var m := d + p;
    var T := PadTail(d, p);
    assert m[|d|..] == p;
    forall w | 0 <= w < 16
      ensures WordAt(T, w) == WordAt(p + [0x80], w)
    {
      PadTailWord(m, |d|, w);
    }
    forall w | 0 <= w < 14
      ensures WordAt(T[64..], w) == 0
    {
      WordAtDrop(T, 16, w);
      PadTailWord(m, |d|, 16 + w);
      WordPastEnd(p + [0x80], 16 + w);
    }
  }

  /**
   * x is the padded message of msg. The equation is kept behind a trigger on Pad, so that a proof
   * expands the padding only where it mentions Pad itself.
   */
  ghost predicate PaddedFrom(x: seq<bv8>, msg: seq<bv8>) {
    forall m {:trigger Pad(m)} :: m == msg ==> x == Pad(m)
  }

  /** Words 14 and 15 of lb are the bit length of L bytes, kept behind a trigger on LengthHigh. */
  ghost predicate EndsWithLength(lb: seq<bv8>, L: nat) {
    forall n {:trigger LengthHigh(n)} :: n == L ==> WordAt(lb, 14) == LengthHigh(n) && WordAt(lb, 15) == LengthLow(n)
  }

  /**
   * The words of a padding tail T for pending bytes p: in its first block, those of p + [0x80]
   * (14 words of them when the tail is one block, 16 when it is two); zeros before the length
   * in the last block of a two-block tail, and in words 1..13 when p is shorter than a word.
   */
  ghost predicate TailWords(T: seq<bv8>, p: seq<bv8>) {
    && |p| < 64 && |T| == (if |p| < 56 then 64 else 128)
    && (|p| < 56 ==> forall w {:trigger WordAt(T, w)} :: 0 <= w < 14 ==> WordAt(T, w) == WordAt(p + [0x80], w))
    && (|p| < 4 ==> forall w {:trigger WordAt(T, w)} :: 1 <= w < 14 ==> WordAt(T, w) == 0)
    && (|p| >= 56 ==> forall w {:trigger WordAt(T, w)} :: 0 <= w < 16 ==> WordAt(T, w) == WordAt(p + [0x80], w))
    && (|p| >= 56 ==> forall w {:trigger WordAt(T[64..], w)} :: 0 <= w < 14 ==> WordAt(T[64..], w) == 0)
  }

  /**
   * The padding tail of a message made of whole blocks d and pending bytes p: d + T is the padded
   * message, its last block ends with the bit length, and its words are as TailWords says.
   */
  lemma Tail(d: seq<bv8>, p: seq<bv8>) returns (T: seq<bv8>)
    requires |d| % 64 == 0 && |p| < 64
    ensures |T| == (if |p| < 56 then 64 else 128) && TailWords(T, p)
    ensures PaddedFrom(d + T, d + p)
    ensures EndsWithLength(T[|T| - 64..], |d| + |p|)
  {
    T := PadTail(d, p);
    TailPadded(d, p);
    LastBlockLength(d, p);
    if |p| < 56 {
      ShortTail(d, p);
    } else {
      LongTail(d, p);
    }
  }

  lemma TailPadded(d: seq<bv8>, p: seq<bv8>)
    requires |d| % 64 == 0 && |p| < 64
    ensures PaddedFrom(d + PadTail(d, p), d + p)
  {
    var m := d + p;
    assert m[..|d|] == d;
    PadTailSplit(m, |d|);
  }

  lemma LengthWordsAre(lb: seq<bv8>, L: nat)
    requires WordAt(lb, 14) == LengthHigh(L) && WordAt(lb, 15) == LengthLow(L)
    ensures EndsWithLength(lb, L)
  {
    forall n: nat | n == L
      ensures WordAt(lb, 14) == LengthHigh(n) && WordAt(lb, 15) == LengthLow(n)
    {
    }
  }

  /**
   * The length words of chainrand.js:136-137, `_hBytes << 3 | _bytes >>> 29` and `_bytes << 3`,
   * written as the arithmetic they perform: they are the two words of the bit length 8L of a
   * message of L = hBytes * 2^32 + bytes bytes.
   */
  lemma LengthWords(hBytes: nat, bytes: nat)
    ensures ((hBytes * 8 + bytes / 0x2000_0000) % 0x1_0000_0000) as bv32 == LengthHigh(hBytes * 0x1_0000_0000 + bytes)
    ensures ((bytes * 8) % 0x1_0000_0000) as bv32 == LengthLow(hBytes * 0x1_0000_0000 + bytes)
  {
    var L := hBytes * 0x1_0000_0000 + bytes;
    assert 8 * L == (hBytes * 8) * 0x1_0000_0000 + 8 * bytes;
    assert 8 * bytes / 0x1_0000_0000 == bytes / 0x2000_0000;
    assert 8 * L / 0x1_0000_0000 == hBytes * 8 + bytes / 0x2000_0000;
    assert (8 * L) % 0x1_0000_0000 == (8 * bytes) % 0x1_0000_0000;
  }

  /**
   * The words of a 17-word buffer after `blocks[i >> 2] |= b << SHIFT[i & 3]`, when they were the
   * words of the i pending bytes p: they are the words of p + [b].
   */
  lemma PutWords(p: seq<bv8>, b: bv8, ws: seq<bv32>, ws': seq<bv32>)
    requires |p| < 68 && |ws| == 17
    requires forall w :: 0 <= w < 17 ==> ws[w] == WordAt(p, w)
    requires ws' == ws[|p| / 4 := ws[|p| / 4] | ShiftIn(b as bv32, |p| % 4)]
    ensures forall w :: 0 <= w < 17 ==> ws'[w] == WordAt(p + [b], w)
  {
    forall w | 0 <= w < 17
      ensures ws'[w] == WordAt(p + [b], w)
    {
      PutByteWord(p, b, w);
    }
  }

  /** A buffer whose first 16 words are those of the pending bytes p holds the block p[..64]. */
  lemma BufferBlock(p: seq<bv8>, ws: seq<bv32>)
    requires |p| >= 64 && |ws| == 16
    requires forall w :: 0 <= w < 16 ==> ws[w] == WordAt(p, w)
    ensures ws == Words(p[..64])
  {
    forall w | 0 <= w < 16
      ensures ws[w] == Words(p[..64])[w]
    {
      BlockWords(p, w);
    }
  }

  /**
   * Compressing the first 64 pending bytes p, whose words the buffer holds, into the hash value of
   * the blocks before them gives the hash value of those blocks followed by this one.
   */
  lemma CompressPending(done: seq<bv8>, p: seq<bv8>, ws: seq<bv32>)
    requires |done| % 64 == 0 && |p| >= 64 && |ws| == 16
    requires forall w :: 0 <= w < 16 ==> ws[w] == WordAt(p, w)
    ensures |done + p[..64]| % 64 == 0
    ensures Compress(HashBytes(IV, done), ws) == HashBytes(IV, done + p[..64])
  {
    BufferBlock(p, ws);
    HashBytesSnoc(IV, done, p[..64]);
  }
}
