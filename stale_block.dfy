/**
 * The `_block` variable of the SHA-256 in chainrand.js, followed through the passes of `update`
 * (chainrand.js:78-116) into `finalize` (chainrand.js:123-139), once as chainrand.js has it and
 * once corrected.
 *
 * `hash` expands the message schedule into `blocks[16..63]`, so before a compression `update`
 * saves word 16, which holds the bytes that ran past byte 64, in `_block`. The next pass moves
 * `_block` to word 0 but does not clear it. When that pass ends below byte 64, `finalize` writes
 * the old word back to `blocks[16]`, and if 56 or more bytes are buffered it starts the extra
 * padding block with it instead of with zeros. Only a character whose UTF-8 bytes straddle byte
 * 64 leaves a non-zero word behind, so ASCII messages never show it.
 */
module StaleBlock {
  import Utf8
  import opened Options
  import opened Sha256Blocks

  /** The variables `finalize` takes over from `update`: `_lastByteIndex`, `_block` and `_hashed`. */
  datatype Ending = Ending(lastByteIndex: nat, block: bv32, hashed: bool)

  /** Word 16 of the buffer after the bytes c go in at positions i, i + 1, ...: bytes 64..67 land in it. */
  function Overflow(w: bv32, c: seq<bv8>, i: nat): bv32
    decreases |c|
  {
    if c == [] then w
    else Overflow(if 64 <= i < 68 then w | ShiftIn(c[0] as bv32, i % 4) else w, c[1..], i + 1)
  }

  /**
   * The passes of `update` from character `index` on, with the buffer filled up to byte i and
   * word 16 equal to w16; `block` is `_block`. A character that takes the buffer to byte 64 or
   * beyond ends the pass: `_block` takes word 16 and the block is compressed. The next pass
   * starts from the bytes past 64 with word 16 cleared; chainrand.js keeps `_block` (clear ==
   * false), the corrected code clears it (clear == true).
   */
  function Passes(s: seq<bv16>, index: nat, i: nat, w16: bv32, block: bv32, clear: bool): Ending
    requires i < 64
    decreases |s| - index
  {
    if index >= |s| then Ending(i, block, false)
    else
      var c := Utf8.CharBytes(s, index);
      var next := index + Utf8.Width(s, index);
      var w := Overflow(w16, c, i);
      if i + |c| < 64 then Passes(s, next, i + |c|, w, block, clear)
      else if next >= |s| then Ending(i + |c|, w, true)
      else Passes(s, next, i + |c| - 64, 0, if clear then 0 else w, clear)
  }

  /** One `update` of a fresh state with the UTF-16 code units s. */
  function Update(s: seq<bv16>, clear: bool): Ending {
    Passes(s, 0, 0, 0, 0, clear)
  }

  /**
   * The passes keep `_lastByteIndex` in step with the message: it is the number of UTF-8 bytes
   * fed in so far modulo 64, below 64 when the last pass left the buffer uncompressed, and in
   * 64..67 when the last character filled the block and it was compressed.
   */
  lemma {:induction false} PassesBytes(s: seq<bv16>, index: nat, i: nat, w16: bv32, block: bv32, clear: bool)
    requires i < 64
    ensures var e := Passes(s, index, i, w16, block, clear);
            && (e.hashed ==> 64 <= e.lastByteIndex < 68)
            && (!e.hashed ==> e.lastByteIndex < 64)
            && e.lastByteIndex % 64 == (i + |Utf8.EncodeFrom(s, index)|) % 64
    decreases |s| - index
  {
    if index < |s| {
      var c := Utf8.CharBytes(s, index);
      var next := index + Utf8.Width(s, index);
      var w := Overflow(w16, c, i);
      var n := |Utf8.EncodeFrom(s, next)|;
      assert |c| <= 4;
      Utf8.EncodeFromStep(s, index);
      assert |Utf8.EncodeFrom(s, index)| == |c| + n;
      if i + |c| < 64 {
        PassesBytes(s, next, i + |c|, w, block, clear);
      } else if next < |s| {
        PassesBytes(s, next, i + |c| - 64, 0, if clear then 0 else w, clear);
        assert (i + |c| - 64 + n) % 64 == (i + |c| + n) % 64;
      } else {
        assert n == 0;
      }
    }
  }

  /** One `update` leaves the byte count of the UTF-8 message modulo 64 in `_lastByteIndex`. */
  lemma UpdateBytes(s: seq<bv16>, clear: bool)
    ensures var e := Update(s, clear);
            && e.lastByteIndex < 68
            && (!e.hashed ==> e.lastByteIndex < 64)
            && e.lastByteIndex % 64 == |Utf8.Encode(s)| % 64
  {
    PassesBytes(s, 0, 0, 0, 0, clear);
  }

  /**
   * The first word of the extra block that `finalize` starts when 56 or more bytes are buffered
   * (chainrand.js:124-132), or None when the length fits in the current block. `_block` goes to
   * word 16, the padding byte is OR-ed into word i / 4, and word 16 comes back as the first word.
   */
  function ExtraFirstWord(e: Ending): (r: Option<bv32>)
    ensures r.None? <==> e.lastByteIndex < 56
  {
    if e.lastByteIndex < 56 then None
    else if e.lastByteIndex / 4 == 16 then Some(e.block | EXTRA[e.lastByteIndex % 4])
    else Some(e.block)
  }

  /** With `_block` cleared at each pass, it is zero whenever the last pass did not compress. */
  lemma {:induction false} PassesClear(s: seq<bv16>, index: nat, i: nat, w16: bv32)
    requires i < 64
    ensures var e := Passes(s, index, i, w16, 0, true);
            !e.hashed ==> e.block == 0 && e.lastByteIndex < 64
    decreases |s| - index
  {
    if index < |s| {
      var c := Utf8.CharBytes(s, index);
      var next := index + Utf8.Width(s, index);
      var w := Overflow(w16, c, i);
      if i + |c| < 64 {
        PassesClear(s, next, i + |c|, w);
      } else if next < |s| {
        PassesClear(s, next, i + |c| - 64, 0);
      }
    }
  }

  /**
   * The corrected update: an extra block that follows a buffer which was not compressed in
   * `update` starts with a zero word, as the padding of section 5.1.1 of FIPS 180-4 requires.
   */
  lemma ClearedExtraWord(s: seq<bv16>)
    ensures var e := Update(s, true);
            !e.hashed && e.lastByteIndex >= 56 ==> ExtraFirstWord(e) == Some(0)
  {
    PassesClear(s, 0, 0, 0);
  }

  /** Bytes that stay below position 64 leave word 16 as it is. */
  lemma {:induction false} OverflowBelow(w: bv32, c: seq<bv8>, i: nat)
    requires i + |c| <= 64
    ensures Overflow(w, c, i) == w
    decreases |c|
  {
    if c != [] {
      OverflowBelow(w, c[1..], i + 1);
    }
  }

  /** k three-byte characters that fit below byte 64 just advance the buffer by 3k bytes. */
  lemma {:induction false} FillPass(s: seq<bv16>, index: nat, i: nat, w16: bv32, block: bv32, clear: bool, k: nat)
    requires index + k <= |s| && i + 3 * k < 64
    requires forall j :: index <= j < index + k ==> 0x800 <= s[j] && !Utf8.IsSurrogate(s[j])
    ensures Passes(s, index, i, w16, block, clear) == Passes(s, index + k, i + 3 * k, w16, block, clear)
    decreases k
  {
    if k > 0 {
      var c := Utf8.CharBytes(s, index);
      assert |c| == 3 && Utf8.Width(s, index) == 1;
      OverflowBelow(w16, c, i);
      assert Passes(s, index, i, w16, block, clear) == Passes(s, index + 1, i + 3, w16, block, clear);
      FillPass(s, index + 1, i + 3, w16, block, clear, k - 1);
    }
  }

  /** Forty copies of U+4E2D, three UTF-8 bytes each: the 22nd character straddles byte 64. */
  const Example: seq<bv16> := seq(40, _ => 0x4e2d)

  /** The two passes over Example: 21 characters, one across byte 64, then 18 more up to byte 56. */
  lemma ExamplePasses(clear: bool)
    ensures Update(Example, clear) == Ending(56, if clear then 0 else 0xb8ad_0000, false)
  {
    var s := Example;
    FillPass(s, 0, 0, 0, 0, clear, 21);
    assert Utf8.CharBytes(s, 21) == [0xe4, 0xb8, 0xad];
    assert Overflow(0, [0xe4, 0xb8, 0xad], 63) == 0xb8ad_0000;
    var block: bv32 := if clear then 0 else 0xb8ad_0000;
    assert Passes(s, 21, 63, 0, 0, clear) == Passes(s, 22, 2, 0, block, clear);
    FillPass(s, 22, 2, 0, block, clear, 18);
  }

  /**
   * As written, the 120 bytes of Example leave 56 bytes buffered after a compression, and the
   * extra block starts with 0xB8AD0000, the bytes 0xB8 0xAD of the 22nd character that ran past
   * byte 64, where the padding has zeros. The corrected update gives zero.
   */
  lemma StaleBlockExample()
    ensures Update(Example, false) == Ending(56, 0xb8ad_0000, false)
    ensures ExtraFirstWord(Update(Example, false)) == Some(0xb8ad_0000)
    ensures ExtraFirstWord(Update(Example, true)) == Some(0)
  {
    ExamplePasses(false);
    ExamplePasses(true);
  }
}
