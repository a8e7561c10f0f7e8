/**
 * The UTF-16 to UTF-8 conversion that the SHA-256 update loop performs on the fly
 * (chainrand.js:86-103), following section 3 of RFC 3629.
 *
 * A JavaScript string is a sequence of 16-bit code units. Units below 0xD800 and from 0xE000 on
 * are characters of the Basic Multilingual Plane; every unit in 0xD800..0xDFFF is taken as the high
 * half of a surrogate pair and is combined with the unit after it.
 */
module Utf8 {
  import opened Options

  /** True for the units the source sends to its four-byte branch (chainrand.js:93, 97). */
  predicate IsSurrogate(c: bv16) {
    0xd800 <= c < 0xe000
  }

  /** The unit after position i, or 0 past the end: `charCodeAt` then gives NaN and `NaN & 0x3ff` is 0. */
  function LowUnit(s: seq<bv16>, i: nat): bv16 {
    if i + 1 < |s| then s[i + 1] else 0
  }

  /** How many code units the character at position i consumes. */
  function Width(s: seq<bv16>, i: nat): (w: nat)
    requires i < |s|
    ensures w == 1 || w == 2
    ensures w == 2 <==> IsSurrogate(s[i])
  {
    if IsSurrogate(s[i]) then 2 else 1
  }

  /** The code point of a surrogate pair (chainrand.js:98). */
  function Supplementary(hi: bv16, lo: bv16): (cp: bv32)
    ensures 0x10000 <= cp <= 0x10ffff
    ensures cp - 0x10000 == (((hi as bv32) & 0x3ff) << 10) + ((lo as bv32) & 0x3ff)
  {
    0x10000 + ((((hi as bv32) & 0x3ff) << 10) | ((lo as bv32) & 0x3ff))
  }

  /** The code point that the character at position i denotes. */
  function CodePoint(s: seq<bv16>, i: nat): (cp: bv32)
    requires i < |s|
    ensures cp <= 0x10ffff
  {
    if IsSurrogate(s[i]) then Supplementary(s[i], LowUnit(s, i)) else s[i] as bv32
  }

  /** A continuation byte: 10xxxxxx. */
  predicate IsContinuation(b: bv8) {
    b & 0xc0 == 0x80
  }

  /**
   * The UTF-8 bytes the source emits for the character at position i: one byte below 0x80, two
   * below 0x800, three for the rest of the Basic Multilingual Plane, four for a surrogate pair.
   * The lead byte carries the length in its high bits and every other byte is a continuation byte.
   */
  function CharBytes(s: seq<bv16>, i: nat): (r: seq<bv8>)
    requires i < |s|
    ensures |r| == 1 <==> s[i] < 0x80
    ensures |r| == 2 <==> 0x80 <= s[i] < 0x800
    ensures |r| == 3 <==> 0x800 <= s[i] && !IsSurrogate(s[i])
    ensures |r| == 4 <==> IsSurrogate(s[i])
    ensures |r| == 1 ==> r[0] & 0x80 == 0
    ensures |r| == 2 ==> r[0] & 0xe0 == 0xc0
    ensures |r| == 3 ==> r[0] & 0xf0 == 0xe0
    ensures |r| == 4 ==> r[0] & 0xf8 == 0xf0
    ensures forall k :: 1 <= k < |r| ==> IsContinuation(r[k])
  {
    var c := s[i] as bv32;
    if c < 0x80 then [c as bv8]
    else if c < 0x800 then TwoBytes(c)
    else if !IsSurrogate(s[i]) then ThreeBytes(c)
    else FourBytes(Supplementary(s[i], LowUnit(s, i)))
  }

  /** The two-byte sequence 110xxxxx 10xxxxxx of a code point below 0x800. */
  function TwoBytes(c: bv32): (r: seq<bv8>)
    requires c < 0x800
    ensures |r| == 2 && r[0] & 0xe0 == 0xc0 && IsContinuation(r[1])
  {
    [(0xc0 | (c >> 6)) as bv8, (0x80 | (c & 0x3f)) as bv8]
  }

  /** The three-byte sequence 1110xxxx 10xxxxxx 10xxxxxx of a code point below 0x10000. */
  function ThreeBytes(c: bv32): (r: seq<bv8>)
    requires c < 0x10000
    ensures |r| == 3 && r[0] & 0xf0 == 0xe0 && IsContinuation(r[1]) && IsContinuation(r[2])
  {
    [(0xe0 | (c >> 12)) as bv8, (0x80 | ((c >> 6) & 0x3f)) as bv8, (0x80 | (c & 0x3f)) as bv8]
  }

  /** The four-byte sequence 11110xxx 10xxxxxx 10xxxxxx 10xxxxxx of a supplementary code point. */
  function FourBytes(cp: bv32): (r: seq<bv8>)
    requires cp <= 0x10ffff
    ensures |r| == 4 && r[0] & 0xf8 == 0xf0
    ensures IsContinuation(r[1]) && IsContinuation(r[2]) && IsContinuation(r[3])
  {
    [(0xf0 | (cp >> 18)) as bv8, (0x80 | ((cp >> 12) & 0x3f)) as bv8,
     (0x80 | ((cp >> 6) & 0x3f)) as bv8, (0x80 | (cp & 0x3f)) as bv8]
  }

  /** The UTF-8 bytes of the characters from position i on. */
  function EncodeFrom(s: seq<bv16>, i: nat): seq<bv8>
    decreases |s| - i
  {
    if i >= |s| then [] else CharBytes(s, i) + EncodeFrom(s, i + Width(s, i))
  }

  /** The bytes from position i on are those of the character at i followed by those after it. */
  lemma EncodeFromStep(s: seq<bv16>, i: nat)
    requires i < |s|
    ensures EncodeFrom(s, i) == CharBytes(s, i) + EncodeFrom(s, i + Width(s, i))
  {
  }

  /** The bytes the SHA-256 update loop feeds into its message blocks. */
  function Encode(s: seq<bv16>): seq<bv8> {
    EncodeFrom(s, 0)
  }

  /**
   * Each code unit from position i on yields one to three bytes; a high surrogate left alone at
   * the end yields four, the one byte beyond three per unit.
   */
  lemma {:induction false} EncodeLength(s: seq<bv16>, i: nat)
    requires i <= |s|
    ensures |s| - i <= |EncodeFrom(s, i)| <= 3 * (|s| - i) + 1
    decreases |s| - i
  {
    if i < |s| {
      var next := i + Width(s, i);
      if next <= |s| {
        EncodeLength(s, next);
      }
    }
  }

  /** Units below 0x80 are their own bytes, so an ASCII message is encoded as it is. */
  lemma {:induction false} EncodeAsciiFrom(s: seq<bv16>, i: nat)
    requires i <= |s|
    requires forall k :: i <= k < |s| ==> s[k] < 0x80
    ensures |EncodeFrom(s, i)| == |s| - i
    ensures forall k :: i <= k < |s| ==> EncodeFrom(s, i)[k - i] == s[k] as bv8
    decreases |s| - i
  {
    if i < |s| {
      assert CharBytes(s, i) == [(s[i] as bv32) as bv8];
      assert (s[i] as bv32) as bv8 == s[i] as bv8;
      EncodeAsciiFrom(s, i + 1);
      var r := EncodeFrom(s, i + 1);
      assert EncodeFrom(s, i) == [s[i] as bv8] + r;
      forall k | i < k < |s|
        ensures EncodeFrom(s, i)[k - i] == s[k] as bv8
      {
        assert EncodeFrom(s, i)[k - i] == r[k - (i + 1)];
      }
    }
  }

  lemma EncodeAscii(s: seq<bv16>)
    requires forall k :: 0 <= k < |s| ==> s[k] < 0x80
    ensures |Encode(s)| == |s| && forall k :: 0 <= k < |s| ==> Encode(s)[k] == s[k] as bv8
  {
    EncodeAsciiFrom(s, 0);
  }

  /**
   * A surrogate pairs with the unit after it; a high surrogate at the end of the message pairs
   * with 0 and still takes the four-byte branch.
   */
  lemma SurrogatePair(s: seq<bv16>, i: nat)
    requires i < |s| && IsSurrogate(s[i])
    ensures i + 1 < |s| ==> CodePoint(s, i) == Supplementary(s[i], s[i + 1])
    ensures i + 1 == |s| ==> CodePoint(s, i) == Supplementary(s[i], 0)
    ensures CharBytes(s, i) == FourBytes(CodePoint(s, i))
  {
  }

  /** The code points of the characters from position i on. */
  function CodePointsFrom(s: seq<bv16>, i: nat): seq<bv32>
    decreases |s| - i
  {
    if i >= |s| then [] else [CodePoint(s, i)] + CodePointsFrom(s, i + Width(s, i))
  }

  function CodePoints(s: seq<bv16>): seq<bv32> {
    CodePointsFrom(s, 0)
  }

  /** The length a lead byte announces (RFC 3629, section 3), or 0 for a byte that cannot lead. */
  function SequenceLength(b: bv8): (n: nat)
    ensures n <= 4
  {
    if b & 0x80 == 0 then 1
    else if b & 0xe0 == 0xc0 then 2
    else if b & 0xf0 == 0xe0 then 3
    else if b & 0xf8 == 0xf0 then 4
    else 0
  }

  /** The code point of one well-formed sequence, read back from its payload bits. */
  function DecodeSequence(b: seq<bv8>): bv32
    requires 1 <= |b| <= 4
  {
    if |b| == 1 then b[0] as bv32
    else if |b| == 2 then ((b[0] as bv32 & 0x1f) << 6) | (b[1] as bv32 & 0x3f)
    else if |b| == 3 then ((b[0] as bv32 & 0x0f) << 12) | ((b[1] as bv32 & 0x3f) << 6) | (b[2] as bv32 & 0x3f)
    else ((b[0] as bv32 & 0x07) << 18) | ((b[1] as bv32 & 0x3f) << 12) | ((b[2] as bv32 & 0x3f) << 6) | (b[3] as bv32 & 0x3f)
  }

  /** A UTF-8 decoder: None for a byte that cannot lead, a missing or a malformed continuation byte. */
  function Decode(b: seq<bv8>): Option<seq<bv32>>
    decreases |b|
  {
    if b == [] then Some([])
    else
      var n := SequenceLength(b[0]);
      if n == 0 || |b| < n || exists k :: 1 <= k < n && !IsContinuation(b[k]) then None
      else
        match Decode(b[n..])
        case None => None
        case Some(rest) => Some([DecodeSequence(b[..n])] + rest)
  }

  lemma DecodeOne(s: seq<bv16>, i: nat)
    requires i < |s| && s[i] < 0x80
    ensures SequenceLength(CharBytes(s, i)[0]) == 1
    ensures DecodeSequence(CharBytes(s, i)) == CodePoint(s, i)
  {
  }

  /** The two-byte case of DecodeCharBytes, on the bare code point. */
  lemma DecodeTwo(c: bv32)
    requires 0x80 <= c < 0x800
    ensures SequenceLength(TwoBytes(c)[0]) == 2
    ensures DecodeSequence(TwoBytes(c)) == c
  {
  }

  lemma DecodeThree(c: bv32)
    requires 0x800 <= c < 0x10000
    ensures SequenceLength(ThreeBytes(c)[0]) == 3
    ensures DecodeSequence(ThreeBytes(c)) == c
  {
  }

  lemma DecodeFour(cp: bv32)
    requires 0x10000 <= cp <= 0x10ffff
    ensures SequenceLength(FourBytes(cp)[0]) == 4
    ensures DecodeSequence(FourBytes(cp)) == cp
  {
  }

  lemma DecodeTwoAt(s: seq<bv16>, i: nat)
    requires i < |s| && 0x80 <= s[i] < 0x800
    ensures SequenceLength(CharBytes(s, i)[0]) == 2
    ensures DecodeSequence(CharBytes(s, i)) == CodePoint(s, i)
  {
    DecodeTwo(s[i] as bv32);
  }

  lemma DecodeThreeAt(s: seq<bv16>, i: nat)
    requires i < |s| && 0x800 <= s[i] && !IsSurrogate(s[i])
    ensures SequenceLength(CharBytes(s, i)[0]) == 3
    ensures DecodeSequence(CharBytes(s, i)) == CodePoint(s, i)
  {
    DecodeThree(s[i] as bv32);
  }

  lemma DecodeFourAt(s: seq<bv16>, i: nat)
    requires i < |s| && IsSurrogate(s[i])
    ensures SequenceLength(CharBytes(s, i)[0]) == 4
    ensures DecodeSequence(CharBytes(s, i)) == CodePoint(s, i)
  {
    DecodeFour(Supplementary(s[i], LowUnit(s, i)));
  }

  /** Decoding the bytes of one character gives back its code point. */
  lemma DecodeCharBytes(s: seq<bv16>, i: nat)
    requires i < |s|
    ensures SequenceLength(CharBytes(s, i)[0]) == |CharBytes(s, i)|
    ensures DecodeSequence(CharBytes(s, i)) == CodePoint(s, i)
  {
    if s[i] < 0x80 {
      DecodeOne(s, i);
    } else if s[i] < 0x800 {
      DecodeTwoAt(s, i);
    } else if !IsSurrogate(s[i]) {
      DecodeThreeAt(s, i);
    } else {
      DecodeFourAt(s, i);
    }
  }

  /** Round trip: a UTF-8 decoder reads back exactly the code points of the UTF-16 input. */
  lemma {:induction false} DecodeEncodeFrom(s: seq<bv16>, i: nat)
    ensures Decode(EncodeFrom(s, i)) == Some(CodePointsFrom(s, i))
    decreases |s| - i
  {
    if i < |s| {
      var c := CharBytes(s, i);
      var rest := EncodeFrom(s, i + Width(s, i));
      var b := c + rest;
      DecodeCharBytes(s, i);
      DecodeEncodeFrom(s, i + Width(s, i));
      assert b[0] == c[0];
      assert b[|c|..] == rest;
      assert b[..|c|] == c;
      assert forall k :: 1 <= k < |c| ==> b[k] == c[k];
    }
  }

  lemma DecodeEncode(s: seq<bv16>)
    ensures Decode(Encode(s)) == Some(CodePoints(s))
  {
    DecodeEncodeFrom(s, 0);
  }
}
