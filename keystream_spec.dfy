/**
 * The keystream of chainrand.js:362-408 as values. An Engine holds what the closure `self`
 * updates: the feedback register `_iv`, the little-endian block counter `_counter`, the output
 * block `_buf` and the read offset `_bufOffset`, next to the expanded key `_roundKey`, which no
 * draw changes. Step is one call of `self`; the class Chainrand.Crng is proved against it.
 */
module KeystreamSpec {
  import opened AesSpec
  import Sha256Spec
  import Utf8

  /** 2^53: `self` divides its 53-bit integer by it (chainrand.js:408). */
  const TWO_53: nat := 0x20_0000_0000_0000

  /** The value of a byte string read least significant byte first. */
  function LittleEndian(b: seq<bv8>): nat {
    if b == [] then 0 else b[0] as nat + 256 * LittleEndian(b[1..])
  }

  function Pow256(n: nat): (p: nat)
    ensures p > 0
  {
    if n == 0 then 1 else 256 * Pow256(n - 1)
  }

  /** n bytes hold a value below 256^n. */
  lemma {:induction false} LittleEndianBound(b: seq<bv8>)
    ensures LittleEndian(b) < Pow256(|b|)
  {
    if b != [] {
      LittleEndianBound(b[1..]);
    }
  }

  /**
   * The carry loop at the end of a block (chainrand.js:390-396): the first byte below 255 goes
   * up by one and the loop stops; each 255 before it becomes 0.
   */
  function Increment(c: seq<bv8>): (r: seq<bv8>)
    ensures |r| == |c|
  {
    if c == [] then []
    else if c[0] < 255 then [c[0] + 1] + c[1..]
    else [0] + Increment(c[1..])
  }

  /** The carry loop adds one to the counter's little-endian value, wrapping 256^n - 1 to 0. */
  lemma {:induction false} IncrementValue(c: seq<bv8>)
    ensures LittleEndian(Increment(c)) == if LittleEndian(c) + 1 == Pow256(|c|) then 0 else LittleEndian(c) + 1
  {
    if c != [] {
      LittleEndianBound(c[1..]);
      if c[0] < 255 {
        NoCarry(c);
      } else {
        IncrementValue(c[1..]);
        WithCarry(c);
      }
    }
  }

  /** A first byte below 255 takes the increment. */
  lemma NoCarry(c: seq<bv8>)
    requires c != [] && c[0] < 255 && LittleEndian(c[1..]) < Pow256(|c| - 1)
    ensures LittleEndian(Increment(c)) == if LittleEndian(c) + 1 == Pow256(|c|) then 0 else LittleEndian(c) + 1
  {
    var r := Increment(c);
    assert r[1..] == c[1..];
    ByteSucc(c[0]);
    Carry(c[0] as nat, LittleEndian(c[1..]), Pow256(|c| - 1), LittleEndian(r), 0);
  }

  /** A first byte of 255 becomes 0 and passes the increment on to the rest. */
  lemma WithCarry(c: seq<bv8>)
    requires c != [] && c[0] == 255 && LittleEndian(c[1..]) < Pow256(|c| - 1)
    requires LittleEndian(Increment(c[1..]))
             == if LittleEndian(c[1..]) + 1 == Pow256(|c| - 1) then 0 else LittleEndian(c[1..]) + 1
    ensures LittleEndian(Increment(c)) == if LittleEndian(c) + 1 == Pow256(|c|) then 0 else LittleEndian(c) + 1
  {
    var r := Increment(c);
    assert r[1..] == Increment(c[1..]);
    Carry(c[0] as nat, LittleEndian(c[1..]), Pow256(|c| - 1), LittleEndian(r), LittleEndian(Increment(c[1..])));
  }

  /** The arithmetic of one carry step: x is the first byte, L the value of the rest, P its bound. */
  lemma Carry(x: nat, L: nat, P: nat, R: nat, R': nat)
    requires x < 256 && L < P
    requires x < 255 ==> R == x + 1 + 256 * L
    requires x == 255 ==> R == 256 * R' && R' == if L + 1 == P then 0 else L + 1
    ensures R == if x + 256 * L + 1 == 256 * P then 0 else x + 256 * L + 1
  {
  }

  lemma ByteSucc(x: bv8)
    requires x < 255
    ensures (x + 1) as nat == x as nat + 1
  {
  }

  /** 2^128, the modulus of the 16-byte counter. */
  const TWO_128: nat := 0x1_0000_0000_0000_0000_0000_0000_0000_0000

  lemma Pow16()
    ensures Pow256(16) == TWO_128
  {
    assert Pow256(4) == 0x1_0000_0000;
    assert Pow256(8) == 0x1_0000_0000_0000_0000;
    assert Pow256(12) == 0x1_0000_0000_0000_0000_0000_0000;
  }

  lemma WrapOne(x: nat, y: nat)
    requires x < TWO_128 && y == if x + 1 == TWO_128 then 0 else x + 1
    ensures y == (x + 1) % 0x1_0000_0000_0000_0000_0000_0000_0000_0000
  {
  }

  /** On the 16-byte counter the carry loop adds one modulo 2^128. */
  lemma CounterIncrement(c: seq<bv8>)
    requires |c| == 16
    ensures LittleEndian(Increment(c)) == (LittleEndian(c) + 1) % 0x1_0000_0000_0000_0000_0000_0000_0000_0000
  {
    IncrementValue(c);
    LittleEndianBound(c);
    Pow16();
    WrapOne(LittleEndian(c), LittleEndian(Increment(c)));
  }

  /** The k bytes of b from offset o on, read little-endian. */
  function LittleEndianAt(b: seq<bv8>, o: nat, k: nat): nat
    requires o + k <= |b|
    decreases k
  {
    if k == 0 then 0 else b[o] as nat + 256 * LittleEndianAt(b, o + 1, k - 1)
  }

  lemma {:induction false} LittleEndianAtBound(b: seq<bv8>, o: nat, k: nat)
    requires o + k <= |b|
    ensures LittleEndianAt(b, o, k) < Pow256(k)
    decreases k
  {
    if k > 0 {
      LittleEndianAtBound(b, o + 1, k - 1);
    }
  }

  lemma Pow8()
    ensures Pow256(8) == 0x1_0000_0000_0000_0000
  {
    assert Pow256(4) == 0x1_0000_0000;
  }

  /** The 64-bit word at offset o, byte by byte. */
  lemma WordBytes(b: seq<bv8>, o: nat)
    requires o + 8 <= |b|
    ensures LittleEndianAt(b, o, 8) == b[o] as nat + 256 * (b[o + 1] as nat + 256 * (b[o + 2] as nat
            + 256 * (b[o + 3] as nat + 256 * (b[o + 4] as nat + 256 * (b[o + 5] as nat
            + 256 * (b[o + 6] as nat + 256 * b[o + 7] as nat))))))
  {
    FourBytes(b, o, 4);
    FourBytes(b, o + 4, 0);
  }

  /** Four bytes from offset o, then the k bytes above them. */
  lemma FourBytes(b: seq<bv8>, o: nat, k: nat)
    requires o + 4 + k <= |b|
    ensures LittleEndianAt(b, o, 4 + k) == b[o] as nat + 256 * (b[o + 1] as nat + 256 * (b[o + 2] as nat
            + 256 * (b[o + 3] as nat + 256 * LittleEndianAt(b, o + 4, k))))
  {
    AtUnfold(b, o, 4 + k); AtUnfold(b, o + 1, 3 + k); AtUnfold(b, o + 2, 2 + k); AtUnfold(b, o + 3, 1 + k);
  }

  lemma AtUnfold(b: seq<bv8>, o: nat, k: nat)
    requires o + k <= |b| && k > 0
    ensures LittleEndianAt(b, o, k) == b[o] as nat + 256 * LittleEndianAt(b, o + 1, k - 1)
  {
  }

  /**
   * The 53-bit integer of one draw: the 64-bit little-endian word at offset o of the block with
   * its low 11 bits dropped. MantissaFormula shows it is what chainrand.js:398-406 computes.
   */
  function Mantissa(b: seq<bv8>, o: nat): (m: nat)
    requires o + 8 <= |b|
    ensures m < TWO_53
  {
    LittleEndianAtBound(b, o, 8);
    Pow8();
    LittleEndianAt(b, o, 8) / 2048
  }

  lemma ShiftIsDivision(x: bv8)
    ensures (x >> 3) as nat == x as nat / 8
  {
  }

  /** Dropping the low 11 bits of eight bytes leaves the top five bits of the second and the six above. */
  lemma TopBits(L: nat, y0: nat, y1: nat, t: nat, y2: nat, y3: nat, y4: nat, y5: nat, y6: nat, y7: nat)
    requires y0 < 256 && y1 < 256 && t == y1 / 8
    requires L == y0 + 256 * (y1 + 256 * (y2 + 256 * (y3 + 256 * (y4 + 256 * (y5 + 256 * (y6 + 256 * y7))))))
    ensures L / 2048 == t + y2 * 32 + y3 * 8192 + y4 * 2097152 + y5 * 536870912 + y6 * 137438953472 + y7 * 35184372088832
  {
    var high := y2 + 256 * (y3 + 256 * (y4 + 256 * (y5 + 256 * (y6 + 256 * y7))));
    assert L == (y0 + 256 * y1) + 2048 * (32 * high);
    assert (y0 + 256 * y1) / 2048 == y1 / 8;
  }

  /**
   * The source's formula (chainrand.js:398-406): the top five bits of byte o + 1, then bytes
   * o + 2 .. o + 7 above them, each scaled by its power of two.
   */
  lemma MantissaFormula(b: seq<bv8>, o: nat)
    requires o + 8 <= |b|
    ensures Mantissa(b, o) == (b[o + 1] >> 3) as nat + b[o + 2] as nat * 32 + b[o + 3] as nat * 8192
            + b[o + 4] as nat * 2097152 + b[o + 5] as nat * 536870912
            + b[o + 6] as nat * 137438953472 + b[o + 7] as nat * 35184372088832
  {
    WordBytes(b, o);
    ShiftIsDivision(b[o + 1]);
    TopBits(LittleEndianAt(b, o, 8), b[o] as nat, b[o + 1] as nat, (b[o + 1] >> 3) as nat, b[o + 2] as nat,
            b[o + 3] as nat, b[o + 4] as nat, b[o + 5] as nat, b[o + 6] as nat, b[o + 7] as nat);
  }

  /** Byte o of the block does not reach the draw. */
  lemma MantissaSkipsFirstByte(b: seq<bv8>, o: nat, x: bv8)
    requires o + 8 <= |b|
    ensures Mantissa(b[o := x], o) == Mantissa(b, o)
  {
    MantissaFormula(b, o);
    MantissaFormula(b[o := x], o);
  }

  /** The draw `self` returns for the integer m: m / 2^53, a number in [0, 1). */
  function Uniform(m: nat): (u: real)
    requires m < TWO_53
    ensures 0.0 <= u < 1.0
  {
    m as real / TWO_53 as real
  }

  /** The variables of one generator that the draws update. */
  datatype Engine = Engine(roundKey: seq<bv8>, iv: seq<bv8>, counter: seq<bv8>, buf: seq<bv8>, bufOffset: nat)
  {
    predicate Valid() {
      |roundKey| == 240 && |iv| == 16 && |counter| == 16 && |buf| == 16 && bufOffset in {0, 8, 16}
    }
  }

  /**
   * The generator that CRNG(seed) returns (chainrand.js:23-27, 257-261, 362): the key schedule of
   * SHA-256 of the seed's UTF-8 bytes, and zero feedback, counter and block.
   */
  function Init(seed: seq<bv16>): (e: Engine)
    ensures e.Valid() && e.bufOffset == 0 && LittleEndian(e.counter) == 0
  {
    LittleEndianZeros(Zeros(16));
    Engine(KeyExpansion(Sha256Spec.Digest(Utf8.Encode(seed))), Zeros(16), Zeros(16), Zeros(16), 0)
  }

  /** n zero bytes. */
  function Zeros(n: nat): (z: seq<bv8>)
    ensures |z| == n && forall j :: 0 <= j < n ==> z[j] == 0
  {
    seq(n, _ => 0)
  }

  lemma {:induction false} LittleEndianZeros(b: seq<bv8>)
    requires forall n :: 0 <= n < |b| ==> b[n] == 0
    ensures LittleEndian(b) == 0
  {
    if b != [] {
      LittleEndianZeros(b[1..]);
    }
  }

  /**
   * A new block (chainrand.js:369-396): the counter XOR the feedback, encrypted under the round
   * keys, becomes both the block and the feedback, and the counter goes through the carry loop.
   */
  function NextBlock(e: Engine): (e': Engine)
    requires e.Valid()
    ensures e'.Valid() && e'.roundKey == e.roundKey && e'.bufOffset == e.bufOffset
    ensures e'.iv == e'.buf
  {
    var out := Cipher(AddRoundKey(e.counter, e.iv, 0), e.roundKey);
    e.(iv := out, counter := Increment(e.counter), buf := out)
  }

  /** Each new block moves the counter's little-endian value up by one, modulo 2^128. */
  lemma BlockCounter(e: Engine)
    requires e.Valid()
    ensures LittleEndian(NextBlock(e).counter) == (LittleEndian(e.counter) + 1) % 0x1_0000_0000_0000_0000_0000_0000_0000_0000
  {
    CounterIncrement(e.counter);
  }

  /**
   * One call of `self` (chainrand.js:364-408): the state after it and the 53-bit integer it
   * divides by 2^53. A block is made whenever the offset had no 8 bytes left or was 0.
   */
  function Step(e: Engine): (r: (Engine, nat))
    requires e.Valid()
    ensures r.0.Valid() && r.0.roundKey == e.roundKey && r.0.bufOffset in {8, 16}
    ensures r.1 < TWO_53
  {
    var o := if e.bufOffset + 8 > 16 then 0 else e.bufOffset;
    var f := if o == 0 then NextBlock(e) else e;
    (f.(bufOffset := o + 8), Mantissa(f.buf, o))
  }

  /** The state after n calls of `self` and the n integers they produced, in order. */
  function Trace(e: Engine, n: nat): (r: (Engine, seq<nat>))
    requires e.Valid()
    ensures r.0.Valid() && r.0.roundKey == e.roundKey && |r.1| == n
    ensures forall i :: 0 <= i < n ==> r.1[i] < TWO_53
    decreases n
  {
    if n == 0 then (e, [])
    else
      var p := Trace(e, n - 1);
      var s := Step(p.0);
      (s.0, p.1 + [s.1])
  }

  /** One more call of `self` extends the trace by its state and its integer. */
  lemma TraceNext(e: Engine, k: nat)
    requires e.Valid()
    ensures Trace(e, k + 1).0 == Step(Trace(e, k).0).0
    ensures Trace(e, k + 1).1 == Trace(e, k).1 + [Step(Trace(e, k).0).1]
  {
  }

  /** Two calls read both halves of one block: the first makes the block, the second does not. */
  lemma TwoDrawsPerBlock(e: Engine)
    requires e.Valid() && e.bufOffset != 8
    ensures var (e1, m1) := Step(e);
            var (e2, m2) := Step(e1);
            e1 == NextBlock(e).(bufOffset := 8) && e2 == e1.(bufOffset := 16)
            && m1 == Mantissa(e1.buf, 0) && m2 == Mantissa(e1.buf, 8)
  {
  }

  /** The counter after n blocks. */
  function Increments(c: seq<bv8>, n: nat): (r: seq<bv8>)
    ensures |r| == |c|
    decreases n
  {
    if n == 0 then c else Increments(Increment(c), n - 1)
  }

  /** n blocks move a 16-byte counter up by n, modulo 2^128. */
  lemma {:induction false} IncrementsValue(c: seq<bv8>, n: nat)
    requires |c| == 16
    ensures LittleEndian(Increments(c, n)) == (LittleEndian(c) + n) % 0x1_0000_0000_0000_0000_0000_0000_0000_0000
    decreases n
  {
    if n == 0 {
      LittleEndianBound(c);
      Pow16();
      SmallMod(LittleEndian(c), LittleEndian(Increments(c, 0)));
    } else {
      IncrementsValue(Increment(c), n - 1);
      IncrementsStep(c, n);
    }
  }

  lemma IncrementsStep(c: seq<bv8>, n: nat)
    requires |c| == 16 && n > 0
    requires LittleEndian(Increments(Increment(c), n - 1))
             == (LittleEndian(Increment(c)) + (n - 1)) % 0x1_0000_0000_0000_0000_0000_0000_0000_0000
    ensures LittleEndian(Increments(c, n)) == (LittleEndian(c) + n) % 0x1_0000_0000_0000_0000_0000_0000_0000_0000
  {
    var c1 := Increment(c);
    assert Increments(c, n) == Increments(c1, n - 1);
    CounterIncrement(c);
    ModAddOne(LittleEndian(c), LittleEndian(c1), LittleEndian(Increments(c1, n - 1)), n);
  }

  /** Fewer than 2^128 blocks never bring the counter back to where it started. */
  lemma CounterNoRepeat(c: seq<bv8>, n: nat)
    requires |c| == 16 && 0 < n < TWO_128
    ensures Increments(c, n) != c
  {
    IncrementsValue(c, n);
    LittleEndianBound(c);
    Pow16();
    NoWrap(LittleEndian(c), LittleEndian(Increments(c, n)), n);
  }

  lemma NoWrap(x: nat, y: nat, n: nat)
    requires x < TWO_128 && 0 < n < TWO_128
    requires y == (x + n) % 0x1_0000_0000_0000_0000_0000_0000_0000_0000
    ensures y != x
  {
  }

  lemma SmallMod(x: nat, y: nat)
    requires x < TWO_128 && y == x
    ensures y == (x + 0) % 0x1_0000_0000_0000_0000_0000_0000_0000_0000
  {
  }

  lemma ModAddOne(c: nat, c2: nat, c': nat, n: nat)
    requires n > 0 && c2 == (c + 1) % 0x1_0000_0000_0000_0000_0000_0000_0000_0000 && c' == (c2 + (n - 1)) % 0x1_0000_0000_0000_0000_0000_0000_0000_0000
    ensures c' == (c + n) % 0x1_0000_0000_0000_0000_0000_0000_0000_0000
  {
  }
}
