/**
 * The generator object of chainrand.js (chainrand.js:23-27, 257-261, 362-411): the captured
 * arrays `_roundKey`, `_iv`, `_counter` and `_buf` and the offset `_bufOffset`, updated in place
 * by each call of `self`. Every method is proved against the functions of KeystreamSpec.
 */
module Chainrand {
  import opened KeystreamSpec
  import opened AesSpec
  import Aes
  import Sha256
  import Sha256Spec
  import Utf8
  import D = DistributionSpec
  import opened Options

  /** Copies the 16 bytes of src into dst, as the two copy loops of `self` do. */
  method Copy(dst: array<bv8>, src: array<bv8>)
    requires dst.Length == 16 && src.Length == 16 && dst != src
    modifies dst
    ensures dst[..] == src[..]
  {
    var i := 0;
    while i < 16
      invariant 0 <= i <= 16
      invariant dst[..i] == src[..i]
    {
      dst[i] := src[i];
      i := i + 1;
    }
  }

  /** `expandKey(_roundKey, sha256(seed))` (chainrand.js:362). */
  method KeySchedule(roundKey: array<bv8>, seed: seq<bv16>)
    requires roundKey.Length == 240
    modifies roundKey
    ensures roundKey[..] == KeyExpansion(Sha256Spec.Digest(Utf8.Encode(seed)))
  {
    var key := Sha256.Sha256(seed);
    Aes.ExpandKey(roundKey, key);
  }

  /** A run of 255s at the front of c carries: each becomes 0 and the rest is incremented. */
  lemma {:induction false} CarryPrefix(c: seq<bv8>, i: nat)
    requires i <= |c| && forall j :: 0 <= j < i ==> c[j] == 255
    ensures Increment(c) == Zeros(i) + Increment(c[i..])
    decreases i
  {
    if i == 0 {
      assert c[0..] == c;
    } else {
      var t := c[1..];
      CarryPrefix(t, i - 1);
      assert t[i - 1..] == c[i..];
      CarryOne(c);
      ZerosCons(i, Increment(c[i..]));
    }
  }

  /** The first byte of c is 255: it becomes 0 and the carry moves on. */
  lemma CarryOne(c: seq<bv8>)
    requires |c| > 0 && c[0] == 255
    ensures Increment(c) == [0] + Increment(c[1..])
  {
  }

  /** The first byte of c is below 255: it goes up by one and the loop stops. */
  lemma StopOne(c: seq<bv8>)
    requires |c| > 0 && c[0] < 255
    ensures Increment(c) == [c[0] + 1] + c[1..]
  {
  }

  lemma ZerosCons(i: nat, t: seq<bv8>)
    requires i > 0
    ensures [0] + (Zeros(i - 1) + t) == Zeros(i) + t
  {
    assert Zeros(i) == [0] + Zeros(i - 1);
  }

  /** The carry loop stops at the first byte below 255 and adds one to it. */
  lemma StopsAt(c: seq<bv8>, i: nat)
    requires i < |c| && c[i] < 255 && forall j :: 0 <= j < i ==> c[j] == 255
    ensures Increment(c) == Zeros(i) + ([c[i] + 1] + c[i + 1..])
  {
    CarryPrefix(c, i);
    var t := c[i..];
    assert t[0] == c[i] && t[1..] == c[i + 1..];
    StopOne(t);
  }

  /** The counter after the carry loop zeroed bytes 0..i-1 and added one to byte i. */
  lemma BumpAt(c: seq<bv8>, i: nat)
    requires i < |c| && c[i] < 255
    ensures (Zeros(i) + c[i..])[i := c[i] + 1] == Zeros(i) + ([c[i] + 1] + c[i + 1..])
  {
    assert c[i..] == [c[i]] + c[i + 1..];
  }

  /** A counter of 255s only wraps to zeros. */
  lemma AllCarry(c: seq<bv8>)
    requires forall j :: 0 <= j < |c| ==> c[j] == 255
    ensures Increment(c) == Zeros(|c|)
  {
    CarryPrefix(c, |c|);
    assert c[|c|..] == [];
  }

  /**
   * The weights the draw loop uses and their total (chainrand.js:460-478): the caller's first
   * min(|population|, |weights|) weights when they sum above zero, else 1 for every item. The
   * source reads `weighted ? weights[i] : 1` inside the loop; here that weight is ws[i].
   */
  method Weights(popLen: nat, weights: Option<seq<nat>>) returns (ws: seq<nat>, weightsSum: nat)
    ensures ws == D.ScanWeights(popLen, weights) && weightsSum == D.Sum(ws)
  {
    var n := popLen;
    var weighted := weights.Some?;
    weightsSum := 0;
    if weighted {
      var w := weights.value;
      n := D.Min(n, |w|);
      var i := 0;
      while i < n
        invariant 0 <= i <= n <= |w|
        invariant weightsSum == D.Sum(w[..i])
      {
        weightsSum := weightsSum + w[i];
        assert w[..i + 1][..i] == w[..i];
        i := i + 1;
      }
      weighted := weightsSum > 0;
      if weighted {
        ws := w[..n];
        return;
      }
    }
    n := popLen;
    weightsSum := n;
    ws := D.Ones(n);
    D.SumOnes(n, n);
    assert ws[..n] == ws;
  }

  /**
   * The scan of one draw (chainrand.js:481-489) on r scaled by 2^53: the weight of each
   * unvisited item comes off r and the first to take it below zero is picked.
   */
  method ScanLoop(ws: seq<nat>, visited: seq<bool>, r: int) returns (pick: Option<nat>)
    requires |visited| == |ws|
    ensures pick == D.Scan(ws, visited, r, 0)
  {
    var i := 0;
    var rest := r;
    while i < |ws|
      invariant 0 <= i <= |ws|
      invariant D.Scan(ws, visited, r, 0) == D.Scan(ws, visited, rest, i)
    {
      if !visited[i] {
        rest := rest - ws[i] * TWO_53;
        if rest < 0 {
          return Some(i);
        }
      }
      i := i + 1;
    }
    return None;
  }

  /**
   * The padding loop (chainrand.js:491-495) with the correction that it stops once k items are
   * collected: unvisited items are appended in order.
   */
  method Pad<T>(population: seq<T>, visited: seq<bool>, collected: seq<T>, ghost picks: seq<nat>, k: nat)
    returns (padded: seq<T>, ghost positions: seq<nat>)
    requires |visited| <= |population| && |collected| < k
    requires forall t :: 0 <= t < |picks| ==> picks[t] < |population|
    requires collected == D.Elements(population, picks)
    ensures var u := D.Unvisited(visited, 0);
            positions == picks + u[..D.Min(k - |picks|, |u|)]
    ensures forall t :: 0 <= t < |positions| ==> positions[t] < |population|
    ensures padded == D.Elements(population, positions)
  {
    ghost var taken: seq<nat> := [];
    padded, positions := collected, picks;
    var i: nat := 0;
    D.PadStart(population, visited, picks);
    while i < |visited| && |padded| < k
      invariant D.Padding(population, visited, picks, taken, positions, i) && |positions| <= k
      invariant padded == D.Elements(population, positions)
    {
      D.PadNext(population, visited, picks, taken, positions, i);
      if !visited[i] {
        D.ElementsAppend(population, positions, i);
        padded := padded + [population[i]];
        positions := positions + [i];
        taken := taken + [i];
      }
      i := i + 1;
    }
    D.PadEnd(population, visited, picks, taken, positions, i, k);
  }

  /**
   * The end of the draw loop of `sample` (chainrand.js:491-495): the items drawn, padded with
   * unvisited positions when fewer than size were drawn.
   */
  method Complete<T>(pop: seq<T>, ws: seq<nat>, size: nat, visited: seq<bool>, collected: seq<T>,
                     ghost positions: seq<nat>, ghost picks: seq<nat>)
    returns (items: seq<T>)
    requires |ws| <= |pop| && |picks| == size && D.Draws(picks)
    requires D.PickAll(ws, picks).picks == positions && D.PickAll(ws, picks).visited == visited
    requires forall t :: 0 <= t < |positions| ==> positions[t] < |pop|
    requires collected == D.Elements(pop, positions)
    ensures items == D.Elements(pop, D.Collected(ws, size, picks))
  {
    D.PickAllPicked(ws, picks);
    items := collected;
    if |collected| < size {
      ghost var padded;
      items, padded := Pad(pop, visited, collected, positions, size);
    }
  }

  /** `t = x[j]; x[j] = x[i]; x[i] = t` (chainrand.js:452-454). */
  method SwapAt<T>(x: array<T>, i: nat, j: nat)
    requires i < x.Length && j < x.Length
    modifies x
    ensures x[..] == D.Swap(old(x[..]), i, j)
  {
    var t := x[j];
    x[j] := x[i];
    x[i] := t;
  }

  class Crng {
    const roundKey: array<bv8>
    const iv: array<bv8>
    const counter: array<bv8>
    const buf: array<bv8>
    var bufOffset: nat

    /** The sizes that `arrayFill` gives the arrays, four distinct arrays, and an offset of 0, 8 or 16. */
    ghost predicate Valid()
      reads this
    {
      roundKey.Length == 240 && iv.Length == 16 && counter.Length == 16 && buf.Length == 16
      && roundKey != iv && roundKey != counter && roundKey != buf
      && iv != counter && iv != buf && counter != buf
      && bufOffset in {0, 8, 16}
    }

    /** The generator's variables as one value. */
    function State(): Engine
      reads this, roundKey, iv, counter, buf
    {
      Engine(roundKey[..], iv[..], counter[..], buf[..], bufOffset)
    }

    /**
     * CRNG(seed) (chainrand.js:23-27, 257-261, 362): four zero-filled arrays, offset 0, then the
     * key schedule of the SHA-256 digest of the seed.
     */
    constructor (seed: seq<bv16>)
      ensures Valid() && State() == Init(seed)
      ensures fresh(roundKey) && fresh(iv) && fresh(counter) && fresh(buf)
    {
      roundKey := new bv8[240](_ => 0);
      iv := new bv8[16](_ => 0);
      counter := new bv8[16](_ => 0);
      buf := new bv8[16](_ => 0);
      bufOffset := 0;
      new;
      assert Valid();
      assert iv[..] == Zeros(16) && counter[..] == Zeros(16) && buf[..] == Zeros(16);
      KeySchedule(roundKey, seed);
      assert State() == Engine(roundKey[..], Zeros(16), Zeros(16), Zeros(16), 0);
    }

    /**
     * The carry loop (chainrand.js:390-396): bytes of 255 become 0 until the first byte below
     * 255, which goes up by one.
     */
    method IncrementCounter()
      requires Valid()
      modifies counter
      ensures counter[..] == Increment(old(counter[..]))
    {
      ghost var c := counter[..];
      var i := 0;
      while i < 16
        invariant 0 <= i <= 16
        invariant counter[..i] == Zeros(i) && counter[i..] == c[i..]
        invariant forall j :: 0 <= j < i ==> c[j] == 255
        decreases 16 - i
      {
        assert counter[i] == c[i];
        if counter[i] < 255 {
          StopsAt(c, i);
          ghost var pre := counter[..];
          assert pre == pre[..i] + pre[i..];
          counter[i] := counter[i] + 1;
          assert counter[..] == pre[i := c[i] + 1];
          BumpAt(c, i);
          return;
        }
        counter[i] := 0;
        assert counter[..i + 1] == Zeros(i + 1);
        i := i + 1;
      }
      AllCarry(c);
      assert counter[..] == counter[..16];
    }

    /**
     * A new block (chainrand.js:369-396): the counter into the block, XOR-ed with the feedback,
     * encrypted, copied to the feedback, and the counter moved on.
     */
    method Refill()
      requires Valid()
      modifies iv, counter, buf
      ensures Valid() && State() == NextBlock(old(State()))
    {
      Copy(buf, counter);
      Aes.ApplyRoundKey(0, buf, iv);
      Aes.Encrypt(buf, roundKey);
      Copy(iv, buf);
      IncrementCounter();
    }

    /** The 53-bit integer that `self` builds from bytes offset + 1 .. offset + 7 (chainrand.js:398-406). */
    method ReadMantissa() returns (m: nat)
      requires Valid() && bufOffset + 8 <= 16
      ensures m == Mantissa(buf[..], bufOffset)
    {
      var o := bufOffset;
      m := (buf[o + 1] >> 3) as nat + buf[o + 2] as nat * 32 + buf[o + 3] as nat * 8192
           + buf[o + 4] as nat * 2097152 + buf[o + 5] as nat * 536870912
           + buf[o + 6] as nat * 137438953472 + buf[o + 7] as nat * 35184372088832;
      MantissaFormula(buf[..], o);
    }

    /**
     * One call of `self` up to the division (chainrand.js:364-407): the offset wraps when fewer
     * than 8 bytes remain, a block is made at offset 0, the integer is read and the offset moves on.
     */
    method Next() returns (m: nat)
      requires Valid()
      modifies this, iv, counter, buf
      ensures Valid() && State() == Step(old(State())).0 && m == Step(old(State())).1
    {
      if bufOffset + 8 > 16 {
        bufOffset := 0;
      }
      if bufOffset == 0 {
        Refill();
      }
      m := ReadMantissa();
      bufOffset := bufOffset + 8;
    }

    /** `self()` and `self.random()` (chainrand.js:364-411): the integer divided by 2^53. */
    method Random() returns (u: real)
      requires Valid()
      modifies this, iv, counter, buf
      ensures Valid() && State() == Step(old(State())).0 && u == Uniform(Step(old(State())).1)
      ensures 0.0 <= u < 1.0
    {
      var m := Next();
      u := Uniform(m);
    }

    /** The generator's own arrays, which a caller's array is not. */
    predicate Apart(o: object)
    {
      o != roundKey && o != iv && o != counter && o != buf
    }

    /** The generator stands where the calls recorded in drawn have left it, starting from e0. */
    ghost predicate Traced(e0: Engine, drawn: seq<nat>)
      reads this, roundKey, iv, counter, buf
    {
      e0.Valid() && forall n {:trigger Trace(e0, n)} :: n == |drawn| ==> Trace(e0, n) == (State(), drawn)
    }

    /** One call of `self`, recorded in the trace of the calls made since the state e0. */
    method Draw(ghost e0: Engine, ghost drawn: seq<nat>) returns (m: nat, ghost drawn': seq<nat>)
      requires Valid() && Traced(e0, drawn)
      modifies this, iv, counter, buf
      ensures Valid() && drawn' == drawn + [m] && m < TWO_53
      ensures Traced(e0, drawn')
    {
      m := Next();
      TraceNext(e0, |drawn|);
      drawn' := drawn + [m];
    }

    /**
     * `randint(a, b)` (chainrand.js:433-447): null without a number and no call of `self`;
     * otherwise one call and the integer of [lo, hi] it lands on.
     */
    method Randint(a: Option<int>, b: Option<int>) returns (r: Option<int>)
      requires Valid()
      modifies this, iv, counter, buf
      ensures Valid()
      ensures D.RandintBounds(a, b).None? ==> r.None? && State() == old(State())
      ensures D.RandintBounds(a, b).Some? ==>
                State() == Step(old(State())).0
                && r == Some(D.Randint(D.RandintBounds(a, b).value.0, D.RandintBounds(a, b).value.1, Step(old(State())).1))
    {
      var x, y := a, b;
      if x.None? {
        if y.None? {
          return None;
        }
        x, y := y, x;
      }
      var lo, hi := x.value, 0;
      if y.None? {
        lo, hi := 0, x.value;
      } else {
        hi := y.value;
      }
      if hi < lo {
        lo, hi := hi, lo;
      }
      ghost var e := old(State());
      var m := Next();
      assert m == Step(e).1;
      assert D.RandintBounds(a, b) == Some((lo, hi));
      r := Some(D.Randint(lo, hi, m));
    }

    /**
     * `randrange(start, stop, step)` (chainrand.js:413-431): null without a number and no call of
     * `self`; otherwise one call, and NaN for a step of zero.
     */
    method Randrange(start: Option<int>, stop: Option<int>, step: Option<int>) returns (r: Option<D.Outcome>)
      requires Valid()
      modifies this, iv, counter, buf
      ensures Valid()
      ensures D.RangeArgs(start, stop, step).None? ==> r.None? && State() == old(State())
      ensures D.RangeArgs(start, stop, step).Some? ==>
                State() == Step(old(State())).0
                && r == Some(D.Randrange(D.RangeArgs(start, stop, step).value, Step(old(State())).1))
    {
      var s0, t0 := start, stop;
      if s0.None? {
        if t0.None? {
          return None;
        }
        s0, t0 := t0, s0;
      }
      var lo, hi := s0.value, 0;
      if t0.None? {
        lo, hi := 0, s0.value;
      } else {
        hi := t0.value;
      }
      var st := if step.None? then 1 else step.value;
      if hi < lo {
        st := -st;
      }
      assert D.RangeArgs(start, stop, step) == Some(D.Range(lo, hi, st));
      ghost var e := old(State());
      var m := Next();
      assert m == Step(e).1;
      r := Some(D.Randrange(D.Range(lo, hi, st), m));
    }

    /**
     * The shuffle loop (chainrand.js:450-455) on x in place, its draws appended to the trace of
     * the calls made since e0.
     */
    method ShuffleTraced<T>(x: array<T>, ghost e0: Engine, ghost drawn: seq<nat>) returns (ghost drawn': seq<nat>)
      requires Valid() && Traced(e0, drawn) && Apart(x)
      modifies this, iv, counter, buf, x
      ensures Valid() && Traced(e0, drawn')
      ensures |drawn'| == |drawn| + D.ShuffleDraws(x.Length) && drawn'[..|drawn|] == drawn
      ensures D.Draws(drawn'[|drawn|..]) && x[..] == D.Shuffled(old(x[..]), drawn'[|drawn|..])
    {
      ghost var s := x[..];
      ghost var ds: seq<nat> := [];
      drawn' := drawn;
      var i := x.Length - 1;
      while i > 0
        invariant -1 <= i < x.Length && (x.Length > 0 ==> 0 <= i) && |ds| == x.Length - 1 - i && D.Draws(ds)
        invariant Valid() && drawn' == drawn + ds && Traced(e0, drawn')
        invariant |s| == x.Length && (x.Length > 0 ==> x[..] == D.Shuffling(s, ds))
      {
        var m;
        m, drawn' := Draw(e0, drawn');
        D.ShufflingNext(s, ds, m, i);
        ds := ds + [m];
        SwapAt(x, i, D.Scale(i + 1, m));
        i := i - 1;
      }
      assert drawn'[|drawn|..] == ds;
    }

    /**
     * `shuffle(x)` (chainrand.js:449-457): x.Length - 1 calls of `self`, and x permuted in place
     * by the draws.
     */
    method Shuffle<T>(x: array<T>) returns (ghost drawn: seq<nat>)
      requires Valid() && Apart(x)
      modifies this, iv, counter, buf, x
      ensures Valid() && Traced(old(State()), drawn)
      ensures |drawn| == D.ShuffleDraws(x.Length) && D.Draws(drawn)
      ensures x[..] == D.Shuffled(old(x[..]), drawn)
    {
      ghost var e0 := State();
      drawn := ShuffleTraced(x, e0, []);
      assert drawn[0..] == drawn;
    }

    /**
     * The draw loop of `sample` (chainrand.js:479-490): size calls of `self`, each scanning the
     * unvisited weights for the position the draw falls in.
     */
    method DrawLoop<T>(pop: seq<T>, ws: seq<nat>, weightsSum: int, size: nat, ghost e0: Engine)
      returns (visited: seq<bool>, collected: seq<T>, ghost positions: seq<nat>, ghost picks: seq<nat>)
      requires Valid() && Traced(e0, []) && |ws| <= |pop| && weightsSum == D.Sum(ws)
      modifies this, iv, counter, buf
      ensures Valid() && Traced(e0, picks) && |picks| == size && D.Draws(picks)
      ensures D.PickAll(ws, picks).picks == positions && D.PickAll(ws, picks).visited == visited
      ensures forall t :: 0 <= t < |positions| ==> positions[t] < |pop|
      ensures collected == D.Elements(pop, positions)
    {
      picks, positions, collected := [], [], [];
      visited := D.Falses(|ws|);
      var sum := weightsSum;
      var j := 0;
      while j < size
        invariant 0 <= j <= size && |picks| == j && D.Draws(picks)
        invariant Valid() && Traced(e0, picks)
        invariant D.PickAll(ws, picks) == D.Picking(positions, visited, sum)
        invariant forall t :: 0 <= t < |positions| ==> positions[t] < |pop|
        invariant collected == D.Elements(pop, positions)
      {
        ghost var before := picks;
        var m;
        m, picks := Draw(e0, picks);
        assert picks[..|picks| - 1] == before;
        var pick := ScanLoop(ws, visited, sum * m);
        if pick.Some? {
          var i := pick.value;
          collected := collected + [pop[i]];
          sum := sum - ws[i];
          visited := visited[i := true];
          positions := positions + [i];
        }
        j := j + 1;
      }
    }

    /**
     * The closing `shuffle` of `sample` (chainrand.js:496) on a fresh array holding the collected
     * items, its draws appended to the trace.
     */
    method ShuffleItems<T>(items: seq<T>, ghost e0: Engine, ghost drawn: seq<nat>)
      returns (result: seq<T>, ghost shuffles: seq<nat>)
      requires Valid() && Traced(e0, drawn)
      modifies this, iv, counter, buf
      ensures Valid() && Traced(e0, drawn + shuffles)
      ensures |shuffles| == D.ShuffleDraws(|items|) && D.Draws(shuffles)
      ensures result == D.Shuffled(items, shuffles)
    {
      var x := new T[|items|](t requires 0 <= t < |items| => items[t]);
      assert x[..] == items;
      ghost var drawn' := ShuffleTraced(x, e0, drawn);
      shuffles := drawn'[|drawn|..];
      assert drawn + shuffles == drawn';
      result := x[..];
    }

    /**
     * `sample(population, k, weights)` (chainrand.js:459-497), with the padding stopped at k
     * items: no call of `self` for a missing population; otherwise k calls for the draw loop,
     * then the calls of the final shuffle.
     */
    method Sample<T>(population: Option<seq<T>>, k: Option<int>, weights: Option<seq<nat>>)
      returns (result: seq<T>, ghost picks: seq<nat>, ghost shuffles: seq<nat>)
      requires Valid()
      modifies this, iv, counter, buf
      ensures Valid() && Traced(old(State()), picks + shuffles)
      ensures population.None? ==> result == [] && picks == [] && shuffles == []
      ensures population.Some? ==>
                |picks| == D.SampleSize(k) && D.Draws(picks) && D.Draws(shuffles)
                && |shuffles| == D.ShuffleDraws(|D.SamplePositions(|population.value|, k, weights, picks)|)
                && result == D.Sample(population.value, k, weights, picks, shuffles)
    {
      ghost var e0 := State();
      picks, shuffles := [], [];
      if population.None? {
        return [], picks, shuffles;
      }
      var pop := population.value;
      var ws, weightsSum := Weights(|pop|, weights);
      var size := D.SampleSize(k);
      var visited, collected; ghost var positions;
      visited, collected, positions, picks := DrawLoop(pop, ws, weightsSum, size, e0);
      var items := Complete(pop, ws, size, visited, collected, positions, picks);
      assert D.SamplePositions(|pop|, k, weights, picks) == D.Collected(ws, size, picks);
      result, shuffles := ShuffleItems(items, e0, picks);
    }

    /**
     * `choice(population, weights)` (chainrand.js:499-502): the first item of a one-item sample,
     * null when that sample is empty.
     */
    method Choice<T>(population: Option<seq<T>>, weights: Option<seq<nat>>) returns (r: Option<T>, ghost drawn: seq<nat>)
      requires Valid()
      modifies this, iv, counter, buf
      ensures Valid() && Traced(old(State()), drawn)
      ensures population.None? ==> r.None? && drawn == []
      ensures population.Some? ==> |drawn| == 1 && drawn[0] < TWO_53 && r == D.Choice(population.value, weights, drawn[0])
    {
      var collected, picks, shuffles := Sample(population, Some(1), weights);
      drawn := picks + shuffles;
      if population.Some? {
        var c := D.SamplePositions(|population.value|, Some(1), weights, picks);
        D.CollectedSize(D.ScanWeights(|population.value|, weights), 1, picks);
        assert shuffles == [];
        D.ShuffleSingle(D.Elements(population.value, c));
        assert picks == [picks[0]];
      }
      r := if |collected| > 0 then Some(collected[0]) else None;
    }
  }
}
