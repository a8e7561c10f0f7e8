/**
 * The in-place AES-256 routines of chainrand.js (chainrand.js:265-360): each rewrites a byte
 * array and is proved to leave in it the value of the matching function of AesSpec.
 */
module Aes {
  import opened AesSpec

  /** The 60 words of the key schedule of key. */
  ghost function Schedule(key: seq<bv8>): (ws: seq<Word>)
    requires |key| == 32
    ensures |ws| == 60
  {
    seq(60, i requires 0 <= i < 60 => KeyWord(key, i))
  }

  /**
   * ws is the schedule of key. The trigger keeps the recursive KeyWord out of the proofs that
   * only need the facts the lemmas below draw from it.
   */
  ghost predicate IsSchedule(ws: seq<Word>, key: seq<bv8>) {
    |key| == 32 && forall k {:trigger Schedule(k)} :: k == key ==> ws == Schedule(k)
  }

  lemma ScheduleStart(ws: seq<Word>, key: seq<bv8>, i: nat)
    requires IsSchedule(ws, key) && i < 8
    ensures |ws| == 60 && ws[i] == Word(key[4 * i], key[4 * i + 1], key[4 * i + 2], key[4 * i + 3])
  {
    assert ws == Schedule(key);
  }

  lemma ScheduleStep(ws: seq<Word>, key: seq<bv8>, i: nat)
    requires IsSchedule(ws, key) && 8 <= i < 60
    ensures |ws| == 60 && ws[i] == XorWord(ws[i - 8], Temp(ws[i - 1], i))
  {
    assert ws == Schedule(key);
  }

  /** Word w of the bytes in rk. */
  function WordAt(rk: array<bv8>, w: nat): Word
    requires 4 * w + 4 <= rk.Length
    reads rk
  {
    Word(rk[4 * w], rk[4 * w + 1], rk[4 * w + 2], rk[4 * w + 3])
  }

  /** The first n words of ws are in rk, four bytes each. */
  ghost predicate Expanded(rk: array<bv8>, ws: seq<Word>, n: nat)
    requires n <= |ws| && 4 * n <= rk.Length
    reads rk
  {
    forall w :: 0 <= w < n ==> WordAt(rk, w) == ws[w]
  }

  /** A full schedule word by word is the schedule byte by byte. */
  lemma ExpandedAll(rk: array<bv8>, ws: seq<Word>, key: seq<bv8>)
    requires IsSchedule(ws, key) && rk.Length == 240 && |ws| == 60 && Expanded(rk, ws, 60)
    ensures rk[..] == KeyExpansion(key)
  {
    assert ws == Schedule(key);
    forall j | 0 <= j < 240
      ensures rk[j] == KeyExpansion(key)[j]
    {
      var w, r := j / 4, j % 4;
      assert j == 4 * w + r;
      assert WordAt(rk, w) == ws[w];
    }
  }

  /**
   * Writes word w of rk, four bytes, as each loop of expandKey does; every other byte stays.
   */
  method SetWord(rk: array<bv8>, w: nat, x: Word)
    requires 4 * w + 4 <= rk.Length
    modifies rk
    ensures WordAt(rk, w) == x
    ensures forall p :: 0 <= p < 4 * w ==> rk[p] == old(rk[p])
    ensures forall p :: 4 * w + 4 <= p < rk.Length ==> rk[p] == old(rk[p])
  {
    rk[4 * w] := x.b0;
    rk[4 * w + 1] := x.b1;
    rk[4 * w + 2] := x.b2;
    rk[4 * w + 3] := x.b3;
  }

  /**
   * expandKey (chainrand.js:265-310): the key's 32 bytes, then words 8..59, each the word 8
   * places back XOR-ed with the previous word, transformed every fourth word.
   */
  method ExpandKey(roundKey: array<bv8>, key: seq<bv8>)
    requires roundKey.Length == 240 && |key| == 32
    modifies roundKey
    ensures roundKey[..] == KeyExpansion(key)
  {
    ghost var ws := Schedule(key);
    assert IsSchedule(ws, key);
    var i := 0;
    while i < 8
      invariant 0 <= i <= 8
      invariant Expanded(roundKey, ws, i)
    {
      label Before:
      SetWord(roundKey, i, Word(key[i * 4 + 0], key[i * 4 + 1], key[i * 4 + 2], key[i * 4 + 3]));
      ScheduleStart(ws, key, i);
      forall w | 0 <= w < i
        ensures WordAt(roundKey, w) == ws[w]
      {
        assert WordAt(roundKey, w) == old@Before(WordAt(roundKey, w));
      }
      i := i + 1;
    }
    i := 8;
    while i < 60
      invariant 8 <= i <= 60
      invariant Expanded(roundKey, ws, i)
    {
      NextWord(roundKey, ws, key, i);
      i := i + 1;
    }
    ExpandedAll(roundKey, ws, key);
  }

  /** The transformation of word i - 1 on its way into word i, on four loose bytes as the source has them. */
  method Transform(t0: bv8, t1: bv8, t2: bv8, t3: bv8, i: nat) returns (u0: bv8, u1: bv8, u2: bv8, u3: bv8)
    requires 8 <= i < 60
    ensures Word(u0, u1, u2, u3) == Temp(Word(t0, t1, t2, t3), i)
  {
    u0, u1, u2, u3 := t0, t1, t2, t3;
    if i % 8 == 0 {
      var u8tmp := u0;
      u0 := u1;
      u1 := u2;
      u2 := u3;
      u3 := u8tmp;
      u0 := Sub(u0);
      u1 := Sub(u1);
      u2 := Sub(u2);
      u3 := Sub(u3);
      u0 := u0 ^ RCON[i / 8];
    }
    if i % 8 == 4 {
      u0 := Sub(u0);
      u1 := Sub(u1);
      u2 := Sub(u2);
      u3 := Sub(u3);
    }
  }

  /** One iteration of the second loop of expandKey: word i from words i - 1 and i - 8. */
  method NextWord(roundKey: array<bv8>, ghost ws: seq<Word>, ghost key: seq<bv8>, i: nat)
    requires roundKey.Length == 240 && IsSchedule(ws, key) && |ws| == 60 && 8 <= i < 60
    requires Expanded(roundKey, ws, i)
    modifies roundKey
    ensures Expanded(roundKey, ws, i + 1)
  {
    var k := (i - 1) * 4;
    var t0, t1, t2, t3 := roundKey[k + 0], roundKey[k + 1], roundKey[k + 2], roundKey[k + 3];
    assert WordAt(roundKey, i - 1) == ws[i - 1];
    t0, t1, t2, t3 := Transform(t0, t1, t2, t3, i);
    ScheduleStep(ws, key, i);
    XorInto(roundKey, ws, i, Word(t0, t1, t2, t3));
  }

  /** The end of that iteration: word i is word i - 8 XOR-ed with the transformed word temp. */
  method XorInto(roundKey: array<bv8>, ghost ws: seq<Word>, i: nat, temp: Word)
    requires roundKey.Length == 240 && |ws| == 60 && 8 <= i < 60
    requires Expanded(roundKey, ws, i) && ws[i] == XorWord(ws[i - 8], temp)
    modifies roundKey
    ensures Expanded(roundKey, ws, i + 1)
  {
    var k := (i - 8) * 4;
    assert WordAt(roundKey, i - 8) == ws[i - 8];
    var b0, b1, b2, b3 := roundKey[k + 0], roundKey[k + 1], roundKey[k + 2], roundKey[k + 3];
    SetWord(roundKey, i, Word(b0 ^ temp.b0, b1 ^ temp.b1, b2 ^ temp.b2, b3 ^ temp.b3));
    forall w | 0 <= w < i
      ensures WordAt(roundKey, w) == ws[w]
    {
      assert WordAt(roundKey, w) == old(WordAt(roundKey, w));
    }
  }

  /** subBytes (chainrand.js:312-315): every byte of the state through the S-box. */
  method ApplySubBytes(state: array<bv8>)
    requires state.Length == 16
    modifies state
    ensures state[..] == SubBytes(old(state[..]))
  {
    ghost var s := state[..];
    for i := 0 to 16
      invariant state[..] == SubBytes(s)[..i] + s[i..]
    {
      state[i] := Sub(state[i]);
    }
  }

  /** addRoundKey (chainrand.js:317-320): the state XOR-ed with bytes 16 * round .. 16 * round + 15 of key. */
  method ApplyRoundKey(round: nat, state: array<bv8>, key: array<bv8>)
    requires state.Length == 16 && 16 * round + 16 <= key.Length && state != key
    modifies state
    ensures state[..] == AddRoundKey(old(state[..]), key[..], round)
  {
    ghost var s, w := state[..], key[..];
    ghost var r := AddRoundKey(s, w, round);
    for i := 0 to 16
      invariant key[..] == w
      invariant state[..] == r[..i] + s[i..]
    {
      state[i] := state[i] ^ key[16 * round + i];
    }
  }

  /**
   * shiftRows (chainrand.js:322-344): row 1 rotated left by a chain of moves, row 2 by two swaps,
   * row 3 rotated right by a chain of moves.
   */
  method ApplyShiftRows(state: array<bv8>)
    requires state.Length == 16
    modifies state
    ensures state[..] == ShiftRows(old(state[..]))
  {
    ghost var s := state[..];
    RotateLeft(state, 1);
    Swap(state, 0 * 4 + 2, 2 * 4 + 2);
    Swap(state, 1 * 4 + 2, 3 * 4 + 2);
    RotateRight(state, 3);
    ShiftRowsByteWise(s, state[..]);
  }

  /** Row r moved one column left: each byte takes the one of the next column, the first goes last. */
  method RotateLeft(state: array<bv8>, r: nat)
    requires state.Length == 16 && r < 4
    modifies state
    ensures state[..] == old(state[..])[r := old(state[4 + r])][4 + r := old(state[8 + r])][8 + r := old(state[12 + r])][12 + r := old(state[r])]
  {
    var temp := state[0 * 4 + r];
    state[0 * 4 + r] := state[1 * 4 + r];
    state[1 * 4 + r] := state[2 * 4 + r];
    state[2 * 4 + r] := state[3 * 4 + r];
    state[3 * 4 + r] := temp;
  }

  /** Row r moved one column right: each byte takes the one of the previous column, the last goes first. */
  method RotateRight(state: array<bv8>, r: nat)
    requires state.Length == 16 && r < 4
    modifies state
    ensures state[..] == old(state[..])[r := old(state[12 + r])][12 + r := old(state[8 + r])][8 + r := old(state[4 + r])][4 + r := old(state[r])]
  {
    var temp := state[0 * 4 + r];
    state[0 * 4 + r] := state[3 * 4 + r];
    state[3 * 4 + r] := state[2 * 4 + r];
    state[2 * 4 + r] := state[1 * 4 + r];
    state[1 * 4 + r] := temp;
  }

  /** Bytes i and j exchanged through a temporary. */
  method Swap(state: array<bv8>, i: nat, j: nat)
    requires i < state.Length && j < state.Length
    modifies state
    ensures state[..] == old(state[..])[i := old(state[j])][j := old(state[i])]
  {
    var temp := state[i];
    state[i] := state[j];
    state[j] := temp;
  }

  /** t with column c, bytes 4c .. 4c + 3, replaced by the four bytes of m. */
  function SetColumn(t: seq<bv8>, c: nat, m: seq<bv8>): (r: seq<bv8>)
    requires |t| == 16 && c < 4 && |m| == 4
    ensures |r| == 16
  {
    t[4 * c := m[0]][4 * c + 1 := m[1]][4 * c + 2 := m[2]][4 * c + 3 := m[3]]
  }

  /** Column c of s after MixColumns. */
  function MixedColumn(s: seq<bv8>, c: nat): (m: seq<bv8>)
    requires |s| == 16 && c < 4
    ensures |m| == 4
  {
    MixColumn(s[4 * c], s[4 * c + 1], s[4 * c + 2], s[4 * c + 3])
  }

  /** s with its first n columns mixed, the state after n iterations of the loop of mixColumns. */
  function MixedUpTo(s: seq<bv8>, n: nat): (r: seq<bv8>)
    requires |s| == 16 && n <= 4
    ensures |r| == 16
  {
    if n == 0 then s else SetColumn(MixedUpTo(s, n - 1), n - 1, MixedColumn(s, n - 1))
  }

  /** Mixing the first n columns leaves the bytes from column n on as they were. */
  lemma {:induction false} MixedUpToKeeps(s: seq<bv8>, n: nat, p: nat)
    requires |s| == 16 && n <= 4 && 4 * n <= p < 16
    ensures MixedUpTo(s, n)[p] == s[p]
  {
    if n > 0 {
      MixedUpToKeeps(s, n - 1, p);
    }
  }

  /** Mixing column n of MixedUpTo(s, n) as it stands gives MixedUpTo(s, n + 1). */
  lemma MixedUpToNext(s: seq<bv8>, n: nat)
    requires |s| == 16 && n < 4
    ensures SetColumn(MixedUpTo(s, n), n, MixedColumn(MixedUpTo(s, n), n)) == MixedUpTo(s, n + 1)
  {
    var t := MixedUpTo(s, n);
    MixedUpToKeeps(s, n, 4 * n);
    MixedUpToKeeps(s, n, 4 * n + 1);
    MixedUpToKeeps(s, n, 4 * n + 2);
    MixedUpToKeeps(s, n, 4 * n + 3);
    assert t[4 * n] == s[4 * n] && t[4 * n + 1] == s[4 * n + 1] && t[4 * n + 2] == s[4 * n + 2] && t[4 * n + 3] == s[4 * n + 3];
  }

  /** Setting the four columns of any state one after the other gives their concatenation. */
  lemma SetColumns(t: seq<bv8>, c0: seq<bv8>, c1: seq<bv8>, c2: seq<bv8>, c3: seq<bv8>)
    requires |t| == 16 && |c0| == 4 && |c1| == 4 && |c2| == 4 && |c3| == 4
    ensures SetColumn(SetColumn(SetColumn(SetColumn(t, 0, c0), 1, c1), 2, c2), 3, c3) == c0 + c1 + c2 + c3
  {
    var r := SetColumn(SetColumn(SetColumn(SetColumn(t, 0, c0), 1, c1), 2, c2), 3, c3);
    forall p | 0 <= p < 16
      ensures r[p] == (c0 + c1 + c2 + c3)[p]
    {
    }
  }

  /** MixedUpTo(s, 4) is the four columns set one after the other. */
  lemma MixedUpToFour(s: seq<bv8>)
    requires |s| == 16
    ensures MixedUpTo(s, 4) == SetColumn(SetColumn(SetColumn(SetColumn(s, 0, MixedColumn(s, 0)), 1, MixedColumn(s, 1)), 2, MixedColumn(s, 2)), 3, MixedColumn(s, 3))
  {
    assert MixedUpTo(s, 1) == SetColumn(s, 0, MixedColumn(s, 0));
    assert MixedUpTo(s, 2) == SetColumn(MixedUpTo(s, 1), 1, MixedColumn(s, 1));
    assert MixedUpTo(s, 3) == SetColumn(MixedUpTo(s, 2), 2, MixedColumn(s, 2));
  }

  /** Mixing all four columns one by one is MixColumns. */
  lemma MixedUpToAll(s: seq<bv8>)
    requires |s| == 16
    ensures MixedUpTo(s, 4) == MixColumns(s)
  {
    MixedUpToFour(s);
    SetColumns(s, MixedColumn(s, 0), MixedColumn(s, 1), MixedColumn(s, 2), MixedColumn(s, 3));
  }

  /**
   * mixColumns (chainrand.js:350-360): column by column, each byte XOR-ed with xtime of itself
   * XOR the next byte, and with the XOR of the column.
   */
  method ApplyMixColumns(state: array<bv8>)
    requires state.Length == 16
    modifies state
    ensures state[..] == MixColumns(old(state[..]))
  {
    ghost var s := state[..];
    MixColumnLoop(state);
    MixedUpToAll(s);
  }

  /** The loop of mixColumns over the four columns of the state. */
  method MixColumnLoop(state: array<bv8>)
    requires state.Length == 16
    modifies state
    ensures state[..] == MixedUpTo(old(state[..]), 4)
  {
    ghost var s := state[..];
    var i := 0;
    while i < 4
      invariant i <= 4 && state[..] == MixedUpTo(s, i)
    {
      MixColumnStep(state, s, i);
      i := i + 1;
    }
  }

  /** One iteration of the loop of mixColumns, in terms of the state before the loop. */
  method MixColumnStep(state: array<bv8>, ghost s: seq<bv8>, i: nat)
    requires state.Length == 16 && |s| == 16 && i < 4 && state[..] == MixedUpTo(s, i)
    modifies state
    ensures state[..] == MixedUpTo(s, i + 1)
  {
    MixedUpToNext(s, i);
    MixColumnAt(state, i);
  }

  /**
   * One iteration of mixColumns: column i replaced by its mix, computed by the column formula
   * of the source (AesSpec.MixColumn), the other bytes kept.
   */
  method MixColumnAt(state: array<bv8>, i: nat)
    requires state.Length == 16 && i < 4
    modifies state
    ensures state[..] == SetColumn(old(state[..]), i, MixedColumn(old(state[..]), i))
  {
    var m := MixColumn(state[i * 4 + 0], state[i * 4 + 1], state[i * 4 + 2], state[i * 4 + 3]);
    state[i * 4 + 0] := m[0];
    state[i * 4 + 1] := m[1];
    state[i * 4 + 2] := m[2];
    state[i * 4 + 3] := m[3];
  }

  /**
   * The block encryption inside `self` (chainrand.js:372-385): the first round key, thirteen
   * full rounds and the last round without mixColumns. chainrand.js shifts the rows before it
   * substitutes the bytes, the reverse of FIPS 197; the two steps commute, so this is Cipher.
   */
  method Encrypt(buf: array<bv8>, roundKey: array<bv8>)
    requires buf.Length == 16 && roundKey.Length == 240 && buf != roundKey
    modifies buf
    ensures buf[..] == Cipher(old(buf[..]), roundKey[..])
  {
    ApplyRoundKey(0, buf, roundKey);
    FullRounds(buf, roundKey);
    FinalRound(buf, roundKey);
  }

  /** The loop of `self` over rounds 1 to 13. */
  method FullRounds(buf: array<bv8>, roundKey: array<bv8>)
    requires buf.Length == 16 && roundKey.Length == 240 && buf != roundKey
    modifies buf
    ensures buf[..] == Rounds(old(buf[..]), roundKey[..], 13)
  {
    ghost var start, w := buf[..], roundKey[..];
    var round := 1;
    while round < 14
      invariant 1 <= round <= 14
      invariant buf[..] == Rounds(start, w, round - 1)
    {
      Round(buf, roundKey, round);
      assert roundKey[..] == w;
      round := round + 1;
    }
  }

  /** The last round, without mixColumns: shiftRows, subBytes, and round key 14. */
  method FinalRound(buf: array<bv8>, roundKey: array<bv8>)
    requires buf.Length == 16 && roundKey.Length == 240 && buf != roundKey
    modifies buf
    ensures buf[..] == AddRoundKey(ShiftRows(SubBytes(old(buf[..]))), roundKey[..], 14)
  {
    ghost var s := buf[..];
    ApplyShiftRows(buf);
    ApplySubBytes(buf);
    SubShiftCommute(s);
    ApplyRoundKey(14, buf, roundKey);
  }

  /** One full round, in the order of chainrand.js: shiftRows, subBytes, mixColumns, addRoundKey. */
  method Round(buf: array<bv8>, roundKey: array<bv8>, round: nat)
    requires buf.Length == 16 && roundKey.Length == 240 && buf != roundKey && 1 <= round <= 13
    modifies buf
    ensures buf[..] == AddRoundKey(MixColumns(ShiftRows(SubBytes(old(buf[..])))), roundKey[..], round)
  {
    ghost var s := buf[..];
    ApplyShiftRows(buf);
    ApplySubBytes(buf);
    SubShiftCommute(s);
    ApplyMixColumns(buf);
    ApplyRoundKey(round, buf, roundKey);
  }
}
