/**
 * The Salsa20 stream cipher of modules/support/salsa20.py: a 16-word state set up
 * from a 16- or 32-byte key and an 8-byte IV, a block function of 8, 12 or 20
 * rounds, and XOR encryption over 64-byte blocks with a block counter in word 8.
 *
 * The functions below the class are D. J. Bernstein's definition of Salsa20
 * (quarterround, rowround, columnround, doubleround, little-endian words and the
 * hash); the class is the object of the source, whose methods are proved
 * against them.
 */
module Salsa20 {
  import opened Common
  import opened Bits

  const TAU: seq<nat> := [0x61707865, 0x3120646e, 0x79622d36, 0x6b206574]
  const SIGMA: seq<nat> := [0x61707865, 0x3320646e, 0x79622d32, 0x6b206574]

  /** Class attribute ROUNDS: the round count an instance has before its constructor sets one. */
  const DEFAULT_ROUNDS := 12
  const BLOCK_SIZE := 64
  /** 2^32; `& 0xffffffff` on a non-negative integer is `% WORD_MOD`. */
  const WORD_MOD: nat := 0x1_0000_0000

  /** Errors the constructor raises, in the order it checks them. */
  datatype SetupError = BadKeyLength | BadIvLength | BadRounds

  /** Errors encrypt raises. */
  datatype CipherError =
    | ShortChunkBefore   // a previous call ended on a chunk shorter than 64 bytes
    | EmptyInput         // the 'Huh?' exception: nothing to encrypt

  predicate ValidRounds(rounds: int) {
    rounds == 8 || rounds == 12 || rounds == 20
  }

  /** What the scramble loop needs of the round count: a positive even number. */
  predicate EvenRounds(rounds: int) {
    rounds > 0 && rounds % 2 == 0
  }

  /** Every entry is a 32-bit word. */
  predicate IsWords(ws: seq<nat>) {
    forall i :: 0 <= i < |ws| ==> ws[i] < WORD_MOD
  }

  /* ---------------------------------------------------------------------
   * Words and bytes
   * --------------------------------------------------------------------- */

  /** (a + b) & 0xffffffff */
  function Add(a: nat, b: nat): nat {
    (a + b) % WORD_MOD
  }

  /** _ROL32: ((a << b) | (a >> (32 - b))) & 0xffffffff on unbounded integers. */
  function Rol32(a: nat, b: nat): (r: nat)
    requires 0 < b < 32
    ensures r < WORD_MOD
  {
    Or(Shl(a, b), Shr(a, 32 - b)) % WORD_MOD
  }

  /** On a 32-bit word, _ROL32 is the rotation: the low 32 - b bits move up by b, the high b bits come round to the bottom. */
  lemma RolRotates(a: nat, b: nat)
    requires a < WORD_MOD && 0 < b < 32
    ensures Rol32(a, b) == (a % Pow2(32 - b)) * Pow2(b) + a / Pow2(32 - b)
  {
    RolSum(a, b);
    RotateWord(a, b);
  }

  /** (a >> (32 - b)) + (a << b), reduced to a word, is the rotation of a word a. */
  lemma RotateWord(a: nat, b: nat)
    requires a < WORD_MOD && 0 < b < 32
    ensures (Shr(a, 32 - b) + Shl(a, b)) % WORD_MOD == (a % Pow2(32 - b)) * Pow2(b) + a / Pow2(32 - b)
  {
    var P, B := Pow2(32 - b), Pow2(b);
    WordSplit(b);
    RotateParts(a, P, B, WORD_MOD);
  }

  /** A word split at p = 2^(32-b): (hi + a * 2^b) mod 2^32 puts the low part on top. */
  lemma RotateParts(a: nat, P: nat, B: nat, M: nat)
    requires M == P * B && P >= 1 && a < M
    ensures (a / P + a * B) % M == (a % P) * B + a / P
  {
    var hi, lo := a / P, a % P;
    DivBelow(a, P, B);
    MulSplit(a, hi, lo, P, B, M);
    SumBelow(lo, hi, P, B);
    ModOfSum(a * B, hi, lo * B, M);
  }

  /** On a word, the two shifted copies in _ROL32 do not overlap, so the OR is a sum. */
  lemma RolSum(a: nat, b: nat)
    requires a < WORD_MOD && 0 < b < 32
    ensures Rol32(a, b) == (Shr(a, 32 - b) + Shl(a, b)) % WORD_MOD
  {
    var hi := Shr(a, 32 - b);
    WordSplit(b);
    DivBelow(a, Pow2(32 - b), Pow2(b));
    OrDisjoint(hi, a, b);
    OrCommutes(hi, Shl(a, b));
  }

  /** Rotating a word left by b and then by 32 - b gives it back. */
  lemma RolInverse(a: nat, b: nat)
    requires a < WORD_MOD && 0 < b < 32
    ensures Rol32(Rol32(a, b), 32 - b) == a
  {
    var P, B := Pow2(32 - b), Pow2(b);
    WordSplit(b);
    RolRotates(a, b);
    RotateBack(a, P, B, WORD_MOD);
    var r := Rol32(a, b);
    RolRotates(r, 32 - b);
    assert 32 - (32 - b) == b;
  }

  /** Splitting a word at P and swapping the parts, then splitting at B and swapping back, gives it back. */
  lemma RotateBack(a: nat, P: nat, B: nat, M: nat)
    requires M == P * B && P >= 1 && B >= 1 && a < M
    ensures var r := (a % P) * B + a / P;
      r < M && (r % B) * P + r / B == a
  {
    var hi, lo := a / P, a % P;
    DivBelow(a, P, B);
    SumBelow(lo, hi, P, B);
    var r := lo * B + hi;
    DivModUnique(r, B, lo, hi);
  }

  /** 2^(32-b) * 2^b is 2^32. */
  lemma WordSplit(b: nat)
    requires b <= 32
    ensures Pow2(32 - b) * Pow2(b) == WORD_MOD
  {
    Pow2Add(32 - b, b);
    assert 32 - b + b == 32;
    Pow2Word();
  }

  lemma Pow2Word()
    ensures Pow2(32) == WORD_MOD
  {
    assert Pow2(8) == 0x100;
    Pow2Add(8, 8);
    Pow2Add(16, 16);
  }

  /** The i-th byte (little-endian) of a word. */
  function ByteOf(w: nat, i: nat): byte
    requires i < 4
  {
    if i == 0 then w % 256 else ByteOf(w / 256, i - 1)
  }

  /** A word from four little-endian bytes. */
  function WordOf(b0: byte, b1: byte, b2: byte, b3: byte): (w: nat)
    ensures w < WORD_MOD
  {
    b0 + 0x100 * b1 + 0x1_0000 * b2 + 0x100_0000 * b3
  }

  lemma WordBytesRoundTrip(w: nat)
    requires w < WORD_MOD
    ensures WordOf(ByteOf(w, 0), ByteOf(w, 1), ByteOf(w, 2), ByteOf(w, 3)) == w
  {
    var w1 := w / 256;
    var w2 := w1 / 256;
    var w3 := w2 / 256;
    assert ByteOf(w, 1) == w1 % 256;
    assert ByteOf(w, 2) == w2 % 256 by {
      assert ByteOf(w, 2) == ByteOf(w1, 1);
    }
    assert ByteOf(w, 3) == w3 % 256 by {
      assert ByteOf(w, 3) == ByteOf(w1, 2) == ByteOf(w2, 1);
    }
    DivBelow(w, 256, 0x100_0000);
    DivBelow(w1, 256, 0x1_0000);
    DivBelow(w2, 256, 256);
    var b0, b1, b2 := w % 256, w1 % 256, w2 % 256;
    assert w == b0 + 256 * w1 && w1 == b1 + 256 * w2 && w2 == b2 + 256 * w3;
    assert w3 % 256 == w3;
    Digits(w, w1, w2, w3, b0, b1, b2);
  }

  lemma Digits(w: nat, w1: nat, w2: nat, w3: nat, b0: nat, b1: nat, b2: nat)
    requires w == b0 + 256 * w1 && w1 == b1 + 256 * w2 && w2 == b2 + 256 * w3
    ensures w == b0 + 0x100 * b1 + 0x1_0000 * b2 + 0x100_0000 * w3
  {
  }

  lemma BytesWordRoundTrip(b0: byte, b1: byte, b2: byte, b3: byte)
    ensures var w := WordOf(b0, b1, b2, b3);
      ByteOf(w, 0) == b0 && ByteOf(w, 1) == b1 && ByteOf(w, 2) == b2 && ByteOf(w, 3) == b3
  {
    var w := WordOf(b0, b1, b2, b3);
    var w2 := b2 + 256 * b3;
    var w1 := b1 + 256 * w2;
    DivModUnique(w, 256, w1, b0);
    DivModUnique(w1, 256, w2, b1);
    DivModUnique(w2, 256, b3, b2);
    assert ByteOf(w, 1) == w1 % 256;
    assert ByteOf(w, 2) == ByteOf(w1, 1) == w2 % 256;
    assert ByteOf(w, 3) == ByteOf(w1, 2) == ByteOf(w2, 1) == b3 % 256;
  }

  /** struct.pack('<nI', ...): words serialised little-endian. */
  function Pack(ws: seq<nat>): (r: seq<byte>)
    ensures |r| == 4 * |ws|
  {
    seq(4 * |ws|, i requires 0 <= i < 4 * |ws| => ByteOf(ws[i / 4], i % 4))
  }

  /** struct.unpack('<nI', ...): little-endian words of a byte string. */
  function Unpack(bs: seq<byte>): (r: seq<nat>)
    requires |bs| % 4 == 0
    ensures |r| == |bs| / 4
  {
    seq(|bs| / 4, j requires 0 <= j < |bs| / 4 =>
      WordOf(bs[4 * j], bs[4 * j + 1], bs[4 * j + 2], bs[4 * j + 3]))
  }

  lemma UnpackPack(ws: seq<nat>)
    requires IsWords(ws)
    ensures Unpack(Pack(ws)) == ws
  {
    var p := Pack(ws);
    forall j | 0 <= j < |ws|
      ensures Unpack(p)[j] == ws[j]
    {
      PackAt(ws, j);
      WordBytesRoundTrip(ws[j]);
    }
  }

  /** The four bytes of word j of a packed sequence. */
  lemma PackAt(ws: seq<nat>, j: nat)
    requires j < |ws|
    ensures var p := Pack(ws);
      && p[4 * j] == ByteOf(ws[j], 0) && p[4 * j + 1] == ByteOf(ws[j], 1)
      && p[4 * j + 2] == ByteOf(ws[j], 2) && p[4 * j + 3] == ByteOf(ws[j], 3)
  {
    assert (4 * j) / 4 == j && (4 * j) % 4 == 0;
    assert (4 * j + 1) / 4 == j && (4 * j + 1) % 4 == 1;
    assert (4 * j + 2) / 4 == j && (4 * j + 2) % 4 == 2;
    assert (4 * j + 3) / 4 == j && (4 * j + 3) % 4 == 3;
  }

  lemma PackUnpack(bs: seq<byte>)
    requires |bs| % 4 == 0
    ensures Pack(Unpack(bs)) == bs
  {
    var u := Unpack(bs);
    forall i | 0 <= i < |bs|
      ensures Pack(u)[i] == bs[i]
    {
      var j, t := i / 4, i % 4;
      assert i == 4 * j + t;
      assert Pack(u)[i] == ByteOf(u[j], t);
      BytesWordRoundTrip(bs[4 * j], bs[4 * j + 1], bs[4 * j + 2], bs[4 * j + 3]);
      if t == 0 {
      } else if t == 1 {
      } else if t == 2 {
      }
    }
  }

  /* ---------------------------------------------------------------------
   * The Salsa20 core, as in the Salsa20 specification, on unbounded integers:
   * on 32-bit words it is the specification's; a larger word is carried
   * through as Python carries it
   * --------------------------------------------------------------------- */

  /** A position in the 16-word state. */
  type Lane = i: nat | i < 16

  /** A rotation amount _ROL32 is called with. */
  type Rotation = r: nat | 0 < r < 32 witness 1

  /**
   * One statement of the round loop: x[t] ^= _ROL32((x[u] + x[v]) & 0xffffffff, r).
   */
  datatype Step = Step(t: Lane, u: Lane, v: Lane, r: Rotation)

  /** The statement does not update either of its summands, so executing it again undoes it. */
  predicate Reversible(s: Step) {
    s.t != s.u && s.t != s.v
  }

  predicate AllReversible(ss: seq<Step>) {
    forall i :: 0 <= i < |ss| ==> Reversible(ss[i])
  }

  /**
   * The quarterround on the words a, b, c, d: b, c, d and a, in that order,
   * XORed with the rotated sum of the two words before them.
   */
  function Quarter(a: Lane, b: Lane, c: Lane, d: Lane): seq<Step> {
    [Step(b, a, d, 7), Step(c, b, a, 9), Step(d, c, b, 13), Step(a, d, c, 18)]
  }

  /** The columnround: quarterrounds on (0,4,8,12), (5,9,13,1), (10,14,2,6), (15,3,7,11). */
  const COLUMN_ROUND: seq<Step> :=
    Quarter(0, 4, 8, 12) + Quarter(5, 9, 13, 1) + Quarter(10, 14, 2, 6) + Quarter(15, 3, 7, 11)

  /** The rowround: quarterrounds on (0,1,2,3), (5,6,7,4), (10,11,8,9), (15,12,13,14). */
  const ROW_ROUND: seq<Step> :=
    Quarter(0, 1, 2, 3) + Quarter(5, 6, 7, 4) + Quarter(10, 11, 8, 9) + Quarter(15, 12, 13, 14)

  /** The 32 statements of one pass of the round loop of _salsa20_scramble. */
  const DOUBLE_ROUND: seq<Step> := COLUMN_ROUND + ROW_ROUND

  /** One statement executed on the state x: only word s.t changes. */
  function ApplyStep(x: seq<nat>, s: Step): (r: seq<nat>)
    requires |x| == 16
    ensures |r| == 16
    ensures forall i :: 0 <= i < 16 && i != s.t ==> r[i] == x[i]
  {
    x[s.t := Xor(x[s.t], Rol32(Add(x[s.u], x[s.v]), s.r))]
  }

  /**
   * The statements ss executed in order on x. The state is part of the
   * termination measure so that a run of the constant DOUBLE_ROUND on an
   * unknown state is unfolded one statement at a time, not all at once.
   */
  function Run(x: seq<nat>, ss: seq<Step>): (r: seq<nat>)
    requires |x| == 16
    ensures |r| == 16
    decreases |ss|, x
  {
    if ss == [] then x else Run(ApplyStep(x, ss[0]), ss[1..])
  }

  /**
   * The statements ss undone: the later ones undone first, then the first
   * statement executed again (XOR with the same value cancels it).
   */
  function Unrun(x: seq<nat>, ss: seq<Step>): (r: seq<nat>)
    requires |x| == 16
    ensures |r| == 16
    decreases |ss|
  {
    if ss == [] then x else ApplyStep(Unrun(x, ss[1..]), ss[0])
  }

  function DoubleRound(x: seq<nat>): (r: seq<nat>)
    requires |x| == 16
    ensures |r| == 16
  {
    Run(x, DOUBLE_ROUND)
  }

  /** k doublerounds, one after the other. */
  function DoubleRounds(x: seq<nat>, k: nat): (r: seq<nat>)
    requires |x| == 16
    ensures |r| == 16
  {
    if k == 0 then x else DoubleRound(DoubleRounds(x, k - 1))
  }

  /** Two states added word by word, mod 2^32. */
  function AddWords(x: seq<nat>, y: seq<nat>): (r: seq<nat>)
    requires |x| == 16 && |y| == 16
    ensures |r| == 16
  {
    seq(16, i requires 0 <= i < 16 => Add(x[i], y[i]))
  }

  /** The Salsa20 hash as words: rounds / 2 doublerounds, then the input added word-wise mod 2^32. */
  function HashWords(x: seq<nat>, rounds: nat): (r: seq<nat>)
    requires |x| == 16
    ensures |r| == 16
  {
    AddWords(DoubleRounds(x, rounds / 2), x)
  }

  /* ---------------------------------------------------------------------
   * State, keystream and encryption as functions of the state
   * --------------------------------------------------------------------- */

  /** One 64-byte keystream block for the given state. */
  function Block(state: seq<nat>, rounds: nat): (r: seq<byte>)
    requires |state| == 16
    ensures |r| == BLOCK_SIZE
  {
    Pack(HashWords(state, rounds))
  }

  /** 2^64: the range of the block counter. */
  const COUNTER_MOD: nat := WORD_MOD * WORD_MOD

  /** The block counter: word 8 is its low half, word 9 its high half. */
  function Counter(state: seq<nat>): nat
    requires |state| == 16
  {
    state[8] + WORD_MOD * state[9]
  }

  /** Both halves of the block counter are 32-bit words. */
  predicate CounterWords(state: seq<nat>)
    requires |state| == 16
  {
    state[8] < WORD_MOD && state[9] < WORD_MOD
  }

  /**
   * The state with its 64-bit block counter advanced by k, wrapping modulo
   * 2^64: what encrypt's increment of word 8 with carry into word 9 is meant
   * to do (see AdvanceAsWritten for what it does).
   */
  function Advance(state: seq<nat>, k: nat): (r: seq<nat>)
    requires |state| == 16
    ensures |r| == 16
  {
    var c := (Counter(state) + k) % COUNTER_MOD;
    state[8 := c % WORD_MOD][9 := c / WORD_MOD]
  }

  /**
   * The counter update of encrypt as written: word 8 grows by one per block
   * as an unbounded integer, so the test for its overflow to zero never
   * holds and word 9 never changes.
   */
  function AdvanceAsWritten(state: seq<nat>, k: nat): (r: seq<nat>)
    requires |state| == 16
    ensures |r| == 16
  {
    state[8 := state[8] + k]
  }

  /** The first k keystream blocks from a state: byte i is byte i % 64 of the block for counter + i / 64. */
  function KeyStream(state: seq<nat>, rounds: nat, k: nat): (r: seq<byte>)
    requires |state| == 16
    ensures |r| == BLOCK_SIZE * k
  {
    seq(BLOCK_SIZE * k, i requires 0 <= i < BLOCK_SIZE * k =>
      Block(Advance(state, i / BLOCK_SIZE), rounds)[i % BLOCK_SIZE])
  }

  /** Number of blocks encrypt uses for n bytes. */
  function Blocks(n: nat): nat {
    (n + BLOCK_SIZE - 1) / BLOCK_SIZE
  }

  /** The length of the last chunk of an n-byte input, the value of lastchunk after encrypting it. */
  function LastChunk(n: nat): nat
    requires n > 0
  {
    n - BLOCK_SIZE * ((n - 1) / BLOCK_SIZE)
  }

  /** ord(a) ^ ord(b) for two bytes. */
  function XorByte(a: byte, b: byte): byte {
    assert Pow2(8) == 256;
    XorBound(a, b, 8);
    Xor(a, b)
  }

  function XorBytes(data: seq<byte>, stream: seq<byte>): (r: seq<byte>)
    requires |data| <= |stream|
    ensures |r| == |data|
  {
    seq(|data|, i requires 0 <= i < |data| => XorByte(stream[i], data[i]))
  }

  /** What encrypt computes: the input XORed with the keystream of the state. */
  function Crypt(state: seq<nat>, rounds: nat, data: seq<byte>): (r: seq<byte>)
    requires |state| == 16
    ensures |r| == |data|
  {
    XorBytes(data, KeyStream(state, rounds, Blocks(|data|)))
  }

  /** The key words set up by _key_setup, words 6 to 9 still zero. */
  function KeyState(key: seq<byte>): (r: seq<nat>)
    requires |key| == 16 || |key| == 32
    ensures |r| == 16
  {
    var c := if |key| == 16 then TAU else SIGMA;
    var k := Unpack(key);
    var n := |k|;
    [c[0], k[0], k[1], k[2], k[3], c[1], 0, 0, 0, 0, c[2], k[n - 4], k[n - 3], k[n - 2], k[n - 1], c[3]]
  }

  /** The state set up by iv_setup from a key state: IV words at 6 and 7, counter words 8 and 9 zero. */
  function IvState(keyState: seq<nat>, iv: seq<byte>): (r: seq<nat>)
    requires |keyState| == 16 && |iv| == 8
    ensures |r| == 16
  {
    var v := Unpack(iv);
    keyState[6 := v[0]][7 := v[1]][8 := 0][9 := 0]
  }

  function InitialState(key: seq<byte>, iv: seq<byte>): (r: seq<nat>)
    requires (|key| == 16 || |key| == 32) && |iv| == 8
    ensures |r| == 16
  {
    IvState(KeyState(key), iv)
  }

  /* ---------------------------------------------------------------------
   * The cipher object
   * --------------------------------------------------------------------- */

  class Salsa20 {
    /** key_state: the state words fixed by the key. */
    var keyState: seq<nat>
    /** state: the working state; words 8 and 9 are the block counter. */
    var state: seq<nat>
    /** lastchunk: the length of the last chunk encrypted, 64 while more data may follow. */
    var lastChunk: nat
    /** ROUNDS */
    var rounds: int

    /** The shape every method keeps; the round count is 8, 12 or 20 from construction on and never changes. */
    ghost predicate Valid()
      reads this
    {
      && |keyState| == 16 && |state| == 16 && CounterWords(state)
      && EvenRounds(rounds) && 0 < lastChunk <= BLOCK_SIZE
    }

    /** A fresh object before __init__ runs its setup: only the class default of ROUNDS. */
    constructor ()
      ensures keyState == [] && state == [] && lastChunk == BLOCK_SIZE && rounds == DEFAULT_ROUNDS
    {
      keyState := [];
      state := [];
      lastChunk := BLOCK_SIZE;
      rounds := DEFAULT_ROUNDS;
    }

    /** __init__: key setup, IV setup, then the round-count check. */
    static method Create(key: seq<byte>, iv: seq<byte>, rounds: int) returns (r: Result<Salsa20, SetupError>)
      ensures |key| != 16 && |key| != 32 ==> r == Err(BadKeyLength)
      ensures (|key| == 16 || |key| == 32) && |iv| != 8 ==> r == Err(BadIvLength)
      ensures (|key| == 16 || |key| == 32) && |iv| == 8 && !ValidRounds(rounds) ==> r == Err(BadRounds)
      ensures (|key| == 16 || |key| == 32) && |iv| == 8 && ValidRounds(rounds) ==>
        && r.Ok? && fresh(r.value) && r.value.Valid() && ValidRounds(r.value.rounds)
        && r.value.keyState == KeyState(key)
        && r.value.state == InitialState(key, iv)
        && r.value.rounds == rounds
        && r.value.lastChunk == BLOCK_SIZE
    {
      var c := new Salsa20();
      var ok := c.KeySetup(key);
      if !ok {
        return Err(BadKeyLength);
      }
      ok := c.IvSetup(iv);
      if !ok {
        return Err(BadIvLength);
      }
      if !ValidRounds(rounds) {
        return Err(BadRounds);
      }
      c.rounds := rounds;
      return Ok(c);
    }

    /** __init__ with its defaults: an IV of eight zero bytes and the class's ROUNDS. */
    static method CreateWithDefaults(key: seq<byte>) returns (r: Result<Salsa20, SetupError>)
      ensures |key| != 16 && |key| != 32 ==> r == Err(BadKeyLength)
      ensures (|key| == 16 || |key| == 32) ==>
        && r.Ok? && fresh(r.value) && r.value.Valid()
        && r.value.keyState == KeyState(key)
        && r.value.state == InitialState(key, seq(8, _ => 0))
        && r.value.rounds == DEFAULT_ROUNDS
        && r.value.lastChunk == BLOCK_SIZE
    {
      r := Create(key, seq(8, _ => 0), DEFAULT_ROUNDS);
    }

    /** _key_setup: raises unless the key is 16 or 32 bytes; otherwise replaces key_state. */
    method KeySetup(key: seq<byte>) returns (ok: bool)
      modifies this
      ensures ok <==> |key| == 16 || |key| == 32
      ensures state == old(state) && lastChunk == old(lastChunk) && rounds == old(rounds)
      ensures ok ==> keyState == KeyState(key)
      ensures !ok ==> keyState == old(keyState)
    {
      if |key| != 16 && |key| != 32 {
        return false;
      }
      var ks: seq<nat> := seq(16, _ => 0);
      if |key| == 16 {
        var k := Unpack(key);
        ks := ks[0 := TAU[0]][1 := k[0]][2 := k[1]][3 := k[2]][4 := k[3]][5 := TAU[1]];
        ks := ks[10 := TAU[2]][11 := k[0]][12 := k[1]][13 := k[2]][14 := k[3]][15 := TAU[3]];
      } else {
        var k := Unpack(key);
        ks := ks[0 := SIGMA[0]][1 := k[0]][2 := k[1]][3 := k[2]][4 := k[3]][5 := SIGMA[1]];
        ks := ks[10 := SIGMA[2]][11 := k[4]][12 := k[5]][13 := k[6]][14 := k[7]][15 := SIGMA[3]];
      }
      keyState := ks;
      return true;
    }

    /** iv_setup: raises unless the IV is 8 bytes; otherwise resets the state from key_state and lastchunk to 64. */
    method IvSetup(iv: seq<byte>) returns (ok: bool)
      requires |keyState| == 16
      modifies this
      ensures ok <==> |iv| == 8
      ensures keyState == old(keyState) && rounds == old(rounds)
      ensures ok ==> state == IvState(keyState, iv) && lastChunk == BLOCK_SIZE
      ensures !ok ==> state == old(state) && lastChunk == old(lastChunk)
    {
      if |iv| != 8 {
        return false;
      }
      var s := keyState;
      var v := Unpack(iv);
      s := s[6 := v[0]][7 := v[1]][8 := 0][9 := 0];
      state := s;
      lastChunk := BLOCK_SIZE;
      return true;
    }

    /** encrypt: XOR with the keystream, one block per 64 bytes, advancing the counter once per block. */
    method Encrypt(datain: seq<byte>) returns (r: Result<seq<byte>, CipherError>)
      requires Valid()
      modifies this
      ensures Valid()
      ensures keyState == old(keyState) && rounds == old(rounds)
      ensures old(lastChunk) != BLOCK_SIZE ==>
        r == Err(ShortChunkBefore) && state == old(state) && lastChunk == old(lastChunk)
      ensures old(lastChunk) == BLOCK_SIZE && datain == [] ==>
        r == Err(EmptyInput) && state == old(state) && lastChunk == old(lastChunk)
      ensures old(lastChunk) == BLOCK_SIZE && datain != [] ==>
        && r.Ok? && r.value == Crypt(old(state), rounds, datain)
        && state == Advance(old(state), Blocks(|datain|))
        && lastChunk == LastChunk(|datain|)
    {
      if lastChunk != BLOCK_SIZE {
        return Err(ShortChunkBefore);
      }
      ghost var state0 := state;
      var dataout: seq<byte> := [];
      var rest := datain;
      ghost var k: nat := 0;
      AdvanceZero(state0);
      while rest != []
        invariant Valid() && keyState == old(keyState) && rounds == old(rounds)
        invariant lastChunk == BLOCK_SIZE
        invariant BLOCK_SIZE * k <= |datain| && rest == datain[BLOCK_SIZE * k..]
        invariant k > 0 ==> rest != []
        invariant state == Advance(state0, k)
        invariant dataout == XorBytes(datain[..BLOCK_SIZE * k], KeyStream(state0, rounds, k))
        decreases |rest|
      {
        var stream := Scramble();
        AdvanceAdd(state0, k, 1);
        state := NextCounter(state);
        var n := if |rest| < BLOCK_SIZE then |rest| else BLOCK_SIZE;
        var piece := XorStream(stream, rest[..n]);
        dataout := dataout + piece;
        if |rest| <= BLOCK_SIZE {
          lastChunk := |rest|;
          CryptLast(datain, state0, rounds, k);
          return Ok(dataout);
        }
        CryptStep(datain, state0, rounds, k, n);
        rest := rest[BLOCK_SIZE..];
        k := k + 1;
      }
      return Err(EmptyInput);
    }

    /** decrypt is the same routine as encrypt. */
    method Decrypt(datain: seq<byte>) returns (r: Result<seq<byte>, CipherError>)
      requires Valid()
      modifies this
      ensures Valid()
      ensures keyState == old(keyState) && rounds == old(rounds)
      ensures old(lastChunk) != BLOCK_SIZE ==>
        r == Err(ShortChunkBefore) && state == old(state) && lastChunk == old(lastChunk)
      ensures old(lastChunk) == BLOCK_SIZE && datain == [] ==>
        r == Err(EmptyInput) && state == old(state) && lastChunk == old(lastChunk)
      ensures old(lastChunk) == BLOCK_SIZE && datain != [] ==>
        && r.Ok? && r.value == Crypt(old(state), rounds, datain)
        && state == Advance(old(state), Blocks(|datain|))
        && lastChunk == LastChunk(|datain|)
    {
      r := Encrypt(datain);
    }

    /** The counter update of encrypt, with the increment of word 8 taken modulo 2^32 so that its carry into word 9 happens. */
    static method NextCounter(s: seq<nat>) returns (r: seq<nat>)
      requires |s| == 16 && CounterWords(s)
      ensures r == Advance(s, 1)
    {
      AdvanceOne(s);
      r := s[8 := (s[8] + 1) % WORD_MOD];
      if r[8] == 0 {
        r := r[9 := (r[9] + 1) % WORD_MOD];
      }
    }

    /** _salsa20_scramble: the block function on a copy of the state; the state itself is not changed. */
    method Scramble() returns (output: seq<byte>)
      requires Valid()
      ensures output == KeyStream(state, rounds, 1)
    {
      var s := state;
      var x := new nat[16](i requires 0 <= i < 16 => s[i]);
      assert x[..] == s;
      RoundsInPlace(x, rounds);
      assert (rounds + 1) / 2 == rounds / 2;
      AddInPlace(x, s);
      assert x[..] == HashWords(s, rounds);
      output := Pack(x[..]);
      KeyStreamOne(s, rounds);
    }

    /** _xor: the input bytes XORed with the first bytes of the stream. */
    static method XorStream(stream: seq<byte>, din: seq<byte>) returns (dout: seq<byte>)
      requires |din| <= |stream|
      ensures dout == XorBytes(din, stream)
    {
      dout := [];
      for i := 0 to |din|
        invariant dout == XorBytes(din[..i], stream)
      {
        dout := dout + [XorByte(stream[i], din[i])];
      }
      assert din[..|din|] == din;
    }
  }

  /**
   * Four statements of the round loop of _salsa20_scramble: the words at b, c, d
   * and a, in that order, are XORed in place with a rotated sum of two others.
   */
  method QuarterRoundInPlace(x: array<nat>, a: Lane, b: Lane, c: Lane, d: Lane)
    requires x.Length == 16
    modifies x
    ensures x[..] == Run(old(x[..]), Quarter(a, b, c, d))
  {
    ghost var q := Quarter(a, b, c, d);
    ghost var x0 := x[..];
    x[b] := Xor(x[b], Rol32(Add(x[a], x[d]), 7));
    ghost var x1 := x[..];
    assert x1 == ApplyStep(x0, q[0]);
    x[c] := Xor(x[c], Rol32(Add(x[b], x[a]), 9));
    ghost var x2 := x[..];
    assert x2 == ApplyStep(x1, q[1]);
    x[d] := Xor(x[d], Rol32(Add(x[c], x[b]), 13));
    ghost var x3 := x[..];
    assert x3 == ApplyStep(x2, q[2]);
    x[a] := Xor(x[a], Rol32(Add(x[d], x[c]), 18));
    assert x[..] == ApplyStep(x3, q[3]);
    RunFour(x0, q);
  }

  lemma RunFour(x: seq<nat>, q: seq<Step>)
    requires |x| == 16 && |q| == 4
    ensures Run(x, q) == ApplyStep(ApplyStep(ApplyStep(ApplyStep(x, q[0]), q[1]), q[2]), q[3])
  {
    var x1 := ApplyStep(x, q[0]);
    var x2 := ApplyStep(x1, q[1]);
    var x3 := ApplyStep(x2, q[2]);
    assert Run(x3, q[3..]) == ApplyStep(x3, q[3]);
    assert Run(x2, q[2..]) == Run(x3, q[3..]);
    assert Run(x1, q[1..]) == Run(x2, q[2..]);
  }


  /** The round loop of _salsa20_scramble: for i in xrange(ROUNDS, 0, -2), one doubleround per pass. */
  method RoundsInPlace(x: array<nat>, rounds: nat)
    requires x.Length == 16
    modifies x
    ensures x[..] == DoubleRounds(old(x[..]), (rounds + 1) / 2)
  {
    ghost var x0 := x[..];
    var i := rounds;
    ghost var n := 0;
    while i > 0
      invariant -1 <= i <= rounds && i == rounds - 2 * n
      invariant x[..] == DoubleRounds(x0, n)
    {
      DoubleRoundInPlace(x);
      i := i - 2;
      n := n + 1;
    }
    assert n == (rounds + 1) / 2;
  }

  /** The last loop of _salsa20_scramble: each word of the state added to its word of x, mod 2^32. */
  method AddInPlace(x: array<nat>, s: seq<nat>)
    requires x.Length == 16 && |s| == 16
    modifies x
    ensures x[..] == AddWords(old(x[..]), s)
  {
    for j := 0 to 16
      invariant forall t :: 0 <= t < j ==> x[t] == Add(old(x[t]), s[t])
      invariant forall t :: j <= t < 16 ==> x[t] == old(x[t])
    {
      x[j] := Add(x[j], s[j]);
    }
    assert x[..] == AddWords(old(x[..]), s);
  }

  /** The body of the round loop of _salsa20_scramble: the 32 statements, a columnround then a rowround. */
  method DoubleRoundInPlace(x: array<nat>)
    requires x.Length == 16
    modifies x
    ensures x[..] == DoubleRound(old(x[..]))
  {
    ghost var x0 := x[..];
    QuarterRoundInPlace(x, 0, 4, 8, 12);
    QuarterRoundInPlace(x, 5, 9, 13, 1);
    RunAppend(x0, Quarter(0, 4, 8, 12), Quarter(5, 9, 13, 1));
    QuarterRoundInPlace(x, 10, 14, 2, 6);
    RunAppend(x0, Quarter(0, 4, 8, 12) + Quarter(5, 9, 13, 1), Quarter(10, 14, 2, 6));
    QuarterRoundInPlace(x, 15, 3, 7, 11);
    RunAppend(x0, Quarter(0, 4, 8, 12) + Quarter(5, 9, 13, 1) + Quarter(10, 14, 2, 6), Quarter(15, 3, 7, 11));
    ghost var x1 := x[..];
    QuarterRoundInPlace(x, 0, 1, 2, 3);
    QuarterRoundInPlace(x, 5, 6, 7, 4);
    RunAppend(x1, Quarter(0, 1, 2, 3), Quarter(5, 6, 7, 4));
    QuarterRoundInPlace(x, 10, 11, 8, 9);
    RunAppend(x1, Quarter(0, 1, 2, 3) + Quarter(5, 6, 7, 4), Quarter(10, 11, 8, 9));
    QuarterRoundInPlace(x, 15, 12, 13, 14);
    RunAppend(x1, Quarter(0, 1, 2, 3) + Quarter(5, 6, 7, 4) + Quarter(10, 11, 8, 9), Quarter(15, 12, 13, 14));
    RunAppend(x0, COLUMN_ROUND, ROW_ROUND);
  }

  /* ---------------------------------------------------------------------
   * Properties
   * --------------------------------------------------------------------- */

  /** XOR of two pieces against two streams, the first piece as long as its stream. */
  lemma XorBytesAppend(d1: seq<byte>, d2: seq<byte>, s1: seq<byte>, s2: seq<byte>)
    requires |d1| == |s1| && |d2| <= |s2|
    ensures XorBytes(d1 + d2, s1 + s2) == XorBytes(d1, s1) + XorBytes(d2, s2)
  {
    var l := XorBytes(d1 + d2, s1 + s2);
    var r := XorBytes(d1, s1) + XorBytes(d2, s2);
    forall i | 0 <= i < |l|
      ensures l[i] == r[i]
    {
      if i >= |d1| {
        assert (s1 + s2)[i] == s2[i - |d1|];
      }
    }
  }

  /** One pass of the loop of encrypt: the output so far, extended by the next n bytes against the next block. */
  lemma CryptStep(data: seq<byte>, state: seq<nat>, rounds: nat, k: nat, n: nat)
    requires |state| == 16 && BLOCK_SIZE * k + n <= |data| && n <= BLOCK_SIZE
    ensures XorBytes(data[..BLOCK_SIZE * k], KeyStream(state, rounds, k))
              + XorBytes(data[BLOCK_SIZE * k..][..n], KeyStream(Advance(state, k), rounds, 1))
            == XorBytes(data[..BLOCK_SIZE * k + n], KeyStream(state, rounds, k + 1))
  {
    var m := BLOCK_SIZE * k;
    assert data[..m + n] == data[..m] + data[m..][..n];
    KeyStreamSplit(state, rounds, k, 1);
    XorBytesAppend(data[..m], data[m..][..n], KeyStream(state, rounds, k), KeyStream(Advance(state, k), rounds, 1));
  }

  /** The keystream of a + b blocks is that of a blocks, then that of b blocks from the counter advanced by a. */
  lemma KeyStreamSplit(state: seq<nat>, rounds: nat, a: nat, b: nat)
    requires |state| == 16
    ensures KeyStream(state, rounds, a + b) == KeyStream(state, rounds, a) + KeyStream(Advance(state, a), rounds, b)
  {
    var l := KeyStream(state, rounds, a + b);
    var r := KeyStream(state, rounds, a) + KeyStream(Advance(state, a), rounds, b);
    forall i | 0 <= i < |l|
      ensures l[i] == r[i]
    {
      if i >= BLOCK_SIZE * a {
        var j := i - BLOCK_SIZE * a;
        assert i / BLOCK_SIZE == a + j / BLOCK_SIZE && i % BLOCK_SIZE == j % BLOCK_SIZE;
        AdvanceAdd(state, a, j / BLOCK_SIZE);
      }
    }
  }

  /** One block of keystream is the block of the state. */
  lemma KeyStreamOne(state: seq<nat>, rounds: nat)
    requires |state| == 16 && CounterWords(state)
    ensures KeyStream(state, rounds, 1) == Block(state, rounds)
  {
    AdvanceZero(state);
    var b := Block(state, rounds);
    forall i | 0 <= i < BLOCK_SIZE
      ensures KeyStream(state, rounds, 1)[i] == b[i]
    {
      assert i / BLOCK_SIZE == 0 && i % BLOCK_SIZE == i;
    }
  }

  /** The last pass of the loop of encrypt, on block k: the output is the whole of Crypt. */
  lemma CryptLast(data: seq<byte>, state: seq<nat>, rounds: nat, k: nat)
    requires |state| == 16 && BLOCK_SIZE * k < |data| <= BLOCK_SIZE * (k + 1)
    ensures XorBytes(data[..BLOCK_SIZE * k], KeyStream(state, rounds, k))
              + XorBytes(data[BLOCK_SIZE * k..][..|data| - BLOCK_SIZE * k], KeyStream(Advance(state, k), rounds, 1))
            == Crypt(state, rounds, data)
    ensures Blocks(|data|) == k + 1 && LastChunk(|data|) == |data| - BLOCK_SIZE * k
  {
    var n := |data| - BLOCK_SIZE * k;
    CryptStep(data, state, rounds, k, n);
    BlocksOfLength(|data|, k);
    assert data[..BLOCK_SIZE * k + n] == data;
  }

  /** The loop of encrypt ends on its k-th block exactly when the input needs k+1 blocks. */
  lemma BlocksOfLength(n: nat, k: nat)
    requires BLOCK_SIZE * k < n <= BLOCK_SIZE * (k + 1)
    ensures Blocks(n) == k + 1 && LastChunk(n) == n - BLOCK_SIZE * k
  {
    assert (n - 1) / BLOCK_SIZE == k;
    assert (n + BLOCK_SIZE - 1) / BLOCK_SIZE == k + 1;
  }

  /* ---------------------------------------------------------------------
   * The block counter
   * --------------------------------------------------------------------- */

  /** Advance keeps both counter halves words, moves the counter by k modulo 2^64 and leaves every other word alone. */
  lemma AdvanceCounter(state: seq<nat>, k: nat)
    requires |state| == 16
    ensures CounterWords(Advance(state, k))
    ensures Counter(Advance(state, k)) == (Counter(state) + k) % COUNTER_MOD
    ensures forall i :: 0 <= i < 16 && i != 8 && i != 9 ==> Advance(state, k)[i] == state[i]
  {
    var c := (Counter(state) + k) % COUNTER_MOD;
    DivBelow(c, WORD_MOD, WORD_MOD);
  }

  /** Advancing by a and then by b is advancing by a + b. */
  lemma AdvanceAdd(state: seq<nat>, a: nat, b: nat)
    requires |state| == 16
    ensures Advance(Advance(state, a), b) == Advance(state, a + b)
  {
    AdvanceCounter(state, a);
    ModAddLeft(Counter(state) + a, b, COUNTER_MOD);
  }

  /** Advancing by nothing leaves a state alone when its counter halves are words. */
  lemma AdvanceZero(state: seq<nat>)
    requires |state| == 16 && CounterWords(state)
    ensures Advance(state, 0) == state
  {
    var c := Counter(state);
    MulGap(WORD_MOD, state[9], WORD_MOD);
    DivModUnique(c, COUNTER_MOD, 0, c);
    DivModUnique(c, WORD_MOD, state[9], state[8]);
  }

  /** The increment of word 8 modulo 2^32, with a carry into word 9 when it comes round to zero, is one step of Advance. */
  lemma AdvanceOne(state: seq<nat>)
    requires |state| == 16 && CounterWords(state)
    ensures Advance(state, 1) ==
      var low := (state[8] + 1) % WORD_MOD;
      if low == 0 then state[8 := low][9 := (state[9] + 1) % WORD_MOD] else state[8 := low]
  {
    var c := Counter(state) + 1;
    MulGap(WORD_MOD, state[9], WORD_MOD);
    if state[8] + 1 < WORD_MOD {
      DivModUnique(c, COUNTER_MOD, 0, c);
      DivModUnique(c, WORD_MOD, state[9], state[8] + 1);
    } else if state[9] + 1 < WORD_MOD {
      assert c == WORD_MOD * (state[9] + 1);
      DivModUnique(c, COUNTER_MOD, 0, c);
      DivModUnique(c, WORD_MOD, state[9] + 1, 0);
    } else {
      assert c == COUNTER_MOD;
    }
  }

  /** The counter does not repeat within 2^64 blocks: distinct offsets below 2^64 give distinct states. */
  lemma AdvanceDistinct(state: seq<nat>, a: nat, b: nat)
    requires |state| == 16 && a < b < COUNTER_MOD
    ensures Advance(state, a) != Advance(state, b)
  {
    AdvanceCounter(state, a);
    AdvanceCounter(state, b);
    ModDistinct(Counter(state) + a, b - a, COUNTER_MOD);
  }

  /* ---------------------------------------------------------------------
   * The block sees each state word only modulo 2^32
   * --------------------------------------------------------------------- */

  /** Two states that agree on every word modulo 2^32. */
  predicate SameWords(x: seq<nat>, y: seq<nat>)
    requires |x| == 16 && |y| == 16
  {
    forall i :: 0 <= i < 16 ==> x[i] % WORD_MOD == y[i] % WORD_MOD
  }

  lemma AddSame(a: nat, b: nat, c: nat, d: nat)
    requires a % WORD_MOD == c % WORD_MOD && b % WORD_MOD == d % WORD_MOD
    ensures Add(a, b) == Add(c, d)
  {
    ModAdd(a, b, WORD_MOD);
    ModAdd(c, d, WORD_MOD);
  }

  lemma XorSame(a: nat, b: nat, k: nat)
    requires a % WORD_MOD == b % WORD_MOD
    ensures Xor(a, k) % WORD_MOD == Xor(b, k) % WORD_MOD
  {
    Pow2Word();
    XorLowBits(a, k, 32);
    XorLowBits(b, k, 32);
  }

  lemma ApplyStepSame(x: seq<nat>, y: seq<nat>, s: Step)
    requires |x| == 16 && |y| == 16 && SameWords(x, y)
    ensures SameWords(ApplyStep(x, s), ApplyStep(y, s))
  {
    AddSame(x[s.u], x[s.v], y[s.u], y[s.v]);
    XorSame(x[s.t], y[s.t], Rol32(Add(x[s.u], x[s.v]), s.r));
  }

  lemma {:induction false} RunSame(x: seq<nat>, y: seq<nat>, ss: seq<Step>)
    requires |x| == 16 && |y| == 16 && SameWords(x, y)
    ensures SameWords(Run(x, ss), Run(y, ss))
    decreases |ss|
  {
    if ss != [] {
      ApplyStepSame(x, y, ss[0]);
      RunSame(ApplyStep(x, ss[0]), ApplyStep(y, ss[0]), ss[1..]);
    }
  }

  lemma {:induction false} DoubleRoundsSame(x: seq<nat>, y: seq<nat>, k: nat)
    requires |x| == 16 && |y| == 16 && SameWords(x, y)
    ensures SameWords(DoubleRounds(x, k), DoubleRounds(y, k))
  {
    if k > 0 {
      DoubleRoundsSame(x, y, k - 1);
      RunSame(DoubleRounds(x, k - 1), DoubleRounds(y, k - 1), DOUBLE_ROUND);
    }
  }

  /** The hash of a state depends on its words only modulo 2^32. */
  lemma HashWordsSame(x: seq<nat>, y: seq<nat>, rounds: nat)
    requires |x| == 16 && |y| == 16 && SameWords(x, y)
    ensures HashWords(x, rounds) == HashWords(y, rounds)
  {
    var dx, dy := DoubleRounds(x, rounds / 2), DoubleRounds(y, rounds / 2);
    DoubleRoundsSame(x, y, rounds / 2);
    forall i | 0 <= i < 16
      ensures HashWords(x, rounds)[i] == HashWords(y, rounds)[i]
    {
      AddSame(dx[i], x[i], dy[i], y[i]);
    }
  }

  /**
   * With the counter update as written, word 8 is 2^32 after 2^32 blocks,
   * a different state that scramble cannot tell from counter 0: block
   * 2^32 of the keystream repeats block 0.
   */
  lemma BlockRepeatsAsWritten(state: seq<nat>, rounds: nat)
    requires |state| == 16
    ensures AdvanceAsWritten(state, WORD_MOD) != state
    ensures Block(AdvanceAsWritten(state, WORD_MOD), rounds) == Block(state, rounds)
  {
    var y := AdvanceAsWritten(state, WORD_MOD);
    assert y[8] != state[8];
    assert SameWords(y, state) by {
      assert y[8] % WORD_MOD == state[8] % WORD_MOD;
    }
    HashWordsSame(y, state, rounds);
  }

  /* The round statements */

  lemma ReversibleAppend(s1: seq<Step>, s2: seq<Step>)
    requires AllReversible(s1) && AllReversible(s2)
    ensures AllReversible(s1 + s2)
  {
    forall i | 0 <= i < |s1 + s2|
      ensures Reversible((s1 + s2)[i])
    {
      if i >= |s1| {
        assert (s1 + s2)[i] == s2[i - |s1|];
      }
    }
  }

  /** No statement of the loop body updates one of its own summands. */
  lemma DoubleRoundReversible()
    ensures AllReversible(DOUBLE_ROUND)
  {
    ReversibleAppend(Quarter(0, 4, 8, 12), Quarter(5, 9, 13, 1));
    ReversibleAppend(Quarter(0, 4, 8, 12) + Quarter(5, 9, 13, 1), Quarter(10, 14, 2, 6));
    ReversibleAppend(Quarter(0, 4, 8, 12) + Quarter(5, 9, 13, 1) + Quarter(10, 14, 2, 6), Quarter(15, 3, 7, 11));
    ReversibleAppend(Quarter(0, 1, 2, 3), Quarter(5, 6, 7, 4));
    ReversibleAppend(Quarter(0, 1, 2, 3) + Quarter(5, 6, 7, 4), Quarter(10, 11, 8, 9));
    ReversibleAppend(Quarter(0, 1, 2, 3) + Quarter(5, 6, 7, 4) + Quarter(10, 11, 8, 9), Quarter(15, 12, 13, 14));
    ReversibleAppend(COLUMN_ROUND, ROW_ROUND);
  }

  /** Running two lists of statements is running the first, then the second. */
  lemma {:induction false} RunAppend(x: seq<nat>, s1: seq<Step>, s2: seq<Step>)
    requires |x| == 16
    ensures Run(x, s1 + s2) == Run(Run(x, s1), s2)
    decreases |s1|
  {
    if s1 == [] {
      assert s1 + s2 == s2;
    } else {
      assert (s1 + s2)[1..] == s1[1..] + s2;
      RunAppend(ApplyStep(x, s1[0]), s1[1..], s2);
    }
  }

  /** Executing a statement twice leaves the state as it was: XOR with the same value, whose summands it does not change. */
  lemma StepTwice(x: seq<nat>, s: Step)
    requires |x| == 16 && Reversible(s)
    ensures ApplyStep(ApplyStep(x, s), s) == x
  {
    XorXor(x[s.t], Rol32(Add(x[s.u], x[s.v]), s.r));
  }

  /** Unrun undoes Run ... */
  lemma {:induction false} UnrunRun(x: seq<nat>, ss: seq<Step>)
    requires |x| == 16 && AllReversible(ss)
    ensures Unrun(Run(x, ss), ss) == x
    decreases |ss|
  {
    if ss != [] {
      UnrunRun(ApplyStep(x, ss[0]), ss[1..]);
      StepTwice(x, ss[0]);
    }
  }

  /** ... and Run undoes Unrun, so a run of statements is a bijection on states. */
  lemma {:induction false} RunUnrun(x: seq<nat>, ss: seq<Step>)
    requires |x| == 16 && AllReversible(ss)
    ensures Run(Unrun(x, ss), ss) == x
    decreases |ss|
  {
    if ss != [] {
      StepTwice(Unrun(x, ss[1..]), ss[0]);
      RunUnrun(x, ss[1..]);
    }
  }

  /** Different states give different results after any number of doublerounds. */
  lemma {:induction false} DoubleRoundsInjective(x: seq<nat>, y: seq<nat>, k: nat)
    requires |x| == 16 && |y| == 16 && DoubleRounds(x, k) == DoubleRounds(y, k)
    ensures x == y
  {
    if k > 0 {
      DoubleRoundReversible();
      UnrunRun(DoubleRounds(x, k - 1), DOUBLE_ROUND);
      UnrunRun(DoubleRounds(y, k - 1), DOUBLE_ROUND);
      DoubleRoundsInjective(x, y, k - 1);
    }
  }

  /* ---------------------------------------------------------------------
   * What encryption promises
   * --------------------------------------------------------------------- */

  /** XOR with the same stream byte twice gives the byte back. */
  lemma XorByteTwice(s: byte, d: byte)
    ensures XorByte(s, XorByte(s, d)) == d
  {
    XorCommutes(s, Xor(s, d));
    XorCommutes(s, d);
    XorXor(d, s);
  }

  /** decrypt is encrypt: from the same state, the second application gives the data back. */
  lemma CryptInvolution(state: seq<nat>, rounds: nat, data: seq<byte>)
    requires |state| == 16
    ensures Crypt(state, rounds, Crypt(state, rounds, data)) == data
  {
    var ks := KeyStream(state, rounds, Blocks(|data|));
    var c := Crypt(state, rounds, data);
    forall i | 0 <= i < |data|
      ensures Crypt(state, rounds, c)[i] == data[i]
    {
      XorByteTwice(ks[i], data[i]);
    }
  }

  /**
   * Encrypting a whole number of blocks and then the rest from the advanced
   * state, as two calls of encrypt do, gives the one-shot encryption.
   */
  lemma CryptChunks(state: seq<nat>, rounds: nat, d1: seq<byte>, d2: seq<byte>)
    requires |state| == 16 && |d1| % BLOCK_SIZE == 0
    ensures Crypt(state, rounds, d1 + d2)
            == Crypt(state, rounds, d1) + Crypt(Advance(state, Blocks(|d1|)), rounds, d2)
  {
    var k := |d1| / BLOCK_SIZE;
    assert |d1| == BLOCK_SIZE * k;
    assert Blocks(|d1|) == k;
    assert Blocks(|d1| + |d2|) == k + Blocks(|d2|);
    KeyStreamSplit(state, rounds, k, Blocks(|d2|));
    XorBytesAppend(d1, d2, KeyStream(state, rounds, k), KeyStream(Advance(state, k), rounds, Blocks(|d2|)));
  }

  /** The last chunk is a full block exactly when the length is a multiple of 64: only then may another call follow. */
  lemma LastChunkFull(n: nat)
    requires n > 0
    ensures 0 < LastChunk(n) <= BLOCK_SIZE
    ensures LastChunk(n) == BLOCK_SIZE <==> n % BLOCK_SIZE == 0
  {
    var k := (n - 1) / BLOCK_SIZE;
    assert n - 1 == BLOCK_SIZE * k + (n - 1) % BLOCK_SIZE;
    if LastChunk(n) == BLOCK_SIZE {
      DivModUnique(n, BLOCK_SIZE, k + 1, 0);
    } else {
      DivModUnique(n, BLOCK_SIZE, k, LastChunk(n));
    }
  }

  /** Word i to j of an unpacked string are the unpacked bytes 4i to 4j. */
  lemma UnpackSlice(bs: seq<byte>, i: nat, j: nat)
    requires |bs| % 4 == 0 && i <= j <= |bs| / 4
    ensures Unpack(bs)[i..j] == Unpack(bs[4 * i..4 * j])
  {
    var u, v := Unpack(bs)[i..j], Unpack(bs[4 * i..4 * j]);
    forall t | 0 <= t < j - i
      ensures u[t] == v[t]
    {
      assert 4 * (i + t) == 4 * i + 4 * t;
    }
  }

  /** Words 1 to 4 of the key state are the first 16 key bytes, read as little-endian words. */
  lemma KeyStateLow(key: seq<byte>)
    requires |key| == 16 || |key| == 32
    ensures var lo := key[..16]; |lo| == 16 && KeyState(key)[1..5] == Unpack(lo)
  {
    assert KeyState(key)[1..5] == Unpack(key)[0..4];
    UnpackSlice(key, 0, 4);
    assert key[4 * 0..4 * 4] == key[..16];
  }

  /** Words 11 to 14 of the key state are the last 16 key bytes: for a 16-byte key, the key again. */
  lemma KeyStateHigh(key: seq<byte>)
    requires |key| == 16 || |key| == 32
    ensures var hi := key[|key| - 16..]; |hi| == 16 && KeyState(key)[11..15] == Unpack(hi)
  {
    if |key| == 16 {
      assert |Unpack(key)| == 4;
      assert KeyState(key)[11..15] == Unpack(key)[0..4];
      UnpackSlice(key, 0, 4);
      assert key[4 * 0..4 * 4] == key[|key| - 16..];
    } else {
      assert |Unpack(key)| == 8;
      assert KeyState(key)[11..15] == Unpack(key)[4..8];
      UnpackSlice(key, 4, 8);
      assert key[4 * 4..4 * 8] == key[|key| - 16..];
    }
  }

  /** The constant words of the key state. */
  lemma KeyStateConstants(key: seq<byte>)
    requires |key| == 16 || |key| == 32
    ensures var s := KeyState(key);
      var c := if |key| == 16 then TAU else SIGMA;
      && s[0] == c[0] && s[5] == c[1] && s[10] == c[2] && s[15] == c[3]
      && s[6] == 0 && s[7] == 0 && s[8] == 0 && s[9] == 0
  {
    if |key| == 16 {
      assert |Unpack(key)| == 4;
    } else {
      assert |Unpack(key)| == 8;
    }
  }

  /** iv_setup changes only words 6 to 9: the IV words at 6 and 7, zeros at 8 and 9. */
  lemma IvStateLayout(keyState: seq<nat>, iv: seq<byte>)
    requires |keyState| == 16 && |iv| == 8
    ensures var s := IvState(keyState, iv);
      && s[0..6] == keyState[0..6] && s[10..] == keyState[10..]
      && s[6..8] == Unpack(iv) && s[8] == 0 && s[9] == 0
  {
  }

  /**
   * The layout of the initial state: the constants of the key length at
   * words 0, 5, 10 and 15, the first 16 key bytes at words 1 to 4, the last
   * 16 (the same ones again for a 16-byte key) at words 11 to 14, the IV at
   * words 6 and 7 and a zero counter. Pack inverts Unpack (PackUnpack), so
   * key and IV can be read back off the state.
   */
  lemma InitialStateLayout(key: seq<byte>, iv: seq<byte>)
    requires (|key| == 16 || |key| == 32) && |iv| == 8
    ensures var s := InitialState(key, iv);
      var c := if |key| == 16 then TAU else SIGMA;
      && s[0] == c[0] && s[5] == c[1] && s[10] == c[2] && s[15] == c[3]
      && s[1..5] == Unpack(key[..16])
      && s[11..15] == Unpack(key[|key| - 16..])
      && s[6..8] == Unpack(iv)
      && s[8] == 0 && s[9] == 0
  {
    var ks := KeyState(key);
    var s := InitialState(key, iv);
    KeyStateLow(key);
    KeyStateHigh(key);
    KeyStateConstants(key);
    IvStateLayout(ks, iv);
    KeptWords(ks, s);
  }

  /** Two states that agree on words 0 to 5 and 10 to 15 agree on each of those words and slices. */
  lemma KeptWords(ks: seq<nat>, s: seq<nat>)
    requires |ks| == 16 && |s| == 16
    requires s[0..6] == ks[0..6] && s[10..] == ks[10..]
    ensures s[1..5] == ks[1..5] && s[11..15] == ks[11..15]
    ensures s[0] == ks[0] && s[5] == ks[5] && s[10] == ks[10] && s[15] == ks[15]
  {
    forall i | 0 <= i < 6 ensures s[i] == ks[i] {
      assert s[i] == s[0..6][i] && ks[i] == ks[0..6][i];
    }
    forall i | 10 <= i < 16 ensures s[i] == ks[i] {
      assert s[i] == s[10..][i - 10] && ks[i] == ks[10..][i - 10];
    }
    assert s[1..5] == ks[1..5];
    assert s[11..15] == ks[11..15];
  }
}
