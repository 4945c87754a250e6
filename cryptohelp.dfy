/**
 * modules/cryptohelp.py: random integers from urandom bytes, the bit length
 * helper log2, random_in_range, the Miller-Rabin test and the
 * generate-until-pseudoprime loop; then the elliptic-curve Diffie-Hellman and
 * ElGamal glue over the curve arithmetic of modules/ec.py, which is not part
 * of this model and enters as the operations of an `Ops` value.
 *
 * Randomness is an input: os.urandom(n) returns the first n bytes of an
 * `Entropy` stream, and every loop that retries until a random choice succeeds
 * walks a finite list of attempts and reports None when the list runs out.
 */
module CryptoHelp {
  import opened Common
  import opened Bits

  /** An unbounded stream of random bytes; os.urandom(n) takes its first n. */
  type Entropy = nat -> byte

  /** os.urandom(n) */
  function Urandom(e: Entropy, n: int): (r: seq<byte>)
    ensures |r| == if n <= 0 then 0 else n
    ensures forall i :: 0 <= i < |r| ==> r[i] == e(i)
  {
    seq(if n <= 0 then 0 else n, i requires 0 <= i => e(i))
  }

  /* ---------------------------------------------------------------------
   * random_with_bytes
   * --------------------------------------------------------------------- */

  /** The integer whose little-endian base-256 digits are the bytes. */
  function LeValue(bs: seq<byte>): nat {
    if bs == [] then 0 else bs[0] + 256 * LeValue(bs[1..])
  }

  /** n bytes hold a value below 2^(8n). */
  lemma {:induction false} LeValueBound(bs: seq<byte>)
    ensures LeValue(bs) < Pow2(8 * |bs|)
  {
    if bs != [] {
      LeValueBound(bs[1..]);
      Pow2Add(8, 8 * (|bs| - 1));
      assert Pow2(8) == 256;
    }
  }

  /** The digits of a concatenation: the second part weighs 2^(8 |a|). */
  lemma {:induction false} LeValueAppend(a: seq<byte>, b: seq<byte>)
    ensures LeValue(a + b) == LeValue(a) + Pow2(8 * |a|) * LeValue(b)
  {
    if a == [] {
      assert a + b == b;
    } else {
      assert (a + b)[1..] == a[1..] + b;
      LeValueAppend(a[1..], b);
      var P := Pow2(8 * (|a| - 1));
      Pow2Add(8, 8 * (|a| - 1));
      assert Pow2(8) == 256;
      assert 256 * (P * LeValue(b)) == (256 * P) * LeValue(b);
    }
  }

  /** The value of a prefix extended by the piece that follows it, and the bound the prefix keeps. */
  lemma Extend(bs: seq<byte>, k: nat, len: nat)
    requires k + len <= |bs|
    ensures LeValue(bs[..k + len]) == LeValue(bs[..k]) + Pow2(8 * k) * LeValue(bs[k..k + len])
    ensures LeValue(bs[..k]) < Pow2(8 * k)
  {
    assert bs[..k + len] == bs[..k] + bs[k..k + len];
    LeValueAppend(bs[..k], bs[k..k + len]);
    LeValueBound(bs[..k]);
  }

  lemma LeValueSingle(x: byte)
    ensures LeValue([x]) == x
  {
    assert [x][1..] == [];
  }

  /**
   * struct.unpack("L" * m + "B" * l, ...) on the n = 8m + l urandom bytes:
   * m native unsigned longs, 8 bytes little-endian each, then l single bytes.
   */
  function StructUnpack(draw: seq<byte>, m: nat, l: nat): (r: seq<nat>)
    requires |draw| == 8 * m + l
    ensures |r| == m + l
  {
    seq(m + l, i requires 0 <= i < m + l =>
      if i < m then LeValue(draw[8 * i..8 * i + 8]) else draw[8 * m + (i - m)])
  }

  /** What random_with_bytes(n) is meant to return: 0 for n <= 0, else the n urandom bytes as one little-endian integer. */
  function RandomValue(n: int, draw: seq<byte>): nat
    requires n <= 0 || |draw| == n
  {
    if n <= 0 then 0 else LeValue(draw)
  }

  /** Every value of n bytes is a possible result. */
  lemma RandomValueBound(n: int, draw: seq<byte>)
    requires n <= 0 || |draw| == n
    ensures n > 0 ==> RandomValue(n, draw) < Pow2(8 * n)
    ensures n <= 0 ==> RandomValue(n, draw) == 0
  {
    if n > 0 {
      LeValueBound(draw);
    }
  }

  /**
   * random_with_bytes with the trailing bytes shifted to 64m + 8(i - m), just
   * above the m words: the integer of the n urandom bytes.
   */
  method RandomWithBytes(n: int, draw: seq<byte>) returns (r: nat)
    requires n <= 0 || |draw| == n
    ensures r == RandomValue(n, draw)
  {
    if n <= 0 {
      return 0;
    }
    var m := n / 8;
    var l := n - 8 * m;
    var data := StructUnpack(draw, m, l);
    r := PackWords(draw, m, l, data);
    var i := m;
    ghost var j := 0;
    while i < m + l
      invariant m <= i <= m + l && j == i - m
      invariant r == TailValue(draw, 8 * m, j)
    {
      UnpackByte(draw, m, l, i);
      TailStep(draw, 8 * m, j, r, data[i], 64 * m + 8 * (i - m));
      r := Or(r, Shl(data[i], 64 * m + 8 * (i - m)));
      i := i + 1;
      j := j + 1;
    }
    assert draw[..8 * m + l] == draw;
  }

  /**
   * The word loop of random_with_bytes: data[0], then the words 1 to m - 1
   * Or-ed in at bit 64i, which gives the value of the first m words.
   */
  method PackWords(draw: seq<byte>, m: nat, l: nat, data: seq<nat>) returns (r: nat)
    requires |draw| == 8 * m + l && m + l > 0 && data == StructUnpack(draw, m, l)
    ensures m >= 1 ==> r == WordsValue(draw, m)
    ensures m == 0 ==> r == draw[0]
  {
    r := data[0];
    FirstValue(draw, m, l);
    var i := 1;
    while i < m
      invariant m >= 1 ==> 1 <= i <= m && r == WordsValue(draw, i)
      invariant m == 0 ==> r == draw[0]
    {
      WordStep(draw, m, l, i, r, data[i]);
      r := Or(r, Shl(data[i], 64 * i));
      i := i + 1;
    }
  }

  /** data[0] is the first word, or the first byte when there is no whole word. */
  lemma FirstValue(draw: seq<byte>, m: nat, l: nat)
    requires |draw| == 8 * m + l && m + l > 0
    ensures m == 0 ==> StructUnpack(draw, m, l)[0] == draw[0]
    ensures m >= 1 ==> StructUnpack(draw, m, l)[0] == WordsValue(draw, 1)
  {
    if m >= 1 {
      assert draw[..8 * 0 + 8] == draw[..8];
    }
  }

  /** The value of the first i words of the draw. */
  ghost function WordsValue(draw: seq<byte>, i: nat): nat
    requires 8 * i <= |draw|
  {
    LeValue(draw[..8 * i])
  }

  /** Or-ing data[i], the word i, in at bit 64i extends the value of the first i words to the first i + 1. */
  lemma WordStep(draw: seq<byte>, m: nat, l: nat, i: nat, r: nat, w: nat)
    requires |draw| == 8 * m + l && i < m
    requires r == WordsValue(draw, i) && w == StructUnpack(draw, m, l)[i]
    ensures Or(r, Shl(w, 64 * i)) == WordsValue(draw, i + 1)
  {
    Extend(draw, 8 * i, 8);
    assert 8 * (8 * i) == 64 * i;
    OrShift(r, w, 64 * i, LeValue(draw[..8 * i + 8]));
  }

  /** Or-ing w in at bit k above a value r below 2^k adds it. */
  lemma OrShift(r: nat, w: nat, k: nat, total: nat)
    requires r < Pow2(k) && total == r + Pow2(k) * w
    ensures Or(r, Shl(w, k)) == total
  {
    OrDisjoint(r, w, k);
  }

  /** Or-ing byte k in at bit 8k extends the value of the first k bytes to the first k + 1. */
  lemma ByteStep(draw: seq<byte>, k: nat, r: nat)
    requires k < |draw| && r == LeValue(draw[..k])
    ensures Or(r, Shl(draw[k], 8 * k)) == LeValue(draw[..k + 1])
  {
    Extend(draw, k, 1);
    assert draw[k..k + 1] == [draw[k]];
    LeValueSingle(draw[k]);
    OrShift(r, draw[k], 8 * k, LeValue(draw[..k + 1]));
  }

  /**
   * The state of the byte loop after j trailing bytes placed from byte w on:
   * the value of the first w + j bytes; before the first byte of a draw with
   * no whole word, data[0], which is that byte.
   */
  ghost function TailValue(s: seq<byte>, w: nat, j: nat): nat
    requires w + j <= |s| && |s| > 0
  {
    if w == 0 && j == 0 then s[0] else LeValue(s[..w + j])
  }

  /** One pass of the byte loop: byte w + j Or-ed in at bit 8(w + j). */
  lemma TailStep(s: seq<byte>, w: nat, j: nat, r: nat, b: nat, shift: nat)
    requires w + j < |s| && r == TailValue(s, w, j)
    requires b == s[w + j] && shift == 8 * (w + j)
    ensures Or(r, Shl(b, shift)) == TailValue(s, w, j + 1)
  {
    if w == 0 && j == 0 {
      FirstByteTwice(s);
    } else {
      ByteStep(s, w + j, r);
    }
  }

  /** The entries of data after the words are the trailing bytes. */
  lemma UnpackByte(draw: seq<byte>, m: nat, l: nat, i: nat)
    requires |draw| == 8 * m + l && m <= i < m + l
    ensures StructUnpack(draw, m, l)[i] == draw[8 * m + (i - m)]
  {
  }

  /** Without a whole word, data[0] is the first byte and the byte loop Or-s it in a second time at shift 0. */
  lemma FirstByteTwice(draw: seq<byte>)
    requires |draw| >= 1
    ensures Or(draw[0], Shl(draw[0], 0)) == draw[0] == LeValue(draw[..1])
  {
    OrSelf(draw[0]);
    LeValueSingle(draw[0]);
    assert draw[..1] == [draw[0]];
  }

  /* The shift as written: the trailing bytes land 8m bits too high. */

  /** m zero bytes. */
  function Zeros(m: nat): (r: seq<byte>)
    ensures |r| == m
  {
    seq(m, _ => 0)
  }

  /** The bytes as random_with_bytes as written places them: m zero bytes between the m words and the trailing bytes. */
  function Spread(draw: seq<byte>, m: nat): (r: seq<byte>)
    requires 8 * m <= |draw|
    ensures |r| == |draw| + m
  {
    draw[..8 * m] + Zeros(m) + draw[8 * m..]
  }

  /** What random_with_bytes returns as written: the integer of the bytes with m zero bytes after the words. */
  function RandomValueAsWritten(n: int, draw: seq<byte>): nat
    requires n <= 0 || |draw| == n
  {
    if n <= 0 then 0 else LeValue(Spread(draw, n / 8))
  }

  /** random_with_bytes as the source writes it, with the shift 64m + 8i for the trailing byte i. */
  method RandomWithBytesAsWritten(n: int, draw: seq<byte>) returns (r: nat)
    requires n <= 0 || |draw| == n
    ensures r == RandomValueAsWritten(n, draw)
  {
    if n <= 0 {
      return 0;
    }
    var m := n / 8;
    var l := n - 8 * m;
    var data := StructUnpack(draw, m, l);
    r := PackWords(draw, m, l, data);
    var i := m;
    ghost var j := 0;
    while i < m + l
      invariant m <= i <= m + l && j == i - m
      invariant r == AsWrittenTail(draw, m, j)
    {
      UnpackByte(draw, m, l, i);
      r := Or(r, Shl(data[i], 64 * m + 8 * i));
      i := i + 1;
      j := j + 1;
    }
    AsWrittenTailValue(n, draw);
  }

  /** The value the byte loop as written holds after j trailing bytes: byte j lands at bit 64m + 8(m + j). */
  ghost function AsWrittenTail(draw: seq<byte>, m: nat, j: nat): nat
    requires 8 * m + j <= |draw| && |draw| > 0
    decreases j
  {
    if j == 0 then (if m == 0 then draw[0] else WordsValue(draw, m))
    else Or(AsWrittenTail(draw, m, j - 1), Shl(draw[8 * m + j - 1], 64 * m + 8 * (m + j - 1)))
  }

  /** The byte loop as written computes the value of the spread bytes. */
  lemma {:induction false} AsWrittenTailSpread(draw: seq<byte>, m: nat, j: nat)
    requires 8 * m + j <= |draw| && |draw| > 0
    ensures AsWrittenTail(draw, m, j) == TailValue(Spread(draw, m), 9 * m, j)
    decreases j
  {
    if j == 0 {
      SpreadStart(draw, m, |draw| - 8 * m, AsWrittenTail(draw, m, 0));
    } else {
      AsWrittenTailSpread(draw, m, j - 1);
      SpreadAt(draw, m, j - 1);
      TailStep(Spread(draw, m), 9 * m, j - 1, AsWrittenTail(draw, m, j - 1), draw[8 * m + j - 1], 64 * m + 8 * (m + j - 1));
    }
  }

  /** After all trailing bytes, the loop as written has the value RandomValueAsWritten names. */
  lemma AsWrittenTailValue(n: int, draw: seq<byte>)
    requires n > 0 && |draw| == n
    ensures AsWrittenTail(draw, n / 8, n - 8 * (n / 8)) == RandomValueAsWritten(n, draw)
  {
    var m := n / 8;
    AsWrittenTailSpread(draw, m, n - 8 * m);
    assert Spread(draw, m)[..9 * m + (n - 8 * m)] == Spread(draw, m);
  }

  /** After the word loop, the value so far is that of the spread bytes up to the first trailing byte. */
  lemma SpreadStart(draw: seq<byte>, m: nat, l: nat, r: nat)
    requires |draw| == 8 * m + l && m + l > 0
    requires m >= 1 ==> r == WordsValue(draw, m)
    requires m == 0 ==> r == draw[0]
    ensures r == TailValue(Spread(draw, m), 9 * m, 0)
  {
    SpreadPrefix(draw, m);
  }

  lemma SpreadAt(draw: seq<byte>, m: nat, j: nat)
    requires 8 * m + j < |draw|
    ensures Spread(draw, m)[9 * m + j] == draw[8 * m + j]
  {
  }

  /** The zero bytes add nothing: up to them, the spread bytes have the value of the m words. */
  lemma SpreadPrefix(draw: seq<byte>, m: nat)
    requires 8 * m <= |draw|
    ensures LeValue(Spread(draw, m)[..9 * m]) == LeValue(draw[..8 * m])
    ensures m == 0 ==> Spread(draw, m) == draw
  {
    var s := Spread(draw, m);
    assert s[..9 * m] == draw[..8 * m] + Zeros(m);
    LeValueAppend(draw[..8 * m], Zeros(m));
    LeValueZeros(m);
    if m == 0 {
      assert s == draw;
    }
  }

  lemma {:induction false} LeValueZeros(m: nat)
    ensures LeValue(Zeros(m)) == 0
  {
    if m > 0 {
      assert Zeros(m)[1..] == Zeros(m - 1);
      LeValueZeros(m - 1);
    }
  }

  /** The value of the spread bytes: the words, then the trailing bytes at bit 72m. */
  lemma SpreadValue(draw: seq<byte>, m: nat)
    requires 8 * m <= |draw|
    ensures LeValue(Spread(draw, m)) == LeValue(draw[..8 * m]) + Pow2(64 * m) * (Pow2(8 * m) * LeValue(draw[8 * m..]))
  {
    assert Spread(draw, m) == draw[..8 * m] + (Zeros(m) + draw[8 * m..]);
    LeValueAppend(draw[..8 * m], Zeros(m) + draw[8 * m..]);
    LeValueAppend(Zeros(m), draw[8 * m..]);
    LeValueZeros(m);
  }

  /** As written, bits 64m to 72m - 1 of the result are always zero once n >= 8. */
  lemma RandomAsWrittenGap(n: int, draw: seq<byte>)
    requires n >= 8 && |draw| == n
    ensures var m := n / 8; (RandomValueAsWritten(n, draw) / Pow2(64 * m)) % Pow2(8 * m) == 0
  {
    var m := n / 8;
    var A, B := LeValue(draw[..8 * m]), LeValue(draw[8 * m..]);
    var L, H := Pow2(64 * m), Pow2(8 * m);
    LeValueBound(draw[..8 * m]);
    SpreadValue(draw, m);
    assert RandomValueAsWritten(n, draw) == LeValue(Spread(draw, m));
    MiddleDigitZero(RandomValueAsWritten(n, draw), L, H, A, B);
  }

  /** v = L (H B) + A with A < L: the digit of v in base H just above L is zero. */
  lemma MiddleDigitZero(v: nat, L: nat, H: nat, A: nat, B: nat)
    requires L >= 1 && H >= 1 && A < L && v == A + L * (H * B)
    ensures (v / L) % H == 0
  {
    DivModUnique(v, L, H * B, A);
    DivModUnique(H * B, H, B, 0);
  }

  /** With no whole word (n < 8) or no trailing byte (n a multiple of 8) the shift as written does no harm. */
  lemma RandomAsWrittenAgrees(n: int, draw: seq<byte>)
    requires n <= 0 || |draw| == n
    requires n < 8 || n % 8 == 0
    ensures RandomValueAsWritten(n, draw) == RandomValue(n, draw)
  {
    if n > 0 {
      var m := n / 8;
      if m == 0 {
        SpreadPrefix(draw, m);
      } else {
        assert Spread(draw, m) == draw + Zeros(m);
        LeValueAppend(draw, Zeros(m));
        LeValueZeros(m);
      }
    }
  }

  /** 2^(72m) B exceeds 2^(64m) B for a positive B once m >= 1. */
  lemma ShiftGrows(X: nat, Y: nat, B: nat)
    requires X >= 1 && Y >= 2 && B >= 1
    ensures X * B < X * (Y * B)
  {
    assert X * (Y * B) == X * B * Y;
    assert X * B * Y == X * B * (Y - 1) + X * B;
    MulAtLeast(X * B, Y - 1);
  }

  /** The shift as written changes the result exactly when there is a whole word and the trailing bytes are not all zero. */
  lemma RandomAsWrittenDiffers(n: int, draw: seq<byte>)
    requires n > 0 && |draw| == n
    ensures RandomValueAsWritten(n, draw) == RandomValue(n, draw) <==> (n < 8 || LeValue(draw[8 * (n / 8)..]) == 0)
  {
    var m := n / 8;
    var A, B := LeValue(draw[..8 * m]), LeValue(draw[8 * m..]);
    assert draw[..8 * m] + draw[8 * m..] == draw;
    LeValueAppend(draw[..8 * m], draw[8 * m..]);
    SpreadValue(draw, m);
    if m == 0 {
      SpreadPrefix(draw, m);
    } else if B != 0 {
      Pow2Monotonic(1, 8 * m);
      assert Pow2(1) == 2;
      ShiftGrows(Pow2(64 * m), Pow2(8 * m), B);
    }
  }

  /** Nine bytes, the last one 1: as written the 1 lands at bit 72 instead of bit 64. */
  lemma RandomAsWrittenCounterexample()
    ensures var draw: seq<byte> := [0, 0, 0, 0, 0, 0, 0, 0, 1];
      RandomValueAsWritten(9, draw) != RandomValue(9, draw)
  {
    var draw: seq<byte> := [0, 0, 0, 0, 0, 0, 0, 0, 1];
    assert draw[8 * (9 / 8)..] == [1];
    LeValueSingle(1);
    RandomAsWrittenDiffers(9, draw);
  }

  /* ---------------------------------------------------------------------
   * log2
   * --------------------------------------------------------------------- */

  /** floor(log2 n) for n >= 1; -1 for n <= 0. */
  function FloorLog2(n: int): (r: int)
    ensures r >= -1
    decreases n
  {
    if n <= 0 then -1 else 1 + FloorLog2(n / 2)
  }

  /** For n >= 1, 2^r <= n < 2^(r+1). */
  lemma {:induction false} FloorLog2Bounds(n: int)
    requires n >= 1
    ensures FloorLog2(n) >= 0
    ensures Pow2(FloorLog2(n)) <= n < Pow2(FloorLog2(n) + 1)
  {
    if n >= 2 {
      FloorLog2Bounds(n / 2);
    }
  }

  /** The bounds pin r down: FloorLog2 is the only exponent with 2^r <= n < 2^(r+1). */
  lemma FloorLog2Unique(n: int, r: nat)
    requires Pow2(r) <= n < Pow2(r + 1)
    ensures FloorLog2(n) == r
  {
    FloorLog2Bounds(n);
    var f := FloorLog2(n);
    if f < r {
      Pow2Monotonic(f + 1, r);
    } else if r < f {
      Pow2Monotonic(r + 1, f);
    }
  }

  /** log2: count the halvings until n reaches 0, starting from -1. */
  method Log2(n: int) returns (log: int)
    ensures log == FloorLog2(n)
  {
    log := -1;
    var k := n;
    while k > 0
      invariant log + 1 + FloorLog2(k) == FloorLog2(n)
      decreases k
    {
      log := log + 1;
      k := k / 2;
    }
  }

  /* ---------------------------------------------------------------------
   * random_in_range
   * --------------------------------------------------------------------- */

  /**
   * random_in_range(a, b) with `delta` the random draw: a when a == b,
   * otherwise the lower bound plus the draw modulo the width. The code draws
   * delta with random_with_bytes(10*int(math.ceil(log2(b-a)/8.))); any
   * natural stands for that draw here.
   */
  function RandomInRange(a: int, b: int, delta: nat): (r: int)
    ensures a == b ==> r == a
    ensures a < b ==> a <= r < b
    ensures b < a ==> b <= r < a
  {
    if a == b then a
    else
      var lo, hi := if b < a then b else a, if b < a then a else b;
      lo + delta % (hi - lo)
  }

  /** Every value of the range is drawn by some delta. */
  lemma RandomInRangeCovers(a: int, b: int, v: int)
    requires (a <= v < b) || (b <= v < a)
    ensures RandomInRange(a, b, if a < b then v - a else v - b) == v
  {
  }

  /* ---------------------------------------------------------------------
   * Miller-Rabin
   * --------------------------------------------------------------------- */

  /** b^e; ent.powermod(b, e, n) is Pow(b, e) % n. */
  function Pow(b: nat, e: nat): nat
    decreases e
  {
    if e == 0 then 1 else b * Pow(b, e - 1)
  }

  lemma {:induction false} PowAdd(b: nat, e: nat, f: nat)
    ensures Pow(b, e + f) == Pow(b, e) * Pow(b, f)
    decreases f
  {
    if f > 0 {
      PowAdd(b, e, f - 1);
      var x, y := Pow(b, e), Pow(b, f - 1);
      assert b * (x * y) == x * (b * y);
    }
  }

  lemma PowSquare(x: nat)
    ensures Pow(x, 2) == x * x
  {
  }

  /** (q n + r)(q' n + r') = n (q q' n + q r' + r q') + r r' */
  lemma MulExpand(q: nat, r: nat, q': nat, r': nat, n: nat)
    ensures (q * n + r) * (q' * n + r') == n * (q * q' * n + q * r' + r * q') + r * r'
  {
  }

  /** Adding a multiple of n does not change a residue. */
  lemma AddMultiple(t: nat, n: nat, A: nat)
    requires n >= 1
    ensures (n * A + t) % n == t % n
  {
    var u, v := t / n, t % n;
    assert n * A + t == n * (A + u) + v;
    DivModUnique(n * A + t, n, A + u, v);
  }

  /** A product modulo n depends only on its factors modulo n. */
  lemma ModMul(x: nat, y: nat, n: nat)
    requires n >= 1
    ensures (x * y) % n == ((x % n) * (y % n)) % n
  {
    var q, r, q', r' := x / n, x % n, y / n, y % n;
    var t := r * r';
    var A := q * q' * n + q * r' + r * q';
    MulExpand(q, r, q', r', n);
    assert x * y == n * A + t;
    AddMultiple(t, n, A);
  }

  /** The squaring chain: a^(d 2^(j+1)) mod n is the square of a^(d 2^j) mod n, reduced. */
  lemma ChainStep(a: nat, d: nat, j: nat, n: nat)
    requires n >= 1
    ensures var x := Pow(a, d * Pow2(j)) % n; Pow(a, d * Pow2(j + 1)) % n == Pow(x, 2) % n
  {
    var e := d * Pow2(j);
    Double(d, Pow2(j));
    assert d * Pow2(j + 1) == e + e;
    PowAdd(a, e, e);
    ModMul(Pow(a, e), Pow(a, e), n);
    PowSquare(Pow(a, e) % n);
  }

  /** Once the chain reaches 1 it stays there. */
  lemma {:induction false} ChainStaysOne(a: nat, d: nat, j: nat, t: nat, n: nat)
    requires n >= 2 && j <= t && Pow(a, d * Pow2(j)) % n == 1
    ensures Pow(a, d * Pow2(t)) % n == 1
    decreases t - j
  {
    if j < t {
      ChainStaysOne(a, d, j, t - 1, n);
      var x := Pow(a, d * Pow2(t - 1)) % n;
      ChainStep(a, d, t - 1, n);
      assert Pow(a, d * Pow2(t)) % n == Pow(x, 2) % n;
      PowSquare(x);
      assert Pow(x, 2) == 1;
      DivModUnique(1, n, 0, 1);
    }
  }

  /** n - 1 = d 2^s with d odd, for m = n - 1 > 0. */
  function TwoAdic(m: nat): (nat, nat)
    requires m > 0
    decreases m
  {
    if m % 2 == 1 then (0, m) else var (s, d) := TwoAdic(m / 2); (s + 1, d)
  }

  /** TwoAdic(m) = (s, d): d is odd and d 2^s = m. */
  lemma {:induction false} TwoAdicSplits(m: nat)
    requires m > 0
    ensures TwoAdic(m).1 % 2 == 1 && TwoAdic(m).1 * Pow2(TwoAdic(m).0) == m
    decreases m
  {
    if m % 2 == 0 {
      TwoAdicSplits(m / 2);
      var (s, d) := TwoAdic(m / 2);
      Double(d, Pow2(s));
    }
  }

  /** millerrabin_dec: halve n - 1 once, then while the rest is even. */
  method MillerRabinDec(n: int) returns (s: nat, d: nat)
    requires n >= 3 && n % 2 == 1
    ensures s >= 1 && (s, d) == TwoAdic(n - 1)
  {
    var m := (n - 1) / 2;
    var pwr := 1;
    while m % 2 == 0
      invariant m > 0 && pwr >= 1
      invariant TwoAdic(n - 1) == (pwr + TwoAdic(m).0, TwoAdic(m).1)
      decreases m
    {
      pwr := pwr + 1;
      m := m / 2;
    }
    return pwr, m;
  }

  /**
   * The base a shows n composite (with n - 1 = d 2^s): a^d is not 1 modulo n
   * and no a^(d 2^j) with j < s is -1 modulo n.
   */
  predicate IsWitness(n: nat, a: nat, s: nat, d: nat)
    requires n >= 1
  {
    && Pow(a, d) % n != 1
    && forall j :: 0 <= j < s ==> Pow(a, d * Pow2(j)) % n != n - 1
  }

  /** The base of round i: random_in_range(2, n - 2). */
  function Base(n: int, delta: nat): (a: nat)
    requires n >= 5
    ensures 2 <= a < n - 2
  {
    RandomInRange(2, n - 2, delta)
  }

  /**
   * What millerrabin(n, k) returns when round i draws `deltas(i)`: True for 2
   * and 3, False for the other even numbers, None for the remaining n <= 1, and
   * otherwise True exactly when none of the k bases is a witness.
   */
  function MillerRabinOutcome(n: int, k: int, deltas: nat -> nat): Option<bool> {
    if n == 2 || n == 3 then Some(true)
    else if n % 2 == 0 then Some(false)
    else if n <= 1 then None
    else
      var (s, d) := TwoAdic(n - 1);
      Some(forall i: nat :: i < k ==> !IsWitness(n, Base(n, deltas(i)), s, d))
  }

  /** A number that passes is at least 2, and it is 2, 3 or odd. */
  lemma MillerRabinPassed(n: int, k: int, deltas: nat -> nat)
    requires MillerRabinOutcome(n, k, deltas) == Some(true)
    ensures n >= 2 && (n == 2 || n % 2 == 1)
  {
  }

  /** A negative verdict for an odd n > 3 names a base that is a witness. */
  lemma MillerRabinRejects(n: int, k: int, deltas: nat -> nat)
    requires n > 3 && n % 2 == 1 && MillerRabinOutcome(n, k, deltas) == Some(false)
    ensures exists i: nat :: i < k && IsWitness(n, Base(n, deltas(i)), TwoAdic(n - 1).0, TwoAdic(n - 1).1)
  {
  }

  /* ---------------------------------------------------------------------
   * Why a prime passes: Euclid's lemma, Fermat's little theorem and the
   * square roots of 1 modulo a prime
   * --------------------------------------------------------------------- */

  /** d divides x. */
  predicate Divides(d: nat, x: nat) {
    d != 0 && x % d == 0
  }

  /** n is prime: at least 2, with no divisor k where 2 <= k < n. */
  predicate IsPrime(n: int) {
    n >= 2 && forall k: nat :: 2 <= k < n ==> !Divides(k, n)
  }

  /** p = r m + t and r b = p c give p (m c) + t b = p b. */
  lemma EuclidStep(p: int, r: int, m: int, t: int, b: int, c: int)
    requires p == r * m + t && r * b == p * c
    ensures p * (m * c) + t * b == p * b
  {
  }

  /** A prime p that divides r b, where 0 < r < p, divides b; by descent on r through p mod r. */
  lemma {:induction false} EuclidBelow(p: nat, r: nat, b: nat)
    requires IsPrime(p) && 0 < r < p && (r * b) % p == 0
    ensures b % p == 0
    decreases r
  {
    if r > 1 {
      assert !Divides(r, p);
      var m, t := p / r, p % r;
      var c := (r * b) / p;
      EuclidStep(p, r, m, t, b, c);
      AddMultiple(t * b, p, m * c);
      DivModUnique(p * b, p, b, 0);
      EuclidBelow(p, t, b);
    }
  }

  /** Euclid's lemma: a prime that divides a product divides one of the factors. */
  lemma Euclid(p: nat, a: nat, b: nat)
    requires IsPrime(p) && (a * b) % p == 0
    ensures a % p == 0 || b % p == 0
  {
    var q, r := a / p, a % p;
    if r != 0 {
      assert a * b == p * (q * b) + r * b;
      AddMultiple(r * b, p, q * b);
      EuclidBelow(p, r, b);
    }
  }

  /** The binomial coefficient, by Pascal's rule. */
  function Binom(n: nat, k: nat): nat
    decreases n
  {
    if k == 0 then 1 else if n == 0 then 0 else Binom(n - 1, k - 1) + Binom(n - 1, k)
  }

  lemma {:induction false} BinomAbove(n: nat, k: nat)
    requires k > n
    ensures Binom(n, k) == 0
    decreases n
  {
    if n > 0 {
      BinomAbove(n - 1, k - 1);
      BinomAbove(n - 1, k);
    }
  }

  lemma {:induction false} BinomAll(n: nat)
    ensures Binom(n, n) == 1
    decreases n
  {
    if n > 0 {
      BinomAll(n - 1);
      BinomAbove(n - 1, n);
    }
  }

  lemma {:induction false} BinomOne(n: nat)
    ensures Binom(n, 1) == n
    decreases n
  {
    if n > 0 {
      BinomOne(n - 1);
    }
  }

  /** (k - 1) B1 = (n - 1) B2 and k B0 = (n - 1) B3 give k (B1 + B0) = n B1 when B1 = B2 + B3. */
  lemma AbsorptionAlgebra(n: int, k: int, b0: int, b1: int, b2: int, b3: int)
    requires (k - 1) * b1 == (n - 1) * b2 && k * b0 == (n - 1) * b3 && b1 == b2 + b3
    ensures k * (b1 + b0) == n * b1
  {
  }

  /** The absorption identity k C(n, k) = n C(n - 1, k - 1). */
  lemma {:induction false} Absorption(n: nat, k: nat)
    requires n >= 1 && k >= 1
    ensures k * Binom(n, k) == n * Binom(n - 1, k - 1)
    decreases n
  {
    if k == 1 {
      BinomOne(n);
    } else if n == 1 {
      BinomAbove(0, k - 1);
      BinomAbove(1, k);
    } else {
      Absorption(n - 1, k - 1);
      Absorption(n - 1, k);
      AbsorptionAlgebra(n, k, Binom(n - 1, k), Binom(n - 1, k - 1), Binom(n - 2, k - 2), Binom(n - 2, k - 1));
    }
  }

  /** A prime p divides C(p, k) for 0 < k < p. */
  lemma PrimeDividesBinom(p: nat, k: nat)
    requires IsPrime(p) && 0 < k < p
    ensures Binom(p, k) % p == 0
  {
    Absorption(p, k);
    DivModUnique(k * Binom(p, k), p, Binom(p - 1, k - 1), 0);
    Euclid(p, k, Binom(p, k));
    DivModUnique(k, p, 0, k);
  }

  /** The terms k <= m of the binomial expansion of (x + 1)^n. */
  function BinomSum(n: nat, x: nat, m: nat): nat
    decreases m
  {
    Binom(n, m) * Pow(x, m) + (if m == 0 then 0 else BinomSum(n, x, m - 1))
  }

  lemma PascalAlgebra(x: int, s: int, s': int, b0: int, b1: int, q: int)
    requires (x + 1) * s == s' + b0 * q
    ensures (x + 1) * (b1 * q + s) == (b0 + b1) * q + s' + b1 * (x * q)
  {
  }

  /** Multiplying the partial expansion of (x + 1)^n by x + 1 gives that of (x + 1)^(n+1), plus the one term past m. */
  lemma {:induction false} PascalSum(n: nat, x: nat, m: nat)
    ensures (x + 1) * BinomSum(n, x, m) == BinomSum(n + 1, x, m) + Binom(n, m) * Pow(x, m + 1)
    decreases m
  {
    if m > 0 {
      PascalSum(n, x, m - 1);
      PascalAlgebra(x, BinomSum(n, x, m - 1), BinomSum(n + 1, x, m - 1), Binom(n, m - 1), Binom(n, m), Pow(x, m));
    }
  }

  /** The binomial theorem for (x + 1)^n. */
  lemma {:induction false} BinomialTheorem(n: nat, x: nat)
    ensures Pow(x + 1, n) == BinomSum(n, x, n)
    decreases n
  {
    if n > 0 {
      BinomialTheorem(n - 1, x);
      PascalSum(n - 1, x, n - 1);
      BinomAll(n - 1);
      BinomAll(n);
    }
  }

  lemma ScaleMultiple(b: int, p: int, q: int, y: int)
    requires b == p * q
    ensures b * y == p * (q * y)
  {
  }

  /** Modulo a prime p, the expansion of (x + 1)^p up to a term below p is 1. */
  lemma {:induction false} InnerTermsVanish(p: nat, x: nat, m: nat)
    requires IsPrime(p) && m < p
    ensures BinomSum(p, x, m) % p == 1
    decreases m
  {
    if m == 0 {
      DivModUnique(1, p, 0, 1);
    } else {
      InnerTermsVanish(p, x, m - 1);
      PrimeDividesBinom(p, m);
      var q := Binom(p, m) / p;
      ScaleMultiple(Binom(p, m), p, q, Pow(x, m));
      AddMultiple(BinomSum(p, x, m - 1), p, q * Pow(x, m));
    }
  }

  /** (x + 1)^p = x^p + 1 modulo a prime p. */
  lemma FreshmansDream(p: nat, x: nat)
    requires IsPrime(p)
    ensures Pow(x + 1, p) % p == (Pow(x, p) + 1) % p
  {
    BinomialTheorem(p, x);
    BinomAll(p);
    assert Pow(x + 1, p) == Pow(x, p) + BinomSum(p, x, p - 1);
    InnerTermsVanish(p, x, p - 1);
    ResidueOneAdded(Pow(x + 1, p), Pow(x, p), BinomSum(p, x, p - 1), p);
  }

  lemma ResidueOneAdded(y: nat, z: nat, s: nat, p: nat)
    requires p >= 1 && y == z + s && s % p == 1
    ensures y % p == (z + 1) % p
  {
    var c := s / p;
    assert y == p * c + (z + 1);
    AddMultiple(z + 1, p, c);
  }

  /** Residues that agree stay in agreement after adding 1. */
  lemma AddOneMod(a: nat, b: nat, p: nat)
    requires p >= 1 && a % p == b % p
    ensures (a + 1) % p == (b + 1) % p
  {
    var r, qa, qb := a % p, a / p, b / p;
    assert a + 1 == p * qa + (r + 1);
    assert b + 1 == p * qb + (r + 1);
    AddMultiple(r + 1, p, qa);
    AddMultiple(r + 1, p, qb);
  }

  /** Fermat's little theorem: x^p = x modulo a prime p. */
  lemma {:induction false} FermatAll(p: nat, x: nat)
    requires IsPrime(p)
    ensures Pow(x, p) % p == x % p
    decreases x
  {
    if x == 0 {
      assert Pow(0, p) == 0 * Pow(0, p - 1);
    } else {
      FermatAll(p, x - 1);
      FreshmansDream(p, x - 1);
      AddOneMod(Pow(x - 1, p), x - 1, p);
    }
  }

  lemma {:induction false} PowPositive(a: nat, e: nat)
    requires a >= 1
    ensures Pow(a, e) >= 1
    decreases e
  {
    if e > 0 {
      PowPositive(a, e - 1);
    }
  }

  lemma FactorOut(a: int, y: int, q: int, p: int)
    requires a * y == p * q + a
    ensures a * (y - 1) == p * q
  {
  }

  /** Fermat's little theorem: a^(p-1) = 1 modulo a prime p, for 0 < a < p. */
  lemma Fermat(p: nat, a: nat)
    requires IsPrime(p) && 1 <= a < p
    ensures Pow(a, p - 1) % p == 1
  {
    FermatAll(p, a);
    DivModUnique(a, p, 0, a);
    PowPositive(a, p - 1);
    assert Pow(a, p) == a * Pow(a, p - 1);
    CancelFactor(p, a, Pow(a, p - 1), Pow(a, p));
  }

  /** A prime p with a y = a modulo p, where 0 < a < p, has y = 1 modulo p. */
  lemma CancelFactor(p: nat, a: nat, y: nat, z: nat)
    requires IsPrime(p) && 1 <= a < p && y >= 1 && z == a * y && z % p == a
    ensures y % p == 1
  {
    var q := z / p;
    FactorOut(a, y, q, p);
    DivModUnique(a * (y - 1), p, q, 0);
    Euclid(p, a, y - 1);
    DivModUnique(a, p, 0, a);
    DivModUnique(y, p, (y - 1) / p, 1);
  }

  lemma DifferenceOfSquares(x: int, q: int, p: int)
    requires x * x == p * q + 1
    ensures (x - 1) * (x + 1) == p * q
  {
  }

  /** The square roots of 1 modulo a prime p are 1 and p - 1. */
  lemma SqrtOne(p: nat, x: nat)
    requires IsPrime(p) && x < p && (x * x) % p == 1
    ensures x == 1 || x == p - 1
  {
    if x != 0 {
      var q := (x * x) / p;
      DifferenceOfSquares(x, q, p);
      DivModUnique((x - 1) * (x + 1), p, q, 0);
      Euclid(p, x - 1, x + 1);
      DivModUnique(x - 1, p, 0, x - 1);
      if x + 1 < p {
        DivModUnique(x + 1, p, 0, x + 1);
      }
    }
  }

  /**
   * Modulo a prime n, when a^(d 2^s) is 1 and no a^(d 2^i) with i < s is
   * n - 1, every a^(d 2^j) with j <= s is 1: its square is 1.
   */
  lemma {:induction false} ChainDown(n: nat, a: nat, d: nat, j: nat, s: nat)
    requires IsPrime(n) && j <= s && Pow(a, d * Pow2(s)) % n == 1
    requires forall i :: 0 <= i < s ==> Pow(a, d * Pow2(i)) % n != n - 1
    ensures Pow(a, d * Pow2(j)) % n == 1
    decreases s - j
  {
    if j < s {
      ChainDown(n, a, d, j + 1, s);
      var x := Pow(a, d * Pow2(j)) % n;
      ChainStep(a, d, j, n);
      PowSquare(x);
      SqrtOne(n, x);
    }
  }

  /** No base 0 < a < n is a witness against a prime n. */
  lemma PrimeNoWitness(n: nat, a: nat, s: nat, d: nat)
    requires IsPrime(n) && 1 <= a < n && d * Pow2(s) == n - 1
    ensures !IsWitness(n, a, s, d)
  {
    Fermat(n, a);
    if forall i :: 0 <= i < s ==> Pow(a, d * Pow2(i)) % n != n - 1 {
      ChainDown(n, a, d, 0, s);
    }
  }

  /** A prime always passes: millerrabin(n, k) is True for every prime n, whatever the bases drawn. */
  lemma PrimePasses(n: int, k: int, deltas: nat -> nat)
    requires IsPrime(n)
    ensures MillerRabinOutcome(n, k, deltas) == Some(true)
  {
    if n > 3 {
      assert !Divides(2, n);
      var (s, d) := TwoAdic(n - 1);
      TwoAdicSplits(n - 1);
      forall i: nat | i < k
        ensures !IsWitness(n, Base(n, deltas(i)), s, d)
      {
        PrimeNoWitness(n, Base(n, deltas(i)), s, d);
      }
    }
  }

  /** One round of the test for the base a: true when a is a witness, so that millerrabin returns False. */
  method WitnessRound(n: nat, a: nat, s: nat, d: nat) returns (composite: bool)
    requires n >= 5 && s >= 1
    ensures composite == IsWitness(n, a, s, d)
  {
    var x := Pow(a, d) % n;
    if x == 1 || x == n - 1 {
      assert Pow2(0) == 1 && d * 1 == d;
      return false;
    }
    assert Pow(a, d * Pow2(0)) % n != n - 1 by {
      assert d * Pow2(0) == d;
    }
    var j := 0;
    while j < s - 1
      invariant 0 <= j <= s - 1
      invariant x == Pow(a, d * Pow2(j)) % n
      invariant Pow(a, d) % n != 1
      invariant forall t :: 0 <= t <= j ==> Pow(a, d * Pow2(t)) % n != n - 1
    {
      ChainStep(a, d, j, n);
      x := Pow(x, 2) % n;
      if x == 1 {
        forall t | j + 1 <= t < s
          ensures Pow(a, d * Pow2(t)) % n != n - 1
        {
          ChainStaysOne(a, d, j + 1, t, n);
        }
        return true;
      }
      if x == n - 1 {
        return false;
      }
      j := j + 1;
    }
    return true;
  }

  /** millerrabin(n, k): the input checks, then k rounds with bases drawn by random_in_range(2, n - 2). */
  method MillerRabin(n: int, k: int, deltas: nat -> nat) returns (r: Option<bool>)
    ensures r == MillerRabinOutcome(n, k, deltas)
  {
    if n == 2 || n == 3 {
      return Some(true);
    }
    if n % 2 == 0 {
      return Some(false);
    }
    if n <= 1 {
      return None;
    }
    var s, d := MillerRabinDec(n);
    var i: nat := 0;
    while i < k
      invariant forall i': nat :: i' < i ==> !IsWitness(n, Base(n, deltas(i')), s, d)
    {
      var a := RandomInRange(2, n - 2, deltas(i));
      var composite := WitnessRound(n, a, s, d);
      if composite {
        return Some(false);
      }
      i := i + 1;
    }
    return Some(true);
  }

  /* ---------------------------------------------------------------------
   * millerrabin_pseudoprime_with_bytes
   * --------------------------------------------------------------------- */

  /** One pass of a generate-until-pseudoprime loop: the urandom bytes of the candidate and the draws of its test. */
  datatype Attempt = Attempt(bytes: Entropy, deltas: nat -> nat)

  function Candidate(n: int, t: Attempt): nat {
    RandomValue(n, Urandom(t.bytes, n))
  }

  predicate Passes(n: int, k: int, t: Attempt) {
    MillerRabinOutcome(Candidate(n, t), k, t.deltas) == Some(true)
  }

  /** The candidate of the first attempt that passes the test, None if none does. */
  function FirstPseudoprime(n: int, k: int, tries: seq<Attempt>): Option<nat>
    decreases |tries|
  {
    if tries == [] then None
    else if Passes(n, k, tries[0]) then Some(Candidate(n, tries[0]))
    else FirstPseudoprime(n, k, tries[1..])
  }

  /** The loop stops at the first attempt that passes and returns its candidate; None means none passed. */
  lemma {:induction false} FirstPseudoprimeIsFirst(n: int, k: int, tries: seq<Attempt>)
    ensures FirstPseudoprime(n, k, tries).None? ==> forall i :: 0 <= i < |tries| ==> !Passes(n, k, tries[i])
    ensures FirstPseudoprime(n, k, tries).Some? ==>
      exists i :: 0 <= i < |tries| && Passes(n, k, tries[i])
        && FirstPseudoprime(n, k, tries).value == Candidate(n, tries[i])
        && forall j :: 0 <= j < i ==> !Passes(n, k, tries[j])
    decreases |tries|
  {
    if tries != [] && !Passes(n, k, tries[0]) {
      FirstPseudoprimeIsFirst(n, k, tries[1..]);
      if FirstPseudoprime(n, k, tries).Some? {
        var i :| 0 <= i < |tries[1..]| && Passes(n, k, tries[1..][i])
          && FirstPseudoprime(n, k, tries).value == Candidate(n, tries[1..][i])
          && forall j :: 0 <= j < i ==> !Passes(n, k, tries[1..][j]);
        assert Passes(n, k, tries[i + 1]);
      } else {
        forall i | 1 <= i < |tries|
          ensures !Passes(n, k, tries[i])
        {
          assert tries[i] == tries[1..][i - 1];
        }
      }
    }
  }

  /** What the loop returns passed millerrabin, so it is at least 2. */
  lemma FirstPseudoprimePasses(n: int, k: int, tries: seq<Attempt>)
    requires FirstPseudoprime(n, k, tries).Some?
    ensures FirstPseudoprime(n, k, tries).value >= 2
  {
    FirstPseudoprimeIsFirst(n, k, tries);
    var i :| 0 <= i < |tries| && Passes(n, k, tries[i])
      && FirstPseudoprime(n, k, tries).value == Candidate(n, tries[i]);
    MillerRabinPassed(Candidate(n, tries[i]), k, tries[i].deltas);
  }

  /** millerrabin_pseudoprime_with_bytes(n, k): draw candidates until one passes. */
  method PseudoprimeWithBytes(n: int, k: int, tries: seq<Attempt>) returns (r: Option<nat>)
    ensures r == FirstPseudoprime(n, k, tries)
  {
    var i := 0;
    while i < |tries|
      invariant 0 <= i <= |tries|
      invariant FirstPseudoprime(n, k, tries) == FirstPseudoprime(n, k, tries[i..])
    {
      assert tries[i..][1..] == tries[i + 1..];
      var rnd := RandomWithBytes(n, Urandom(tries[i].bytes, n));
      var passed := MillerRabin(rnd, k, tries[i].deltas);
      if passed == Some(true) {
        return Some(rnd);
      }
      i := i + 1;
    }
    return None;
  }

  /* ---------------------------------------------------------------------
   * Elliptic curves: what the code uses of modules/ec.py
   * --------------------------------------------------------------------- */

  /** EC(a, b, c, p): the curve with coefficients a, b, c modulo p. */
  datatype Curve = Curve(a: int, b: int, c: int, p: int)

  /** ECPt(ec, x, y): a point of a curve by its coordinates. */
  datatype Point = Point(curve: Curve, x: int, y: int)

  /**
   * The operations the code calls and whose definitions are not part of this
   * model: EC.computeDiscriminant, pickGenerator (given the draw behind its
   * random choices, None when it finds no generator), scalar multiplication
   * n*P, str() of a curve and of a point, repr() of a point, whether an
   * integer is held as a Python long (its repr then ends in L), and the md5
   * and sha384 digests of hashlib.
   */
  datatype Ops = Ops(
    discriminant: (int, int, int, int) -> int,
    pickGenerator: (Curve, nat) -> Option<Point>,
    mul: (int, Point) -> Point,
    curveStr: Curve -> seq<byte>,
    pointStr: Point -> seq<byte>,
    pointRepr: Point -> seq<byte>,
    isLong: int -> bool,
    md5: seq<byte> -> seq<byte>,
    sha384: seq<byte> -> seq<byte>)

  /** a*(b*g) == b*(a*g): the one property of scalar multiplication Diffie-Hellman needs. */
  ghost predicate Commutes(ops: Ops) {
    forall a: int, b: int, g: Point :: ops.mul(a, ops.mul(b, g)) == ops.mul(b, ops.mul(a, g))
  }

  /** One instance of Commutes. */
  lemma MulCommutes(ops: Ops, a: int, b: int, g: Point)
    requires Commutes(ops)
    ensures ops.mul(a, ops.mul(b, g)) == ops.mul(b, ops.mul(a, g))
  {
  }

  /**
   * A point with nonnegative integer coordinates, which str() of a tuple of
   * them prints as numerals. The point at infinity, which n*P is when n is a
   * multiple of the order of P (for instance n = 0), has no such coordinates;
   * how ec.py prints it is not part of this model.
   */
  predicate Affine(pt: Point) {
    pt.x >= 0 && pt.y >= 0
  }

  /**
   * What ec.py is taken to guarantee: a generator lies on the curve it was
   * picked for and has nonnegative coordinates, and a multiple of a point lies
   * on the curve of that point. Whether a multiple is Affine is not assumed.
   */
  ghost predicate Coherent(ops: Ops) {
    && (forall ec: Curve, k: nat, pt: Point :: ops.pickGenerator(ec, k) == Some(pt) ==> pt.curve == ec && Affine(pt))
    && (forall k: int, pt: Point :: ops.mul(k, pt).curve == pt.curve)
  }

  /** One instance of Coherent for multiples. */
  lemma MulCoherent(ops: Ops, k: int, pt: Point)
    requires Coherent(ops)
    ensures ops.mul(k, pt).curve == pt.curve
  {
  }

  /** md5 digests are 16 bytes long and sha384 digests 48. */
  ghost predicate DigestSizes(ops: Ops) {
    && (forall s: seq<byte> :: |ops.md5(s)| == 16)
    && (forall s: seq<byte> :: |ops.sha384(s)| == 48)
  }

  /**
   * log2(p)//4, the byte count of a private scalar: twice the bytes of p.
   * Python's // and Dafny's / agree for the positive divisor 4.
   */
  function ScalarBytes(p: int): int {
    FloorLog2(p) / 4
  }

  /** random_with_bytes(log2(p)//4) on the bytes of e. */
  function Scalar(p: int, e: Entropy): nat {
    RandomValue(ScalarBytes(p), Urandom(e, ScalarBytes(p)))
  }

  /** A private scalar has at most twice the bits of p: it is below 2^(2 floor(log2 p)), so at most p^2. */
  lemma ScalarBound(p: int, e: Entropy)
    requires p >= 1
    ensures Scalar(p, e) < Pow2(2 * FloorLog2(p))
  {
    FloorLog2Bounds(p);
    var n := ScalarBytes(p);
    RandomValueBound(n, Urandom(e, n));
    if n > 0 {
      Pow2Monotonic(8 * n, 2 * FloorLog2(p));
    }
  }

  /**
   * The scalar random_with_bytes(log2(p)//4) gives as written: with n bytes it
   * is below 2^(8n + 8(n/8)), and it is Scalar(p, e) when n < 8 or n is a
   * multiple of 8.
   */
  lemma ScalarAsWritten(p: int, e: Entropy)
    requires p >= 1
    ensures var n := ScalarBytes(p); var v := RandomValueAsWritten(n, Urandom(e, n));
      && (n > 0 ==> v < Pow2(8 * n + 8 * (n / 8)))
      && (n <= 0 ==> v == 0)
      && (n < 8 || n % 8 == 0 ==> v == Scalar(p, e))
  {
    var n := ScalarBytes(p);
    if n > 0 {
      LeValueBound(Spread(Urandom(e, n), n / 8));
    }
    if n < 8 || n % 8 == 0 {
      RandomAsWrittenAgrees(n, Urandom(e, n));
    }
  }

  /* ---------------------------------------------------------------------
   * Diffie-Hellman
   * --------------------------------------------------------------------- */

  /** ecdh_derivekey: the sha384 digest of repr(secret). */
  function DeriveKey(ops: Ops, secret: Point): (key: seq<byte>)
    ensures DigestSizes(ops) ==> |key| == 48
  {
    ops.sha384(ops.pointRepr(secret))
  }

  /** The result (b, b*g, ab*g) of ecdh_reply. */
  datatype Reply = Reply(b: nat, bg: Point, abg: Point)

  /** ecdh_reply(p, g, ag): a private b of log2(p)//4 random bytes, b*g and b*ag. */
  function EcdhReply(ops: Ops, p: int, g: Point, ag: Point, e: Entropy): Reply {
    var b := Scalar(p, e);
    Reply(b, ops.mul(b, g), ops.mul(b, ag))
  }

  /** ecdh_accept(a, bg): the shared point a*bg and the key derived from it. */
  function EcdhAccept(ops: Ops, a: int, bg: Point): (Point, seq<byte>) {
    var abg := ops.mul(a, bg);
    (abg, DeriveKey(ops, abg))
  }

  /** Both sides reach the same secret: the replier's b*(a*g) is the acceptor's a*(b*g), and so is the key. */
  lemma EcdhAgree(ops: Ops, p: int, a: int, g: Point, e: Entropy)
    requires Commutes(ops)
    ensures var reply := EcdhReply(ops, p, g, ops.mul(a, g), e);
      EcdhAccept(ops, a, reply.bg) == (reply.abg, DeriveKey(ops, reply.abg))
  {
    var b := Scalar(p, e);
    assert ops.mul(a, ops.mul(b, g)) == ops.mul(b, ops.mul(a, g));
  }

  /** One pass of the curve loop of ecdh_init: the urandom bytes of a, b and c and the draw of pickGenerator. */
  datatype CurveAttempt = CurveAttempt(a: Entropy, b: Entropy, c: Entropy, pick: nat)

  /** The result (ec, g, a, a*g) of ecdh_init. */
  datatype Setup = Setup(ec: Curve, g: Point, a: nat, ag: Point)

  /** EC(a, b, c, p) with a, b, c = random_with_bytes(2*bytes) % p. */
  function CurveOf(bytes: int, p: int, t: CurveAttempt): Curve
    requires p >= 1
  {
    var n := 2 * bytes;
    Curve(RandomValue(n, Urandom(t.a, n)) % p, RandomValue(n, Urandom(t.b, n)) % p, RandomValue(n, Urandom(t.c, n)) % p, p)
  }

  /** The curve loop succeeds with an attempt whose discriminant is nonzero and whose pickGenerator finds a point. */
  predicate CurveFound(ops: Ops, bytes: int, p: int, t: CurveAttempt)
    requires p >= 1
  {
    var ec := CurveOf(bytes, p, t);
    ops.discriminant(ec.a, ec.b, ec.c, ec.p) != 0 && ops.pickGenerator(ec, t.pick).Some?
  }

  /** The curve and generator of the first attempt that succeeds, None if none does. */
  function FirstCurve(ops: Ops, bytes: int, p: int, tries: seq<CurveAttempt>): Option<(Curve, Point)>
    requires p >= 1
    decreases |tries|
  {
    if tries == [] then None
    else if CurveFound(ops, bytes, p, tries[0]) then
      var ec := CurveOf(bytes, p, tries[0]);
      Some((ec, ops.pickGenerator(ec, tries[0].pick).value))
    else FirstCurve(ops, bytes, p, tries[1..])
  }

  /** What the curve loop returns comes from an attempt that succeeded; None means no attempt did. */
  lemma {:induction false} FirstCurveFound(ops: Ops, bytes: int, p: int, tries: seq<CurveAttempt>)
    requires p >= 1
    ensures FirstCurve(ops, bytes, p, tries).None? ==> forall i :: 0 <= i < |tries| ==> !CurveFound(ops, bytes, p, tries[i])
    ensures FirstCurve(ops, bytes, p, tries).Some? ==>
      var (ec, g) := FirstCurve(ops, bytes, p, tries).value;
      exists i :: 0 <= i < |tries| && CurveFound(ops, bytes, p, tries[i])
        && ec == CurveOf(bytes, p, tries[i]) && ops.pickGenerator(ec, tries[i].pick) == Some(g)
    decreases |tries|
  {
    if tries != [] && !CurveFound(ops, bytes, p, tries[0]) {
      FirstCurveFound(ops, bytes, p, tries[1..]);
      if FirstCurve(ops, bytes, p, tries).Some? {
        var (ec, g) := FirstCurve(ops, bytes, p, tries).value;
        var i :| 0 <= i < |tries[1..]| && CurveFound(ops, bytes, p, tries[1..][i])
          && ec == CurveOf(bytes, p, tries[1..][i]) && ops.pickGenerator(ec, tries[1..][i].pick) == Some(g);
        assert tries[1..][i] == tries[i + 1];
      } else {
        forall i | 1 <= i < |tries|
          ensures !CurveFound(ops, bytes, p, tries[i])
        {
          assert tries[i] == tries[1..][i - 1];
        }
      }
    }
  }

  /** The curve loop past attempt i is the loop from attempt i + 1 on unless attempt i succeeds. */
  lemma FirstCurveStep(ops: Ops, bytes: int, p: int, tries: seq<CurveAttempt>, i: nat)
    requires p >= 1 && i < |tries|
    ensures var ec := CurveOf(bytes, p, tries[i]);
      FirstCurve(ops, bytes, p, tries[i..]) ==
        if CurveFound(ops, bytes, p, tries[i]) then Some((ec, ops.pickGenerator(ec, tries[i].pick).value))
        else FirstCurve(ops, bytes, p, tries[i + 1..])
  {
    assert tries[i..][1..] == tries[i + 1..];
  }

  /** The three coefficients of one pass of the curve loop, drawn with random_with_bytes(2*bytes) and reduced modulo p. */
  method DrawCurve(bytes: int, p: int, t: CurveAttempt) returns (ec: Curve)
    requires p >= 1
    ensures ec == CurveOf(bytes, p, t)
  {
    var n := 2 * bytes;
    var a := RandomWithBytes(n, Urandom(t.a, n));
    var b := RandomWithBytes(n, Urandom(t.b, n));
    var c := RandomWithBytes(n, Urandom(t.c, n));
    ec := Curve(a % p, b % p, c % p, p);
  }

  /** What ecdh_init(bytes) returns, None when the attempts run out before a prime, or a curve with a generator, is found. */
  function EcdhInitOutcome(ops: Ops, bytes: int, primes: seq<Attempt>, curves: seq<CurveAttempt>, scalar: Entropy): Option<Setup> {
    match FirstPseudoprime(bytes, 20, primes)
    case None => None
    case Some(p) =>
      FirstPseudoprimePasses(bytes, 20, primes);
      match FirstCurve(ops, bytes, p, curves)
      case None => None
      case Some((ec, g)) =>
        var a := Scalar(p, scalar);
        Some(Setup(ec, g, a, ops.mul(a, g)))
  }

  /**
   * ecdh_init's result: a modulus p that passed 20 rounds of Miller-Rabin,
   * a curve modulo p with coefficients below p and a nonzero discriminant, a
   * generator pickGenerator chose on it, and a*g for a private a of at most
   * twice the bits of p.
   */
  lemma EcdhInitSound(ops: Ops, bytes: int, primes: seq<Attempt>, curves: seq<CurveAttempt>, scalar: Entropy)
    requires EcdhInitOutcome(ops, bytes, primes, curves, scalar).Some?
    ensures var s := EcdhInitOutcome(ops, bytes, primes, curves, scalar).value;
      && FirstPseudoprime(bytes, 20, primes) == Some(s.ec.p) && s.ec.p >= 2
      && 0 <= s.ec.a < s.ec.p && 0 <= s.ec.b < s.ec.p && 0 <= s.ec.c < s.ec.p
      && ops.discriminant(s.ec.a, s.ec.b, s.ec.c, s.ec.p) != 0
      && (exists i :: 0 <= i < |curves| && ops.pickGenerator(s.ec, curves[i].pick) == Some(s.g))
      && s.ag == ops.mul(s.a, s.g)
      && s.a < Pow2(2 * FloorLog2(s.ec.p))
  {
    var p := FirstPseudoprime(bytes, 20, primes).value;
    FirstPseudoprimePasses(bytes, 20, primes);
    FirstCurveFound(ops, bytes, p, curves);
    ScalarBound(p, scalar);
  }

  /** ecdh_init(bytes): a pseudoprime p, then random curves modulo p until one is nonsingular and has a generator, then a and a*g. */
  /**
   * For ecdh_init(bytes) with 0 < bytes < 4, as the session calls it with 2,
   * every draw of the code as written is the corrected one: the candidate
   * primes of `bytes` bytes, the coefficients of 2*bytes bytes and the scalar
   * of log2(p)//4 bytes for a p of `bytes` bytes.
   */
  lemma SmallDrawsAsWritten(bytes: int, t: Attempt, c: CurveAttempt, p: int, e: Entropy)
    requires 0 < bytes < 4
    ensures Candidate(bytes, t) == RandomValueAsWritten(bytes, Urandom(t.bytes, bytes))
    ensures var n := 2 * bytes;
      p >= 1 ==> CurveOf(bytes, p, c) == Curve(RandomValueAsWritten(n, Urandom(c.a, n)) % p,
        RandomValueAsWritten(n, Urandom(c.b, n)) % p, RandomValueAsWritten(n, Urandom(c.c, n)) % p, p)
    ensures 1 <= p < Pow2(8 * bytes) ==> Scalar(p, e) == RandomValueAsWritten(ScalarBytes(p), Urandom(e, ScalarBytes(p)))
  {
    RandomAsWrittenAgrees(bytes, Urandom(t.bytes, bytes));
    RandomAsWrittenAgrees(2 * bytes, Urandom(c.a, 2 * bytes));
    RandomAsWrittenAgrees(2 * bytes, Urandom(c.b, 2 * bytes));
    RandomAsWrittenAgrees(2 * bytes, Urandom(c.c, 2 * bytes));
    if 1 <= p < Pow2(8 * bytes) {
      FloorLog2Bounds(p);
      if FloorLog2(p) >= 32 {
        Pow2Monotonic(8 * bytes, FloorLog2(p));
      }
      ScalarAsWritten(p, e);
    }
  }

  method EcdhInit(ops: Ops, bytes: int, primes: seq<Attempt>, curves: seq<CurveAttempt>, scalar: Entropy) returns (r: Option<Setup>)
    ensures r == EcdhInitOutcome(ops, bytes, primes, curves, scalar)
  {
    var found := PseudoprimeWithBytes(bytes, 20, primes);
    if found.None? {
      return None;
    }
    var p := found.value;
    FirstPseudoprimePasses(bytes, 20, primes);
    var ec: Option<Curve> := None;
    var g: Option<Point> := None;
    var i := 0;
    while ec.None? || g.None?
      invariant 0 <= i <= |curves|
      invariant ec.None? || g.None? ==> FirstCurve(ops, bytes, p, curves) == FirstCurve(ops, bytes, p, curves[i..])
      invariant ec.Some? && g.Some? ==> FirstCurve(ops, bytes, p, curves) == Some((ec.value, g.value))
      decreases |curves| - i, if ec.None? || g.None? then 1 else 0
    {
      if i == |curves| {
        return None;
      }
      var t := curves[i];
      FirstCurveStep(ops, bytes, p, curves, i);
      i := i + 1;
      var curve := DrawCurve(bytes, p, t);
      if ops.discriminant(curve.a, curve.b, curve.c, p) == 0 {
        continue;
      }
      ec := Some(curve);
      g := ops.pickGenerator(curve, t.pick);
    }
    var log := Log2(p);
    var a := RandomWithBytes(log / 4, Urandom(scalar, log / 4));
    return Some(Setup(ec.value, g.value, a, ops.mul(a, g.value)));
  }

  /* ---------------------------------------------------------------------
   * ElGamal
   * --------------------------------------------------------------------- */

  /** (ec, g, a*g) */
  datatype PublicKey = PublicKey(ec: Curve, g: Point, ag: Point)

  /** (ec, g, a) */
  datatype PrivateKey = PrivateKey(ec: Curve, g: Point, a: int)

  datatype KeyPair = KeyPair(pub: PublicKey, priv: PrivateKey)

  /** (b*g, ciphertext) */
  datatype Ciphertext = Ciphertext(bg: Point, body: seq<byte>)

  /** A symmetric algorithm: symmalg(key, msg). */
  type SymmAlg = (seq<byte>, seq<byte>) -> seq<byte>

  /** The public key's a*g is a times its generator, which the private key shares. */
  predicate Matches(ops: Ops, kp: KeyPair) {
    kp.pub.ec == kp.priv.ec && kp.pub.g == kp.priv.g && kp.pub.ag == ops.mul(kp.priv.a, kp.pub.g)
  }

  /** ec_elgamal_generate_keypair(bytes): the values of ecdh_init split into the two keys. */
  method ElGamalGenerateKeypair(ops: Ops, bytes: int, primes: seq<Attempt>, curves: seq<CurveAttempt>, scalar: Entropy)
    returns (r: Option<KeyPair>)
    ensures r.Some? <==> EcdhInitOutcome(ops, bytes, primes, curves, scalar).Some?
    ensures r.Some? ==> Matches(ops, r.value)
    ensures r.Some? ==> var s := EcdhInitOutcome(ops, bytes, primes, curves, scalar).value;
      r.value.pub == PublicKey(s.ec, s.g, s.ag) && r.value.priv.a == s.a
  {
    var setup := EcdhInit(ops, bytes, primes, curves, scalar);
    if setup.None? {
      return None;
    }
    var Setup(ec, g, a, ag) := setup.value;
    return Some(KeyPair(PublicKey(ec, g, ag), PrivateKey(ec, g, a)));
  }

  /** ec_elgamal_derive_symm_key(el1, el2): sha384 of repr(el1) + "\n" + repr(el2). */
  function DeriveSymmKey(ops: Ops, el1: Point, el2: Point): (key: seq<byte>)
    ensures DigestSizes(ops) ==> |key| == 48
  {
    ops.sha384(ops.pointRepr(el1) + [10] + ops.pointRepr(el2))
  }

  /** ec_elgamal_encrypt(msg, pk, symmalg): b from log2(p)//4 random bytes, the key from (b*g, ab*g). */
  function ElGamalEncrypt(ops: Ops, msg: seq<byte>, pk: PublicKey, symmalg: SymmAlg, e: Entropy): Ciphertext {
    var b := Scalar(pk.ec.p, e);
    var abg := ops.mul(b, pk.ag);
    var bg := ops.mul(b, pk.g);
    Ciphertext(bg, symmalg(DeriveSymmKey(ops, bg, abg), msg))
  }

  /** ec_elgamal_decrypt(ct, sk, symmalg): the key from (b*g, a*(b*g)). */
  function ElGamalDecrypt(ops: Ops, ct: Ciphertext, sk: PrivateKey, symmalg: SymmAlg): seq<byte> {
    var abg := ops.mul(sk.a, ct.bg);
    symmalg(DeriveSymmKey(ops, ct.bg, abg), ct.body)
  }

  /** dec undoes enc under every key. */
  ghost predicate Inverts(enc: SymmAlg, dec: SymmAlg) {
    forall k, m :: dec(k, enc(k, m)) == m
  }

  /** Decryption with the private key recovers what was encrypted with the matching public key. */
  lemma ElGamalRoundTrip(ops: Ops, kp: KeyPair, msg: seq<byte>, enc: SymmAlg, dec: SymmAlg, e: Entropy)
    requires Commutes(ops) && Matches(ops, kp) && Inverts(enc, dec)
    ensures ElGamalDecrypt(ops, ElGamalEncrypt(ops, msg, kp.pub, enc, e), kp.priv, dec) == msg
  {
    var b := Scalar(kp.pub.ec.p, e);
    assert ops.mul(kp.priv.a, ops.mul(b, kp.pub.g)) == ops.mul(b, ops.mul(kp.priv.a, kp.pub.g));
  }
}
