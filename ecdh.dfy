/**
 * The encrypted session of modules/ecdh.py: class ECDHSession, which sets up a
 * shared key with elliptic-curve Diffie-Hellman over four messages and then
 * encrypts and decrypts with Salsa20 under that key.
 *
 * Messages are Python 2 byte strings, here seq<byte>. The setup messages are
 * str() of tuples of integers, read back by _stringToListOfLongs; the
 * encrypted ones carry str(len(msg)) + "|" + msg padded with spaces to a
 * multiple of 64 bytes.
 */
module Ecdh {
  import opened Common
  import opened CryptoHelp
  import S = Salsa20

  /* ---------------------------------------------------------------------
   * Text
   * --------------------------------------------------------------------- */

  const SPACE: byte := 32
  const PLUS: byte := 43
  const COMMA: byte := 44
  const MINUS: byte := 45
  const LPAREN: byte := 40
  const RPAREN: byte := 41
  const UPPER_L: byte := 76
  const LOWER_L: byte := 108
  const BAR: byte := 124

  predicate IsDigit(c: byte) {
    48 <= c <= 57
  }

  /** The bytes str.split() and str.strip() treat as whitespace: space, \t, \n, \v, \f and \r. */
  predicate IsSpace(c: byte) {
    c == SPACE || 9 <= c <= 13
  }

  predicate AllDigits(s: seq<byte>) {
    forall i :: 0 <= i < |s| ==> IsDigit(s[i])
  }

  predicate NoSpaces(s: seq<byte>) {
    forall i :: 0 <= i < |s| ==> !IsSpace(s[i])
  }

  /** str(n) for n >= 0: its decimal digits, most significant first. */
  function Digits(n: nat): (r: seq<byte>)
    ensures 1 <= |r| && AllDigits(r)
  {
    if n < 10 then [48 + n] else Digits(n / 10) + [48 + n % 10]
  }

  /** The value of a string of decimal digits. */
  function DigitsValue(s: seq<byte>): nat
    requires AllDigits(s)
    decreases |s|
  {
    if s == [] then 0 else 10 * DigitsValue(s[..|s| - 1]) + (s[|s| - 1] - 48)
  }

  /** Reading the digits of n gives n back. */
  lemma {:induction false} DigitsValueOf(n: nat)
    ensures DigitsValue(Digits(n)) == n
    decreases n
  {
    if n >= 10 {
      DigitsValueOf(n / 10);
      var d := Digits(n);
      assert d[..|d| - 1] == Digits(n / 10);
    }
  }

  /** repr() of a Python 2 integer: the sign, the digits, and L when it is a long. */
  function Repr(x: int, long: bool): seq<byte> {
    (if x < 0 then [MINUS] else []) + Digits(if x < 0 then -x else x) + (if long then [UPPER_L] else [])
  }

  /** The items of a tuple as str() shows them, separated by ", ". */
  function Items(xs: seq<int>, isLong: int -> bool): seq<byte>
    decreases |xs|
  {
    if xs == [] then []
    else if |xs| == 1 then Repr(xs[0], isLong(xs[0]))
    else Repr(xs[0], isLong(xs[0])) + [COMMA, SPACE] + Items(xs[1..], isLong)
  }

  /**
   * str() of a tuple of integers; isLong tells which values are Python longs.
   * A one-element tuple keeps its trailing comma.
   */
  function TupleStr(xs: seq<int>, isLong: int -> bool): seq<byte> {
    if |xs| == 1 then [LPAREN] + Repr(xs[0], isLong(xs[0])) + [COMMA, RPAREN]
    else [LPAREN] + Items(xs, isLong) + [RPAREN]
  }

  /** "".join(s.split()): s without its whitespace. */
  function RemoveSpaces(s: seq<byte>): (r: seq<byte>)
    ensures NoSpaces(r)
    decreases |s|
  {
    if s == [] then []
    else (if IsSpace(s[0]) then [] else [s[0]]) + RemoveSpaces(s[1..])
  }

  lemma {:induction false} RemoveSpacesAppend(s: seq<byte>, t: seq<byte>)
    ensures RemoveSpaces(s + t) == RemoveSpaces(s) + RemoveSpaces(t)
    decreases |s|
  {
    if s == [] {
      assert s + t == t;
    } else {
      assert (s + t)[0] == s[0];
      assert (s + t)[1..] == s[1..] + t;
      RemoveSpacesAppend(s[1..], t);
    }
  }

  lemma {:induction false} RemoveSpacesNone(s: seq<byte>)
    requires NoSpaces(s)
    ensures RemoveSpaces(s) == s
    decreases |s|
  {
    if s != [] {
      RemoveSpacesNone(s[1..]);
    }
  }

  /** s.split(sep): the pieces between the separators, at least one. */
  function Split(s: seq<byte>, sep: byte): (r: seq<seq<byte>>)
    ensures |r| >= 1
    decreases |s|
  {
    if s == [] then [[]]
    else
      var rest := Split(s[1..], sep);
      if s[0] == sep then [[]] + rest else [[s[0]] + rest[0]] + rest[1..]
  }

  /** sep.join(pieces) */
  function Join(pieces: seq<seq<byte>>, sep: byte): seq<byte>
    decreases |pieces|
  {
    if pieces == [] then []
    else if |pieces| == 1 then pieces[0]
    else pieces[0] + [sep] + Join(pieces[1..], sep)
  }

  predicate Free(s: seq<byte>, c: byte) {
    forall i :: 0 <= i < |s| ==> s[i] != c
  }

  /** A piece without the separator followed by the rest splits into the piece and the pieces of the rest. */
  lemma {:induction false} SplitPiece(p: seq<byte>, sep: byte, rest: seq<byte>)
    requires Free(p, sep)
    ensures Split(p, sep) == [p]
    ensures Split(p + [sep] + rest, sep) == [p] + Split(rest, sep)
    decreases |p|
  {
    if p != [] {
      SplitPiece(p[1..], sep, rest);
      assert [p[0]] + p[1..] == p;
      assert (p + [sep] + rest)[0] == p[0];
      assert (p + [sep] + rest)[1..] == p[1..] + [sep] + rest;
    } else {
      assert (p + [sep] + rest)[1..] == rest;
    }
  }

  /** Splitting on a separator no piece contains undoes joining with it. */
  lemma {:induction false} SplitJoin(pieces: seq<seq<byte>>, sep: byte)
    requires |pieces| >= 1 && forall i :: 0 <= i < |pieces| ==> Free(pieces[i], sep)
    ensures Split(Join(pieces, sep), sep) == pieces
    decreases |pieces|
  {
    SplitPiece(pieces[0], sep, Join(pieces[1..], sep));
    if |pieces| > 1 {
      SplitJoin(pieces[1..], sep);
    }
  }

  /** A piece the pattern \d+(L|) matches: digits, then an optional L. */
  predicate IsNumeral(p: seq<byte>) {
    && |p| >= 1
    && AllDigits(p[..|p| - 1])
    && (IsDigit(p[|p| - 1]) || (p[|p| - 1] == UPPER_L && |p| >= 2))
  }

  /** The value long() gives a numeral. */
  function NumeralValue(p: seq<byte>): nat
    requires IsNumeral(p)
  {
    if IsDigit(p[|p| - 1]) then DigitsValue(p) else DigitsValue(p[..|p| - 1])
  }

  /**
   * The strings the pattern ^\((\d+(L|),)*\d+(L|)\)$ matches: numerals
   * separated by commas, in parentheses.
   */
  predicate IsTuple(t: seq<byte>) {
    && |t| >= 2 && t[0] == LPAREN && t[|t| - 1] == RPAREN
    && var pieces := Split(t[1..|t| - 1], COMMA);
       forall i :: 0 <= i < |pieces| ==> IsNumeral(pieces[i])
  }

  /**
   * _stringToListOfLongs: with the whitespace removed, the text must be a
   * parenthesised list of numerals; the result is their values, None otherwise.
   */
  function StringToListOfLongs(s: seq<byte>): Option<seq<nat>> {
    var t := RemoveSpaces(s);
    if IsTuple(t) then
      var pieces := Split(t[1..|t| - 1], COMMA);
      Some(seq(|pieces|, i requires 0 <= i < |pieces| => NumeralValue(pieces[i])))
    else None
  }

  /** The numerals of non-negative values, without the spaces str() puts after the commas. */
  function Numerals(xs: seq<nat>, isLong: int -> bool): (r: seq<seq<byte>>)
    ensures |r| == |xs|
  {
    seq(|xs|, i requires 0 <= i < |xs| => Repr(xs[i], isLong(xs[i])))
  }

  /** The repr of a non-negative integer is a numeral of its value, with no comma and no whitespace. */
  lemma ReprNumeral(x: nat, long: bool)
    ensures var r := Repr(x, long);
      IsNumeral(r) && NumeralValue(r) == x && Free(r, COMMA) && NoSpaces(r)
  {
    var d := Digits(x);
    DigitsValueOf(x);
    if long {
      assert Repr(x, long) == d + [UPPER_L];
      SuffixedNumeral(d);
    } else {
      assert Repr(x, long) == d;
      PlainNumeral(d);
    }
  }

  /** Decimal digits alone are a numeral, without commas or whitespace. */
  lemma PlainNumeral(d: seq<byte>)
    requires |d| >= 1 && AllDigits(d)
    ensures IsNumeral(d) && NumeralValue(d) == DigitsValue(d) && Free(d, COMMA) && NoSpaces(d)
  {
    var init := d[..|d| - 1];
    forall i | 0 <= i < |init|
      ensures IsDigit(init[i])
    {
      assert init[i] == d[i];
    }
  }

  /** Decimal digits with the L suffix are a numeral of the same value, without commas or whitespace. */
  lemma SuffixedNumeral(d: seq<byte>)
    requires |d| >= 1 && AllDigits(d)
    ensures var p := d + [UPPER_L];
      IsNumeral(p) && NumeralValue(p) == DigitsValue(d) && Free(p, COMMA) && NoSpaces(p)
  {
    var p := d + [UPPER_L];
    assert p[..|p| - 1] == d;
    forall i | 0 <= i < |p|
      ensures p[i] != COMMA && !IsSpace(p[i])
    {
      if i < |d| {
        assert p[i] == d[i];
      }
    }
  }

  /** Without whitespace, the items of a tuple of non-negative values are their numerals joined by commas. */
  lemma {:induction false} ItemsWithoutSpaces(xs: seq<nat>, isLong: int -> bool)
    requires |xs| >= 1
    ensures RemoveSpaces(Items(xs, isLong)) == Join(Numerals(xs, isLong), COMMA)
    decreases |xs|
  {
    var r := Repr(xs[0], isLong(xs[0]));
    ReprNumeral(xs[0], isLong(xs[0]));
    RemoveSpacesNone(r);
    if |xs| > 1 {
      ItemsWithoutSpaces(xs[1..], isLong);
      RemoveSpacesAppend(r + [COMMA, SPACE], Items(xs[1..], isLong));
      RemoveSpacesAppend(r, [COMMA, SPACE]);
      CommaSpace();
      assert Numerals(xs, isLong)[1..] == Numerals(xs[1..], isLong);
    }
  }

  lemma CommaSpace()
    ensures RemoveSpaces([COMMA, SPACE]) == [COMMA]
  {
    var cs: seq<byte> := [COMMA, SPACE];
    assert cs[1..] == [SPACE];
    assert RemoveSpaces([SPACE]) == [] by {
      assert [SPACE][1..] == [];
    }
  }

  /**
   * _stringToListOfLongs reads back str() of a tuple of two or more
   * non-negative integers, whether they are ints or longs.
   */
  lemma ParseTupleStr(xs: seq<nat>, isLong: int -> bool)
    requires |xs| >= 2
    ensures StringToListOfLongs(TupleStr(xs, isLong)) == Some(xs)
  {
    var nums := Numerals(xs, isLong);
    var body := Items(xs, isLong);
    ItemsWithoutSpaces(xs, isLong);
    RemoveSpacesAppend([LPAREN] + body, [RPAREN]);
    RemoveSpacesAppend([LPAREN], body);
    var t := RemoveSpaces(TupleStr(xs, isLong));
    assert t == [LPAREN] + Join(nums, COMMA) + [RPAREN];
    assert t[1..|t| - 1] == Join(nums, COMMA);
    forall i | 0 <= i < |nums|
      ensures Free(nums[i], COMMA) && IsNumeral(nums[i]) && NumeralValue(nums[i]) == xs[i]
    {
      ReprNumeral(xs[i], isLong(xs[i]));
    }
    SplitJoin(nums, COMMA);
    var pieces := Split(t[1..|t| - 1], COMMA);
    assert pieces == nums;
    assert IsTuple(t);
    var values := seq(|pieces|, i requires 0 <= i < |pieces| => NumeralValue(pieces[i]));
    assert values == xs;
  }

  /** A one-element tuple is refused: str() leaves a comma before the parenthesis. */
  lemma ParseRejectsSingle(x: nat, isLong: int -> bool)
    ensures StringToListOfLongs(TupleStr([x], isLong)) == None
  {
    var r := Repr(x, isLong(x));
    ReprNumeral(x, isLong(x));
    var t := TupleStr([x], isLong);
    assert t == [LPAREN] + r + [COMMA, RPAREN];
    assert NoSpaces(t);
    RemoveSpacesNone(t);
    assert t[1..|t| - 1] == r + [COMMA] + [];
    SplitPiece(r, COMMA, []);
    var pieces := Split(t[1..|t| - 1], COMMA);
    assert pieces == [r, []];
    assert !IsNumeral(pieces[1]);
  }

  /* ---------------------------------------------------------------------
   * long() and the frame of an encrypted message
   * --------------------------------------------------------------------- */

  function TrimLeft(s: seq<byte>): seq<byte>
    decreases |s|
  {
    if s != [] && IsSpace(s[0]) then TrimLeft(s[1..]) else s
  }

  function TrimRight(s: seq<byte>): seq<byte>
    decreases |s|
  {
    if s != [] && IsSpace(s[|s| - 1]) then TrimRight(s[..|s| - 1]) else s
  }

  /**
   * long(s) on a Python 2 str, base 10: optional whitespace, an optional
   * sign, optional whitespace again, decimal digits, an optional l or L and
   * optional whitespace; None where long() raises ValueError.
   */
  function LongOf(s: seq<byte>): Option<int> {
    var t := TrimRight(TrimLeft(s));
    var negative := |t| >= 1 && t[0] == MINUS;
    var u := if |t| >= 1 && (t[0] == MINUS || t[0] == PLUS) then TrimLeft(t[1..]) else t;
    var v := if |u| >= 1 && (u[|u| - 1] == UPPER_L || u[|u| - 1] == LOWER_L) then u[..|u| - 1] else u;
    if |v| >= 1 && AllDigits(v) then Some(if negative then -(DigitsValue(v) as int) else DigitsValue(v)) else None
  }

  /** long(str(n)) == n */
  lemma LongOfDigits(n: nat)
    ensures LongOf(Digits(n)) == Some(n)
  {
    var d := Digits(n);
    DigitsValueOf(n);
    assert TrimLeft(d) == d;
    assert TrimRight(d) == d;
  }

  /** The first index of c in s. */
  function Find(s: seq<byte>, c: byte): (r: Option<nat>)
    ensures r.None? ==> Free(s, c)
    ensures r.Some? ==> r.value < |s| && s[r.value] == c && Free(s[..r.value], c)
    decreases |s|
  {
    if s == [] then None
    else if s[0] == c then Some(0)
    else match Find(s[1..], c)
      case None => None
      case Some(i) => assert s[..i + 1] == [s[0]] + s[1..][..i]; Some(i + 1)
  }

  /** s.split(sep, 1) */
  function SplitOnce(s: seq<byte>, sep: byte): (r: seq<seq<byte>>)
    ensures 1 <= |r| <= 2
  {
    match Find(s, sep)
    case None => [s]
    case Some(i) => [s[..i], s[i + 1..]]
  }

  /** s[0:k], with Python's reading of a negative bound (counted from the end) and of one past the end. */
  function Prefix(s: seq<byte>, k: int): seq<byte> {
    if k >= 0 then (if k <= |s| then s[..k] else s)
    else if |s| + k >= 0 then s[..|s| + k]
    else []
  }

  /** The exceptions the session lets through to its caller. */
  datatype Raised =
    | CipherFailure(error: S.CipherError)   // raised by Salsa20.encrypt
    | ValueError                            // long() of a length that is no integer
    | IndexError                            // a decrypted message without "|"

  /** Spaces that bring a text of length k to a multiple of 64 bytes. */
  function Padding(k: nat): seq<byte> {
    if k % 64 != 0 then Spaces(64 - k % 64) else []
  }

  /** " " * n */
  function Spaces(n: nat): seq<byte> {
    seq(n, _ => SPACE)
  }

  /** The plaintext sendEncryptedMessage encrypts: str(len(msg)) + "|" + msg, padded with spaces to a multiple of 64. */
  function Frame(msg: seq<byte>): seq<byte> {
    var f := Digits(|msg|) + [BAR] + msg;
    f + Padding(|f|)
  }

  /** What decryptReceivedMessage makes of a decrypted text: the length before the first "|", and that many bytes after it. */
  function Unframe(plain: seq<byte>): Result<seq<byte>, Raised> {
    var pieces := SplitOnce(plain, BAR);
    match LongOf(pieces[0])
    case None => Err(ValueError)
    case Some(length) => if |pieces| < 2 then Err(IndexError) else Ok(Prefix(pieces[1], length))
  }

  /** A frame is a whole number of 64-byte blocks, at most 63 bytes of padding beyond the length, the bar and the message. */
  lemma FrameLength(msg: seq<byte>)
    ensures var n := |Digits(|msg|)| + 1 + |msg|;
      |Frame(msg)| % 64 == 0 && n <= |Frame(msg)| < n + 64
  {
    var f := Digits(|msg|) + [BAR] + msg;
    assert Frame(msg) == f + Padding(|f|);
    PaddedLength(|f|);
  }

  /** Padding k bytes brings them up to the next multiple of 64, adding fewer than 64. */
  lemma PaddedLength(k: nat)
    ensures var m := k + |Padding(k)|;
      m % 64 == 0 && k <= m < k + 64
  {
    if k % 64 != 0 {
      assert |Padding(k)| == 64 - k % 64;
    }
  }

  /** Unframing a frame gives the message back: the padding is cut off by the length. */
  lemma UnframeFrame(msg: seq<byte>)
    ensures Unframe(Frame(msg)) == Ok(msg)
  {
    var d := Digits(|msg|);
    var rest := msg + Padding(|d| + 1 + |msg|);
    assert Frame(msg) == d + [BAR] + rest;
    FindAfter(d, rest);
    LongOfDigits(|msg|);
    assert Prefix(rest, |msg|) == msg;
  }

  /** A text free of the bar, a bar, and a rest: split once at that bar. */
  lemma {:induction false} FindAfter(d: seq<byte>, rest: seq<byte>)
    requires Free(d, BAR)
    ensures Find(d + [BAR] + rest, BAR) == Some(|d|)
    ensures SplitOnce(d + [BAR] + rest, BAR) == [d, rest]
    decreases |d|
  {
    var f := d + [BAR] + rest;
    if d != [] {
      assert f[1..] == d[1..] + [BAR] + rest;
      FindAfter(d[1..], rest);
    }
    assert f[..|d|] == d && f[|d| + 1..] == rest;
  }

  /* ---------------------------------------------------------------------
   * The session as a value
   * --------------------------------------------------------------------- */

  /** The session states, EC_SETUP_NEEDED to EC_READY and EC_ERROR. */
  datatype Status = SetupNeeded | Sent | ReceivedReplied | ReplyReceivedAccepted | Ready | Error
  {
    /** The module constant of the state. */
    function Code(): int {
      match this
      case SetupNeeded => 0
      case Sent => 1
      case ReceivedReplied => 2
      case ReplyReceivedAccepted => 3
      case Ready => 4
      case Error => -1
    }
  }

  /** The values of a Salsa20 object: key_state, state, lastchunk and ROUNDS. */
  datatype Cipher = Cipher(keyState: seq<nat>, state: seq<nat>, lastChunk: nat, rounds: int)

  /** The fields of an ECDHSession, with the Salsa20 object by its values and the messages handed to sendRoutine so far. */
  datatype Session = Session(
    status: Status,
    ec: Option<Curve>,
    g: Option<Point>,
    ag: Option<Point>,
    bg: Option<Point>,
    abg: Option<Point>,
    a: Option<int>,
    b: Option<int>,
    c: Option<int>,
    p: Option<int>,
    key: Option<seq<byte>>,
    cipher: Option<Cipher>,
    sent: seq<seq<byte>>)

  /** A session after __init__: EC_SETUP_NEEDED, no parameters, no cipher, nothing sent. */
  function Fresh(): Session {
    Session(SetupNeeded, None, None, None, None, None, None, None, None, None, None, None, [])
  }

  /** Salsa20(key[0:32], key[32:40], 20) on a 48-byte sha384 key. */
  function NewCipher(key: seq<byte>): (c: Cipher)
    requires |key| == 48
    ensures |c.keyState| == 16 && |c.state| == 16 && c.rounds == 20 && c.lastChunk == S.BLOCK_SIZE
    ensures c.keyState == S.KeyState(key[..32]) && c.state == S.InitialState(key[..32], key[32..40])
  {
    Cipher(S.KeyState(key[..32]), S.InitialState(key[..32], key[32..40]), S.BLOCK_SIZE, 20)
  }

  /** A cipher as the session makes it: 20 rounds over a 16-word key state and a 16-word state. */
  predicate CipherShape(c: Cipher) {
    |c.keyState| == 16 && |c.state| == 16 && c.rounds == 20
  }

  /** What Salsa20.encrypt (and decrypt, the same method) returns and leaves in the cipher. */
  function CipherCrypt(c: Cipher, data: seq<byte>): (r: (Result<seq<byte>, S.CipherError>, Cipher))
    requires |c.state| == 16 && c.rounds >= 0
    ensures r.1.keyState == c.keyState && r.1.rounds == c.rounds && |r.1.state| == 16
    ensures r.0.Ok? <==> c.lastChunk == S.BLOCK_SIZE && data != []
    ensures r.0.Ok? ==> |r.0.value| == |data|
    ensures r.0.Err? ==> r.1 == c
  {
    if c.lastChunk != S.BLOCK_SIZE then (Err(S.ShortChunkBefore), c)
    else if data == [] then (Err(S.EmptyInput), c)
    else (Ok(S.Crypt(c.state, c.rounds, data)),
          c.(state := S.Advance(c.state, S.Blocks(|data|)), lastChunk := S.LastChunk(|data|)))
  }

  /**
   * sendEncryptedMessage: nothing without a cipher; otherwise the encrypted
   * frame is sent, or encrypt raises. Only the cipher and the messages sent
   * change, and at most one message is added.
   */
  function SendEncrypted(s: Session, msg: seq<byte>): (r: (Session, Option<Raised>))
    requires s.cipher.Some? ==> CipherShape(s.cipher.value)
    ensures r.0.(cipher := s.cipher, sent := s.sent) == s
    ensures r.0.cipher.Some? <==> s.cipher.Some?
    ensures r.0.cipher.Some? ==> CipherShape(r.0.cipher.value)
    ensures r.1.None? ==> |r.0.sent| <= |s.sent| + 1 && s.sent <= r.0.sent
    ensures r.1.Some? ==> r.0.sent == s.sent
  {
    if s.cipher.None? then (s, None)
    else
      match CipherCrypt(s.cipher.value, Frame(msg))
      case (Err(e), c) => (s.(cipher := Some(c)), Some(CipherFailure(e)))
      case (Ok(ct), c) => (s.(cipher := Some(c), sent := s.sent + [ct]), None)
  }

  /** decryptReceivedMessage: None without a cipher; otherwise the unframed plaintext, or what decrypt, long() or the split raise. Only the cipher changes. */
  function DecryptReceived(s: Session, msg: seq<byte>): (r: (Session, Result<Option<seq<byte>>, Raised>))
    requires s.cipher.Some? ==> CipherShape(s.cipher.value)
    ensures r.0.(cipher := s.cipher) == s
    ensures r.0.cipher.Some? <==> s.cipher.Some?
    ensures r.0.cipher.Some? ==> CipherShape(r.0.cipher.value)
    ensures r.1 == Ok(None) <==> s.cipher.None?
  {
    if s.cipher.None? then (s, Ok(None))
    else
      var (d, c) := CipherCrypt(s.cipher.value, msg);
      var s1 := s.(cipher := Some(c));
      match d
      case Err(e) => (s1, Err(CipherFailure(e)))
      case Ok(plain) =>
        match Unframe(plain)
        case Err(e) => (s1, Err(e))
        case Ok(m) => (s1, Ok(Some(m)))
  }

  /** Ok(true) when nothing was raised. */
  function Completed(raised: Option<Raised>): Result<bool, Raised> {
    if raised.Some? then Err(raised.value) else Ok(true)
  }

  /** The fields each state relies on are set, and a cipher is one of 20 rounds over a 16-word state. */
  ghost predicate SessionValid(ops: Ops, s: Session) {
    && DigestSizes(ops)
    && (s.cipher.Some? ==> CipherShape(s.cipher.value))
    && (s.status == Sent ==> s.ec.Some? && s.g.Some? && s.a.Some? && s.ag.Some?)
    && (s.status == ReceivedReplied ==> s.ec.Some? && s.ag.Some? && s.bg.Some? && s.abg.Some?)
    && (s.status == ReplyReceivedAccepted ==> s.ec.Some? && s.ag.Some? && s.bg.Some? && s.cipher.Some?)
    && (s.status == Ready ==> s.cipher.Some?)
  }

  /** The state a successful message leads to. */
  function Next(st: Status): Status {
    match st
    case SetupNeeded => ReceivedReplied
    case Sent => ReplyReceivedAccepted
    case ReceivedReplied => Ready
    case ReplyReceivedAccepted => Ready
    case Ready => Ready
    case Error => Error
  }

  /**
   * What one message does to the state: the session stays valid, the answer
   * is False exactly when the session is now in EC_ERROR, True one step on,
   * an exception leaves it as it was or one step on, and at most one message
   * is sent.
   */
  ghost predicate StepKeeps(ops: Ops, s: Session, s1: Session, r: Result<bool, Raised>) {
    && SessionValid(ops, s1)
    && (r == Ok(false) <==> s1.status == Error)
    && (r == Ok(true) ==> s1.status == Next(s.status))
    && (r.Err? ==> s1.status == s.status || s1.status == Next(s.status))
    && s.sent <= s1.sent && |s1.sent| <= |s.sent| + 1
  }

  /** initECDH: only in EC_SETUP_NEEDED; ecdh_init(2), the setup vector sent, EC_SENT. False when the draws run out. */
  function Init(ops: Ops, s: Session, primes: seq<Attempt>, curves: seq<CurveAttempt>, scalar: Entropy): (r: (Session, bool))
    requires SessionValid(ops, s)
    ensures SessionValid(ops, r.0)
    ensures !r.1 <==> s.status == SetupNeeded && EcdhInitOutcome(ops, 2, primes, curves, scalar).None?
    ensures if s.status == SetupNeeded && r.1 then r.0.status == Sent && |r.0.sent| == |s.sent| + 1 && s.sent <= r.0.sent
            else r.0 == s
  {
    if s.status != SetupNeeded then (s, true)
    else
      match EcdhInitOutcome(ops, 2, primes, curves, scalar)
      case None => (s, false)
      case Some(Setup(ec, g, a, ag)) =>
        var msg := TupleStr([ec.a, ec.b, ec.c, ec.p, g.x, g.y, ag.x, ag.y], ops.isLong);
        (s.(ec := Some(ec), g := Some(g), a := Some(a), ag := Some(ag), sent := s.sent + [msg], status := Sent), true)
  }

  /** The session ReceiveSetup leaves when the eight integers parse. */
  function SetupReplied(ops: Ops, s: Session, ps: seq<int>, e: Entropy): Session
    requires |ps| == 8
  {
    var ec := Curve(ps[0], ps[1], ps[2], ps[3]);
    var reply := EcdhReply(ops, ps[3], Point(ec, ps[4], ps[5]), Point(ec, ps[6], ps[7]), e);
    s.(a := Some(ps[0]), b := Some(reply.b), c := Some(ps[2]), p := Some(ps[3]),
       ec := Some(ec), g := Some(Point(ec, ps[4], ps[5])), ag := Some(Point(ec, ps[6], ps[7])),
       bg := Some(reply.bg), abg := Some(reply.abg),
       sent := s.sent + [TupleStr([reply.bg.x, reply.bg.y], ops.isLong)], status := ReceivedReplied)
  }

  /** messageReceived in EC_SETUP_NEEDED: eight integers (a, b, c, p, g, a*g) in, (b*g) out, EC_RECEIVED_REPLIED. */
  function ReceiveSetup(ops: Ops, s: Session, msg: seq<byte>, e: Entropy): (r: (Session, Result<bool, Raised>))
    requires SessionValid(ops, s) && s.status == SetupNeeded
    ensures StepKeeps(ops, s, r.0, r.1)
    ensures r.1 == Ok(true) <==> exists ps :: StringToListOfLongs(msg) == Some(ps) && |ps| == 8
    ensures r.1 != Ok(true) ==> r == (s.(status := Error), Ok(false))
    ensures r.1 == Ok(true) ==>
      && r.0.g.Some? && r.0.ag.Some? && r.0.b.Some? && r.0.bg.Some? && r.0.abg.Some?
      && r.0.bg.value == ops.mul(r.0.b.value, r.0.g.value) && r.0.abg.value == ops.mul(r.0.b.value, r.0.ag.value)
      && r.0.sent == s.sent + [TupleStr([r.0.bg.value.x, r.0.bg.value.y], ops.isLong)]
  {
    match StringToListOfLongs(msg)
    case None => (s.(status := Error), Ok(false))
    case Some(params) =>
      if |params| != 8 then (s.(status := Error), Ok(false))
      else (SetupReplied(ops, s, params, e), Ok(true))
  }

  /** messageReceived in EC_SENT: two integers (b*g) in, the key, EC_REPLY_RECEIVED_ACCEPTED, the encrypted md5 of str(ec) out. */
  function ReceiveReply(ops: Ops, s: Session, msg: seq<byte>): (r: (Session, Result<bool, Raised>))
    requires SessionValid(ops, s) && s.status == Sent
    ensures StepKeeps(ops, s, r.0, r.1)
    ensures r.1 == Ok(false) <==> !exists ps :: StringToListOfLongs(msg) == Some(ps) && |ps| == 2
  {
    match StringToListOfLongs(msg)
    case None => (s.(status := Error), Ok(false))
    case Some(params) =>
      if |params| != 2 then (s.(status := Error), Ok(false))
      else
        var ec := s.ec.value;
        var bg := Point(ec, params[0], params[1]);
        var (abg, key) := EcdhAccept(ops, s.a.value, bg);
        var s1 := s.(bg := Some(bg), abg := Some(abg), key := Some(key), status := ReplyReceivedAccepted,
                     cipher := Some(NewCipher(key)));
        var (s2, raised) := SendEncrypted(s1, ops.md5(ops.curveStr(ec)));
        (s2, Completed(raised))
  }

  /** messageReceived in EC_RECEIVED_REPLIED: the key, then the md5 of str(ec) must decrypt; EC_READY and the md5 of str(a*g) + str(b*g) out. */
  function ReceiveCheck(ops: Ops, s: Session, msg: seq<byte>): (r: (Session, Result<bool, Raised>))
    requires SessionValid(ops, s) && s.status == ReceivedReplied
    ensures StepKeeps(ops, s, r.0, r.1)
    ensures r.0.key == Some(DeriveKey(ops, s.abg.value))
    ensures var key := DeriveKey(ops, s.abg.value);
      var d := DecryptReceived(s.(key := Some(key), cipher := Some(NewCipher(key))), msg).1;
      var hsh := ops.md5(ops.curveStr(s.ec.value));
      && (r.1 == Ok(false) <==> d.Ok? && d.value != Some(hsh))
      && (d.Err? ==> r.1 == Err(d.error) && r.0.status == s.status && r.0.sent == s.sent)
      && (d == Ok(Some(hsh)) ==> r.0.status == Ready && (r.1 == Ok(true) <==> |r.0.sent| == |s.sent| + 1))
  {
    var key := DeriveKey(ops, s.abg.value);
    CheckCurveHash(ops, s.(key := Some(key), cipher := Some(NewCipher(key))), msg)
  }

  /** The second half of ReceiveCheck, once the cipher is set up: the md5 of str(ec) must decrypt. */
  function CheckCurveHash(ops: Ops, s: Session, msg: seq<byte>): (r: (Session, Result<bool, Raised>))
    requires SessionValid(ops, s) && s.status == ReceivedReplied && s.cipher.Some?
    ensures StepKeeps(ops, s, r.0, r.1)
    ensures r.0.key == s.key
    ensures var (s1, d) := DecryptReceived(s, msg);
      var hsh := ops.md5(ops.curveStr(s.ec.value));
      && (r.1 == Ok(false) <==> d.Ok? && d.value != Some(hsh))
      && (d.Ok? && d.value != Some(hsh) ==> r.0 == s1.(status := Error))
      && (d.Err? ==> r == (s1, Err(d.error)))
      && (d == Ok(Some(hsh)) ==> r.0.status == Ready && (r.1 == Ok(true) <==> |r.0.sent| == |s.sent| + 1))
  {
    var (s1, d) := DecryptReceived(s, msg);
    if d.Err? then (s1, Err(d.error))
    else if d.value != Some(ops.md5(ops.curveStr(s.ec.value))) then (s1.(status := Error), Ok(false))
    else
      var (s2, raised) := SendEncrypted(s1.(status := Ready), ops.md5(ops.pointStr(s.ag.value) + ops.pointStr(s.bg.value)));
      (s2, Completed(raised))
  }

  /** messageReceived in EC_REPLY_RECEIVED_ACCEPTED: the md5 of str(a*g) + str(b*g) must decrypt; EC_READY. Nothing is sent. */
  function ReceiveConfirm(ops: Ops, s: Session, msg: seq<byte>): (r: (Session, Result<bool, Raised>))
    requires SessionValid(ops, s) && s.status == ReplyReceivedAccepted
    ensures StepKeeps(ops, s, r.0, r.1)
    ensures r.0.sent == s.sent
    ensures r.1 == Ok(true) <==> DecryptReceived(s, msg).1 == Ok(Some(ops.md5(ops.pointStr(s.ag.value) + ops.pointStr(s.bg.value))))
  {
    var hsh := ops.md5(ops.pointStr(s.ag.value) + ops.pointStr(s.bg.value));
    var (s1, d) := DecryptReceived(s, msg);
    if d.Err? then (s1, Err(d.error))
    else if d.value != Some(hsh) then (s1.(status := Error), Ok(false))
    else (s1.(status := Ready), Ok(true))
  }

  /** messageReceived in EC_READY: the message is decrypted (and logged); the session stays ready. */
  function ReceiveData(ops: Ops, s: Session, msg: seq<byte>): (r: (Session, Result<bool, Raised>))
    requires SessionValid(ops, s) && s.status == Ready
    ensures StepKeeps(ops, s, r.0, r.1)
    ensures r.0.status == Ready && r.0.sent == s.sent
    ensures r.1 == Ok(true) <==> DecryptReceived(s, msg).1.Ok?
  {
    var (s1, d) := DecryptReceived(s, msg);
    if d.Err? then (s1, Err(d.error)) else (s1, Ok(true))
  }

  /** messageReceived: the step for the current state; in EC_ERROR, False and nothing changes. */
  function Receive(ops: Ops, s: Session, msg: seq<byte>, e: Entropy): (Session, Result<bool, Raised>)
    requires SessionValid(ops, s)
  {
    match s.status
    case SetupNeeded => ReceiveSetup(ops, s, msg, e)
    case Sent => ReceiveReply(ops, s, msg)
    case ReceivedReplied => ReceiveCheck(ops, s, msg)
    case ReplyReceivedAccepted => ReceiveConfirm(ops, s, msg)
    case Ready => ReceiveData(ops, s, msg)
    case Error => (s, Ok(false))
  }

  /**
   * messageReceived keeps the session valid, and its answer tells the new
   * state: False exactly when the session is (now) in EC_ERROR, True after
   * the step the protocol expects, and an exception leaves the state as it was
   * or one step on. EC_ERROR is never left.
   */
  lemma ReceiveStatus(ops: Ops, s: Session, msg: seq<byte>, e: Entropy)
    requires SessionValid(ops, s)
    ensures var (s1, r) := Receive(ops, s, msg, e); StepKeeps(ops, s, s1, r)
    ensures s.status == Error ==> Receive(ops, s, msg, e) == (s, Ok(false))
  {
  }

  /**
   * One encrypted frame between two ciphers in the same state: the receiver
   * decrypts exactly the frame, both end in the same state, and the next
   * message can be encrypted (the frame fills whole 64-byte blocks).
   */
  lemma CryptFrame(c: Cipher, msg: seq<byte>)
    requires CipherShape(c) && c.lastChunk == S.BLOCK_SIZE
    ensures var (ct, c1) := CipherCrypt(c, Frame(msg));
      && ct.Ok? && c1.lastChunk == S.BLOCK_SIZE
      && CipherCrypt(c, ct.value) == (Ok(Frame(msg)), c1)
  {
    FrameLength(msg);
    var f := Frame(msg);
    S.CryptInvolution(c.state, c.rounds, f);
    S.LastChunkFull(|f|);
  }

  /**
   * A message sent by one session and received by another whose cipher is
   * in the same state decrypts to itself, and leaves both ciphers in the same
   * state again, ready for the next message.
   */
  lemma DataRoundTrip(sender: Session, receiver: Session, msg: seq<byte>)
    requires sender.cipher.Some? && receiver.cipher == sender.cipher
    requires CipherShape(sender.cipher.value) && sender.cipher.value.lastChunk == S.BLOCK_SIZE
    ensures var (s1, raised) := SendEncrypted(sender, msg);
      && raised.None? && |s1.sent| == |sender.sent| + 1
      && var (r1, d) := DecryptReceived(receiver, s1.sent[|sender.sent|]);
      && d == Ok(Some(msg)) && r1.cipher == s1.cipher && s1.cipher.value.lastChunk == S.BLOCK_SIZE
  {
    CryptFrame(sender.cipher.value, msg);
    UnframeFrame(msg);
  }

  /** A fresh server accepts any setup vector of eight integers as str() prints it, and answers with b*g. */
  lemma AcceptSetup(ops: Ops, s: Session, xs: seq<nat>, e: Entropy)
    requires SessionValid(ops, s) && s.status == SetupNeeded && |xs| == 8
    ensures ReceiveSetup(ops, s, TupleStr(xs, ops.isLong), e) == (SetupReplied(ops, s, xs, e), Ok(true))
  {
    ParseTupleStr(xs, ops.isLong);
  }

  /** A client in EC_SENT accepts any point (x, y) as str() prints it: the shared point a*(x, y), its key, and the encrypted md5 of str(ec). */
  lemma AcceptReply(ops: Ops, s: Session, x: nat, y: nat)
    requires SessionValid(ops, s) && s.status == Sent
    ensures var bg := Point(s.ec.value, x, y);
      var key := DeriveKey(ops, ops.mul(s.a.value, bg));
      var (ct, k) := CipherCrypt(NewCipher(key), Frame(ops.md5(ops.curveStr(s.ec.value))));
      && ct.Ok? && k.lastChunk == S.BLOCK_SIZE
      && ReceiveReply(ops, s, TupleStr([x, y], ops.isLong))
         == (s.(bg := Some(bg), abg := Some(ops.mul(s.a.value, bg)), key := Some(key), cipher := Some(k),
                sent := s.sent + [ct.value], status := ReplyReceivedAccepted), Ok(true))
  {
    ParseTupleStr([x, y], ops.isLong);
    var bg := Point(s.ec.value, x, y);
    var key := DeriveKey(ops, ops.mul(s.a.value, bg));
    CryptFrame(NewCipher(key), ops.md5(ops.curveStr(s.ec.value)));
  }

  /** A server in EC_RECEIVED_REPLIED accepts the md5 of str(ec) under its own key, and answers with the md5 of str(a*g) + str(b*g). */
  lemma AcceptCurveHash(ops: Ops, s: Session)
    requires SessionValid(ops, s) && s.status == ReceivedReplied
    ensures var key := DeriveKey(ops, s.abg.value);
      var (ct1, k1) := CipherCrypt(NewCipher(key), Frame(ops.md5(ops.curveStr(s.ec.value))));
      var (ct2, k2) := CipherCrypt(k1, Frame(ops.md5(ops.pointStr(s.ag.value) + ops.pointStr(s.bg.value))));
      && ct1.Ok? && ct2.Ok? && k2.lastChunk == S.BLOCK_SIZE
      && ReceiveCheck(ops, s, ct1.value)
         == (s.(key := Some(key), cipher := Some(k2), sent := s.sent + [ct2.value], status := Ready), Ok(true))
  {
    var key := DeriveKey(ops, s.abg.value);
    var h1 := ops.md5(ops.curveStr(s.ec.value));
    var h2 := ops.md5(ops.pointStr(s.ag.value) + ops.pointStr(s.bg.value));
    CryptFrame(NewCipher(key), h1);
    UnframeFrame(h1);
    var k1 := CipherCrypt(NewCipher(key), Frame(h1)).1;
    CryptFrame(k1, h2);
  }

  /** A client in EC_REPLY_RECEIVED_ACCEPTED accepts the md5 of str(a*g) + str(b*g) under its cipher. */
  lemma AcceptPointHash(ops: Ops, s: Session)
    requires SessionValid(ops, s) && s.status == ReplyReceivedAccepted && s.cipher.value.lastChunk == S.BLOCK_SIZE
    ensures var (ct, k) := CipherCrypt(s.cipher.value, Frame(ops.md5(ops.pointStr(s.ag.value) + ops.pointStr(s.bg.value))));
      && ct.Ok? && k.lastChunk == S.BLOCK_SIZE
      && ReceiveConfirm(ops, s, ct.value) == (s.(cipher := Some(k), status := Ready), Ok(true))
  {
    var h := ops.md5(ops.pointStr(s.ag.value) + ops.pointStr(s.bg.value));
    CryptFrame(s.cipher.value, h);
    UnframeFrame(h);
  }

  /**
   * c is a fresh session after initECDH with the setup st: st's curve,
   * generator, secret and a*g stored, its vector sent, EC_SENT; st's points
   * are on its curve and every number sent is nonnegative.
   */
  ghost predicate SetupSent(ops: Ops, c: Session, st: Setup) {
    && st.ag == ops.mul(st.a, st.g) && st.g.curve == st.ec && st.ag.curve == st.ec
    && 0 <= st.ec.a && 0 <= st.ec.b && 0 <= st.ec.c && 0 <= st.ec.p
    && 0 <= st.g.x && 0 <= st.g.y && 0 <= st.ag.x && 0 <= st.ag.y
    && c == Fresh().(ec := Some(st.ec), g := Some(st.g), a := Some(st.a), ag := Some(st.ag),
                     sent := [TupleStr([st.ec.a, st.ec.b, st.ec.c, st.ec.p, st.g.x, st.g.y, st.ag.x, st.ag.y], ops.isLong)],
                     status := Sent)
  }

  /** What initECDH leaves in a fresh session: the outcome of ecdh_init(2), its vector sent, EC_SENT. */
  lemma InitSends(ops: Ops, primes: seq<Attempt>, curves: seq<CurveAttempt>, scalar: Entropy)
    requires DigestSizes(ops) && Coherent(ops)
    requires EcdhInitOutcome(ops, 2, primes, curves, scalar).Some?
    requires Affine(EcdhInitOutcome(ops, 2, primes, curves, scalar).value.ag)
    ensures var (c, ok) := Init(ops, Fresh(), primes, curves, scalar);
      ok && SetupSent(ops, c, EcdhInitOutcome(ops, 2, primes, curves, scalar).value)
  {
    var Setup(ec, g, a, ag) := EcdhInitOutcome(ops, 2, primes, curves, scalar).value;
    EcdhInitSound(ops, 2, primes, curves, scalar);
    var i :| 0 <= i < |curves| && ops.pickGenerator(ec, curves[i].pick) == Some(g);
    var msg := TupleStr([ec.a, ec.b, ec.c, ec.p, g.x, g.y, ag.x, ag.y], ops.isLong);
    assert Fresh().sent + [msg] == [msg];
  }

  /** The peer in state s is handed the last message the other side sent; s1 and r are what its messageReceived gives. */
  ghost predicate Delivered(ops: Ops, from: Session, s: Session, e: Entropy, s1: Session, r: Result<bool, Raised>) {
    && |from.sent| > 0 && SessionValid(ops, s)
    && (s1, r) == Receive(ops, s, from.sent[|from.sent| - 1], e)
  }

  /**
   * The client c has accepted the server's reply and the server s has not yet
   * derived its key: both hold the same curve and points, and the client's
   * last message is the md5 of str(ec) encrypted under the key the server
   * will derive from its shared point.
   */
  ghost predicate KeyAgreed(ops: Ops, c: Session, s: Session) {
    && SessionValid(ops, c) && SessionValid(ops, s)
    && c.status == ReplyReceivedAccepted && s.status == ReceivedReplied
    && c.ec == s.ec && c.ag == s.ag && c.bg == s.bg && |c.sent| > 0
    && var key := DeriveKey(ops, s.abg.value);
       var (ct, k) := CipherCrypt(NewCipher(key), Frame(ops.md5(ops.curveStr(s.ec.value))));
       ct.Ok? && c.key == Some(key) && c.cipher == Some(k) && c.sent[|c.sent| - 1] == ct.value
  }

  /**
   * The client c has sent its setup vector and the server s has answered it:
   * both hold the same curve, generator and a*g, and the server's last
   * message is its b*g, a point on that curve, as str() prints it.
   */
  ghost predicate SetupAgreed(ops: Ops, c: Session, s: Session) {
    && SessionValid(ops, c) && SessionValid(ops, s)
    && c.status == Sent && s.status == ReceivedReplied
    && c.ec == s.ec && c.g == s.g && c.ag == s.ag && c.g.Some? && s.b.Some?
    && c.ag.value == ops.mul(c.a.value, c.g.value)
    && s.bg.value == ops.mul(s.b.value, s.g.value) && s.abg.value == ops.mul(s.b.value, s.ag.value)
    && s.bg.value.curve == s.ec.value && Affine(s.bg.value)
    && |s.sent| > 0 && s.sent[|s.sent| - 1] == TupleStr([s.bg.value.x, s.bg.value.y], ops.isLong)
  }

  /**
   * The server s has checked the client's md5 of str(ec) and answered: the
   * client c has the server's key, and the server's last message is the md5
   * of str(a*g) + str(b*g) encrypted with the client's cipher, which leaves
   * it in the server's state.
   */
  ghost predicate KeysConfirmed(ops: Ops, c: Session, s: Session) {
    && SessionValid(ops, c) && SessionValid(ops, s)
    && c.status == ReplyReceivedAccepted && s.status == Ready
    && c.key.Some? && c.key == s.key && c.cipher.value.lastChunk == S.BLOCK_SIZE && |s.sent| > 0
    && var (ct, k) := CipherCrypt(c.cipher.value, Frame(ops.md5(ops.pointStr(c.ag.value) + ops.pointStr(c.bg.value))));
       ct.Ok? && k.lastChunk == S.BLOCK_SIZE && s.cipher == Some(k) && s.sent[|s.sent| - 1] == ct.value
  }

  /** The first message: a fresh server accepts the setup vector initECDH sends and answers with b*g, when b*g has coordinates. */
  lemma ServerReplies(ops: Ops, st: Setup, e: Entropy, c1: Session, s1: Session, r1: Result<bool, Raised>)
    requires Coherent(ops) && SetupSent(ops, c1, st) && Affine(ops.mul(Scalar(st.ec.p, e), st.g))
    requires Delivered(ops, c1, Fresh(), e, s1, r1)
    ensures r1 == Ok(true) && SetupAgreed(ops, c1, s1)
  {
    var a: nat, b: nat, c: nat, p: nat := st.ec.a, st.ec.b, st.ec.c, st.ec.p;
    var gx: nat, gy: nat, agx: nat, agy: nat := st.g.x, st.g.y, st.ag.x, st.ag.y;
    var xs1 := [a, b, c, p, gx, gy, agx, agy];
    AcceptSetup(ops, Fresh(), xs1, e);
    assert (s1, r1) == (SetupReplied(ops, Fresh(), xs1, e), Ok(true));
    RepliedAgrees(ops, c1, st, e);
  }

  /** The state a fresh server reaches on the vector of a setup agrees with the client that sent it. */
  lemma RepliedAgrees(ops: Ops, c1: Session, st: Setup, e: Entropy)
    requires Coherent(ops) && DigestSizes(ops) && SetupSent(ops, c1, st) && Affine(ops.mul(Scalar(st.ec.p, e), st.g))
    ensures SetupAgreed(ops, c1, SetupReplied(ops, Fresh(), [st.ec.a, st.ec.b, st.ec.c, st.ec.p, st.g.x, st.g.y, st.ag.x, st.ag.y], e))
  {
    var ec, g, ag := st.ec, st.g, st.ag;
    assert Point(ec, g.x, g.y) == g && Point(ec, ag.x, ag.y) == ag;
    MulCoherent(ops, Scalar(ec.p, e), g);
  }

  /** The second message: the client accepts the server's b*g; its shared point is the server's, a*(b*g) == b*(a*g). */
  lemma ClientAccepts(ops: Ops, c1: Session, s1: Session, e: Entropy, c2: Session, r2: Result<bool, Raised>)
    requires Commutes(ops) && SetupAgreed(ops, c1, s1)
    requires Delivered(ops, s1, c1, e, c2, r2)
    ensures r2 == Ok(true) && KeyAgreed(ops, c2, s1)
  {
    var bg := s1.bg.value;
    AcceptReply(ops, c1, bg.x, bg.y);
    assert Point(s1.ec.value, bg.x, bg.y) == bg;
    MulCommutes(ops, c1.a.value, s1.b.value, s1.g.value);
  }

  /** The third message: the server accepts the md5 of str(ec) and answers with the md5 of str(a*g) + str(b*g). */
  lemma ServerConfirms(ops: Ops, c2: Session, s1: Session, e: Entropy, s2: Session, r3: Result<bool, Raised>)
    requires KeyAgreed(ops, c2, s1)
    requires Delivered(ops, c2, s1, e, s2, r3)
    ensures r3 == Ok(true) && KeysConfirmed(ops, c2, s2)
  {
    AcceptCurveHash(ops, s1);
  }

  /** The last message: the client accepts the md5 of str(a*g) + str(b*g), and both sides are ready with equal ciphers. */
  lemma ClientConfirms(ops: Ops, c2: Session, s2: Session, e: Entropy, c3: Session, r4: Result<bool, Raised>)
    requires KeysConfirmed(ops, c2, s2)
    requires Delivered(ops, s2, c2, e, c3, r4)
    ensures r4 == Ok(true) && c3.status == Ready && s2.status == Ready
    ensures c3.key.Some? && c3.key == s2.key
    ensures c3.cipher.Some? && c3.cipher == s2.cipher && c3.cipher.value.lastChunk == S.BLOCK_SIZE
  {
    AcceptPointHash(ops, c2);
  }

  /**
   * The key exchange between a client that calls initECDH and a fresh
   * server, each handed the other's last message: every step answers True,
   * both sessions end in EC_READY with the same key and their ciphers in the
   * same state, ready for data. It rests on a*(b*g) == b*(a*g), on ec.py
   * keeping multiples on their curve, and on the two public multiples a*g
   * and b*g having coordinates (neither is the point at infinity).
   */
  lemma Handshake(ops: Ops, primes: seq<Attempt>, curves: seq<CurveAttempt>, scalar: Entropy, e: Entropy,
                  c1: Session, s1: Session, c2: Session, s2: Session, c3: Session,
                  r1: Result<bool, Raised>, r2: Result<bool, Raised>, r3: Result<bool, Raised>, r4: Result<bool, Raised>)
    requires Commutes(ops) && DigestSizes(ops) && Coherent(ops)
    requires EcdhInitOutcome(ops, 2, primes, curves, scalar).Some?
    requires var st := EcdhInitOutcome(ops, 2, primes, curves, scalar).value;
      Affine(st.ag) && Affine(ops.mul(Scalar(st.ec.p, e), st.g))
    requires c1 == Init(ops, Fresh(), primes, curves, scalar).0
    requires Delivered(ops, c1, Fresh(), e, s1, r1)
    requires Delivered(ops, s1, c1, e, c2, r2)
    requires Delivered(ops, c2, s1, e, s2, r3)
    requires Delivered(ops, s2, c2, e, c3, r4)
    ensures r1 == Ok(true) && r2 == Ok(true) && r3 == Ok(true) && r4 == Ok(true)
    ensures c3.status == Ready && s2.status == Ready
    ensures c3.key.Some? && c3.key == s2.key
    ensures c3.cipher.Some? && c3.cipher == s2.cipher && c3.cipher.value.lastChunk == S.BLOCK_SIZE
  {
    InitSends(ops, primes, curves, scalar);
    ServerReplies(ops, EcdhInitOutcome(ops, 2, primes, curves, scalar).value, e, c1, s1, r1);
    ClientAccepts(ops, c1, s1, e, c2, r2);
    ServerConfirms(ops, c2, s1, e, s2, r3);
    ClientConfirms(ops, c2, s2, e, c3, r4);
  }

  /* ---------------------------------------------------------------------
   * The class
   * --------------------------------------------------------------------- */

  /**
   * ECDHSession: the fields of the source; sendRoutine is modelled by the
   * list of messages handed to it, and the operations of ec.py and hashlib by
   * ops. Every method is proved to do to Snap() what the functions above say.
   */
  class ECDHSession {
    const ops: Ops
    var status: Status
    var ec: Option<Curve>
    var g: Option<Point>
    var ag: Option<Point>
    var bg: Option<Point>
    var abg: Option<Point>
    var a: Option<int>
    var b: Option<int>
    var c: Option<int>
    var p: Option<int>
    var key: Option<seq<byte>>
    var s20: S.Salsa20?
    /** The messages given to sendRoutine, oldest first. */
    var sent: seq<seq<byte>>

    /** The session as a value. */
    ghost function Snap(): Session
      reads this, s20
    {
      Session(status, ec, g, ag, bg, abg, a, b, c, p, key,
        if s20 == null then None else Some(Cipher(s20.keyState, s20.state, s20.lastChunk, s20.rounds)),
        sent)
    }

    ghost predicate Valid()
      reads this, s20
    {
      SessionValid(ops, Snap()) && (s20 != null ==> s20.Valid())
    }

    /** __init__: EC_SETUP_NEEDED with nothing set; sha384 and md5 are taken to give their usual digest sizes. */
    constructor (ops: Ops)
      requires DigestSizes(ops)
      ensures Valid() && this.ops == ops && Snap() == Fresh()
    {
      this.ops := ops;
      status := SetupNeeded;
      ec, g, ag, bg, abg := None, None, None, None, None;
      a, b, c, p, key := None, None, None, None, None;
      s20 := null;
      sent := [];
    }

    /** initECDH: from EC_SETUP_NEEDED only, ecdh_init(2), the setup vector sent, EC_SENT; false when the draws run out. */
    method InitEcdh(primes: seq<Attempt>, curves: seq<CurveAttempt>, scalar: Entropy) returns (done: bool)
      requires Valid()
      modifies this
      ensures Valid()
      ensures (Snap(), done) == Init(ops, old(Snap()), primes, curves, scalar)
    {
      ghost var s0 := Snap();
      if status != SetupNeeded {
        return true;
      }
      var setup := EcdhInit(ops, 2, primes, curves, scalar);
      if setup.None? {
        return false;
      }
      var Setup(curve, gen, priv, pub) := setup.value;
      SetPoints(curve, gen, pub);
      a := Some(priv);
      Emit(TupleStr([curve.a, curve.b, curve.c, curve.p, gen.x, gen.y, pub.x, pub.y], ops.isLong), Sent);
      return true;
    }

    /** ec, g, a*g := the curve, the generator and the public point. */
    method SetPoints(curve: Curve, gen: Point, pub: Point)
      modifies this
      ensures s20 == old(s20)
      ensures Snap() == old(Snap()).(ec := Some(curve), g := Some(gen), ag := Some(pub))
    {
      ec, g, ag := Some(curve), Some(gen), Some(pub);
    }

    /** a, b, c, p := the first four integers of a setup vector. */
    method SetParameters(ps: seq<int>)
      requires |ps| >= 4
      modifies this
      ensures s20 == old(s20)
      ensures Snap() == old(Snap()).(a := Some(ps[0]), b := Some(ps[1]), c := Some(ps[2]), p := Some(ps[3]))
    {
      a, b, c, p := Some(ps[0]), Some(ps[1]), Some(ps[2]), Some(ps[3]);
    }

    /** b, b*g, b*a*g := the reply of ecdh_reply. */
    method SetReply(reply: Reply)
      modifies this
      ensures s20 == old(s20)
      ensures Snap() == old(Snap()).(b := Some(reply.b), bg := Some(reply.bg), abg := Some(reply.abg))
    {
      b, bg, abg := Some(reply.b), Some(reply.bg), Some(reply.abg);
    }

    /** b*g, a*b*g, key := the point received, the shared point and the key derived from it. */
    method SetAgreement(point: Point, shared: Point, k: seq<byte>)
      modifies this
      ensures s20 == old(s20)
      ensures Snap() == old(Snap()).(bg := Some(point), abg := Some(shared), key := Some(k))
    {
      bg, abg, key := Some(point), Some(shared), Some(k);
    }

    /** s20 := Salsa20(key[0:32], key[32:40], 20). */
    method StartCipher(k: seq<byte>)
      requires |k| == 48
      modifies this
      ensures s20 != null && fresh(s20) && s20.Valid()
      ensures Snap() == old(Snap()).(cipher := Some(NewCipher(k)))
    {
      var created := S.Salsa20.Create(k[..32], k[32..40], 20);
      s20 := created.value;
    }

    /** sendRoutine(msg), then the new state. */
    method Emit(msg: seq<byte>, st: Status)
      modifies this
      ensures s20 == old(s20)
      ensures Snap() == old(Snap()).(sent := old(Snap()).sent + [msg], status := st)
    {
      sent := sent + [msg];
      status := st;
    }

    /** sendEncryptedMessage: str(len(msg)) + "|" + msg, padded to a multiple of 64, encrypted and sent. */
    method SendEncryptedMessage(msg: seq<byte>) returns (raised: Option<Raised>)
      requires Valid()
      modifies this, s20
      ensures Valid() && s20 == old(s20)
      ensures (Snap(), raised) == SendEncrypted(old(Snap()), msg)
    {
      if s20 == null {
        return None;
      }
      ghost var s0 := Snap();
      var framed := Digits(|msg|) + [BAR] + msg;
      if |framed| % 64 != 0 {
        framed := framed + Spaces(64 - |framed| % 64);
      }
      assert framed == Frame(msg);
      var r := s20.Encrypt(framed);
      ghost var crypt := CipherCrypt(s0.cipher.value, framed);
      assert r == crypt.0;
      assert Snap() == s0.(cipher := Some(crypt.1));
      if r.Err? {
        return Some(CipherFailure(r.error));
      }
      sent := sent + [r.value];
      return None;
    }

    /** decryptReceivedMessage: decrypt, split once at "|", long() of the length, that many bytes of the rest. */
    method DecryptReceivedMessage(msg: seq<byte>) returns (r: Result<Option<seq<byte>>, Raised>)
      requires Valid()
      modifies s20
      ensures Valid() && s20 == old(s20)
      ensures (Snap(), r) == DecryptReceived(old(Snap()), msg)
    {
      if s20 == null {
        return Ok(None);
      }
      var d := s20.Encrypt(msg);
      if d.Err? {
        return Err(CipherFailure(d.error));
      }
      var pieces := SplitOnce(d.value, BAR);
      var length := LongOf(pieces[0]);
      if length.None? {
        return Err(ValueError);
      }
      if |pieces| < 2 {
        return Err(IndexError);
      }
      return Ok(Some(Prefix(pieces[1], length.value)));
    }

    /** messageReceived: one step of the key exchange, or the decryption of a message once ready. */
    method MessageReceived(msg: seq<byte>, e: Entropy) returns (r: Result<bool, Raised>)
      requires Valid()
      modifies this, s20
      ensures Valid()
      ensures (Snap(), r) == Receive(ops, old(Snap()), msg, e)
    {
      if status == SetupNeeded {
        r := OnSetupNeeded(msg, e);
      } else if status == Sent {
        r := OnSent(msg);
      } else if status == ReceivedReplied {
        r := OnReceivedReplied(msg);
      } else if status == ReplyReceivedAccepted {
        r := OnReplyReceivedAccepted(msg);
      } else if status == Ready {
        r := OnReady(msg);
      } else {
        r := Ok(false);
      }
    }

    method OnSetupNeeded(msg: seq<byte>, e: Entropy) returns (r: Result<bool, Raised>)
      requires Valid() && status == SetupNeeded
      modifies this
      ensures Valid()
      ensures (Snap(), r) == ReceiveSetup(ops, old(Snap()), msg, e)
    {
      ghost var s0 := Snap();
      var params := StringToListOfLongs(msg);
      if params.None? || |params.value| != 8 {
        status := Error;
        assert Snap() == s0.(status := Error);
        return Ok(false);
      }
      var ps := params.value;
      SetParameters(ps);
      var curve := Curve(ps[0], ps[1], ps[2], ps[3]);
      SetPoints(curve, Point(curve, ps[4], ps[5]), Point(curve, ps[6], ps[7]));
      var reply := EcdhReply(ops, ps[3], g.value, ag.value, e);
      SetReply(reply);
      Emit(TupleStr([reply.bg.x, reply.bg.y], ops.isLong), ReceivedReplied);
      return Ok(true);
    }

    method OnSent(msg: seq<byte>) returns (r: Result<bool, Raised>)
      requires Valid() && status == Sent
      modifies this, s20
      ensures Valid()
      ensures (Snap(), r) == ReceiveReply(ops, old(Snap()), msg)
    {
      ghost var s0 := Snap();
      var params := StringToListOfLongs(msg);
      if params.None? || |params.value| != 2 {
        status := Error;
        assert Snap() == s0.(status := Error);
        return Ok(false);
      }
      var point := Point(ec.value, params.value[0], params.value[1]);
      var accepted := EcdhAccept(ops, a.value, point);
      SetAgreement(point, accepted.0, accepted.1);
      status := ReplyReceivedAccepted;
      StartCipher(accepted.1);
      var raised := SendEncryptedMessage(ops.md5(ops.curveStr(ec.value)));
      return Completed(raised);
    }

    method OnReceivedReplied(msg: seq<byte>) returns (r: Result<bool, Raised>)
      requires Valid() && status == ReceivedReplied
      modifies this, s20
      ensures Valid()
      ensures (Snap(), r) == ReceiveCheck(ops, old(Snap()), msg)
    {
      ghost var s0 := Snap();
      var k := DeriveKey(ops, abg.value);
      key := Some(k);
      StartCipher(k);
      r := AcknowledgeCurve(msg);
    }

    /** The rest of messageReceived in EC_RECEIVED_REPLIED: the md5 of str(ec) must decrypt; then EC_READY and the reply. */
    method AcknowledgeCurve(msg: seq<byte>) returns (r: Result<bool, Raised>)
      requires Valid() && status == ReceivedReplied && s20 != null
      modifies this, s20
      ensures Valid()
      ensures (Snap(), r) == CheckCurveHash(ops, old(Snap()), msg)
    {
      ghost var s0 := Snap();
      var d := DecryptReceivedMessage(msg);
      if d.Err? {
        return Err(d.error);
      }
      ghost var s1 := Snap();
      assert s1.ec == s0.ec && s1.ag == s0.ag && s1.bg == s0.bg;
      var hsh := ops.md5(ops.curveStr(ec.value));
      if d.value != Some(hsh) {
        status := Error;
        return Ok(false);
      }
      status := Ready;
      assert Snap() == s1.(status := Ready);
      var raised := SendEncryptedMessage(ops.md5(ops.pointStr(ag.value) + ops.pointStr(bg.value)));
      return Completed(raised);
    }

    method OnReplyReceivedAccepted(msg: seq<byte>) returns (r: Result<bool, Raised>)
      requires Valid() && status == ReplyReceivedAccepted
      modifies s20, this
      ensures Valid()
      ensures (Snap(), r) == ReceiveConfirm(ops, old(Snap()), msg)
    {
      var hsh := ops.md5(ops.pointStr(ag.value) + ops.pointStr(bg.value));
      var d := DecryptReceivedMessage(msg);
      if d.Err? {
        return Err(d.error);
      }
      if d.value != Some(hsh) {
        status := Error;
        return Ok(false);
      }
      status := Ready;
      return Ok(true);
    }

    method OnReady(msg: seq<byte>) returns (r: Result<bool, Raised>)
      requires Valid() && status == Ready
      modifies s20
      ensures Valid()
      ensures (Snap(), r) == ReceiveData(ops, old(Snap()), msg)
    {
      var d := DecryptReceivedMessage(msg);
      if d.Err? {
        return Err(d.error);
      }
      return Ok(true);
    }
  }
}
