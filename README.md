# PyEC in Dafny

A model of the core of PyEC, a Python 2 chat program that agrees on a
key by elliptic-curve Diffie-Hellman and then encrypts its messages with
Salsa20. The model covers four pieces:

- **The Salsa20 stream cipher** (`modules/support/salsa20.py`; module
  `Salsa20`).
  - Key and IV setup: 16- or 32-byte keys, 8-byte IVs, 8, 12 or 20 rounds.
  - `_salsa20_scramble` as an in-place array algorithm, specified by a
    pure keystream function.
  - `encrypt`/`decrypt`, including the rule that only the last chunk may
    be shorter than 64 bytes.
  - The block counter in words 8 and 9.
- **The number theory and key agreement helpers** (`modules/cryptohelp.py`;
  module `CryptoHelp`).
  - `random_with_bytes`, `log2`, `random_in_range` and Miller-Rabin.
  - The retry loops of `millerrabin_pseudoprime_with_bytes` and `ecdh_init`.
  - `ecdh_reply`, `ecdh_accept` and the key derivation.
  - EC ElGamal key generation, encryption and decryption.
- **The ECDH session state machine** (`modules/ecdh.py`; module `Ecdh`).
  - The `ECDHSession` class and its statuses SETUP_NEEDED, SENT,
    RECEIVED_REPLIED, REPLY_RECEIVED_ACCEPTED, READY and ERROR.
  - Parsing of the integer vectors the peers exchange.
  - The length-prefixed, space-padded framing of encrypted messages.
  - The whole four-message handshake between an initiator and a
    responder.
- **The line framing of the TCP layer** (`modules/netcomm.py`; module
  `NetComm`).
  - `sendMessage` writes base64 plus a newline.
  - The reassembly loop of `_listen`/`handle` splits the received byte
    stream at newlines, decodes each line and hands it to
    `messageReceived`.
  - The server's single connection slot.

Shared definitions:

- `common.dfy` (module `Common`) holds bytes, `Option`, `Result` and
  powers of two.
- `bits.dfy` (module `Bits`) holds Python's `^`, `|` and `<<` on
  non-negative integers, with their algebra.

What the model does not contain, and how it stands in for it:

- **External operations.** The elliptic-curve arithmetic of `ec.py`, MD5,
  SHA-384, `str()`/`repr()` of curves and points, and base64 are not part
  of this model. They enter as fields of the parameter datatypes
  `CryptoHelp.Ops` and `NetComm.Codec`.
- **Their properties.** The properties the protocol relies on are
  predicates that the lemmas assume:
  - `Commutes`: a·(b·g) = b·(a·g);
  - `Coherent`: a generator lies on the curve it was picked for and has
    non-negative coordinates, and a multiple of a point lies on that
    point's curve. Whether a multiple is `Affine` (has coordinates, i.e.
    is not the point at infinity) is not assumed;
  - `DigestSizes`: SHA-384 gives 48 bytes;
  - `Base64Like`: decode inverts encode, and an encoding has no newline.
- **Randomness.** `os.urandom` is a parameter `Entropy = nat -> byte`.
  Loops that retry until a random draw succeeds walk a finite list of
  attempts and report `None` when the list runs out.

Where the source's docstrings and its code disagree, and the code is
not a mistake recorded under "## Findings", the model follows the code:

- **Default round count.** `salsa20.py:79` says 20 rounds are the default.
  The class constant is `ROUNDS = 12` (`salsa20.py:66`), so
  `Salsa20.DEFAULT_ROUNDS` is 12. The session itself always asks for 20
  (`ecdh.py:279`, `ecdh.py:308`).
- **`log2`.** The docstring of `log2` (`cryptohelp.py:240-241`) describes
  a count of binary digits. The code returns ⌊log₂ n⌋ for n ≥ 1 and −1
  for n ≤ 0. `CryptoHelp.FloorLog2` is the code's function.
- **Private scalar size.** `ecdh_init` passes `log2(p)//4` to
  `random_with_bytes` as a count of bytes, not bits, and the model keeps
  that count. With the corrected draw of Finding 1 the private scalar is
  below 2^(2·⌊log₂ p⌋) (`CryptoHelp.ScalarBound`). The draw as written,
  with n = ⌊log₂ p⌋//4 bytes, is below 2^(8n + 8·⌊n/8⌋), and equals the
  corrected one when n < 8 or n is a multiple of 8
  (`CryptoHelp.ScalarAsWritten`).

Where the code is a mistake (see "## Findings"), the model records the
code as written in its own members and builds everything else on the
corrected definition:

- **`random_with_bytes`** (Finding 1). `CryptoHelp.Candidate`,
  `CryptoHelp.CurveOf` and `CryptoHelp.Scalar` draw with the corrected
  `RandomValue`. So do the members built on them: `PseudoprimeWithBytes`,
  `FirstPseudoprime`, `DrawCurve`, `FirstCurve`, `EcdhInit`,
  `EcdhInitOutcome`, `EcdhInitSound`, `ScalarBound`, the ElGamal key
  generation and encryption and, through `ecdh_init(2)`, the session in `Ecdh`. The two
  agree whenever the byte count is below 8 or a multiple of 8
  (`CryptoHelp.RandomAsWrittenAgrees`). Every draw of `ecdh_init(bytes)`
  with 0 < bytes < 4, which includes the session's `ecdh_init(2)`, is
  the code's own (`CryptoHelp.SmallDrawsAsWritten`).
- **Salsa20 block counter** (Finding 2). `salsa20.py:187-189`
  increments word 8 with no mask, so its test for a wrap to zero never
  succeeds and nothing carries into word 9. `Salsa20.AdvanceAsWritten`
  is that step. `Salsa20.Advance`, which the cipher uses, carries into
  word 9.
- **The listener's stop** (Finding 3). `netcomm.py:140-144` leaves only
  the inner loop when `messageReceived` answers False. `NetComm.Scan`
  stops listening there instead, and `NetComm.ScanBuffer`,
  `NetComm.Listen`, `NetComm.Reassemble` and `NetComm.Server.Handle` are
  built on it. `NetComm.ScanAsWritten` is the code as written;
  `NetComm.ScanAgrees` and `NetComm.ReassembleAgrees` show that the two
  agree on every stream whose messages the handler accepts.

## Model

| member | source | states |
|---|---|---|
| Bits.XorXor | modules/support/salsa20.py:256-260 | XOR with the same operand twice gives back the original: the algebra behind `_xor` decrypting what it encrypted |
| Bits.XorCommutes | modules/support/salsa20.py:256-260 | Python's `^` on non-negative integers is commutative |
| Bits.XorBound | modules/support/salsa20.py:256-260 | the XOR of two n-bit numbers is an n-bit number, so `_xor` yields bytes |
| Bits.OrDisjoint | modules/cryptohelp.py:227-230 | OR-ing a value below 2^k with a multiple of 2^k is addition: the `r |= x << s` accumulation of `random_with_bytes` adds |
| Salsa20.Rol32 | modules/support/salsa20.py:201-202 | `_ROL32` yields a 32-bit word |
| Salsa20.RolRotates | modules/support/salsa20.py:201-202 | for a 32-bit word, `_ROL32(a, b)` is the left rotation: low 32−b bits moved up by b, high b bits brought down |
| Salsa20.RolInverse | modules/support/salsa20.py:201-202 | rotating by b and then by 32−b restores the word |
| Salsa20.WordOf | modules/support/salsa20.py:110-140 | four little-endian bytes make a 32-bit word |
| Salsa20.WordBytesRoundTrip | modules/support/salsa20.py:247-251 | splitting a 32-bit word into its four little-endian bytes and reassembling gives the word back |
| Salsa20.BytesWordRoundTrip | modules/support/salsa20.py:110-140 | assembling four bytes into a word and splitting it gives the four bytes back |
| Salsa20.Pack | modules/support/salsa20.py:247-251 | `struct.pack('<16I')`: four bytes per word |
| Salsa20.Unpack | modules/support/salsa20.py:110-140 | `struct.unpack('<4I')`: one word per four bytes |
| Salsa20.UnpackPack | modules/support/salsa20.py:247-251 | unpacking packed 32-bit words gives the words back |
| Salsa20.PackUnpack | modules/support/salsa20.py:110-140 | packing unpacked bytes gives the bytes back |
| Salsa20.PackAt | modules/support/salsa20.py:247-251 | byte 4j+i of the packed output is byte i of word j, little-endian |
| Salsa20.ApplyStep | modules/support/salsa20.py:212-244 | one `x[t] ^= ROL32(x[u] + x[v], r)` statement changes word t only |
| Salsa20.Run | modules/support/salsa20.py:211-244 | running the statements of the round loop keeps a 16-word state (their meaning is proved by RunAppend, UnrunRun, DoubleRoundsInjective) |
| Salsa20.DoubleRound | modules/support/salsa20.py:212-244 | one pass of the loop (columnround then rowround) keeps 16 words; DoubleRoundInPlace computes it |
| Salsa20.DoubleRounds | modules/support/salsa20.py:211 | `for i in xrange(ROUNDS, 0, -2)` passes keep 16 words; RoundsInPlace computes ⌈rounds/2⌉ of them |
| Salsa20.HashWords | modules/support/salsa20.py:210-246 | rounds plus the word-wise addition of the input keep 16 words; HashWordsSame shows only the words mod 2^32 matter |
| Salsa20.Block | modules/support/salsa20.py:204-252 | one scramble yields a 64-byte block |
| Salsa20.Advance | modules/support/salsa20.py:187-189 | the corrected counter step keeps 16 words; AdvanceCounter states its meaning |
| Salsa20.AdvanceAsWritten | modules/support/salsa20.py:187-189 | the counter step as written keeps 16 words; BlockRepeatsAsWritten shows its defect |
| Salsa20.KeyStream | modules/support/salsa20.py:185-195 | k scrambles yield 64·k keystream bytes |
| Salsa20.XorBytes | modules/support/salsa20.py:256-260 | `_xor` yields one byte per input byte |
| Salsa20.Crypt | modules/support/salsa20.py:174-196 | encryption output has the input's length |
| Salsa20.KeyState | modules/support/salsa20.py:98-141 | `_key_setup` fills a 16-word state |
| Salsa20.IvState | modules/support/salsa20.py:145-169 | `iv_setup` fills a 16-word state |
| Salsa20.InitialState | modules/support/salsa20.py:70-94 | key then IV setup fill a 16-word state; InitialStateLayout gives the layout |
| Salsa20.Salsa20.constructor | modules/support/salsa20.py:64-66 | an empty cipher: no key or state yet, full last chunk, the class default of 12 rounds |
| Salsa20.Salsa20.CreateWithDefaults | modules/support/salsa20.py:70 | `Salsa20(key)` with the defaults, an IV of eight zero bytes and the class's ROUNDS (12): a bad key length is reported, otherwise the cipher holds KeyState(key), InitialState(key, zero IV), 12 rounds and a full last chunk |
| Salsa20.Salsa20.Create | modules/support/salsa20.py:70-94 | `Salsa20(key, iv, rounds)`: a bad key length is reported first, then a bad IV length, then a round count outside 8/12/20; otherwise the cipher holds KeyState(key), InitialState(key, iv), the rounds and a full last chunk |
| Salsa20.Salsa20.KeySetup | modules/support/salsa20.py:98-141 | succeeds exactly for 16- or 32-byte keys, and then holds KeyState(key); on failure nothing changes; the counter state and rounds are untouched |
| Salsa20.Salsa20.IvSetup | modules/support/salsa20.py:145-169 | succeeds exactly for 8-byte IVs, and then holds IvState and a full last chunk; on failure nothing changes; key state and rounds are untouched |
| Salsa20.Salsa20.Encrypt | modules/support/salsa20.py:174-196 | after a short chunk it refuses and changes nothing; empty input is refused and changes nothing; otherwise it returns Crypt(old state, data), advances the counter by one per 64-byte block and records the length of the last chunk |
| Salsa20.Salsa20.Decrypt | modules/support/salsa20.py:197 | the same operation as Encrypt with the same contract |
| Salsa20.Salsa20.NextCounter | modules/support/salsa20.py:187-189 | the corrected counter step is Advance(s, 1) |
| Salsa20.Salsa20.Scramble | modules/support/salsa20.py:204-252 | the method over arrays yields the first 64 keystream bytes of the current state, changing nothing |
| Salsa20.Salsa20.XorStream | modules/support/salsa20.py:256-260 | the loop of `_xor` yields XorBytes(din, stream) |
| Salsa20.QuarterRoundInPlace | modules/support/salsa20.py:212-216 | four in-place statements on the array are Run of that quarterround on the old contents |
| Salsa20.RoundsInPlace | modules/support/salsa20.py:211-244 | the in-place round loop leaves DoubleRounds(old contents, ⌈rounds/2⌉) |
| Salsa20.AddInPlace | modules/support/salsa20.py:245-246 | the in-place addition leaves the word-wise sum mod 2^32 |
| Salsa20.DoubleRoundInPlace | modules/support/salsa20.py:212-244 | one in-place pass of the loop body leaves DoubleRound(old contents) |
| Salsa20.XorBytesAppend | modules/support/salsa20.py:256-260 | XOR distributes over concatenation of aligned data and stream |
| Salsa20.CryptStep | modules/support/salsa20.py:185-195 | the output after k blocks plus the next partial block is the data XOR the first k+1 blocks of keystream |
| Salsa20.KeyStreamSplit | modules/support/salsa20.py:185-195 | a+b blocks of keystream are a blocks followed by b blocks from the counter advanced by a |
| Salsa20.KeyStreamOne | modules/support/salsa20.py:204-252 | one keystream block is the scramble of the state |
| Salsa20.CryptLast | modules/support/salsa20.py:185-196 | the loop's last iteration completes Crypt, with ⌈n/64⌉ blocks and the last chunk's length |
| Salsa20.BlocksOfLength | modules/support/salsa20.py:185-194 | between 64k and 64(k+1) bytes use k+1 blocks and leave a last chunk of n−64k |
| Salsa20.AdvanceCounter | modules/support/salsa20.py:187-189 | advancing by k adds k to the 64-bit counter in words 8 and 9 mod 2^64 and leaves every other word alone |
| Salsa20.AdvanceAdd | modules/support/salsa20.py:187-189 | advancing by a then b is advancing by a+b |
| Salsa20.AdvanceZero | modules/support/salsa20.py:187-189 | advancing by zero changes nothing |
| Salsa20.AdvanceOne | modules/support/salsa20.py:187-189 | one step increments word 8 mod 2^32 and carries into word 9 exactly when word 8 wraps to zero |
| Salsa20.AdvanceDistinct | modules/support/salsa20.py:187-189 | with the corrected counter, distinct block numbers below 2^64 give distinct scramble inputs |
| Salsa20.HashWordsSame | modules/support/salsa20.py:210-246 | the scramble only sees its input words mod 2^32 |
| Salsa20.BlockRepeatsAsWritten | modules/support/salsa20.py:187-189 | with the counter step as written, block 2^32 has a different state but the same keystream as block 0 |
| Salsa20.DoubleRoundReversible | modules/support/salsa20.py:212-244 | no statement of the loop body reads the word it writes, so each can be undone |
| Salsa20.RunAppend | modules/support/salsa20.py:211-244 | running two lists of statements is running one after the other |
| Salsa20.UnrunRun | modules/support/salsa20.py:211-244 | undoing the statements in reverse recovers the input |
| Salsa20.RunUnrun | modules/support/salsa20.py:211-244 | running the statements after undoing them recovers the state |
| Salsa20.DoubleRoundsInjective | modules/support/salsa20.py:211-244 | the round loop is injective on states |
| Salsa20.XorByteTwice | modules/support/salsa20.py:256-260 | XOR with the same keystream byte twice gives the data byte back |
| Salsa20.CryptInvolution | modules/support/salsa20.py:197 | decrypting with the same starting state recovers the plaintext (`decrypt = encrypt`) |
| Salsa20.CryptChunks | modules/support/salsa20.py:174-196 | encrypting whole blocks then more data equals encrypting the concatenation |
| Salsa20.LastChunkFull | modules/support/salsa20.py:181-182 | the last chunk is between 1 and 64 bytes, and exactly 64 when the length is a multiple of 64, so further calls are allowed only then |
| Salsa20.KeyStateLow | modules/support/salsa20.py:110-140 | words 1-4 hold the first 16 key bytes |
| Salsa20.KeyStateHigh | modules/support/salsa20.py:110-140 | words 11-14 hold the last 16 key bytes, the same bytes again for a 16-byte key |
| Salsa20.KeyStateConstants | modules/support/salsa20.py:109-140 | words 0, 5, 10, 15 hold TAU for a 16-byte key and SIGMA for a 32-byte key, and words 6-9 are zero |
| Salsa20.IvStateLayout | modules/support/salsa20.py:160-168 | IV setup writes the IV into words 6-7, zeroes the counter words 8-9 and keeps every other word |
| Salsa20.InitialStateLayout | modules/support/salsa20.py:70-169 | the full layout of a fresh state: constants, key, IV, zero counter |
| CryptoHelp.Urandom | modules/cryptohelp.py:223-226 | `os.urandom(n)` gives n bytes, none for n ≤ 0, drawn from the entropy source |
| CryptoHelp.LeValueBound | modules/cryptohelp.py:210-231 | n little-endian bytes hold a value below 2^(8n) |
| CryptoHelp.LeValueAppend | modules/cryptohelp.py:210-231 | the little-endian value of a concatenation is the first part plus the second shifted by its length |
| CryptoHelp.StructUnpack | modules/cryptohelp.py:224-226 | `struct.unpack` of m 'L' words and l 'B' bytes yields m+l values |
| CryptoHelp.RandomValueBound | modules/cryptohelp.py:210-231 | the corrected `random_with_bytes(n)` is below 2^(8n), and 0 for n ≤ 0 |
| CryptoHelp.RandomWithBytes | modules/cryptohelp.py:210-231 | the corrected loop yields the little-endian value of the n drawn bytes |
| CryptoHelp.PackWords | modules/cryptohelp.py:227-228 | the word loop yields the value of the first m 8-byte words, or the first byte when there are none |
| CryptoHelp.RandomWithBytesAsWritten | modules/cryptohelp.py:210-231 | the code as written yields RandomValueAsWritten |
| CryptoHelp.RandomAsWrittenGap | modules/cryptohelp.py:229-230 | as written, with n ≥ 8, bits 64m to 64m+8m−1 of the result are always zero |
| CryptoHelp.RandomAsWrittenAgrees | modules/cryptohelp.py:210-231 | as written and corrected agree when n < 8 or n is a multiple of 8 |
| CryptoHelp.RandomAsWrittenDiffers | modules/cryptohelp.py:210-231 | as written and corrected agree if and only if n < 8 or the trailing bytes are all zero |
| CryptoHelp.RandomAsWrittenCounterexample | modules/cryptohelp.py:229-230 | for n = 9 and draw 0,0,0,0,0,0,0,0,1 the two differ |
| CryptoHelp.FloorLog2 | modules/cryptohelp.py:233-247 | the result is at least −1 |
| CryptoHelp.FloorLog2Bounds | modules/cryptohelp.py:233-247 | for n ≥ 1, 2^log2(n) ≤ n < 2^(log2(n)+1) |
| CryptoHelp.FloorLog2Unique | modules/cryptohelp.py:233-247 | the only r with 2^r ≤ n < 2^(r+1) is log2(n) |
| CryptoHelp.Log2 | modules/cryptohelp.py:233-247 | the shifting loop computes FloorLog2(n), −1 for n ≤ 0 |
| CryptoHelp.RandomInRange | modules/cryptohelp.py:249-271 | the result is a when a == b, else in [min(a,b), max(a,b)) |
| CryptoHelp.RandomInRangeCovers | modules/cryptohelp.py:249-271 | every value of that range is reachable |
| CryptoHelp.PowAdd | modules/cryptohelp.py:337-355 | b^(e+f) = b^e·b^f |
| CryptoHelp.ChainStaysOne | modules/cryptohelp.py:344-352 | once a^(d·2^j) ≡ 1 mod n, every later square is 1 |
| CryptoHelp.TwoAdicSplits | modules/cryptohelp.py:326-336 | m = d·2^s with d odd |
| CryptoHelp.MillerRabinDec | modules/cryptohelp.py:326-336 | the halving loop of `millerrabin_dec` yields s ≥ 1 and the odd part of n−1 |
| CryptoHelp.Base | modules/cryptohelp.py:338 | a round's base is in [2, n−2) |
| CryptoHelp.MillerRabinPassed | modules/cryptohelp.py:308-355 | a number that passes is at least 2 and is 2 or odd |
| CryptoHelp.MillerRabinRejects | modules/cryptohelp.py:337-355 | an odd n > 3 is rejected only when some round's base is a witness |
| CryptoHelp.PrimePasses | modules/cryptohelp.py:308-355 | every prime passes, whatever bases the rounds draw: `millerrabin` never rejects a prime |
| CryptoHelp.PrimeNoWitness | modules/cryptohelp.py:338-355 | no base 0 < a < n is a witness against a prime n (Fermat's little theorem and the square roots of 1 modulo a prime) |
| CryptoHelp.WitnessRound | modules/cryptohelp.py:338-355 | one round's loop reports composite exactly when its base is a witness |
| CryptoHelp.MillerRabin | modules/cryptohelp.py:308-355 | the method yields the outcome: true for 2 and 3, false for other even n, none for n ≤ 1, else whether no round finds a witness |
| CryptoHelp.FirstPseudoprimeIsFirst | modules/cryptohelp.py:290-306 | the retry loop returns the candidate of the first attempt that passes, and reports none only when no attempt passes |
| CryptoHelp.FirstPseudoprimePasses | modules/cryptohelp.py:290-306 | a returned pseudoprime is at least 2 |
| CryptoHelp.PseudoprimeWithBytes | modules/cryptohelp.py:290-306 | the method's loop yields FirstPseudoprime |
| CryptoHelp.MulCommutes | modules/cryptohelp.py:149-208 | scalar multiples commute, the property ECDH relies on |
| CryptoHelp.MulCoherent | modules/cryptohelp.py:144-145 | a multiple of a point lies on that point's curve |
| CryptoHelp.ScalarBound | modules/cryptohelp.py:140-145 | with the corrected draw, the private scalar is below 2^(2·⌊log₂ p⌋) |
| CryptoHelp.ScalarAsWritten | modules/cryptohelp.py:143 | as written, the scalar of n = ⌊log₂ p⌋//4 bytes is below 2^(8n + 8·⌊n/8⌋), 0 for n ≤ 0, and the corrected scalar when n < 8 or 8 divides n |
| CryptoHelp.DeriveKey | modules/cryptohelp.py:178-192 | the key is 48 bytes when SHA-384 gives 48 bytes |
| CryptoHelp.EcdhAgree | modules/cryptohelp.py:149-208 | the responder's `ecdh_reply` and the initiator's `ecdh_accept` reach the same shared point and the same key |
| CryptoHelp.FirstCurveFound | modules/cryptohelp.py:127-138 | the curve loop returns the first attempt with a nonzero discriminant and a generator, and none only when no attempt has both |
| CryptoHelp.FirstCurveStep | modules/cryptohelp.py:127-138 | one loop iteration: stop on success, else try the rest |
| CryptoHelp.DrawCurve | modules/cryptohelp.py:128-131 | the coefficients drawn for one attempt form CurveOf(attempt) |
| CryptoHelp.EcdhInitSound | modules/cryptohelp.py:106-147 | `ecdh_init`'s result: p is the first passing pseudoprime, coefficients below p, nonzero discriminant, a generator found on the curve, ag = a·g, a below 2^(2·⌊log₂ p⌋) |
| CryptoHelp.EcdhInit | modules/cryptohelp.py:106-147 | the method's loops yield EcdhInitOutcome |
| CryptoHelp.SmallDrawsAsWritten | modules/cryptohelp.py:124-143 | for 0 < bytes < 4 the candidate primes, the coefficients and the scalar drawn as written are the corrected draws |
| CryptoHelp.ElGamalGenerateKeypair | modules/cryptohelp.py:30-45 | a key pair exists exactly when `ecdh_init` succeeds, and its public and private keys match |
| CryptoHelp.DeriveSymmKey | modules/cryptohelp.py:47-63 | the symmetric key is 48 bytes when SHA-384 gives 48 bytes |
| CryptoHelp.ElGamalRoundTrip | modules/cryptohelp.py:65-104 | decrypting with the private key recovers what was encrypted with the matching public key |
| Ecdh.Digits | modules/ecdh.py:174 | `str(n)` of a natural is a non-empty string of decimal digits |
| Ecdh.DigitsValueOf | modules/ecdh.py:174 | the digits of `str(n)` denote n |
| Ecdh.RemoveSpaces | modules/ecdh.py:146 | `"".join(s.split())` leaves no whitespace |
| Ecdh.RemoveSpacesAppend | modules/ecdh.py:146 | removing whitespace distributes over concatenation |
| Ecdh.SplitJoin | modules/ecdh.py:149 | splitting pieces joined by a separator they do not contain gives the pieces back |
| Ecdh.ReprNumeral | modules/ecdh.py:147 | the repr of a natural, with or without the L suffix, matches `\d+(L|)`, denotes it and has no comma or space |
| Ecdh.ParseTupleStr | modules/ecdh.py:144-155 | `_stringToListOfLongs(str(t))` gives back a tuple of two or more naturals |
| Ecdh.ParseRejectsSingle | modules/ecdh.py:147-148 | the one-element tuple form `(x,)` does not match the pattern and yields None |
| Ecdh.LongOfDigits | modules/ecdh.py:208 | `long(str(n)) == n` |
| Ecdh.Find | modules/ecdh.py:207 | the first occurrence of the separator, or none when absent |
| Ecdh.FrameLength | modules/ecdh.py:174-176 | a framed message is a multiple of 64 bytes, with less than 64 bytes of padding after the length, the bar and the message |
| Ecdh.UnframeFrame | modules/ecdh.py:174-176 | the receiver's extraction of a framed message returns the message |
| Ecdh.NewCipher | modules/ecdh.py:279 | `Salsa20(key[0:32], key[32:40], 20)`: a 20-round cipher keyed with the first 32 bytes and bytes 32-39 as IV |
| Ecdh.CipherCrypt | modules/support/salsa20.py:174-196 | encryption succeeds exactly for non-empty data after a full last chunk, keeps the length and the key, and changes nothing on failure |
| Ecdh.SendEncrypted | modules/ecdh.py:157-185 | only the list of sent messages and the cipher change; without a cipher nothing is sent; at most one message is appended; a raised error sends nothing |
| Ecdh.DecryptReceived | modules/ecdh.py:187-211 | only the cipher changes; the result is None exactly when there is no cipher |
| Ecdh.Init | modules/ecdh.py:127-142 | in SETUP_NEEDED, one message is sent and the status becomes SENT, unless `ecdh_init` has no result; in any other status nothing changes |
| Ecdh.ReceiveSetup | modules/ecdh.py:225-249 | the step keeps the session valid; it answers True exactly when the message parses to 8 integers, and then holds b, b·g and the shared point b·(a·g) and has sent str(b·g); otherwise it is ERROR, answers False and sends nothing |
| Ecdh.ReceiveReply | modules/ecdh.py:251-289 | the step keeps the session valid; it answers False exactly when the message does not parse to 2 integers |
| Ecdh.ReceiveCheck | modules/ecdh.py:291-333 | the key is derived from the shared point before anything else, and kept whatever happens; False exactly when the decryption is not MD5(str(ec)); a decryption error leaves the status and the sent messages; a match gives READY, and True exactly when the point hash is sent |
| Ecdh.CheckCurveHash | modules/ecdh.py:310-333 | keeps the key; a decryption error is raised with only the cipher changed; a decryption other than MD5(str(ec)) gives ERROR and False, and False happens only then; a match gives READY, and True exactly when the point hash is sent |
| Ecdh.ReceiveConfirm | modules/ecdh.py:335-354 | sends nothing and answers True exactly when the decrypted message is MD5(str(ag)+str(bg)) |
| Ecdh.ReceiveData | modules/ecdh.py:356-363 | stays READY, sends nothing, answers True exactly when decryption raises nothing |
| Ecdh.ReceiveStatus | modules/ecdh.py:213-369 | `messageReceived` keeps the session valid and moves along the status graph; in ERROR it answers False and changes nothing |
| Ecdh.CryptFrame | modules/ecdh.py:174-178 | a framed message encrypts with a full last chunk, and the peer's cipher in the same state decrypts it back |
| Ecdh.DataRoundTrip | modules/ecdh.py:157-211 | with both peers' ciphers in the same state, what one sends the other decrypts to the original message, and the ciphers stay in step |
| Ecdh.AcceptSetup | modules/ecdh.py:225-249 | an 8-integer setup vector is accepted and answered |
| Ecdh.AcceptReply | modules/ecdh.py:251-289 | a 2-integer reply is accepted: shared point, key, a fresh 20-round cipher, the encrypted MD5 of the curve sent, REPLY_RECEIVED_ACCEPTED |
| Ecdh.AcceptCurveHash | modules/ecdh.py:291-333 | the encrypted curve hash under the derived key is accepted: key kept, the point hash sent, READY |
| Ecdh.AcceptPointHash | modules/ecdh.py:335-354 | the encrypted point hash is accepted: READY, nothing sent |
| Ecdh.InitSends | modules/ecdh.py:127-142 | `initECDH` on a fresh session sends the 8-integer vector of `ecdh_init(2)` and reaches SENT, when a·g has coordinates |
| Ecdh.ServerReplies | modules/ecdh.py:225-249 | a fresh responder accepts that vector and replies, when b·g has coordinates |
| Ecdh.ClientAccepts | modules/ecdh.py:251-289 | the initiator accepts the reply and both hold the same key |
| Ecdh.ServerConfirms | modules/ecdh.py:291-333 | the responder accepts the curve hash and confirms |
| Ecdh.ClientConfirms | modules/ecdh.py:335-354 | the initiator accepts the confirmation: both READY with equal keys and ciphers in the same state |
| Ecdh.Handshake | modules/ecdh.py:127-354 | when neither a·g nor b·g is the point at infinity, all four messages are accepted and both peers end READY with the same key and ciphers in the same state with a full last chunk |
| Ecdh.ECDHSession.constructor | modules/ecdh.py:73-85 | a fresh session in SETUP_NEEDED with no cipher |
| Ecdh.ECDHSession.InitEcdh | modules/ecdh.py:127-142 | the session's new state and result are Init of the old state |
| Ecdh.ECDHSession.SendEncryptedMessage | modules/ecdh.py:157-185 | the new state and the outcome are SendEncrypted of the old state |
| Ecdh.ECDHSession.DecryptReceivedMessage | modules/ecdh.py:187-211 | the new state and the result are DecryptReceived of the old state |
| Ecdh.ECDHSession.MessageReceived | modules/ecdh.py:213-369 | the new state and the answer are Receive of the old state |
| Ecdh.ECDHSession.OnSetupNeeded | modules/ecdh.py:225-249 | the SETUP_NEEDED branch is ReceiveSetup |
| Ecdh.ECDHSession.OnSent | modules/ecdh.py:251-289 | the SENT branch is ReceiveReply |
| Ecdh.ECDHSession.OnReceivedReplied | modules/ecdh.py:291-333 | the RECEIVED_REPLIED branch is ReceiveCheck |
| Ecdh.ECDHSession.AcknowledgeCurve | modules/ecdh.py:310-333 | the hash check and reply are CheckCurveHash |
| Ecdh.ECDHSession.OnReplyReceivedAccepted | modules/ecdh.py:335-354 | the REPLY_RECEIVED_ACCEPTED branch is ReceiveConfirm |
| Ecdh.ECDHSession.OnReady | modules/ecdh.py:356-363 | the READY branch is ReceiveData |
| NetComm.Encoded | modules/netcomm.py:77 | a base64 encoding decodes back and holds no newline |
| NetComm.Encodings | modules/netcomm.py:77 | one encoding per message, in order |
| NetComm.FrameDecodes | modules/netcomm.py:77 | a frame's first newline is its last byte, and the text before it decodes to the message |
| NetComm.FramesAppend | modules/netcomm.py:77-83 | sending one more message appends its frame to the byte stream |
| NetComm.Find | modules/netcomm.py:132 | `buffer.find("\n")`: −1 exactly when there is no newline, else the first newline |
| NetComm.FindFirst | modules/netcomm.py:132 | a newline with none before it is the one found |
| NetComm.FindAppend | modules/netcomm.py:132 | finding in a concatenation finds in the first part, else in the second shifted by the first's length |
| NetComm.Scan | modules/netcomm.py:133-153 | lines and deliveries only grow, with at most one delivery per line; once stopped it stays stopped; it stops only after delivering a message the handler refused |
| NetComm.Deliver | modules/netcomm.py:135-153 | one complete line joins the lines; a decodable one is delivered, and the scan stops only when the handler refuses it, else goes on with the rest of the buffer |
| NetComm.ScanBuffer | modules/netcomm.py:131-155 | the inner loop over one received buffer, with `data` appended at the end, yields Scan |
| NetComm.ScanLine | modules/netcomm.py:131-135 | when the first newline is at i, the scan hands `data + buffer[:i]` and `buffer[i+1:]` to the per-line step |
| NetComm.Listen | modules/netcomm.py:113-158 | the receive loop over the chunks yields Reassemble |
| NetComm.ReassembleStopped | modules/netcomm.py:118 | once the listener stops, later chunks change nothing |
| NetComm.ScanAppend | modules/netcomm.py:133-153 | scanning two buffers in turn equals scanning their concatenation |
| NetComm.ScanAppendTail | modules/netcomm.py:131-155 | a first buffer without a newline waits in `data` and is joined to the first line of the next buffer, as if both had arrived together |
| NetComm.DeliverAppend | modules/netcomm.py:133-153 | a later buffer continues the per-line step as if it had been part of the rest |
| NetComm.DeliverIgnoresData | modules/netcomm.py:149 | the per-line step resets `data`, so what it held before does not matter |
| NetComm.ReassembleConcat | modules/netcomm.py:118-153 | the split into chunks does not matter: reassembly is the scan of the concatenated stream |
| NetComm.SplitAtNewline | modules/netcomm.py:132-153 | for text without a newline, the find lands after the text and the slice leaves the rest |
| NetComm.DeliversAccepted | modules/netcomm.py:135-153 | a decodable line is delivered, data is reset and scanning continues with the rest |
| NetComm.ScanFirstFrame | modules/netcomm.py:133-153 | the first frame of a stream is delivered as its message |
| NetComm.ScanFrames | modules/netcomm.py:133-153 | scanning the frames of messages the handler accepts delivers exactly those messages, in order |
| NetComm.RoundTrip | modules/netcomm.py:77-83 | however the frames of sent messages arrive in chunks, the receiver delivers exactly the sent messages, in order, with nothing left over |
| NetComm.DropsMalformed | modules/netcomm.py:139-146 | a line b64decode rejects is dropped: data reset, nothing delivered |
| NetComm.KeepsTail | modules/netcomm.py:133-153 | bytes after the last newline wait in data |
| NetComm.ScanAsWritten | modules/netcomm.py:133-153 | as written, lines and deliveries only grow and the listener never stops |
| NetComm.ScanAgrees | modules/netcomm.py:133-153 | as written and corrected agree on every buffer the handler does not refuse |
| NetComm.ReassembleAgrees | modules/netcomm.py:113-158 | as written and corrected agree on every stream the handler does not refuse |
| NetComm.AsWrittenKeepsListening | modules/netcomm.py:140-144 | two frames and a handler that answers False: the corrected listener stops after the first, while the code as written keeps listening and joins the first line with the whole buffer into a second line |
| NetComm.Client.constructor | modules/netcomm.py:34-61 | a connected client with nothing sent |
| NetComm.Client.SendMessage | modules/netcomm.py:63-83 | the wire carries the frames of the sent messages; a message is added exactly when `sendall` does not fail, and the result reports it |
| NetComm.Server.constructor | modules/netcomm.py:257-273 | a server with no served connection and nothing sent |
| NetComm.Server.Handle | modules/netcomm.py:182-239 | a second connection is refused while one is served; otherwise the connection's chunks are reassembled and the slot is released afterwards |
| NetComm.Server.SendMessage | modules/netcomm.py:306-326 | with no served connection, or when `sendall` fails, nothing is sent; otherwise the frame goes to the served connection |

## Left out

- **Sockets, threads and timeouts.** `socket.recv` timeouts, the
  listening threads, `stopListening`, `__del__` and `finish` are not
  modelled. The received byte stream is a list of chunks given as a
  parameter. A `recv` error that ends the loop is the end of that list.
- NetComm.Listen: a `messageReceived` that raises inside `_listen` is
  not modelled. The `except` around the decode would catch it like a
  malformed line.
- NetComm.Server.Handle: a `messageReceived` that raises inside `handle`
  is not modelled, for the same reason as in `_listen`.
- **Replies during reception.** Replies sent from inside
  `messageReceived` while `_listen` or `handle` runs are not interleaved
  with the received stream.
- NetComm.Client.SendMessage: a partial `sendall` is not modelled. The
  call either sends the whole frame or fails.
- **`ec.py`, `hashlib` and string conversion.** `ec.py`, `hashlib`, and
  `str`/`repr` of curves and points are not part of this model. They are
  abstract operations.
  - `ops.isLong` stands in, per value, for Python 2's choice between
    `int` and `long`, which adds the `L` suffix.
  - The `Commutes`, `Coherent` and `DigestSizes` predicates, and
    `Base64Like` for the codec, are hypotheses about those operations.
- **Number formats.** Python 2's `long()` grammar is modelled for
  optional whitespace, an optional sign, optional whitespace after the
  sign, decimal digits, an optional `L` and trailing whitespace (so
  `long("- 5") == -5`, as `PyLong_FromString` allows). Other bases and
  Unicode digits are not modelled.
- CryptoHelp.StructUnpack: `struct`'s native `'L'` is taken as an 8-byte
  little-endian word, as on a 64-bit little-endian host; other native
  sizes and byte orders are not modelled.
- CryptoHelp.RandomInRange: the size of the draw is not modelled. The
  code draws `random_with_bytes(10*int(math.ceil(log2(b-a)/8.)))`, that
  is 10·⌈⌊log₂(b−a)⌋/8⌉ bytes by the module's integer `log2`
  (`CryptoHelp.FloorLog2`), through the `random_with_bytes` as written
  of Finding 1. For any width of 2 or more that is 10·k bytes with
  k ≥ 1, never below 8 and a multiple of 8 only when 4 divides k, so
  the 8·m-bit gap usually applies. The model takes the draw `delta` as an
  arbitrary natural reduced mod |b−a|, which covers the as-written draw
  too: `RandomInRange`, `Base` and `PrimePasses` hold for every
  `delta`.
- **Retry loops.** A retry loop that in Python may run forever walks a
  finite list of attempts (`Attempt`, `CurveAttempt`). When that list
  runs out it yields `None`.
- **Not in the core.** `fermat_pseudoprime_with_bytes` and the timing
  test are not part of the core. `psyco` only speeds things up.
- **Logging.** All logging is left out.
- **`status()`.** The `status()` accessor is read as the field.
- CryptoHelp.MulCoherent: the point at infinity is not modelled, as
  `ec.py` is not part of this model. `Coherent` only keeps a multiple on
  its point's curve. Whether `str()` of a multiple is a pair of numerals
  is the separate predicate `Affine`.
- Ecdh.Handshake: requires a·g and b·g to be `Affine`, so it says
  nothing about a run where a scalar is a multiple of the order of g.
  That happens for instance whenever p < 16, where `log2(p)//4` is 0 and
  the scalar is 0.
- Ecdh.InitSends: requires a·g to be `Affine`, for the same reason.
- Ecdh.ServerReplies: requires b·g to be `Affine`, for the same reason.
- CryptoHelp.PseudoprimeWithBytes: draws its candidates with the
  corrected `random_with_bytes` (Finding 1), which is the code's draw
  only for byte counts below 8 or multiples of 8.
- CryptoHelp.DrawCurve: draws the coefficients with the corrected
  `random_with_bytes(2*bytes)`, the code's draw only when 2·bytes is
  below 8 or a multiple of 8.
- CryptoHelp.EcdhInit: uses the corrected draw for the prime, the
  coefficients and the scalar; for 0 < bytes < 4, as in the session's
  `ecdh_init(2)`, these are the code's draws
  (`CryptoHelp.SmallDrawsAsWritten`).
- CryptoHelp.EcdhInitSound: states its bounds for the corrected draws,
  as `CryptoHelp.EcdhInit` does.
- CryptoHelp.ScalarBound: bounds the corrected scalar; the scalar as
  written is bounded by `CryptoHelp.ScalarAsWritten`.
- Ecdh.Handshake: the handshake proves that both peers' ciphers end in
  the same state with a full last chunk. It does not state how many
  blocks each consumed (one per 64-byte frame).
- **Test vectors.** The test vectors of `salsa20.py` (303-312, 344-346)
  are not reproduced. Nothing was executed.

## Findings

Findings 1, 2 and 3 are the rows of this table, in order.

| source | as written | input that shows it | evidently intended | confidence | as-written member | corrected member |
|---|---|---|---|---|---|---|
| modules/cryptohelp.py:229-230 | the trailing bytes after the m 8-byte words are shifted by 64·m + 8·i for i ≥ m, leaving a gap of 8·m zero bits | n = 9, draw 0,0,0,0,0,0,0,0,1: result 2^72, not 2^64 | shift by 64·m + 8·(i−m), so the result is the little-endian value of the n bytes, below 2^(8n) | not executed | CryptoHelp.RandomWithBytesAsWritten, CryptoHelp.RandomAsWrittenCounterexample | CryptoHelp.RandomWithBytes, CryptoHelp.RandomValueBound |
| modules/support/salsa20.py:187-189 | `state[8] += 1` on a Python integer never reaches 0 mod 2^32 as a value, so the carry into word 9 never happens; the scramble only sees word 8 mod 2^32 | any state after 2^32 blocks | a 64-bit block counter in words 8-9 with carry, so distinct block numbers below 2^64 give distinct scramble inputs | not executed | Salsa20.AdvanceAsWritten, Salsa20.BlockRepeatsAsWritten | Salsa20.Advance, Salsa20.AdvanceDistinct |
| modules/netcomm.py:140-144 | when `messageReceived` answers False, the `break` in `finally` leaves only the inner loop, `data` keeps the line plus the whole buffer, and listening continues (the same at 218-222) | two frames of one message in one chunk, handler answering False | stop listening when the handler answers False, as its documentation says (85-98) | not executed | NetComm.ScanAsWritten, NetComm.AsWrittenKeepsListening | NetComm.Scan, NetComm.RoundTrip |
