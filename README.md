# Padding-oracle challenge service, modelled in Dafny

The modelled service is a Flask app. It encrypts a secret message under AES-CBC and exposes a
`/decrypt` endpoint that answers only whether a submitted `(iv, ciphertext)` pair decrypts to correctly
padded plaintext. That answer is a classic padding oracle. Two things sit on top of it. A noise gate
sometimes answers `"Error"` without looking at the request. A process-wide counter `error_count`
attaches a second secret, `bonus_flag`, to the third `ValueError` outcome since the last valid
padding or bonus. Other requests in between neither count nor reset it.

The model has four modules:

- `Wrappers` (`wrappers.dfy`): `Option`. `None` stands for a raised `ValueError`.
- `Padding` (`padding.dfy`): `pad` and `unpad`. This is PKCS#7 padding, section 6.3 of RFC 5652,
  with block size 16. Both are pure functions on `seq<bv8>`. The file also proves the exact failure
  conditions of `unpad` and round trips in both directions.
- `Cbc` (`cbc.dfy`): CBC mode as in section 6.2 of NIST SP 800-38A, over block lists.
  - The keyed AES block functions are the parameters `enc` and `dec`.
  - The only thing assumed of them is `Inverts(enc, dec)`, meaning `dec(enc(x)) == x`. It appears as
    a precondition of the round-trip lemmas and nowhere else.
  - Encryption and decryption carry the standard's per-block definitions as postconditions.
  - `Encrypt` models `encrypt()`, taking the IV as a parameter. `Decrypt` models the decryption plus
    `unpad` inside `decrypt()`.
  - Also proved: the padding verdict depends only on the last plaintext block. CBC is malleable:
    xoring `delta` into the IV of a one-block ciphertext, or into the block before the last of a
    longer one, xors `delta` into the last decrypted block.
- `Oracle` (`oracle.dfy`): the `decrypt()` handler.
  - The class `DecryptOracle` has the field `errorCount`, with the invariant `0 <= errorCount <= 2`.
  - Its method `Step` takes the external facts as parameters: authorization, the noise coin, the
    outcome of JSON/hex decoding, and the block decryption.
  - `Step` is proved against two pure functions. `Classify` gives the path the request takes through
    the handler. `Transition` gives the response and the new counter.
  - Lemmas about `Transition` state the streak rules.

Three details of `decrypt()` that are easy to misread:

- A hex-decoding failure (`bytes.fromhex` raising `ValueError`, app.py:104-105) lands in the
  `except ValueError` branch. It answers `"Invalid padding"` and advances the streak like a padding
  failure.
- A wrong-length IV, or an empty or unaligned ciphertext, returns early (app.py:107-108). The
  counter is unchanged.
- The bonus test is `error_count >= 3` (app.py:120). Under the proved invariant this fires on the
  third `ValueError` since the last valid padding or bonus. Other requests in between neither count
  nor reset the counter.

## Model

| member | source | states |
|---|---|---|
| Padding.PadLength | app.py:44 | pad_len is between 1 and 16 and brings the length to a block boundary |
| Padding.Pad | app.py:43-45 | the result is a positive multiple of 16 long, 1 to 16 bytes longer than the input, starts with the input, and ends in k bytes each equal to k, where k is the number appended |
| Padding.Unpad | app.py:47-55 | succeeds exactly when the input is non-empty and its last byte k is between 1 and 16 with the last k bytes all equal to k; on success returns the input without its last k bytes |
| Padding.UnpadFails | app.py:47-54 | fails exactly when the input is empty, the last byte is 0 or above 16, the input is shorter than the last byte, or one of the trailing bytes differs from the last byte |
| Padding.UnpadPad | app.py:43-55 | unpad(pad(d)) succeeds with d, for every byte string d |
| Padding.PadUnpad | app.py:43-55 | on block-aligned input that unpads, padding the result gives the input back |
| Cbc.CbcEncrypt | app.py:59-60 | one ciphertext block per plaintext block, C(i) = E(P(i) xor C(i-1)) with C(-1) = IV |
| Cbc.CbcDecrypt | app.py:110-111 | one plaintext block per ciphertext block, P(i) = D(C(i)) xor C(i-1) with C(-1) = IV |
| Cbc.CbcRoundTrip | app.py:57-61 | if D inverts E, CBC-decrypting a CBC encryption under the same IV gives back the plaintext blocks |
| Cbc.WellPaddedLastBlock | app.py:50-53 | whether a byte string of at least one block is well padded depends only on its last 16 bytes |
| Cbc.Encrypt | app.py:57-61 | returns the given IV and the CBC encryption of pad(plaintext); the ciphertext is as long as pad(plaintext), non-empty and block-aligned |
| Cbc.VerdictFromLastBlock | app.py:110-113 | the padding verdict on the whole decryption equals the verdict on the last plaintext block D(C(n-1)) xor C(n-2) |
| Cbc.Decrypt | app.py:110-113 | when decryption plus unpad succeeds, the plaintext is a prefix of the CBC decryption, 1 to 16 bytes shorter than the ciphertext |
| Cbc.DecryptVerdict | app.py:110-113 | empty ciphertext never unpads; otherwise decryption plus unpad succeeds exactly when the last plaintext block, from the last two ciphertext blocks (or the IV), is well padded |
| Cbc.IvMalleable | app.py:110-111 | xoring delta into the IV of a one-block ciphertext xors delta into its decrypted block |
| Cbc.PreviousBlockMalleable | app.py:110-111 | for a ciphertext of two or more blocks, xoring delta into the block before the last xors delta into the last decrypted block |
| Cbc.DecryptBytes | app.py:110-111 | `cipher.decrypt(ct)`: output as long as the ciphertext, and its blocks are the CBC decryption of the ciphertext's blocks, so block i is D(C(i)) xor C(i-1) with C(-1) = IV |
| Cbc.DecryptEncryptPadded | app.py:110-111 | if D inverts E, decrypting encrypt(m) under its IV yields pad(m) |
| Cbc.DecryptEncrypt | app.py:110-113 | if D inverts E, decrypting and unpadding encrypt(m) under its IV yields exactly m |
| Oracle.WellShaped | app.py:107 | the length check passes only for a one-block IV and a ciphertext of one or more whole blocks |
| Oracle.EncryptWellShaped | app.py:107 | every envelope that `encrypt` issues passes the length check |
| Oracle.Classify | app.py:92-128 | the request is denied exactly when unauthorized, and noise-gated exactly when authorized with noise; past those gates, an unusable body is exactly the non-`ValueError` "Error" path, a `bytes.fromhex` failure exactly the hex `ValueError` path (which counts toward the streak), and a decoded but badly shaped envelope exactly the length-check path (which does not); it reaches `unpad` exactly when authorized, noise-free, decoded and well-shaped, and takes the valid branch exactly when decryption plus unpad then succeeds |
| Oracle.Transition | app.py:92-128 | the counter stays, resets to 0 or advances by one; valid padding and the bonus leave it at 0; "unauthorized" and "Error" answers leave it unchanged |
| Oracle.StreakUntouched | app.py:92-128 | unauthorized ("unauthorized"), noise ("Error"), non-ValueError ("Error") and bad-shape ("Invalid padding", no bonus) requests leave the counter unchanged |
| Oracle.ValidPaddingResets | app.py:113-116 | valid padding answers "Valid padding" and sets the counter to 0 from any value |
| Oracle.ValueErrorAdvances | app.py:118-126 | a hex or padding ValueError increments the counter; reaching 3 or more answers with the bonus and resets to 0, otherwise answers plain "Invalid padding" |
| Oracle.StreakBounded | app.py:118-126 | every transition keeps the counter in 0..2 |
| Oracle.BonusExactly | app.py:118-125 | within the invariant, the bonus is attached exactly to a ValueError arriving on a counter of 2 |
| Oracle.ThreeStrikes | app.py:118-126 | three ValueErrors from 0 answer plain, plain, bonus, and the counter ends at 0 |
| Oracle.ClassifyDecoded | app.py:104-118 | an authorized, noise-free, well-shaped query goes down the padding path: valid when decryption plus unpad succeeds, a padding ValueError otherwise |
| Oracle.PaddingPathAnswers | app.py:113-126 | on the padding path the answer is "Valid padding" exactly when unpad succeeded, and "Invalid padding" otherwise |
| Oracle.OracleRevealsPadding | app.py:107-126 | for an authorized, noise-free, well-shaped query the answer is "Valid padding" exactly when the last decrypted block is well padded, and "Invalid padding" otherwise |
| Oracle.DecryptOracle.constructor | app.py:30 | the counter starts at 0 |
| Oracle.DecryptOracle.Step | app.py:88-128 | one request: keeps 0 <= errorCount <= 2, and the response and new counter are the transition of the old counter on the request's path |
| Oracle.ThreeBadQueries | app.py:104-126 | three hex-invalid queries against a fresh oracle answer plain, plain, bonus, and leave the counter at 0 |

## Left out

- Flask routing and HTTP plumbing are I/O. This covers `/README` (app.py:8-10), `/health`
  (app.py:71-73), JSON body parsing (app.py:100-102), `jsonify` and status codes. The body's
  decoding is reduced to the `Query` input, and the answer to the `Response` value.
- `get_ciphertext` (app.py:75-86) is routing around `encrypt`. It does an auth check, builds the
  message `FLAG + "::" + banner` and hex-encodes the result. The message bytes are the `plaintext`
  parameter of `Cbc.Encrypt`.
- Environment configuration and key derivation (app.py:15-23, app.py:35-41) are process setup.
  They include a `float()` parse of `NOISE_RATE`. The key appears only through the `enc`/`dec`
  parameters. The noise decision, `NOISE_RATE > 0 and random.random() < NOISE_RATE`, is the
  boolean `noise`.
- The model assumes a key that AES accepts. With a key of invalid length, `AES.new` (app.py:110)
  would raise `ValueError` on every well-shaped query, and every such query would feed the streak.
  This depends on configuration.
- Randomness and the delay are foreign and non-deterministic. `get_random_bytes` for the IV
  (app.py:58) is the `iv` parameter. `random.random()` is folded into `noise`, and
  `time.sleep(0.05)` (app.py:96) is dropped.
- AES itself (app.py:59, app.py:110) is a library call. It is the pair of abstract block functions
  `enc`/`dec`. Only `dec(enc(x)) == x` is assumed, and only where a lemma needs it.
- The header comparison in `check_auth` (app.py:63-66) is the boolean `authorized`.
- Concurrent access to the unlocked global counter is not modelled. The model takes one sequential
  step at a time.
- IV uniqueness across `encrypt` calls depends on randomness. It cannot be stated about this
  deterministic model.
- `bytes.fromhex` itself is not modelled. Its success is the `Decoded` case of `Query` and its
  `ValueError` is `NotHex`. Errors other than `ValueError` inside the `try` are `Unreadable`, for
  example a body that is not a JSON object or a field that is not a string.
