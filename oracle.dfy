/**
 * The `/decrypt` handler of app.py: the auth gate, the noise gate, the envelope shape check,
 * the padding verdict and the process-wide streak counter `error_count` with its bonus leak.
 */
module Oracle {
  import opened Wrappers
  import opened Padding
  import opened Cbc

  /** What reading the JSON body and `bytes.fromhex` make of a request. */
  datatype Query =
    | Unreadable                              // body or field unusable: an exception other than ValueError
    | NotHex                                  // `bytes.fromhex` raised ValueError on `iv` or `ciphertext`
    | Decoded(iv: seq<byte>, ct: seq<byte>)   // both fields decoded

  /** The JSON result of the handler; `bonus` is whether `bonus_flag` is attached. */
  datatype Response = Unauthorized | Error | ValidPadding | InvalidPadding(bonus: bool)

  /** Which path one request takes through the handler. */
  datatype Verdict =
    | Denied        // `check_auth()` failed
    | Noise         // the noise gate fired
    | Unexpected    // `except Exception`
    | BadShape      // IV not one block, or ciphertext empty or not block-aligned
    | HexError      // ValueError from `bytes.fromhex`
    | PaddingOk     // `unpad` succeeded
    | PaddingBad    // ValueError from `unpad`

  /** ValueError outcomes since the last valid padding or bonus that release the bonus flag; other
      requests in between neither count nor reset the streak. */
  const Threshold: int := 3

  predicate IsValueError(v: Verdict)
  {
    v == HexError || v == PaddingBad
  }

  /** The length check before decryption: the IV is one block and the ciphertext at least one whole block. */
  predicate WellShaped(iv: seq<byte>, ct: seq<byte>): (r: bool)
    ensures r ==> |iv| == BlockSize && |ct| % BlockSize == 0 && |ToBlocks(ct)| >= 1
  {
    |iv| == BlockSize && |ct| != 0 && |ct| % BlockSize == 0
  }

  /** Every envelope `encrypt` issues passes the length check. */
  lemma EncryptWellShaped(enc: Block -> Block, iv: Block, m: seq<byte>)
    ensures WellShaped(Encrypt(enc, iv, m).iv, Encrypt(enc, iv, m).ct)
  {
  }

  /** The path a request takes, from the external facts: the auth decision, the noise coin, the decoded
      body and the block decryption under the server key. */
  function Classify(authorized: bool, noise: bool, q: Query, dec: Block -> Block): (v: Verdict)
    ensures v == Denied <==> !authorized
    ensures v == Noise <==> authorized && noise
    ensures v == PaddingOk <==>
              authorized && !noise && q.Decoded? && WellShaped(q.iv, q.ct) && Decrypt(dec, q.iv, q.ct).Some?
    ensures v == PaddingOk || v == PaddingBad <==>
              authorized && !noise && q.Decoded? && WellShaped(q.iv, q.ct)
    ensures v == Unexpected <==> authorized && !noise && q.Unreadable?
    ensures v == HexError <==> authorized && !noise && q.NotHex?
    ensures v == BadShape <==> authorized && !noise && q.Decoded? && !WellShaped(q.iv, q.ct)
  {
    if !authorized then Denied
    else if noise then Noise
    else match q
      case Unreadable => Unexpected
      case NotHex => HexError
      case Decoded(iv, ct) =>
        if !WellShaped(iv, ct) then BadShape
        else if Decrypt(dec, iv, ct).Some? then PaddingOk
        else PaddingBad
  }

  /** The response and the new streak counter, given the old counter and the path taken. */
  function Transition(count: int, v: Verdict): (r: (Response, int))
    ensures r.1 == count || r.1 == 0 || r.1 == count + 1
    ensures r.0 == ValidPadding || r.0 == InvalidPadding(true) ==> r.1 == 0
    ensures r.0 == Unauthorized || r.0 == Error ==> r.1 == count
  {
    match v
    case Denied => (Unauthorized, count)
    case Noise => (Error, count)
    case Unexpected => (Error, count)
    case BadShape => (InvalidPadding(false), count)
    case PaddingOk => (ValidPadding, 0)
    case _ =>
      if count + 1 >= Threshold then (InvalidPadding(true), 0)
      else (InvalidPadding(false), count + 1)
  }

  /** Denied, noisy, unexpected and malformed-shape requests leave the counter alone. */
  lemma StreakUntouched(count: int, v: Verdict)
    requires v == Denied || v == Noise || v == Unexpected || v == BadShape
    ensures Transition(count, v).1 == count
    ensures Transition(count, v).0 == (if v == Denied then Unauthorized
                                       else if v == BadShape then InvalidPadding(false)
                                       else Error)
  {
  }

  /** A valid padding resets the streak, whatever it was. */
  lemma ValidPaddingResets(count: int)
    ensures Transition(count, PaddingOk) == (ValidPadding, 0)
  {
  }

  /** A hex or padding ValueError advances the streak; reaching the threshold releases the bonus and
      restarts the streak at 0. */
  lemma ValueErrorAdvances(count: int, v: Verdict)
    requires IsValueError(v)
    ensures count + 1 >= Threshold ==> Transition(count, v) == (InvalidPadding(true), 0)
    ensures count + 1 < Threshold ==> Transition(count, v) == (InvalidPadding(false), count + 1)
  {
  }

  /** The streak stays in 0..2 across every transition. */
  lemma StreakBounded(count: int, v: Verdict)
    requires 0 <= count < Threshold
    ensures 0 <= Transition(count, v).1 < Threshold
  {
  }

  /** The bonus flag is attached exactly to a ValueError that meets a streak of two. */
  lemma BonusExactly(count: int, v: Verdict)
    requires 0 <= count < Threshold
    ensures Transition(count, v).0 == InvalidPadding(true) <==> IsValueError(v) && count == Threshold - 1
  {
  }

  /** Three ValueErrors in a row from a fresh streak answer plain, plain, then with the bonus, and the
      streak starts over. */
  lemma ThreeStrikes(v1: Verdict, v2: Verdict, v3: Verdict)
    requires IsValueError(v1) && IsValueError(v2) && IsValueError(v3)
    ensures Transition(0, v1) == (InvalidPadding(false), 1)
    ensures Transition(1, v2) == (InvalidPadding(false), 2)
    ensures Transition(2, v3) == (InvalidPadding(true), 0)
  {
  }

  /** An authorized, noise-free, well-shaped query takes the padding path. */
  lemma ClassifyDecoded(iv: seq<byte>, ct: seq<byte>, dec: Block -> Block)
    requires WellShaped(iv, ct)
    ensures Classify(true, false, Decoded(iv, ct), dec) == if Decrypt(dec, iv, ct).Some? then PaddingOk else PaddingBad
  {
  }

  /** On the padding path the answer is "Valid padding" exactly when `unpad` succeeded. */
  lemma PaddingPathAnswers(count: int, v: Verdict, ok: bool)
    requires v == if ok then PaddingOk else PaddingBad
    ensures Transition(count, v).0 == ValidPadding <==> ok
    ensures Transition(count, v).0 != ValidPadding ==> Transition(count, v).0.InvalidPadding?
  {
  }

  /** For an authorized, noise-free, well-shaped query the answer is "Valid padding" exactly when the
      last decrypted block is well padded, and "Invalid padding" otherwise: the oracle reveals that
      bit, and only that bit besides the streak. */
  lemma OracleRevealsPadding(count: int, iv: seq<byte>, ct: seq<byte>, dec: Block -> Block)
    requires WellShaped(iv, ct)
    ensures Transition(count, Classify(true, false, Decoded(iv, ct), dec)).0 == ValidPadding
            <==> WellPadded(LastPlainBlock(dec, iv, ct))
    ensures Transition(count, Classify(true, false, Decoded(iv, ct), dec)).0 != ValidPadding
            ==> Transition(count, Classify(true, false, Decoded(iv, ct), dec)).0.InvalidPadding?
  {
    ClassifyDecoded(iv, ct, dec);
    DecryptVerdict(dec, iv, ct);
    PaddingPathAnswers(count, Classify(true, false, Decoded(iv, ct), dec), Decrypt(dec, iv, ct).Some?);
  }

  /** The handler's module-global state. */
  class DecryptOracle {
    /** `error_count`: ValueError outcomes since the last valid padding or bonus; other requests in
        between neither count nor reset it. */
    var errorCount: int

    ghost predicate Valid()
      reads this
    {
      0 <= errorCount < Threshold
    }

    constructor ()
      ensures Valid() && errorCount == 0
    {
      errorCount := 0;
    }

    /** One call of `decrypt`. */
    method Step(authorized: bool, noise: bool, q: Query, dec: Block -> Block) returns (r: Response)
      requires Valid()
      modifies this
      ensures Valid()
      ensures (r, errorCount) == Transition(old(errorCount), Classify(authorized, noise, q, dec))
    {
      ghost var v := Classify(authorized, noise, q, dec);
      if !authorized {
        return Unauthorized;
      }
      if noise {
        return Error;
      }
      match q {
        case Unreadable =>
          return Error;
        case NotHex =>
        case Decoded(iv, ct) =>
          if !WellShaped(iv, ct) {
            return InvalidPadding(false);
          }
          var plaintext := Decrypt(dec, iv, ct);
          assert v == if plaintext.Some? then PaddingOk else PaddingBad by {
            ClassifyDecoded(iv, ct, dec);
          }
          if plaintext.Some? {
            errorCount := 0;
            return ValidPadding;
          }
      }
      // except ValueError
      errorCount := errorCount + 1;
      if errorCount >= Threshold {
        errorCount := 0;
        return InvalidPadding(true);
      }
      return InvalidPadding(false);
    }
  }

  /** Three undecodable queries against a fresh oracle, with no noise: plain, plain, bonus, and the
      streak is back at 0. */
  method ThreeBadQueries(dec: Block -> Block) returns (r1: Response, r2: Response, r3: Response, count: int)
    ensures r1 == InvalidPadding(false) && r2 == InvalidPadding(false) && r3 == InvalidPadding(true)
    ensures count == 0
  {
    var o := new DecryptOracle();
    r1 := o.Step(true, false, NotHex, dec);
    r2 := o.Step(true, false, NotHex, dec);
    r3 := o.Step(true, false, NotHex, dec);
    count := o.errorCount;
  }
}
