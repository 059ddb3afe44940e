/** Shortening and puncturing: the two padding steps that turn a caller's
    variable-length message and ECC into the fixed-size codeword of the code. */
module Padding {
  import opened Wrappers
  import opened Bytes

  /** The `[data, pad]` pair `pad` and `rpad` return: the padded bytes and the
      run of zero bytes that was added, `None` when nothing was added. */
  datatype Padded = Padded(data: seq<byte>, pad: Option<seq<byte>>)
  {
    /** How many zero bytes were added. */
    function PadLength(): nat
    {
      if pad.Some? then |pad.value| else 0
    }
  }

  /** `pad`: left-pad `message` with zero bytes up to `k` (a shortened code). */
  function LeftPad(message: seq<byte>, k: int): (r: Padded)
    ensures |message| < k ==>
      && r.pad.Some? && |r.pad.value| == k - |message| && AllZero(r.pad.value)
      && |r.data| == k
      && AllZero(r.data[..k - |message|])
      && r.data[k - |message|..] == message
    ensures |message| >= k ==> r.data == message && r.pad.None?
    ensures r.PadLength() == Max(k - |message|, 0)
    ensures r.data == Zeros(Max(k - |message|, 0)) + message
  {
    if |message| < k then
      var pad := Zeros(k - |message|);
      Padded(pad + message, Some(pad))
    else
      Padded(message, None)
  }

  /** `rpad`: right-pad `ecc` with zero bytes up to `nsym` = n - k bytes
      (a punctured code, used when the stored ECC came back truncated). */
  function RightPad(ecc: seq<byte>, nsym: int): (r: Padded)
    ensures |ecc| < nsym ==>
      && r.pad.Some? && |r.pad.value| == nsym - |ecc| && AllZero(r.pad.value)
      && |r.data| == nsym
      && r.data[..|ecc|] == ecc
      && AllZero(r.data[|ecc|..])
    ensures |ecc| >= nsym ==> r.data == ecc && r.pad.None?
    ensures r.PadLength() == Max(nsym - |ecc|, 0)
    ensures r.data == ecc + Zeros(Max(nsym - |ecc|, 0))
  {
    if |ecc| < nsym then
      var pad := Zeros(nsym - |ecc|);
      Padded(ecc + pad, Some(pad))
    else
      Padded(ecc, None)
  }

  /** The stripping step after decoding: drop as many leading bytes as were padded,
      with Python slice semantics (`msg[len(pad):len(msg)]`). */
  function StripLeft(repaired: seq<byte>, pad: Option<seq<byte>>): (r: seq<byte>)
  {
    if pad.Some? then Drop(repaired, |pad.value|) else repaired
  }

  /** Stripping undoes shortening: a message padded and stripped again is the message. */
  lemma StripUndoesLeftPad(message: seq<byte>, k: int)
    ensures StripLeft(LeftPad(message, k).data, LeftPad(message, k).pad) == message
  {
  }

  /** Stripping a repaired block of the padded size keeps the caller's message length. */
  lemma StripKeepsLength(message: seq<byte>, k: int, repaired: seq<byte>)
    requires |repaired| == |LeftPad(message, k).data|
    ensures |StripLeft(repaired, LeftPad(message, k).pad)| == |message|
  {
  }

  /** Padding is idempotent: a message already padded to `k` gets no second pad. */
  lemma LeftPadIdempotent(message: seq<byte>, k: int)
    ensures LeftPad(LeftPad(message, k).data, k) == Padded(LeftPad(message, k).data, None)
  {
  }

  /** Right padding is idempotent in the same way. */
  lemma RightPadIdempotent(ecc: seq<byte>, nsym: int)
    ensures RightPad(RightPad(ecc, nsym).data, nsym) == Padded(RightPad(ecc, nsym).data, None)
  {
  }

  /** The codeword built from a padded message and a padded ECC: zeros, the message
      right-aligned in the first `max(k, |message|)` bytes, the ECC, and zeros up to
      `max(n - k, |ecc|)` ECC bytes. */
  function Codeword(message: seq<byte>, ecc: seq<byte>, k: int, n: int): (r: seq<byte>)
    ensures r == Zeros(Max(k - |message|, 0)) + message + ecc + Zeros(Max(n - k - |ecc|, 0))
    ensures |message| <= k && |ecc| <= n - k ==> |r| == n
  {
    LeftPad(message, k).data + RightPad(ecc, n - k).data
  }

  /** Left padding by `p` bytes moves every byte of `message + ecc` exactly `p`
      places to the right in the codeword, ECC bytes included, because right
      padding only appends after them. */
  lemma CodewordShiftsBytes(message: seq<byte>, ecc: seq<byte>, k: int, n: int)
    ensures var p := LeftPad(message, k).PadLength();
      forall x :: 0 <= x < |message + ecc| ==> Codeword(message, ecc, k, n)[x + p] == (message + ecc)[x]
  {
  }
}
