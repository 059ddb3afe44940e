/** `compute_ecc_params`: splitting a block of `maxBlockSize` bytes into a message
    part and an ECC part for a wanted resilience rate. */
module EccParams {
  import opened Wrappers

  /** The sizes `compute_ecc_params` returns. */
  datatype Params = Params(messageSize: int, eccSize: int, hashSize: nat)

  /** Python raises when `1 + 2*rate` is zero. */
  datatype ParamsError = ZeroDivisionError

  /** Python 2's `round(x, 0)`: the nearest integer, halves rounded away from zero. */
  function RoundHalfAway(x: real): (r: int)
    ensures x >= 0.0 ==> (r as real) - 0.5 <= x < (r as real) + 0.5
    ensures x < 0.0 ==> (r as real) - 0.5 < x <= (r as real) + 0.5
  {
    if x >= 0.0 then (x + 0.5).Floor else -((-x + 0.5).Floor)
  }

  /** The message takes `maxBlockSize / (1 + 2*rate)` bytes, rounded, so that the ECC is
      about `2*rate` times the message; the ECC takes the rest of the block; the hash
      size is the digest length of the hasher. */
  function ComputeEccParams(maxBlockSize: int, rate: real, hashLength: nat): (r: Result<Params, ParamsError>)
    ensures r.Failure? <==> 1.0 + 2.0 * rate == 0.0
    ensures r.Success? ==>
      && r.value.messageSize + r.value.eccSize == maxBlockSize
      && r.value.hashSize == hashLength
      && -0.5 <= (r.value.messageSize as real) - (maxBlockSize as real) / (1.0 + 2.0 * rate) <= 0.5
      && r.value.messageSize == RoundHalfAway((maxBlockSize as real) / (1.0 + 2.0 * rate))
    ensures r.Success? && 0 <= maxBlockSize && 0.0 <= rate ==> 0 <= r.value.messageSize <= maxBlockSize
  {
    if 1.0 + 2.0 * rate == 0.0 then
      Failure(ZeroDivisionError)
    else
      var exact := (maxBlockSize as real) / (1.0 + 2.0 * rate);
      assert 0 <= maxBlockSize && 0.0 <= rate ==> exact <= maxBlockSize as real by {
        assert exact * (1.0 + 2.0 * rate) == maxBlockSize as real;
      }
      var messageSize := RoundHalfAway(exact);
      Success(Params(messageSize, maxBlockSize - messageSize, hashLength))
  }

  /** An exact half rounds away from zero: a 5-byte block at rate 0.5 gives a quotient
      of 2.5, so 3 message bytes and 2 ECC bytes. */
  lemma ParamsAtExactHalf()
    ensures ComputeEccParams(5, 0.5, 0) == Success(Params(3, 2, 0))
  {
  }

  /** A 255-byte block at rate 0.2 with a 16-byte digest: 182 message bytes, 73 ECC bytes. */
  lemma ParamsForFullBlock()
    ensures ComputeEccParams(255, 0.2, 16) == Success(Params(182, 73, 16))
  {
  }
}
