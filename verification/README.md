# ECC manager facade: shortening, puncturing and erasure bookkeeping

This project models `ECCMan`, the facade of rfigc that puts Reed-Solomon codecs behind a
single interface (`lib/eccman.py`). Its callers pass messages shorter than the code's
message length `k` and ECC fields that may have been truncated. The facade turns them
into the fixed `n`-byte codeword the codec needs and undoes that afterwards. Four steps
do this:

- **Shortening** (`pad`): the message is left-padded with zero bytes up to `k`, and the
  padding is stripped again from the repaired message.
- **Puncturing** (`rpad`): an ECC shorter than `n - k` is right-padded with zero bytes.
- **Erasure bookkeeping** (`decode`): the positions of the erasure marker are found in the
  unpadded message and ECC, so that no padding byte is mistaken for an erasure. The
  positions are then shifted by the left-pad length so that they still point at the
  same bytes. If erasure detection is enabled, only erasures are to be corrected and no
  marker is found, the input is returned unchanged and the codec is not called. With
  detection disabled nothing is scanned, and the codec is called without positions.
- **ECC extraction** (`encode`): the ECC is whatever the codec returns after the padded
  message.

`compute_ecc_params` splits a block size into message and ECC sizes for a resilience rate.

The codec is the Reed-Solomon library (GF(2^8) arithmetic, generator polynomials,
syndrome decoding), and it is not part of this model. A `Codec` value stands for it.
It has three function fields: `encodeMsg`, `correctMsg` and `checkMsg`. They are left
abstract, and each may fail with the library's exception, which `encode`, `decode` and
`check` pass on to the caller. Each lemma assumes only the codec behaviour its `requires` names, for one
specific input: for example, that the codec is systematic on the padded message.

Modules: `Wrappers` (Option, Result), `Bytes` (the byte type, zero runs, Python slicing),
`Padding` (`pad`, `rpad`, stripping, codeword layout), `Erasures` (marker scan and shift),
`EccMan` (the manager's `encode`, `decode` and `check`) and `EccParams`
(`compute_ecc_params`).

`decode` is split in two. `EccMan.PrepareDecode` covers the bookkeeping before the codec
call: the scan, the early exit, both paddings and the shift. `EccMan.Decode` makes the
call and strips the padding. This lets the contracts speak about exactly what the codec
receives. `check` has no contract of its own, because its result is the abstract codec's
verdict. What it hands to the codec is stated by `EccMan.CheckSeesDecodeCodeword` and
`EccMan.CheckEncoded`.

Two points follow the code as written:

- The facade does not reject a message longer than `k`. Such a message is handed to
  the codec unpadded, and any length error is the codec's.
- The erasure shift accounts only for the left padding. This is still exact for ECC
  positions, because right padding only appends after the caller's bytes
  (`Padding.CodewordShiftsBytes`). Bytes added by right padding are never reported
  as erasures, even when the marker is the zero byte (`EccMan.ShiftedScanMarksExactly`).

## Model

| member | source | states |
|---|---|---|
| Padding.LeftPad | lib/eccman.py:147-155 | For a message shorter than `k`: the result has exactly `k` bytes. The first `k - len` bytes are zero and the rest is the message. The recorded pad is that run of zeros. Otherwise the message comes back unchanged and no pad is recorded. |
| Padding.RightPad | lib/eccman.py:157-166 | For an ECC shorter than `n - k`: the result has exactly `n - k` bytes. It starts with the ECC and is followed only by zeros. The recorded pad is the added run. Otherwise the ECC comes back unchanged and no pad is recorded. |
| Padding.StripUndoesLeftPad | lib/eccman.py:143-144 | Stripping `len(pad)` bytes from a left-padded message gives back exactly the original message. |
| Padding.StripKeepsLength | lib/eccman.py:143-144 | A repaired block of the padded length, once stripped, is exactly as long as the caller's message. |
| Padding.LeftPadIdempotent | lib/eccman.py:151-155 | Padding an already padded message adds nothing and records no pad. |
| Padding.RightPadIdempotent | lib/eccman.py:161-166 | Right-padding an already padded ECC adds nothing and records no pad. |
| Padding.Codeword | lib/eccman.py:121-122 | The codeword `decode` and `check` build is `max(k - len, 0)` zeros, then the message, then the ECC, then `max(n - k - len(ecc), 0)` zeros. It is `n` bytes long when message and ECC fit. |
| Padding.CodewordShiftsBytes | lib/eccman.py:121-126 | Every byte of `message + ecc`, ECC bytes included, sits exactly `len(pad)` places further right in the padded codeword. |
| Bytes.Drop | lib/eccman.py:144 | Python's `s[i:]`: the bytes from `i` on, or empty once `i` is past the end. |
| Erasures.Scan | lib/eccman.py:112-116 | The recorded positions are exactly the indices of `message + ecc` holding the marker: each one once, in increasing order. The list is empty iff no byte is the marker. |
| Erasures.Shift | lib/eccman.py:124-126 | Each shifted position is its original position plus the pad length. The list keeps its length and its increasing order. |
| EccMan.EffectiveKIdempotent | lib/eccman.py:149 | Resolving an already resolved `k` again, as `pad` and `rpad` do when `encode`, `decode` and `check` call them, gives the same `k`. |
| EccMan.PadWithResolvedK | lib/eccman.py:121-122 | `pad` and `rpad` called with the resolved `k` give exactly the left-padded message, the right-padded ECC and the codeword that `decode` and `check` hand to the codec. |
| EccMan.EffectiveK | lib/eccman.py:85 | A falsy `k` (None or 0) falls back to the instance's `k`. Any other `k` is used as given. This step is shared by `encode`, `decode`, `pad`, `rpad` and `check` (lines 85, 100, 149, 159 and 170). |
| EccMan.Pad | lib/eccman.py:147-155 | With the default `k`: the padded message is `max(k - len, 0)` zero bytes followed by the message, and the pad length is recorded. |
| EccMan.RPad | lib/eccman.py:157-166 | With the default `k`: the padded ECC is the ECC followed by `max(n - k - len(ecc), 0)` zero bytes, and the pad length is recorded. |
| EccMan.Encode | lib/eccman.py:83-96 | Encode fails iff the codec fails. Otherwise the returned ECC is the part of the codec's output after the padded message, and it is empty if the output is shorter than the padded message. |
| EccMan.EncodeLength | lib/eccman.py:86-95 | If the codec returns `n` bytes for a `k`-byte block, encode succeeds and the ECC has exactly `n - k` bytes for every message of at most `k` bytes. |
| EccMan.ShiftedScanSound | lib/eccman.py:124-126 | Every shifted position lies inside the window of caller bytes and indexes a marker byte there. |
| EccMan.ShiftedScanComplete | lib/eccman.py:124-126 | Every marker byte inside that window is among the shifted positions. |
| EccMan.ShiftedScanMarks | lib/eccman.py:121-126 | Marker positions found in data that a codeword holds at offset `p`, shifted by `p`, are exactly the codeword's marker positions inside that window. |
| EccMan.ShiftedScanMarksExactly | lib/eccman.py:107-126 | The shifted positions are exactly the marker bytes of the padded codeword that lie over the caller's message and ECC. No position falls on left or right padding. |
| EccMan.PrepareDecode | lib/eccman.py:98-126 | Decode exits early iff erasure detection is enabled, only erasures are wanted and no marker is found. Otherwise the codec gets the padded codeword and the resolved `k`. It gets erasure positions iff erasures are enabled. Those positions are the scan of the unpadded input shifted by the pad length, and they mark exactly the codeword's marker bytes over the caller's data. |
| EccMan.Decode | lib/eccman.py:117-118 | If erasure detection is enabled, only erasures are wanted and no marker is found, the message and ECC are returned unchanged. |
| EccMan.DecodeReturnsRepair | lib/eccman.py:143-145 | When the codec repairs the block into `(msgOut, eccOut)`, the caller gets `msgOut` without its first `max(k - len(message), 0)` bytes, and `eccOut` unchanged. |
| EccMan.DecodeStripsPadding | lib/eccman.py:143-145 | If the codec's repaired message is the zero padding followed by some bytes, the caller gets exactly those bytes, with the codec's ECC. So a codec that returns the padded message unchanged gives back the caller's own message. |
| EccMan.DecodeKeepsMessageLength | lib/eccman.py:143-144 | If the codec repairs into a block of the padded size, the returned message is as long as the caller's. |
| EccMan.DecodeFailsOnlyWithCodec | lib/eccman.py:128-145 | Decode fails iff the codec is called and fails. The early exit never fails. |
| EccMan.EarlyExitIgnoresCodec | lib/eccman.py:117-118 | The early exit does not depend on the codec: any two codecs give the same answer. |
| EccMan.DecodeEncodeRoundTrip | lib/eccman.py:83-145 | Take a codec that is systematic on the padded message and leaves an intact block untouched. Then encoding a message of at most `k` bytes succeeds with that codec's ECC. Decoding the message with that ECC returns the message at its original length. |
| EccMan.CheckSeesDecodeCodeword | lib/eccman.py:168-176 | `check` hands the codec the same codeword and `k` that `decode` would, with erasures disabled. |
| EccMan.CheckEncoded | lib/eccman.py:168-176 | For a systematic codec, encode succeeds, and checking a message against that ECC judges exactly the block the codec encoded. |
| EccParams.RoundHalfAway | lib/eccman.py:45 | Python 2's `round(x, 0)`: the nearest integer, with halves rounded away from zero. |
| EccParams.ComputeEccParams | lib/eccman.py:42-48 | Message size plus ECC size is the block size. The message size is `max_block_size / (1 + 2*rate)` rounded to the nearest integer with halves away from zero, so it is within one half of the quotient. The hash size is the digest length. A zero divisor is a failure. For a non-negative rate the message fits in the block. |
| EccParams.ParamsAtExactHalf | lib/eccman.py:45-46 | A quotient of exactly 2.5 (block 5, rate 0.5) rounds up to 3 message bytes, leaving 2 ECC bytes. |
| EccParams.ParamsForFullBlock | lib/eccman.py:45-48 | A 255-byte block at rate 0.2 with a 16-byte digest gives 182 message bytes, 73 ECC bytes and a hash size of 16. |

## Left out

- The Reed-Solomon codecs (`brownanrs.RSCoder`, `reedsolo.rs_encode_msg`, `rs_correct_msg`, `rs_correct_msg_nofsynd`, `rs_check`, `init_tables`, `rs_generator_poly_all`) are not part of this model. They are the abstract `Codec` functions. The codec receives `k`. For the `reedsolo` backends the source passes `n - k` instead: `encode` also passes the generator polynomial `g[n - k]` from the constructor's table, while `decode` and `check` pass `fcr` and the generator number `gen_nb`. With the instance's `n` and field constants fixed, `k` carries the same information.
- The choice of backend (`algo`) and the field constants the constructor sets (`c_exp`, `field_charac`, `gen_nb`, `prim`, `fcr`) are left out. They only select a codec.
- Converting `str` input to `bytearray` and `ord` of a string erasure marker are left out. These are Python 2/3 plumbing, so inputs are byte sequences and the marker is a byte.
- The warning `rpad` prints is left out because it is output only.
- `description()` is left out: it formats a string and computes nothing.
- EccParams.ComputeEccParams: the division is computed over exact reals, not IEEE doubles. Results can differ from the source only where floating-point error moves a quotient across a rounding boundary. Ties follow Python 2's `round`, which the file's use of `xrange` (line 116) implies. Under Python 3, `round` would send an exact half to the even neighbour instead.
