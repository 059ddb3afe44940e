/** The ECC manager facade: it adapts a caller's variable-length message and ECC
    to the fixed n-byte codeword of a Reed-Solomon codec, and back.

    The codec itself (Galois-field arithmetic, encoding, syndrome decoding) belongs
    to the Reed-Solomon libraries the manager delegates to and is not part of this
    model: it is a `Codec` value whose three functions are left abstract, and the
    lemmas below assume of them only what each statement names. */
module EccMan {
  import opened Wrappers
  import opened Bytes
  import opened Padding
  import opened Erasures

  /** The exception the Reed-Solomon library raises (a block it cannot repair, a
      block of the wrong size). */
  datatype CodecError = ReedSolomonError

  /** The Reed-Solomon library behind the manager, seen only through its interface:
      `encodeMsg(message, k)` returns message and ECC as one block,
      `correctMsg(codeword, k, erasurePositions, onlyErasures)` returns the repaired
      message and ECC, `checkMsg(codeword, k)` says whether the codeword has no error;
      each of them may raise instead. */
  datatype Codec = Codec(
    encodeMsg: (seq<byte>, int) -> Result<seq<byte>, CodecError>,
    correctMsg: (seq<byte>, int, Option<seq<nat>>, bool) -> Result<(seq<byte>, seq<byte>), CodecError>,
    checkMsg: (seq<byte>, int) -> Result<bool, CodecError>)

  /** An `ECCMan` instance: codeword length `n`, default message length `k`, and its codec. */
  datatype Manager = Manager(n: int, k: int, codec: Codec)

  /** `if not k: k = self.k`: an absent or zero `k` (both falsy in Python) falls back
      to the instance's `k`; any other value is used as given. */
  function EffectiveK(k: Option<int>, instanceK: int): (r: int)
    ensures k.Some? && k.value != 0 ==> r == k.value
    ensures k.None? || k.value == 0 ==> r == instanceK
  {
    match k
    case Some(v) => if v != 0 then v else instanceK
    case None => instanceK
  }

  /** `pad` as a method of the manager, with the default `k`. */
  function Pad(m: Manager, message: seq<byte>, k: Option<int>): (r: Padded)
    ensures r.PadLength() == Max(EffectiveK(k, m.k) - |message|, 0)
    ensures r.data == Zeros(r.PadLength()) + message
  {
    LeftPad(message, EffectiveK(k, m.k))
  }

  /** `rpad` as a method of the manager: the ECC is filled up to `n - k` bytes. */
  function RPad(m: Manager, ecc: seq<byte>, k: Option<int>): (r: Padded)
    ensures r.PadLength() == Max(m.n - EffectiveK(k, m.k) - |ecc|, 0)
    ensures r.data == ecc + Zeros(r.PadLength())
  {
    RightPad(ecc, m.n - EffectiveK(k, m.k))
  }

  /** Resolving `k` twice changes nothing: `encode`, `decode` and `check` resolve it
      and then call `pad` and `rpad`, which resolve it again. */
  lemma EffectiveKIdempotent(k: Option<int>, instanceK: int)
    ensures EffectiveK(Some(EffectiveK(k, instanceK)), instanceK) == EffectiveK(k, instanceK)
  {
  }

  /** `pad` and `rpad` called with the already resolved `k` pad exactly as the
      codeword of `decode` and `check` does. */
  lemma PadWithResolvedK(m: Manager, message: seq<byte>, ecc: seq<byte>, k: Option<int>)
    ensures var kk := EffectiveK(k, m.k);
      && Pad(m, message, Some(kk)) == LeftPad(message, kk)
      && RPad(m, ecc, Some(kk)) == RightPad(ecc, m.n - kk)
      && Pad(m, message, Some(kk)).data + RPad(m, ecc, Some(kk)).data == Codeword(message, ecc, kk, m.n)
  {
    EffectiveKIdempotent(k, m.k);
  }

  /** `encode`: the ECC of `message` is what the codec returns after the padded
      message; an exception of the codec reaches the caller. */
  function Encode(m: Manager, message: seq<byte>, k: Option<int>): (r: Result<seq<byte>, CodecError>)
    ensures var kk := EffectiveK(k, m.k);
      var padded := LeftPad(message, kk).data;
      var out := m.codec.encodeMsg(padded, kk);
      && (r.Failure? <==> out.Failure?)
      && (r.Success? && |padded| <= |out.value| ==> out.value == out.value[..|padded|] + r.value)
      && (r.Success? && |padded| > |out.value| ==> r.value == [])
  {
    var kk := EffectiveK(k, m.k);
    var padded := Pad(m, message, Some(kk)).data;
    PadWithResolvedK(m, message, [], k);
    match m.codec.encodeMsg(padded, kk)
    case Failure(e) => Failure(e)
    case Success(mesecc) => Success(Drop(mesecc, |padded|))
  }

  /** A codec that returns n-byte blocks yields an ECC of exactly n - k bytes,
      whatever the (short enough) message length. */
  lemma EncodeLength(m: Manager, message: seq<byte>, k: Option<int>)
    requires |message| <= EffectiveK(k, m.k) <= m.n
    requires var out := m.codec.encodeMsg(LeftPad(message, EffectiveK(k, m.k)).data, EffectiveK(k, m.k));
      out.Success? && |out.value| == m.n
    ensures Encode(m, message, k).Success?
    ensures |Encode(m, message, k).value| == m.n - EffectiveK(k, m.k)
  {
  }

  /** `check`: the codec's verdict on the padded codeword, or its exception. */
  function Check(m: Manager, message: seq<byte>, ecc: seq<byte>, k: Option<int>): (r: Result<bool, CodecError>)
  {
    var kk := EffectiveK(k, m.k);
    PadWithResolvedK(m, message, ecc, k);
    m.codec.checkMsg(Pad(m, message, Some(kk)).data + RPad(m, ecc, Some(kk)).data, kk)
  }

  /** The arguments `decode` hands to the codec, and the padding it strips afterwards. */
  datatype DecodeCall = DecodeCall(
    codeword: seq<byte>,
    k: int,
    erasures: Option<seq<nat>>,
    onlyErasures: bool,
    leftPad: Option<seq<byte>>)

  /** `positions` lists, in increasing order, exactly the indices of `codeword` in the
      window `[offset, offset + len)` that hold `marker`, and nothing outside it. */
  predicate MarksExactly(positions: seq<nat>, codeword: seq<byte>, offset: nat, len: nat, marker: byte)
  {
    && Increasing(positions)
    && (forall j :: 0 <= j < |positions| ==>
          offset <= positions[j] < offset + len && positions[j] < |codeword| && codeword[positions[j]] == marker)
    && (forall q :: offset <= q < offset + len && q < |codeword| && codeword[q] == marker ==> q in positions)
  }

  /** Shifting by zero places leaves the positions as they are. */
  lemma ShiftByZero(positions: seq<nat>)
    ensures Shift(positions, 0) == positions
  {
  }

  /** A shifted marker position of `data` holds the marker in any `cw` that holds
      `data` at offset `p`, and lies inside that window. */
  lemma ShiftedScanSound(data: seq<byte>, cw: seq<byte>, p: nat, marker: byte)
    requires p + |data| <= |cw|
    requires forall x :: 0 <= x < |data| ==> cw[x + p] == data[x]
    ensures var shifted := Shift(Scan(data, marker), p);
      forall j :: 0 <= j < |shifted| ==>
        p <= shifted[j] < p + |data| && shifted[j] < |cw| && cw[shifted[j]] == marker
  {
  }

  /** Every marker of `cw` inside the window where it holds `data` is a shifted
      marker position of `data`. */
  lemma {:induction false} ShiftedScanComplete(data: seq<byte>, cw: seq<byte>, p: nat, marker: byte)
    requires p + |data| <= |cw|
    requires forall x :: 0 <= x < |data| ==> cw[x + p] == data[x]
    ensures forall q :: p <= q < p + |data| && cw[q] == marker ==> q in Shift(Scan(data, marker), p)
  {
    var found := Scan(data, marker);
    var shifted := Shift(found, p);
    forall q | p <= q < p + |data| && cw[q] == marker
      ensures q in shifted
    {
      assert cw[(q - p) + p] == data[q - p];
      assert q - p in found;
      var j :| 0 <= j < |found| && found[j] == q - p;
      assert shifted[j] == q;
    }
  }

  /** Markers scanned in `data` and moved `p` places right are exactly the markers
      of any `cw` that holds `data` at offset `p`. */
  lemma ShiftedScanMarks(data: seq<byte>, cw: seq<byte>, p: nat, marker: byte)
    requires p + |data| <= |cw|
    requires forall x :: 0 <= x < |data| ==> cw[x + p] == data[x]
    ensures MarksExactly(Shift(Scan(data, marker), p), cw, p, |data|, marker)
  {
    ShiftedScanSound(data, cw, p, marker);
    ShiftedScanComplete(data, cw, p, marker);
  }

  /** The markers found in the unpadded `message + ecc`, moved by the left-pad length,
      are exactly the markers of the codeword that lie over the caller's bytes:
      none falls on padding. */
  lemma ShiftedScanMarksExactly(message: seq<byte>, ecc: seq<byte>, k: int, n: int, marker: byte)
    ensures var p := LeftPad(message, k).PadLength();
      MarksExactly(Shift(Scan(message + ecc, marker), p), Codeword(message, ecc, k, n), p, |message + ecc|, marker)
  {
    CodewordShiftsBytes(message, ecc, k, n);
    ShiftedScanMarks(message + ecc, Codeword(message, ecc, k, n), LeftPad(message, k).PadLength(), marker);
  }

  /** The bookkeeping half of `decode`, before the codec is called: `None` for the
      early exit (only erasures wanted and none found), otherwise the call to make. */
  function PrepareDecode(m: Manager, message: seq<byte>, ecc: seq<byte>, k: Option<int>,
                         enableErasures: bool, marker: byte, onlyErasures: bool): (r: Option<DecodeCall>)
    ensures r.None? <==> enableErasures && onlyErasures && !HasMarker(message + ecc, marker)
    ensures r.Some? ==>
      var kk := EffectiveK(k, m.k);
      var c := r.value;
      && c.k == kk
      && c.onlyErasures == onlyErasures
      && c.codeword == Codeword(message, ecc, kk, m.n)
      && c.leftPad == LeftPad(message, kk).pad
      && (c.erasures.Some? <==> enableErasures)
      && (c.erasures.Some? ==>
            && c.erasures.value == Shift(Scan(message + ecc, marker), LeftPad(message, kk).PadLength())
            && MarksExactly(c.erasures.value, c.codeword, LeftPad(message, kk).PadLength(), |message + ecc|, marker))
  {
    var kk := EffectiveK(k, m.k);
    var found := if enableErasures then Some(Scan(message + ecc, marker)) else None;
    if enableErasures && onlyErasures && |found.value| == 0 then
      None
    else
      PadWithResolvedK(m, message, ecc, k);
      var lp := Pad(m, message, Some(kk));
      var erasures :=
        if found.Some? && |found.value| > 0 && lp.pad.Some? then Some(Shift(found.value, |lp.pad.value|))
        else found;
      assert found.Some? ==> erasures.value == Shift(found.value, lp.PadLength()) by {
        if found.Some? && lp.pad.None? {
          ShiftByZero(found.value);
        }
      }
      ShiftedScanMarksExactly(message, ecc, kk, m.n, marker);
      Some(DecodeCall(lp.data + RPad(m, ecc, Some(kk)).data, kk, erasures, onlyErasures, lp.pad))
  }

  /** `decode`: repair message and ECC through the codec, then strip the left padding. */
  function Decode(m: Manager, message: seq<byte>, ecc: seq<byte>, k: Option<int>,
                  enableErasures: bool, marker: byte, onlyErasures: bool): (r: Result<(seq<byte>, seq<byte>), CodecError>)
    ensures enableErasures && onlyErasures && !HasMarker(message + ecc, marker) ==> r == Success((message, ecc))
  {
    match PrepareDecode(m, message, ecc, k, enableErasures, marker, onlyErasures)
    case None => Success((message, ecc))
    case Some(c) =>
      match m.codec.correctMsg(c.codeword, c.k, c.erasures, c.onlyErasures)
      case Failure(e) => Failure(e)
      case Success(repaired) => Success((StripLeft(repaired.0, c.leftPad), repaired.1))
  }

  /** Whatever the codec repairs reaches the caller: the repaired message minus the
      `max(k - len(message), 0)` bytes of left padding, and the repaired ECC as is. */
  lemma DecodeReturnsRepair(m: Manager, message: seq<byte>, ecc: seq<byte>, k: Option<int>,
                            enableErasures: bool, marker: byte, onlyErasures: bool,
                            msgOut: seq<byte>, eccOut: seq<byte>)
    requires PrepareDecode(m, message, ecc, k, enableErasures, marker, onlyErasures).Some?
    requires var c := PrepareDecode(m, message, ecc, k, enableErasures, marker, onlyErasures).value;
      m.codec.correctMsg(c.codeword, c.k, c.erasures, c.onlyErasures) == Success((msgOut, eccOut))
    ensures Decode(m, message, ecc, k, enableErasures, marker, onlyErasures) ==
      Success((Drop(msgOut, Max(EffectiveK(k, m.k) - |message|, 0)), eccOut))
  {
  }

  /** When the codec's repaired block is the zero padding followed by some bytes, the
      caller gets exactly those bytes; in particular, a codec that hands back the
      padded message unchanged gives the caller the message it passed in. */
  lemma DecodeStripsPadding(m: Manager, message: seq<byte>, ecc: seq<byte>, k: Option<int>,
                            enableErasures: bool, marker: byte, onlyErasures: bool,
                            fixed: seq<byte>, eccOut: seq<byte>)
    requires PrepareDecode(m, message, ecc, k, enableErasures, marker, onlyErasures).Some?
    requires var c := PrepareDecode(m, message, ecc, k, enableErasures, marker, onlyErasures).value;
      m.codec.correctMsg(c.codeword, c.k, c.erasures, c.onlyErasures) ==
        Success((Zeros(Max(c.k - |message|, 0)) + fixed, eccOut))
    ensures Decode(m, message, ecc, k, enableErasures, marker, onlyErasures) == Success((fixed, eccOut))
  {
    var p := Max(EffectiveK(k, m.k) - |message|, 0);
    DecodeReturnsRepair(m, message, ecc, k, enableErasures, marker, onlyErasures, Zeros(p) + fixed, eccOut);
    assert Drop(Zeros(p) + fixed, p) == fixed;
  }

  /** A codec that repairs into a block of the padded size returns a message as long
      as the caller's: exactly the padding is stripped. */
  lemma DecodeKeepsMessageLength(m: Manager, message: seq<byte>, ecc: seq<byte>, k: Option<int>,
                                 enableErasures: bool, marker: byte, onlyErasures: bool,
                                 msgOut: seq<byte>, eccOut: seq<byte>)
    requires PrepareDecode(m, message, ecc, k, enableErasures, marker, onlyErasures).Some?
    requires var c := PrepareDecode(m, message, ecc, k, enableErasures, marker, onlyErasures).value;
      && m.codec.correctMsg(c.codeword, c.k, c.erasures, c.onlyErasures) == Success((msgOut, eccOut))
      && |msgOut| == Max(c.k, |message|)
    ensures Decode(m, message, ecc, k, enableErasures, marker, onlyErasures).Success?
    ensures |Decode(m, message, ecc, k, enableErasures, marker, onlyErasures).value.0| == |message|
  {
    StripKeepsLength(message, EffectiveK(k, m.k), msgOut);
  }

  /** The codec's failure reaches the caller unchanged; the early exit never fails. */
  lemma DecodeFailsOnlyWithCodec(m: Manager, message: seq<byte>, ecc: seq<byte>, k: Option<int>,
                                 enableErasures: bool, marker: byte, onlyErasures: bool)
    ensures Decode(m, message, ecc, k, enableErasures, marker, onlyErasures).Failure? <==>
      var prepared := PrepareDecode(m, message, ecc, k, enableErasures, marker, onlyErasures);
      && prepared.Some?
      && m.codec.correctMsg(prepared.value.codeword, prepared.value.k, prepared.value.erasures,
                            prepared.value.onlyErasures).Failure?
  {
  }

  /** The early exit consults no codec: two managers with the same parameters but
      any two codecs answer alike whenever only erasures are wanted and none is found. */
  lemma EarlyExitIgnoresCodec(m: Manager, other: Codec, message: seq<byte>, ecc: seq<byte>,
                              k: Option<int>, marker: byte)
    requires !HasMarker(message + ecc, marker)
    ensures Decode(m, message, ecc, k, true, marker, true) ==
            Decode(Manager(m.n, m.k, other), message, ecc, k, true, marker, true)
  {
  }

  /** Round trip with padding: for a systematic codec (its block is the padded message
      followed by an ECC of n - k bytes) that leaves an intact block untouched, the
      ECC `encode` returns is that ECC, and decoding the message with it returns that
      message, at its original length, and that ECC. */
  lemma DecodeEncodeRoundTrip(m: Manager, message: seq<byte>, k: Option<int>, ecc: seq<byte>)
    requires |message| <= EffectiveK(k, m.k)
    requires |ecc| == m.n - EffectiveK(k, m.k)
    requires var kk := EffectiveK(k, m.k); var padded := LeftPad(message, kk).data;
      && m.codec.encodeMsg(padded, kk) == Success(padded + ecc)
      && m.codec.correctMsg(padded + ecc, kk, None, false) == Success((padded, ecc))
    ensures Encode(m, message, k) == Success(ecc)
    ensures Decode(m, message, ecc, k, false, 0, false) == Success((message, ecc))
  {
    var kk := EffectiveK(k, m.k);
    var padded := LeftPad(message, kk).data;
    assert (padded + ecc)[|padded|..] == ecc;
    assert RightPad(ecc, m.n - kk).data == ecc;
    DecodeStripsPadding(m, message, ecc, k, false, 0, false, message, ecc);
  }

  /** `check` judges the very codeword `decode` would hand to the codec. */
  lemma CheckSeesDecodeCodeword(m: Manager, message: seq<byte>, ecc: seq<byte>, k: Option<int>,
                                marker: byte, onlyErasures: bool)
    ensures var c := PrepareDecode(m, message, ecc, k, false, marker, onlyErasures);
      c.Some? && Check(m, message, ecc, k) == m.codec.checkMsg(c.value.codeword, c.value.k)
  {
  }

  /** Checking a message against the ECC `encode` gave for it judges exactly the
      block the codec encoded, for a systematic codec. */
  lemma CheckEncoded(m: Manager, message: seq<byte>, k: Option<int>, ecc: seq<byte>)
    requires |message| <= EffectiveK(k, m.k)
    requires |ecc| == m.n - EffectiveK(k, m.k)
    requires var kk := EffectiveK(k, m.k); var padded := LeftPad(message, kk).data;
      m.codec.encodeMsg(padded, kk) == Success(padded + ecc)
    ensures Encode(m, message, k) == Success(ecc)
    ensures Check(m, message, ecc, k) ==
      m.codec.checkMsg(m.codec.encodeMsg(LeftPad(message, EffectiveK(k, m.k)).data, EffectiveK(k, m.k)).value,
                       EffectiveK(k, m.k))
  {
    var kk := EffectiveK(k, m.k);
    var padded := LeftPad(message, kk).data;
    assert (padded + ecc)[|padded|..] == ecc;
    assert RightPad(ecc, m.n - kk).data == ecc;
  }
}
