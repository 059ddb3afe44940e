/** Erasure bookkeeping: finding the positions of erasure markers in the
    caller's message and ECC, and moving them onto the padded codeword. */
module Erasures {
  import opened Bytes

  /** Positions strictly increase along the list. */
  predicate Increasing(s: seq<nat>)
  {
    forall i, j :: 0 <= i < j < |s| ==> s[i] < s[j]
  }

  /** Some byte of `data` is the erasure marker. */
  predicate HasMarker(data: seq<byte>, marker: byte)
  {
    exists i :: 0 <= i < |data| && data[i] == marker
  }

  /** The positions at or after `from` where `data` holds `marker`, in increasing order. */
  function ScanFrom(data: seq<byte>, marker: byte, from: nat): (r: seq<nat>)
    requires from <= |data|
    ensures Increasing(r)
    ensures forall j :: 0 <= j < |r| ==> from <= r[j] < |data| && data[r[j]] == marker
    ensures forall p :: from <= p < |data| && data[p] == marker ==> p in r
    decreases |data| - from
  {
    if from == |data| then []
    else if data[from] == marker then [from] + ScanFrom(data, marker, from + 1)
    else ScanFrom(data, marker, from + 1)
  }

  /** `[i for i in xrange(len(data)) if data[i] == marker]`: exactly the indices of
      `data` that hold the marker, each once, in increasing order. */
  function Scan(data: seq<byte>, marker: byte): (r: seq<nat>)
    ensures Increasing(r)
    ensures forall j :: 0 <= j < |r| ==> r[j] < |data| && data[r[j]] == marker
    ensures forall p :: 0 <= p < |data| && data[p] == marker ==> p in r
    ensures |r| == 0 <==> !HasMarker(data, marker)
  {
    var r := ScanFrom(data, marker, 0);
    assert HasMarker(data, marker) ==> |r| > 0 by {
      if HasMarker(data, marker) {
        var i :| 0 <= i < |data| && data[i] == marker;
        assert i in r;
      }
    }
    assert |r| > 0 ==> HasMarker(data, marker) by {
      if |r| > 0 {
        assert data[r[0]] == marker;
      }
    }
    r
  }

  /** `[x + offset for x in positions]`: every position moved `offset` places right. */
  function Shift(positions: seq<nat>, offset: nat): (r: seq<nat>)
    ensures |r| == |positions|
    ensures forall j :: 0 <= j < |r| ==> r[j] == positions[j] + offset
    ensures Increasing(positions) ==> Increasing(r)
  {
    seq(|positions|, j requires 0 <= j < |positions| => positions[j] + offset)
  }
}
