/** What is in the buffer, and what the peer takes it for, after several attempts at encoding one request. */
module Retries {
  import opened Common
  import opened Codec
  import opened Codecs
  import Utf8

  /** How often `encode_request` tries. */
  const MAX_RETRY_HEURISTIC := 4

  /** One encoding for each of the first `n` candidates, in order. */
  function Encodings(kind: Kind, ids: seq<RequestId>, n: nat, name: Bytes, params: Bytes): Bytes
    requires n <= |ids|
  {
    if n == 0 then []
    else Encodings(kind, ids, n - 1, name, params) + RequestFrame(kind, ids[n - 1], name, params)
  }

  lemma NoEncodings(kind: Kind, ids: seq<RequestId>, name: Bytes, params: Bytes)
    ensures Encodings(kind, ids, 0, name, params) == []
  {
  }

  lemma NextEncoding(kind: Kind, ids: seq<RequestId>, n: nat, name: Bytes, params: Serialized)
    requires n < |ids|
    ensures params.complete ==>
              AfterRequest(kind, Encodings(kind, ids, n, name, params.bytes), ids[n], name, params)
              == Encodings(kind, ids, n + 1, name, params.bytes)
  {
  }

  lemma {:induction false} EncodingsSplit(kind: Kind, ids: seq<RequestId>, n: nat, name: Bytes, params: Bytes)
    returns (rest: Bytes)
    requires 0 < n <= |ids|
    ensures Encodings(kind, ids, n, name, params) == RequestFrame(kind, ids[0], name, params) + rest
    ensures n == 1 ==> rest == []
  {
    hide RequestFrame;
    if n == 1 {
      assert Encodings(kind, ids, 0, name, params) == [];
      rest := [];
    } else {
      var inner := EncodingsSplit(kind, ids, n - 1, name, params);
      rest := inner + RequestFrame(kind, ids[n - 1], name, params);
    }
  }

  lemma FrameAbsorbs(kind: Kind, id: RequestId, name: Bytes, params: Bytes, more: Bytes)
    ensures RequestFrame(kind, id, name, params) + more == RequestFrame(kind, id, name, params + more)
  {
  }

  /** A frame sent after retries carries the id of the first attempt, with the later encodings as trailing
      parameters. */
  lemma RetriedFrameCarriesFirstId(kind: Kind, ids: seq<RequestId>, n: nat, name: Bytes, params: Bytes)
    returns (rest: Bytes)
    requires 0 < n <= |ids| && Utf8.Valid(name) && |Encodings(kind, ids, n, name, params)| < U32_SIZE
    ensures var frame := Encodings(kind, ids, n, name, params);
            IsRequestOf(Decode(kind, frame), frame, RawIdOf(kind, ids[0]), name, params + rest)
    ensures n == 1 ==> rest == []
  {
    hide Utf8.Valid, RequestFrame, Decode, RawIdOf, Encodings;
    rest := EncodingsSplit(kind, ids, n, name, params);
    FrameAbsorbs(kind, ids[0], name, params, rest);
    RequestArrives(kind, ids[0], name, params + rest);
  }

  /** The peer takes the frame for a request under this id. */
  predicate ArrivesUnder(kind: Kind, frame: Bytes, id: RequestId) {
    var d := Decode(kind, frame);
    d.Frame? && d.frame.Request? && d.frame.rawId.Within(frame) && d.frame.rawId.Of(frame) == RawIdOf(kind, id)
  }

  lemma SameRawId(kind: Kind, i: RequestId, j: RequestId)
    ensures RawIdOf(kind, i) == RawIdOf(kind, j) <==> WireId(kind, i) == WireId(kind, j)
  {
    if RawIdOf(kind, i) == RawIdOf(kind, j) {
      RawIdInjective(kind, i, j);
    }
  }

  /** The frame of `n` attempts arrives under the id of the last one exactly when the first one had the same. */
  lemma SentUnderLastIdIff(kind: Kind, ids: seq<RequestId>, n: nat, name: Bytes, params: Bytes)
    requires 0 < n <= |ids| && Utf8.Valid(name) && |Encodings(kind, ids, n, name, params)| < U32_SIZE
    ensures ArrivesUnder(kind, Encodings(kind, ids, n, name, params), ids[n - 1])
       <==> WireId(kind, ids[0]) == WireId(kind, ids[n - 1])
  {
    hide Utf8.Valid, Decode, RawIdOf, WireId, Encodings;
    var rest := RetriedFrameCarriesFirstId(kind, ids, n, name, params);
    SameRawId(kind, ids[0], ids[n - 1]);
  }

  lemma NotifyAbsorbs(kind: Kind, name: Bytes, params: Bytes, more: Bytes)
    ensures NotifyFrame(kind, name, params) + more == NotifyFrame(kind, name, params + more)
  {
  }

  /** The peer takes the frame for a request under this id, with this name and parameters that begin with these. */
  predicate CarriesRequest(kind: Kind, frame: Bytes, id: RequestId, name: Bytes, params: Bytes) {
    var d := Decode(kind, frame);
    && d.Frame? && d.frame.Request?
    && d.frame.rawId.Within(frame) && d.frame.name.Within(frame) && d.frame.params.Within(frame)
    && d.frame.rawId.Of(frame) == RawIdOf(kind, id) && d.frame.name.Of(frame) == name
    && params <= d.frame.params.Of(frame)
  }

  lemma EncodingsCarry(kind: Kind, ids: seq<RequestId>, n: nat, name: Bytes, params: Bytes)
    requires 0 < n <= |ids| && Utf8.Valid(name) && |Encodings(kind, ids, n, name, params)| < U32_SIZE
    ensures CarriesRequest(kind, Encodings(kind, ids, n, name, params), ids[0], name, params)
  {
    hide Utf8.Valid, RequestFrame, Decode, RawIdOf, Encodings;
    var rest := RetriedFrameCarriesFirstId(kind, ids, n, name, params);
  }
}
