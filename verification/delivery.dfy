/**
 * The fan-out sender of LocalQabelService (`sendDropMessage`): the
 * envelope is encoded once, in the caller's thread, and the same bytes
 * are posted to every drop of the recipient; the per-drop outcome map is
 * handed to the optional callback once all drops have been tried.
 *
 * The worker thread is not modelled: the loop it runs is executed in
 * sequence here. Encoding and HTTP are parameters.
 */
module Delivery {
  import opened Common
  import opened Entities

  /** The HTTP status the sender treats as a delivered drop. */
  const HttpOk := 200

  /** What `new BinaryDropMessageV0(message).assembleMessageFor(recipient, sender)` yields. */
  datatype Encoding = Encoded(bytes: Blob) | TooLarge

  /** The collaborators a send talks to. */
  datatype Channel = Channel(
    encode: (DropMessage, Contact, Identity) -> Encoding,   // the envelope codec
    status: (DropUrl, Blob) -> int)                         // response code of `dropHTTPsend(url, bytes)`

  /** One HTTP post of a blob to a drop. */
  datatype Transmission = Transmission(url: DropUrl, bytes: Blob)

  /** Everything a send did: the posts in order, the outcome map, and the callback invocations. */
  datatype Delivery = Delivery(
    transmissions: seq<Transmission>,
    deliveryStatus: map<DropUrl, bool>,
    callbacks: seq<map<DropUrl, bool>>)

  /** The outcome a send promises: one entry per drop, true exactly when the post answered 200. */
  function ExpectedStatus(urls: seq<DropUrl>, bytes: Blob, status: (DropUrl, Blob) -> int): map<DropUrl, bool>
  {
    map u | u in urls :: status(u, bytes) == HttpOk
  }

  /** The body of the worker thread's loop, run over the recipient's drops in order. */
  method FanOut(urls: seq<DropUrl>, bytes: Blob, status: (DropUrl, Blob) -> int)
    returns (sent: seq<Transmission>, outcome: map<DropUrl, bool>)
    ensures |sent| == |urls|
    ensures forall i :: 0 <= i < |urls| ==> sent[i] == Transmission(urls[i], bytes)
    ensures outcome == ExpectedStatus(urls, bytes, status)
  {
    sent := [];
    outcome := map[];
    var i := 0;
    while i < |urls|
      invariant 0 <= i <= |urls|
      invariant |sent| == i
      invariant forall j :: 0 <= j < i ==> sent[j] == Transmission(urls[j], bytes)
      invariant outcome.Keys == set u | u in urls[..i]
      invariant forall u :: u in outcome ==> (outcome[u] <==> status(u, bytes) == HttpOk)
    {
      var url := urls[i];
      var code := status(url, bytes);
      sent := sent + [Transmission(url, bytes)];
      if code == HttpOk {
        outcome := outcome[url := true];
      } else {
        outcome := outcome[url := false];
      }
      assert urls[..i + 1] == urls[..i] + [url];
      i := i + 1;
    }
    assert urls[..i] == urls;
  }

  /**
   * sendDropMessage: encodes once (an oversized payload throws before any
   * post), posts those bytes to every drop of the recipient, and passes
   * the complete outcome map to the callback exactly once when there is a
   * callback.
   */
  method SendDropMessage(ch: Channel, message: DropMessage, recipient: Contact, sender: Identity, hasCallback: bool)
    returns (r: Result<Delivery>)
    ensures r.Err? <==> ch.encode(message, recipient, sender).TooLarge?
    ensures r.Err? ==> r.error == PayloadTooLarge
    ensures r.Ok? ==>
              var bytes := ch.encode(message, recipient, sender).bytes;
              var d := r.value;
              && |d.transmissions| == |recipient.dropUrls|
              && (forall i :: 0 <= i < |d.transmissions| ==>
                    d.transmissions[i] == Transmission(recipient.dropUrls[i], bytes))
              && d.deliveryStatus == ExpectedStatus(recipient.dropUrls, bytes, ch.status)
              && d.callbacks == (if hasCallback then [d.deliveryStatus] else [])
  {
    var encoding := ch.encode(message, recipient, sender);
    if encoding.TooLarge? {
      return Err(PayloadTooLarge);
    }
    var sent, outcome := FanOut(recipient.dropUrls, encoding.bytes, ch.status);
    var callbacks := if hasCallback then [outcome] else [];
    return Ok(Delivery(sent, outcome, callbacks));
  }

  /**
   * Fan-out completeness: a recipient with N distinct drops yields an
   * outcome map of size N, true on the drops that answered 200 and false
   * on the others.
   */
  lemma OutcomeCoversEveryDrop(urls: seq<DropUrl>, bytes: Blob, status: (DropUrl, Blob) -> int)
    requires Distinct(urls)
    ensures |ExpectedStatus(urls, bytes, status)| == |urls|
    ensures forall i :: 0 <= i < |urls| ==>
              (ExpectedStatus(urls, bytes, status)[urls[i]] <==> status(urls[i], bytes) == HttpOk)
  {
    DistinctCardinality(urls);
    assert ExpectedStatus(urls, bytes, status).Keys == set u | u in urls;
  }
}
