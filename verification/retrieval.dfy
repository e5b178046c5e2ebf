/**
 * The per-batch logic of `retrieveDropMessages(URI)`: every pulled blob
 * is dispatched on its version byte, trial-decoded against the local
 * identities in turn, and accepted only when a contact of the active
 * identity vouches for the claimed sender.
 *
 * The envelope codec and `registerSender` are parameters; the shuffled
 * contact list is an argument, and the lemmas at the end show that its
 * order does not matter.
 */
module Retrieval {
  import opened Common
  import opened Entities

  /** The only binary drop-message version the service decodes. */
  const Version0: Byte := 0

  /** A structurally valid version-0 envelope, opaque to the service. */
  datatype Envelope = Envelope(raw: Blob)

  /** What `new BinaryDropMessageV0(bytes)` yields. */
  datatype Parse =
    | Parsed(envelope: Envelope)
    | WrongVersion   // QblVersionMismatchException
    | WrongSize      // QblDropInvalidMessageSizeException

  /** What `disassembleMessage(identity)` yields. */
  datatype Disassembly =
    | Decoded(message: DropMessage)
    | NotForIdentity   // null: the identity cannot open the envelope
    | Spoofed          // QblSpoofedSenderException

  /** The collaborators of a retrieval. */
  datatype Codec = Codec(
    parseV0: Blob -> Parse,
    disassemble: (Envelope, Identity) -> Disassembly,
    registerSender: (DropMessage, Contact) -> bool)

  // ---------------------------------------------------------------------
  // Sender authentication
  // ---------------------------------------------------------------------

  /** Contact `c` carries the claimed sender key identifier and `registerSender` accepts it. */
  predicate Vouches(codec: Codec, m: DropMessage, c: Contact)
  {
    c.keyId == m.senderKeyId && codec.registerSender(m, c)
  }

  /** Position `i` holds the first contact of `ccc` that vouches for `m`. */
  predicate FirstVoucher(codec: Codec, m: DropMessage, ccc: seq<Contact>, i: int)
  {
    && 0 <= i < |ccc|
    && Vouches(codec, m, ccc[i])
    && forall j :: 0 <= j < i ==> !Vouches(codec, m, ccc[j])
  }

  /**
   * The scan over the shuffled contacts: a contact with the claimed key
   * identifier on which `registerSender` fails does not end the scan.
   */
  function ScanContacts(codec: Codec, m: DropMessage, ccc: seq<Contact>): (r: Option<nat>)
    ensures r.Some? ==> FirstVoucher(codec, m, ccc, r.value)
    ensures r.None? <==> forall i :: 0 <= i < |ccc| ==> !Vouches(codec, m, ccc[i])
  {
    if ccc == [] then None
    else if Vouches(codec, m, ccc[0]) then Some(0)
    else match ScanContacts(codec, m, ccc[1..])
      case None => None
      case Some(i) => Some(i + 1)
  }

  /** The contact the message is bound to, if any. */
  function Authenticate(codec: Codec, m: DropMessage, ccc: seq<Contact>): (r: Option<Contact>)
    ensures r.Some? ==> r.value in ccc && Vouches(codec, m, r.value)
    ensures r.None? <==> forall i :: 0 <= i < |ccc| ==> !Vouches(codec, m, ccc[i])
  {
    match ScanContacts(codec, m, ccc)
    case None => None
    case Some(i) => Some(ccc[i])
  }

  // ---------------------------------------------------------------------
  // Trial decoding
  // ---------------------------------------------------------------------

  /** Identity `k` opens the envelope and every earlier identity declined it without a spoof signal. */
  predicate DecodesFirst(codec: Codec, e: Envelope, ids: seq<Identity>, k: int)
  {
    && 0 <= k < |ids|
    && codec.disassemble(e, ids[k]).Decoded?
    && forall j :: 0 <= j < k ==> codec.disassemble(e, ids[j]).NotForIdentity?
  }

  /**
   * The identity loop: the position of the identity whose decode ends
   * the trials, or None when a spoof signal comes first or no identity
   * opens the envelope.
   */
  function TrialDecode(codec: Codec, e: Envelope, ids: seq<Identity>): (r: Option<nat>)
    ensures r.Some? ==> DecodesFirst(codec, e, ids, r.value)
    ensures r.None? <==> forall k :: 0 <= k < |ids| ==> !DecodesFirst(codec, e, ids, k)
  {
    if ids == [] then None
    else match codec.disassemble(e, ids[0])
      case Spoofed => None
      case Decoded(_) =>
        assert DecodesFirst(codec, e, ids, 0);
        Some(0)
      case NotForIdentity =>
        var rest := ids[1..];
        assert forall k :: 1 <= k < |ids| ==> (DecodesFirst(codec, e, ids, k) <==> DecodesFirst(codec, e, rest, k - 1)) by {
          forall k | 1 <= k < |ids|
            ensures DecodesFirst(codec, e, ids, k) <==> DecodesFirst(codec, e, rest, k - 1)
          {
            assert forall j :: 0 <= j < k - 1 ==> rest[j] == ids[j + 1];
          }
        }
        match TrialDecode(codec, e, rest)
        case None => None
        case Some(k) => Some(k + 1)
  }

  /** The message the trials produce, if any. */
  function DecodeForSomeIdentity(codec: Codec, e: Envelope, ids: seq<Identity>): Option<DropMessage>
  {
    match TrialDecode(codec, e, ids)
    case None => None
    case Some(k) => Some(codec.disassemble(e, ids[k]).message)
  }

  /**
   * A spoof signal from identity `k`, reached after identities that all
   * declined, ends the trials: whatever identities follow `k`, none is
   * consulted and no message results.
   */
  lemma SpoofEndsTrials(codec: Codec, e: Envelope, ids: seq<Identity>, k: nat, later: seq<Identity>)
    requires k < |ids|
    requires codec.disassemble(e, ids[k]).Spoofed?
    requires forall j :: 0 <= j < k ==> codec.disassemble(e, ids[j]).NotForIdentity?
    ensures DecodeForSomeIdentity(codec, e, ids[..k + 1] + later) == None
  {
    var xs := ids[..k + 1] + later;
    assert xs[k] == ids[k];
    forall n | 0 <= n < |xs|
      ensures !DecodesFirst(codec, e, xs, n)
    {
      if n > k {
        assert !codec.disassemble(e, xs[k]).NotForIdentity?;
      } else if n < k {
        assert xs[n] == ids[n];
      }
    }
  }

  // ---------------------------------------------------------------------
  // One blob, one batch
  // ---------------------------------------------------------------------

  /**
   * The body of the blob loop. An empty blob throws (its version byte is
   * read unguarded); an unknown version or a version-0 blob of the wrong
   * size contributes nothing; a version mismatch escalates to an error.
   */
  function ProcessBlob(codec: Codec, ids: seq<Identity>, ccc: seq<Contact>, blob: Blob): (r: Result<Option<AuthenticatedMessage>>)
    ensures |blob| == 0 ==> r == Err(IndexOutOfBounds)
    ensures |blob| > 0 && blob[0] != Version0 ==> r == Ok(None)
    ensures |blob| > 0 && blob[0] == Version0 && codec.parseV0(blob).WrongSize? ==> r == Ok(None)
    ensures r.Err? <==> |blob| == 0 || (blob[0] == Version0 && codec.parseV0(blob).WrongVersion?)
    ensures r.Err? && |blob| > 0 ==> r.error == VersionMismatch
    ensures r.Ok? && r.value.Some? ==>
              var a := r.value.value;
              && |blob| > 0 && blob[0] == Version0 && codec.parseV0(blob).Parsed?
              && DecodeForSomeIdentity(codec, codec.parseV0(blob).envelope, ids) == Some(a.message)
              && a.sender in ccc
              && Vouches(codec, a.message, a.sender)
    ensures (r.Ok? && r.value.Some?) <==>
              && |blob| > 0 && blob[0] == Version0 && codec.parseV0(blob).Parsed?
              && var m := DecodeForSomeIdentity(codec, codec.parseV0(blob).envelope, ids);
              && m.Some?
              && exists i :: 0 <= i < |ccc| && Vouches(codec, m.value, ccc[i])
  {
    if |blob| == 0 then Err(IndexOutOfBounds)
    else if blob[0] != Version0 then Ok(None)
    else match codec.parseV0(blob)
      case WrongVersion => Err(VersionMismatch)
      case WrongSize => Ok(None)
      case Parsed(e) =>
        match DecodeForSomeIdentity(codec, e, ids)
        case None => Ok(None)
        case Some(m) =>
          match Authenticate(codec, m, ccc)
          case None => Ok(None)
          case Some(c) => Ok(Some(AuthenticatedMessage(m, c)))
  }

  /**
   * The blob loop of `retrieveDropMessages(URI)` over one pulled batch:
   * the accepted messages in blob order, or the first error thrown.
   */
  function ProcessBlobs(codec: Codec, ids: seq<Identity>, ccc: seq<Contact>, blobs: seq<Blob>): (r: Result<seq<AuthenticatedMessage>>)
    ensures r.Err? <==> exists i :: 0 <= i < |blobs| && ProcessBlob(codec, ids, ccc, blobs[i]).Err?
    ensures r.Ok? ==> |r.value| <= |blobs|
    ensures r.Ok? ==> forall a :: a in r.value ==> a.sender in ccc && Vouches(codec, a.message, a.sender)
  {
    if blobs == [] then Ok([])
    else
      var rest := blobs[1..];
      assert forall i :: 0 <= i < |rest| ==> rest[i] == blobs[i + 1];
      match ProcessBlob(codec, ids, ccc, blobs[0])
      case Err(f) => Err(f)
      case Ok(one) =>
        match ProcessBlobs(codec, ids, ccc, rest)
        case Err(f) => Err(f)
        case Ok(more) =>
          if one.Some? then Ok([one.value] + more) else Ok(more)
  }

  /**
   * A successful batch holds exactly the messages its blobs yield one by
   * one: each output comes from some blob, and each accepted blob's
   * message is in the output.
   */
  lemma {:induction false} BatchHoldsAcceptedBlobs(codec: Codec, ids: seq<Identity>, ccc: seq<Contact>, blobs: seq<Blob>)
    requires ProcessBlobs(codec, ids, ccc, blobs).Ok?
    ensures var out := ProcessBlobs(codec, ids, ccc, blobs).value;
            && (forall a :: a in out ==> exists i :: 0 <= i < |blobs| && ProcessBlob(codec, ids, ccc, blobs[i]) == Ok(Some(a)))
            && (forall i :: 0 <= i < |blobs| && ProcessBlob(codec, ids, ccc, blobs[i]).value.Some? ==>
                  ProcessBlob(codec, ids, ccc, blobs[i]).value.value in out)
  {
    if blobs != [] {
      var rest := blobs[1..];
      BatchHoldsAcceptedBlobs(codec, ids, ccc, rest);
      assert forall i :: 0 <= i < |rest| ==> rest[i] == blobs[i + 1];
      var out := ProcessBlobs(codec, ids, ccc, blobs).value;
      var more := ProcessBlobs(codec, ids, ccc, rest).value;
      var one := ProcessBlob(codec, ids, ccc, blobs[0]).value;
      assert out == (if one.Some? then [one.value] + more else more);
      forall a | a in out
        ensures exists i :: 0 <= i < |blobs| && ProcessBlob(codec, ids, ccc, blobs[i]) == Ok(Some(a))
      {
        if one.Some? && a == one.value {
          assert ProcessBlob(codec, ids, ccc, blobs[0]) == Ok(Some(a));
        } else {
          assert a in more;
          var j :| 0 <= j < |rest| && ProcessBlob(codec, ids, ccc, rest[j]) == Ok(Some(a));
          assert ProcessBlob(codec, ids, ccc, blobs[j + 1]) == Ok(Some(a));
        }
      }
      forall i | 0 <= i < |blobs| && ProcessBlob(codec, ids, ccc, blobs[i]).value.Some?
        ensures ProcessBlob(codec, ids, ccc, blobs[i]).value.value in out
      {
        if i > 0 {
          assert blobs[i] == rest[i - 1];
        }
      }
    }
  }

  /**
   * A batch of one blob outputs that blob's message, if it yields one, or
   * throws what the blob throws.
   */
  lemma ProcessBlobsSingle(codec: Codec, ids: seq<Identity>, ccc: seq<Contact>, blob: Blob)
    ensures ProcessBlobs(codec, ids, ccc, [blob]) ==
              match ProcessBlob(codec, ids, ccc, blob)
              case Err(f) => Err(f)
              case Ok(None) => Ok([])
              case Ok(Some(m)) => Ok([m])
  {
    assert [blob][1..] == [];
    assert ProcessBlobs(codec, ids, ccc, []) == Ok([]);
    var one := ProcessBlob(codec, ids, ccc, blob);
    if one.Ok? && one.value.Some? {
      assert [one.value.value] + [] == [one.value.value];
    }
  }

  /**
   * The blob loop splits at any point: the batch `a + b` throws the first
   * exception of `a`, else the first of `b`, and otherwise outputs the
   * messages of `a` followed by those of `b`. With `ProcessBlobsSingle`
   * this pins the output to one message per accepted blob, in blob order,
   * repeats kept.
   */
  lemma {:induction false} ProcessBlobsAppend(codec: Codec, ids: seq<Identity>, ccc: seq<Contact>, a: seq<Blob>, b: seq<Blob>)
    ensures ProcessBlobs(codec, ids, ccc, a + b) ==
              match ProcessBlobs(codec, ids, ccc, a)
              case Err(f) => Err(f)
              case Ok(ma) =>
                match ProcessBlobs(codec, ids, ccc, b)
                case Err(f) => Err(f)
                case Ok(mb) => Ok(ma + mb)
  {
    if a == [] {
      assert a + b == b;
      if ProcessBlobs(codec, ids, ccc, b).Ok? {
        assert [] + ProcessBlobs(codec, ids, ccc, b).value == ProcessBlobs(codec, ids, ccc, b).value;
      }
    } else {
      assert (a + b)[0] == a[0] && (a + b)[1..] == a[1..] + b;
      ProcessBlobsAppend(codec, ids, ccc, a[1..], b);
      var one := ProcessBlob(codec, ids, ccc, a[0]);
      var ra := ProcessBlobs(codec, ids, ccc, a[1..]);
      var rb := ProcessBlobs(codec, ids, ccc, b);
      if one.Ok? && one.value.Some? && ra.Ok? && rb.Ok? {
        assert [one.value.value] + (ra.value + rb.value) == ([one.value.value] + ra.value) + rb.value;
      }
    }
  }

  /** A blob with an unknown version byte is skipped and the batch goes on. */
  lemma UnknownVersionSkipped(codec: Codec, ids: seq<Identity>, ccc: seq<Contact>, blob: Blob, rest: seq<Blob>)
    requires |blob| > 0 && blob[0] != Version0
    ensures ProcessBlobs(codec, ids, ccc, [blob] + rest) == ProcessBlobs(codec, ids, ccc, rest)
  {
    assert ([blob] + rest)[1..] == rest;
  }

  /** A version-0 blob of unexpected size is skipped and the batch goes on. */
  lemma MalformedV0Skipped(codec: Codec, ids: seq<Identity>, ccc: seq<Contact>, blob: Blob, rest: seq<Blob>)
    requires |blob| > 0 && blob[0] == Version0 && codec.parseV0(blob).WrongSize?
    ensures ProcessBlobs(codec, ids, ccc, [blob] + rest) == ProcessBlobs(codec, ids, ccc, rest)
  {
    assert ([blob] + rest)[1..] == rest;
  }

  /**
   * A blob whose envelope is spoofed for the first identity that reacts
   * to it contributes nothing, and the batch goes on.
   */
  lemma SpoofedBlobSkipped(codec: Codec, ids: seq<Identity>, ccc: seq<Contact>, blob: Blob, rest: seq<Blob>, k: nat)
    requires |blob| > 0 && blob[0] == Version0 && codec.parseV0(blob).Parsed?
    requires k < |ids|
    requires codec.disassemble(codec.parseV0(blob).envelope, ids[k]).Spoofed?
    requires forall j :: 0 <= j < k ==> codec.disassemble(codec.parseV0(blob).envelope, ids[j]).NotForIdentity?
    ensures ProcessBlobs(codec, ids, ccc, [blob] + rest) == ProcessBlobs(codec, ids, ccc, rest)
  {
    SpoofEndsTrials(codec, codec.parseV0(blob).envelope, ids, k, ids[k + 1..]);
    assert ids[..k + 1] + ids[k + 1..] == ids;
    assert ([blob] + rest)[1..] == rest;
  }

  // ---------------------------------------------------------------------
  // The shuffle does not matter
  // ---------------------------------------------------------------------

  /** `ccc` lists the contacts of `book` in some order, each exactly once. */
  predicate IsShuffleOf(ccc: seq<Contact>, book: map<KeyId, Contact>)
  {
    && (forall i :: 0 <= i < |ccc| ==> ccc[i].keyId in book && book[ccc[i].keyId] == ccc[i])
    && (forall k :: k in book ==> book[k] in ccc)
    && Distinct(ccc)
  }

  /** Every contact of `book` is filed under its own key identifier. */
  predicate KeyedBook(book: map<KeyId, Contact>)
  {
    forall k :: k in book ==> book[k].keyId == k
  }

  /**
   * Authentication gate, for every shuffle of a book keyed by key
   * identifier: a message is bound exactly when the book holds a contact
   * under the claimed sender key identifier and `registerSender` accepts
   * that contact, and then it is bound to that contact.
   */
  lemma AuthenticateAnyShuffle(codec: Codec, m: DropMessage, book: map<KeyId, Contact>, ccc: seq<Contact>)
    requires KeyedBook(book)
    requires IsShuffleOf(ccc, book)
    ensures Authenticate(codec, m, ccc) ==
              if m.senderKeyId in book && codec.registerSender(m, book[m.senderKeyId])
              then Some(book[m.senderKeyId]) else None
  {
    var s := m.senderKeyId;
    assert forall i :: 0 <= i < |ccc| && Vouches(codec, m, ccc[i]) ==> ccc[i] == book[s];
    if s in book && codec.registerSender(m, book[s]) {
      var i :| 0 <= i < |ccc| && ccc[i] == book[s];
      assert Vouches(codec, m, ccc[i]);
    }
  }

  /** A whole batch yields the same outcome for any two shuffles of the same book. */
  lemma {:induction false} ProcessBlobsAnyShuffle(codec: Codec, ids: seq<Identity>, book: map<KeyId, Contact>,
                                                  ccc1: seq<Contact>, ccc2: seq<Contact>, blobs: seq<Blob>)
    requires KeyedBook(book)
    requires IsShuffleOf(ccc1, book) && IsShuffleOf(ccc2, book)
    ensures ProcessBlobs(codec, ids, ccc1, blobs) == ProcessBlobs(codec, ids, ccc2, blobs)
  {
    if blobs != [] {
      var b := blobs[0];
      if |b| > 0 && b[0] == Version0 && codec.parseV0(b).Parsed? {
        var m := DecodeForSomeIdentity(codec, codec.parseV0(b).envelope, ids);
        if m.Some? {
          AuthenticateAnyShuffle(codec, m.value, book, ccc1);
          AuthenticateAnyShuffle(codec, m.value, book, ccc2);
        }
      }
      assert ProcessBlob(codec, ids, ccc1, b) == ProcessBlob(codec, ids, ccc2, b);
      ProcessBlobsAnyShuffle(codec, ids, book, ccc1, ccc2, blobs[1..]);
    }
  }
}
