/**
 * The service-level retrieval of LocalQabelService: `retrieveDropMessages(URI)`
 * pulls one batch and runs it through the blob loop against a shuffle of
 * the active identity's contacts; `retrieveDropMessages()` does that for
 * every drop of every identity, in order, and concatenates the results.
 *
 * HTTP and the random shuffle are parameters. The shuffle is a function
 * of the contact book; `ProcessBlobsAnyShuffle` shows the order it picks
 * cannot change an outcome, so one function stands for every call.
 */
module Polling {
  import opened Common
  import opened Entities
  import opened Directory
  import opened Retrieval

  /** The collaborators of a retrieval that are not the codec. */
  datatype Inbox = Inbox(
    pull: string -> seq<Blob>,                      // `getDropMessages(uri).getData()`
    shuffle: map<KeyId, Contact> -> seq<Contact>)   // the SecureRandom shuffle of a book's contacts

  /** The contact list a retrieval authenticates against, given the looked-up active book. */
  function Shuffled(inbox: Inbox, s1: Store, i: nat): seq<Contact>
    requires i < |s1.books|
  {
    inbox.shuffle(s1.books[i].entries)
  }

  /** The shuffle really permutes the active identity's book. */
  predicate ShufflesActiveBook(s: Store, inbox: Inbox)
  {
    && ActiveContacts(s).Ok?
    && var (s1, i) := ActiveContacts(s).value;
    && IsShuffleOf(Shuffled(inbox, s1, i), s1.books[i].entries)
  }

  /**
   * What a retrieval leaves behind: the store as it stands afterwards,
   * and the messages or the exception it throws. A thrown exception does
   * not undo the books `getContacts()` has already persisted.
   */
  datatype Retrieved = Retrieved(store: Store, messages: Result<seq<AuthenticatedMessage>>)

  /**
   * retrieveDropMessages(uri): the active book is looked up (and created
   * when missing) and one pulled batch is processed against its shuffled
   * contacts.
   */
  function RetrieveFrom(s: Store, codec: Codec, inbox: Inbox, ids: seq<Identity>, uri: string): (r: Retrieved)
    ensures ActiveContacts(s).Err? ==> r == Retrieved(s, Err(NullPointer))
    ensures ActiveContacts(s).Ok? ==>
              var (s1, i) := ActiveContacts(s).value;
              && r.store == s1
              && (r.messages.Err? <==>
                    exists j :: 0 <= j < |inbox.pull(uri)| && ProcessBlob(codec, ids, Shuffled(inbox, s1, i), inbox.pull(uri)[j]).Err?)
    ensures r.store.identities == s.identities && r.store.lastActiveId == s.lastActiveId
    ensures r.messages.Ok? ==> |r.messages.value| <= |inbox.pull(uri)|
    ensures r.messages.Ok? && ShufflesActiveBook(s, inbox) && WellFormed(s) ==>
              var (s1, i) := ActiveContacts(s).value;
              var book := s1.books[i].entries;
              forall a :: a in r.messages.value ==>
                && a.message.senderKeyId in book
                && a.sender == book[a.message.senderKeyId]
                && codec.registerSender(a.message, a.sender)
  {
    match ActiveContacts(s)
    case Err(f) => Retrieved(s, Err(f))
    case Ok((s1, i)) =>
      match ProcessBlobs(codec, ids, Shuffled(inbox, s1, i), inbox.pull(uri))
      case Err(f) => Retrieved(s1, Err(f))
      case Ok(ms) =>
        assert IsShuffleOf(Shuffled(inbox, s1, i), s1.books[i].entries) && WellFormed(s) ==>
          forall a :: a in ms ==> a.sender == s1.books[i].entries[a.message.senderKeyId] by {
          if IsShuffleOf(Shuffled(inbox, s1, i), s1.books[i].entries) && WellFormed(s) {
            GetContactsPreservesWellFormed(s, ActiveIdentity(s));
            assert s1.books[i].WellKeyed();
          }
        }
        Retrieved(s1, Ok(ms))
  }

  /**
   * Without an active identity, a retrieval persists a null-owner book
   * whether or not its batch throws, and every later retrieval then throws
   * at the contact lookup.
   */
  lemma NoIdentityPoisonsNextRetrieval(s: Store, codec: Codec, inbox: Inbox, ids: seq<Identity>, uri1: string, uri2: string)
    requires ActiveIdentity(s).None?
    requires ActiveContacts(s).Ok?
    ensures var s1 := RetrieveFrom(s, codec, inbox, ids, uri1).store;
            RetrieveFrom(s1, codec, inbox, ids, uri2) == Retrieved(s1, Err(NullPointer))
  {
    var s1 := RetrieveFrom(s, codec, inbox, ids, uri1).store;
    assert s1 == GetContacts(s, None).value.0;
    NullOwnerBookPoisonsLookups(s, None);
    assert ActiveIdentity(s1) == None by {
      assert s1.identities == s.identities && s1.lastActiveId == s.lastActiveId;
    }
  }

  /** The inner loop: every drop in `drops`, in order, threading the store. */
  function RetrieveDrops(s: Store, codec: Codec, inbox: Inbox, ids: seq<Identity>, drops: seq<DropUrl>): (r: Retrieved)
    ensures r.store.identities == s.identities && r.store.lastActiveId == s.lastActiveId
    ensures r.messages.Ok? ==> forall a :: a in r.messages.value ==> Vouches(codec, a.message, a.sender)
    decreases |drops|
  {
    if drops == [] then Retrieved(s, Ok([]))
    else
      var first := RetrieveFrom(s, codec, inbox, ids, drops[0].uri);
      match first.messages
      case Err(_) => first
      case Ok(ms) => Prepend(ms, RetrieveDrops(first.store, codec, inbox, ids, drops[1..]))
  }

  /** The outcome of the remaining calls, with the messages already collected in front. */
  function Prepend(ms: seq<AuthenticatedMessage>, r: Retrieved): Retrieved
  {
    match r.messages
    case Err(f) => r
    case Ok(more) => Retrieved(r.store, Ok(ms + more))
  }

  /** Runs the drops `b` after an outcome `r`, unless `r` threw. */
  function ThenDrops(r: Retrieved, codec: Codec, inbox: Inbox, ids: seq<Identity>, b: seq<DropUrl>): Retrieved
  {
    match r.messages
    case Err(_) => r
    case Ok(ms) => Prepend(ms, RetrieveDrops(r.store, codec, inbox, ids, b))
  }

  /** The outer loop: the drops of every identity in `owners`, in order. */
  function RetrieveOwners(s: Store, codec: Codec, inbox: Inbox, ids: seq<Identity>, owners: seq<Identity>): (r: Retrieved)
    ensures r.store.identities == s.identities && r.store.lastActiveId == s.lastActiveId
    ensures r.messages.Ok? ==> forall a :: a in r.messages.value ==> Vouches(codec, a.message, a.sender)
    decreases |owners|
  {
    if owners == [] then Retrieved(s, Ok([]))
    else
      var first := RetrieveDrops(s, codec, inbox, ids, owners[0].dropUrls);
      match first.messages
      case Err(_) => first
      case Ok(ms) => Prepend(ms, RetrieveOwners(first.store, codec, inbox, ids, owners[1..]))
  }

  /**
   * retrieveDropMessages(): every drop of every identity of `ids`, an
   * enumeration of `getIdentities()` that trial decoding uses as well.
   */
  function RetrieveAll(s: Store, codec: Codec, inbox: Inbox, ids: seq<Identity>): (r: Retrieved)
    requires EnumeratesIdentities(s, ids)
    ensures r.store.identities == s.identities && r.store.lastActiveId == s.lastActiveId
    ensures r.messages.Ok? ==> forall a :: a in r.messages.value ==> Vouches(codec, a.message, a.sender)
  {
    RetrieveOwners(s, codec, inbox, ids, ids)
  }

  // ---------------------------------------------------------------------
  // Reference definition: one flat list of drops, one contact list
  // ---------------------------------------------------------------------

  /** The drops of `owners`, identity by identity, duplicates kept. */
  function AllDrops(owners: seq<Identity>): (r: seq<DropUrl>)
    ensures |owners| > 0 ==> r == owners[0].dropUrls + AllDrops(owners[1..])
  {
    if owners == [] then [] else owners[0].dropUrls + AllDrops(owners[1..])
  }

  /** A drop is in the flat list exactly when one of the owners lists it. */
  lemma {:induction false} AllDropsMembership(owners: seq<Identity>, d: DropUrl)
    ensures d in AllDrops(owners) <==> exists x :: x in owners && d in x.dropUrls
  {
    if owners != [] {
      AllDropsMembership(owners[1..], d);
      if d in AllDrops(owners[1..]) {
        var x :| x in owners[1..] && d in x.dropUrls;
        assert x in owners;
      }
      forall x | x in owners && d in x.dropUrls
        ensures d in AllDrops(owners)
      {
        if x != owners[0] {
          assert x in owners[1..];
        }
      }
    }
  }

  /**
   * The drops `retrieveDropMessages()` visits are exactly the drops of the
   * identities `getIdentities()` files.
   */
  lemma AllDropsAreFiledDrops(s: Store, ids: seq<Identity>, d: DropUrl)
    requires EnumeratesIdentities(s, ids)
    ensures d in AllDrops(ids) <==>
              exists x :: x in s.identities && FiledIdentity(s, x.keyId) == Some(x) && d in x.dropUrls
  {
    AllDropsMembership(ids, d);
  }

  /** The number of blobs the drops hold. */
  function PulledBlobs(pull: string -> seq<Blob>, drops: seq<DropUrl>): nat
  {
    if drops == [] then 0 else |pull(drops[0].uri)| + PulledBlobs(pull, drops[1..])
  }

  /**
   * The batches of `drops`, each processed against the same contact list,
   * concatenated in order; the first failing batch fails the whole.
   */
  function Gather(codec: Codec, ids: seq<Identity>, ccc: seq<Contact>, pull: string -> seq<Blob>, drops: seq<DropUrl>)
    : (r: Result<seq<AuthenticatedMessage>>)
    ensures r.Ok? ==> |r.value| <= PulledBlobs(pull, drops)
    ensures r.Ok? ==> forall a :: a in r.value ==> a.sender in ccc && Vouches(codec, a.message, a.sender)
  {
    if drops == [] then Ok([])
    else match ProcessBlobs(codec, ids, ccc, pull(drops[0].uri))
      case Err(f) => Err(f)
      case Ok(ms) =>
        match Gather(codec, ids, ccc, pull, drops[1..])
        case Err(f) => Err(f)
        case Ok(more) => Ok(ms + more)
  }

  /** Retrieving from `a + b` is retrieving from `a`, then from `b` in the store `a` left. */
  lemma {:induction false} RetrieveDropsAppend(s: Store, codec: Codec, inbox: Inbox, ids: seq<Identity>, a: seq<DropUrl>, b: seq<DropUrl>)
    ensures RetrieveDrops(s, codec, inbox, ids, a + b) == ThenDrops(RetrieveDrops(s, codec, inbox, ids, a), codec, inbox, ids, b)
    decreases |a|
  {
    if a == [] {
      assert a + b == b;
      var r := RetrieveDrops(s, codec, inbox, ids, b);
      assert Prepend([], r) == r by {
        if r.messages.Ok? {
          assert [] + r.messages.value == r.messages.value;
        }
      }
    } else {
      assert (a + b)[0] == a[0] && (a + b)[1..] == a[1..] + b;
      var first := RetrieveFrom(s, codec, inbox, ids, a[0].uri);
      if first.messages.Ok? {
        var ms := first.messages.value;
        RetrieveDropsAppend(first.store, codec, inbox, ids, a[1..], b);
        var mid := RetrieveDrops(first.store, codec, inbox, ids, a[1..]);
        if mid.messages.Ok? {
          var last := RetrieveDrops(mid.store, codec, inbox, ids, b);
          if last.messages.Ok? {
            var more := mid.messages.value;
            assert ms + (more + last.messages.value) == (ms + more) + last.messages.value;
          }
        }
      }
    }
  }

  /** The nested identity/drop loops visit exactly the flat list of all drops. */
  lemma {:induction false} RetrieveOwnersIsFlat(s: Store, codec: Codec, inbox: Inbox, ids: seq<Identity>, owners: seq<Identity>)
    ensures RetrieveOwners(s, codec, inbox, ids, owners) == RetrieveDrops(s, codec, inbox, ids, AllDrops(owners))
    decreases |owners|
  {
    if owners != [] {
      RetrieveDropsAppend(s, codec, inbox, ids, owners[0].dropUrls, AllDrops(owners[1..]));
      var first := RetrieveDrops(s, codec, inbox, ids, owners[0].dropUrls);
      if first.messages.Ok? {
        RetrieveOwnersIsFlat(first.store, codec, inbox, ids, owners[1..]);
      }
    }
  }

  /**
   * Once an active identity's book has been looked up, every further
   * drop sees the same store and the same contact list: retrieving from a
   * list of drops is the in-order concatenation of the batches, and the
   * looked-up store remains even when a batch throws.
   */
  lemma {:induction false} RetrieveDropsIsGather(s: Store, codec: Codec, inbox: Inbox, ids: seq<Identity>, drops: seq<DropUrl>)
    requires ActiveIdentity(s).Some?
    requires ActiveContacts(s).Ok?
    requires drops != []
    ensures var (s1, i) := ActiveContacts(s).value;
            RetrieveDrops(s, codec, inbox, ids, drops) == Retrieved(s1, Gather(codec, ids, Shuffled(inbox, s1, i), inbox.pull, drops))
    decreases |drops|
  {
    var (s1, i) := ActiveContacts(s).value;
    var ccc := Shuffled(inbox, s1, i);
    GetContactsIdempotent(s, ActiveIdentity(s).value);
    assert ActiveIdentity(s1) == ActiveIdentity(s) by {
      assert s1.identities == s.identities && s1.lastActiveId == s.lastActiveId;
    }
    assert ActiveContacts(s1) == Ok((s1, i));
    var batch := ProcessBlobs(codec, ids, ccc, inbox.pull(drops[0].uri));
    if batch.Ok? {
      if |drops| > 1 {
        RetrieveDropsIsGather(s1, codec, inbox, ids, drops[1..]);
      } else {
        assert drops[1..] == [];
        assert batch.value + [] == batch.value;
      }
    }
  }

  /**
   * retrieveDropMessages() returns the in-order concatenation of the
   * batches of every drop of every identity, each authenticated against
   * the active identity's book, and leaves the looked-up store behind
   * even when it throws; with no drops at all it returns nothing and
   * touches nothing.
   */
  lemma RetrieveAllIsConcatenation(s: Store, codec: Codec, inbox: Inbox, ids: seq<Identity>)
    requires EnumeratesIdentities(s, ids)
    requires ActiveIdentity(s).Some?
    requires ActiveContacts(s).Ok?
    ensures var (s1, i) := ActiveContacts(s).value;
            RetrieveAll(s, codec, inbox, ids) ==
              if AllDrops(ids) == [] then Retrieved(s, Ok([]))
              else Retrieved(s1, Gather(codec, ids, Shuffled(inbox, s1, i), inbox.pull, AllDrops(ids)))
  {
    RetrieveOwnersIsFlat(s, codec, inbox, ids, ids);
    if AllDrops(ids) != [] {
      RetrieveDropsIsGather(s, codec, inbox, ids, AllDrops(ids));
    }
  }

  /**
   * No deduplication: when two persisted identities share their only
   * drop, the drop is pulled twice and its messages come out twice.
   */
  lemma SharedDropPulledTwice(s: Store, codec: Codec, inbox: Inbox, a: Identity, b: Identity, u: DropUrl)
    requires EnumeratesIdentities(s, [a, b])
    requires ActiveIdentity(s).Some?
    requires ActiveContacts(s).Ok?
    requires a.dropUrls == [u] && b.dropUrls == [u]
    ensures var (s1, i) := ActiveContacts(s).value;
            var batch := ProcessBlobs(codec, [a, b], Shuffled(inbox, s1, i), inbox.pull(u.uri));
            batch.Ok? ==> RetrieveAll(s, codec, inbox, [a, b]) == Retrieved(s1, Ok(batch.value + batch.value))
  {
    var ids := [a, b];
    var (s1, i) := ActiveContacts(s).value;
    var ccc := Shuffled(inbox, s1, i);
    var batch := ProcessBlobs(codec, ids, ccc, inbox.pull(u.uri));
    assert AllDrops(ids) == [u, u] by {
      assert ids[1..][1..] == [];
      assert AllDrops(ids[1..]) == [u] + AllDrops([]);
    }
    RetrieveAllIsConcatenation(s, codec, inbox, ids);
    if batch.Ok? {
      var ms := batch.value;
      assert [u, u][1..] == [u] && [u][1..] == [];
      assert Gather(codec, ids, ccc, inbox.pull, [u]) == Ok(ms) by {
        assert ms + [] == ms;
      }
      assert Gather(codec, ids, ccc, inbox.pull, [u, u]) == Ok(ms + ms);
    }
  }

  /**
   * Authentication gate across a whole retrieval, for any shuffle: every
   * message returned carries a sender filed in the active identity's book
   * under the claimed key identifier, accepted by `registerSender`, and
   * there are no more messages than pulled blobs.
   */
  lemma RetrieveAllGate(s: Store, codec: Codec, inbox: Inbox, ids: seq<Identity>)
    requires EnumeratesIdentities(s, ids)
    requires WellFormed(s)
    requires ActiveIdentity(s).Some?
    requires ShufflesActiveBook(s, inbox)
    requires RetrieveAll(s, codec, inbox, ids).messages.Ok?
    ensures var (s1, i) := ActiveContacts(s).value;
            var book := s1.books[i].entries;
            var ms := RetrieveAll(s, codec, inbox, ids).messages.value;
            && |ms| <= PulledBlobs(inbox.pull, AllDrops(ids))
            && forall a :: a in ms ==>
                 && a.message.senderKeyId in book
                 && a.sender == book[a.message.senderKeyId]
                 && codec.registerSender(a.message, a.sender)
  {
    RetrieveAllIsConcatenation(s, codec, inbox, ids);
    GetContactsPreservesWellFormed(s, ActiveIdentity(s));
    var (s1, i) := ActiveContacts(s).value;
    assert s1.books[i].WellKeyed();
  }

  /** The shuffle the retrieval happens to pick cannot change what it returns. */
  lemma RetrieveAllAnyShuffle(s: Store, codec: Codec, inbox1: Inbox, inbox2: Inbox, ids: seq<Identity>)
    requires EnumeratesIdentities(s, ids)
    requires WellFormed(s)
    requires ActiveIdentity(s).Some?
    requires inbox1.pull == inbox2.pull
    requires ShufflesActiveBook(s, inbox1) && ShufflesActiveBook(s, inbox2)
    ensures RetrieveAll(s, codec, inbox1, ids) == RetrieveAll(s, codec, inbox2, ids)
  {
    RetrieveAllIsConcatenation(s, codec, inbox1, ids);
    RetrieveAllIsConcatenation(s, codec, inbox2, ids);
    GetContactsPreservesWellFormed(s, ActiveIdentity(s));
    var (s1, i) := ActiveContacts(s).value;
    assert s1.books[i].WellKeyed();
    GatherAnyShuffle(codec, ids, s1.books[i].entries, Shuffled(inbox1, s1, i), Shuffled(inbox2, s1, i), inbox1.pull, AllDrops(ids));
  }

  /** Gathering yields the same outcome for any two shuffles of the same book. */
  lemma {:induction false} GatherAnyShuffle(codec: Codec, ids: seq<Identity>, book: map<KeyId, Contact>,
                                            ccc1: seq<Contact>, ccc2: seq<Contact>, pull: string -> seq<Blob>, drops: seq<DropUrl>)
    requires KeyedBook(book)
    requires IsShuffleOf(ccc1, book) && IsShuffleOf(ccc2, book)
    ensures Gather(codec, ids, ccc1, pull, drops) == Gather(codec, ids, ccc2, pull, drops)
  {
    if drops != [] {
      ProcessBlobsAnyShuffle(codec, ids, book, ccc1, ccc2, pull(drops[0].uri));
      GatherAnyShuffle(codec, ids, book, ccc1, ccc2, pull, drops[1..]);
    }
  }
}
