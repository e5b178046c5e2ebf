/**
 * The per-identity contact directory of LocalQabelService: the persisted
 * identities, the active-identity preference, and one contact book
 * (`Contacts` entity) per identity, created lazily by `getContacts`.
 *
 * Persistence is an in-memory value: `Store.books` is the list the
 * persistence layer returns for `getEntities(Contacts.class)`, in its
 * order; persisting a new book appends it, updating a book overwrites it
 * in place.
 */
module Directory {
  import opened Common
  import opened Entities

  /**
   * A contact book. The owner is a nullable reference: `getContacts(null)`
   * (no active identity) creates a book whose owner is null. Contacts are
   * filed under their key identifier.
   */
  datatype ContactBook = ContactBook(owner: Option<Identity>, entries: map<KeyId, Contact>)
  {
    /** Every contact is filed under its own key identifier. */
    predicate WellKeyed()
    {
      forall k :: k in entries ==> entries[k].keyId == k
    }
  }

  /** The persisted state the directory operations read and write. */
  datatype Store = Store(
    identities: seq<Identity>,   // persisted identities, in persistence order
    books: seq<ContactBook>,     // persisted contact books, in persistence order
    lastActiveId: KeyId)         // the PREF_LAST_ACTIVE_IDENTITY preference, "" when unset

  /** A store nobody has written to yet. */
  const EmptyStore := Store([], [], "")

  function IdentityKey(i: Identity): KeyId { i.keyId }

  function BookOwner(b: ContactBook): Option<Identity> { b.owner }

  /** No two books belong to the same owner. */
  predicate UniqueOwners(books: seq<ContactBook>)
  {
    forall i, j :: 0 <= i < j < |books| ==> books[i].owner != books[j].owner
  }

  /** No two persisted identities share a key identifier. */
  predicate UniqueKeyIds(ids: seq<Identity>)
  {
    forall i, j :: 0 <= i < j < |ids| ==> ids[i].keyId != ids[j].keyId
  }

  /** The invariant the directory operations keep. */
  predicate WellFormed(s: Store)
  {
    && UniqueOwners(s.books)
    && forall i :: 0 <= i < |s.books| ==> s.books[i].WellKeyed()
  }

  // ---------------------------------------------------------------------
  // Identities and the active identity
  // ---------------------------------------------------------------------

  /**
   * getIdentities: every persisted identity put into an `Identities`
   * container, which files identities under their key identifier.
   */
  function Identities(s: Store): (r: map<KeyId, Identity>)
    ensures r.Keys == set i | i in s.identities :: i.keyId
    ensures forall i :: LastWithKey(s.identities, IdentityKey, i) ==> r[s.identities[i].keyId] == s.identities[i]
  {
    PutAll(s.identities, IdentityKey)
  }

  /** The position of the last identity with key identifier `key`, if any. */
  function LastKeyed(ids: seq<Identity>, key: KeyId): (r: Option<nat>)
    ensures r.Some? ==> r.value < |ids| && ids[r.value].keyId == key
    ensures r.Some? ==> forall j :: r.value < j < |ids| ==> ids[j].keyId != key
    ensures r.None? <==> forall j :: 0 <= j < |ids| ==> ids[j].keyId != key
  {
    if ids == [] then None
    else if ids[|ids| - 1].keyId == key then Some(|ids| - 1)
    else LastKeyed(ids[..|ids| - 1], key)
  }

  /**
   * `getIdentities().getByKeyIdentifier(key)`: the identity the
   * `Identities` container files under `key` (the last one persisted with
   * it), or null.
   */
  function FiledIdentity(s: Store, key: KeyId): (r: Option<Identity>)
    ensures r.Some? <==> exists i :: i in s.identities && i.keyId == key
    ensures r.Some? ==> r.value in s.identities && r.value.keyId == key
  {
    match LastKeyed(s.identities, key)
    case None => None
    case Some(i) => Some(s.identities[i])
  }

  /** The search above is the lookup in the container `getIdentities()` builds. */
  lemma FiledIdentityIsLookup(s: Store, key: KeyId)
    ensures FiledIdentity(s, key) == if key in Identities(s) then Some(Identities(s)[key]) else None
  {
    match LastKeyed(s.identities, key)
    case None =>
    case Some(i) =>
      assert LastWithKey(s.identities, IdentityKey, i);
  }

  /** getActiveIdentity: the identity filed under the stored key identifier, or null. */
  function ActiveIdentity(s: Store): (r: Option<Identity>)
    ensures r.Some? <==> exists i :: i in s.identities && i.keyId == s.lastActiveId
    ensures r.Some? ==> r.value in s.identities && r.value.keyId == s.lastActiveId
  {
    FiledIdentity(s, s.lastActiveId)
  }

  /**
   * `ids` is an enumeration of `getIdentities().getIdentities()`: every
   * identity the container files, each exactly once, in some order.
   */
  predicate EnumeratesIdentities(s: Store, ids: seq<Identity>)
  {
    && Distinct(ids)
    && (forall x :: x in ids ==> FiledIdentity(s, x.keyId) == Some(x))
    && (forall x :: x in s.identities && FiledIdentity(s, x.keyId) == Some(x) ==> x in ids)
  }

  /** setActiveIdentity: remembers the identity's key identifier. */
  function SetActiveIdentity(s: Store, identity: Identity): (r: Store)
    ensures r.identities == s.identities && r.books == s.books
    ensures r.lastActiveId == identity.keyId
  {
    s.(lastActiveId := identity.keyId)
  }

  /** Setting a persisted identity active makes it the active identity, and only then. */
  lemma ActiveAfterSet(s: Store, identity: Identity)
    requires UniqueKeyIds(s.identities)
    ensures ActiveIdentity(SetActiveIdentity(s, identity)) == Some(identity) <==> identity in s.identities
  {
    var t := SetActiveIdentity(s, identity);
    if identity in s.identities {
      var k :| 0 <= k < |s.identities| && s.identities[k] == identity;
      assert LastWithKey(t.identities, IdentityKey, k);
    }
  }

  // ---------------------------------------------------------------------
  // Finding or creating a contact book
  // ---------------------------------------------------------------------

  /** What the scan of `getContacts` meets first. */
  datatype Lookup = Found(index: nat) | Absent | HitsNullOwner(at: nat)

  /**
   * Before position `n`, every book has a non-null owner different from
   * `who`: the scan passes over them (`owner.equals(who)` is false).
   */
  predicate NoMatchBefore(books: seq<ContactBook>, who: Option<Identity>, n: int)
    requires 0 <= n <= |books|
  {
    forall j :: 0 <= j < n ==> books[j].owner.Some? && books[j].owner != who
  }

  /**
   * The loop of `getContacts(identity)`: `contacts.getIdentity().equals(identity)`
   * on each book in turn. A book with a null owner makes that call throw.
   */
  function FindBook(books: seq<ContactBook>, who: Option<Identity>): (r: Lookup)
    ensures r.Found? ==> r.index < |books| && books[r.index].owner == who && who.Some? && NoMatchBefore(books, who, r.index)
    ensures r.Absent? ==> NoMatchBefore(books, who, |books|)
    ensures r.HitsNullOwner? ==> r.at < |books| && books[r.at].owner.None? && NoMatchBefore(books, who, r.at)
  {
    if books == [] then Absent
    else if books[0].owner.None? then HitsNullOwner(0)
    else if books[0].owner == who then Found(0)
    else match FindBook(books[1..], who)
      case Found(i) => Found(i + 1)
      case Absent => Absent
      case HitsNullOwner(j) => HitsNullOwner(j + 1)
  }

  /**
   * getContacts(identity): the first persisted book owned by `who`; when
   * there is none, a new empty book for `who` is persisted and returned.
   * The result is the store afterwards and the position of the book.
   */
  function GetContacts(s: Store, who: Option<Identity>): (r: Result<(Store, nat)>)
    ensures r.Err? <==> exists j :: 0 <= j < |s.books| && s.books[j].owner.None? && NoMatchBefore(s.books, who, j)
    ensures r.Err? ==> r.error == NullPointer
    ensures r.Ok? ==> r.value.1 < |r.value.0.books| && r.value.0.books[r.value.1].owner == who
    ensures r.Ok? ==> r.value.0.identities == s.identities && r.value.0.lastActiveId == s.lastActiveId
    ensures r.Ok? && r.value.1 < |s.books| ==> r.value.0 == s && NoMatchBefore(s.books, who, r.value.1)
    ensures r.Ok? && r.value.1 >= |s.books| ==>
              && r.value.1 == |s.books|
              && r.value.0.books == s.books + [ContactBook(who, map[])]
              && NoMatchBefore(s.books, who, |s.books|)
  {
    match FindBook(s.books, who)
    case Found(i) => Ok((s, i))
    case HitsNullOwner(_) => Err(NullPointer)
    case Absent => Ok((s.(books := s.books + [ContactBook(who, map[])]), |s.books|))
  }

  /**
   * getContacts(): the book of the active identity (a null-owner book when
   * there is none), created when missing.
   */
  function ActiveContacts(s: Store): (r: Result<(Store, nat)>)
    ensures r.Err? <==> exists j :: 0 <= j < |s.books| && s.books[j].owner.None? && NoMatchBefore(s.books, ActiveIdentity(s), j)
    ensures r.Ok? ==> r.value.1 < |r.value.0.books| && r.value.0.books[r.value.1].owner == ActiveIdentity(s)
    ensures r.Ok? ==> ActiveIdentity(r.value.0) == ActiveIdentity(s)
  {
    GetContacts(s, ActiveIdentity(s))
  }

  /**
   * For an identity, a second `getContacts` creates nothing new and finds
   * the same book.
   */
  lemma GetContactsIdempotent(s: Store, identity: Identity)
    requires GetContacts(s, Some(identity)).Ok?
    ensures GetContacts(GetContacts(s, Some(identity)).value.0, Some(identity)) == GetContacts(s, Some(identity))
  {
    var s1 := GetContacts(s, Some(identity)).value.0;
    var i := GetContacts(s, Some(identity)).value.1;
    var l := FindBook(s1.books, Some(identity));
    assert NoMatchBefore(s1.books, Some(identity), i);
    if l.Found? {
      assert l.index == i;
    } else if l.HitsNullOwner? {
      assert false;
    }
  }

  /**
   * Without an active identity, `getContacts(null)` persists a book whose
   * owner is null; afterwards every lookup that does not stop at an
   * earlier book, including a repeated `getContacts(null)`, throws.
   */
  lemma NullOwnerBookPoisonsLookups(s: Store, who: Option<Identity>)
    requires GetContacts(s, None).Ok?
    requires NoMatchBefore(s.books, who, |s.books|)
    ensures GetContacts(GetContacts(s, None).value.0, who) == Err(NullPointer)
  {
    var s1 := GetContacts(s, None).value.0;
    var i := GetContacts(s, None).value.1;
    assert i == |s.books|;
    assert s1.books[i].owner.None? && NoMatchBefore(s1.books, who, i);
  }

  /** getContacts keeps the directory invariant. */
  lemma GetContactsPreservesWellFormed(s: Store, who: Option<Identity>)
    requires WellFormed(s)
    requires GetContacts(s, who).Ok?
    ensures WellFormed(GetContacts(s, who).value.0)
  {
    var t := GetContacts(s, who).value.0;
    var i := GetContacts(s, who).value.1;
    if i == |s.books| {
      forall a, b | 0 <= a < b < |t.books|
        ensures t.books[a].owner != t.books[b].owner
      {
        if b == i {
          assert t.books[a] == s.books[a];
        }
      }
    }
  }

  // ---------------------------------------------------------------------
  // Editing the active identity's book
  // ---------------------------------------------------------------------

  /**
   * `t` is `s` except for the entries of book `i`: that book keeps its
   * owner, and no other book, identity or preference changes.
   */
  predicate OnlyEntriesOf(s: Store, t: Store, i: nat)
  {
    && i < |s.books|
    && t.identities == s.identities
    && t.lastActiveId == s.lastActiveId
    && |t.books| == |s.books|
    && t.books[i].owner == s.books[i].owner
    && forall j :: 0 <= j < |s.books| && j != i ==> t.books[j] == s.books[j]
  }

  /** Writes entries `e` into book `i` (`persistence.updateEntity(contacts)`). */
  function UpdateBook(s: Store, i: nat, e: map<KeyId, Contact>): (t: Store)
    requires i < |s.books|
    ensures OnlyEntriesOf(s, t, i) && t.books[i].entries == e
  {
    s.(books := s.books[i := ContactBook(s.books[i].owner, e)])
  }

  /** `e` is `before` with `c` filed under its key identifier and nothing else changed. */
  predicate Filed(before: map<KeyId, Contact>, e: map<KeyId, Contact>, c: Contact)
  {
    && e.Keys == before.Keys + {c.keyId}
    && e[c.keyId] == c
    && forall k :: k in before && k != c.keyId ==> e[k] == before[k]
  }

  /** `e` is `before` without key identifier `k` and nothing else changed. */
  predicate Unfiled(before: map<KeyId, Contact>, e: map<KeyId, Contact>, k: KeyId)
  {
    && e.Keys == before.Keys - {k}
    && forall k' :: k' in e ==> e[k'] == before[k']
  }

  /**
   * addContact: puts the contact into the active identity's book (found or
   * created), replacing any contact with the same key identifier.
   */
  function AddContact(s: Store, c: Contact): (r: Result<Store>)
    ensures r.Err? <==> ActiveContacts(s).Err?
    ensures r.Err? ==> r.error == NullPointer
    ensures r.Ok? ==>
              var (s1, i) := ActiveContacts(s).value;
              && OnlyEntriesOf(s1, r.value, i)
              && Filed(s1.books[i].entries, r.value.books[i].entries, c)
  {
    match ActiveContacts(s)
    case Err(f) => Err(f)
    case Ok((s1, i)) => Ok(UpdateBook(s1, i, s1.books[i].entries[c.keyId := c]))
  }

  /** deleteContact: removes the contact's key identifier from the active identity's book. */
  function DeleteContact(s: Store, c: Contact): (r: Result<Store>)
    ensures r.Err? <==> ActiveContacts(s).Err?
    ensures r.Err? ==> r.error == NullPointer
    ensures r.Ok? ==>
              var (s1, i) := ActiveContacts(s).value;
              && OnlyEntriesOf(s1, r.value, i)
              && Unfiled(s1.books[i].entries, r.value.books[i].entries, c.keyId)
  {
    match ActiveContacts(s)
    case Err(f) => Err(f)
    case Ok((s1, i)) => Ok(UpdateBook(s1, i, s1.books[i].entries - {c.keyId}))
  }

  /**
   * modifyContact: remove-then-put on the active identity's book. The
   * book ends with exactly one entry for the contact's key identifier,
   * carrying the new data; every other entry and every other book is
   * unchanged.
   */
  function ModifyContact(s: Store, c: Contact): (r: Result<Store>)
    ensures r.Err? <==> ActiveContacts(s).Err?
    ensures r.Err? ==> r.error == NullPointer
    ensures r.Ok? ==>
              var (s1, i) := ActiveContacts(s).value;
              && OnlyEntriesOf(s1, r.value, i)
              && Filed(s1.books[i].entries, r.value.books[i].entries, c)
  {
    match ActiveContacts(s)
    case Err(f) => Err(f)
    case Ok((s1, i)) =>
      var removed := s1.books[i].entries - {c.keyId};
      Ok(UpdateBook(s1, i, removed[c.keyId := c]))
  }

  /** With books keyed by key identifier, remove-then-put is the same as put. */
  lemma ModifyIsAdd(s: Store, c: Contact)
    ensures ModifyContact(s, c) == AddContact(s, c)
  {
    if ActiveContacts(s).Ok? {
      var (s1, i) := ActiveContacts(s).value;
      var before := s1.books[i].entries;
      assert (before - {c.keyId})[c.keyId := c] == before[c.keyId := c];
    }
  }

  /**
   * Round trip: when an identity is active, after adding a contact the
   * active identity's book is found again, unchanged in the store, and
   * lists exactly the added contact under its key identifier.
   */
  lemma AddThenList(s: Store, c: Contact)
    requires ActiveIdentity(s).Some?
    requires AddContact(s, c).Ok?
    ensures var t := AddContact(s, c).value;
            && ActiveContacts(t).Ok?
            && ActiveContacts(t).value.0 == t
            && var b := t.books[ActiveContacts(t).value.1];
            && b.owner == ActiveIdentity(s)
            && c.keyId in b.entries && b.entries[c.keyId] == c
  {
    var (s1, i) := ActiveContacts(s).value;
    var t := AddContact(s, c).value;
    var who := ActiveIdentity(s);
    assert ActiveIdentity(t) == who by {
      assert t.identities == s.identities && t.lastActiveId == s.lastActiveId;
    }
    assert NoMatchBefore(t.books, who, i) by {
      assert NoMatchBefore(s1.books, who, i);
    }
    var l := FindBook(t.books, who);
    if l.HitsNullOwner? {
      assert false;
    } else if l.Absent? {
      assert false;
    }
    assert l.Found? && l.index == i;
  }

  /** Deleting a contact right after adding it leaves no entry for its key identifier. */
  lemma AddThenDelete(s: Store, c: Contact)
    requires ActiveIdentity(s).Some?
    requires AddContact(s, c).Ok?
    ensures var t := AddContact(s, c).value;
            && DeleteContact(t, c).Ok?
            && var u := DeleteContact(t, c).value;
            && var (s1, i) := ActiveContacts(s).value;
            && |u.books| == |s1.books|
            && u.books[i].entries == s1.books[i].entries - {c.keyId}
  {
    AddThenList(s, c);
    var (s1, i) := ActiveContacts(s).value;
    var t := AddContact(s, c).value;
    var before := s1.books[i].entries;
    var added := t.books[i].entries;
    assert added == before[c.keyId := c];
    assert ActiveContacts(t) == Ok((t, i));
    var u := DeleteContact(t, c).value;
    var e := u.books[i].entries;
    assert e.Keys == added.Keys - {c.keyId};
    assert forall k :: k in e ==> e[k] == added[k];
    assert e == before - {c.keyId};
  }

  /** The edits of the active book keep the directory invariant. */
  lemma EditsPreserveWellFormed(s: Store, c: Contact)
    requires WellFormed(s)
    ensures AddContact(s, c).Ok? ==> WellFormed(AddContact(s, c).value)
    ensures DeleteContact(s, c).Ok? ==> WellFormed(DeleteContact(s, c).value)
    ensures ModifyContact(s, c).Ok? ==> WellFormed(ModifyContact(s, c).value)
  {
    if ActiveContacts(s).Ok? {
      GetContactsPreservesWellFormed(s, ActiveIdentity(s));
      var (s1, i) := ActiveContacts(s).value;
      forall t: Store | OnlyEntriesOf(s1, t, i) && t.books[i].WellKeyed()
        ensures WellFormed(t)
      {
        assert forall j :: 0 <= j < |t.books| ==> t.books[j].owner == s1.books[j].owner;
      }
    }
  }

  // ---------------------------------------------------------------------
  // All books
  // ---------------------------------------------------------------------

  /**
   * getAllContacts: every persisted book put into a hash map under its
   * owner (null included); a later book replaces an earlier one with the
   * same owner.
   */
  function AllContacts(s: Store): (r: map<Option<Identity>, ContactBook>)
    ensures forall i :: 0 <= i < |s.books| ==> s.books[i].owner in r
    ensures forall o :: o in r ==> r[o] in s.books && r[o].owner == o
    ensures forall i :: LastWithKey(s.books, BookOwner, i) ==> r[s.books[i].owner] == s.books[i]
  {
    PutAll(s.books, BookOwner)
  }

  /**
   * While owners are unique, getAllContacts files under an identity the
   * very book `getContacts` returns for it.
   */
  lemma AllContactsAgreesWithGetContacts(s: Store, identity: Identity)
    requires UniqueOwners(s.books)
    requires GetContacts(s, Some(identity)).Ok?
    ensures var (t, i) := GetContacts(s, Some(identity)).value;
            && Some(identity) in AllContacts(t)
            && AllContacts(t)[Some(identity)] == t.books[i]
  {
    var (t, i) := GetContacts(s, Some(identity)).value;
    assert UniqueOwners(t.books) by {
      if i == |s.books| {
        forall a, b | 0 <= a < b < |t.books|
          ensures t.books[a].owner != t.books[b].owner
        {
          if b == i {
            assert t.books[a] == s.books[a];
          }
        }
      }
    }
    assert LastWithKey(t.books, BookOwner, i);
  }
}
