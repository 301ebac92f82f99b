/** The `ContactService` of src/index.ts over an in-memory store: lookups,
    inserts, the three-write merge, the group read and the response formatter. */
module ContactService {
  import opened Options
  import opened Contacts

  /** The `where` clause of a lookup: exact equality on one column or on the pair. */
  datatype Key =
    | ById(id: nat)
    | ByEmail(email: string)
    | ByPhone(phoneNumber: string)
    | ByPair(pairEmail: string, pairPhone: string)

  predicate Matches(c: Contact, k: Key) {
    match k
    case ById(id) => c.id == id
    case ByEmail(e) => c.email == Some(e)
    case ByPhone(p) => c.phoneNumber == Some(p)
    case ByPair(e, p) => c.email == Some(e) && c.phoneNumber == Some(p)
  }

  /** Position of the first row matching `k`. */
  function FirstIndex(s: Store, k: Key): (r: Option<nat>)
    ensures r.Some? ==> r.value < |s| && Matches(s[r.value], k)
    ensures r.Some? ==> forall j :: 0 <= j < r.value ==> !Matches(s[j], k)
    ensures r.None? ==> forall j :: 0 <= j < |s| ==> !Matches(s[j], k)
  {
    if |s| == 0 then None
    else if Matches(s[0], k) then Some(0)
    else
      match FirstIndex(s[1..], k)
      case None => None
      case Some(i) => Some(i + 1)
  }

  /** Prisma `findFirst` with no `orderBy`, resolved as "lowest id first". */
  function FindFirst(s: Store, k: Key): (r: Option<Contact>)
    ensures r.Some? <==> exists j :: 0 <= j < |s| && Matches(s[j], k)
    ensures r.Some? ==> r.value in s && Matches(r.value, k)
    ensures r.Some? && IdsAscending(s) ==>
      forall j :: 0 <= j < |s| && Matches(s[j], k) ==> r.value.id <= s[j].id
  {
    match FirstIndex(s, k)
    case None => None
    case Some(i) => Some(s[i])
  }

  function FindContactByEmail(s: Store, email: string): Option<Contact> {
    FindFirst(s, ByEmail(email))
  }

  function FindContactByPhone(s: Store, phoneNumber: string): Option<Contact> {
    FindFirst(s, ByPhone(phoneNumber))
  }

  /** Prisma `findUnique` on the (phoneNumber, email) constraint. */
  function FindContactByEmailAndPhone(s: Store, email: string, phoneNumber: string): (r: Option<Contact>)
    ensures r.Some? <==>
      exists j :: 0 <= j < |s| && s[j].email == Some(email) && s[j].phoneNumber == Some(phoneNumber)
    ensures r.Some? ==> r.value in s && r.value.email == Some(email) && r.value.phoneNumber == Some(phoneNumber)
    ensures r.Some? && PairsUnique(s) ==>
      forall j :: 0 <= j < |s| && s[j].email == Some(email) && s[j].phoneNumber == Some(phoneNumber) ==> s[j] == r.value
  {
    PairMatchIsUnique(s, email, phoneNumber);
    FindFirst(s, ByPair(email, phoneNumber))
  }

  /** Under the unique constraint, a complete pair names at most one row. */
  lemma PairMatchIsUnique(s: Store, email: string, phoneNumber: string)
    ensures PairsUnique(s) ==> forall i, j ::
      (0 <= i < |s| && 0 <= j < |s| && Matches(s[i], ByPair(email, phoneNumber))
       && Matches(s[j], ByPair(email, phoneNumber))) ==> i == j
  {
    if PairsUnique(s) {
      forall i, j | 0 <= i < |s| && 0 <= j < |s|
        && Matches(s[i], ByPair(email, phoneNumber)) && Matches(s[j], ByPair(email, phoneNumber))
        ensures i == j
      {
        assert !(i < j) && !(j < i);
      }
    }
  }

  /** Insert a row carrying both fields under the next autoincrement id. */
  function Insert(s: Store, email: string, phoneNumber: string, p: Precedence, linkedId: Option<nat>): (r: (Store, Contact))
    ensures r.0 == s + [r.1]
    ensures r.1.email == Some(email) && r.1.phoneNumber == Some(phoneNumber)
    ensures r.1.linkPrecedence == p && r.1.linkedId == linkedId
    ensures r.1.id >= 1 && forall i :: 0 <= i < |s| ==> s[i].id < r.1.id
  {
    var c := Contact(NextId(s), Some(email), Some(phoneNumber), p, linkedId);
    (s + [c], c)
  }

  function CreateNewPrimaryContact(s: Store, email: string, phoneNumber: string): (Store, Contact) {
    Insert(s, email, phoneNumber, Primary, None)
  }

  function CreateSecondaryContact(s: Store, email: string, phoneNumber: string, primaryContactId: nat): (Store, Contact) {
    Insert(s, email, phoneNumber, Secondary, Some(primaryContactId))
  }

  /** `updateMany` where linkedId = from: those rows become SECONDARY linked to `to`. */
  function RelinkAll(s: Store, from: nat, to: nat): Store {
    seq(|s|, i requires 0 <= i < |s| =>
      if s[i].linkedId == Some(from) then s[i].(linkPrecedence := Secondary, linkedId := Some(to)) else s[i])
  }

  /** `update` where id = id: set precedence and link of that row. */
  function UpdateLink(s: Store, id: nat, p: Precedence, linkedId: Option<nat>): Store {
    seq(|s|, i requires 0 <= i < |s| =>
      if s[i].id == id then s[i].(linkPrecedence := p, linkedId := linkedId) else s[i])
  }

  /** `mergePrimaryContacts`: the secondary's followers are re-pointed, the secondary
      is demoted under the primary, and the primary is confirmed; the three writes
      run in that order, so the last one wins on a row they share. */
  function MergePrimaryContacts(s: Store, primary: Contact, secondary: Contact): (r: Store)
    ensures |r| == |s|
    ensures forall i :: 0 <= i < |s| ==>
      r[i].id == s[i].id && r[i].email == s[i].email && r[i].phoneNumber == s[i].phoneNumber
    ensures forall i :: 0 <= i < |s| && s[i].id == primary.id ==>
      r[i] == s[i].(linkPrecedence := Primary, linkedId := None)
    ensures forall i ::
      (0 <= i < |s| && s[i].id != primary.id
       && (s[i].id == secondary.id || s[i].linkedId == Some(secondary.id))) ==>
      r[i] == s[i].(linkPrecedence := Secondary, linkedId := Some(primary.id))
    ensures forall i ::
      (0 <= i < |s| && s[i].id != primary.id && s[i].id != secondary.id
       && s[i].linkedId != Some(secondary.id)) ==> r[i] == s[i]
  {
    var s1 := RelinkAll(s, secondary.id, primary.id);
    var s2 := UpdateLink(s1, secondary.id, Secondary, Some(primary.id));
    UpdateLink(s2, primary.id, Primary, None)
  }

  /** A contact together with its `linkedContacts` relation. */
  datatype ContactDetails = ContactDetails(contact: Contact, linkedContacts: seq<Contact>)

  /** The rows whose linkedId is `id`, in store (ascending id) order. */
  function LinkedContacts(s: Store, id: nat): (r: seq<Contact>)
    ensures forall c :: c in r <==> c in s && c.linkedId == Some(id)
    ensures |r| <= |s|
    ensures (forall i :: 0 <= i < |s| ==> s[i].linkedId != Some(id)) ==> r == []
  {
    if |s| == 0 then []
    else
      assert s == [s[0]] + s[1..];
      (if s[0].linkedId == Some(id) then [s[0]] else []) + LinkedContacts(s[1..], id)
  }

  /** With ascending ids in the store, the linked contacts come out in ascending id order. */
  lemma {:induction false} LinkedContactsAscending(s: Store, id: nat)
    requires IdsAscending(s)
    ensures IdsAscending(LinkedContacts(s, id))
  {
    if |s| > 0 {
      var rest := LinkedContacts(s[1..], id);
      AscendingTail(s);
      LinkedContactsAscending(s[1..], id);
      if s[0].linkedId == Some(id) {
        LinkedAfterHead(s, id);
        AscendingCons(s[0], rest);
        assert LinkedContacts(s, id) == [s[0]] + rest;
      } else {
        assert LinkedContacts(s, id) == rest;
      }
    }
  }

  /** A head below every id of an ascending list extends it. */
  lemma AscendingCons(h: Contact, rest: seq<Contact>)
    requires IdsAscending(rest)
    requires forall k :: 0 <= k < |rest| ==> h.id < rest[k].id
    ensures IdsAscending([h] + rest)
  {
    var r := [h] + rest;
    forall i, j | 0 <= i < j < |r| ensures r[i].id < r[j].id {
      assert r[j] == rest[j - 1];
      if i > 0 {
        assert r[i] == rest[i - 1];
      }
    }
  }

  lemma AscendingTail(s: Store)
    requires IdsAscending(s) && |s| > 0
    ensures IdsAscending(s[1..])
  {
    forall i, j | 0 <= i < j < |s[1..]| ensures s[1..][i].id < s[1..][j].id {
      assert s[1..][i] == s[i + 1] && s[1..][j] == s[j + 1];
    }
  }

  /** Every contact linked further down the store has a larger id than the head. */
  lemma LinkedAfterHead(s: Store, id: nat)
    requires IdsAscending(s) && |s| > 0
    ensures var rest := LinkedContacts(s[1..], id);
      forall k :: 0 <= k < |rest| ==> s[0].id < rest[k].id
  {
    var rest := LinkedContacts(s[1..], id);
    forall k | 0 <= k < |rest| ensures s[0].id < rest[k].id {
      assert rest[k] in rest;
      var j :| 0 <= j < |s[1..]| && s[1..][j] == rest[k];
      assert s[j + 1] == rest[k];
    }
  }

  /** `getPrimaryContactDetails`: the row with that id and every row linked to it. */
  function GetPrimaryContactDetails(s: Store, id: nat): (r: Option<ContactDetails>)
    ensures r.Some? <==> exists j :: 0 <= j < |s| && s[j].id == id
    ensures r.Some? ==> r.value.contact in s && r.value.contact.id == id
    ensures r.Some? ==> forall c :: c in r.value.linkedContacts <==> c in s && c.linkedId == Some(id)
  {
    match FindFirst(s, ById(id))
    case None => None
    case Some(c) => Some(ContactDetails(c, LinkedContacts(s, id)))
  }

  /** The `ContactResponse` body (the source spells its first field `primaryContatctId`). */
  datatype ContactResponse = ContactResponse(
    primaryContactId: nat,
    emails: seq<string>,
    phoneNumbers: seq<string>,
    secondaryContactIds: seq<nat>)

  datatype Field = Email | Phone

  function Get(c: Contact, f: Field): Option<string> {
    match f
    case Email => c.email
    case Phone => c.phoneNumber
  }

  /** One column of a list of contacts, nulls included. */
  function Column(cs: seq<Contact>, f: Field): seq<Option<string>>
  {
    seq(|cs|, i requires 0 <= i < |cs| => Get(cs[i], f))
  }

  /** Mapping a column distributes over concatenation: the group's column is the
      contact's own value followed by the linked contacts' values, in order. */
  lemma ColumnAppend(a: seq<Contact>, b: seq<Contact>, f: Field)
    ensures Column(a + b, f) == Column(a, f) + Column(b, f)
  {
  }

  /** `formatContactResponse`: the primary's value first, then the linked contacts' in
      order, nulls dropped and duplicates kept. */
  function FormatContactResponse(d: ContactDetails): (r: ContactResponse)
    ensures r.primaryContactId == d.contact.id
    ensures |r.secondaryContactIds| == |d.linkedContacts|
    ensures forall i :: 0 <= i < |d.linkedContacts| ==> r.secondaryContactIds[i] == d.linkedContacts[i].id
    ensures |r.emails| <= 1 + |d.linkedContacts| && |r.phoneNumbers| <= 1 + |d.linkedContacts|
    ensures d.contact.email.Some? ==> |r.emails| > 0 && r.emails[0] == d.contact.email.value
    ensures d.contact.phoneNumber.Some? ==> |r.phoneNumbers| > 0 && r.phoneNumbers[0] == d.contact.phoneNumber.value
  {
    var group := [d.contact] + d.linkedContacts;
    ContactResponse(
      d.contact.id,
      Somes(Column(group, Email)),
      Somes(Column(group, Phone)),
      seq(|d.linkedContacts|, i requires 0 <= i < |d.linkedContacts| => d.linkedContacts[i].id))
  }

  /** Nothing is deduplicated: every non-null email and phone of the group appears in
      the response exactly as often as it occurs in the group. */
  lemma FormatCountsValues(d: ContactDetails)
    ensures var r := FormatContactResponse(d);
      && (forall x :: multiset(r.emails)[x] == multiset(Column([d.contact] + d.linkedContacts, Email))[Some(x)])
      && (forall x :: multiset(r.phoneNumbers)[x] == multiset(Column([d.contact] + d.linkedContacts, Phone))[Some(x)])
  {
    SomesCounts(Column([d.contact] + d.linkedContacts, Email));
    SomesCounts(Column([d.contact] + d.linkedContacts, Phone));
  }
}

/** How the store operations act on the invariants and on later lookups. */
module StoreFacts {
  import opened Options
  import opened Contacts
  import opened ContactService

  /** An insert keeps the store well formed when the new row links to a PRIMARY
      (or is one) and its pair is not yet taken. */
  lemma InsertPreservesValid(s: Store, email: string, phoneNumber: string, p: Precedence, linkedId: Option<nat>)
    requires Valid(s)
    requires p == Primary <==> linkedId.None?
    requires linkedId.Some? ==> IsPrimaryId(s, linkedId.value)
    requires forall i :: 0 <= i < |s| ==> !Matches(s[i], ByPair(email, phoneNumber))
    ensures Valid(Insert(s, email, phoneNumber, p, linkedId).0)
  {
    var (t, c) := Insert(s, email, phoneNumber, p, linkedId);
    assert forall i :: 0 <= i < |s| ==> t[i] == s[i];
    assert t[|s|] == c;
    forall i | 0 <= i < |t| && t[i].linkedId.Some?
      ensures IsPrimaryId(t, t[i].linkedId.value)
    {
      var k := t[i].linkedId.value;
      assert IsPrimaryId(s, k);
      var j :| 0 <= j < |s| && s[j].id == k && s[j].linkPrecedence == Primary;
      assert t[j] == s[j];
    }
  }

  /** Merging two distinct PRIMARY rows keeps the store well formed, and the kept
      row is a PRIMARY afterwards. */
  lemma MergePreservesValid(s: Store, primary: Contact, secondary: Contact)
    requires Valid(s)
    requires primary in s && secondary in s
    requires primary.linkPrecedence == Primary && secondary.linkPrecedence == Primary
    requires primary.id != secondary.id
    ensures Valid(MergePrimaryContacts(s, primary, secondary))
    ensures IsPrimaryId(MergePrimaryContacts(s, primary, secondary), primary.id)
  {
    var r := MergePrimaryContacts(s, primary, secondary);
    var ip :| 0 <= ip < |s| && s[ip] == primary;
    assert r[ip].linkPrecedence == Primary;
    assert IsPrimaryId(r, primary.id);
    assert IdsAscending(r) && IdsPositive(r) && PairsUnique(r) by {
      SameKeysKeepIdsAndPairs(s, r);
    }
    forall i | 0 <= i < |r|
      ensures r[i].linkPrecedence == Primary <==> r[i].linkedId.None?
      ensures r[i].linkedId.Some? ==> IsPrimaryId(r, r[i].linkedId.value)
    {
      if s[i].id == primary.id {
      } else if s[i].id == secondary.id || s[i].linkedId == Some(secondary.id) {
      } else {
        assert r[i] == s[i];
        if s[i].linkedId.Some? {
          var k := s[i].linkedId.value;
          assert IsPrimaryId(s, k);
          var j :| 0 <= j < |s| && s[j].id == k && s[j].linkPrecedence == Primary;
          assert s[j].linkedId.None?;
          if k != primary.id {
            assert r[j] == s[j];
          }
        }
      }
    }
  }

  /** Ids, ascending order, positivity and pair uniqueness depend only on the key columns. */
  lemma SameKeysKeepIdsAndPairs(s: Store, r: Store)
    requires IdsAscending(s) && IdsPositive(s) && PairsUnique(s)
    requires |r| == |s|
    requires forall i :: 0 <= i < |s| ==>
      r[i].id == s[i].id && r[i].email == s[i].email && r[i].phoneNumber == s[i].phoneNumber
    ensures IdsAscending(r) && IdsPositive(r) && PairsUnique(r)
  {
  }

  /** Appending a row does not change an earlier first match. */
  lemma FirstIndexAppend(s: Store, c: Contact, k: Key)
    ensures FirstIndex(s + [c], k) ==
      if FirstIndex(s, k).Some? then FirstIndex(s, k)
      else if Matches(c, k) then Some(|s|)
      else None
  {
    var t := s + [c];
    assert forall i :: 0 <= i < |s| ==> t[i] == s[i];
    assert t[|s|] == c;
    var a := FirstIndex(t, k);
    var b := FirstIndex(s, k);
    if b.Some? {
      assert Matches(t[b.value], k);
      assert a.Some?;
    } else if Matches(c, k) {
      assert a.Some?;
    }
  }

  /** Two stores that agree on ids, emails and phone numbers row by row answer every lookup alike. */
  lemma FirstIndexSameKeys(s: Store, t: Store, k: Key)
    requires |s| == |t|
    requires forall i :: 0 <= i < |s| ==>
      s[i].id == t[i].id && s[i].email == t[i].email && s[i].phoneNumber == t[i].phoneNumber
    ensures FirstIndex(s, k) == FirstIndex(t, k)
  {
    assert forall i :: 0 <= i < |s| ==> (Matches(s[i], k) <==> Matches(t[i], k));
    var a := FirstIndex(s, k);
    var b := FirstIndex(t, k);
    if a.Some? && b.Some? {
      assert !(a.value < b.value) && !(b.value < a.value);
    }
  }

  /** Appending a row extends the linked list of its target at the end. */
  lemma {:induction false} LinkedContactsAppend(s: Store, c: Contact, id: nat)
    ensures LinkedContacts(s + [c], id) ==
      LinkedContacts(s, id) + (if c.linkedId == Some(id) then [c] else [])
  {
    if |s| == 0 {
      assert s + [c] == [c];
      assert [c][1..] == [];
    } else {
      assert (s + [c])[1..] == s[1..] + [c];
      LinkedContactsAppend(s[1..], c, id);
    }
  }
}
