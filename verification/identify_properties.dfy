/** What one `/identify` call does to the store and what it answers, branch by
    branch, and what it keeps across calls. */
module IdentifyProperties {
  import opened Options
  import opened Contacts
  import opened ContactService
  import opened StoreFacts
  import opened IdentifyHandler

  // ---------------------------------------------------------------------------
  // The branches of the handler
  // ---------------------------------------------------------------------------

  predicate BothGiven(req: Request) {
    Truthy(req.email).Some? && Truthy(req.phoneNumber).Some?
  }

  /** Both fields given, exactly one known, and the exact pair not stored. */
  predicate AddsSecondary(s: Store, req: Request) {
    && BothGiven(req)
    && EmailHit(s, req).Some? != PhoneHit(s, req).Some?
    && FindContactByEmailAndPhone(s, req.email.value, req.phoneNumber.value).None?
  }

  /** Both fields known, on different rows that are both PRIMARY. */
  predicate MergesPrimaries(s: Store, req: Request) {
    && EmailHit(s, req).Some? && PhoneHit(s, req).Some?
    && EmailHit(s, req).value.id != PhoneHit(s, req).value.id
    && EmailHit(s, req).value.linkPrecedence == Primary
    && PhoneHit(s, req).value.linkPrecedence == Primary
  }

  /** Both fields given and neither known. */
  predicate CreatesPrimary(s: Store, req: Request) {
    BothGiven(req) && EmailHit(s, req).None? && PhoneHit(s, req).None?
  }

  /** `linkedId || id` of the contact the handler falls back on. */
  function FoundPrimaryId(s: Store, req: Request): nat
    requires EmailHit(s, req).Some? || PhoneHit(s, req).Some?
  {
    PrimaryIdOf(EitherHit(EmailHit(s, req), PhoneHit(s, req)).value)
  }

  /** The row the add-to-group branch inserts. */
  function NewSecondary(s: Store, req: Request): Contact
    requires AddsSecondary(s, req)
  {
    Contact(NextId(s), req.email, req.phoneNumber, Secondary, Some(FoundPrimaryId(s, req)))
  }

  /** The row the new-identity branch inserts. */
  function NewPrimary(s: Store, req: Request): Contact {
    Contact(NextId(s), req.email, req.phoneNumber, Primary, None)
  }

  /** Read the group of `pid` and format it, or 404 when there is no such row. */
  function Answer(t: Store, pid: nat): Outcome {
    match GetPrimaryContactDetails(t, pid)
    case None => NotFound
    case Some(d) => Ok(FormatContactResponse(d))
  }

  lemma BranchAdd(s: Store, req: Request)
    requires AddsSecondary(s, req)
    ensures var t := s + [NewSecondary(s, req)];
      Identify(s, req) == (t, Answer(t, FoundPrimaryId(s, req)))
  {
  }

  /** Once something is known, the handler is the add step, then the merge step, then a read. */
  lemma AfterAHit(s: Store, req: Request)
    requires EmailHit(s, req).Some? || PhoneHit(s, req).Some?
    ensures var p2 := MergeFoundPrimaries(
                AddToFoundGroup(s, Truthy(req.email), Truthy(req.phoneNumber), EmailHit(s, req), PhoneHit(s, req)),
                EmailHit(s, req), PhoneHit(s, req));
      var d := ReadFoundGroup(p2, EmailHit(s, req), PhoneHit(s, req));
      Identify(s, req) == (p2.store, if d.None? then NotFound else Ok(FormatContactResponse(d.value)))
  {
  }

  /** With both hits PRIMARY, the add step writes nothing and the merge step reads the
      email hit's group, which exists because the merge keeps that row's id. */
  lemma MergeStep(s: Store, req: Request)
    requires MergesPrimaries(s, req)
    ensures var m := MergePrimaryContacts(s, EmailHit(s, req).value, PhoneHit(s, req).value);
      && AddToFoundGroup(s, Truthy(req.email), Truthy(req.phoneNumber), EmailHit(s, req), PhoneHit(s, req)) == Progress(s, None)
      && MergeFoundPrimaries(Progress(s, None), EmailHit(s, req), PhoneHit(s, req))
         == Progress(m, GetPrimaryContactDetails(m, EmailHit(s, req).value.id))
      && GetPrimaryContactDetails(m, EmailHit(s, req).value.id).Some?
  {
    var e := EmailHit(s, req).value;
    var m := MergePrimaryContacts(s, e, PhoneHit(s, req).value);
    var ie :| 0 <= ie < |s| && s[ie] == e;
    assert m[ie].id == e.id;
  }

  lemma BranchMerge(s: Store, req: Request)
    requires MergesPrimaries(s, req)
    ensures var t := MergePrimaryContacts(s, EmailHit(s, req).value, PhoneHit(s, req).value);
      Identify(s, req) == (t, Answer(t, EmailHit(s, req).value.id))
  {
    AfterAHit(s, req);
    MergeStep(s, req);
  }

  lemma BranchCreate(s: Store, req: Request)
    requires CreatesPrimary(s, req)
    ensures var t := s + [NewPrimary(s, req)];
      Identify(s, req) == (t, Answer(t, NextId(s)))
  {
  }

  lemma BranchRead(s: Store, req: Request)
    requires EmailHit(s, req).Some? || PhoneHit(s, req).Some?
    requires !AddsSecondary(s, req) && !MergesPrimaries(s, req)
    ensures Identify(s, req) == (s, Answer(s, FoundPrimaryId(s, req)))
  {
  }

  /** Outside the add, merge and create branches nothing is written. */
  lemma BranchNoWrite(s: Store, req: Request)
    requires !AddsSecondary(s, req) && !MergesPrimaries(s, req) && !CreatesPrimary(s, req)
    ensures Identify(s, req).0 == s
  {
  }

  // ---------------------------------------------------------------------------
  // Helpers about a well-formed store
  // ---------------------------------------------------------------------------

  /** In a well-formed store, `linkedId || id` names the PRIMARY of the contact's group:
      the contact itself when it is PRIMARY, its link otherwise. */
  lemma PrimaryIdOfNamesPrimary(s: Store, c: Contact)
    requires Valid(s) && c in s
    ensures IsPrimaryId(s, PrimaryIdOf(c))
    ensures PrimaryIdOf(c) == if c.linkPrecedence == Primary then c.id else c.linkedId.value
  {
    var i :| 0 <= i < |s| && s[i] == c;
    if c.linkedId.Some? {
      var k := c.linkedId.value;
      var j :| 0 <= j < |s| && s[j].id == k && s[j].linkPrecedence == Primary;
      assert s[j].id >= 1;
    }
  }

  /** When only one of the two fields is known, the exact pair cannot be stored:
      a row holding it would have been found by both lookups. */
  lemma OneHitMeansNoPair(s: Store, email: string, phoneNumber: string)
    requires FindContactByEmail(s, email).None? || FindContactByPhone(s, phoneNumber).None?
    ensures FindContactByEmailAndPhone(s, email, phoneNumber).None?
    ensures forall i :: 0 <= i < |s| ==> !Matches(s[i], ByPair(email, phoneNumber))
  {
  }

  /** No row of a well-formed store links to an id that is not yet in use. */
  lemma NothingLinksToNextId(s: Store)
    requires Valid(s)
    ensures forall i :: 0 <= i < |s| ==> s[i].linkedId != Some(NextId(s))
  {
    forall i | 0 <= i < |s| && s[i].linkedId.Some?
      ensures s[i].linkedId != Some(NextId(s))
    {
      var j :| 0 <= j < |s| && s[j].id == s[i].linkedId.value && s[j].linkPrecedence == Primary;
    }
  }

  /** A PRIMARY of `s` is still one after a row is appended. */
  lemma PrimaryIdAfterAppend(s: Store, c: Contact, pid: nat)
    requires IsPrimaryId(s, pid)
    ensures IsPrimaryId(s + [c], pid)
  {
    var j :| 0 <= j < |s| && s[j].id == pid && s[j].linkPrecedence == Primary;
    assert (s + [c])[j] == s[j];
  }

  /** A freshly inserted row that does not link to itself has no linked contacts yet. */
  lemma FreshRowDetails(s: Store, c: Contact)
    requires Valid(s) && c.id == NextId(s) && c.linkedId != Some(c.id)
    ensures GetPrimaryContactDetails(s + [c], c.id) == Some(ContactDetails(c, []))
  {
    NothingLinksToNextId(s);
    LinkedContactsAppend(s, c, c.id);
    FirstIndexAppend(s, c, ById(c.id));
  }

  /** A lone contact with both fields is answered with exactly those two values. */
  lemma FormatLoneContact(c: Contact)
    requires c.email.Some? && c.phoneNumber.Some?
    ensures FormatContactResponse(ContactDetails(c, []))
      == ContactResponse(c.id, [c.email.value], [c.phoneNumber.value], [])
  {
    assert [c] + [] == [c];
    assert Column([c], Email) == [c.email];
    assert Column([c], Phone) == [c.phoneNumber];
  }

  /** The last linked contact's id closes the secondary id list, and its values are listed. */
  lemma FormatListsLastLinked(d: ContactDetails, n: Contact)
    requires |d.linkedContacts| > 0 && d.linkedContacts[|d.linkedContacts| - 1] == n
    requires n.email.Some? && n.phoneNumber.Some?
    ensures var r := FormatContactResponse(d);
      && |r.secondaryContactIds| > 0
      && r.secondaryContactIds[|r.secondaryContactIds| - 1] == n.id
      && n.email.value in r.emails && n.phoneNumber.value in r.phoneNumbers
  {
    var r := FormatContactResponse(d);
    var group := [d.contact] + d.linkedContacts;
    assert group[|group| - 1] == n;
    assert Column(group, Email)[|group| - 1] == Some(n.email.value);
    assert Column(group, Phone)[|group| - 1] == Some(n.phoneNumber.value);
    FormatCountsValues(d);
    assert multiset(r.emails)[n.email.value] > 0;
    assert multiset(r.phoneNumbers)[n.phoneNumber.value] > 0;
  }

  /** Answering for a PRIMARY of a well-formed store gives 200, with that id and exactly
      the rows linked to it, each one a SECONDARY. */
  lemma AnswerForPrimary(t: Store, pid: nat)
    requires Valid(t) && IsPrimaryId(t, pid)
    ensures Answer(t, pid).Ok?
    ensures
      var resp := Answer(t, pid).contact;
      && resp.primaryContactId == pid
      && (forall j :: 0 <= j < |t| && t[j].linkedId == Some(pid) ==> t[j].id in resp.secondaryContactIds)
      && (forall x :: x in resp.secondaryContactIds ==>
            exists j :: 0 <= j < |t| && t[j].id == x && t[j].linkedId == Some(pid) && t[j].linkPrecedence == Secondary)
  {
    var d := GetPrimaryContactDetails(t, pid).value;
    var resp := FormatContactResponse(d);
    forall j | 0 <= j < |t| && t[j].linkedId == Some(pid)
      ensures t[j].id in resp.secondaryContactIds
    {
      assert t[j] in d.linkedContacts;
      var i :| 0 <= i < |d.linkedContacts| && d.linkedContacts[i] == t[j];
      assert resp.secondaryContactIds[i] == t[j].id;
    }
    forall x | x in resp.secondaryContactIds
      ensures exists j :: 0 <= j < |t| && t[j].id == x && t[j].linkedId == Some(pid) && t[j].linkPrecedence == Secondary
    {
      var i :| 0 <= i < |resp.secondaryContactIds| && resp.secondaryContactIds[i] == x;
      var c := d.linkedContacts[i];
      assert c in d.linkedContacts;
      var j :| 0 <= j < |t| && t[j] == c;
      assert t[j].linkedId.Some?;
    }
  }

  // ---------------------------------------------------------------------------
  // Branch by branch
  // ---------------------------------------------------------------------------

  /** JavaScript truthiness: an empty email or phone number is handled exactly as a
      missing one, in the validation, the lookups, the add branch and the create check. */
  lemma EmptyFieldIsMissing(s: Store, e: Option<string>, p: Option<string>)
    ensures Identify(s, Request(Some(""), p)) == Identify(s, Request(None, p))
    ensures Identify(s, Request(e, Some(""))) == Identify(s, Request(e, None))
  {
  }

  /** Neither field given: 400, nothing written. */
  lemma MissingBothFields(s: Store, req: Request)
    requires Truthy(req.email).None? && Truthy(req.phoneNumber).None?
    ensures Identify(s, req) == (s, BadRequest(EmailOrPhoneRequired))
  {
  }

  /** Exactly one field given and it matches nothing: 400, nothing created. */
  lemma NoMatchNeedsBothFields(s: Store, req: Request)
    requires Truthy(req.email).Some? != Truthy(req.phoneNumber).Some?
    requires Truthy(req.email).Some? ==> FindContactByEmail(s, req.email.value).None?
    requires Truthy(req.phoneNumber).Some? ==> FindContactByPhone(s, req.phoneNumber.value).None?
    ensures Identify(s, req) == (s, BadRequest(BothRequiredForNewContact))
  {
  }

  /** Both fields given, both unknown: exactly one PRIMARY row is added and the
      answer is that row alone. */
  lemma NewIdentity(s: Store, email: string, phoneNumber: string)
    requires Valid(s)
    requires email != "" && phoneNumber != ""
    requires FindContactByEmail(s, email).None? && FindContactByPhone(s, phoneNumber).None?
    ensures var c := Contact(NextId(s), Some(email), Some(phoneNumber), Primary, None);
      Identify(s, Request(Some(email), Some(phoneNumber)))
        == (s + [c], Ok(ContactResponse(c.id, [email], [phoneNumber], [])))
  {
    var req := Request(Some(email), Some(phoneNumber));
    var c := NewPrimary(s, req);
    BranchCreate(s, req);
    FreshRowDetails(s, c);
    FormatLoneContact(c);
  }

  /** Both fields given, exactly one known: exactly one SECONDARY row is added, linked
      to the known contact's PRIMARY, and the answer is that group with the new row last. */
  lemma AddSecondary(s: Store, email: string, phoneNumber: string)
    requires Valid(s)
    requires email != "" && phoneNumber != ""
    requires FindContactByEmail(s, email).Some? != FindContactByPhone(s, phoneNumber).Some?
    ensures
      var hit := EitherHit(FindContactByEmail(s, email), FindContactByPhone(s, phoneNumber)).value;
      var pid := if hit.linkPrecedence == Primary then hit.id else hit.linkedId.value;
      var n := Contact(NextId(s), Some(email), Some(phoneNumber), Secondary, Some(pid));
      var r := Identify(s, Request(Some(email), Some(phoneNumber)));
      && r.0 == s + [n]
      && r.1.Ok?
      && r.1.contact.primaryContactId == pid
      && |r.1.contact.secondaryContactIds| > 0
      && r.1.contact.secondaryContactIds[|r.1.contact.secondaryContactIds| - 1] == NextId(s)
      && email in r.1.contact.emails && phoneNumber in r.1.contact.phoneNumbers
  {
    var req := Request(Some(email), Some(phoneNumber));
    OneHitMeansNoPair(s, email, phoneNumber);
    var n := NewSecondary(s, req);
    var pid := FoundPrimaryId(s, req);
    AddedGroup(s, req);
    FormatListsLastLinked(GetPrimaryContactDetails(s + [n], pid).value, n);
  }

  /** In the add-to-group branch the group read back is the known PRIMARY's group of
      `s` with the new row appended, so the answer is 200. */
  lemma AddedGroup(s: Store, req: Request)
    requires Valid(s) && AddsSecondary(s, req)
    ensures var n := NewSecondary(s, req);
      var pid := FoundPrimaryId(s, req);
      var t := s + [n];
      && pid == (var hit := EitherHit(EmailHit(s, req), PhoneHit(s, req)).value;
                 if hit.linkPrecedence == Primary then hit.id else hit.linkedId.value)
      && Identify(s, req) == (t, Answer(t, pid))
      && GetPrimaryContactDetails(t, pid).Some?
      && GetPrimaryContactDetails(t, pid).value.linkedContacts == LinkedContacts(s, pid) + [n]
  {
    var hit := EitherHit(EmailHit(s, req), PhoneHit(s, req)).value;
    PrimaryIdOfNamesPrimary(s, hit);
    var pid := PrimaryIdOf(hit);
    var n := NewSecondary(s, req);
    BranchAdd(s, req);
    LinkedContactsAppend(s, n, pid);
    PrimaryIdAfterAppend(s, n, pid);
  }

  /** Both fields known on two different PRIMARY rows: the store is exactly the merge
      keeping the email hit, nothing is created, and the answer is the email hit's
      group, which now holds the phone hit and everything linked to either of them. */
  lemma MergeTwoPrimaries(s: Store, email: string, phoneNumber: string)
    requires email != "" && phoneNumber != ""
    requires FindContactByEmail(s, email).Some? && FindContactByPhone(s, phoneNumber).Some?
    requires
      var e := FindContactByEmail(s, email).value;
      var p := FindContactByPhone(s, phoneNumber).value;
      e.id != p.id && e.linkPrecedence == Primary && p.linkPrecedence == Primary
    ensures
      var e := FindContactByEmail(s, email).value;
      var p := FindContactByPhone(s, phoneNumber).value;
      var r := Identify(s, Request(Some(email), Some(phoneNumber)));
      && r.0 == MergePrimaryContacts(s, e, p)
      && r.1.Ok?
      && r.1.contact.primaryContactId == e.id
      && forall c :: c in s && c.id != e.id
           && (c.id == p.id || c.linkedId == Some(p.id) || c.linkedId == Some(e.id))
           ==> c.id in r.1.contact.secondaryContactIds
  {
    var req := Request(Some(email), Some(phoneNumber));
    var e := FindContactByEmail(s, email).value;
    var p := FindContactByPhone(s, phoneNumber).value;
    BranchMerge(s, req);
    var m := MergePrimaryContacts(s, e, p);
    var ie :| 0 <= ie < |s| && s[ie] == e;
    assert m[ie].id == e.id;
    var d := GetPrimaryContactDetails(m, e.id).value;
    var resp := FormatContactResponse(d);
    forall c | c in s && c.id != e.id && (c.id == p.id || c.linkedId == Some(p.id) || c.linkedId == Some(e.id))
      ensures c.id in resp.secondaryContactIds
    {
      var k :| 0 <= k < |s| && s[k] == c;
      assert m[k].linkedId == Some(e.id);
      assert m[k] in d.linkedContacts;
      var i :| 0 <= i < |d.linkedContacts| && d.linkedContacts[i] == m[k];
      assert resp.secondaryContactIds[i] == c.id;
    }
  }

  /** When both lookups hit, no row is created; unless the two hits are distinct
      PRIMARY rows, nothing is written at all. */
  lemma BothHitsCreateNothing(s: Store, req: Request)
    requires EmailHit(s, req).Some? && PhoneHit(s, req).Some?
    ensures |Identify(s, req).0| == |s|
    ensures !MergesPrimaries(s, req) ==> Identify(s, req).0 == s
  {
    if MergesPrimaries(s, req) {
      BranchMerge(s, req);
    } else {
      BranchNoWrite(s, req);
    }
  }

  /** A request carrying only one usable field never writes. */
  lemma SingleFieldNeverWrites(s: Store, req: Request)
    requires Truthy(req.email).None? || Truthy(req.phoneNumber).None?
    ensures Identify(s, req).0 == s
  {
    BranchNoWrite(s, req);
  }

  // ---------------------------------------------------------------------------
  // Across all branches
  // ---------------------------------------------------------------------------

  /** Every call keeps the store well formed: ids ascending and positive, links flat
      onto PRIMARY rows, and (email, phoneNumber) pairs unique. */
  lemma IdentifyPreservesValid(s: Store, req: Request)
    requires Valid(s)
    ensures Valid(Identify(s, req).0)
  {
    if AddsSecondary(s, req) {
      var hit := EitherHit(EmailHit(s, req), PhoneHit(s, req)).value;
      OneHitMeansNoPair(s, req.email.value, req.phoneNumber.value);
      PrimaryIdOfNamesPrimary(s, hit);
      BranchAdd(s, req);
      InsertPreservesValid(s, req.email.value, req.phoneNumber.value, Secondary, Some(PrimaryIdOf(hit)));
    } else if MergesPrimaries(s, req) {
      BranchMerge(s, req);
      MergePreservesValid(s, EmailHit(s, req).value, PhoneHit(s, req).value);
    } else if CreatesPrimary(s, req) {
      OneHitMeansNoPair(s, req.email.value, req.phoneNumber.value);
      BranchCreate(s, req);
      InsertPreservesValid(s, req.email.value, req.phoneNumber.value, Primary, None);
    } else {
      BranchNoWrite(s, req);
    }
  }

  /** One PRIMARY per identity: any two rows that share a non-null email or a non-null
      phone number belong to the same group, i.e. resolve to the same PRIMARY id. */
  ghost predicate SharedValueSamePrimary(s: Store) {
    forall i, j :: 0 <= i < |s| && 0 <= j < |s| && SharesValue(s[i], s[j]) ==>
      PrimaryIdOf(s[i]) == PrimaryIdOf(s[j])
  }

  predicate SharesValue(a: Contact, b: Contact) {
    (a.email.Some? && a.email == b.email) || (a.phoneNumber.Some? && a.phoneNumber == b.phoneNumber)
  }

  /** Every call keeps each identity under a single PRIMARY: a row added to a group
      shares values only with that group, a new identity shares values with nobody,
      and a merge renames one PRIMARY id to the other everywhere. */
  lemma IdentifyKeepsOnePrimaryPerIdentity(s: Store, req: Request)
    requires Valid(s) && SharedValueSamePrimary(s)
    ensures SharedValueSamePrimary(Identify(s, req).0)
  {
    if AddsSecondary(s, req) {
      BranchAdd(s, req);
      AddKeepsOnePrimary(s, req);
    } else if MergesPrimaries(s, req) {
      BranchMerge(s, req);
      MergeKeepsOnePrimary(s, EmailHit(s, req).value, PhoneHit(s, req).value);
    } else if CreatesPrimary(s, req) {
      BranchCreate(s, req);
      CreateKeepsOnePrimary(s, req);
    } else {
      BranchNoWrite(s, req);
    }
  }

  /** The new SECONDARY shares its email or phone only with rows of the group it joins. */
  lemma AddKeepsOnePrimary(s: Store, req: Request)
    requires Valid(s) && SharedValueSamePrimary(s) && AddsSecondary(s, req)
    ensures SharedValueSamePrimary(s + [NewSecondary(s, req)])
  {
    var n := NewSecondary(s, req);
    var t := s + [n];
    var hit := EitherHit(EmailHit(s, req), PhoneHit(s, req)).value;
    PrimaryIdOfNamesPrimary(s, hit);
    var pid := PrimaryIdOf(hit);
    var j0 :| 0 <= j0 < |s| && s[j0].id == pid && s[j0].linkPrecedence == Primary;
    assert PrimaryIdOf(n) == pid;
    forall j | 0 <= j < |s| && SharesValue(n, s[j])
      ensures PrimaryIdOf(s[j]) == pid
    {
      if n.email.Some? && n.email == s[j].email {
        assert Matches(s[j], ByEmail(req.email.value));
        assert EmailHit(s, req).Some?;
        assert SharesValue(hit, s[j]);
      } else {
        assert Matches(s[j], ByPhone(req.phoneNumber.value));
        assert PhoneHit(s, req).Some?;
        assert SharesValue(hit, s[j]);
      }
    }
    forall i, j | 0 <= i < |t| && 0 <= j < |t| && SharesValue(t[i], t[j])
      ensures PrimaryIdOf(t[i]) == PrimaryIdOf(t[j])
    {
      if i < |s| && j < |s| {
        assert t[i] == s[i] && t[j] == s[j];
      } else if i < |s| {
        assert t[i] == s[i] && t[j] == n;
        assert SharesValue(n, s[i]);
      } else if j < |s| {
        assert t[j] == s[j] && t[i] == n;
      }
    }
  }

  /** A new identity carries an email and a phone number no row has yet. */
  lemma CreateKeepsOnePrimary(s: Store, req: Request)
    requires SharedValueSamePrimary(s) && CreatesPrimary(s, req)
    ensures SharedValueSamePrimary(s + [NewPrimary(s, req)])
  {
    var c := NewPrimary(s, req);
    var t := s + [c];
    forall j | 0 <= j < |s|
      ensures !SharesValue(c, s[j]) && !SharesValue(s[j], c)
    {
      assert !Matches(s[j], ByEmail(req.email.value));
      assert !Matches(s[j], ByPhone(req.phoneNumber.value));
    }
    forall i, j | 0 <= i < |t| && 0 <= j < |t| && SharesValue(t[i], t[j])
      ensures PrimaryIdOf(t[i]) == PrimaryIdOf(t[j])
    {
      if i < |s| && j < |s| {
        assert t[i] == s[i] && t[j] == s[j];
      }
    }
  }

  /** After merging `p` into `e`, a row's PRIMARY id is its old one with `p.id` renamed to `e.id`. */
  lemma MergedPrimaryIdOf(s: Store, e: Contact, p: Contact, k: nat)
    requires Valid(s) && e in s && p in s
    requires e.linkPrecedence == Primary && p.linkPrecedence == Primary && e.id != p.id
    requires k < |s|
    ensures var was := PrimaryIdOf(s[k]);
      PrimaryIdOf(MergePrimaryContacts(s, e, p)[k]) == if was == p.id then e.id else was
  {
    var ie :| 0 <= ie < |s| && s[ie] == e;
    var ip :| 0 <= ip < |s| && s[ip] == p;
    assert s[ie].id >= 1 && s[ip].id >= 1;
    if s[k].linkedId.Some? {
      var x := s[k].linkedId.value;
      var j :| 0 <= j < |s| && s[j].id == x && s[j].linkPrecedence == Primary;
      assert s[j].id >= 1;
    }
    if s[k].id == e.id {
      assert k == ie;
    } else if s[k].id == p.id {
      assert k == ip;
    }
  }

  /** Merging renames one PRIMARY id to the other, so rows that agreed still agree. */
  lemma MergeKeepsOnePrimary(s: Store, e: Contact, p: Contact)
    requires Valid(s) && SharedValueSamePrimary(s) && e in s && p in s
    requires e.linkPrecedence == Primary && p.linkPrecedence == Primary && e.id != p.id
    ensures SharedValueSamePrimary(MergePrimaryContacts(s, e, p))
  {
    var m := MergePrimaryContacts(s, e, p);
    forall i, j | 0 <= i < |m| && 0 <= j < |m| && SharesValue(m[i], m[j])
      ensures PrimaryIdOf(m[i]) == PrimaryIdOf(m[j])
    {
      assert SharesValue(s[i], s[j]);
      MergedPrimaryIdOf(s, e, p, i);
      MergedPrimaryIdOf(s, e, p, j);
    }
  }

  /** On a well-formed store the handler never answers 404, and a 200 describes a
      real group: its id is a PRIMARY's, and its secondary ids are exactly the rows
      linked to that PRIMARY, each one a SECONDARY. */
  lemma IdentifyAnswersWithGroup(s: Store, req: Request)
    requires Valid(s)
    ensures !Identify(s, req).1.NotFound?
    ensures Identify(s, req).1.Ok? ==>
      var t := Identify(s, req).0;
      var resp := Identify(s, req).1.contact;
      && IsPrimaryId(t, resp.primaryContactId)
      && (forall j :: 0 <= j < |t| && t[j].linkedId == Some(resp.primaryContactId) ==>
            t[j].id in resp.secondaryContactIds)
      && (forall x :: x in resp.secondaryContactIds ==>
            exists j :: 0 <= j < |t| && t[j].id == x
              && t[j].linkedId == Some(resp.primaryContactId) && t[j].linkPrecedence == Secondary)
  {
    if EmailHit(s, req).Some? || PhoneHit(s, req).Some? || BothGiven(req) {
      var pid := ResolvedPrimary(s, req);
      AnswerForPrimary(Identify(s, req).0, pid);
    } else if Truthy(req.email).None? && Truthy(req.phoneNumber).None? {
      MissingBothFields(s, req);
    } else {
      NoMatchNeedsBothFields(s, req);
    }
  }

  /** Whenever the handler gets past its 400 checks on a well-formed store, it
      answers with the group of a PRIMARY of the store it leaves behind. */
  lemma ResolvedPrimary(s: Store, req: Request) returns (pid: nat)
    requires Valid(s)
    requires EmailHit(s, req).Some? || PhoneHit(s, req).Some? || BothGiven(req)
    ensures var t := Identify(s, req).0;
      && Valid(t) && IsPrimaryId(t, pid)
      && Identify(s, req).1 == Answer(t, pid)
  {
    IdentifyPreservesValid(s, req);
    if AddsSecondary(s, req) {
      var hit := EitherHit(EmailHit(s, req), PhoneHit(s, req)).value;
      PrimaryIdOfNamesPrimary(s, hit);
      BranchAdd(s, req);
      pid := FoundPrimaryId(s, req);
      PrimaryIdAfterAppend(s, NewSecondary(s, req), pid);
    } else if MergesPrimaries(s, req) {
      BranchMerge(s, req);
      MergePreservesValid(s, EmailHit(s, req).value, PhoneHit(s, req).value);
      pid := EmailHit(s, req).value.id;
    } else if CreatesPrimary(s, req) {
      BranchCreate(s, req);
      var t := Identify(s, req).0;
      assert t[|s|] == NewPrimary(s, req);
      pid := NextId(s);
    } else {
      var hit := EitherHit(EmailHit(s, req), PhoneHit(s, req)).value;
      PrimaryIdOfNamesPrimary(s, hit);
      BranchRead(s, req);
      pid := FoundPrimaryId(s, req);
    }
  }

  /** Resolving the same complete pair a second time writes nothing and gives the
      same answer: the first call leaves both fields findable, and the second call
      lands in the branch that only reads, on the same PRIMARY. */
  lemma IdentifyIsIdempotent(s: Store, email: string, phoneNumber: string)
    requires Valid(s)
    requires email != "" && phoneNumber != ""
    ensures
      var req := Request(Some(email), Some(phoneNumber));
      Identify(Identify(s, req).0, req) == Identify(s, req)
  {
    var req := Request(Some(email), Some(phoneNumber));
    if AddsSecondary(s, req) {
      RepeatAfterAdd(s, req);
    } else if MergesPrimaries(s, req) {
      RepeatAfterMerge(s, req);
    } else if CreatesPrimary(s, req) {
      RepeatAfterCreate(s, req);
    } else {
      BranchNoWrite(s, req);
    }
  }

  /** Appending a row keeps an earlier hit; otherwise the new row is hit when it carries the field. */
  lemma HitsAfterAppend(s: Store, c: Contact, req: Request)
    ensures EmailHit(s + [c], req) ==
      if EmailHit(s, req).Some? then EmailHit(s, req)
      else if Truthy(req.email).Some? && c.email == req.email then Some(c)
      else None
    ensures PhoneHit(s + [c], req) ==
      if PhoneHit(s, req).Some? then PhoneHit(s, req)
      else if Truthy(req.phoneNumber).Some? && c.phoneNumber == req.phoneNumber then Some(c)
      else None
  {
    if Truthy(req.email).Some? {
      FirstIndexAppend(s, c, ByEmail(req.email.value));
      assert (s + [c])[|s|] == c;
    }
    if Truthy(req.phoneNumber).Some? {
      FirstIndexAppend(s, c, ByPhone(req.phoneNumber.value));
      assert (s + [c])[|s|] == c;
    }
  }

  /** After the add-to-group branch, one hit is the old row and the other is the new
      SECONDARY, and both lead to the same PRIMARY. */
  lemma RepeatAfterAdd(s: Store, req: Request)
    requires Valid(s) && AddsSecondary(s, req)
    ensures Identify(Identify(s, req).0, req) == Identify(s, req)
  {
    var hit := EitherHit(EmailHit(s, req), PhoneHit(s, req)).value;
    PrimaryIdOfNamesPrimary(s, hit);
    var pid := FoundPrimaryId(s, req);
    var j :| 0 <= j < |s| && s[j].id == pid && s[j].linkPrecedence == Primary;
    assert pid >= 1;
    var n := NewSecondary(s, req);
    var t := s + [n];
    BranchAdd(s, req);
    HitsAfterAppend(s, n, req);
    assert FoundPrimaryId(t, req) == pid;
    BranchRead(t, req);
  }

  /** After a merge, the email hit is still found first and is PRIMARY, and the phone
      hit is now its SECONDARY, so the second call only reads. */
  lemma RepeatAfterMerge(s: Store, req: Request)
    requires Valid(s) && BothGiven(req) && MergesPrimaries(s, req)
    ensures Identify(Identify(s, req).0, req) == Identify(s, req)
  {
    var e := EmailHit(s, req).value;
    var p := PhoneHit(s, req).value;
    var t := MergePrimaryContacts(s, e, p);
    BranchMerge(s, req);
    FirstIndexSameKeys(s, t, ByEmail(req.email.value));
    FirstIndexSameKeys(s, t, ByPhone(req.phoneNumber.value));
    var ie := FirstIndex(s, ByEmail(req.email.value)).value;
    var ip := FirstIndex(s, ByPhone(req.phoneNumber.value)).value;
    assert EmailHit(t, req) == Some(t[ie]) && PhoneHit(t, req) == Some(t[ip]);
    assert t[ie] == e.(linkPrecedence := Primary, linkedId := None);
    assert t[ip].linkPrecedence == Secondary;
    BranchRead(t, req);
  }

  /** After a new identity, both fields find the new PRIMARY. */
  lemma RepeatAfterCreate(s: Store, req: Request)
    requires CreatesPrimary(s, req)
    ensures Identify(Identify(s, req).0, req) == Identify(s, req)
  {
    var c := NewPrimary(s, req);
    BranchCreate(s, req);
    HitsAfterAppend(s, c, req);
    BranchRead(s + [c], req);
  }

  /** On a store with ascending ids, the secondary ids of a group come out strictly
      ascending, as one would expect of secondaryContactIds, although the code never sorts them. */
  lemma SecondaryIdsAscending(s: Store, id: nat)
    requires IdsAscending(s)
    requires GetPrimaryContactDetails(s, id).Some?
    ensures var ids := FormatContactResponse(GetPrimaryContactDetails(s, id).value).secondaryContactIds;
      forall i, j :: 0 <= i < j < |ids| ==> ids[i] < ids[j]
  {
    LinkedContactsAscending(s, id);
  }

  /** The answer lists the PRIMARY's value first and then the linked contacts' values
      in their order, with nulls dropped. */
  lemma FormatOrder(d: ContactDetails)
    ensures FormatContactResponse(d).emails ==
      (if d.contact.email.Some? then [d.contact.email.value] else []) + Somes(Column(d.linkedContacts, Email))
    ensures FormatContactResponse(d).phoneNumbers ==
      (if d.contact.phoneNumber.Some? then [d.contact.phoneNumber.value] else [])
        + Somes(Column(d.linkedContacts, Phone))
  {
    var group := [d.contact] + d.linkedContacts;
    ColumnAppend([d.contact], d.linkedContacts, Email);
    ColumnAppend([d.contact], d.linkedContacts, Phone);
    assert Column([d.contact], Email) == [d.contact.email];
    assert Column([d.contact], Phone) == [d.contact.phoneNumber];
    SomesAppend([d.contact.email], Column(d.linkedContacts, Email));
    SomesAppend([d.contact.phoneNumber], Column(d.linkedContacts, Phone));
    assert [d.contact.email][1..] == [];
    assert [d.contact.phoneNumber][1..] == [];
  }

  // ---------------------------------------------------------------------------
  // Where the handler departs from "the oldest contact is the PRIMARY"
  // ---------------------------------------------------------------------------

  /** Two PRIMARY rows: id 1 with ("a", "1") and id 2 with ("b", "2"). */
  function TwoIdentities(): Store {
    [Contact(1, Some("a"), Some("1"), Primary, None), Contact(2, Some("b"), Some("2"), Primary, None)]
  }

  /** The two identities after the merge keeping id 2. */
  function MergedUnderNewer(): Store {
    [Contact(1, Some("a"), Some("1"), Secondary, Some(2)), Contact(2, Some("b"), Some("2"), Primary, None)]
  }

  /** Linking the newer email to the older phone merges the two identities under the
      NEWER row: the merge always keeps the email hit, whatever the ids. */
  lemma NewerEmailHitSurvives()
    ensures var r := Identify(TwoIdentities(), Request(Some("b"), Some("1")));
      && r.0 == MergedUnderNewer()
      && r.1 == Ok(ContactResponse(2, ["b", "a"], ["2", "1"], [1]))
  {
    var s := TwoIdentities();
    var req := Request(Some("b"), Some("1"));
    NewerEmailHitLookups();
    BranchMerge(s, req);
    MergedUnderNewerIsMerge();
    MergedUnderNewerDetails();
    MergedUnderNewerFormat();
  }

  lemma NewerEmailHitLookups()
    ensures var s := TwoIdentities();
      var req := Request(Some("b"), Some("1"));
      EmailHit(s, req) == Some(s[1]) && PhoneHit(s, req) == Some(s[0])
  {
    var s := TwoIdentities();
    assert FirstIndex(s[1..], ByEmail("b")) == Some(0);
  }

  lemma MergedUnderNewerIsMerge()
    ensures var s := TwoIdentities();
      MergePrimaryContacts(s, s[1], s[0]) == MergedUnderNewer()
  {
    var s := TwoIdentities();
    var r := MergePrimaryContacts(s, s[1], s[0]);
    assert r[0] == s[0].(linkPrecedence := Secondary, linkedId := Some(2));
    assert r[1] == s[1].(linkPrecedence := Primary, linkedId := None);
  }

  lemma MergedUnderNewerDetails()
    ensures var m := MergedUnderNewer();
      GetPrimaryContactDetails(m, 2) == Some(ContactDetails(m[1], [m[0]]))
  {
    var m := MergedUnderNewer();
    assert m[1..][1..] == [];
    assert FirstIndex(m[1..], ById(2)) == Some(0);
    assert FindFirst(m, ById(2)) == Some(m[1]);
    assert LinkedContacts(m[1..], 2) == [];
    assert LinkedContacts(m, 2) == [m[0]];
  }

  lemma MergedUnderNewerFormat()
    ensures var m := MergedUnderNewer();
      FormatContactResponse(ContactDetails(m[1], [m[0]])) == ContactResponse(2, ["b", "a"], ["2", "1"], [1])
  {
    var m := MergedUnderNewer();
    FormatPair(m[1], m[0]);
  }

  /** PRIMARY id 1 with ("a", "1"), PRIMARY id 2 with ("b", "2"), and id 3 with
      ("c", "1"), a SECONDARY of id 1. */
  function TwoGroups(): Store {
    TwoIdentities() + [Contact(3, Some("c"), Some("1"), Secondary, Some(1))]
  }

  /** When the email hit is a SECONDARY, no merge happens even though the phone hit is a
      PRIMARY of another group: the store is unchanged, both PRIMARY rows remain, and the
      answer describes the email hit's group only, so the requested phone "2" is absent
      from it while "1" is listed twice. */
  lemma SecondaryHitLeavesGroupsApart()
    ensures var r := Identify(TwoGroups(), Request(Some("c"), Some("2")));
      && r.0 == TwoGroups()
      && IsPrimaryId(r.0, 1) && IsPrimaryId(r.0, 2)
      && r.1 == Ok(ContactResponse(1, ["a", "c"], ["1", "1"], [3]))
  {
    var s := TwoGroups();
    var req := Request(Some("c"), Some("2"));
    SecondaryHitLookups();
    BranchRead(s, req);
    SecondaryHitAnswer();
    assert Matches(s[0], ById(1)) && Matches(s[1], ById(2));
  }

  lemma SecondaryHitAnswer()
    ensures Answer(TwoGroups(), 1) == Ok(ContactResponse(1, ["a", "c"], ["1", "1"], [3]))
  {
    TwoGroupsDetails();
    TwoGroupsFormat();
  }

  lemma TwoGroupsFormat()
    ensures var s := TwoGroups();
      FormatContactResponse(ContactDetails(s[0], [s[2]])) == ContactResponse(1, ["a", "c"], ["1", "1"], [3])
  {
    var s := TwoGroups();
    FormatPair(s[0], s[2]);
  }

  lemma SecondaryHitLookups()
    ensures var s := TwoGroups();
      var req := Request(Some("c"), Some("2"));
      && EmailHit(s, req) == Some(s[2]) && PhoneHit(s, req) == Some(s[1])
      && FoundPrimaryId(s, req) == 1
  {
    var s := TwoGroups();
    assert !Matches(s[0], ByEmail("c")) && !Matches(s[1], ByEmail("c")) && Matches(s[2], ByEmail("c"));
    assert !Matches(s[0], ByPhone("2")) && Matches(s[1], ByPhone("2"));
  }

  lemma TwoGroupsDetails()
    ensures var s := TwoGroups();
      GetPrimaryContactDetails(s, 1) == Some(ContactDetails(s[0], [s[2]]))
  {
    var s := TwoGroups();
    assert FirstIndex(s, ById(1)) == Some(0);
    assert FindFirst(s, ById(1)) == Some(s[0]);
    assert s[2..][1..] == [];
    assert LinkedContacts(s[2..], 1) == [s[2]];
    assert LinkedContacts(s[1..], 1) == [s[2]];
    assert LinkedContacts(s, 1) == [s[2]];
  }

  /** A PRIMARY with both fields and one linked contact: the PRIMARY's values first,
      then whichever values the linked contact has, and its id as the only secondary id. */
  lemma FormatPair(c: Contact, n: Contact)
    requires c.email.Some? && c.phoneNumber.Some?
    ensures FormatContactResponse(ContactDetails(c, [n])) == ContactResponse(
      c.id,
      [c.email.value] + (if n.email.Some? then [n.email.value] else []),
      [c.phoneNumber.value] + (if n.phoneNumber.Some? then [n.phoneNumber.value] else []),
      [n.id])
  {
    var d := ContactDetails(c, [n]);
    var r := FormatContactResponse(d);
    FormatOrder(d);
    assert Column([n], Email) == [n.email] && Column([n], Phone) == [n.phoneNumber];
    SomesOfOne(n.email);
    SomesOfOne(n.phoneNumber);
    assert r.secondaryContactIds == [n.id];
  }

  lemma SomesOfOne(o: Option<string>)
    ensures Somes([o]) == if o.Some? then [o.value] else []
  {
    assert [o][1..] == [];
  }

  /** The formatter drops nulls but keeps repeated values: a group whose two rows share
      an email lists that email twice. */
  lemma FormatKeepsDuplicates()
    ensures var d := ContactDetails(Contact(1, Some("a"), Some("1"), Primary, None),
                                    [Contact(2, Some("a"), None, Secondary, Some(1))]);
      FormatContactResponse(d) == ContactResponse(1, ["a", "a"], ["1"], [2])
  {
    FormatPair(Contact(1, Some("a"), Some("1"), Primary, None), Contact(2, Some("a"), None, Secondary, Some(1)));
  }
}
