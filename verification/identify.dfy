/** The decision procedure of the `POST /identify` handler in src/index.ts. Each
    call is one atomic step from a store to a new store and an HTTP outcome. */
module IdentifyHandler {
  import opened Options
  import opened Contacts
  import opened ContactService

  /** The request body; either field may be missing. */
  datatype Request = Request(email: Option<string>, phoneNumber: Option<string>)

  /** The two 400 responses the handler can send. */
  datatype Reason = EmailOrPhoneRequired | BothRequiredForNewContact

  /** 200 with the consolidated contact, 400, or 404. */
  datatype Outcome = Ok(contact: ContactResponse) | BadRequest(reason: Reason) | NotFound

  /** JavaScript truthiness of an optional string: a missing field and "" are both falsy. */
  function Truthy(o: Option<string>): Option<string>
  {
    if o.Some? && o.value != "" then o else None
  }

  /** `linkedId || id`: a missing or zero linkedId falls back to the contact's own id. */
  function PrimaryIdOf(c: Contact): nat {
    if c.linkedId.Some? && c.linkedId.value != 0 then c.linkedId.value else c.id
  }

  /** The contact found by the email lookup, when an email was given. */
  function EmailHit(s: Store, req: Request): Option<Contact> {
    var email := Truthy(req.email);
    if email.Some? then FindContactByEmail(s, email.value) else None
  }

  /** The contact found by the phone lookup, when a phone number was given. */
  function PhoneHit(s: Store, req: Request): Option<Contact> {
    var phone := Truthy(req.phoneNumber);
    if phone.Some? then FindContactByPhone(s, phone.value) else None
  }

  /** The store written so far and the `primaryContactDetails` variable of the handler. */
  datatype Progress = Progress(store: Store, details: Option<ContactDetails>)

  /** The email hit wins over the phone hit wherever the handler writes `a || b`. */
  function EitherHit(byEmail: Option<Contact>, byPhone: Option<Contact>): Option<Contact> {
    if byEmail.Some? then byEmail else byPhone
  }

  /** Both fields given and exactly one of them known, and the exact pair not stored:
      add a SECONDARY under the known contact's `linkedId || id` and read that group. */
  function AddToFoundGroup(s: Store, email: Option<string>, phone: Option<string>,
                           byEmail: Option<Contact>, byPhone: Option<Contact>): Progress
  {
    if email.Some? && phone.Some? && byEmail.Some? != byPhone.Some?
       && FindContactByEmailAndPhone(s, email.value, phone.value).None?
    then
      var primaryContactId := PrimaryIdOf(EitherHit(byEmail, byPhone).value);
      var s' := CreateSecondaryContact(s, email.value, phone.value, primaryContactId).0;
      Progress(s', GetPrimaryContactDetails(s', primaryContactId))
    else Progress(s, None)
  }

  /** Both fields known, on different rows that are both PRIMARY: the email hit
      absorbs the phone hit, and its group is read. */
  function MergeFoundPrimaries(p: Progress, byEmail: Option<Contact>, byPhone: Option<Contact>): Progress
  {
    if byEmail.Some? && byPhone.Some? && byEmail.value.id != byPhone.value.id
       && byEmail.value.linkPrecedence == Primary && byPhone.value.linkPrecedence == Primary
    then
      var s' := MergePrimaryContacts(p.store, byEmail.value, byPhone.value);
      Progress(s', GetPrimaryContactDetails(s', byEmail.value.id))
    else p
  }

  /** Neither field known (and both given): a new PRIMARY, read back with its relations. */
  function CreateNewIdentity(p: Progress, email: string, phone: string): Progress
  {
    var (s', c) := CreateNewPrimaryContact(p.store, email, phone);
    Progress(s', GetPrimaryContactDetails(s', c.id))
  }

  /** Nothing read yet: read the group of whichever contact was found, email first. */
  function ReadFoundGroup(p: Progress, byEmail: Option<Contact>, byPhone: Option<Contact>): Option<ContactDetails>
  {
    if p.details.None? && (byEmail.Some? || byPhone.Some?) then
      GetPrimaryContactDetails(p.store, PrimaryIdOf(EitherHit(byEmail, byPhone).value))
    else p.details
  }

  /** The whole handler. The store grows by at most one row, no row is removed, and
      the key columns of existing rows never change; a 400 leaves the store untouched;
      a new row always carries both request fields under the next id. */
  function Identify(s: Store, req: Request): (r: (Store, Outcome))
    ensures |s| <= |r.0| <= |s| + 1
    ensures forall i :: 0 <= i < |s| ==>
      r.0[i].id == s[i].id && r.0[i].email == s[i].email && r.0[i].phoneNumber == s[i].phoneNumber
    ensures r.1.BadRequest? ==> r.0 == s
    ensures |r.0| == |s| + 1 ==>
      && Truthy(req.email).Some? && Truthy(req.phoneNumber).Some?
      && r.0[|s|].email == req.email && r.0[|s|].phoneNumber == req.phoneNumber
      && r.0[|s|].id == NextId(s)
  {
    var email := Truthy(req.email);
    var phone := Truthy(req.phoneNumber);
    if email.None? && phone.None? then (s, BadRequest(EmailOrPhoneRequired))
    else
      var byEmail := EmailHit(s, req);
      var byPhone := PhoneHit(s, req);
      var p1 := AddToFoundGroup(s, email, phone, byEmail, byPhone);
      var p2 := MergeFoundPrimaries(p1, byEmail, byPhone);
      if byEmail.None? && byPhone.None? && (email.None? || phone.None?) then
        (p2.store, BadRequest(BothRequiredForNewContact))
      else
        var p3 := if byEmail.None? && byPhone.None? then CreateNewIdentity(p2, email.value, phone.value) else p2;
        var details := ReadFoundGroup(p3, byEmail, byPhone);
        if details.None? then (p3.store, NotFound)
        else (p3.store, Ok(FormatContactResponse(details.value)))
  }
}
