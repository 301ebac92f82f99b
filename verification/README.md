# Contact identity resolution (`POST /identify`)

This project models the identity-resolution core of the bitespeed service. That
core is the `POST /identify` handler and the `ContactService` class it drives,
both in `src/index.ts`.

- **Store.** The Prisma-backed `Contact` table becomes an in-memory sequence of
  rows in ascending-id order (`Contacts.Store`).
- **ContactService.** Each of its database calls becomes a pure function from
  store to store, or from store to answer. This covers the lookups, the inserts,
  the three-write merge, the group read and the response formatter.
- **Handler.** The whole handler becomes one pure function, `IdentifyHandler.Identify`,
  from a store and a request to the new store and an HTTP outcome: 200 with the
  consolidated contact, 400 with one of two reasons, or 404.

The handler's steps are kept in the code's order:

1. validation;
2. the two lookups;
3. "add a SECONDARY to the known group";
4. "merge two PRIMARY rows";
5. "create a new identity";
6. "read the group of whichever contact was found";
7. formatting.

The proofs state several properties of the handler:

- **Branches.** What each branch writes and answers.
- **Invariants.** Every call keeps the store well formed (`Contacts.Valid`):
  - ids are ascending and positive;
  - PRIMARY rows carry no link;
  - SECONDARY rows link directly to a PRIMARY;
  - complete (email, phoneNumber) pairs are unique.

  Every call on a well-formed store also keeps one PRIMARY per identity
  (`IdentifyProperties.SharedValueSamePrimary`): any two rows sharing a non-null
  email or a non-null phone number resolve to the same PRIMARY id.
- **Answers.** On a well-formed store the handler never answers 404, and a 200
  lists exactly the rows linked to a PRIMARY.
- **Idempotence.** Sending the same complete pair twice writes nothing the second
  time and gives the same answer.

Modules:

- `Options`: the nullable-value type, and the "drop the nulls" step of the formatter.
- `Contacts`: the row type, the store, the well-formedness invariants and autoincrement.
- `ContactService`: one function per service method.
- `StoreFacts`: how inserts and the merge act on the invariants and on later lookups.
- `IdentifyHandler`: the handler.
- `IdentifyProperties`: one section per property group:
  - the per-branch equations and the per-branch answers;
  - the cross-branch invariants and idempotence;
  - worked examples of where the code departs from what one would expect.

## Code versus expectation

Of an identity-reconciliation service one would expect more than `src/index.ts`
does: the oldest contact of an identity staying its PRIMARY, one request touching
two identities joining them, and response lists free of repeats and sorted. The model follows the code, and the
lemmas below show each difference on a concrete store.

- **The merge keeps the email hit as PRIMARY.** One would expect the oldest row
  (smallest id) to stay PRIMARY. The code at `src/index.ts:197-199` keeps
  whichever row the email lookup found. See `IdentifyProperties.NewerEmailHitSurvives`:
  the newer row, id 2, absorbs the older row, id 1.
- **Two groups are joined only when both hits are PRIMARY.** One would expect two
  groups to be joined whenever one request touches both. In the code, if either
  hit is a SECONDARY, the two groups stay apart and nothing is written. See
  `IdentifyProperties.SecondaryHitLeavesGroupsApart`: the answer describes only
  the email hit's group, so the requested phone "2" is absent from it while "1"
  is listed twice.
- **The formatter keeps duplicates.** One would expect `emails` and
  `phoneNumbers` to list each value once. The formatter at `src/index.ts:121-138`
  only drops nulls, so a value shared by two rows of a group is listed twice. See
  `IdentifyProperties.FormatKeepsDuplicates` and `ContactService.FormatCountsValues`.
- **Secondary ids are not sorted by the code.** One would expect
  `secondaryContactIds` in ascending order. The code returns Prisma's relation
  order, which the model takes to be store order. Under that reading the ids come
  out ascending (`IdentifyProperties.SecondaryIdsAscending`).

## Model

| member | source | states |
|---|---|---|
| Options.Somes | src/index.ts:122-130 | the `filter(x => x !== null)` step never lengthens the list and keeps a leading present value first |
| Options.SomesCounts | src/index.ts:122-130 | the filter drops only nulls and deduplicates nothing: every present value keeps exactly as many occurrences as it had (multiset equality) |
| Options.SomesAppend | src/index.ts:122-130 | dropping nulls distributes over concatenation, so the order of the remaining values is the order of the group |
| Contacts.MaxId | src/index.ts:96-109 | the largest id in use bounds every id and is one of them (0 for an empty table) |
| Contacts.NextId | src/index.ts:96-109 | the autoincrement id given to an insert is at least 1 and above every id in use |
| ContactService.FirstIndex | src/index.ts:28-46 | the position returned is the first row matching the `where` clause; no earlier row matches; None exactly when no row matches |
| ContactService.FindFirst | src/index.ts:28-46 | `findFirst` finds a row exactly when one matches; the row found matches and is in the table; on a table in id order it has the lowest id among the matching rows |
| ContactService.FindContactByEmailAndPhone | src/index.ts:48-54 | `findUnique` on the (phoneNumber, email) constraint finds a row exactly when some row holds both values, and under the unique constraint that row is the only one |
| ContactService.PairMatchIsUnique | src/index.ts:48-54 | under the unique constraint no two positions hold the same complete pair |
| ContactService.Insert | src/index.ts:56-65 | `create` appends one row with the given email, phone, precedence and link under a fresh id above every id in use; nothing else changes |
| ContactService.MergePrimaryContacts | src/index.ts:67-94 | after the three writes, row by row: the kept row is PRIMARY with no link; the absorbed row and every row linked to it become SECONDARY under the kept row; every other row is untouched; no id, email or phone changes |
| ContactService.LinkedContacts | src/index.ts:111-119 | the `linkedContacts` relation holds exactly the rows whose linkedId is the given id |
| ContactService.LinkedContactsAscending | src/index.ts:111-119 | on a table in id order, the linked contacts come out in strictly ascending id order |
| ContactService.GetPrimaryContactDetails | src/index.ts:111-119 | `findUnique` by id returns a result exactly when the id exists; the result is that row, with exactly the rows linked to it |
| ContactService.ColumnAppend | src/index.ts:122-130 | the `.map(c => c.email)` / `.map(c => c.phoneNumber)` columns distribute over concatenation, so the group's column is the contact's own value followed by the linked contacts' values in order |
| ContactService.FormatContactResponse | src/index.ts:121-138 | the response carries the contact's id; the secondary ids are the linked contacts' ids in order; each value list is at most one longer than the linked contacts; the contact's own email and phone come first when present |
| ContactService.FormatCountsValues | src/index.ts:121-138 | every non-null email and phone of the group appears in the response exactly as often as in the group, so nothing is deduplicated and nothing is invented |
| StoreFacts.InsertPreservesValid | src/index.ts:56-65 | inserting a row whose link points to a PRIMARY (or which is a PRIMARY itself) and whose pair is not taken keeps the table well formed |
| StoreFacts.MergePreservesValid | src/index.ts:67-94 | merging two distinct PRIMARY rows keeps the table well formed, and the kept row is a PRIMARY afterwards |
| StoreFacts.SameKeysKeepIdsAndPairs | src/index.ts:67-94 | the merge's writes touch only precedence and link, so ascending ids, positive ids and unique pairs carry over |
| StoreFacts.FirstIndexAppend | src/index.ts:28-46 | after an insert, an earlier first match is unchanged, and otherwise the new row is found when it matches |
| StoreFacts.FirstIndexSameKeys | src/index.ts:28-46 | two tables that agree on id, email and phone row by row answer every lookup alike, so a merge never changes what the lookups find |
| StoreFacts.LinkedContactsAppend | src/index.ts:111-119 | inserting a row appends it at the end of its target's linked contacts and changes no other group |
| IdentifyProperties.EmptyFieldIsMissing | src/index.ts:166-208 | JavaScript truthiness: a request whose email (or phone number) is the empty string gets exactly the same store and answer as one where that field is missing, in the validation, the lookups, the add branch and the create check |
| IdentifyHandler.Identify | src/index.ts:166-227 | one call adds at most one row and never removes one; no row's id, email or phone changes; a 400 writes nothing; an added row carries both request fields under the next id |
| IdentifyProperties.BranchAdd | src/index.ts:182-194 | both fields given, exactly one found, pair not stored: the table gains one SECONDARY under the found contact's PRIMARY id (its link, or its own id when it has none), and that group is the answer |
| IdentifyProperties.MergeStep | src/index.ts:196-200 | with two distinct PRIMARY hits the add step writes nothing, and the merge step reads the email hit's group, which exists |
| IdentifyProperties.BranchMerge | src/index.ts:196-200 | two distinct PRIMARY hits: the table becomes the merge keeping the email hit, and that row's group is the answer (its step `AfterAHit` unfolds the handler once a lookup has found something) |
| IdentifyProperties.BranchCreate | src/index.ts:202-211 | both fields given and neither found: the table gains one PRIMARY, and its group is the answer |
| IdentifyProperties.BranchRead | src/index.ts:213-220 | something found but neither the add nor the merge applies: nothing is written, and the answer is the group of the found contact's PRIMARY id (its link, or its own id when it has none) |
| IdentifyProperties.BranchNoWrite | src/index.ts:166-227 | outside the add, merge and create branches the table is left unchanged |
| IdentifyProperties.PrimaryIdOfNamesPrimary | src/index.ts:189 | in a well-formed table, a contact's link, or its own id when it has none, names a PRIMARY: the contact itself if it is PRIMARY, its link otherwise |
| IdentifyProperties.OneHitMeansNoPair | src/index.ts:182-186 | when only one field is found, the exact pair cannot be stored, so `findUnique` finds nothing |
| IdentifyProperties.NothingLinksToNextId | src/index.ts:96-109 | in a well-formed table no row links to the id the next insert will receive |
| IdentifyProperties.PrimaryIdAfterAppend | src/index.ts:190 | a PRIMARY stays a PRIMARY after an insert |
| IdentifyProperties.FreshRowDetails | src/index.ts:210 | a freshly created PRIMARY is read back with no linked contacts, which is what `create ... include` returns |
| IdentifyProperties.FormatLoneContact | src/index.ts:121-138 | a lone contact with both fields is answered with exactly its email, its phone and no secondary ids |
| IdentifyProperties.FormatListsLastLinked | src/index.ts:121-138 | the last linked contact's id closes the secondary id list, and its email and phone are listed |
| IdentifyProperties.AnswerForPrimary | src/index.ts:111-138 | reading and formatting a PRIMARY of a well-formed table gives 200, with that id and exactly the rows linked to it, each a SECONDARY |
| IdentifyProperties.MissingBothFields | src/index.ts:169-171 | neither field given: 400 "Either email or phoneNumber is required", nothing written |
| IdentifyProperties.NoMatchNeedsBothFields | src/index.ts:203-208 | one field given and not found: 400 "Email and phoneNumber are required to create new Contact", nothing written |
| IdentifyProperties.NewIdentity | src/index.ts:203-211 | both fields new: exactly one PRIMARY row is added under the next id, and the answer is that row alone with its email and phone |
| IdentifyProperties.AddSecondary | src/index.ts:182-194 | both fields given, exactly one found: exactly one SECONDARY row is added, linked to the found contact's PRIMARY; the answer is 200 for that PRIMARY, with the new id last and both request values listed |
| IdentifyProperties.AddedGroup | src/index.ts:182-194 | in the add branch the group read back is the known PRIMARY's old group with the new row appended |
| IdentifyProperties.MergeTwoPrimaries | src/index.ts:196-200 | both fields found on two distinct PRIMARY rows: the table is exactly the merge keeping the email hit; the answer names the email hit and lists the phone hit and every row formerly linked to either |
| IdentifyProperties.BothHitsCreateNothing | src/index.ts:196-220 | when both lookups find a row, no row is created, and unless both are distinct PRIMARY rows nothing is written |
| IdentifyProperties.SingleFieldNeverWrites | src/index.ts:182-211 | a request with only one usable field never writes |
| IdentifyProperties.IdentifyPreservesValid | src/index.ts:166-227 | every call keeps the table well formed: ascending positive ids, flat links onto PRIMARY rows, unique pairs |
| IdentifyProperties.IdentifyKeepsOnePrimaryPerIdentity | src/index.ts:182-211 | every call on a well-formed table keeps one PRIMARY per identity: rows sharing a non-null email or phone resolve to the same PRIMARY id (steps: `AddKeepsOnePrimary`, `CreateKeepsOnePrimary`, `MergeKeepsOnePrimary`) |
| IdentifyProperties.MergedPrimaryIdOf | src/index.ts:67-94 | after a merge, each row's PRIMARY id is its old one with the absorbed PRIMARY's id renamed to the surviving one |
| IdentifyProperties.IdentifyAnswersWithGroup | src/index.ts:213-227 | on a well-formed table the handler never answers 404, and a 200 names a PRIMARY and lists exactly the rows linked to it, each a SECONDARY |
| IdentifyProperties.ResolvedPrimary | src/index.ts:179-227 | past the 400 checks, the answer is the group of a PRIMARY of the resulting well-formed table |
| IdentifyProperties.IdentifyIsIdempotent | src/index.ts:166-227 | sending the same complete pair again writes nothing and gives the same answer |
| IdentifyProperties.HitsAfterAppend | src/index.ts:174-177 | after an insert, an earlier hit is kept, and otherwise the new row is found when it carries the requested value |
| IdentifyProperties.RepeatAfterAdd | src/index.ts:182-194 | after the add branch, a repeat of the request reads the same group and writes nothing |
| IdentifyProperties.RepeatAfterMerge | src/index.ts:196-200 | after a merge, a repeat of the request finds the kept PRIMARY and its new SECONDARY, and only reads |
| IdentifyProperties.RepeatAfterCreate | src/index.ts:202-211 | after a new identity, a repeat of the request finds the new PRIMARY through both fields, and only reads |
| IdentifyProperties.SecondaryIdsAscending | src/index.ts:133-136 | on a table in id order, the secondary ids of a response are strictly ascending |
| IdentifyProperties.FormatOrder | src/index.ts:121-138 | emails and phone numbers list the contact's own value first, then the linked contacts' values in order, with nulls dropped |
| IdentifyProperties.NewerEmailHitSurvives | src/index.ts:174-200 | concrete case: a newer email hit absorbs an older phone hit, so the surviving PRIMARY is not the oldest row; the table after the call and the exact 200 body are stated (its steps are the lookups `NewerEmailHitLookups`, the three writes `MergedUnderNewerIsMerge`, the group read `MergedUnderNewerDetails` and the formatting `MergedUnderNewerFormat`) |
| IdentifyProperties.SecondaryHitLeavesGroupsApart | src/index.ts:196-220 | concrete case: an email hit that is a SECONDARY and a phone hit that is a PRIMARY of another group cause no write, both PRIMARY rows remain, and the exact 200 body lists the email hit's group only (steps: `SecondaryHitLookups`, `TwoGroupsDetails`, `TwoGroupsFormat`, `SecondaryHitAnswer`) |
| IdentifyProperties.FormatPair | src/index.ts:121-138 | a group of one contact with both fields and one linked contact is answered with the contact's values, then the linked contact's present values, and the linked id as the only secondary id |
| IdentifyProperties.FormatKeepsDuplicates | src/index.ts:121-138 | concrete case: two rows of one group sharing an email make that email appear twice in the response |

## Left out

- **Express plumbing.** The Express app, middleware, logging, cookie parsing,
  the `GET /` route and `asyncHandler` are HTTP plumbing with no decision logic.
  An HTTP response is modelled only by its outcome (`Ok`, `BadRequest` with a
  reason, or `NotFound`) and the response body.
- **Errors raised inside Prisma.** `asyncHandler` passes these on to Express. The
  model assumes every store operation succeeds.
- **Async scheduling.** The Prisma client, `async`/`await` and `Promise.all` are
  left out. The two lookups read the same table, and one handler call is
  modelled as a single atomic step.
- **Concurrency.** Interleavings of concurrent requests and transaction isolation
  are left out. The code uses no transaction, and the model assumes that calls
  run one at a time.
- **Timestamps.** The Prisma schema's timestamp columns are never read by the
  logic.
- **Relation reads.** The `linkedContact` relation included by the lookups is
  never read.
- **The response field name.** The JSON field is spelled `primaryContatctId` in
  the source. The model's field is `primaryContactId`; serialisation is not
  modelled.
- **Other request bodies.** Only string-or-missing fields are modelled.
  Non-string JSON values (numbers, objects) are out of scope. An empty string is
  treated as missing, following JavaScript truthiness.
- **Row order.** Prisma's row order for `findFirst` and for the `linkedContacts`
  relation is taken to be ascending id, the order of autoincrement inserts. The
  database does not guarantee this.
- **Autoincrement.** Autoincrement is modelled as one more than the largest id
  in use. A real sequence may skip values; no property here depends on the
  exact value, only on its being fresh and larger.
- **Build output.** `dist/index.js` (a stale build) and `index.js` (a stub) are
  not part of this model.
- **Separate create and read.** `ContactService.CreateNewPrimaryContact` and
  `ContactService.CreateSecondaryContact` are thin wrappers over
  `ContactService.Insert`, whose contract covers them. The handler reads a new
  identity back through `GetPrimaryContactDetails` instead of through the
  create call's `include`. `IdentifyProperties.FreshRowDetails` shows that both
  give the same result.
