# Document consent: a verified model

This project models the rule-bearing core of a document-consent feature: versioned
policy documents made of contents and statements, the answers users give to
those statements, and a user's compliance with the documents their team must
accept. On the backend it covers the repository queries (document lists,
the latest version by `validFrom`, the per-version statement summary), the
consent service (marking versions as responded, computing compliance, saving
a batch of answers) and the repository insert of one answer. On the client it
covers the review screen's choice state and submission gate, the
`userResponded` pipe, the agreements step, the registration wizard's state
service with its browser store, and the two route guards.

The ORM queries are modelled as functions over in-memory tables: documents with
their nested versions, contents, statements and team requirements, plus a flat
sequence of answer rows. Code that changes state step by step is modelled
imperatively:
- the annotation and compliance loops;
- the batch save over a repository class;
- the in-place sorts, modelled as an insertion sort on an `array`;
- the wizard service, a class whose store is a `map<string, string>`;
- the review screen, a class holding its entries and its `contents` array.

Modules:
- `Wrappers`: `Option` and `Result`.
- `Entities`: entities and DTOs.
- `Seqs`: filtering and set sizes.
- `Text`: number printing and `replace`.
- `Sorting`: an in-place sort with a comparator relation.
- One module per core source file: `DocumentRepository`, `UserStatementRepository`, `ConsentService`, `RegistrationStateService`, `Guards`, `DocumentReviewLayout`, `UserRespondedPipe` and `AgreementsPage`.

Where the design description and the code disagree, the model follows the code:
- **Responded.** The design says a version is responded iff every statement has an answer. The code compares counts (`totalStatements <= userStatements`, both non-zero). `ConsentService.CoverageImpliesResponded` proves one direction. `ConsentService.CountRuleAdmitsUnansweredStatement` shows the other direction fails: two answers to one statement and none to another count as responded.
- **`canLeaveRegistration`.** Its doc comment mentions reviewed documents. The code tests only `isRegistering` and the `completed` step.
- **`registrationPendingGuard`.** Its doc comment describes the opposite mapping. The code navigates to the current step when registration may be left, and otherwise redirects to `/shiftplan`.

## Model

All paths are under `document-consent-feature/`.

| member | source | states |
|---|---|---|
| Entities.ContentStatements | document-consent-feature/backend/methods/consent-service-method.ts:194-200 | the concatenated content statements number the sum of the contents' statement counts |
| Entities.ContentStatementsMembership | document-consent-feature/backend/methods/consent-service-method.ts:196-198 | a statement is in the concatenation iff some content holds it |
| DocumentRepository.FindDocument | document-consent-feature/backend/repositories/document.repository.ts:111-125 | none iff no document has the id; a found document is in the table with that id |
| DocumentRepository.DocumentListByTeamId | document-consent-feature/backend/repositories/document.repository.ts:97-104 | every document with a requirement row for the team, a NULL-team row, or no rows at all is listed, and nothing else is |
| DocumentRepository.ToDtoKeepsVersions | document-consent-feature/backend/repositories/document.repository.ts:100 | a list entry keeps all its document's versions with their ids and dates |
| DocumentRepository.MaxValidFrom | document-consent-feature/backend/repositories/document.repository.ts:158-167 | the maximum is attained by some version and bounds all of them |
| DocumentRepository.LatestVersionsCharacterised | document-consent-feature/backend/repositories/document.repository.ts:158-168 | the versions kept by the MAX(validFrom) condition are exactly those no other version post-dates (ties all pass), and some version is kept when there is one |
| DocumentRepository.GetDocumentById | document-consent-feature/backend/repositories/document.repository.ts:110-130 | fails iff the id is unknown; otherwise the document keeps all other fields and exactly one version when it had any, namely the first one with the greatest validFrom (stable sort, slice(0, 1)); none when it had none |
| DocumentRepository.DocumentForUser | document-consent-feature/backend/repositories/document.repository.ts:132-172 | with a truthy versionId the kept versions are exactly those with that id, and the document is found whenever it has such a version; otherwise the kept versions are the latest ones, found whenever the document has versions; nothing but the versions changes |
| DocumentRepository.DocumentVersions | document-consent-feature/backend/repositories/document.repository.ts:174-181 | the document's versions; empty for an unknown document |
| DocumentRepository.DocumentsByTeamId | document-consent-feature/backend/repositories/document.repository.ts:183-207 | exactly the documents with a requirement row for this very team (no NULL branch) and some version, each cut to its latest versions |
| DocumentRepository.RequiredDocumentsAreListed | document-consent-feature/backend/repositories/document.repository.ts:183-207 | every document required for a team also appears in that team's document list |
| DocumentRepository.TeamDocumentsAreLatest | document-consent-feature/backend/repositories/document.repository.ts:195-204 | every version of a required document is one that no other version of that document post-dates |
| DocumentRepository.LatestAnswerTime | document-consent-feature/backend/repositories/document.repository.ts:274-275 | MAX(statementTime): none iff the user answered none of the statements, else attained by one answer and bounding all |
| DocumentRepository.MergeCompletionDates | document-consent-feature/backend/repositories/document.repository.ts:283-290 | none iff both dates are absent; otherwise one of the two dates and not earlier than either |
| DocumentRepository.VersionStatementSummary | document-consent-feature/backend/repositories/document.repository.ts:260-299 | one row per version, in order, each that version's summary; a document without versions gives one NULL-version row with zero counts; an unknown document gives none |
| DocumentRepository.CompletionDateIsLatestAnswer | document-consent-feature/backend/repositories/document.repository.ts:274-290 | the summary date is the latest time the user answered any statement of the version, absent iff none was answered |
| DocumentRepository.TotalZeroIffNoStatements | document-consent-feature/backend/repositories/document.repository.ts:272 | the total of distinct statements is zero iff the version has no statement at all |
| UserStatementRepository.UserStatementRepository.LookupError | document-consent-feature/backend/repositories/user-statement.repository.ts:22-28 | StatementNotFound iff the statement id is unknown; ChoiceNotFound iff the statement exists and the choice id is unknown, whichever statement the choice belongs to; no error iff all three lookups succeed |
| UserStatementRepository.UserStatementRepository.SaveUserStatement | document-consent-feature/backend/repositories/user-statement.repository.ts:16-32 | fails with the lookup error and inserts nothing, or appends one fresh row with the DTO's time, statement and choice for the user; row ids stay unique |
| UserStatementRepository.ResubmissionAddsSecondRow | document-consent-feature/backend/repositories/user-statement.repository.ts:16-31 | saving the same answer twice stores two distinct rows for one user and statement (no de-duplication) |
| ConsentService.FindUser | document-consent-feature/backend/methods/consent-service-method.ts:75 | none iff no user has the id |
| ConsentService.UserTeam | document-consent-feature/backend/methods/consent-service-method.ts:77-80 | none (the 404) iff the user is missing or the team id is falsy; otherwise the user's non-zero team id |
| ConsentService.FindVersionSummary | document-consent-feature/backend/methods/consent-service-method.ts:99 | the first summary row for the version id, none iff there is no row for it |
| ConsentService.GetDocumentListForUser | document-consent-feature/backend/methods/consent-service-method.ts:73-114 | 404 iff user or team is missing; otherwise the team's document list, in order, each version annotated from its document's summary rows |
| ConsentService.AnnotateVersions | document-consent-feature/backend/methods/consent-service-method.ts:98-109 | each version is marked by the count rule, and gets the summary's date only when marked and dated |
| ConsentService.ZeroStatementsNeverResponded | document-consent-feature/backend/methods/consent-service-method.ts:100-103 | a version with no statements is never marked responded |
| ConsentService.CoveredStatementsCounted | document-consent-feature/backend/repositories/document.repository.ts:267-273 | if every statement of a set is answered, the distinct answer rows are at least as many as the statements |
| ConsentService.CoverageImpliesResponded | document-consent-feature/backend/methods/consent-service-method.ts:100-103 | a user who answered every statement of a version that has statements is marked responded |
| ConsentService.CountRuleAdmitsUnansweredStatement | document-consent-feature/backend/methods/consent-service-method.ts:100-103 | two answers to one statement and none to the other mark a two-statement version responded |
| ConsentService.AnswerCountMayExceedTotal | document-consent-feature/backend/repositories/document.repository.ts:273 | the answer count counts rows, so it can exceed the statement count |
| ConsentService.ListedVersionUsesOwnSummary | document-consent-feature/backend/methods/consent-service-method.ts:96-109 | in the list each version is marked from its own summary row, and dated only when marked |
| ConsentService.AnsweredStatementIds | document-consent-feature/backend/methods/consent-service-method.ts:169-173 | an id is listed iff the user has an answer row for that statement |
| ConsentService.GetContentStatements | document-consent-feature/backend/methods/consent-service-method.ts:194-200 | the contents' statements concatenated in content order, of summed length, holding exactly the statements of some content |
| ConsentService.FirstVersionMisses | document-consent-feature/backend/methods/consent-service-method.ts:178-183 | true iff some global or content statement of the first version has an unanswered id |
| ConsentService.GetUserCompliance | document-consent-feature/backend/methods/consent-service-method.ts:157-192 | 404 iff user or team is missing; otherwise the missing documents are the team documents, in order, with an unanswered first-version statement, and compliant iff there are none |
| ConsentService.CollectMissing | document-consent-feature/backend/methods/consent-service-method.ts:174-187 | the loop collects exactly the documents with an unanswered statement, keeping their order |
| ConsentService.MissingDocumentsAppend | document-consent-feature/backend/methods/consent-service-method.ts:177-187 | the report on two lists concatenated is the two reports concatenated (it is an order-preserving subsequence) |
| ConsentService.MissingIffUnanswered | document-consent-feature/backend/methods/consent-service-method.ts:177-186 | a team document is reported iff some statement of its first version has an id the user never answered |
| ConsentService.MissingDocumentsDependOnIdsOnly | document-consent-feature/backend/methods/consent-service-method.ts:173-181 | answer lists with the same ids give the same report |
| ConsentService.ComplianceIgnoresChoices | document-consent-feature/backend/methods/consent-service-method.ts:173-181 | changing which choices were picked leaves the report unchanged |
| ConsentService.NoStatementsNeverMissing | document-consent-feature/backend/methods/consent-service-method.ts:181-183 | a document whose first version has no statements is never missing |
| ConsentService.CompliantDocumentIsResponded | document-consent-feature/backend/methods/consent-service-method.ts:96-103 | a required document that is not missing shows its latest version as responded, when that version has statements |
| ConsentService.DocumentsForUser | document-consent-feature/backend/methods/consent-service-method.ts:116-129 | 404 iff user or team is missing; otherwise exactly the team's required documents (`DocumentsByTeamId`): every document required for the team that has a version is in the result, each in its team view, and nothing else |
| ConsentService.ItemsAppend | document-consent-feature/backend/methods/consent-service-method.ts:208-216 | the saveable and failing items of a longer batch extend those of the shorter one |
| ConsentService.AccountedSaved | document-consent-feature/backend/methods/consent-service-method.ts:210-211 | a saved item extends the results by its row and keeps the batch accounted |
| ConsentService.AccountedFailed | document-consent-feature/backend/methods/consent-service-method.ts:212-214 | a failing item extends the errors by the item and its error and keeps the batch accounted |
| ConsentService.SaveNext | document-consent-feature/backend/methods/consent-service-method.ts:209-215 | one item is either saved and appended to the results or recorded as an error |
| ConsentService.SaveUserStatements | document-consent-feature/backend/methods/consent-service-method.ts:202-225 | nothing is thrown; results plus errors number the items; the results are exactly the saveable items, stored for the user and appended to the table; the errors are exactly the others, each with its lookup error |
| Sorting.InsertionSort | document-consent-feature/frontend/pipes/user-responded.pipe.ts:15 | the array is permuted in place and stably (elements the comparator ranks equal keep their relative order), and for an asymmetric comparator no element is left after its neighbour |
| Sorting.InsertLast | document-consent-feature/frontend/pipes/user-responded.pipe.ts:15 | one insertion step keeps the permutation and the relative order of equal-rank elements, and extends the ordered prefix by one |
| Sorting.SwapAdjacentStable | document-consent-feature/frontend/pipes/user-responded.pipe.ts:15 | exchanging two neighbours the comparator puts out of order never reorders elements of equal rank |
| Sorting.Swap | document-consent-feature/frontend/pipes/user-responded.pipe.ts:15 | exchanges two elements, a permutation |
| Sorting.AdjacentToOrdered | document-consent-feature/frontend/components/document-review-layout/document-review-layout.component.ts:133 | with a transitive comparator, ordered neighbours make the whole array ordered |
| Text.NatToString | document-consent-feature/frontend/components/document-review-layout/document-review-layout.component.ts:75 | a non-empty string of decimal digits |
| Text.IntToString | document-consent-feature/frontend/components/document-review-layout/document-review-layout.component.ts:135 | non-empty, starting with "-" iff the number is negative |
| Text.ParseNatToString | document-consent-feature/frontend/components/document-review-layout/document-review-layout.component.ts:135 | reading back the digits of a number gives the number |
| Text.IntToStringInjective | document-consent-feature/frontend/pages/onboarding/agreements-page/agreements-page.component.ts:43 | distinct numbers have distinct strings |
| Text.FirstOccurrence | document-consent-feature/frontend/components/document-review-layout/document-review-layout.component.ts:75 | the least position where the pattern occurs, none iff it occurs nowhere |
| Text.ReplaceAfterPlainPrefix | document-consent-feature/frontend/components/document-review-layout/document-review-layout.component.ts:75 | replace substitutes only the first occurrence and keeps the rest of the string verbatim |
| DocumentReviewLayout.SectionIdInjective | document-consent-feature/frontend/components/document-review-layout/document-review-layout.component.ts:135 | distinct contents get distinct `section-<id>` ids |
| DocumentReviewLayout.FindIndex | document-consent-feature/frontend/components/document-review-layout/document-review-layout.component.ts:239 | the first entry with the statement id, none (-1) iff there is none |
| DocumentReviewLayout.Upsert | document-consent-feature/frontend/components/document-review-layout/document-review-layout.component.ts:237-243 | the entry is replaced in place (same length) or appended; other statements keep their entries and places; unique ids stay unique |
| DocumentReviewLayout.FulfilledSplits | document-consent-feature/frontend/components/document-review-layout/document-review-layout.component.ts:190-198 | all statements are fulfilled iff the content ones and the global ones are |
| DocumentReviewLayout.SelectingFulfils | document-consent-feature/frontend/components/document-review-layout/document-review-layout.component.ts:237-243 | choosing an answer fulfils the statement |
| DocumentReviewLayout.DeselectingUnfulfils | document-consent-feature/frontend/components/document-review-layout/document-review-layout.component.ts:238 | deselecting makes the statement unfulfilled |
| DocumentReviewLayout.UpsertKeepsOthers | document-consent-feature/frontend/components/document-review-layout/document-review-layout.component.ts:239-242 | a change to one statement leaves every other statement's status as it was |
| DocumentReviewLayout.FulfilledIgnoresContentOrder | document-consent-feature/frontend/components/document-review-layout/document-review-layout.component.ts:170-179 | the content statements' status does not depend on the contents' order |
| DocumentReviewLayout.AllowedToEdit | document-consent-feature/frontend/components/document-review-layout/document-review-layout.component.ts:89-98 | false with no user; true with no userId parameter; otherwise iff AD admin or the parameter equals the user's id; a NaN parameter admits admins only |
| DocumentReviewLayout.CurrentUser | document-consent-feature/frontend/components/document-review-layout/document-review-layout.component.ts:100-104 | the parameter when given, else the authenticated user's id |
| DocumentReviewLayout.BackUrlFillsPlaceholder | document-consent-feature/frontend/components/document-review-layout/document-review-layout.component.ts:73-78 | the current user id replaces the `:userId` placeholder and nothing else changes |
| DocumentReviewLayout.PayloadStatements | document-consent-feature/frontend/components/document-review-layout/document-review-layout.component.ts:211-215 | one payload answer per entry, in entry order, with that entry's statement and choice and its own clock reading |
| DocumentReviewLayout.PayloadAnswersEveryStatement | document-consent-feature/frontend/components/document-review-layout/document-review-layout.component.ts:207-216 | a payload sent after the gate answers every gated statement with a choice |
| DocumentReviewLayout.DocumentReviewLayout.constructor | document-consent-feature/frontend/components/document-review-layout/document-review-layout.component.ts:202-204 | opening the screen sets the wizard step to agreements, writes only that key of the store (in a browser), keeps the other fields and the store's agreement with them; it needs a user for `currentUserId` |
| DocumentReviewLayout.DocumentReviewLayout.OnStatementChange | document-consent-feature/frontend/components/document-review-layout/document-review-layout.component.ts:234-243 | when editing is allowed the entry is upserted, otherwise nothing changes; ids stay unique |
| DocumentReviewLayout.DocumentReviewLayout.SaveDocument | document-consent-feature/frontend/components/document-review-layout/document-review-layout.component.ts:206-218 | nothing unless every statement is fulfilled; otherwise the payload for the current user, one answer per entry in order, each stamped with its own clock reading, and the saving flag set |
| DocumentReviewLayout.DocumentReviewLayout.SaveSettled | document-consent-feature/frontend/components/document-review-layout/document-review-layout.component.ts:223-231 | on success and on error alike, saving ends and the screen goes to the back URL |
| DocumentReviewLayout.DocumentReviewLayout.SortContents | document-consent-feature/frontend/components/document-review-layout/document-review-layout.component.ts:133 | the contents are permuted in place into non-decreasing order, contents of equal order keeping their relative order (stable sort) |
| DocumentReviewLayout.DocumentReviewLayout.DocumentSections | document-consent-feature/frontend/components/document-review-layout/document-review-layout.component.ts:128-138 | one section per content in non-decreasing order (stable among equal orders), with id `section-<id>` and title; none without a version |
| DocumentReviewLayout.DocumentReviewLayout.DocumentContent | document-consent-feature/frontend/components/document-review-layout/document-review-layout.component.ts:140-152 | as the sections, also carrying each content's text and statements |
| UserRespondedPipe.MaxVersion | document-consent-feature/frontend/pipes/user-responded.pipe.ts:15 | the greatest version number, attained by some entry |
| UserRespondedPipe.ResponseAmongLatestCharacterised | document-consent-feature/frontend/pipes/user-responded.pipe.ts:16-19 | in any order: responded iff some entry at the greatest version is completed (older ones do not count); the date is the first such entry's, absent when not responded |
| UserRespondedPipe.LatestResponseCharacterised | document-consent-feature/frontend/pipes/user-responded.pipe.ts:15-19 | on a newest-first list the lookup from the first entry's version gives that answer |
| UserRespondedPipe.UserResponded | document-consent-feature/frontend/pipes/user-responded.pipe.ts:14-21 | the caller's array is permuted in place, stably, into newest-first order; responded iff an entry of the greatest version is completed, with the date of the first such entry in the caller's original order |
| UserRespondedPipe.SameElementsSameMax | document-consent-feature/frontend/pipes/user-responded.pipe.ts:15 | reordering leaves the greatest version number unchanged |
| AgreementsPage.EverySigned | document-consent-feature/frontend/pages/onboarding/agreements-page/agreements-page.component.ts:52-54 | undefined iff loading; an empty list is all signed; true means every document has a completed version, of any age; false names a document without one |
| AgreementsPage.SignedIgnoresVersionOrder | document-consent-feature/frontend/pages/onboarding/agreements-page/agreements-page.component.ts:42-53 | reordering versions does not change whether every document is signed |
| AgreementsPage.RespondedIsSigned | document-consent-feature/frontend/pages/onboarding/agreements-page/agreements-page.component.ts:53 | a document the pipe shows as responded counts as signed |
| AgreementsPage.SignedWithoutLatestResponse | document-consent-feature/frontend/pages/onboarding/agreements-page/agreements-page.component.ts:53 | a document with only an older completed version is signed, although the pipe shows it as not responded |
| AgreementsPage.SortVersions | document-consent-feature/frontend/pages/onboarding/agreements-page/agreements-page.component.ts:42-44 | same id, title and versions, only reordered by the version comparator; versions the comparator ranks equal keep their input order here, an order the source leaves to the engine (see "Left out") |
| AgreementsPage.AgreementsPage.constructor | document-consent-feature/frontend/pages/onboarding/agreements-page/agreements-page.component.ts:56-58 | the page sets the wizard step to agreements, writes only that key of the store (in a browser), keeps the other fields and the store's agreement with them, and starts out loading |
| AgreementsPage.AgreementsPage.OnContinue | document-consent-feature/frontend/pages/onboarding/agreements-page/agreements-page.component.ts:60-62 | only the reviewed flag and its key change (`"true"` in a browser); the store's agreement with the fields is kept |
| AgreementsPage.AgreementsPage.ReceiveDocumentList | document-consent-feature/frontend/pages/onboarding/agreements-page/agreements-page.component.ts:37-46 | every document is kept in order, with the same id, title and versions, each list only reordered |
| RegistrationStateService.FromName | document-consent-feature/frontend/services/registration-state.service.ts:10 | a string maps to the step it names, none if it names none |
| RegistrationStateService.NameRoundTrip | document-consent-feature/frontend/services/registration-state.service.ts:10 | every step's literal maps back to that step |
| RegistrationStateService.LoadFlag | document-consent-feature/frontend/services/registration-state.service.ts:112-118 | true only in a browser with the key stored as exactly "true" (so "TRUE" or "1" read false); "false" reads false |
| RegistrationStateService.LoadState | document-consent-feature/frontend/services/registration-state.service.ts:120-126 | "welcome" outside a browser; in a browser the stored string unchecked, none for a missing key |
| RegistrationStateService.RoutesOfStates | document-consent-feature/frontend/services/registration-state.service.ts:99-109 | distinct steps have distinct routes; a missing or unknown value goes to the welcome route |
| RegistrationStateService.RegistrationStateService.constructor | document-consent-feature/frontend/services/registration-state.service.ts:26-28 | the fields are loaded from the store, so the store and the fields agree |
| RegistrationStateService.RegistrationStateService.SetState | document-consent-feature/frontend/services/registration-state.service.ts:129-133 | writes the key in a browser only |
| RegistrationStateService.RegistrationStateService.ClearState | document-consent-feature/frontend/services/registration-state.service.ts:136-142 | removes the three keys in a browser only |
| RegistrationStateService.RegistrationStateService.StartRegistration | document-consent-feature/frontend/services/registration-state.service.ts:57-65 | registering, not reviewed, at welcome in fields and store; the store mirrors the fields; leaving is not allowed |
| RegistrationStateService.RegistrationStateService.MarkDocumentsReviewed | document-consent-feature/frontend/services/registration-state.service.ts:70-73 | only the reviewed flag and its key change; store agreement is kept |
| RegistrationStateService.RegistrationStateService.SetRegistrationState | document-consent-feature/frontend/services/registration-state.service.ts:78-81 | only the step and its key change, from any step to any step; store agreement is kept |
| RegistrationStateService.RegistrationStateService.ResetRegistration | document-consent-feature/frontend/services/registration-state.service.ts:87-97 | not registering, not reviewed, at welcome in fields and store; the store mirrors the fields; leaving is allowed |
| RegistrationStateService.ClearThenWrite | document-consent-feature/frontend/services/registration-state.service.ts:88-92 | removing the keys before writing all three leaves the same store as writing them |
| RegistrationStateService.MirroredIsPersisted | document-consent-feature/frontend/services/registration-state.service.ts:112-133 | a store that mirrors the fields reloads into the same fields |
| Guards.ReviewedAllDocumentsGuard | document-consent-feature/frontend/guards/reviewed-all-documents.guard.ts:5-10 | lets through iff the documents were reviewed, otherwise redirects to the agreements step; reads only |
| Guards.RegistrationPendingGuard | document-consent-feature/frontend/guards/registration-pending.guard.ts:9-14 | redirects to /shiftplan iff registration may not be left, otherwise navigates to the current step's route; never lets through; reads only |
| Guards.PendingRegistrationGoesToShiftplan | document-consent-feature/frontend/guards/registration-pending.guard.ts:11-13 | while registering short of the completed step, the result is always /shiftplan |
| Guards.StartThenReviewGuard | document-consent-feature/frontend/guards/reviewed-all-documents.guard.ts:7-9 | right after starting registration the review guard redirects, and the pending guard sends to /shiftplan |
| Guards.ResetThenGuards | document-consent-feature/frontend/guards/reviewed-all-documents.guard.ts:7-9 | right after a reset the review guard redirects, and the pending guard goes to the welcome route |
| Guards.MarkThenReviewGuard | document-consent-feature/frontend/guards/reviewed-all-documents.guard.ts:7-8 | right after marking the documents reviewed the review guard lets through |
| Guards.CompleteThenPendingGuard | document-consent-feature/frontend/guards/registration-pending.guard.ts:11-12 | at the completed step the pending guard moves to the completed page |

## Left out

- The ORM, SQL and broker layers (TypeORM query builders, `findOneOrFail`, `save`, Moleculer actions in `document.service.ts`, `document-service-method.ts` and `consent.service.ts`) are pure delegation. Query results are functions over in-memory tables, and the database's generated key is the `nextId` field.
- SQL `ORDER BY version.validFrom DESC` in the team and per-user queries is not modelled. Versions keep table order, which these queries do not fix either.
- The consent service's `getDocumentForUser` and `getDocumentVersions` only delegate to the repository, apart from logging. `DocumentRepository.DocumentForUser` and `DocumentRepository.DocumentVersions` model them.
- The user and team lookup of the user service is a sequence of users. The other joined relations (choices, the answer rows hydrated into the entity graph) are not carried in the document values.
- GetDocumentById: the in-place sort of the versions array, which is then discarded, is not modelled. The result is the version a stable sort plus `slice(0, 1)` keeps, and the scan that finds it is proved against that description.
- SaveUserStatements: `Promise.all` runs the saves concurrently, and the source pushes results and errors in completion order. The model fixes one schedule, the input order, so its results and errors follow the input; the source does not guarantee that order. The model also returns the errors, which the source only logs.
- GetDocumentListForUser: the concurrent summary fetch is a sequential loop.
- Logging, `console.table` and the error-code objects are left out. The 404 is the `UserOrTeamNotFound` failure.
- Local storage and `isPlatformBrowser`: the store is a `map<string, string>` field, and the platform test is the `isBrowser` flag.
- The router: navigation and URL trees are the returned route strings.
- Angular plumbing is not part of this model:
  - resources, signals and subscriptions;
  - scrolling and breadcrumbs;
  - the other pages and components: welcome, account information, completed, theme switch, layout;
  - `registration.service.ts` and `registration.routes.ts`.
- `isCompleted` and `isNewerVersion` are not part of this model, and are function parameters. Version numbers and timestamps are integers; only their order and equality are used, and dates are never parsed.
- DocumentReviewLayout.CurrentUser: `+userId` is an integer or NaN. Parameters that parse to non-integer numbers are not modelled.
- Sorting.InsertionSort: `Array.prototype.sort` is modelled by one stable insertion sort. The promise of order holds only for an asymmetric comparator. The version comparator in agreements-page.component.ts:42-44 returns 1 or -1 and never 0, so for two versions it ranks equal it answers -1 both ways; the engine may then order them as it likes, and for that sort the model promises a permutation that keeps their input order, one of the orders the engine may produce.
- DocumentReviewLayout.DocumentReviewLayout.AllDocumentContentStatements: reading the statements does not re-sort the contents (the source's `documentContent` signal does). `DocumentReviewLayout.FulfilledIgnoresContentOrder` proves that the order does not matter to the gate.
- AgreementsPage.SortVersions: copies each version list into a fresh array before sorting it. The source sorts the response's arrays in place.
- AgreementsPage.SortVersions: the source comparator `isNewerVersion(...) ? 1 : -1` never returns 0, so versions with equal numbers (two languages of one version, say) are ordered as the engine likes; the model keeps their input order.
- DocumentReviewLayout.PayloadStatements: the clock (`new Date()`, read once per answer) is a parameter, one reading per answer; the model assumes nothing about the readings, not even that they do not decrease, and does not format them as ISO strings.
- UserRespondedPipe.UserResponded: requires a non-empty array, because the source throws on an empty one.
