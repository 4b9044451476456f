/**
 * The document review screen: the user's choice per statement, the rule that
 * gates submission, the payload it submits, who may edit, the ordered
 * sections of the document, and where the screen returns to.
 */
module DocumentReviewLayout {
  import opened Wrappers
  import opened Entities
  import opened Text
  import opened Seqs
  import opened Sorting
  import RS = RegistrationStateService

  /** One entry of `userStatements`; `choiceId` is `None` for a deselected statement. */
  datatype Selection = Selection(statementId: int, choiceId: Option<int>)

  /** The value of `+userId` for a route parameter: an integer, or NaN for text that is not a number. */
  datatype NumberValue = Num(n: int) | NaN

  datatype AuthenticatedUser = AuthenticatedUser(id: int, adAdmin: bool)

  datatype Section = Section(id: string, title: string)

  datatype SectionContent = SectionContent(id: string, title: string, content: string, statements: seq<Statement>)

  /** One answer of the submitted payload; `statementTime` is the clock reading taken for that answer. */
  datatype PayloadStatement = PayloadStatement(statementTime: int, statementId: int, choiceId: Option<int>)

  datatype Payload = Payload(userId: NumberValue, statements: seq<PayloadStatement>)

  const SectionPrefix: string := "section-"
  const UserIdPlaceholder: string := ":userId"

  /** `toString()` of a number value. */
  function NumberString(v: NumberValue): string
  {
    match v
    case Num(n) => IntToString(n)
    case NaN => "NaN"
  }

  /** The `id` given to the section of a content. */
  function SectionId(contentId: int): string
  {
    SectionPrefix + IntToString(contentId)
  }

  /** Distinct contents get distinct section ids. */
  lemma SectionIdInjective(a: int, b: int)
    requires SectionId(a) == SectionId(b)
    ensures a == b
  {
    assert SectionId(a)[|SectionPrefix|..] == IntToString(a);
    assert SectionId(b)[|SectionPrefix|..] == IntToString(b);
    IntToStringInjective(a, b);
  }

  // ----- userStatements -----

  predicate UniqueStatementIds(entries: seq<Selection>)
  {
    forall i, j :: 0 <= i < j < |entries| ==> entries[i].statementId != entries[j].statementId
  }

  /** `findIndex` by statement id, `None` for -1. */
  function FindIndex(entries: seq<Selection>, statementId: int): (r: Option<nat>)
    ensures r.None? <==> forall k :: 0 <= k < |entries| ==> entries[k].statementId != statementId
    ensures r.Some? ==> (r.value < |entries| && entries[r.value].statementId == statementId
      && forall k :: 0 <= k < r.value ==> entries[k].statementId != statementId)
  {
    if entries == [] then None
    else if entries[0].statementId == statementId then Some(0)
    else match FindIndex(entries[1..], statementId)
      case None => None
      case Some(k) => Some(k + 1)
  }

  /**
   * The update of `onStatementChange`: the entry for the statement is replaced
   * where it stands, or appended when there is none; entries for other
   * statements keep their values and places, and statement ids stay unique.
   */
  function Upsert(entries: seq<Selection>, entry: Selection): (r: seq<Selection>)
    ensures entry in r
    ensures (exists k :: 0 <= k < |entries| && entries[k].statementId == entry.statementId) ==> |r| == |entries|
    ensures (forall k :: 0 <= k < |entries| ==> entries[k].statementId != entry.statementId) ==> r == entries + [entry]
    ensures forall k :: 0 <= k < |entries| && entries[k].statementId != entry.statementId ==> r[k] == entries[k]
    ensures forall k :: 0 <= k < |r| && r[k].statementId != entry.statementId ==> k < |entries| && r[k] == entries[k]
    ensures UniqueStatementIds(entries) ==> UniqueStatementIds(r)
  {
    match FindIndex(entries, entry.statementId)
    case None => entries + [entry]
    case Some(index) => entries[..index] + [entry] + entries[index + 1..]
  }

  /** A statement is fulfilled when some entry for it carries a choice. */
  predicate Fulfilled(entries: seq<Selection>, s: Statement)
  {
    exists e :: e in entries && e.statementId == s.id && e.choiceId.Some?
  }

  /** `statements.every(...)` of the `*Fulfilled` signals. */
  predicate EveryFulfilled(statements: seq<Statement>, entries: seq<Selection>)
  {
    forall s :: s in statements ==> Fulfilled(entries, s)
  }

  /** All statements are fulfilled exactly when the content ones and the global ones are. */
  lemma FulfilledSplits(content: seq<Statement>, global: seq<Statement>, entries: seq<Selection>)
    ensures EveryFulfilled(content + global, entries) <==> EveryFulfilled(content, entries) && EveryFulfilled(global, entries)
  {
  }

  /** Choosing an answer fulfils the statement. */
  lemma SelectingFulfils(entries: seq<Selection>, s: Statement, choiceId: int)
    ensures Fulfilled(Upsert(entries, Selection(s.id, Some(choiceId))), s)
  {
  }

  /** Deselecting makes the statement unfulfilled, while ids are unique. */
  lemma DeselectingUnfulfils(entries: seq<Selection>, s: Statement)
    requires UniqueStatementIds(entries)
    ensures !Fulfilled(Upsert(entries, Selection(s.id, None)), s)
  {
    var r := Upsert(entries, Selection(s.id, None));
    forall e | e in r && e.statementId == s.id
      ensures e.choiceId.None?
    {
      var k :| 0 <= k < |r| && r[k] == e;
      var m :| 0 <= m < |r| && r[m] == Selection(s.id, None);
      assert k == m;
    }
  }

  /** A change to one statement leaves every other statement's status as it was. */
  lemma UpsertKeepsOthers(entries: seq<Selection>, entry: Selection, s: Statement)
    requires s.id != entry.statementId
    ensures Fulfilled(Upsert(entries, entry), s) <==> Fulfilled(entries, s)
  {
    var r := Upsert(entries, entry);
    if Fulfilled(entries, s) {
      var e :| e in entries && e.statementId == s.id && e.choiceId.Some?;
      var k :| 0 <= k < |entries| && entries[k] == e;
      assert r[k] == e;
    }
    if Fulfilled(r, s) {
      var e :| e in r && e.statementId == s.id && e.choiceId.Some?;
      var k :| 0 <= k < |r| && r[k] == e;
      assert entries[k] == e;
    }
  }

  /** The content statements' status does not depend on the order of the contents. */
  lemma FulfilledIgnoresContentOrder(c1: seq<DocumentContent>, c2: seq<DocumentContent>, entries: seq<Selection>)
    requires multiset(c1) == multiset(c2)
    ensures EveryFulfilled(ContentStatements(c1), entries) == EveryFulfilled(ContentStatements(c2), entries)
  {
    forall s
      ensures s in ContentStatements(c1) <==> s in ContentStatements(c2)
    {
      ContentStatementsMembership(c1, s);
      ContentStatementsMembership(c2, s);
      forall c ensures c in c1 <==> c in c2 {
        assert c in c1 <==> c in multiset(c1);
        assert c in c2 <==> c in multiset(c2);
      }
    }
  }

  // ----- who may edit, and for whom -----

  /**
   * `allowedToEditChoices`: nobody without an authenticated user; anyone on
   * their own document (no `userId` parameter); otherwise an AD admin or the user the parameter names.
   */
  function AllowedToEdit(user: Option<AuthenticatedUser>, userIdParam: Option<NumberValue>): (allowed: bool)
    ensures user.None? ==> !allowed
    ensures user.Some? && userIdParam.None? ==> allowed
    ensures user.Some? && userIdParam.Some? ==> (allowed <==> user.value.adAdmin || userIdParam.value == Num(user.value.id))
    ensures userIdParam == Some(NaN) ==> (allowed <==> user.Some? && user.value.adAdmin)
  {
    match user
    case None => false
    case Some(u) => if userIdParam.Some? then u.adAdmin || userIdParam.value == Num(u.id) else true
  }

  /** `currentUserId`: the parameter when given, else the authenticated user's id (which must then exist). */
  function CurrentUser(user: Option<AuthenticatedUser>, userIdParam: Option<NumberValue>): (id: NumberValue)
    requires userIdParam.Some? || user.Some?
    ensures userIdParam.Some? ==> id == userIdParam.value
    ensures userIdParam.None? ==> id == Num(user.value.id)
  {
    if userIdParam.Some? then userIdParam.value else Num(user.value.id)
  }

  /** `backUrl`: the route's back URL with its first `:userId` filled in, or the agreements step when there is none. */
  function BackUrlFor(backToDocumentsUrl: Option<string>, currentUserId: NumberValue): string
  {
    if backToDocumentsUrl.Some? && backToDocumentsUrl.value != "" then
      ReplaceFirst(backToDocumentsUrl.value, UserIdPlaceholder, NumberString(currentUserId))
    else RS.AgreementsRoute
  }

  /** A back URL whose placeholder follows a plain path gets the user id in the placeholder's place and nowhere else. */
  lemma BackUrlFillsPlaceholder(prefix: string, suffix: string, currentUserId: NumberValue)
    requires ':' !in prefix
    ensures BackUrlFor(Some(prefix + UserIdPlaceholder + suffix), currentUserId)
         == prefix + NumberString(currentUserId) + suffix
  {
    assert (prefix + UserIdPlaceholder + suffix)[|prefix|] == ':';
    ReplaceAfterPlainPrefix(prefix, UserIdPlaceholder, suffix, NumberString(currentUserId));
  }

  /**
   * The answers submitted by `saveDocument`: answer `k` carries entry `k`'s
   * statement and choice, stamped with `times[k]`, the clock reading taken
   * while building that answer.
   */
  function PayloadStatements(entries: seq<Selection>, times: seq<int>): (r: seq<PayloadStatement>)
    requires |times| == |entries|
    ensures |r| == |entries|
    ensures forall k :: 0 <= k < |r| ==>
      r[k].statementTime == times[k] && r[k].statementId == entries[k].statementId && r[k].choiceId == entries[k].choiceId
  {
    seq(|entries|, k requires 0 <= k < |entries| => PayloadStatement(times[k], entries[k].statementId, entries[k].choiceId))
  }

  /** A submitted payload answers, with a choice, every statement the screen gated on. */
  lemma PayloadAnswersEveryStatement(statements: seq<Statement>, entries: seq<Selection>, times: seq<int>)
    requires |times| == |entries|
    requires EveryFulfilled(statements, entries)
    ensures forall s :: s in statements ==>
      exists p :: p in PayloadStatements(entries, times) && p.statementId == s.id && p.choiceId.Some?
  {
    var r := PayloadStatements(entries, times);
    forall s | s in statements
      ensures exists p :: p in r && p.statementId == s.id && p.choiceId.Some?
    {
      var e :| e in entries && e.statementId == s.id && e.choiceId.Some?;
      var k :| 0 <= k < |entries| && entries[k] == e;
      assert r[k] in r;
    }
  }

  /** The version the screen shows: the loaded document's first version, if any. */
  function VersionOf(document: Option<Document>): Option<DocumentVersion>
  {
    if document.Some? && document.value.versions != [] then Some(document.value.versions[0]) else None
  }

  /** The section comparator `(a, b) => a.order - b.order`: a positive result puts `a` after `b`. */
  predicate OrderAfter(a: DocumentContent, b: DocumentContent)
  {
    a.order - b.order > 0
  }

  /** The test `content.order === k`. */
  function HasOrder(k: int): DocumentContent -> bool
  {
    (c: DocumentContent) => c.order == k
  }

  class DocumentReviewLayout {
    const registration: RS.RegistrationStateService
    const authenticatedUser: Option<AuthenticatedUser>
    /** The `userId` route parameter; `None` when absent or empty (falsy). */
    const userIdParam: Option<NumberValue>
    const backToDocumentsUrl: Option<string>
    const hasVersion: bool
    const globalStatements: seq<Statement>
    /** The shown version's contents, sorted in place by the section signals. */
    const contents: array<DocumentContent>
    var userStatements: seq<Selection>
    var isDocumentSaving: bool

    /** Entries have unique statement ids, and `currentUserId` has a user to name. */
    ghost predicate Valid()
      reads this
    {
      UniqueStatementIds(userStatements) && (userIdParam.Some? || authenticatedUser.Some?)
    }

    /** Opening the screen puts the wizard at the agreements step. */
    constructor(registration: RS.RegistrationStateService, authenticatedUser: Option<AuthenticatedUser>,
                userIdParam: Option<NumberValue>, backToDocumentsUrl: Option<string>, document: Option<Document>)
      requires registration.Persisted()
      requires userIdParam.Some? || authenticatedUser.Some?
      modifies registration
      ensures this.registration == registration && this.authenticatedUser == authenticatedUser
      ensures this.userIdParam == userIdParam && this.backToDocumentsUrl == backToDocumentsUrl
      ensures hasVersion == VersionOf(document).Some?
      ensures globalStatements == (if hasVersion then VersionOf(document).value.statements else [])
      ensures contents[..] == (if hasVersion then VersionOf(document).value.contents else [])
      ensures fresh(contents)
      ensures userStatements == [] && !isDocumentSaving && Valid()
      ensures registration.registrationState == Some(RS.Name(RS.Agreements))
      ensures registration.isRegistering == old(registration.isRegistering)
      ensures registration.allDocumentsReviewed == old(registration.allDocumentsReviewed)
      ensures registration.store == if registration.isBrowser
        then old(registration.store)[RS.RegistrationStateKey := RS.Name(RS.Agreements)]
        else old(registration.store)
      ensures registration.Persisted()
      ensures old(registration.Mirrored()) ==> registration.Mirrored()
    {
      var version := VersionOf(document);
      var cs := if version.Some? then version.value.contents else [];
      this.registration := registration;
      this.authenticatedUser := authenticatedUser;
      this.userIdParam := userIdParam;
      this.backToDocumentsUrl := backToDocumentsUrl;
      hasVersion := version.Some?;
      globalStatements := if version.Some? then version.value.statements else [];
      contents := new DocumentContent[|cs|](k requires 0 <= k < |cs| => cs[k]);
      userStatements := [];
      isDocumentSaving := false;
      new;
      registration.SetRegistrationState(RS.Agreements);
    }

    function AllowedToEditChoices(): bool
    {
      AllowedToEdit(authenticatedUser, userIdParam)
    }

    function CurrentUserId(): NumberValue
      requires userIdParam.Some? || authenticatedUser.Some?
    {
      CurrentUser(authenticatedUser, userIdParam)
    }

    function BackUrl(): string
      requires userIdParam.Some? || authenticatedUser.Some?
    {
      BackUrlFor(backToDocumentsUrl, CurrentUserId())
    }

    /** `allDocumentContentStatements`: the contents' statements, content by content. */
    function AllDocumentContentStatements(): seq<Statement>
      reads contents
    {
      if hasVersion then ContentStatements(contents[..]) else []
    }

    function AllDocumentContentStatementsFulfilled(): bool
      reads this, contents
    {
      EveryFulfilled(AllDocumentContentStatements(), userStatements)
    }

    function AllGlobalStatementsFulfilled(): bool
      reads this
    {
      EveryFulfilled(globalStatements, userStatements)
    }

    /** `allStatementsFulfilled`: content statements followed by global ones, every one fulfilled. */
    function AllStatementsFulfilled(): bool
      reads this, contents
    {
      EveryFulfilled(AllDocumentContentStatements() + globalStatements, userStatements)
    }

    /**
     * `onStatementChange`: for a user allowed to edit, the statement's entry is
     * upserted with the chosen choice's id (`None` when deselected); otherwise nothing changes.
     */
    method OnStatementChange(statementId: int, value: Option<StatementChoice>)
      requires Valid()
      modifies this`userStatements
      ensures Valid()
      ensures AllowedToEditChoices() ==>
        userStatements == Upsert(old(userStatements), Selection(statementId, if value.Some? then Some(value.value.id) else None))
      ensures !AllowedToEditChoices() ==> userStatements == old(userStatements)
    {
      if !AllowedToEditChoices() {
        return;
      }
      var statement := Selection(statementId, if value.Some? then Some(value.value.id) else None);
      userStatements := Upsert(userStatements, statement);
    }

    /**
     * `saveDocument`: nothing happens unless every statement is fulfilled;
     * otherwise the payload for the current user holds one answer per entry,
     * in entry order, each stamped with its own clock reading from `times`,
     * and the screen is marked saving.
     */
    method SaveDocument(times: seq<int>) returns (payload: Option<Payload>)
      requires Valid() && |times| == |userStatements|
      modifies this`isDocumentSaving
      ensures !AllStatementsFulfilled() ==> payload.None? && isDocumentSaving == old(isDocumentSaving)
      ensures AllStatementsFulfilled() ==>
        payload == Some(Payload(CurrentUserId(), PayloadStatements(userStatements, times))) && isDocumentSaving
    {
      if !AllStatementsFulfilled() {
        return None;
      }
      payload := Some(Payload(CurrentUserId(), PayloadStatements(userStatements, times)));
      isDocumentSaving := true;
    }

    /** The end of a save, successful or not: no longer saving, and back to `backUrl`. */
    method SaveSettled() returns (url: string)
      requires Valid()
      modifies this`isDocumentSaving
      ensures !isDocumentSaving && url == BackUrl()
    {
      isDocumentSaving := false;
      url := BackUrl();
    }

    /** Sorts the contents in place by `order`; contents of equal order keep their relative order. */
    method SortContents()
      modifies contents
      ensures multiset(contents[..]) == multiset(old(contents[..]))
      ensures forall i, j :: 0 <= i < j < contents.Length ==> contents[i].order <= contents[j].order
      ensures forall k :: Filter(contents[..], HasOrder(k)) == Filter(old(contents[..]), HasOrder(k))
    {
      InsertionSort(contents, OrderAfter);
      AdjacentToOrdered(contents[..], OrderAfter);
      forall k ensures Filter(contents[..], HasOrder(k)) == Filter(old(contents[..]), HasOrder(k)) {
        assert EqualRank(HasOrder(k), OrderAfter);
      }
    }

    /** `documentSections`: one section per content, in `order`, with its `section-<id>` id and title. */
    method DocumentSections() returns (sections: seq<Section>)
      modifies contents
      ensures multiset(contents[..]) == multiset(old(contents[..]))
      ensures !hasVersion ==> sections == [] && contents[..] == old(contents[..])
      ensures hasVersion ==> |sections| == contents.Length
      ensures hasVersion ==> forall k :: 0 <= k < |sections| ==>
        sections[k] == Section(SectionId(contents[k].id), contents[k].title)
      ensures hasVersion ==> forall i, j :: 0 <= i < j < contents.Length ==> contents[i].order <= contents[j].order
      ensures forall k :: Filter(contents[..], HasOrder(k)) == Filter(old(contents[..]), HasOrder(k))
    {
      if !hasVersion {
        return [];
      }
      SortContents();
      sections := seq(contents.Length, k reads contents requires 0 <= k < contents.Length =>
        Section(SectionId(contents[k].id), contents[k].title));
    }

    /** `documentContent`: as the sections, carrying each content's text and statements. */
    method DocumentContent() returns (sections: seq<SectionContent>)
      modifies contents
      ensures multiset(contents[..]) == multiset(old(contents[..]))
      ensures !hasVersion ==> sections == [] && contents[..] == old(contents[..])
      ensures hasVersion ==> |sections| == contents.Length
      ensures hasVersion ==> forall k :: 0 <= k < |sections| ==>
        sections[k] == SectionContent(SectionId(contents[k].id), contents[k].title, contents[k].content, contents[k].statements)
      ensures hasVersion ==> forall i, j :: 0 <= i < j < contents.Length ==> contents[i].order <= contents[j].order
      ensures forall k :: Filter(contents[..], HasOrder(k)) == Filter(old(contents[..]), HasOrder(k))
    {
      if !hasVersion {
        return [];
      }
      SortContents();
      sections := seq(contents.Length, k reads contents requires 0 <= k < contents.Length =>
        SectionContent(SectionId(contents[k].id), contents[k].title, contents[k].content, contents[k].statements));
    }
  }
}
