/**
 * The consent service: annotating a user's document list with per-version
 * completion, computing a user's compliance with the documents required for
 * the user's team, and saving a batch of answers item by item.
 */
module ConsentService {
  import opened Wrappers
  import opened Entities
  import opened Seqs
  import opened DocumentRepository
  import R = UserStatementRepository

  datatype ComplianceResult = ComplianceResult(compliant: bool, missingDocuments: seq<Document>)

  /** The user service's lookup by id. */
  function FindUser(users: seq<User>, id: int): (r: Option<User>)
    ensures r.None? <==> forall u :: u in users ==> u.id != id
    ensures r.Some? ==> r.value in users && r.value.id == id
  {
    if users == [] then None
    else if users[0].id == id then Some(users[0])
    else FindUser(users[1..], id)
  }

  /** The team a request is resolved against: none when the user is missing or the team id is falsy (the 404 case). */
  function UserTeam(users: seq<User>, userId: int): (t: Option<int>)
    ensures t.None? <==> FindUser(users, userId).None? || !HasTeam(FindUser(users, userId).value)
    ensures t.Some? ==> t.value != 0 && FindUser(users, userId).value.team == t
  {
    match FindUser(users, userId)
    case None => None
    case Some(u) => if HasTeam(u) then u.team else None
  }

  // ----- getDocumentListForUser -----

  /** `statementsByVersion.find(s => s.versionId === ver.id)`. */
  function FindVersionSummary(summary: seq<UserStatementsByVersion>, versionId: int): (r: Option<UserStatementsByVersion>)
    ensures r.None? <==> forall k :: 0 <= k < |summary| ==> summary[k].versionId != Some(versionId)
    ensures r.Some? ==> exists k :: (0 <= k < |summary| && summary[k] == r.value && r.value.versionId == Some(versionId)
      && forall j :: 0 <= j < k ==> summary[j].versionId != Some(versionId))
  {
    if summary == [] then None
    else if summary[0].versionId == Some(versionId) then Some(summary[0])
    else FindVersionSummary(summary[1..], versionId)
  }

  /** The count rule: both counts truthy and the answers at least as many as the statements. */
  predicate Responded(row: Option<UserStatementsByVersion>)
  {
    row.Some? && row.value.totalStatements != 0 && row.value.userStatements != 0
      && row.value.totalStatements <= row.value.userStatements
  }

  /** One version of the list annotated from the document's summary rows; the date is left as it was unless responded and dated. */
  function AnnotateVersion(ver: DocumentVersionDto, summary: seq<UserStatementsByVersion>): DocumentVersionDto
  {
    var row := FindVersionSummary(summary, ver.id);
    var responded := Responded(row);
    ver.(userResponded := responded,
         completionDate := if responded && row.value.completionDate.Some? then row.value.completionDate else ver.completionDate)
  }

  function AnnotateDocument(d: DocumentDto, summary: seq<UserStatementsByVersion>): DocumentDto
  {
    d.(versions := seq(|d.versions|, j requires 0 <= j < |d.versions| => AnnotateVersion(d.versions[j], summary)))
  }

  /**
   * `getDocumentListForUser`: 404 for a missing user or team; otherwise the
   * team's document list with every version marked by the count rule.
   */
  method GetDocumentListForUser(users: seq<User>, docs: seq<Document>, rows: seq<UserStatement>, userId: int)
    returns (r: Result<seq<DocumentDto>, ConsentError>)
    ensures r.Failure? <==> UserTeam(users, userId).None?
    ensures r.Success? ==>
      var list := DocumentListByTeamId(docs, UserTeam(users, userId).value);
      && |r.value| == |list|
      && forall i :: 0 <= i < |list| ==>
        r.value[i] == AnnotateDocument(list[i], VersionStatementSummary(docs, rows, list[i].id, userId))
  {
    var team := UserTeam(users, userId);
    if team.None? {
      return Failure(UserOrTeamNotFound);
    }
    var original := DocumentListByTeamId(docs, team.value);
    var documentList := original;
    var i := 0;
    while i < |documentList|
      invariant 0 <= i <= |documentList| == |original|
      invariant forall k :: 0 <= k < i ==>
        documentList[k] == AnnotateDocument(original[k], VersionStatementSummary(docs, rows, original[k].id, userId))
      invariant forall k :: i <= k < |original| ==> documentList[k] == original[k]
    {
      var document := documentList[i];
      var statementsByVersion := VersionStatementSummary(docs, rows, document.id, userId);
      var annotated := AnnotateVersions(document, statementsByVersion);
      documentList := documentList[i := annotated];
      i := i + 1;
    }
    r := Success(documentList);
  }

  /** The inner loop of `getDocumentListForUser`: each version of one document marked from the document's summary rows. */
  method AnnotateVersions(document: DocumentDto, statementsByVersion: seq<UserStatementsByVersion>) returns (annotated: DocumentDto)
    ensures annotated == AnnotateDocument(document, statementsByVersion)
  {
    var versions := document.versions;
    var j := 0;
    while j < |versions|
      invariant 0 <= j <= |versions| == |document.versions|
      invariant forall k :: 0 <= k < j ==> versions[k] == AnnotateVersion(document.versions[k], statementsByVersion)
      invariant forall k :: j <= k < |versions| ==> versions[k] == document.versions[k]
    {
      var ver := versions[j];
      var versionResponse := FindVersionSummary(statementsByVersion, ver.id);
      var userResponded := Responded(versionResponse);
      ver := ver.(userResponded := userResponded);
      if userResponded && versionResponse.value.completionDate.Some? {
        ver := ver.(completionDate := versionResponse.value.completionDate);
      }
      versions := versions[j := ver];
      j := j + 1;
    }
    annotated := document.(versions := versions);
  }

  /** A version with no statement is never marked responded. */
  lemma ZeroStatementsNeverResponded(v: DocumentVersion, rows: seq<UserStatement>, userId: int)
    requires AllStatements(v) == []
    ensures !Responded(Some(SummaryOf(v, rows, userId)))
  {
    TotalZeroIffNoStatements(v, rows, userId);
  }

  /** When every statement of one kind is answered, there are at least as many distinct answer rows as statements. */
  lemma CoveredStatementsCounted(rows: seq<UserStatement>, userId: int, ids: set<int>)
    requires UniqueRowIds(rows)
    requires forall id :: id in ids ==> exists a :: a in rows && a.userId == userId && a.statementId == id
    ensures |ids| <= |AnswerRowIds(rows, userId, ids)|
  {
    var answers := set a | a in rows && a.userId == userId && a.statementId in ids;
    var statementIdOf := (a: UserStatement) => a.statementId;
    var rowIdOf := (a: UserStatement) => a.id;
    forall x, y | x in answers && y in answers && rowIdOf(x) == rowIdOf(y)
      ensures statementIdOf(x) == statementIdOf(y)
    {
      var i :| 0 <= i < |rows| && rows[i] == x;
      var j :| 0 <= j < |rows| && rows[j] == y;
    }
    ImageNoLarger(answers, statementIdOf, rowIdOf);
    var answeredIds := Image(answers, statementIdOf);
    var rowIds := Image(answers, rowIdOf);
    forall id | id in ids
      ensures id in answeredIds
    {
      var a :| a in rows && a.userId == userId && a.statementId == id;
      assert a in answers && statementIdOf(a) == id;
    }
    SubsetNoLarger(ids, answeredIds);
    forall n ensures n in rowIds <==> n in AnswerRowIds(rows, userId, ids) {
      if n in AnswerRowIds(rows, userId, ids) {
        var a :| a in rows && a.userId == userId && a.statementId in ids && a.id == n;
        assert a in answers && rowIdOf(a) == n;
      }
    }
    assert rowIds == AnswerRowIds(rows, userId, ids);
  }

  /** A user who answered every statement of a version that has statements is marked responded. */
  lemma CoverageImpliesResponded(v: DocumentVersion, rows: seq<UserStatement>, userId: int)
    requires UniqueRowIds(rows)
    requires AllStatements(v) != []
    requires forall s :: s in AllStatements(v) ==> exists a :: a in rows && a.userId == userId && a.statementId == s.id
    ensures Responded(Some(SummaryOf(v, rows, userId)))
  {
    forall id | id in GlobalStatementIds(v)
      ensures exists a :: a in rows && a.userId == userId && a.statementId == id
    {
      var s :| s in v.statements && s.id == id;
      assert s in AllStatements(v);
    }
    forall id | id in ContentStatementIds(v)
      ensures exists a :: a in rows && a.userId == userId && a.statementId == id
    {
      var s :| s in ContentStatements(v.contents) && s.id == id;
      assert s in AllStatements(v);
    }
    CoveredStatementsCounted(rows, userId, GlobalStatementIds(v));
    CoveredStatementsCounted(rows, userId, ContentStatementIds(v));
    TotalZeroIffNoStatements(v, rows, userId);
  }

  /**
   * The converse fails: two answers to one statement and none to the other
   * make a two-statement version count as responded.
   */
  lemma CountRuleAdmitsUnansweredStatement()
    ensures var v := DocumentVersion(1, 1, 0, [], [Statement(1, "first", []), Statement(2, "second", [])]);
      var rows := [UserStatement(10, 7, 1, 100, 5), UserStatement(11, 7, 1, 100, 6)];
      && UniqueRowIds(rows)
      && Responded(Some(SummaryOf(v, rows, 7)))
      && Statement(2, "second", []) in AllStatements(v)
      && forall a :: a in rows && a.userId == 7 ==> a.statementId != 2
  {
    var v := DocumentVersion(1, 1, 0, [], [Statement(1, "first", []), Statement(2, "second", [])]);
    var rows := [UserStatement(10, 7, 1, 100, 5), UserStatement(11, 7, 1, 100, 6)];
    assert GlobalStatementIds(v) == {1, 2};
    assert ContentStatementIds(v) == {};
    assert AnswerRowIds(rows, 7, {1, 2}) == {10, 11};
    assert AnswerRowIds(rows, 7, {}) == {};
    assert AllStatements(v) == v.statements;
  }

  /** The answer count counts rows, not statements, so it can exceed the statement count. */
  lemma AnswerCountMayExceedTotal()
    ensures var v := DocumentVersion(1, 1, 0, [], [Statement(1, "only", [])]);
      var rows := [UserStatement(10, 7, 1, 100, 5), UserStatement(11, 7, 1, 101, 6)];
      var row := SummaryOf(v, rows, 7);
      row.totalStatements == 1 && row.userStatements == 2
  {
    var v := DocumentVersion(1, 1, 0, [], [Statement(1, "only", [])]);
    var rows := [UserStatement(10, 7, 1, 100, 5), UserStatement(11, 7, 1, 101, 6)];
    assert GlobalStatementIds(v) == {1};
    assert ContentStatementIds(v) == {};
    assert AnswerRowIds(rows, 7, {1}) == {10, 11};
    assert AnswerRowIds(rows, 7, {}) == {};
  }

  /**
   * In the list, each version of a document (version ids being keys) is marked
   * from its own summary row, and its date is set only when it is marked.
   */
  lemma ListedVersionUsesOwnSummary(docs: seq<Document>, rows: seq<UserStatement>, userId: int, d: Document, j: nat)
    requires FindDocument(docs, d.id) == Some(d)
    requires j < |d.versions|
    requires forall a, b :: 0 <= a < b < |d.versions| ==> d.versions[a].id != d.versions[b].id
    ensures var summary := VersionStatementSummary(docs, rows, d.id, userId);
      var ann := AnnotateVersion(ToDto(d).versions[j], summary);
      && ann.userResponded == Responded(Some(SummaryOf(d.versions[j], rows, userId)))
      && ann.completionDate == (if ann.userResponded then SummaryOf(d.versions[j], rows, userId).completionDate else None)
  {
    var summary := VersionStatementSummary(docs, rows, d.id, userId);
    var id := d.versions[j].id;
    assert summary[j].versionId == Some(id);
    var found := FindVersionSummary(summary, id);
    var k :| 0 <= k < |summary| && summary[k] == found.value && found.value.versionId == Some(id)
      && forall i :: 0 <= i < k ==> summary[i].versionId != Some(id);
    assert k == j;
  }

  // ----- getUserCompliance -----

  /** `userStatements.map(us => us.statement.id)` over the user's answer rows. */
  function AnsweredStatementIds(rows: seq<UserStatement>, userId: int): (ids: seq<int>)
    ensures forall id :: id in ids <==> exists a :: a in rows && a.userId == userId && a.statementId == id
  {
    if rows == [] then []
    else (if rows[0].userId == userId then [rows[0].statementId] else []) + AnsweredStatementIds(rows[1..], userId)
  }

  /** Some statement of the document's first version was never answered (whatever the choice). */
  predicate MissesStatements(d: Document, answered: seq<int>)
  {
    d.versions != [] && exists s :: s in AllStatements(d.versions[0]) && s.id !in answered
  }

  /** The documents reported missing, in the order of the team's documents. */
  function MissingDocuments(teamDocuments: seq<Document>, answered: seq<int>): seq<Document>
  {
    Filter(teamDocuments, (d: Document) => MissesStatements(d, answered))
  }

  lemma MissingDocumentsAppend(a: seq<Document>, b: seq<Document>, answered: seq<int>)
    ensures MissingDocuments(a + b, answered) == MissingDocuments(a, answered) + MissingDocuments(b, answered)
  {
    FilterAppend(a, b, (d: Document) => MissesStatements(d, answered));
  }

  /** `getContentStatements`: the statements of each content, in content order. */
  method GetContentStatements(version: DocumentVersion) returns (statements: seq<Statement>)
    ensures statements == ContentStatements(version.contents)
    ensures |statements| == SumStatementCounts(version.contents)
    ensures forall s :: s in statements <==> exists c :: c in version.contents && s in c.statements
  {
    statements := [];
    for i := 0 to |version.contents|
      invariant statements == ContentStatements(version.contents[..i])
    {
      assert version.contents[..i + 1][..i] == version.contents[..i];
      statements := statements + version.contents[i].statements;
    }
    assert version.contents[..|version.contents|] == version.contents;
    forall s ensures s in statements <==> exists c :: c in version.contents && s in c.statements {
      ContentStatementsMembership(version.contents, s);
    }
  }

  /** The per-document test of `getUserCompliance`: the first version's statements not among the answered ids. */
  method FirstVersionMisses(teamDoc: Document, userStatementIds: seq<int>) returns (misses: bool)
    requires teamDoc.versions != []
    ensures misses == MissesStatements(teamDoc, userStatementIds)
  {
    var generalStatements := teamDoc.versions[0].statements;
    var contentStatements := GetContentStatements(teamDoc.versions[0]);
    var statements := generalStatements + contentStatements;
    var missingStatements := Filter(statements, (s: Statement) => s.id !in userStatementIds);
    misses := |missingStatements| > 0;
    if misses {
      assert missingStatements[0] in missingStatements;
    }
  }

  /**
   * `getUserCompliance`: 404 for a missing user or team; otherwise the team's
   * required documents whose first version has an unanswered statement, and
   * compliant exactly when there is none.
   */
  method GetUserCompliance(users: seq<User>, docs: seq<Document>, rows: seq<UserStatement>, userId: int)
    returns (r: Result<ComplianceResult, ConsentError>)
    ensures r.Failure? <==> UserTeam(users, userId).None?
    ensures r.Success? ==>
      && r.value.missingDocuments
        == MissingDocuments(DocumentsByTeamId(docs, UserTeam(users, userId).value), AnsweredStatementIds(rows, userId))
      && (r.value.compliant <==> r.value.missingDocuments == [])
  {
    var team := UserTeam(users, userId);
    if team.None? {
      return Failure(UserOrTeamNotFound);
    }
    var teamDocuments := DocumentsByTeamId(docs, team.value);
    var userStatementIds := AnsweredStatementIds(rows, userId);
    var missingDocuments := CollectMissing(teamDocuments, userStatementIds);
    r := Success(ComplianceResult(|missingDocuments| == 0, missingDocuments));
  }

  /** The loop of `getUserCompliance`: the team documents with an unanswered statement, in order. */
  method CollectMissing(teamDocuments: seq<Document>, userStatementIds: seq<int>) returns (missingDocuments: seq<Document>)
    requires forall d :: d in teamDocuments ==> d.versions != []
    ensures missingDocuments == MissingDocuments(teamDocuments, userStatementIds)
  {
    missingDocuments := [];
    for i := 0 to |teamDocuments|
      invariant missingDocuments == MissingDocuments(teamDocuments[..i], userStatementIds)
    {
      var teamDoc := teamDocuments[i];
      var misses := FirstVersionMisses(teamDoc, userStatementIds);
      if misses {
        missingDocuments := missingDocuments + [teamDoc];
      }
      assert teamDocuments[..i + 1] == teamDocuments[..i] + [teamDoc];
      MissingDocumentsAppend(teamDocuments[..i], [teamDoc], userStatementIds);
    }
    assert teamDocuments[..|teamDocuments|] == teamDocuments;
  }

  /** A document is reported exactly when its first version has a statement whose id was never answered. */
  lemma MissingIffUnanswered(teamDocuments: seq<Document>, answered: seq<int>, d: Document)
    requires d in teamDocuments && d.versions != []
    ensures d in MissingDocuments(teamDocuments, answered)
      <==> exists s :: s in AllStatements(d.versions[0]) && s.id !in answered
  {
  }

  /** Compliance compares statement ids only: two answer sets with the same ids give the same report. */
  lemma {:induction false} MissingDocumentsDependOnIdsOnly(teamDocuments: seq<Document>, answered1: seq<int>, answered2: seq<int>)
    requires forall id :: id in answered1 <==> id in answered2
    ensures MissingDocuments(teamDocuments, answered1) == MissingDocuments(teamDocuments, answered2)
  {
    if teamDocuments != [] {
      var d := teamDocuments[0];
      assert MissesStatements(d, answered1) == MissesStatements(d, answered2);
      MissingDocumentsDependOnIdsOnly(teamDocuments[1..], answered1, answered2);
      assert teamDocuments == [d] + teamDocuments[1..];
      MissingDocumentsAppend([d], teamDocuments[1..], answered1);
      MissingDocumentsAppend([d], teamDocuments[1..], answered2);
    }
  }

  /** Which choice a user picked never matters: re-answering with other choices leaves the report unchanged. */
  lemma ComplianceIgnoresChoices(teamDocuments: seq<Document>, rows1: seq<UserStatement>, rows2: seq<UserStatement>, userId: int)
    requires |rows1| == |rows2|
    requires forall i :: 0 <= i < |rows1| ==> rows2[i] == rows1[i].(choiceId := rows2[i].choiceId)
    ensures MissingDocuments(teamDocuments, AnsweredStatementIds(rows1, userId))
         == MissingDocuments(teamDocuments, AnsweredStatementIds(rows2, userId))
  {
    forall id
      ensures id in AnsweredStatementIds(rows1, userId) <==> id in AnsweredStatementIds(rows2, userId)
    {
      if exists a :: a in rows1 && a.userId == userId && a.statementId == id {
        var a :| a in rows1 && a.userId == userId && a.statementId == id;
        var i :| 0 <= i < |rows1| && rows1[i] == a;
        assert rows2[i] in rows2;
      }
      if exists a :: a in rows2 && a.userId == userId && a.statementId == id {
        var a :| a in rows2 && a.userId == userId && a.statementId == id;
        var i :| 0 <= i < |rows2| && rows2[i] == a;
        assert rows1[i] in rows1;
      }
    }
    MissingDocumentsDependOnIdsOnly(teamDocuments, AnsweredStatementIds(rows1, userId), AnsweredStatementIds(rows2, userId));
  }

  /** A required document whose first version has no statement is never missing. */
  lemma NoStatementsNeverMissing(teamDocuments: seq<Document>, answered: seq<int>, d: Document)
    requires d.versions != [] && AllStatements(d.versions[0]) == []
    ensures d !in MissingDocuments(teamDocuments, answered)
  {
  }

  /**
   * A required document the user is compliant with shows its latest version as
   * responded in the list, provided that version has statements (answer rows being keyed).
   */
  lemma CompliantDocumentIsResponded(teamDocuments: seq<Document>, rows: seq<UserStatement>, userId: int, d: Document)
    requires UniqueRowIds(rows)
    requires d in teamDocuments && d.versions != [] && AllStatements(d.versions[0]) != []
    requires d !in MissingDocuments(teamDocuments, AnsweredStatementIds(rows, userId))
    ensures Responded(Some(SummaryOf(d.versions[0], rows, userId)))
  {
    var answered := AnsweredStatementIds(rows, userId);
    forall s | s in AllStatements(d.versions[0])
      ensures exists a :: a in rows && a.userId == userId && a.statementId == s.id
    {
      assert s.id in answered;
    }
    CoverageImpliesResponded(d.versions[0], rows, userId);
  }

  // ----- getDocumentsForUser -----

  /** `getDocumentsForUser`: 404 for a missing user or team, else the team's required documents. */
  function DocumentsForUser(users: seq<User>, docs: seq<Document>, userId: int): (r: Result<seq<Document>, ConsentError>)
    ensures r.Failure? <==> UserTeam(users, userId).None?
    ensures r.Success? ==> forall x :: x in r.value ==> x.versions != [] && exists d :: d in docs && x.id == d.id
    ensures r.Success? ==> r.value == DocumentsByTeamId(docs, UserTeam(users, userId).value)
    ensures r.Success? ==> forall d :: d in docs && RequiredForTeam(d, UserTeam(users, userId).value) && d.versions != [] ==>
      TeamView(d, UserTeam(users, userId).value) in r.value
  {
    match UserTeam(users, userId)
    case None => Failure(UserOrTeamNotFound)
    case Some(team) => Success(DocumentsByTeamId(docs, team))
  }

  // ----- saveUserStatements -----

  function AsDtos(saved: seq<UserStatement>): seq<UserStatementDto>
  {
    seq(|saved|, k requires 0 <= k < |saved| => UserStatementDto(saved[k].statementId, saved[k].choiceId, saved[k].statementTime))
  }

  function ErrorItems(errors: seq<(UserStatementDto, R.SaveError)>): seq<UserStatementDto>
  {
    seq(|errors|, k requires 0 <= k < |errors| => errors[k].0)
  }

  /** The items whose statement, choice and user all exist, in request order. */
  function SaveableItems(repo: R.UserStatementRepository, items: seq<UserStatementDto>, userId: int): seq<UserStatementDto>
  {
    Filter(items, (dto: UserStatementDto) => repo.LookupError(dto, userId).None?)
  }

  /** The items whose lookups fail, in request order. */
  function FailingItems(repo: R.UserStatementRepository, items: seq<UserStatementDto>, userId: int): seq<UserStatementDto>
  {
    Filter(items, (dto: UserStatementDto) => repo.LookupError(dto, userId).Some?)
  }

  lemma ItemsAppend(repo: R.UserStatementRepository, items: seq<UserStatementDto>, dto: UserStatementDto, userId: int)
    ensures SaveableItems(repo, items + [dto], userId) == SaveableItems(repo, items, userId) + SaveableItems(repo, [dto], userId)
    ensures FailingItems(repo, items + [dto], userId) == FailingItems(repo, items, userId) + FailingItems(repo, [dto], userId)
  {
    FilterAppend(items, [dto], (dto: UserStatementDto) => repo.LookupError(dto, userId).None?);
    FilterAppend(items, [dto], (dto: UserStatementDto) => repo.LookupError(dto, userId).Some?);
  }

  /** The outcome so far of a batch: every processed item is a saved row or an error carrying its lookup's error. */
  predicate Accounted(repo: R.UserStatementRepository, done: seq<UserStatementDto>, userId: int,
                      results: seq<UserStatement>, errors: seq<(UserStatementDto, R.SaveError)>)
  {
    && |results| + |errors| == |done|
    && (forall a :: a in results ==> a.userId == userId)
    && AsDtos(results) == SaveableItems(repo, done, userId)
    && ErrorItems(errors) == FailingItems(repo, done, userId)
    && (forall e :: e in errors ==> repo.LookupError(e.0, userId) == Some(e.1))
  }

  /** A saved item extends the results by its row. */
  lemma AccountedSaved(repo: R.UserStatementRepository, done: seq<UserStatementDto>, statement: UserStatementDto, userId: int,
                       results: seq<UserStatement>, errors: seq<(UserStatementDto, R.SaveError)>, row: UserStatement)
    requires Accounted(repo, done, userId, results, errors)
    requires repo.LookupError(statement, userId).None?
    requires row.userId == userId
    requires UserStatementDto(row.statementId, row.choiceId, row.statementTime) == statement
    ensures Accounted(repo, done + [statement], userId, results + [row], errors)
  {
    ItemsAppend(repo, done, statement, userId);
    assert AsDtos(results + [row]) == AsDtos(results) + [statement];
  }

  /** A failing item extends the errors by the item and its lookup's error. */
  lemma AccountedFailed(repo: R.UserStatementRepository, done: seq<UserStatementDto>, statement: UserStatementDto, userId: int,
                        results: seq<UserStatement>, errors: seq<(UserStatementDto, R.SaveError)>, error: R.SaveError)
    requires Accounted(repo, done, userId, results, errors)
    requires repo.LookupError(statement, userId) == Some(error)
    ensures Accounted(repo, done + [statement], userId, results, errors + [(statement, error)])
  {
    ItemsAppend(repo, done, statement, userId);
    assert ErrorItems(errors + [(statement, error)]) == ErrorItems(errors) + [statement];
  }

  /** One iteration of `saveUserStatements`: the item is saved or its error recorded. */
  method SaveNext(repo: R.UserStatementRepository, done: seq<UserStatementDto>, statement: UserStatementDto, userId: int,
                  results: seq<UserStatement>, errors: seq<(UserStatementDto, R.SaveError)>, ghost before: seq<UserStatement>)
    returns (results': seq<UserStatement>, errors': seq<(UserStatementDto, R.SaveError)>)
    requires repo.Valid() && Accounted(repo, done, userId, results, errors)
    requires repo.rows == before + results
    modifies repo`rows, repo`nextId
    ensures repo.Valid() && Accounted(repo, done + [statement], userId, results', errors')
    ensures repo.rows == before + results'
  {
    var result := repo.SaveUserStatement(statement, userId);
    if result.Success? {
      AccountedSaved(repo, done, statement, userId, results, errors, result.value);
      assert before + results + [result.value] == before + (results + [result.value]);
      results', errors' := results + [result.value], errors;
    } else {
      AccountedFailed(repo, done, statement, userId, results, errors, result.error);
      results', errors' := results, errors + [(statement, result.error)];
    }
  }

  /**
   * `saveUserStatements`: every item is saved or recorded as an error, never
   * both and never thrown; the saved rows are exactly the items whose lookups
   * succeed, each stored for `userId`, and the errors exactly the others with
   * the lookup's error. The items are processed one after another here.
   */
  method SaveUserStatements(repo: R.UserStatementRepository, statements: seq<UserStatementDto>, userId: int)
    returns (results: seq<UserStatement>, errors: seq<(UserStatementDto, R.SaveError)>)
    requires repo.Valid()
    modifies repo`rows, repo`nextId
    ensures repo.Valid()
    ensures repo.rows == old(repo.rows) + results
    ensures Accounted(repo, statements, userId, results, errors)
  {
    results := [];
    errors := [];
    for i := 0 to |statements|
      invariant repo.Valid()
      invariant repo.rows == old(repo.rows) + results
      invariant Accounted(repo, statements[..i], userId, results, errors)
    {
      assert statements[..i + 1] == statements[..i] + [statements[i]];
      results, errors := SaveNext(repo, statements[..i], statements[i], userId, results, errors, old(repo.rows));
    }
    assert statements[..|statements|] == statements;
  }
}
