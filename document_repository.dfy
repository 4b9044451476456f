/**
 * The document repository's queries, evaluated over the document table as the
 * ORM loads it (each document with its versions, contents, statements and team
 * requirements) and over the table of answer rows.
 */
module DocumentRepository {
  import opened Wrappers
  import opened Entities
  import opened Seqs

  datatype RepositoryError = DocumentNotFound

  /** `findOne({ where: { id } })`: the first document with that id. */
  function FindDocument(docs: seq<Document>, id: int): (r: Option<Document>)
    ensures r.None? <==> forall d :: d in docs ==> d.id != id
    ensures r.Some? ==> r.value in docs && r.value.id == id
  {
    if docs == [] then None
    else if docs[0].id == id then Some(docs[0])
    else FindDocument(docs[1..], id)
  }

  // ----- document list for a team -----

  /** The WHERE clause of the list query on one joined requirement row. */
  predicate RequirementAdmits(r: DocumentTeamRequirement, teamId: int)
  {
    r.teamId == Some(teamId) || r.teamId.None?
  }

  /**
   * A document survives the list query's WHERE clause: the LEFT JOIN gives a
   * document without requirement rows one row whose team is NULL.
   */
  predicate ListedForTeam(d: Document, teamId: int)
  {
    d.requiredTeams == [] || exists r :: r in d.requiredTeams && RequirementAdmits(r, teamId)
  }

  /** A document as a list entry: every version, not yet annotated. */
  function ToDto(d: Document): DocumentDto
  {
    DocumentDto(d.id, d.title, seq(|d.versions|, i requires 0 <= i < |d.versions| =>
      DocumentVersionDto(d.versions[i].id, d.versions[i].version, d.versions[i].validFrom, false, None)))
  }

  /** `getDocumentListByTeamId`: the listed documents of the team with all their versions, in table order. */
  function DocumentListByTeamId(docs: seq<Document>, teamId: int): (r: seq<DocumentDto>)
    ensures |r| <= |docs|
    ensures forall d :: d in docs && ListedForTeam(d, teamId) ==> ToDto(d) in r
    ensures forall x :: x in r ==> exists d :: d in docs && ListedForTeam(d, teamId) && x == ToDto(d)
  {
    if docs == [] then []
    else (if ListedForTeam(docs[0], teamId) then [ToDto(docs[0])] else []) + DocumentListByTeamId(docs[1..], teamId)
  }

  /** Every list entry keeps the ids, numbers and dates of all its document's versions. */
  lemma ToDtoKeepsVersions(d: Document)
    ensures |ToDto(d).versions| == |d.versions|
    ensures forall i :: 0 <= i < |d.versions| ==>
      ToDto(d).versions[i].id == d.versions[i].id && ToDto(d).versions[i].validFrom == d.versions[i].validFrom
  {
  }

  // ----- latest version -----

  /** The greatest `validFrom` among the versions. */
  function MaxValidFrom(vs: seq<DocumentVersion>): (m: int)
    requires |vs| > 0
    ensures exists k :: 0 <= k < |vs| && vs[k].validFrom == m
    ensures forall k :: 0 <= k < |vs| ==> vs[k].validFrom <= m
  {
    if |vs| == 1 then vs[0].validFrom
    else
      var rest := MaxValidFrom(vs[1..]);
      if vs[0].validFrom >= rest then vs[0].validFrom else rest
  }

  /** The versions dated at the maximum `validFrom` (the `MAX(version.validFrom)` sub-query). */
  function LatestVersions(vs: seq<DocumentVersion>): (r: seq<DocumentVersion>)
  {
    if vs == [] then [] else Filter(vs, (v: DocumentVersion) => v.validFrom == MaxValidFrom(vs))
  }

  /** The latest versions are exactly the versions no other version post-dates; ties all pass. */
  lemma {:induction false} LatestVersionsCharacterised(vs: seq<DocumentVersion>)
    ensures forall v :: v in LatestVersions(vs) <==> v in vs && forall w :: w in vs ==> w.validFrom <= v.validFrom
    ensures vs != [] ==> LatestVersions(vs) != []
  {
    if vs != [] {
      var m := MaxValidFrom(vs);
      forall v | v in vs
        ensures v.validFrom == m <==> forall w :: w in vs ==> w.validFrom <= v.validFrom
      {
        var k :| 0 <= k < |vs| && vs[k].validFrom == m;
        assert vs[k] in vs;
      }
      var k :| 0 <= k < |vs| && vs[k].validFrom == m;
      assert vs[k] in LatestVersions(vs);
    }
  }

  /**
   * `getDocumentById`: the document with its versions cut down to the first
   * entry of a stable sort by `validFrom`, newest first — the first version
   * (in table order) carrying the greatest `validFrom`.  A missing document
   * fails (the source dereferences the null result).
   */
  method GetDocumentById(docs: seq<Document>, id: int) returns (r: Result<Document, RepositoryError>)
    ensures r.Failure? <==> forall d :: d in docs ==> d.id != id
    ensures r.Success? ==> FindDocument(docs, id) == Some(r.value.(versions := FindDocument(docs, id).value.versions))
    ensures r.Success? ==> var vs := FindDocument(docs, id).value.versions;
      && |r.value.versions| == (if vs == [] then 0 else 1)
      && (vs != [] ==> exists k :: (0 <= k < |vs| && r.value.versions[0] == vs[k]
            && (forall j :: 0 <= j < |vs| ==> vs[j].validFrom <= vs[k].validFrom)
            && (forall j :: 0 <= j < k ==> vs[j].validFrom < vs[k].validFrom)))
  {
    var found := FindDocument(docs, id);
    if found.None? {
      return Failure(DocumentNotFound);
    }
    var d := found.value;
    if d.versions == [] {
      return Success(d);
    }
    var best := 0;
    var i := 1;
    while i < |d.versions|
      invariant 0 <= best < i <= |d.versions|
      invariant forall j :: 0 <= j < i ==> d.versions[j].validFrom <= d.versions[best].validFrom
      invariant forall j :: 0 <= j < best ==> d.versions[j].validFrom < d.versions[best].validFrom
    {
      if d.versions[i].validFrom > d.versions[best].validFrom {
        best := i;
      }
      i := i + 1;
    }
    r := Success(d.(versions := [d.versions[best]]));
  }

  /**
   * `getDocumentForUser`: the document restricted to the requested version
   * (a truthy `versionId`) or else to the versions at the greatest `validFrom`.
   * When no version row survives the WHERE clause the query finds nothing.
   */
  function DocumentForUser(docs: seq<Document>, documentId: int, versionId: Option<int>): (r: Option<Document>)
    ensures r.Some? ==> FindDocument(docs, documentId).Some? && r.value.id == documentId && r.value.versions != []
    ensures r.Some? ==> r.value == FindDocument(docs, documentId).value.(versions := r.value.versions)
    ensures r.Some? && versionId.Some? && versionId.value != 0 ==>
      forall v :: v in r.value.versions <==> v in FindDocument(docs, documentId).value.versions && v.id == versionId.value
    ensures r.Some? && (versionId.None? || versionId.value == 0) ==>
      r.value.versions == LatestVersions(FindDocument(docs, documentId).value.versions)
    ensures (FindDocument(docs, documentId).Some? && FindDocument(docs, documentId).value.versions != []
      && (versionId.None? || versionId.value == 0)) ==> r.Some?
    ensures (FindDocument(docs, documentId).Some? && versionId.Some? && versionId.value != 0
      && exists v :: v in FindDocument(docs, documentId).value.versions && v.id == versionId.value) ==> r.Some?
  {
    match FindDocument(docs, documentId)
    case None => None
    case Some(d) =>
      var kept := if versionId.Some? && versionId.value != 0
        then Filter(d.versions, (v: DocumentVersion) => v.id == versionId.value)
        else LatestVersions(d.versions);
      LatestVersionsCharacterised(d.versions);
      if kept == [] then None else Some(d.(versions := kept))
  }

  /** `getDocumentVersions`: the versions of the document, none for an unknown document. */
  function DocumentVersions(docs: seq<Document>, documentId: int): (r: seq<DocumentVersion>)
    ensures FindDocument(docs, documentId).None? ==> r == []
    ensures FindDocument(docs, documentId).Some? ==> r == FindDocument(docs, documentId).value.versions
  {
    match FindDocument(docs, documentId)
    case None => []
    case Some(d) => d.versions
  }

  // ----- documents required for a team -----

  /** A document has a requirement row for exactly this team (no NULL branch). */
  predicate RequiredForTeam(d: Document, teamId: int)
  {
    exists r :: r in d.requiredTeams && r.teamId == Some(teamId)
  }

  /** A required document as the team query hydrates it: matching requirement rows, latest versions. */
  function TeamView(d: Document, teamId: int): Document
  {
    d.(versions := LatestVersions(d.versions),
       requiredTeams := Filter(d.requiredTeams, (r: DocumentTeamRequirement) => r.teamId == Some(teamId)))
  }

  /**
   * `getDocumentsByTeamId`: documents with a requirement row for the team and at
   * least one version, each restricted to its latest versions, in table order.
   */
  function DocumentsByTeamId(docs: seq<Document>, teamId: int): (r: seq<Document>)
    ensures |r| <= |docs|
    ensures forall x :: x in r ==> x.versions != [] && exists d :: d in docs && RequiredForTeam(d, teamId) && x == TeamView(d, teamId)
    ensures forall d :: d in docs && RequiredForTeam(d, teamId) && d.versions != [] ==> TeamView(d, teamId) in r
  {
    if docs == [] then []
    else
      var d := docs[0];
      LatestVersionsCharacterised(d.versions);
      (if RequiredForTeam(d, teamId) && d.versions != [] then [TeamView(d, teamId)] else [])
        + DocumentsByTeamId(docs[1..], teamId)
  }

  /**
   * A document required for a team also appears in that team's document list,
   * while a document required for everyone (or for no one) is listed but never required.
   */
  lemma {:induction false} RequiredDocumentsAreListed(docs: seq<Document>, teamId: int)
    ensures forall x :: x in DocumentsByTeamId(docs, teamId) ==>
      exists d :: d in docs && d.id == x.id && ToDto(d) in DocumentListByTeamId(docs, teamId)
  {
    forall x | x in DocumentsByTeamId(docs, teamId)
      ensures exists d :: d in docs && d.id == x.id && ToDto(d) in DocumentListByTeamId(docs, teamId)
    {
      var d :| d in docs && RequiredForTeam(d, teamId) && x == TeamView(d, teamId);
      var r :| r in d.requiredTeams && r.teamId == Some(teamId);
      assert RequirementAdmits(r, teamId);
      assert ListedForTeam(d, teamId);
    }
  }

  /** The team query's documents carry only versions no other version of theirs post-dates. */
  lemma TeamDocumentsAreLatest(docs: seq<Document>, teamId: int, x: Document)
    requires x in DocumentsByTeamId(docs, teamId)
    ensures exists d :: (d in docs && x.id == d.id
      && forall v :: v in x.versions ==> v in d.versions && forall w :: w in d.versions ==> w.validFrom <= v.validFrom)
  {
    var d :| d in docs && RequiredForTeam(d, teamId) && x == TeamView(d, teamId);
    LatestVersionsCharacterised(d.versions);
  }

  // ----- per-version statement summary -----

  /** Distinct ids of the version's global statements. */
  function GlobalStatementIds(v: DocumentVersion): set<int>
  {
    set s | s in v.statements :: s.id
  }

  /** Distinct ids of the statements of the version's contents. */
  function ContentStatementIds(v: DocumentVersion): set<int>
  {
    set s | s in ContentStatements(v.contents) :: s.id
  }

  /** Distinct ids of the user's answer rows on the given statements (`COUNT(DISTINCT response.id)`). */
  function AnswerRowIds(rows: seq<UserStatement>, userId: int, statementIds: set<int>): set<int>
  {
    set a | a in rows && a.userId == userId && a.statementId in statementIds :: a.id
  }

  /** `MAX(response.statementTime)` over the user's answer rows on the given statements. */
  function LatestAnswerTime(rows: seq<UserStatement>, userId: int, statementIds: set<int>): (t: Option<int>)
    ensures t.None? <==> forall a :: a in rows && a.userId == userId ==> a.statementId !in statementIds
    ensures t.Some? ==> exists a :: a in rows && a.userId == userId && a.statementId in statementIds && a.statementTime == t.value
    ensures t.Some? ==> forall a :: a in rows && a.userId == userId && a.statementId in statementIds ==> a.statementTime <= t.value
  {
    if rows == [] then None
    else
      var rest := LatestAnswerTime(rows[1..], userId, statementIds);
      var a := rows[0];
      assert forall b :: b in rows ==> b == a || b in rows[1..];
      if a.userId == userId && a.statementId in statementIds then
        if rest.Some? && rest.value >= a.statementTime then rest else Some(a.statementTime)
      else rest
  }

  /**
   * The summary's completion date: with both dates the version date when it is
   * strictly later, otherwise the content date; with one date that one; else none.
   */
  function MergeCompletionDates(versionDate: Option<int>, contentDate: Option<int>): (r: Option<int>)
    ensures r.None? <==> versionDate.None? && contentDate.None?
    ensures r.Some? ==> r == versionDate || r == contentDate
    ensures r.Some? ==> (versionDate.Some? ==> versionDate.value <= r.value) && (contentDate.Some? ==> contentDate.value <= r.value)
  {
    if versionDate.Some? && contentDate.Some? then
      if versionDate.value > contentDate.value then versionDate else contentDate
    else if versionDate.Some? then versionDate
    else contentDate
  }

  /** The summary row of one version for one user. */
  function SummaryOf(v: DocumentVersion, rows: seq<UserStatement>, userId: int): UserStatementsByVersion
  {
    var globalIds := GlobalStatementIds(v);
    var contentIds := ContentStatementIds(v);
    UserStatementsByVersion(
      Some(v.id),
      |globalIds| + |contentIds|,
      |AnswerRowIds(rows, userId, globalIds)| + |AnswerRowIds(rows, userId, contentIds)|,
      MergeCompletionDates(LatestAnswerTime(rows, userId, globalIds), LatestAnswerTime(rows, userId, contentIds)))
  }

  /**
   * `getVersionStatementSummaryForDocument`: one row per version of the
   * document; a document without versions still yields its one NULL-version
   * group, an unknown document no row.
   */
  function VersionStatementSummary(docs: seq<Document>, rows: seq<UserStatement>, documentId: int, userId: int)
    : (r: seq<UserStatementsByVersion>)
    ensures FindDocument(docs, documentId).None? ==> r == []
    ensures FindDocument(docs, documentId).Some? ==>
      var vs := FindDocument(docs, documentId).value.versions;
      && (vs == [] ==> r == [UserStatementsByVersion(None, 0, 0, None)])
      && (vs != [] ==> |r| == |vs| && forall i :: 0 <= i < |vs| ==> r[i] == SummaryOf(vs[i], rows, userId))
  {
    match FindDocument(docs, documentId)
    case None => []
    case Some(d) =>
      if d.versions == [] then [UserStatementsByVersion(None, 0, 0, None)]
      else seq(|d.versions|, i requires 0 <= i < |d.versions| => SummaryOf(d.versions[i], rows, userId))
  }

  /** The summary's completion date is the latest time the user answered any statement of the version. */
  lemma CompletionDateIsLatestAnswer(v: DocumentVersion, rows: seq<UserStatement>, userId: int)
    ensures var ids := GlobalStatementIds(v) + ContentStatementIds(v);
      var t := SummaryOf(v, rows, userId).completionDate;
      && (t.None? <==> forall a :: a in rows && a.userId == userId ==> a.statementId !in ids)
      && (t.Some? ==> exists a :: a in rows && a.userId == userId && a.statementId in ids && a.statementTime == t.value)
      && (t.Some? ==> forall a :: a in rows && a.userId == userId && a.statementId in ids ==> a.statementTime <= t.value)
  {
  }

  /** The total counts the distinct statements of each kind, so it is zero exactly for a version without statements. */
  lemma {:induction false} TotalZeroIffNoStatements(v: DocumentVersion, rows: seq<UserStatement>, userId: int)
    ensures SummaryOf(v, rows, userId).totalStatements == 0 <==> AllStatements(v) == []
  {
    if v.statements != [] {
      assert v.statements[0].id in GlobalStatementIds(v);
    }
    var cs := ContentStatements(v.contents);
    if cs != [] {
      assert cs[0].id in ContentStatementIds(v);
    }
  }
}
