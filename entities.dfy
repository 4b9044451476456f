/**
 * The backend's entities and DTOs as values: the entity graph a document is
 * loaded with (document > versions > contents > statements > choices), the
 * answer rows, the team requirements and the users.  Timestamps (`validFrom`,
 * `statementTime`, completion dates) are integer instants; the `double
 * precision` version number is an integer, only its order and equality are used.
 */
module Entities {
  import opened Wrappers

  datatype StatementChoice = StatementChoice(id: int, order: int)

  datatype Statement = Statement(id: int, title: string, choices: seq<StatementChoice>)

  datatype DocumentContent = DocumentContent(id: int, title: string, content: string, order: int, statements: seq<Statement>)

  /** `statements` are the version-wide (global) statements. */
  datatype DocumentVersion = DocumentVersion(
    id: int,
    version: int,
    validFrom: int,
    contents: seq<DocumentContent>,
    statements: seq<Statement>)

  /** A requirement row; a null team means the document is required for everyone. */
  datatype DocumentTeamRequirement = DocumentTeamRequirement(id: int, teamId: Option<int>)

  datatype Document = Document(
    id: int,
    title: string,
    versions: seq<DocumentVersion>,
    requiredTeams: seq<DocumentTeamRequirement>)

  /** One recorded answer: `userId` answered `statementId` with `choiceId` at `statementTime`. */
  datatype UserStatement = UserStatement(id: int, userId: int, statementId: int, choiceId: int, statementTime: int)

  /** A user as the user service returns it; `team` is the id of the user's team, if any. */
  datatype User = User(id: int, team: Option<int>)

  /** One answer as submitted by the client. */
  datatype UserStatementDto = UserStatementDto(statementId: int, choiceId: int, statementTime: int)

  /** A version in the document list; `userResponded` and `completionDate` are filled in by the consent service. */
  datatype DocumentVersionDto = DocumentVersionDto(
    id: int,
    version: int,
    validFrom: int,
    userResponded: bool,
    completionDate: Option<int>)

  datatype DocumentDto = DocumentDto(id: int, title: string, versions: seq<DocumentVersionDto>)

  /** One row of the per-version summary; `versionId` is null for a document without versions. */
  datatype UserStatementsByVersion = UserStatementsByVersion(
    versionId: Option<int>,
    totalStatements: nat,
    userStatements: nat,
    completionDate: Option<int>)

  /** The 404 the consent service raises when the user or the user's team is missing. */
  datatype ConsentError = UserOrTeamNotFound

  /** Answer rows are keyed by their generated id. */
  ghost predicate UniqueRowIds(rows: seq<UserStatement>)
  {
    forall i, j :: 0 <= i < |rows| && 0 <= j < |rows| && rows[i].id == rows[j].id ==> i == j
  }

  /** A JavaScript truthiness test of `user?.team?.id`: absent or 0 is falsy. */
  predicate HasTeam(u: User)
  {
    u.team.Some? && u.team.value != 0
  }

  /** Every statement of a version: global ones, then each content's in content order. */
  function AllStatements(v: DocumentVersion): seq<Statement>
  {
    v.statements + ContentStatements(v.contents)
  }

  /** The statements of the given contents, concatenated in content order. */
  function ContentStatements(contents: seq<DocumentContent>): (r: seq<Statement>)
    ensures |r| == SumStatementCounts(contents)
  {
    if contents == [] then [] else ContentStatements(contents[..|contents| - 1]) + contents[|contents| - 1].statements
  }

  function SumStatementCounts(contents: seq<DocumentContent>): nat
  {
    if contents == [] then 0 else SumStatementCounts(contents[..|contents| - 1]) + |contents[|contents| - 1].statements|
  }

  /** A statement is in the concatenation iff some content holds it. */
  lemma {:induction false} ContentStatementsMembership(contents: seq<DocumentContent>, s: Statement)
    ensures s in ContentStatements(contents) <==> exists c :: c in contents && s in c.statements
  {
    if contents != [] {
      var init := contents[..|contents| - 1];
      var last := contents[|contents| - 1];
      ContentStatementsMembership(init, s);
      assert contents == init + [last];
      if s in ContentStatements(contents) && s !in last.statements {
        var c :| c in init && s in c.statements;
        assert c in contents;
      }
    }
  }
}
