/**
 * Saving one answer: look up the statement, the choice and the user by id,
 * failing at the first one that does not exist, then insert a fresh answer row.
 */
module UserStatementRepository {
  import opened Wrappers
  import opened Entities

  /** Which `findOneOrFail` lookup found nothing. */
  datatype SaveError = StatementNotFound | ChoiceNotFound | UserNotFound

  /**
   * The answer-row table with the tables the lookups read.  The statement,
   * choice and user tables are not written here, so they are constants;
   * `nextId` stands for the database's generated primary key.
   */
  class UserStatementRepository {
    const statements: seq<Statement>
    const choices: seq<StatementChoice>
    const users: seq<User>
    var rows: seq<UserStatement>
    var nextId: int

    /** Every row id is below the next generated id, so generated ids never collide. */
    ghost predicate Valid()
      reads this
    {
      UniqueRowIds(rows) && forall a :: a in rows ==> a.id < nextId
    }

    constructor (statements: seq<Statement>, choices: seq<StatementChoice>, users: seq<User>,
                 rows: seq<UserStatement>, nextId: int)
      requires UniqueRowIds(rows) && forall a :: a in rows ==> a.id < nextId
      ensures Valid()
      ensures this.statements == statements && this.choices == choices && this.users == users
      ensures this.rows == rows && this.nextId == nextId
    {
      this.statements := statements;
      this.choices := choices;
      this.users := users;
      this.rows := rows;
      this.nextId := nextId;
    }

    /**
     * The error `saveUserStatement` fails with, if any: the lookups run in the
     * order statement, choice, user.  The choice is not checked to belong to the statement.
     */
    function LookupError(dto: UserStatementDto, userId: int): (e: Option<SaveError>)
      ensures e == Some(StatementNotFound) <==> forall s :: s in statements ==> s.id != dto.statementId
      ensures e == Some(ChoiceNotFound) <==>
        (exists s :: s in statements && s.id == dto.statementId) && forall c :: c in choices ==> c.id != dto.choiceId
      ensures e.None? <==>
        && (exists s :: s in statements && s.id == dto.statementId)
        && (exists c :: c in choices && c.id == dto.choiceId)
        && (exists u :: u in users && u.id == userId)
    {
      if !exists s :: s in statements && s.id == dto.statementId then Some(StatementNotFound)
      else if !exists c :: c in choices && c.id == dto.choiceId then Some(ChoiceNotFound)
      else if !exists u :: u in users && u.id == userId then Some(UserNotFound)
      else None
    }

    /**
     * `saveUserStatement`: on success a new row with the DTO's time and the
     * looked-up statement, choice and user is appended, whatever the user
     * answered before; on failure nothing is inserted.
     */
    method SaveUserStatement(dto: UserStatementDto, userId: int) returns (r: Result<UserStatement, SaveError>)
      requires Valid()
      modifies this`rows, this`nextId
      ensures Valid()
      ensures r.Failure? <==> LookupError(dto, userId).Some?
      ensures r.Failure? ==> r.error == LookupError(dto, userId).value && rows == old(rows) && nextId == old(nextId)
      ensures r.Success? ==>
        && r.value == UserStatement(old(nextId), userId, dto.statementId, dto.choiceId, dto.statementTime)
        && rows == old(rows) + [r.value]
        && nextId == old(nextId) + 1
    {
      var e := LookupError(dto, userId);
      if e.Some? {
        return Failure(e.value);
      }
      var row := UserStatement(nextId, userId, dto.statementId, dto.choiceId, dto.statementTime);
      rows := rows + [row];
      nextId := nextId + 1;
      r := Success(row);
    }
  }

  /** Submitting the same answer twice stores two rows for the same user and statement. */
  method ResubmissionAddsSecondRow(repo: UserStatementRepository, dto: UserStatementDto, userId: int)
    returns (first: Result<UserStatement, SaveError>, second: Result<UserStatement, SaveError>)
    requires repo.Valid()
    requires repo.LookupError(dto, userId).None?
    modifies repo`rows, repo`nextId
    ensures repo.Valid()
    ensures first.Success? && second.Success? && first.value.id != second.value.id
    ensures repo.rows == old(repo.rows) + [first.value, second.value]
    ensures first.value.statementId == second.value.statementId == dto.statementId
    ensures first.value.userId == second.value.userId == userId
  {
    first := repo.SaveUserStatement(dto, userId);
    second := repo.SaveUserStatement(dto, userId);
  }
}
