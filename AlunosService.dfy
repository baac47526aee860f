/**
 * The student rules (`AlunosService`): list, look up, create, delete and
 * partially update students, keeping every student's number unique.
 */
module AlunosService {
  import opened Outcomes
  import opened AlunosEntity
  import opened AlunosRepository
  import Tables

  /**
   * The name a partial update leaves: a supplied, non-blank name replaces
   * the current one; a missing or blank one is ignored. (The source also
   * skips a name equal to the current one, which leaves the same result.)
   */
  function MergedName(current: string, name: Option<string>): (r: string)
    ensures name.Some? && !IsBlank(name.value) ==> r == name.value
    ensures !(name.Some? && !IsBlank(name.value)) ==> r == current
  {
    if name.Some? && !IsBlank(name.value) && current != name.value then name.value else current
  }

  /**
   * With a current name that meets `@NotBlank`, the merged name fails it
   * exactly when the supplied name passes `isBlank` but fails `@NotBlank`.
   */
  lemma MergedNameNotBlank(current: string, name: Option<string>)
    requires NotBlankConstraint(current)
    ensures !NotBlankConstraint(MergedName(current, name)) <==>
      name.Some? && !IsBlank(name.value) && !NotBlankConstraint(name.value)
  {
  }

  /** Whether the update changes the managed entity, so that flushing it runs validation. */
  predicate Changes(current: AlunoRow, newName: string, number: Option<int>) {
    newName != current.name || (number.Some? && number.value != current.number)
  }

  /** Whether `setName` runs with a name that fails `@NotBlank`. */
  predicate InvalidRename(current: string, name: Option<string>) {
    MergedName(current, name) != current && !NotBlankConstraint(MergedName(current, name))
  }

  /**
   * What `updateAluno` decides on table `t`: NOT_FOUND for an unknown id.
   * A rename to a name failing `@NotBlank` dirties the managed entity, and
   * the next flush rejects it (`Invalid`). That flush is the automatic one
   * before the `existsByNumber` query when a new number is supplied, so it
   * comes before any CONFLICT, or else the one at commit. Otherwise CONFLICT
   * when a number is supplied that differs from the current one and is
   * already in use; otherwise the row to write back, whose name follows
   * `MergedName` and whose number is the supplied one, which validation at
   * commit still rejects when it differs from the stored row and its name
   * fails `@NotBlank`.
   */
  function UpdateDecision(t: Rows, alunoId: int, name: Option<string>, number: Option<int>): (r: Result<AlunoRow>)
    ensures r == Fail(NotFound) <==> alunoId !in t
    ensures alunoId in t && InvalidRename(t[alunoId].name, name) ==> r == Fail(Invalid)
    ensures r == Fail(Conflict) <==>
      alunoId in t && !InvalidRename(t[alunoId].name, name) &&
      number.Some? && number.value != t[alunoId].number && ExistsByNumber(t, number.value)
    ensures r == Fail(Invalid) <==>
      alunoId in t && r != Fail(Conflict) && !NotBlankConstraint(MergedName(t[alunoId].name, name)) &&
      Changes(t[alunoId], MergedName(t[alunoId].name, name), number)
    ensures r.Ok? ==> r.value.id == t[alunoId].id
    ensures r.Ok? ==> r.value.name == MergedName(t[alunoId].name, name)
    ensures r.Ok? ==> r.value.number == if number.Some? then number.value else t[alunoId].number
    ensures r.Ok? ==> NotBlankConstraint(r.value.name) || r.value == t[alunoId]
  {
    if alunoId !in t then Fail(NotFound)
    else
      var aluno := t[alunoId];
      var newName := if name.Some? && !IsBlank(name.value) && aluno.name != name.value then name.value else aluno.name;
      if newName != aluno.name && !NotBlankConstraint(newName) then Fail(Invalid)
      else if number.Some? && aluno.number != number.value && ExistsByNumber(t, number.value) then Fail(Conflict)
      else if Changes(aluno, newName, number) && !NotBlankConstraint(newName) then Fail(Invalid)
      else Ok(AlunoRow(aluno.id, newName, if number.Some? then number.value else aluno.number))
  }

  /** A successful update keeps the student's id, so the row stays under its own key. */
  lemma UpdateKeepsId(t: Rows, alunoId: int, name: Option<string>, number: Option<int>)
    requires Tables.KeyedById(t, AlunoId)
    requires UpdateDecision(t, alunoId, name, number).Ok?
    ensures UpdateDecision(t, alunoId, name, number).value.id == alunoId
  {
  }

  /**
   * Supplying the student's current number never conflicts, and supplying
   * it alone succeeds and leaves the row as it was.
   */
  lemma SameNumberNeverConflicts(t: Rows, alunoId: int, name: Option<string>)
    requires alunoId in t
    ensures UpdateDecision(t, alunoId, name, Some(t[alunoId].number)) != Fail(Conflict)
    ensures UpdateDecision(t, alunoId, None, Some(t[alunoId].number)) == Ok(t[alunoId])
  {
  }

  /** A CONFLICT means some other student holds the requested number. */
  lemma ConflictHasOtherHolder(t: Rows, alunoId: int, name: Option<string>, number: Option<int>)
    requires UpdateDecision(t, alunoId, name, number) == Fail(Conflict)
    ensures number.Some?
    ensures exists k :: k in t && k != alunoId && t[k].number == number.value
  {
    var k :| k in t && t[k].number == number.value;
    assert k != alunoId;
  }

  /**
   * On a table whose names meet `@NotBlank`, an update of a known student
   * is rejected by validation exactly when the supplied name passes the
   * service's `isBlank` test but fails `@NotBlank`, whatever number is
   * supplied.
   */
  lemma InvalidOnlyForNameTestsGap(t: Rows, alunoId: int, name: Option<string>, number: Option<int>)
    requires NamesNotBlank(t) && alunoId in t
    ensures UpdateDecision(t, alunoId, name, number) == Fail(Invalid) <==>
      name.Some? && !IsBlank(name.value) && !NotBlankConstraint(name.value)
  {
    MergedNameNotBlank(t[alunoId].name, name);
  }

  /** Writing back the row of a successful update keeps every table constraint. */
  lemma UpdateKeepsConstraints(t: Rows, alunoId: int, name: Option<string>, number: Option<int>)
    requires Tables.KeyedById(t, AlunoId) && UniqueNumbers(t) && NamesNotBlank(t)
    requires UpdateDecision(t, alunoId, name, number).Ok?
    ensures var row := UpdateDecision(t, alunoId, name, number).value;
      row.id == alunoId && Tables.KeyedById(t[alunoId := row], AlunoId) &&
      UniqueNumbers(t[alunoId := row]) && NamesNotBlank(t[alunoId := row])
  {
    var row := UpdateDecision(t, alunoId, name, number).value;
    PutKeepsConstraints(t, row);
  }

  class AlunosService {
    const repository: Store

    constructor (repository: Store)
      ensures this.repository == repository
    {
      this.repository := repository;
    }

    /** `getAlunos`: every stored student, each once. */
    function GetAlunos(): (r: seq<AlunoRow>)
      reads repository
      ensures |r| == |repository.rows|
      ensures forall a :: a in r <==> a in repository.rows.Values
    {
      Tables.FindAll(repository.rows, AlunoId)
    }

    /** `getAlunosSortedByName`: the same students as `getAlunos`, names non-decreasing. */
    function GetAlunosSortedByName(): (r: seq<AlunoRow>)
      reads repository
      ensures SortedByName(r)
      ensures multiset(r) == multiset(GetAlunos())
    {
      FindAllByOrderByNameAsc(repository.rows)
    }

    /** `getAlunoById`: the stored student, or NOT_FOUND. */
    function GetAlunoById(id: int): (r: Result<AlunoRow>)
      reads repository
      ensures r.Ok? <==> id in repository.rows
      ensures r.Ok? ==> r.value == repository.rows[id]
      ensures r.Fail? ==> r.error == NotFound
    {
      if id in repository.rows then Ok(repository.rows[id]) else Fail(NotFound)
    }

    /**
     * `addNewAluno`: CONFLICT when the number is taken, leaving the table as
     * it was; otherwise one new row under a fresh id, which `save` also
     * writes into the entity.
     */
    method AddNewAluno(aluno: Alunos) returns (r: Outcome)
      requires repository.Valid() && aluno.Valid()
      modifies repository, aluno`id
      ensures repository.Valid()
      ensures r.Failed? <==> old(ExistsByNumber(repository.rows, aluno.number))
      ensures r.Failed? ==> r.error == Conflict
      ensures r.Failed? ==> repository.rows == old(repository.rows) && repository.nextId == old(repository.nextId)
      ensures r.Failed? ==> aluno.id == old(aluno.id)
      ensures r.Done? ==> old(repository.nextId) !in old(repository.rows)
      ensures r.Done? ==> aluno.id == Some(old(repository.nextId))
      ensures r.Done? ==> repository.nextId == old(repository.nextId) + 1
      ensures r.Done? ==> repository.rows == old(repository.rows)[aluno.id.value := AlunoRow(aluno.id.value, aluno.name, aluno.number)]
    {
      if ExistsByNumber(repository.rows, aluno.number) {
        return Failed(Conflict);
      }
      var id := repository.nextId;
      var row := AlunoRow(id, aluno.name, aluno.number);
      PutKeepsConstraints(repository.rows, row);
      repository.rows := repository.rows[id := row];
      repository.nextId := id + 1;
      aluno.id := Some(id);
      r := Done;
    }

    /** `deleteAluno`: NOT_FOUND for an unknown id; otherwise exactly that row goes. */
    method DeleteAluno(alunoId: int) returns (r: Outcome)
      requires repository.Valid()
      modifies repository
      ensures repository.Valid()
      ensures r.Failed? <==> alunoId !in old(repository.rows)
      ensures r.Failed? ==> r.error == NotFound && repository.rows == old(repository.rows)
      ensures r.Done? ==> repository.rows == old(repository.rows) - {alunoId}
      ensures repository.nextId == old(repository.nextId)
    {
      if alunoId !in repository.rows {
        return Failed(NotFound);
      }
      repository.rows := repository.rows - {alunoId};
      r := Done;
    }

    /**
     * `updateAluno`: applies the decision `UpdateDecision` takes on the
     * table. The source changes the managed entity through its setters; its
     * new state is written back as the student's row. On CONFLICT or a
     * failed validation the transaction rolls back every change, the name
     * included, so a failed update leaves the table as it was.
     */
    method UpdateAluno(alunoId: int, name: Option<string>, number: Option<int>) returns (r: Outcome)
      requires repository.Valid()
      modifies repository
      ensures repository.Valid()
      ensures repository.nextId == old(repository.nextId)
      ensures r.Failed? <==> old(UpdateDecision(repository.rows, alunoId, name, number)).Fail?
      ensures r.Failed? ==> r.error == old(UpdateDecision(repository.rows, alunoId, name, number)).error
      ensures r.Failed? ==> repository.rows == old(repository.rows)
      ensures r.Done? ==>
        repository.rows == old(repository.rows)[alunoId := old(UpdateDecision(repository.rows, alunoId, name, number)).value]
    {
      var decision := UpdateDecision(repository.rows, alunoId, name, number);
      if decision.Fail? {
        return Failed(decision.error);
      }
      UpdateKeepsConstraints(repository.rows, alunoId, name, number);
      repository.rows := repository.rows[alunoId := decision.value];
      r := Done;
    }
  }
}
