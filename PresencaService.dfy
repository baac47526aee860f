/**
 * The attendance rules (`PresencaService`): mark a student present now or
 * at a given instant, list a student's records (all of them, or those in a
 * range of days), check presence on a day, list every record, delete one.
 */
module PresencaService {
  import opened Outcomes
  import opened Presenca
  import AlunosRepository
  import Tables

  /** The attendance table: generated id to stored record. */
  type Rows = map<int, PresencaRow>

  /** The id an attendance record is stored under. */
  function PresencaId(p: PresencaRow): int {
    p.id
  }

  /** `findByAluno`: the records of one student, in the order of `findAll`. */
  function FindByAluno(t: Rows, alunoId: int): (r: seq<PresencaRow>)
    ensures forall p :: p in r <==> p in t.Values && p.alunoId == alunoId
    ensures forall p :: multiset(r)[p] == (if p.alunoId == alunoId then multiset(Tables.FindAll(t, PresencaId))[p] else 0)
  {
    Tables.Filter(Tables.FindAll(t, PresencaId), (p: PresencaRow) => p.alunoId == alunoId)
  }

  /** `findByAlunoAndDataHoraBetween`: a student's records timed within `[from, to]`. */
  function FindByAlunoAndDataHoraBetween(t: Rows, alunoId: int, from: DateTime, to: DateTime): (r: seq<PresencaRow>)
    ensures forall p :: p in r <==> p in t.Values && p.alunoId == alunoId && Between(p.dataHora, from, to)
    ensures forall p :: (multiset(r)[p] ==
      if p.alunoId == alunoId && Between(p.dataHora, from, to) then multiset(Tables.FindAll(t, PresencaId))[p] else 0)
  {
    Tables.Filter(Tables.FindAll(t, PresencaId), (p: PresencaRow) => p.alunoId == alunoId && Between(p.dataHora, from, to))
  }

  /**
   * Storing a new record under a fresh id adds it to a student's window
   * query exactly when it belongs to that student and falls in the window;
   * every earlier answer stays.
   */
  lemma {:induction false} InsertExtendsWindow(t: Rows, q: PresencaRow, alunoId: int, from: DateTime, to: DateTime)
    requires Tables.KeyedById(t, PresencaId) && q.id !in t
    ensures var before := FindByAlunoAndDataHoraBetween(t, alunoId, from, to);
      var after := FindByAlunoAndDataHoraBetween(t[q.id := q], alunoId, from, to);
      forall p :: p in after <==> p in before || (p == q && q.alunoId == alunoId && Between(q.dataHora, from, to))
  {
    Tables.UpdateValues(t, q.id, q);
  }

  class PresencaService {
    /** The students table, read to resolve the student of each request. */
    const alunos: AlunosRepository.Store
    var rows: Rows
    /** The next value of the table's identity column, starting at 1. */
    var nextId: int

    /**
     * Every record sits under its own id below `nextId`, and every record
     * is a presence: the only way records are created marks `presente`.
     */
    ghost predicate Valid()
      reads this
    {
      && nextId >= 1
      && Tables.KeyedById(rows, PresencaId)
      && (forall k :: k in rows ==> 1 <= k < nextId)
      && (forall p :: p in rows.Values ==> p.presente)
    }

    constructor (alunos: AlunosRepository.Store)
      ensures Valid()
      ensures this.alunos == alunos && rows == map[] && nextId == 1
    {
      this.alunos := alunos;
      rows := map[];
      nextId := 1;
    }

    /**
     * `marcarPresenca(alunoId, dataHora)`: not found for an unknown
     * student, creating nothing; otherwise one new record for that student
     * at `dataHora` with `presente` set, under a fresh id.
     */
    method MarcarPresenca(alunoId: int, dataHora: DateTime) returns (r: Result<PresencaRow>)
      requires Valid()
      modifies this
      ensures Valid()
      ensures r.Fail? <==> alunoId !in alunos.rows
      ensures r.Fail? ==> r.error == NotFound && rows == old(rows) && nextId == old(nextId)
      ensures r.Ok? ==> r.value == PresencaRow(old(nextId), alunoId, dataHora, true)
      ensures r.Ok? ==> r.value.id !in old(rows) && rows == old(rows)[r.value.id := r.value]
      ensures r.Ok? ==> nextId == old(nextId) + 1
      ensures r.Ok? ==> VerificarPresencaNoDia(alunoId, dataHora.day) == Ok(true)
    {
      if alunoId !in alunos.rows {
        return Fail(NotFound);
      }
      var presenca := PresencaRow(nextId, alunoId, dataHora, true);
      Tables.UpdateValues(rows, nextId, presenca);
      rows := rows[nextId := presenca];
      nextId := nextId + 1;
      assert presenca in rows.Values by {
        assert rows[presenca.id] == presenca;
      }
      BetweenDaysIffDayInRange(dataHora, dataHora.day, dataHora.day);
      r := Ok(presenca);
    }

    /**
     * `marcarPresenca(alunoId)`: the same, at the instant the clock reads,
     * which is passed in as `now`.
     */
    method MarcarPresencaAgora(alunoId: int, now: DateTime) returns (r: Result<PresencaRow>)
      requires Valid()
      modifies this
      ensures Valid()
      ensures r.Fail? <==> alunoId !in alunos.rows
      ensures r.Fail? ==> r.error == NotFound && rows == old(rows) && nextId == old(nextId)
      ensures r.Ok? ==> r.value == PresencaRow(old(nextId), alunoId, now, true)
      ensures r.Ok? ==> r.value.id !in old(rows) && rows == old(rows)[r.value.id := r.value]
      ensures r.Ok? ==> nextId == old(nextId) + 1
      ensures r.Ok? ==> VerificarPresencaNoDia(alunoId, now.day) == Ok(true)
    {
      r := MarcarPresenca(alunoId, now);
    }

    /** `buscarPresencasPorAluno`: not found for an unknown student, else that student's records. */
    function BuscarPresencasPorAluno(alunoId: int): (r: Result<seq<PresencaRow>>)
      reads this, alunos
      ensures r.Fail? <==> alunoId !in alunos.rows
      ensures r.Fail? ==> r.error == NotFound
      ensures r.Ok? ==> forall p :: p in r.value <==> p in rows.Values && p.alunoId == alunoId
    {
      if alunoId !in alunos.rows then Fail(NotFound)
      else Ok(FindByAluno(rows, alunoId))
    }

    /**
     * `buscarPresencasPorAlunoEPeriodo`: not found for an unknown student,
     * else that student's records timed from the start of `startDate` to
     * the end of `endDate`, which are those whose day lies in the range.
     */
    function BuscarPresencasPorAlunoEPeriodo(alunoId: int, startDate: int, endDate: int): (r: Result<seq<PresencaRow>>)
      reads this, alunos
      ensures r.Fail? <==> alunoId !in alunos.rows
      ensures r.Fail? ==> r.error == NotFound
      ensures r.Ok? ==> forall p :: p in r.value <==>
        p in rows.Values && p.alunoId == alunoId && startDate <= p.dataHora.day <= endDate
      ensures r.Ok? && startDate > endDate ==> r.value == []
    {
      if alunoId !in alunos.rows then Fail(NotFound)
      else
        var found := FindByAlunoAndDataHoraBetween(rows, alunoId, AtStartOfDay(startDate), AtEndOfDay(endDate));
        assert forall p :: p in found <==>
          p in rows.Values && p.alunoId == alunoId && startDate <= p.dataHora.day <= endDate by {
          forall p: PresencaRow {
            BetweenDaysIffDayInRange(p.dataHora, startDate, endDate);
          }
        }
        assert found != [] ==> found[0] in found;
        Ok(found)
    }

    /**
     * `verificarPresencaNoDia`: not found for an unknown student, else
     * whether the student has any record timed on `date`, whatever its
     * `presente` flag.
     */
    function VerificarPresencaNoDia(alunoId: int, date: int): (r: Result<bool>)
      reads this, alunos
      ensures r.Fail? <==> alunoId !in alunos.rows
      ensures r.Fail? ==> r.error == NotFound
      ensures r.Ok? ==> (r.value <==> exists p :: p in rows.Values && p.alunoId == alunoId && p.dataHora.day == date)
    {
      if alunoId !in alunos.rows then Fail(NotFound)
      else
        var presencas := FindByAlunoAndDataHoraBetween(rows, alunoId, AtStartOfDay(date), AtEndOfDay(date));
        assert forall p :: p in presencas <==> p in rows.Values && p.alunoId == alunoId && p.dataHora.day == date by {
          forall p: PresencaRow {
            BetweenDaysIffDayInRange(p.dataHora, date, date);
          }
        }
        assert presencas != [] ==> presencas[0] in presencas;
        Ok(presencas != [])
    }

    /** `buscarTodasPresencas`: every stored record once. */
    function BuscarTodasPresencas(): (r: seq<PresencaRow>)
      reads this
      ensures |r| == |rows|
      ensures forall p :: p in r <==> p in rows.Values
    {
      Tables.FindAll(rows, PresencaId)
    }

    /** `deletarPresenca`: not found for an unknown record id; otherwise exactly that record goes. */
    method DeletarPresenca(presencaId: int) returns (r: Outcome)
      requires Valid()
      modifies this
      ensures Valid()
      ensures r.Failed? <==> presencaId !in old(rows)
      ensures r.Failed? ==> r.error == NotFound && rows == old(rows)
      ensures r.Done? ==> rows == old(rows) - {presencaId}
      ensures nextId == old(nextId)
    {
      if presencaId !in rows {
        return Failed(NotFound);
      }
      rows := rows - {presencaId};
      r := Done;
    }
  }

  /** Presence on a day is the same as a non-empty window query for that single day. */
  lemma PresenceIsOneDayWindow(s: PresencaService, alunoId: int, date: int)
    requires alunoId in s.alunos.rows
    ensures s.VerificarPresencaNoDia(alunoId, date).Ok?
    ensures s.VerificarPresencaNoDia(alunoId, date).value <==>
      s.BuscarPresencasPorAlunoEPeriodo(alunoId, date, date).value != []
  {
    var window := s.BuscarPresencasPorAlunoEPeriodo(alunoId, date, date).value;
    assert window != [] ==> window[0] in window;
  }

  /**
   * Because every stored record is a presence, the day check, which ignores
   * the flag, agrees with "some record of that day says present".
   */
  lemma PresenceCheckMeansPresent(s: PresencaService, alunoId: int, date: int)
    requires s.Valid() && alunoId in s.alunos.rows
    ensures s.VerificarPresencaNoDia(alunoId, date).value <==>
      exists p :: p in s.rows.Values && p.alunoId == alunoId && p.dataHora.day == date && p.presente
  {
  }

  /** The window query returns a subset of the student's records. */
  lemma WindowWithinStudentRecords(s: PresencaService, alunoId: int, startDate: int, endDate: int)
    requires alunoId in s.alunos.rows
    ensures forall p :: p in s.BuscarPresencasPorAlunoEPeriodo(alunoId, startDate, endDate).value ==>
      p in s.BuscarPresencasPorAluno(alunoId).value
  {
  }
}
