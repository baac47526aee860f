/**
 * Clients of both services, playing through an example scenario: Ana is
 * created with number 7, a second student with number 7 is refused and,
 * once renumbered to 8, gets the next id. A rename to a control character
 * is rejected by validation, even together with the taken number 8. Ana is
 * marked present now, and the day queries see exactly that record.
 */
module Scenarios {
  import opened Outcomes
  import opened AlunosEntity
  import opened Presenca
  import AlunosRepository
  import AlunosService
  import PresencaService
  import Tables

  method StudentExample()
  {
    var store := new AlunosRepository.Store();
    var alunos := new AlunosService.AlunosService(store);

    var ana := new Alunos("Ana", 7);
    assert ana.name[0] > ' ';
    var created := alunos.AddNewAluno(ana);
    assert created == Done && ana.id == Some(1);
    assert alunos.GetAlunoById(1) == Ok(AlunoRow(1, "Ana", 7));

    var other := new Alunos("Bia", 7);
    assert other.name[0] > ' ';
    var refused := alunos.AddNewAluno(other);
    assert refused == Failed(Conflict) && other.id == None;
    assert store.rows == map[1 := AlunoRow(1, "Ana", 7)];
    SecondStudentExample(alunos);
  }

  method SecondStudentExample(alunos: AlunosService.AlunosService)
    requires alunos.repository.Valid() && alunos.repository.nextId == 2
    requires alunos.repository.rows == map[1 := AlunoRow(1, "Ana", 7)]
    modifies alunos.repository
  {
    var bia := new Alunos("Bia", 7);
    bia.SetNumber(8);
    assert bia.name[0] > ' ';
    var second := alunos.AddNewAluno(bia);
    assert second == Done && bia.id == Some(2);
    assert alunos.repository.rows == map[1 := AlunoRow(1, "Ana", 7), 2 := AlunoRow(2, "Bia", 8)];
    RenameExample(alunos);
  }

  method RenameExample(alunos: AlunosService.AlunosService)
    requires alunos.repository.Valid() && 1 in alunos.repository.rows
    modifies alunos.repository
  {
    var before := alunos.repository.rows;
    var control: string := "\U{1}";
    BlankTestsDisagree();
    AlunosService.InvalidOnlyForNameTestsGap(before, 1, Some(control), None);
    var renamed := alunos.UpdateAluno(1, Some(control), None);
    assert renamed == Failed(Invalid);
    assert alunos.repository.rows == before;
    AlunosService.InvalidOnlyForNameTestsGap(before, 1, Some(control), Some(8));
    var renumbered := alunos.UpdateAluno(1, Some(control), Some(8));
    assert renumbered == Failed(Invalid);
    assert alunos.repository.rows == before;
  }

  method AttendanceExample(store: AlunosRepository.Store, now: DateTime)
    requires store.rows == map[1 := AlunoRow(1, "Ana", 7)]
  {
    var presencas := new PresencaService.PresencaService(store);
    var marked := presencas.MarcarPresencaAgora(1, now);
    assert marked == Ok(PresencaRow(1, 1, now, true));
    assert presencas.rows == map[1 := marked.value];
    assert presencas.VerificarPresencaNoDia(2, now.day) == Fail(NotFound);
    WindowExample(presencas, now);
    PresenceCheckExample(presencas, now);
  }

  method WindowExample(presencas: PresencaService.PresencaService, now: DateTime)
    requires presencas.alunos.rows == map[1 := AlunoRow(1, "Ana", 7)]
    requires presencas.rows == map[1 := PresencaRow(1, 1, now, true)]
  {
    var marked := PresencaRow(1, 1, now, true);
    assert presencas.rows.Values == {marked} by {
      Tables.UpdateValues(map[], 1, marked);
    }
    var today := presencas.BuscarPresencasPorAlunoEPeriodo(1, now.day, now.day);
    assert forall p :: p in today.value <==> p == marked;
    var yesterday := presencas.BuscarPresencasPorAlunoEPeriodo(1, now.day - 1, now.day - 1);
    assert forall p :: p !in yesterday.value;
  }

  method PresenceCheckExample(presencas: PresencaService.PresencaService, now: DateTime)
    requires presencas.alunos.rows == map[1 := AlunoRow(1, "Ana", 7)]
    requires presencas.rows == map[1 := PresencaRow(1, 1, now, true)]
  {
    var marked := PresencaRow(1, 1, now, true);
    assert presencas.rows.Values == {marked} by {
      Tables.UpdateValues(map[], 1, marked);
    }
    assert presencas.VerificarPresencaNoDia(1, now.day) == Ok(true);
    assert presencas.VerificarPresencaNoDia(1, now.day - 1) == Ok(false);
  }
}
