# Student and attendance rules, modelled in Dafny

This project models the business-rule layer of a small record-keeping
backend. It has two record stores:

- **Students (`Alunos`).** Each student has a generated id, a non-blank name
  and an enrollment `number`. The number must be unique across the table.
  `AlunosService` lists students (unordered or sorted by name), looks one up
  by id, creates one, deletes one, and applies partial updates to the name
  and/or number.
- **Attendance (`Presenca`).** Each record holds a reference to a student, a
  timestamp (`dataHora`) and a `presente` flag. `PresencaService` marks a
  student present now or at a given instant. It lists one student's records,
  either all of them or those in a range of days. It also checks whether the
  student was present on a given day, lists every record, and deletes a
  record by id.

Layout, one module per source component:

- `Outcomes.dfy`: `Result`/`Outcome` values that replace the exceptions. A
  missing row gives `NotFound`; the HTTP layer answers 404 for it. A taken
  number gives `Conflict`, answered with 409. A bean-validation constraint
  that fails when a transaction flushes gives `Invalid`. No handler maps it,
  and the transaction rolls back.
- `Tables.dfy`: helpers shared by both stores. A table is a `map` from
  generated id to row. The full scan `findAll` lists rows in ascending id
  order, and a derived query filters a scan.
- `Alunos.dfy` (module `AlunosEntity`): the `Alunos` entity as a class with
  its constructor, its setters and its id-based `equals`/`hashCode`, plus the
  persisted row `AlunoRow`. It also defines the two different blankness
  tests the source relies on:
  - `IsBlank` is `String.isBlank`, built on `Character.isWhitespace`. The
    service applies it to a supplied name.
  - `NotBlankConstraint` is the `@NotBlank` constraint, which bean
    validation checks as "the trimmed string is not empty".
  They disagree in both directions (`BlankTestsDisagree`).
- `AlunosRepository.dfy`: the repository's queries as pure functions over the
  table (`existsByNumber`, `findByNumber`, `findAllByOrderByNameAsc`). The
  class `Store` holds the table and its id sequence. Its invariant says that
  every row sits under its own id, that numbers are unique and that names
  meet `@NotBlank`.
- `AlunosService.dfy`: the student rules. The class methods change the store
  in place. The decision `updateAluno` takes is also a pure function,
  `UpdateDecision`, and its properties are proved as lemmas.
- `Presenca.dfy`: the timestamp model. A `LocalDate` is a day number. A
  `LocalDateTime` is a day plus a time of day in nanoseconds, up to
  `LocalTime.MAX`, and is ordered by day first. The module also holds the
  attendance row.
- `PresencaService.dfy`: the attendance store's derived queries (`findByAluno`,
  `findByAlunoAndDataHoraBetween`) and the attendance rules. The
  class holds the attendance table. It reads the shared students `Store`.
- `Scenarios.dfy`: client methods that play through an example scenario:
  - Ana is created with number 7, and a second student with number 7 is
    refused. With number 8 that student gets id 2.
  - Renaming Ana to the control character U+0001 fails validation and
    changes nothing. It also fails validation, not with CONFLICT, when it
    comes with number 8, which the second student holds.
  - Ana is then marked present, and the queries for today and yesterday give
    the expected answers.

The central fact about the date-range query is `BetweenDaysIffDayInRange`.
An instant lies between `startDate.atStartOfDay()` and
`endDate.atTime(LocalTime.MAX)` exactly when its day lies in
`[startDate, endDate]`.

`PresencaRepository.java` declares queries on a `dataChamada` property that
`Presenca` does not have. It also lacks `findByAluno` and
`findByAlunoAndDataHoraBetween`, which `PresencaService` calls. The model
gives the attendance store the meaning those call names have in Spring Data
instead, with `Between` inclusive at both ends. `PresencaRepository.java` as
written is not part of this model.

`PresencaService` also calls `new Presenca(aluno, dataHora, true)`
(`PresencaService.java:49,67`), but Lombok generates only a no-argument
constructor and a four-argument one, `(id, aluno, dataHora, presente)`. The model reads
the call as "id unset, then the student, `dataHora` and `presente`".

## Model

| member | source | states |
|---|---|---|
| AlunosEntity.IsWhitespace | src/main/java/org/vitor/appdistribuido/Alunos/AlunosService.java:62 | `Character.isWhitespace`, used by `isBlank`: the Unicode space, line and paragraph separators except the no-break spaces U+00A0, U+2007 and U+202F, plus U+0009..U+000D and U+001C..U+001F; space, tab and newline count, other characters below U+0009 do not |
| AlunosEntity.IsBlank | src/main/java/org/vitor/appdistribuido/Alunos/AlunosService.java:62 | `String.isBlank`, the test `updateAluno` applies to a supplied name: empty or only `isWhitespace` characters; a string holding a character below U+0009 is never blank. This is not the `@NotBlank` test |
| AlunosEntity.Trim | src/main/java/org/vitor/appdistribuido/Alunos/Alunos.java:28 | `String.trim`, which the `@NotBlank` validator applies: leading and trailing characters at or below U+0020 go, the result starts and ends above U+0020, and it is empty exactly when every character is at or below U+0020 |
| AlunosEntity.NotBlankConstraint | src/main/java/org/vitor/appdistribuido/Alunos/Alunos.java:28 | the `@NotBlank` constraint on `name`: the trimmed name is not empty, which holds iff some character lies above U+0020 |
| AlunosEntity.BlankTestsDisagree | src/main/java/org/vitor/appdistribuido/Alunos/AlunosService.java:62 | the two blankness tests disagree both ways: U+3000 alone is `isBlank` but passes `@NotBlank`; U+0001 alone is not `isBlank` but fails `@NotBlank` |
| AlunosEntity.Alunos.constructor | src/main/java/org/vitor/appdistribuido/Alunos/Alunos.java:35-38 | `new Alunos(name, number)` sets those two fields and leaves the id unset |
| AlunosEntity.Alunos.SetName | src/main/java/org/vitor/appdistribuido/Alunos/Alunos.java:14 | the generated setter replaces the name and leaves id and number as they were |
| AlunosEntity.Alunos.SetNumber | src/main/java/org/vitor/appdistribuido/Alunos/Alunos.java:14 | the generated setter replaces the number and leaves id and name as they were |
| AlunosEntity.Alunos.Equals | src/main/java/org/vitor/appdistribuido/Alunos/Alunos.java:42-47 | `equals`: true for the same reference; false for anything that is not an `Alunos`, null included; otherwise decided by a non-null id equal to the other's |
| AlunosEntity.Alunos.HashCode | src/main/java/org/vitor/appdistribuido/Alunos/Alunos.java:49-51 | `hashCode`: the class's hash, the same for every instance whatever its fields |
| AlunosEntity.EqualsDistinctById | src/main/java/org/vitor/appdistribuido/Alunos/Alunos.java:46 | two distinct instances are equal iff this one's id is non-null and both ids agree; name and number are ignored |
| AlunosEntity.UnsavedEqualsOnlyItself | src/main/java/org/vitor/appdistribuido/Alunos/Alunos.java:43-46 | an instance with no id equals only itself |
| AlunosEntity.EqualsIsEquivalence | src/main/java/org/vitor/appdistribuido/Alunos/Alunos.java:42-47 | among `Alunos` instances, `equals` is symmetric and transitive |
| AlunosEntity.HashCodeAgreesWithEquals | src/main/java/org/vitor/appdistribuido/Alunos/Alunos.java:49-51 | equal instances have equal hash codes, because every instance hashes to the class's hash |
| AlunosRepository.PutKeepsConstraints | src/main/java/org/vitor/appdistribuido/Alunos/Alunos.java:27-33 | writing a row whose name meets `@NotBlank` and whose number no other row holds keeps the unique index and the `@NotBlank` constraint on every row |
| AlunosRepository.Store.constructor | src/main/java/org/vitor/appdistribuido/Alunos/Alunos.java:20-25 | an empty table whose id sequence starts at 1, satisfying the table invariant |
| Tables.FindAll | src/main/java/org/vitor/appdistribuido/Alunos/AlunosService.java:21-23 | `findAll` lists every stored row and nothing else, as many entries as rows, in strictly increasing id order when rows sit under their ids (so each row once); both stores use it |
| AlunosRepository.ExistsByNumber | src/main/java/org/vitor/appdistribuido/Alunos/AlunosRepository.java:14 | true iff some stored student has that number |
| AlunosRepository.FindByNumber | src/main/java/org/vitor/appdistribuido/Alunos/AlunosRepository.java:12 | present iff the number is in use; then it is a stored student with that number, and under the unique index it is every student holding that number |
| AlunosRepository.NameLeTotal | src/main/java/org/vitor/appdistribuido/Alunos/AlunosRepository.java:16 | any two names are comparable in the name order |
| AlunosRepository.NameLeTransitive | src/main/java/org/vitor/appdistribuido/Alunos/AlunosRepository.java:16 | the name order is transitive |
| AlunosRepository.InsertByName | src/main/java/org/vitor/appdistribuido/Alunos/AlunosRepository.java:16 | inserting into a name-sorted list keeps it sorted and adds exactly that row |
| AlunosRepository.SortByName | src/main/java/org/vitor/appdistribuido/Alunos/AlunosRepository.java:16 | the result is sorted by name and a permutation of the input |
| AlunosRepository.FindAllByOrderByNameAsc | src/main/java/org/vitor/appdistribuido/Alunos/AlunosRepository.java:16 | names never decrease along the result, which is a permutation of `findAll`: every stored student exactly once |
| AlunosService.MergedName | src/main/java/org/vitor/appdistribuido/Alunos/AlunosService.java:62-64 | a supplied non-blank name is the name afterwards; a missing or blank one leaves the current name (the unchanged-name check makes no difference) |
| AlunosService.MergedNameNotBlank | src/main/java/org/vitor/appdistribuido/Alunos/AlunosService.java:62-64 | with a current name that meets `@NotBlank`, the merged name fails `@NotBlank` exactly when a supplied name passes `isBlank` but fails `@NotBlank` |
| AlunosService.UpdateDecision | src/main/java/org/vitor/appdistribuido/Alunos/AlunosService.java:59-72 | NOT_FOUND iff the id is unknown. A rename to a name failing `@NotBlank` is always `Invalid`, because the automatic flush before `existsByNumber`, or the one at commit, validates the dirty entity first. Otherwise CONFLICT iff a number is supplied that differs from the current one and is in use. `Invalid` iff no CONFLICT, the entity changes and its merged name fails `@NotBlank`. Otherwise the row to write back, with the same id, the merged name and the supplied or current number |
| AlunosService.UpdateKeepsId | src/main/java/org/vitor/appdistribuido/Alunos/AlunosService.java:59-73 | a successful update keeps the student's id |
| AlunosService.SameNumberNeverConflicts | src/main/java/org/vitor/appdistribuido/Alunos/AlunosService.java:66 | supplying the student's current number never gives CONFLICT, and supplying only that number succeeds and leaves the row as it was |
| AlunosService.ConflictHasOtherHolder | src/main/java/org/vitor/appdistribuido/Alunos/AlunosService.java:66-70 | a CONFLICT means a different student holds the requested number |
| AlunosService.InvalidOnlyForNameTestsGap | src/main/java/org/vitor/appdistribuido/Alunos/AlunosService.java:62-67 | on a table whose names meet `@NotBlank`, an update of a known student fails validation exactly when the supplied name passes `isBlank` but fails `@NotBlank`, whatever number is supplied, a taken one included |
| AlunosService.UpdateKeepsConstraints | src/main/java/org/vitor/appdistribuido/Alunos/AlunosService.java:59-73 | writing back the row of a successful update keeps rows under their ids, numbers unique and names meeting `@NotBlank` |
| AlunosService.AlunosService.constructor | src/main/java/org/vitor/appdistribuido/Alunos/AlunosService.java:15-18 | the service works on the repository it is given |
| AlunosService.AlunosService.GetAlunos | src/main/java/org/vitor/appdistribuido/Alunos/AlunosService.java:21-23 | exactly the stored students, one entry per row |
| AlunosService.AlunosService.GetAlunosSortedByName | src/main/java/org/vitor/appdistribuido/Alunos/AlunosService.java:25-27 | sorted by name and a permutation of `getAlunos` |
| AlunosService.AlunosService.GetAlunoById | src/main/java/org/vitor/appdistribuido/Alunos/AlunosService.java:29-33 | the stored student for a known id, NOT_FOUND otherwise |
| AlunosService.AlunosService.AddNewAluno | src/main/java/org/vitor/appdistribuido/Alunos/AlunosService.java:36-44 | for an entity meeting `@NotBlank`, as the controller's `@Valid` ensures: CONFLICT iff the number is in use, and then the table, the sequence and the entity are untouched; otherwise exactly one new row under the next id, with the entity's name and number, the id written back into the entity, the sequence advanced by one, other rows unchanged and the table invariant kept |
| AlunosService.AlunosService.DeleteAluno | src/main/java/org/vitor/appdistribuido/Alunos/AlunosService.java:47-55 | NOT_FOUND iff the id is unknown, leaving the table as it was; otherwise exactly that row is removed |
| AlunosService.AlunosService.UpdateAluno | src/main/java/org/vitor/appdistribuido/Alunos/AlunosService.java:58-73 | fails exactly as `UpdateDecision` fails (NOT_FOUND, `Invalid` for a bad rename before any CONFLICT, then CONFLICT, then `Invalid` at commit) and then leaves the table as it was, because the transaction rolls back, name included; otherwise only the student's row changes, to the decided row; the table invariant is kept |
| Presenca.NotAfter | src/main/java/org/vitor/appdistribuido/Presenca/PresencaService.java:100-103 | `!a.isAfter(b)` on `LocalDateTime`: an earlier day, or the same day and no later time of day |
| Presenca.Between | src/main/java/org/vitor/appdistribuido/Presenca/PresencaService.java:103 | Spring Data's `Between` on `dataHora`, inclusive at both ends; nothing lies between `from` and `to` when `from` comes after `to` |
| Presenca.BetweenIsInclusive | src/main/java/org/vitor/appdistribuido/Presenca/PresencaService.java:103 | both ends of a non-empty window lie in it |
| Presenca.AtStartOfDay | src/main/java/org/vitor/appdistribuido/Presenca/PresencaService.java:100 | an instant on that day that no instant of the day precedes |
| Presenca.AtEndOfDay | src/main/java/org/vitor/appdistribuido/Presenca/PresencaService.java:101 | an instant on that day that no instant of the day follows |
| Presenca.NotAfterIsTotalOrder | src/main/java/org/vitor/appdistribuido/Presenca/Presenca.java:29 | `NotAfter`, the negation of `isAfter` on `LocalDateTime`, compares the day first and then the time; it is reflexive, total, antisymmetric and transitive |
| Presenca.BetweenDaysIffDayInRange | src/main/java/org/vitor/appdistribuido/Presenca/PresencaService.java:100-103 | an instant lies between the start of `startDate` and the end of `endDate` iff its day lies in `[startDate, endDate]` |
| PresencaService.FindByAluno | src/main/java/org/vitor/appdistribuido/Presenca/PresencaService.java:82 | exactly the records of that student, each as often as in `findAll` |
| PresencaService.FindByAlunoAndDataHoraBetween | src/main/java/org/vitor/appdistribuido/Presenca/PresencaService.java:103 | exactly that student's records timed within the inclusive window, each as often as in `findAll` |
| PresencaService.InsertExtendsWindow | src/main/java/org/vitor/appdistribuido/Presenca/PresencaService.java:61-69 | storing a record under a fresh id keeps every earlier answer of a window query and adds the new record iff it is that student's and falls in the window |
| PresencaService.PresencaService.constructor | src/main/java/org/vitor/appdistribuido/Presenca/PresencaService.java:30-34 | an empty attendance table over the given students table |
| PresencaService.PresencaService.MarcarPresenca | src/main/java/org/vitor/appdistribuido/Presenca/PresencaService.java:61-69 | not found iff the student is unknown, creating nothing; otherwise exactly one new record under the next id, with that student, `dataHora` and `presente = true`; the identity counter advances by one, and the student is then present on that day |
| PresencaService.PresencaService.MarcarPresencaAgora | src/main/java/org/vitor/appdistribuido/Presenca/PresencaService.java:43-51 | not found iff the student is unknown, creating nothing; otherwise one new record under the next id, with that student, the clock reading passed in as `dataHora` and `presente = true`; the identity counter advances by one, and the student is then present on the clock's day |
| PresencaService.PresencaService.BuscarPresencasPorAluno | src/main/java/org/vitor/appdistribuido/Presenca/PresencaService.java:78-83 | not found iff the student is unknown; otherwise exactly the stored records of that student |
| PresencaService.PresencaService.BuscarPresencasPorAlunoEPeriodo | src/main/java/org/vitor/appdistribuido/Presenca/PresencaService.java:94-104 | not found iff the student is unknown; otherwise exactly that student's records whose day lies in `[startDate, endDate]`, and nothing when `startDate > endDate` |
| PresencaService.PresencaService.VerificarPresencaNoDia | src/main/java/org/vitor/appdistribuido/Presenca/PresencaService.java:115-127 | not found iff the student is unknown; otherwise true iff the student has a record on that day, whatever its `presente` flag |
| PresencaService.PresencaService.BuscarTodasPresencas | src/main/java/org/vitor/appdistribuido/Presenca/PresencaService.java:134-136 | every stored record and nothing else, one entry per row |
| PresencaService.PresencaService.DeletarPresenca | src/main/java/org/vitor/appdistribuido/Presenca/PresencaService.java:144-149 | not found iff the record id is unknown, leaving the table as it was; otherwise exactly that record is removed |
| PresencaService.PresenceIsOneDayWindow | src/main/java/org/vitor/appdistribuido/Presenca/PresencaService.java:115-127 | the day check equals non-emptiness of the range query with `startDate = endDate = date` |
| PresencaService.PresenceCheckMeansPresent | src/main/java/org/vitor/appdistribuido/Presenca/PresencaService.java:106-127 | every stored record says present, so the day check agrees with "some record of that day has `presente = true`" |
| PresencaService.WindowWithinStudentRecords | src/main/java/org/vitor/appdistribuido/Presenca/PresencaService.java:94-104 | the range query returns only records that the per-student query returns |

## Left out

- HTTP wiring (`AlunosController.java`, `PresencaController.java`) is not modelled, and neither are request binding and ISO date parsing. The one thing kept from it is that not-found answers 404 and a taken number answers 409. The 400 answer for an unparseable timestamp is left out with the parsing.
- The browser script (`script.js`) is not part of this model: it is user-interface and network code.
- Both stores are sequential in-memory tables. Database behaviour is not modelled: the unique index acting as the final arbiter under concurrent creates, the check-then-act race between `existsByNumber` and `save`, and foreign-key enforcement when a student with attendance records is deleted. In the model, deleting a student leaves its attendance records in place.
- Ids come from a counter that starts at 1 and grows by one per insert. This stands for `alunos_sequence` and for the attendance table's identity column.
- AlunosService.AlunosService.AddNewAluno: always inserts under a fresh id. A caller-supplied id, which would turn JPA `save` into a merge, is not modelled. The method requires a name meeting `@NotBlank`, which the controller's `@Valid` (`AlunosController.java:38`) enforces before the service runs. A direct caller with an invalid name, which validation would reject at flush, is not modelled.
- `updateAluno` changes the managed entity through `setName`/`setNumber`, and Hibernate flushes it before the `existsByNumber` query on the same table when a new number is supplied, and otherwise at commit. The model writes the entity's new state straight back as the student's row, so `Alunos.SetName`/`SetNumber` model the setters but the service does not call them.
- Null arguments (a null id, name, number or `dataHora`) are not modelled. Optional update parameters are `Option` values instead.
- The clock (`LocalDateTime.now()`) is a parameter of `MarcarPresencaAgora`. Logging (`log.info`) is left out.
- Calendar arithmetic is not modelled: days are plain integers and times of day are nanoseconds. Time zones and the timestamp precision of the database column are also left out; comparisons use the full nanosecond precision of `LocalDateTime`.
- Name order is character by character, with a proper prefix first. The database collation that `ORDER BY name ASC` really uses is not modelled, and neither is the order of rows with equal names.
- `findAll` and the derived attendance queries return rows in ascending id order. The source leaves that order unspecified.
- Hibernate proxy unwrapping in `Alunos.equals` is not modelled: the argument is taken as already unwrapped. `Presenca`'s generated `equals`/`hashCode`/`toString` are not modelled either.
- `ClassHash` stands for `getClass().hashCode()`. Its actual value, the identity hash of the class object, is not modelled; only the fact that every instance shares it is.
