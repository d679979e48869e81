# Attendance service model

A model of the attendance core of a school attendance system (sistema de
frequência). It covers the five tables of the store and the operations of
`FrequenciaService` that read and change them. The tables are classes
(turmas), subjects (disciplinas), students (alunos, each with one `turma_id`),
the student–subject enrollment relation (aluno_disciplina), class sessions
(sessoes) and attendance records (frequencias).

Layout:

- `domain.dfy` (module `Domain`): the entities, the column defaults and the
  store value `Db`. Each table is a map from its integer key to its row, with
  a key counter per table. The enrollment relation is a set of pairs. The
  store invariant `Valid` holds:
  - well-formed keys;
  - the UNIQUE columns (class name, subject name, subject code, student
    registration number);
  - enrollment pairs that join an existing student and subject;
  - at most one attendance record per (student, session).
- `ordering.dfy` (module `Ordering`): a query without ORDER BY is read as
  rows in key order. `.first()` is the row with the smallest key.
- `queries.dfy` (module `Queries`): the `listar_*` filters, `get_disciplina`,
  the day bucket and the two lookups of the marking path.
- `registry.dfy` (module `Registry`): `criar_turma`, `criar_disciplina`,
  `criar_aluno` with its enrollment loop, and `matricular_aluno_disciplina`.
- `sessions.dfy` (module `Sessions`): `criar_sessao` and the find-or-create
  of the day's session.
- `attendance.dfy` (module `Attendance`): the upsert, the individual path
  with its checks, and the batch path. The batch comes in two versions: as
  written, and corrected (see "Findings").
- `reports.dfy` (module `Reports`): `relatorio_aluno`,
  `relatorio_aluno_disciplina` and `relatorio_turma`.
- `service.dfy` (module `Service`): class `Store`, whose fields are the
  tables. Each method updates them in place, with loops where the service
  loops. Each public operation (`CriarTurma`, `CriarDisciplina`,
  `CriarAluno`, `MatricularAlunoDisciplina`, `CriarSessao`,
  `MarcarFrequenciaIndividual`, `MarcarFrequenciaLote`) is proved to perform
  the transition its functional counterpart defines, and to keep `Valid`.
  `RelatorioTurma` changes nothing and is proved to build
  `Reports.RelatorioTurma`. The helper methods `AtualizarEm`, `Inserir`,
  `GravarFrequencia` and `AbrirSessaoDoDia` are proved to perform
  `Attendance.AtualizarEm`, `Attendance.Inserir`, `Attendance.Upsert` and
  `Sessions.AbrirSessaoDoDia`, requiring only well-formed keys and not
  stating `Valid`. `InserirSessao` has no functional counterpart; it states
  its whole new state.

Modelling decisions:

- Time is an integer count of seconds. The day of a timestamp is
  `ts / 86400`. The two clocks the service reads are a `Clock` parameter:
  - `local` is `datetime.now()`. It timestamps sessions and the update of
    `data_registro`.
  - `utc` is `datetime.utcnow`, the column default that a new record's
    `data_registro` takes.
- A `ValueError` of the individual path and an integrity failure of a
  UNIQUE column become `Err(...)` results. In either case the store is left
  unchanged.
- Enrolling a pair that is already enrolled returns the `{"error": ...}`
  result (`Err(MatriculaNaoRealizada)`), as `matricular_aluno_disciplina`
  does (app/services/frequencia_service.py:63-67); it is not a success.
- The percentage is an exact `real`. `round(..., 2)` is not modelled.
- SQLite does not enforce foreign keys unless told to. So, as in the code,
  a student's `turma_id`, a session's class and subject, and a batch's
  `sessao_id` and `aluno_id` are stored unchecked.
- The batch path is modelled both as written and corrected. As written,
  lookups see the pre-batch store (the session has `autoflush=False`). The
  corrected version, used by `Store`, looks up the current store. The two
  are proved equal when the batch names each student at most once.

## Model

| member | source | states |
|---|---|---|
| `Domain.Vazio` | app/database.py:85 | the store `create_all` creates is empty and satisfies the store invariant |
| `Domain.NomesDeTurmaUnicos` | app/database.py:23 | no two classes share a name |
| `Domain.DisciplinasUnicas` | app/database.py:33-34 | no two subjects share a name, and no two share a code |
| `Domain.MatriculasDeAlunoUnicas` | app/database.py:45 | no two students share a registration number |
| `Domain.MatriculasValidas` | app/database.py:13-18 | every enrollment pair joins an existing student with an existing subject |
| `Domain.FrequenciaUnica` | app/database.py:65-73 | at most one attendance record per (student, session) pair; the table does not declare it, the upsert keeps it |
| `Domain.Valid` | app/database.py:13-73 | the store invariant: well-formed keys and all of the rules above |
| `Queries.NoDiaSeMesmoDia` | app/services/frequencia_service.py:105-110 | the filter `hoje <= data < hoje + 1 day` holds exactly when `data` falls on the same calendar day as now |
| `Queries.ListarTurmas` | app/services/frequencia_service.py:19-21 | lists every class and nothing else, in increasing key order |
| `Queries.ListarDisciplinas` | app/services/frequencia_service.py:31-33 | lists every subject and nothing else, in increasing key order |
| `Queries.GetDisciplina` | app/services/frequencia_service.py:35-37 | finds the subject exactly when its key exists, and returns that subject's row |
| `Queries.ListarAlunosTurma` | app/services/frequencia_service.py:69-71 | lists exactly the students whose `turma_id` is the class, in key order |
| `Queries.ListarAlunosDisciplina` | app/services/frequencia_service.py:73-76 | lists exactly the students enrolled in the subject; the list is empty when the subject does not exist; every student listed exists |
| `Queries.NoDia` | app/services/frequencia_service.py:109-110 | the filter `data >= hoje`, `data < hoje + 1 day`: the half-open day of the local clock |
| `Queries.SessoesDoDia` | app/services/frequencia_service.py:106-111 | the sessions of the class and the subject whose timestamp lies on today |
| `Queries.SessaoDoDia` | app/services/frequencia_service.py:106-111 | finds nothing exactly when no session of that class and subject falls on today; otherwise returns the smallest such key |
| `Ordering.First` | app/services/frequencia_service.py:124-127 | the `.first()` of a query without ORDER BY: nothing exactly when no key lies below the bound, otherwise the smallest such key |
| `Ordering.FirstStable` | app/services/frequencia_service.py:124-127 | the first key does not depend on the key bound once every key lies below it |
| `Ordering.FirstVazio` | app/services/frequencia_service.py:124-127 | when every key lies below the bound, there is no first key exactly when the set is empty |
| `Queries.BuscarFrequencia` | app/services/frequencia_service.py:124-127 | finds nothing exactly when the (student, session) pair has no record; otherwise returns one of its records |
| `Queries.FrequenciaNoMaximoUma` | app/database.py:65-73 | under the uniqueness invariant a pair has at most one record |
| `Registry.CriarTurma` | app/services/frequencia_service.py:11-17 | fails with `Duplicado`, changing nothing, exactly when the name is in use (app/database.py:23); otherwise inserts the class under a fresh key and changes no other table |
| `Registry.CriarTurmaPreserva` | app/database.py:20-28 | creating a class keeps the store invariant |
| `Registry.CriarDisciplina` | app/services/frequencia_service.py:23-29 | fails with `Duplicado`, changing nothing, exactly when the name or the code is in use (app/database.py:33-34); otherwise inserts under a fresh key |
| `Registry.CriarDisciplinaPreserva` | app/database.py:30-39 | creating a subject keeps the store invariant |
| `Registry.MatricularEm` | app/services/frequencia_service.py:50-54 | after the loop, a pair is enrolled exactly when it was before, or it is the student with a listed subject that exists |
| `Registry.MatricularEmPasso` | app/services/frequencia_service.py:51-54 | one more iteration of the enrollment loop adds the pair exactly when the subject exists |
| `Registry.CriarAluno` | app/services/frequencia_service.py:40-56 | fails with `Duplicado`, changing nothing, exactly when the registration number is in use (app/database.py:45); otherwise inserts the student under a fresh key, with its class, and changes only students and enrollments |
| `Registry.CriarAlunoMatricula` | app/services/frequencia_service.py:40-56 | the new student is enrolled in exactly the listed subjects that exist; no other student's enrollments change |
| `Registry.CriarAlunoPreserva` | app/database.py:41-51 | creating a student keeps the store invariant |
| `Registry.MatricularAlunoDisciplina` | app/services/frequencia_service.py:59-67 | succeeds exactly when the student and the subject exist and the pair is not enrolled, and then adds the pair; otherwise returns the error result and changes nothing |
| `Registry.MatricularPreserva` | app/database.py:13-18 | enrollment keeps the store invariant |
| `Registry.MatricularDuasVezes` | app/database.py:13-18 | enrolling a pair twice leaves it enrolled once; the second call returns the error result and changes nothing |
| `Sessions.CriarSessao` | app/services/frequencia_service.py:79-90 | inserts one session under a fresh key, with the given timestamp or else the local clock; no other table changes |
| `Sessions.CriarSessaoPreserva` | app/database.py:53-63 | creating a session keeps the store invariant |
| `Sessions.CriarSessaoNaoDeduplica` | app/services/frequencia_service.py:79-90 | two identical requests create two distinct sessions |
| `Sessions.AbrirSessaoDoDia` | app/services/frequencia_service.py:104-121 | the result is an existing or new session of that class and subject dated today; the store is unchanged when one existed; otherwise exactly one session, dated now, is added |
| `Sessions.AbrirSessaoDoDiaCasos` | app/services/frequencia_service.py:106-121 | the day's session is the first existing one with the store unchanged, or else a new session under the next key, dated now and with no description |
| `Sessions.AbrirSessaoDoDiaEstavel` | app/services/frequencia_service.py:104-121 | a second look on the same day finds the same session and creates none |
| `Sessions.AbrirSessaoDoDiaPreserva` | app/services/frequencia_service.py:113-121 | the find-or-create keeps the store invariant |
| `Attendance.MarcaDe` | app/services/frequencia_service.py:159-161 | a batch entry's missing keys take the defaults presente true, justificado false and observacao none (app/database.py:70-72) |
| `Attendance.AtualizarEm` | app/services/frequencia_service.py:129-134 | the record gets the three new values and `data_registro` = local now, and keeps its student and session; no other record and no other table changes, and no key is added |
| `Attendance.Inserir` | app/services/frequencia_service.py:136-144 | adds exactly one record, under the next key, holding the student, the session, the three values and `data_registro` = UTC now; every earlier record and every other table stays |
| `Attendance.Upsert` | app/services/frequencia_service.py:123-144 | the upsert changes only the attendance table, and loses no record |
| `Attendance.UpsertCasos` | app/services/frequencia_service.py:124-144 | the upsert overwrites the first record of the pair when there is one and inserts one otherwise |
| `Attendance.UpsertAtualiza` | app/services/frequencia_service.py:129-134 | when the pair has a record, that record (the pair's only one) gets the new values and `data_registro` = local now; no key is added |
| `Attendance.InserirPrimeira` | app/services/frequencia_service.py:135-144 | when the pair has no record, one record with the new values and `data_registro` = UTC now is added under a fresh key, and it is the pair's only one |
| `Attendance.UpsertGrava` | app/services/frequencia_service.py:123-146 | after the upsert the pair has exactly one record, it holds the written values, and the store invariant holds |
| `Attendance.AtualizarPreservaOutros` | app/services/frequencia_service.py:129-134 | overwriting one record leaves the record set and the records of every other pair as they were |
| `Attendance.InserirPreservaOutros` | app/services/frequencia_service.py:135-144 | inserting a record leaves the record set and the records of every other pair as they were |
| `Attendance.UpsertPreservaOutros` | app/services/frequencia_service.py:123-146 | the upsert leaves the records of every other pair as they were |
| `Attendance.MarcarFrequenciaIndividual` | app/services/frequencia_service.py:93-147 | fails with "not found" exactly when the student or the subject is missing, with "not enrolled" exactly when both exist but the pair is not enrolled, and succeeds exactly when both exist and the pair is enrolled; on failure nothing is written; classes, subjects, students and enrollments never change |
| `Attendance.MarcarIndividualGrava` | app/services/frequencia_service.py:104-146 | a successful mark uses a session of the student's class and the subject dated today; that pair has exactly one record, holding the request's values; a session is created only when the class had none for the subject that day |
| `Attendance.MarcarIndividualPreserva` | app/services/frequencia_service.py:93-147 | individual marking keeps the store invariant on every path |
| `Attendance.AbrirSoVeSessoes` | app/services/frequencia_service.py:106-111 | the day's session depends only on the session table |
| `Attendance.MarcarMesmoDia` | app/services/frequencia_service.py:104-121 | after a successful mark, a same-day mark by an enrolled student of the same class for the same subject succeeds, reuses that session and creates none |
| `Attendance.MarcarMesmoDiaMesmoAluno` | app/services/frequencia_service.py:123-146 | two same-day marks of one student and subject leave one record for the pair, holding the second write's values, and add no record |
| `Attendance.Lote` | app/services/frequencia_service.py:151-171 | the corrected batch changes only the attendance table and loses no record |
| `Attendance.MarcarFrequenciaLote` | app/services/frequencia_service.py:150-173 | runs the corrected batch (`Attendance.Lote`), not the as-written one: the reported count is the number of entries received, and only the attendance table changes |
| `Attendance.UltimaEntrada` | app/services/frequencia_service.py:151 | the last entry of the batch for a student, found exactly when the batch names the student |
| `Attendance.LotePreservaOutros` | app/services/frequencia_service.py:151-171 | a batch leaves the records of students it does not name, and of other sessions, as they were |
| `Attendance.LoteGrava` | app/services/frequencia_service.py:150-173 | the corrected batch keeps the store invariant; every student it names, checked or not, ends with exactly one record for the session, holding its last entry's values |
| `Attendance.LoteComoEscrito` | app/services/frequencia_service.py:150-173 | the loop as written, read with `autoflush=False` (app/database.py:9), so every lookup sees the pre-batch store: it changes only the attendance table and loses no record |
| `Attendance.LoteComoEscritoDuasInsercoes` | app/services/frequencia_service.py:153-169 | as written, two entries for a student with no record for the session are both inserted, because both look up the pre-batch store |
| `Attendance.LoteComoEscritoDuplica` | app/services/frequencia_service.py:153-171 | as written, two entries for a student without a record for the session leave two records for that pair, breaking uniqueness |
| `Attendance.LoteConcorda` | app/services/frequencia_service.py:150-173 | when the batch names each student at most once, the as-written and the corrected batch agree |
| `Reports.Conta` | app/services/frequencia_service.py:202-204 | a `sum(1 for ...)` count is at most the number of rows |
| `Reports.ContaDisjunta` | app/services/frequencia_service.py:202-204 | presences and justified absences together never exceed the number of rows |
| `Reports.Percentual` | app/services/frequencia_service.py:212 | 0 when there are no rows; otherwise p · total = 100 · presences; between 0 and 100; 100 exactly when every row is a presence |
| `Reports.Resumo` | app/services/frequencia_service.py:201-212 | presences + absences = total; justified absences ≤ absences; the percentage is `Percentual` of the presences over the total, so 0% when the total is 0 |
| `Reports.Filtro` | app/services/frequencia_service.py:202-204 | the keys whose rows meet a filter are a subset of the keys |
| `Reports.DoAluno` | app/services/frequencia_service.py:200 | the records of the student; they are records of the table |
| `Reports.DoAlunoNaDisciplina` | app/services/frequencia_service.py:178-181 | the inner join: the student's records whose session exists and belongs to the subject; a subset of the student's records |
| `Reports.RelatorioAluno` | app/services/frequencia_service.py:199-213 | the report is about the asked student and has no subject |
| `Reports.RelatorioAlunoDisciplina` | app/services/frequencia_service.py:176-196 | the report is about the asked student and subject |
| `Reports.TamanhoVarredura` | app/services/frequencia_service.py:200 | a key-ordered scan yields one row per key of the set below the bound |
| `Reports.ContaSnoc` | app/services/frequencia_service.py:202 | a count grows by one exactly for an added row that meets the filter |
| `Reports.VarreduraPasso` | app/services/frequencia_service.py:200-202 | raising the scan bound by one key adds that key's row to the count when it meets the filter |
| `Reports.FiltroPasso` | app/services/frequencia_service.py:202 | the same step for the filtered key set |
| `Reports.ContaVarreduraPasso` | app/services/frequencia_service.py:200-202 | the count invariant carries from one scan bound to the next |
| `Reports.VarreduraVazia` | app/services/frequencia_service.py:200 | the empty scan counts nothing |
| `Reports.ContaVarredura` | app/services/frequencia_service.py:200-204 | counting the key-ordered rows of a key set by a filter gives the number of keys whose rows meet it |
| `Reports.FiltroParticao` | app/services/frequencia_service.py:201-203 | the present and the absent records split the records |
| `Reports.ContaConsulta` | app/services/frequencia_service.py:200-204 | a count over a query's rows is the size of the filtered key set |
| `Reports.ResumoConta` | app/services/frequencia_service.py:200-204 | a report over a key set counts that set: its size, its present part, its absent part and its absent-and-justified part |
| `Reports.RelatorioAlunoConta` | app/services/frequencia_service.py:199-213 | the total is the number of the student's records; presences, absences and justified absences are the sizes of its present, absent and absent-and-justified parts; the percentage times the total is 100 times the presences, and 0 with no records |
| `Reports.RelatorioAlunoDisciplinaConta` | app/services/frequencia_service.py:176-196 | the same counts and percentage, over only the records whose session exists and belongs to the subject |
| `Reports.DisciplinaDentroDoTotal` | app/services/frequencia_service.py:176-213 | a subject report's total, presences and justified absences never exceed those of the student's overall report |
| `Reports.LinhaDe` | app/services/frequencia_service.py:222-224 | a class-report entry is about that student |
| `Reports.RelatorioTurma` | app/services/frequencia_service.py:216-230 | the class report, one entry per listed student of the class, in that order; what it holds is stated by `Reports.RelatorioTurmaUmPorAluno` |
| `Reports.RelatorioTurmaUmPorAluno` | app/services/frequencia_service.py:216-230 | the class report has one entry per student of the class and no other entry, in increasing key order; each entry is that student's `relatorio_aluno` plus name and registration number |
| `Reports.PrimeiraMarca` | app/services/frequencia_service.py:135-144 | a student's first successful mark adds that student's only record, under the next key, holding the request's presente, justificado and observacao |
| `Reports.UmaFaltaJustificada` | app/services/frequencia_service.py:199-213 | a student whose only record is absent and justified gets 1 session, 0 presences, 1 absence, 1 justified absence, 0% |
| `Reports.PrimeiraFaltaJustificada` | app/services/frequencia_service.py:199-213 | after a student's first mark, absent and justified, the report is 1 session, 0 presences, 1 absence, 1 justified absence, 0% |
| `Reports.DoAlunoInsere` | app/services/frequencia_service.py:135-144 | an insert adds its key to the records of its own student only |
| `Reports.FiltroUnitario` | app/services/frequencia_service.py:202-204 | one record meets a filter or not |
| `Service.Store.constructor` | app/database.py:85 | the new store is empty and valid |
| `Service.Store.CriarTurma` | app/services/frequencia_service.py:11-17 | performs `Registry.CriarTurma` in place and keeps the invariant |
| `Service.Store.CriarDisciplina` | app/services/frequencia_service.py:23-29 | performs `Registry.CriarDisciplina` in place and keeps the invariant |
| `Service.Store.CriarAluno` | app/services/frequencia_service.py:40-56 | performs `Registry.CriarAluno` in place, enrolling in a loop, and keeps the invariant |
| `Service.Store.MatricularAlunoDisciplina` | app/services/frequencia_service.py:59-67 | performs `Registry.MatricularAlunoDisciplina` in place and keeps the invariant |
| `Service.Store.CriarSessao` | app/services/frequencia_service.py:79-90 | performs `Sessions.CriarSessao` in place and keeps the invariant |
| `Service.Store.AtualizarEm` | app/services/frequencia_service.py:129-134 | overwrites one record in place, as `Attendance.AtualizarEm` states |
| `Service.Store.Inserir` | app/services/frequencia_service.py:135-144 | adds one record under the next key, as `Attendance.Inserir` states |
| `Service.Store.GravarFrequencia` | app/services/frequencia_service.py:123-144 | performs `Attendance.Upsert` in place |
| `Service.Store.InserirSessao` | app/services/frequencia_service.py:113-121 | adds the session under the next key and returns that key; nothing else changes |
| `Service.Store.AbrirSessaoDoDia` | app/services/frequencia_service.py:106-121 | performs `Sessions.AbrirSessaoDoDia` in place |
| `Service.Store.MarcarFrequenciaIndividual` | app/services/frequencia_service.py:93-147 | performs `Attendance.MarcarFrequenciaIndividual` in place and keeps the invariant |
| `Service.Store.MarcarFrequenciaLote` | app/services/frequencia_service.py:150-173 | performs the corrected batch in place, one upsert per entry, returns the entry count and keeps the invariant |
| `Service.Store.RelatorioTurma` | app/services/frequencia_service.py:216-230 | the loop builds exactly `Reports.RelatorioTurma` of the current store, whose meaning `Reports.RelatorioTurmaUmPorAluno` states |

## Left out

- `exportar_csv` (app/services/frequencia_service.py:233-253): file writing and CSV formatting are I/O.
- `round(..., 2)` of `percentual_presenca`: the percentage is an exact real.
- Commit, refresh and query mechanics, and `get_db`: each operation is one atomic state change. Check-then-insert races between concurrent requests are not modelled.
- The text of the messages and errors: only which result comes back.
- `relatorio_turma`'s `except` branch: no step of the model can fail, so it never returns `[]` through that branch.
- The separate `datetime.now()` calls of one individual mark: the model reads one local clock per call. So a mark made exactly across midnight is not modelled.
- Sub-second timestamps: time is whole seconds.
- `Registry.MatricularEm`: a subject listed twice in `disciplina_ids` counts once, since the enrollment relation is a set. Whether the ORM would try to insert the pair twice is not modelled.
- Batch entries whose `presente` or `justificado` values are not booleans, and entries without `aluno_id`: entries are typed.
- Foreign-key checks: SQLite does not enforce them by default, and the code stores the references unchecked.
- The routes, the schemas (beyond their defaults), the web client and the demo scripts are not part of this model.

## Findings

| source | as written | input that shows it | evidently intended | confidence | as-written member | corrected member |
|---|---|---|---|---|---|---|
| app/services/frequencia_service.py:150-173 with app/database.py:9 | each entry looks up the existing record with autoflush off, so the lookup does not see rows the same batch added | a batch `[{"aluno_id": a}, {"aluno_id": a}]` for a student with no record for the session inserts two records for (a, sessao_id) | the loop's "does a record exist" check makes each entry upsert, leaving one record per (student, session), with the last entry's values | medium, not executed | `Attendance.LoteComoEscritoDuplica` | `Attendance.LoteGrava` |
