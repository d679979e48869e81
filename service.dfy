/** FrequenciaService over a mutable store: each table is a field the
    service's methods update in place, and each method is proved to perform
    the transition that the functional model of its operation defines. */
module Service {
  import opened Domain
  import opened Queries
  import Registry
  import Sessions
  import Attendance
  import Reports

  class Store {
    var turmas: map<Id, Turma>
    var nextTurma: nat
    var disciplinas: map<Id, Disciplina>
    var nextDisciplina: nat
    var alunos: map<Id, Aluno>
    var nextAluno: nat
    var matriculas: set<(Id, Id)>
    var sessoes: map<Id, Sessao>
    var nextSessao: nat
    var frequencias: map<Id, Frequencia>
    var nextFrequencia: nat

    /** The tables as a value of the functional model. */
    function State(): Db
      reads this
    {
      Db(turmas, nextTurma, disciplinas, nextDisciplina, alunos, nextAluno, matriculas,
         sessoes, nextSessao, frequencias, nextFrequencia)
    }

    ghost predicate Valid()
      reads this
    {
      Domain.Valid(State())
    }

    /** The empty store of `create_all`. */
    constructor()
      ensures State() == Vazio()
      ensures Valid()
    {
      turmas, nextTurma := map[], 1;
      disciplinas, nextDisciplina := map[], 1;
      alunos, nextAluno := map[], 1;
      matriculas := {};
      sessoes, nextSessao := map[], 1;
      frequencias, nextFrequencia := map[], 1;
    }

    method CriarTurma(t: Turma) returns (r: Result<Id>)
      requires Valid()
      modifies this
      ensures (State(), r) == Registry.CriarTurma(old(State()), t)
      ensures Valid()
    {
      Registry.CriarTurmaPreserva(State(), t);
      if Registry.NomeDeTurmaEmUso(State(), t.nome) {
        r := Err(Duplicado);
      } else {
        r := Ok(nextTurma);
        turmas := turmas[nextTurma := t];
        nextTurma := nextTurma + 1;
      }
    }

    method CriarDisciplina(d: Disciplina) returns (r: Result<Id>)
      requires Valid()
      modifies this
      ensures (State(), r) == Registry.CriarDisciplina(old(State()), d)
      ensures Valid()
    {
      Registry.CriarDisciplinaPreserva(State(), d);
      if Registry.DisciplinaEmUso(State(), d) {
        r := Err(Duplicado);
      } else {
        r := Ok(nextDisciplina);
        disciplinas := disciplinas[nextDisciplina := d];
        nextDisciplina := nextDisciplina + 1;
      }
    }

    /** criar_aluno: the insert, then the loop that enrolls the student in
        each listed subject found. */
    method CriarAluno(novo: Registry.NovoAluno) returns (r: Result<Id>)
      requires Valid()
      modifies this
      ensures (State(), r) == Registry.CriarAluno(old(State()), novo)
      ensures Valid()
    {
      Registry.CriarAlunoPreserva(State(), novo);
      if Registry.MatriculaEmUso(State(), novo.matricula) {
        r := Err(Duplicado);
        return;
      }
      var id := nextAluno;
      alunos := alunos[id := Aluno(novo.nome, novo.matricula, novo.email, novo.turmaId)];
      nextAluno := id + 1;
      r := Ok(id);
      ghost var base := State();
      var ds := novo.disciplinaIds;
      for i := 0 to |ds|
        invariant State() == Registry.MatricularEm(base, id, ds[..i])
      {
        assert ds[..i + 1] == ds[..i] + [ds[i]];
        Registry.MatricularEmPasso(base, id, ds[..i], ds[i]);
        if ds[i] in disciplinas {
          matriculas := matriculas + {(id, ds[i])};
        }
      }
      assert ds[..|ds|] == ds;
    }

    method MatricularAlunoDisciplina(alunoId: Id, disciplinaId: Id) returns (r: Result<()>)
      requires Valid()
      modifies this
      ensures (State(), r) == Registry.MatricularAlunoDisciplina(old(State()), alunoId, disciplinaId)
      ensures Valid()
    {
      Registry.MatricularPreserva(State(), alunoId, disciplinaId);
      if alunoId in alunos && disciplinaId in disciplinas && (alunoId, disciplinaId) !in matriculas {
        matriculas := matriculas + {(alunoId, disciplinaId)};
        r := Ok(());
      } else {
        r := Err(MatriculaNaoRealizada);
      }
    }

    method CriarSessao(s: Sessions.NovaSessao, clock: Clock) returns (id: Id)
      requires Valid()
      modifies this
      ensures (State(), id) == Sessions.CriarSessao(old(State()), s, clock)
      ensures Valid()
    {
      Sessions.CriarSessaoPreserva(State(), s, clock);
      id := InserirSessao(Sessao(s.data.GetOr(clock.local), s.turmaId, s.disciplinaId, s.descricao));
    }

    /** The in-place overwrite of an existing attendance record. */
    method AtualizarEm(k: Id, m: Attendance.Marca, clock: Clock)
      requires k in frequencias
      modifies this
      ensures State() == Attendance.AtualizarEm(old(State()), k, m, clock)
    {
      var f := frequencias[k];
      frequencias := frequencias[k := f.(presente := m.presente, justificado := m.justificado,
                                         observacao := m.observacao, dataRegistro := clock.local)];
    }

    /** The insert of a new attendance record under the next key. */
    method Inserir(alunoId: Id, sessaoId: Id, m: Attendance.Marca, clock: Clock)
      requires Wf(State())
      modifies this
      ensures State() == Attendance.Inserir(old(State()), alunoId, sessaoId, m, clock)
    {
      var id := nextFrequencia;
      frequencias := frequencias[id := Frequencia(alunoId, sessaoId, m.presente, m.justificado, m.observacao, clock.utc)];
      nextFrequencia := id + 1;
    }

    /** The create-or-update of the record of a (student, session) pair. */
    method GravarFrequencia(alunoId: Id, sessaoId: Id, m: Attendance.Marca, clock: Clock)
      requires Wf(State())
      modifies this
      ensures State() == Attendance.Upsert(old(State()), alunoId, sessaoId, m, clock)
    {
      Attendance.UpsertCasos(State(), alunoId, sessaoId, m, clock);
      var k := BuscarFrequencia(State(), alunoId, sessaoId);
      if k.Some? {
        AtualizarEm(k.value, m, clock);
      } else {
        Inserir(alunoId, sessaoId, m, clock);
      }
    }

    /** The insert of a new session under the next key. */
    method InserirSessao(nova: Sessao) returns (id: Id)
      modifies this
      ensures id == old(nextSessao)
      ensures State() == old(State()).(sessoes := old(sessoes)[id := nova], nextSessao := id + 1)
    {
      id := nextSessao;
      sessoes := sessoes[id := nova];
      nextSessao := id + 1;
    }

    /** The find-or-create of today's session for a class and a subject. */
    method AbrirSessaoDoDia(turmaId: Id, disciplinaId: Id, clock: Clock) returns (sessaoId: Id)
      requires Wf(State())
      modifies this
      ensures (State(), sessaoId) == Sessions.AbrirSessaoDoDia(old(State()), turmaId, disciplinaId, clock)
    {
      Sessions.AbrirSessaoDoDiaCasos(State(), turmaId, disciplinaId, clock);
      var hoje := SessaoDoDia(State(), turmaId, disciplinaId, clock.local);
      if hoje.Some? {
        sessaoId := hoje.value;
      } else {
        sessaoId := InserirSessao(Sessao(clock.local, turmaId, disciplinaId, None));
      }
    }

    method MarcarFrequenciaIndividual(f: Attendance.FrequenciaIndividual, clock: Clock) returns (r: Result<()>)
      requires Valid()
      modifies this
      ensures (State(), r) == Attendance.MarcarFrequenciaIndividual(old(State()), f, clock)
      ensures Valid()
    {
      if f.alunoId !in alunos || f.disciplinaId !in disciplinas {
        return Err(NaoEncontrado);
      }
      if (f.alunoId, f.disciplinaId) !in matriculas {
        return Err(NaoMatriculado);
      }
      Attendance.MarcarIndividualPreserva(State(), f, clock);
      var sessaoId := AbrirSessaoDoDia(alunos[f.alunoId].turmaId, f.disciplinaId, clock);
      GravarFrequencia(f.alunoId, sessaoId, Attendance.Marca(f.presente, f.justificado, f.observacao), clock);
      r := Ok(());
    }

    /** marcar_frequencia_lote: the loop over the entries, each upserted
        against the store as it stands. */
    method MarcarFrequenciaLote(sessaoId: Id, es: seq<Attendance.Entrada>, clock: Clock) returns (n: nat)
      requires Valid()
      modifies this
      ensures (State(), n) == Attendance.MarcarFrequenciaLote(old(State()), sessaoId, es, clock)
      ensures Valid()
    {
      Attendance.LoteGrava(State(), sessaoId, es, clock);
      for i := 0 to |es|
        invariant Wf(State())
        invariant State() == Attendance.Lote(old(State()), sessaoId, es[..i], clock)
      {
        assert es[..i + 1][..i] == es[..i];
        GravarFrequencia(es[i].alunoId, sessaoId, Attendance.MarcaDe(es[i]), clock);
      }
      assert es[..|es|] == es;
      n := |es|;
    }

    /** relatorio_turma: the loop that appends each student's report with
        its name and registration number. */
    method RelatorioTurma(turmaId: Id) returns (r: seq<Reports.LinhaTurma>)
      requires Valid()
      ensures r == Reports.RelatorioTurma(State(), turmaId)
    {
      var ids := ListarAlunosTurma(State(), turmaId);
      r := [];
      for i := 0 to |ids|
        invariant |r| == i
        invariant forall j :: 0 <= j < i ==> r[j] == Reports.LinhaDe(State(), ids[j])
      {
        var a := ids[i];
        r := r + [Reports.LinhaTurma(Reports.RelatorioAluno(State(), a), alunos[a].nome, alunos[a].matricula)];
      }
    }
  }
}
