/** The entity model of the attendance store: the five tables, the
    aluno_disciplina association table, their key and uniqueness rules and the
    column defaults. */
module Domain {

  /** Integer primary keys and the integer foreign-key columns that refer to them. */
  type Id = int

  datatype Option<T> = None | Some(value: T) {
    function GetOr(default: T): T {
      match this
      case Some(v) => v
      case None => default
    }
  }

  /** The failures the service reports. */
  datatype Erro =
    | NaoEncontrado          // ValueError "Aluno ou disciplina não encontrados"
    | NaoMatriculado         // ValueError "Aluno não está matriculado nesta disciplina"
    | MatriculaNaoRealizada  // the {"error": ...} dict of matricular_aluno_disciplina
    | Duplicado              // a UNIQUE column refuses the row when it is committed

  datatype Result<T> = Ok(value: T) | Err(erro: Erro)

  datatype Turma = Turma(nome: string, ano: int, periodo: string)

  datatype Disciplina = Disciplina(nome: string, codigo: string, cargaHoraria: int, professor: string)

  datatype Aluno = Aluno(nome: string, matricula: string, email: Option<string>, turmaId: Id)

  /** `data` is a timestamp in whole seconds. */
  datatype Sessao = Sessao(data: int, turmaId: Id, disciplinaId: Id, descricao: Option<string>)

  datatype Frequencia = Frequencia(
    alunoId: Id, sessaoId: Id,
    presente: bool, justificado: bool, observacao: Option<string>,
    dataRegistro: int)

  /** Column defaults of Frequencia.presente and Frequencia.justificado
      (observacao defaults to None). */
  const PresentePadrao: bool := true
  const JustificadoPadrao: bool := false

  /** The two clocks the service reads: `datetime.now()` (local time) and
      `datetime.utcnow()` (the column default of the timestamp columns). */
  datatype Clock = Clock(local: int, utc: int)

  /** The whole store. Each table is a map from its primary key to its row;
      `next*` is the key the store hands to the next inserted row. The
      association table aluno_disciplina has the composite primary key
      (aluno_id, disciplina_id), so it is a set of pairs. */
  datatype Db = Db(
    turmas: map<Id, Turma>, nextTurma: nat,
    disciplinas: map<Id, Disciplina>, nextDisciplina: nat,
    alunos: map<Id, Aluno>, nextAluno: nat,
    matriculas: set<(Id, Id)>,
    sessoes: map<Id, Sessao>, nextSessao: nat,
    frequencias: map<Id, Frequencia>, nextFrequencia: nat)

  /** The store as created by `create_all`: every table empty. */
  function Vazio(): (db: Db)
    ensures Valid(db)
    ensures db.turmas == map[] && db.alunos == map[] && db.matriculas == {}
    ensures db.sessoes == map[] && db.frequencias == map[] && db.disciplinas == map[]
  {
    Db(map[], 1, map[], 1, map[], 1, {}, map[], 1, map[], 1)
  }

  /** Keys start at 1, and every key of a table is below the key handed out next. */
  ghost predicate KeysBelow<V>(m: map<Id, V>, next: nat) {
    0 < next && forall k :: k in m ==> 0 < k < next
  }

  /** Well-formed key allocation in every table. */
  ghost predicate Wf(db: Db) {
    && KeysBelow(db.turmas, db.nextTurma)
    && KeysBelow(db.disciplinas, db.nextDisciplina)
    && KeysBelow(db.alunos, db.nextAluno)
    && KeysBelow(db.sessoes, db.nextSessao)
    && KeysBelow(db.frequencias, db.nextFrequencia)
  }

  /** Turma.nome is UNIQUE. */
  ghost predicate NomesDeTurmaUnicos(ts: map<Id, Turma>) {
    forall i, j :: i in ts && j in ts && i != j ==> ts[i].nome != ts[j].nome
  }

  /** Disciplina.nome and Disciplina.codigo are each UNIQUE. */
  ghost predicate DisciplinasUnicas(ds: map<Id, Disciplina>) {
    forall i, j :: i in ds && j in ds && i != j ==>
      ds[i].nome != ds[j].nome && ds[i].codigo != ds[j].codigo
  }

  /** Aluno.matricula is UNIQUE. */
  ghost predicate MatriculasDeAlunoUnicas(as_: map<Id, Aluno>) {
    forall i, j :: i in as_ && j in as_ && i != j ==> as_[i].matricula != as_[j].matricula
  }

  /** Every enrollment row joins an existing student with an existing subject. */
  ghost predicate MatriculasValidas(db: Db) {
    forall p :: p in db.matriculas ==> p.0 in db.alunos && p.1 in db.disciplinas
  }

  /** At most one Frequencia per (aluno_id, sessao_id). The table declares no
      such constraint; the service's upsert is what keeps it. */
  ghost predicate FrequenciaUnica(fs: map<Id, Frequencia>) {
    forall i, j :: i in fs && j in fs && i != j ==>
      fs[i].alunoId != fs[j].alunoId || fs[i].sessaoId != fs[j].sessaoId
  }

  /** The store invariant every service operation preserves. */
  ghost predicate Valid(db: Db) {
    && Wf(db)
    && NomesDeTurmaUnicos(db.turmas)
    && DisciplinasUnicas(db.disciplinas)
    && MatriculasDeAlunoUnicas(db.alunos)
    && MatriculasValidas(db)
    && FrequenciaUnica(db.frequencias)
  }
}
