/** Registration of classes, subjects and students, and the enrollment
    relation between students and subjects. */
module Registry {
  import opened Domain

  /** The fields of a TurmaCreate, DisciplinaCreate or AlunoCreate request.
      `disciplinaIds` defaults to the empty list. */
  datatype NovoAluno = NovoAluno(
    nome: string, matricula: string, email: Option<string>, turmaId: Id,
    disciplinaIds: seq<Id>)

  predicate NomeDeTurmaEmUso(db: Db, nome: string) {
    exists k :: k in db.turmas && db.turmas[k].nome == nome
  }

  predicate DisciplinaEmUso(db: Db, d: Disciplina) {
    exists k :: k in db.disciplinas && (db.disciplinas[k].nome == d.nome || db.disciplinas[k].codigo == d.codigo)
  }

  predicate MatriculaEmUso(db: Db, matricula: string) {
    exists k :: k in db.alunos && db.alunos[k].matricula == matricula
  }

  /** criar_turma: inserts the class under a fresh key; the UNIQUE name column
      refuses a second class with the same name. */
  function CriarTurma(db: Db, t: Turma): (r: (Db, Result<Id>))
    requires Wf(db)
    ensures r.1.Err? <==> NomeDeTurmaEmUso(db, t.nome)
    ensures r.1.Err? ==> r.1.erro == Duplicado && r.0 == db
    ensures r.1.Ok? ==> r.1.value !in db.turmas && r.0.turmas == db.turmas[r.1.value := t]
    ensures r.0 == db.(turmas := r.0.turmas, nextTurma := r.0.nextTurma)
  {
    if NomeDeTurmaEmUso(db, t.nome) then (db, Err(Duplicado))
    else
      (db.(turmas := db.turmas[db.nextTurma := t], nextTurma := db.nextTurma + 1), Ok(db.nextTurma))
  }

  lemma CriarTurmaPreserva(db: Db, t: Turma)
    requires Valid(db)
    ensures Valid(CriarTurma(db, t).0)
  {
  }

  /** criar_disciplina: inserts the subject under a fresh key; the UNIQUE nome
      and codigo columns each refuse a repeated value. */
  function CriarDisciplina(db: Db, d: Disciplina): (r: (Db, Result<Id>))
    requires Wf(db)
    ensures r.1.Err? <==> DisciplinaEmUso(db, d)
    ensures r.1.Err? ==> r.1.erro == Duplicado && r.0 == db
    ensures r.1.Ok? ==> r.1.value !in db.disciplinas && r.0.disciplinas == db.disciplinas[r.1.value := d]
    ensures r.0 == db.(disciplinas := r.0.disciplinas, nextDisciplina := r.0.nextDisciplina)
  {
    if DisciplinaEmUso(db, d) then (db, Err(Duplicado))
    else
      (db.(disciplinas := db.disciplinas[db.nextDisciplina := d], nextDisciplina := db.nextDisciplina + 1),
       Ok(db.nextDisciplina))
  }

  lemma CriarDisciplinaPreserva(db: Db, d: Disciplina)
    requires Valid(db)
    ensures Valid(CriarDisciplina(db, d).0)
  {
  }

  /** The enrollment loop of criar_aluno over a prefix of `ds`: each listed
      subject that exists is appended to the student's subjects; an unknown
      key is skipped. */
  function MatricularEm(db: Db, alunoId: Id, ds: seq<Id>): (r: Db)
    decreases |ds|
    ensures r == db.(matriculas := r.matriculas)
    ensures forall p :: p in r.matriculas <==>
      p in db.matriculas || (p.0 == alunoId && p.1 in ds && p.1 in db.disciplinas)
  {
    if ds == [] then db
    else
      var r0 := MatricularEm(db, alunoId, ds[..|ds| - 1]);
      var d := ds[|ds| - 1];
      assert forall x :: x in ds <==> x in ds[..|ds| - 1] || x == d by {
        assert ds == ds[..|ds| - 1] + [d];
      }
      if d in r0.disciplinas then r0.(matriculas := r0.matriculas + {(alunoId, d)}) else r0
  }

  /** One more listed subject enrolls the student in it when it exists. */
  lemma MatricularEmPasso(db: Db, alunoId: Id, ds: seq<Id>, d: Id)
    ensures var r0 := MatricularEm(db, alunoId, ds);
      MatricularEm(db, alunoId, ds + [d]) ==
        if d in r0.disciplinas then r0.(matriculas := r0.matriculas + {(alunoId, d)}) else r0
  {
    assert (ds + [d])[..|ds|] == ds;
  }

  /** criar_aluno: inserts the student (the UNIQUE matricula column refuses a
      repeated value, and then nothing is stored), then enrolls it in every
      listed subject that exists. */
  function CriarAluno(db: Db, novo: NovoAluno): (r: (Db, Result<Id>))
    requires Wf(db)
    ensures r.1.Err? <==> MatriculaEmUso(db, novo.matricula)
    ensures r.1.Err? ==> r.1.erro == Duplicado && r.0 == db
    ensures r.1.Ok? ==> r.1.value !in db.alunos
    ensures r.1.Ok? ==> r.0.alunos == db.alunos[r.1.value := Aluno(novo.nome, novo.matricula, novo.email, novo.turmaId)]
    ensures r.0 == db.(alunos := r.0.alunos, nextAluno := r.0.nextAluno, matriculas := r.0.matriculas)
  {
    if MatriculaEmUso(db, novo.matricula) then (db, Err(Duplicado))
    else
      var id := db.nextAluno;
      var db1 := db.(alunos := db.alunos[id := Aluno(novo.nome, novo.matricula, novo.email, novo.turmaId)],
                     nextAluno := id + 1);
      (MatricularEm(db1, id, novo.disciplinaIds), Ok(id))
  }

  /** The new student is enrolled in exactly the listed subjects that exist,
      and no other student's enrollments change. */
  lemma CriarAlunoMatricula(db: Db, novo: NovoAluno)
    requires Valid(db)
    requires CriarAluno(db, novo).1.Ok?
    ensures var (db', res) := CriarAluno(db, novo);
      && (forall d :: (res.value, d) in db'.matriculas <==> d in novo.disciplinaIds && d in db.disciplinas)
      && (forall p :: p in db'.matriculas && p.0 != res.value ==> p in db.matriculas)
      && db.matriculas <= db'.matriculas
  {
    var (db', res) := CriarAluno(db, novo);
    forall d ensures (res.value, d) in db'.matriculas <==> d in novo.disciplinaIds && d in db.disciplinas {
      assert (res.value, d) !in db.matriculas;
    }
  }

  lemma CriarAlunoPreserva(db: Db, novo: NovoAluno)
    requires Valid(db)
    ensures Valid(CriarAluno(db, novo).0)
  {
    var (db', res) := CriarAluno(db, novo);
    if res.Ok? {
      assert MatriculasDeAlunoUnicas(db'.alunos);
      assert MatriculasValidas(db');
    }
  }

  /** matricular_aluno_disciplina: adds the pair only when the student and
      the subject exist and the pair is not enrolled yet; otherwise it returns
      the error result and changes nothing. */
  function MatricularAlunoDisciplina(db: Db, alunoId: Id, disciplinaId: Id): (r: (Db, Result<()>))
    ensures r.1.Ok? <==>
      alunoId in db.alunos && disciplinaId in db.disciplinas && (alunoId, disciplinaId) !in db.matriculas
    ensures r.1.Err? ==> r.1.erro == MatriculaNaoRealizada && r.0 == db
    ensures r.1.Ok? ==> r.0.matriculas == db.matriculas + {(alunoId, disciplinaId)}
    ensures r.0 == db.(matriculas := r.0.matriculas)
  {
    if alunoId in db.alunos && disciplinaId in db.disciplinas && (alunoId, disciplinaId) !in db.matriculas then
      (db.(matriculas := db.matriculas + {(alunoId, disciplinaId)}), Ok(()))
    else (db, Err(MatriculaNaoRealizada))
  }

  lemma MatricularPreserva(db: Db, alunoId: Id, disciplinaId: Id)
    requires Valid(db)
    ensures Valid(MatricularAlunoDisciplina(db, alunoId, disciplinaId).0)
  {
  }

  /** Enrolling a pair twice: the pair is enrolled once (the relation is a
      set keyed by the pair), and the second call reports the error result
      and changes nothing. */
  lemma MatricularDuasVezes(db: Db, alunoId: Id, disciplinaId: Id)
    requires alunoId in db.alunos && disciplinaId in db.disciplinas
    ensures var db1 := MatricularAlunoDisciplina(db, alunoId, disciplinaId).0;
      var (db2, res2) := MatricularAlunoDisciplina(db1, alunoId, disciplinaId);
      && (alunoId, disciplinaId) in db2.matriculas
      && res2 == Err(MatriculaNaoRealizada)
      && db2 == db1
  {
  }
}
