/** The attendance reports: per student, per student and subject, and per
    class. Each report is a count over the rows a query returns. */
module Reports {
  import opened Domain
  import opened Ordering
  import opened Queries
  import Sessions
  import Attendance

  /** The report of relatorio_aluno (`disciplinaId == None`) or of
      relatorio_aluno_disciplina. The percentage is kept exact; the source
      rounds it to two decimals. */
  datatype Relatorio = Relatorio(
    alunoId: Id, disciplinaId: Option<Id>,
    totalSessoes: nat, presencas: nat, faltas: nat, faltasJustificadas: nat,
    percentualPresenca: real)

  /** The row filters of the `sum(1 for f in frequencias if ...)` counts, and
      the absences that `faltas = total - presencas` counts. */
  datatype Criterio = Presente | Ausente | FaltaJustificada

  predicate Satisfaz(f: Frequencia, c: Criterio) {
    match c
    case Presente => f.presente
    case Ausente => !f.presente
    case FaltaJustificada => !f.presente && f.justificado
  }

  /** The number of rows that meet the filter. */
  function Conta(rs: seq<Frequencia>, c: Criterio): (n: nat)
    decreases |rs|
    ensures n <= |rs|
  {
    if rs == [] then 0
    else Conta(rs[..|rs| - 1], c) + (if Satisfaz(rs[|rs| - 1], c) then 1 else 0)
  }

  /** A row is never both present and an absence, so the two counts together
      never exceed the number of rows. */
  lemma {:induction false} ContaDisjunta(rs: seq<Frequencia>)
    decreases |rs|
    ensures Conta(rs, Presente) + Conta(rs, FaltaJustificada) <= |rs|
  {
    if rs != [] {
      ContaDisjunta(rs[..|rs| - 1]);
    }
  }

  /** `presencas / total * 100`, or 0 when there are no rows. */
  function Percentual(presencas: nat, total: nat): (p: real)
    requires presencas <= total
    ensures total == 0 ==> p == 0.0
    ensures total > 0 ==> p * (total as real) == 100.0 * (presencas as real)
    ensures 0.0 <= p <= 100.0
    ensures p == 100.0 <==> total > 0 && presencas == total
  {
    if total > 0 then
      var q := (presencas as real) / (total as real);
      assert q * (total as real) == presencas as real;
      assert q <= 1.0;
      q * 100.0
    else 0.0
  }

  /** The counts of one report over the rows its query returned. */
  function Resumo(alunoId: Id, disciplinaId: Option<Id>, rs: seq<Frequencia>): (r: Relatorio)
    ensures r.alunoId == alunoId && r.disciplinaId == disciplinaId
    ensures r.totalSessoes == |rs|
    ensures r.presencas + r.faltas == r.totalSessoes
    ensures r.faltasJustificadas <= r.faltas
    ensures r.totalSessoes == 0 ==> r.percentualPresenca == 0.0
    ensures 0.0 <= r.percentualPresenca <= 100.0
    ensures r.percentualPresenca == Percentual(r.presencas, r.totalSessoes)
  {
    var presencas := Conta(rs, Presente);
    ContaDisjunta(rs);
    Relatorio(alunoId, disciplinaId, |rs|, presencas, |rs| - presencas, Conta(rs, FaltaJustificada),
              Percentual(presencas, |rs|))
  }

  /** The keys of the records of a student. */
  function DoAluno(db: Db, alunoId: Id): (r: set<Id>)
    ensures r <= db.frequencias.Keys
  {
    set k | k in db.frequencias && db.frequencias[k].alunoId == alunoId
  }

  /** The keys of the records of a student whose session exists and belongs
      to the subject (the inner join with the session table). */
  function DoAlunoNaDisciplina(db: Db, alunoId: Id, disciplinaId: Id): (r: set<Id>)
    ensures r <= DoAluno(db, alunoId)
    ensures forall k :: k in r ==> db.frequencias[k].sessaoId in db.sessoes
  {
    set k | k in db.frequencias && db.frequencias[k].alunoId == alunoId
                                && db.frequencias[k].sessaoId in db.sessoes
                                && db.sessoes[db.frequencias[k].sessaoId].disciplinaId == disciplinaId
  }

  /** The keys of `ks` whose rows meet the filter. */
  function Filtro(fs: map<Id, Frequencia>, ks: set<Id>, c: Criterio): (r: set<Id>)
    requires ks <= fs.Keys
    ensures r <= ks
  {
    set k | k in ks && Satisfaz(fs[k], c)
  }

  /** The rows of the keys of `ks` below `n`, in key order. */
  function Varredura(fs: map<Id, Frequencia>, ks: set<Id>, n: nat): (rs: seq<Frequencia>)
    requires ks <= fs.Keys
    decreases n
  {
    if n == 0 then []
    else Varredura(fs, ks, n - 1) + (if n - 1 in ks then [fs[n - 1]] else [])
  }

  /** The rows a query over the key set `ks` returns, in key order. */
  function Consulta(db: Db, ks: set<Id>): (rs: seq<Frequencia>)
    requires ks <= db.frequencias.Keys
  {
    Varredura(db.frequencias, ks, db.nextFrequencia)
  }

  /** relatorio_aluno. */
  function RelatorioAluno(db: Db, alunoId: Id): (r: Relatorio)
    ensures r.alunoId == alunoId && r.disciplinaId.None?
  {
    Resumo(alunoId, None, Consulta(db, DoAluno(db, alunoId)))
  }

  /** relatorio_aluno_disciplina. */
  function RelatorioAlunoDisciplina(db: Db, alunoId: Id, disciplinaId: Id): (r: Relatorio)
    ensures r.alunoId == alunoId && r.disciplinaId == Some(disciplinaId)
  {
    Resumo(alunoId, Some(disciplinaId), Consulta(db, DoAlunoNaDisciplina(db, alunoId, disciplinaId)))
  }

  lemma ContaSnoc(rs: seq<Frequencia>, f: Frequencia, c: Criterio)
    ensures Conta(rs + [f], c) == Conta(rs, c) + (if Satisfaz(f, c) then 1 else 0)
  {
    assert (rs + [f])[..|rs|] == rs;
  }

  /** One when the key is in the set and its row meets the filter. */
  function Peso(fs: map<Id, Frequencia>, ks: set<Id>, k: Id, c: Criterio): nat
    requires ks <= fs.Keys
  {
    if k in ks && Satisfaz(fs[k], c) then 1 else 0
  }

  /** One more key in the bound adds one to the count when that key is in
      the set and its row meets the filter. */
  lemma VarreduraPasso(fs: map<Id, Frequencia>, ks: set<Id>, n: nat, c: Criterio)
    requires ks <= fs.Keys
    requires n > 0
    ensures Conta(Varredura(fs, ks, n), c) == Conta(Varredura(fs, ks, n - 1), c) + Peso(fs, ks, n - 1, c)
  {
    var antes := Varredura(fs, ks, n - 1);
    if n - 1 in ks {
      ContaSnoc(antes, fs[n - 1], c);
    } else {
      assert antes + [] == antes;
    }
  }

  /** The scan has one row per key below the bound. */
  lemma {:induction false} TamanhoVarredura(fs: map<Id, Frequencia>, ks: set<Id>, n: nat)
    requires ks <= fs.Keys
    decreases n
    ensures |Varredura(fs, ks, n)| == |Below(ks, n)|
  {
    if n == 0 {
      assert Below(ks, n) == {};
    } else {
      TamanhoVarredura(fs, ks, n - 1);
      BelowStep(ks, n);
    }
  }

  /** The same step on the filtered key set. */
  lemma FiltroPasso(fs: map<Id, Frequencia>, ks: set<Id>, n: nat, c: Criterio)
    requires ks <= fs.Keys
    requires n > 0
    ensures |Below(Filtro(fs, ks, c), n)| == |Below(Filtro(fs, ks, c), n - 1)| + Peso(fs, ks, n - 1, c)
  {
    var f := Filtro(fs, ks, c);
    BelowStep(f, n);
    assert n - 1 in f <==> n - 1 in ks && Satisfaz(fs[n - 1], c);
  }

  /** The count invariant carried from one bound to the next. */
  lemma ContaVarreduraPasso(fs: map<Id, Frequencia>, ks: set<Id>, n: nat, c: Criterio)
    requires ks <= fs.Keys
    requires n > 0
    requires Conta(Varredura(fs, ks, n - 1), c) == |Below(Filtro(fs, ks, c), n - 1)|
    ensures Conta(Varredura(fs, ks, n), c) == |Below(Filtro(fs, ks, c), n)|
  {
    VarreduraPasso(fs, ks, n, c);
    FiltroPasso(fs, ks, n, c);
  }

  lemma VarreduraVazia(fs: map<Id, Frequencia>, ks: set<Id>, c: Criterio)
    requires ks <= fs.Keys
    ensures Conta(Varredura(fs, ks, 0), c) == 0 == |Below(Filtro(fs, ks, c), 0)|
  {
    assert Below(Filtro(fs, ks, c), 0) == {};
  }

  /** Counting the scan of a key set by a filter counts the keys that meet it. */
  lemma {:induction false} ContaVarredura(fs: map<Id, Frequencia>, ks: set<Id>, n: nat, c: Criterio)
    requires ks <= fs.Keys
    decreases n
    ensures Conta(Varredura(fs, ks, n), c) == |Below(Filtro(fs, ks, c), n)|
  {
    if n == 0 {
      VarreduraVazia(fs, ks, c);
    } else {
      ContaVarredura(fs, ks, n - 1, c);
      ContaVarreduraPasso(fs, ks, n, c);
    }
  }

  /** Present and absent rows split the key set. */
  lemma FiltroParticao(fs: map<Id, Frequencia>, ks: set<Id>)
    requires ks <= fs.Keys
    ensures |Filtro(fs, ks, Presente)| + |Filtro(fs, ks, Ausente)| == |ks|
  {
    var p := Filtro(fs, ks, Presente);
    var a := Filtro(fs, ks, Ausente);
    forall k | k in ks ensures k in p || k in a {
      assert Satisfaz(fs[k], Presente) || Satisfaz(fs[k], Ausente);
    }
    forall k | k in p ensures k !in a {
      assert Satisfaz(fs[k], Presente);
    }
    assert ks == p + a;
  }

  /** The count of one filter over the scan of a key set of the table. */
  lemma ContaConsulta(db: Db, ks: set<Id>, c: Criterio)
    requires Wf(db)
    requires ks <= db.frequencias.Keys
    ensures Conta(Consulta(db, ks), c) == |Filtro(db.frequencias, ks, c)|
  {
    ContaVarredura(db.frequencias, ks, db.nextFrequencia, c);
    BelowAll(Filtro(db.frequencias, ks, c), db.nextFrequencia);
  }

  /** A report over the scan of a key set of the table counts that set: the
      total is its size and each count is the size of its filtered part. */
  lemma ResumoConta(db: Db, ks: set<Id>, alunoId: Id, d: Option<Id>)
    requires Wf(db)
    requires ks <= db.frequencias.Keys
    ensures var r := Resumo(alunoId, d, Consulta(db, ks));
      && r.totalSessoes == |ks|
      && r.presencas == |Filtro(db.frequencias, ks, Presente)|
      && r.faltas == |Filtro(db.frequencias, ks, Ausente)|
      && r.faltasJustificadas == |Filtro(db.frequencias, ks, FaltaJustificada)|
  {
    var n := db.nextFrequencia;
    TamanhoVarredura(db.frequencias, ks, n);
    BelowAll(ks, n);
    ContaConsulta(db, ks, Presente);
    ContaConsulta(db, ks, FaltaJustificada);
    FiltroParticao(db.frequencias, ks);
  }

  /** relatorio_aluno counts the student's records: all of them, those
      present, those absent, and those absent and justified. */
  lemma RelatorioAlunoConta(db: Db, alunoId: Id)
    requires Wf(db)
    ensures var r := RelatorioAluno(db, alunoId);
      var ks := DoAluno(db, alunoId);
      && r.totalSessoes == |ks|
      && r.presencas == |Filtro(db.frequencias, ks, Presente)|
      && r.faltas == |Filtro(db.frequencias, ks, Ausente)|
      && r.faltasJustificadas == |Filtro(db.frequencias, ks, FaltaJustificada)|
      && (|ks| == 0 ==> r.percentualPresenca == 0.0)
      && (|ks| > 0 ==> r.percentualPresenca * (|ks| as real) ==
                       100.0 * (|Filtro(db.frequencias, ks, Presente)| as real))
  {
    ResumoConta(db, DoAluno(db, alunoId), alunoId, None);
  }

  /** relatorio_aluno_disciplina counts in the same way only the student's
      records whose session belongs to the subject. */
  lemma RelatorioAlunoDisciplinaConta(db: Db, alunoId: Id, disciplinaId: Id)
    requires Wf(db)
    ensures var r := RelatorioAlunoDisciplina(db, alunoId, disciplinaId);
      var ks := DoAlunoNaDisciplina(db, alunoId, disciplinaId);
      && r.totalSessoes == |ks|
      && r.presencas == |Filtro(db.frequencias, ks, Presente)|
      && r.faltas == |Filtro(db.frequencias, ks, Ausente)|
      && r.faltasJustificadas == |Filtro(db.frequencias, ks, FaltaJustificada)|
      && (|ks| == 0 ==> r.percentualPresenca == 0.0)
      && (|ks| > 0 ==> r.percentualPresenca * (|ks| as real) ==
                       100.0 * (|Filtro(db.frequencias, ks, Presente)| as real))
  {
    ResumoConta(db, DoAlunoNaDisciplina(db, alunoId, disciplinaId), alunoId, Some(disciplinaId));
  }

  /** A subject's report never counts more than the student's overall one. */
  lemma DisciplinaDentroDoTotal(db: Db, alunoId: Id, disciplinaId: Id)
    requires Wf(db)
    ensures var rd := RelatorioAlunoDisciplina(db, alunoId, disciplinaId);
      var ra := RelatorioAluno(db, alunoId);
      && rd.totalSessoes <= ra.totalSessoes
      && rd.presencas <= ra.presencas
      && rd.faltasJustificadas <= ra.faltasJustificadas
  {
    var kd := DoAlunoNaDisciplina(db, alunoId, disciplinaId);
    var ka := DoAluno(db, alunoId);
    ResumoConta(db, kd, alunoId, Some(disciplinaId));
    ResumoConta(db, ka, alunoId, None);
    assert kd <= ka;
    assert Filtro(db.frequencias, kd, Presente) <= Filtro(db.frequencias, ka, Presente);
    assert Filtro(db.frequencias, kd, FaltaJustificada) <= Filtro(db.frequencias, ka, FaltaJustificada);
    SubsetCard(kd, ka);
    SubsetCard(Filtro(db.frequencias, kd, Presente), Filtro(db.frequencias, ka, Presente));
    SubsetCard(Filtro(db.frequencias, kd, FaltaJustificada), Filtro(db.frequencias, ka, FaltaJustificada));
  }

  lemma SubsetCard(a: set<Id>, b: set<Id>)
    requires a <= b
    ensures |a| <= |b|
  {
    assert b == a + (b - a);
  }

  /** One entry of relatorio_turma: the student's report with its name and
      registration number added. */
  datatype LinhaTurma = LinhaTurma(relatorio: Relatorio, nome: string, matricula: string)

  function LinhaDe(db: Db, alunoId: Id): (l: LinhaTurma)
    requires alunoId in db.alunos
    ensures l.relatorio.alunoId == alunoId
  {
    LinhaTurma(RelatorioAluno(db, alunoId), db.alunos[alunoId].nome, db.alunos[alunoId].matricula)
  }

  /** relatorio_turma: one entry per student of the class, in key order. */
  function RelatorioTurma(db: Db, turmaId: Id): (r: seq<LinhaTurma>)
    requires Wf(db)
  {
    var ids := ListarAlunosTurma(db, turmaId);
    seq(|ids|, i requires 0 <= i < |ids| => LinhaDe(db, ids[i]))
  }

  /** The class report has exactly one entry for each student whose turma_id
      is the class, each with that student's name, registration number and
      relatorio_aluno, and no other entry. */
  lemma RelatorioTurmaUmPorAluno(db: Db, turmaId: Id)
    requires Wf(db)
    ensures var r := RelatorioTurma(db, turmaId);
      && (forall a :: a in db.alunos && db.alunos[a].turmaId == turmaId <==>
            exists i :: 0 <= i < |r| && r[i].relatorio.alunoId == a)
      && (forall i, j :: 0 <= i < j < |r| ==> r[i].relatorio.alunoId < r[j].relatorio.alunoId)
      && (forall i :: 0 <= i < |r| ==>
            var a := r[i].relatorio.alunoId;
            && a in db.alunos && db.alunos[a].turmaId == turmaId
            && r[i] == LinhaTurma(RelatorioAluno(db, a), db.alunos[a].nome, db.alunos[a].matricula))
  {
    var ids := ListarAlunosTurma(db, turmaId);
    var r := RelatorioTurma(db, turmaId);
    forall a | a in db.alunos && db.alunos[a].turmaId == turmaId
      ensures exists i :: 0 <= i < |r| && r[i].relatorio.alunoId == a
    {
      assert a in ids;
      var i :| 0 <= i < |ids| && ids[i] == a;
      assert r[i].relatorio.alunoId == a;
    }
  }

  /** An insert adds its key to the records of its own student only. */
  lemma DoAlunoInsere(db: Db, alunoId: Id, sessaoId: Id, m: Attendance.Marca, clock: Clock, b: Id)
    requires Wf(db)
    ensures DoAluno(Attendance.Inserir(db, alunoId, sessaoId, m, clock), b) ==
            DoAluno(db, b) + (if b == alunoId then {db.nextFrequencia} else {})
  {
  }

  /** A student's first successful individual mark inserts the student's
      only record under the next key, with the values of the request. */
  lemma PrimeiraMarca(db: Db, f: Attendance.FrequenciaIndividual, clock: Clock)
    requires Valid(db)
    requires Attendance.MarcarFrequenciaIndividual(db, f, clock).1.Ok?
    requires DoAluno(db, f.alunoId) == {}
    ensures var db2 := Attendance.MarcarFrequenciaIndividual(db, f, clock).0;
      var n := db.nextFrequencia;
      && DoAluno(db2, f.alunoId) == {n}
      && n in db2.frequencias
      && Attendance.Registra(db2.frequencias[n], Attendance.Marca(f.presente, f.justificado, f.observacao))
  {
    var a := f.alunoId;
    var m := Attendance.Marca(f.presente, f.justificado, f.observacao);
    var (db1, s) := Sessions.AbrirSessaoDoDia(db, db.alunos[a].turmaId, f.disciplinaId, clock);
    assert db1.frequencias == db.frequencias && db1.nextFrequencia == db.nextFrequencia;
    assert DoAluno(db1, a) == {};
    var db2 := Attendance.MarcarFrequenciaIndividual(db, f, clock).0;
    assert db2 == Attendance.Inserir(db1, a, s, m, clock) by {
      assert FrequenciasDe(db1.frequencias, a, s) == {} by {
        assert FrequenciasDe(db1.frequencias, a, s) <= DoAluno(db1, a);
      }
      Attendance.UpsertCasos(db1, a, s, m, clock);
    }
    DoAlunoInsere(db1, a, s, m, clock, a);
  }

  /** A student whose only record is absent and justified has a report of
      one session, no presence, one absence, one justified absence and 0%. */
  lemma UmaFaltaJustificada(db: Db, alunoId: Id, n: Id)
    requires Wf(db)
    requires DoAluno(db, alunoId) == {n}
    requires !db.frequencias[n].presente && db.frequencias[n].justificado
    ensures RelatorioAluno(db, alunoId) == Relatorio(alunoId, None, 1, 0, 1, 1, 0.0)
  {
    RelatorioAlunoConta(db, alunoId);
    FiltroUnitario(db.frequencias, n, Presente);
    FiltroUnitario(db.frequencias, n, Ausente);
    FiltroUnitario(db.frequencias, n, FaltaJustificada);
  }

  /** A student's first mark, absent and justified, makes the report one
      session, no presence, one absence, one justified absence and 0%. */
  lemma PrimeiraFaltaJustificada(db: Db, f: Attendance.FrequenciaIndividual, clock: Clock)
    requires Valid(db)
    requires Attendance.MarcarFrequenciaIndividual(db, f, clock).1.Ok?
    requires DoAluno(db, f.alunoId) == {}
    requires !f.presente && f.justificado
    ensures RelatorioAluno(Attendance.MarcarFrequenciaIndividual(db, f, clock).0, f.alunoId) ==
            Relatorio(f.alunoId, None, 1, 0, 1, 1, 0.0)
  {
    PrimeiraMarca(db, f, clock);
    UmaFaltaJustificada(Attendance.MarcarFrequenciaIndividual(db, f, clock).0, f.alunoId, db.nextFrequencia);
  }

  lemma FiltroUnitario(fs: map<Id, Frequencia>, k: Id, c: Criterio)
    requires k in fs
    ensures Filtro(fs, {k}, c) == if Satisfaz(fs[k], c) then {k} else {}
  {
    if Satisfaz(fs[k], c) {
      assert k in Filtro(fs, {k}, c);
    }
  }
}
