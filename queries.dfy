/** The read-only queries of the service: the `listar_*` filters, the lookup of
    a subject by key, the same-day session lookup and the lookup of the
    attendance record of a (student, session) pair. */
module Queries {
  import opened Domain
  import opened Ordering

  const SegundosPorDia: int := 86400

  /** The calendar day of a timestamp. */
  function Dia(ts: int): int {
    ts / SegundosPorDia
  }

  /** Midnight of the day of `ts` (`datetime.now().date()` compared against a
      timestamp column). */
  function InicioDoDia(ts: int): int {
    Dia(ts) * SegundosPorDia
  }

  /** The session filter `data >= hoje and data < hoje + timedelta(days=1)`,
      with `hoje` the day of `agora`. */
  predicate NoDia(data: int, agora: int) {
    InicioDoDia(agora) <= data < InicioDoDia(agora) + SegundosPorDia
  }

  /** The half-open interval is exactly "same calendar day". */
  lemma NoDiaSeMesmoDia(data: int, agora: int)
    ensures NoDia(data, agora) <==> Dia(data) == Dia(agora)
  {
  }

  /** listar_turmas: every class, in key order. */
  function ListarTurmas(db: Db): (r: seq<Id>)
    requires Wf(db)
    ensures forall k :: k in r <==> k in db.turmas
    ensures Increasing(r)
  {
    Ascending(db.turmas.Keys, db.nextTurma)
  }

  /** listar_disciplinas: every subject, in key order. */
  function ListarDisciplinas(db: Db): (r: seq<Id>)
    requires Wf(db)
    ensures forall k :: k in r <==> k in db.disciplinas
    ensures Increasing(r)
  {
    Ascending(db.disciplinas.Keys, db.nextDisciplina)
  }

  /** get_disciplina: the subject with that key, or nothing. */
  function GetDisciplina(db: Db, disciplinaId: Id): (r: Option<Disciplina>)
    ensures r.Some? <==> disciplinaId in db.disciplinas
    ensures r.Some? ==> r.value == db.disciplinas[disciplinaId]
  {
    if disciplinaId in db.disciplinas then Some(db.disciplinas[disciplinaId]) else None
  }

  function AlunosDaTurma(db: Db, turmaId: Id): set<Id> {
    set a | a in db.alunos && db.alunos[a].turmaId == turmaId
  }

  /** listar_alunos_turma: the students whose turma_id is the class, in key order. */
  function ListarAlunosTurma(db: Db, turmaId: Id): (r: seq<Id>)
    requires Wf(db)
    ensures forall a :: a in r <==> a in db.alunos && db.alunos[a].turmaId == turmaId
    ensures Increasing(r)
  {
    Ascending(AlunosDaTurma(db, turmaId), db.nextAluno)
  }

  function AlunosDaDisciplina(db: Db, disciplinaId: Id): set<Id> {
    set p | p in db.matriculas && p.1 == disciplinaId :: p.0
  }

  /** listar_alunos_disciplina: the students enrolled in the subject, or the
      empty list when the subject does not exist. */
  function ListarAlunosDisciplina(db: Db, disciplinaId: Id): (r: seq<Id>)
    requires Wf(db) && MatriculasValidas(db)
    ensures forall a :: a in r <==> disciplinaId in db.disciplinas && (a, disciplinaId) in db.matriculas
    ensures forall a :: a in r ==> a in db.alunos
    ensures Increasing(r)
  {
    if disciplinaId in db.disciplinas then
      assert forall a :: a in AlunosDaDisciplina(db, disciplinaId) <==> (a, disciplinaId) in db.matriculas by {
        forall a ensures a in AlunosDaDisciplina(db, disciplinaId) <==> (a, disciplinaId) in db.matriculas {
          if (a, disciplinaId) in db.matriculas {
            var p := (a, disciplinaId);
            assert p in db.matriculas && p.1 == disciplinaId;
          }
        }
      }
      Ascending(AlunosDaDisciplina(db, disciplinaId), db.nextAluno)
    else []
  }

  /** The sessions of a class and subject whose timestamp falls on the day of `agora`. */
  function SessoesDoDia(db: Db, turmaId: Id, disciplinaId: Id, agora: int): set<Id> {
    set k | k in db.sessoes && db.sessoes[k].disciplinaId == disciplinaId
                            && db.sessoes[k].turmaId == turmaId
                            && NoDia(db.sessoes[k].data, agora)
  }

  /** The `.first()` of that session query. */
  function SessaoDoDia(db: Db, turmaId: Id, disciplinaId: Id, agora: int): (r: Option<Id>)
    ensures r.Some? ==> r.value in db.sessoes && r.value in SessoesDoDia(db, turmaId, disciplinaId, agora)
    ensures Wf(db) && r.Some? ==> forall k :: k in SessoesDoDia(db, turmaId, disciplinaId, agora) ==> r.value <= k
    ensures Wf(db) ==> (r.None? <==> SessoesDoDia(db, turmaId, disciplinaId, agora) == {})
  {
    FirstVazio(SessoesDoDia(db, turmaId, disciplinaId, agora), db.nextSessao);
    First(SessoesDoDia(db, turmaId, disciplinaId, agora), db.nextSessao)
  }

  /** The keys of the attendance records of a (student, session) pair. */
  function FrequenciasDe(fs: map<Id, Frequencia>, alunoId: Id, sessaoId: Id): set<Id> {
    set k | k in fs && fs[k].alunoId == alunoId && fs[k].sessaoId == sessaoId
  }

  /** The `.first()` of the query for the record of a (student, session) pair. */
  function BuscarFrequencia(db: Db, alunoId: Id, sessaoId: Id): (r: Option<Id>)
    ensures r.Some? ==> r.value in db.frequencias && r.value in FrequenciasDe(db.frequencias, alunoId, sessaoId)
    ensures Wf(db) ==> (r.None? <==> FrequenciasDe(db.frequencias, alunoId, sessaoId) == {})
  {
    FirstVazio(FrequenciasDe(db.frequencias, alunoId, sessaoId), db.nextFrequencia);
    First(FrequenciasDe(db.frequencias, alunoId, sessaoId), db.nextFrequencia)
  }

  /** An insert under a fresh key adds that key to the records of its own pair only. */
  lemma FrequenciasDeInsere(fs: map<Id, Frequencia>, n: Id, v: Frequencia, alunoId: Id, sessaoId: Id)
    requires n !in fs
    ensures FrequenciasDe(fs[n := v], alunoId, sessaoId) ==
            FrequenciasDe(fs, alunoId, sessaoId) + (if v.alunoId == alunoId && v.sessaoId == sessaoId then {n} else {})
  {
  }

  /** Overwriting a record without changing its pair changes no pair's key set. */
  lemma FrequenciasDeAtualiza(fs: map<Id, Frequencia>, k: Id, v: Frequencia, alunoId: Id, sessaoId: Id)
    requires k in fs
    requires v.alunoId == fs[k].alunoId && v.sessaoId == fs[k].sessaoId
    ensures FrequenciasDe(fs[k := v], alunoId, sessaoId) == FrequenciasDe(fs, alunoId, sessaoId)
  {
  }

  /** Inserting the first record of a pair keeps uniqueness. */
  lemma UnicaInsere(fs: map<Id, Frequencia>, n: Id, v: Frequencia)
    requires FrequenciaUnica(fs)
    requires n !in fs
    requires FrequenciasDe(fs, v.alunoId, v.sessaoId) == {}
    ensures FrequenciaUnica(fs[n := v])
  {
    forall i | i in fs ensures fs[i].alunoId != v.alunoId || fs[i].sessaoId != v.sessaoId {
      assert i !in FrequenciasDe(fs, v.alunoId, v.sessaoId);
    }
  }

  /** Overwriting a record without changing its pair keeps uniqueness. */
  lemma UnicaAtualiza(fs: map<Id, Frequencia>, k: Id, v: Frequencia)
    requires FrequenciaUnica(fs)
    requires k in fs
    requires v.alunoId == fs[k].alunoId && v.sessaoId == fs[k].sessaoId
    ensures FrequenciaUnica(fs[k := v])
  {
  }

  /** Under the uniqueness invariant a pair has at most one record. */
  lemma FrequenciaNoMaximoUma(db: Db, alunoId: Id, sessaoId: Id)
    requires FrequenciaUnica(db.frequencias)
    ensures |FrequenciasDe(db.frequencias, alunoId, sessaoId)| <= 1
  {
    var ks := FrequenciasDe(db.frequencias, alunoId, sessaoId);
    if ks != {} {
      var k := Ordering.Elemento(ks);
      forall j | j in ks ensures j == k {
        assert db.frequencias[j].alunoId == db.frequencias[k].alunoId;
      }
      assert ks == {k};
    }
  }
}
