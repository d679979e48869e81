/** Attendance recording: the create-or-update of the record of a
    (student, session) pair, the individual path with its checks, and the
    batch path without them. */
module Attendance {
  import opened Domain
  import opened Ordering
  import opened Queries
  import opened Sessions

  /** A FrequenciaIndividual request (presente defaults to true, justificado
      to false, observacao to None). */
  datatype FrequenciaIndividual = FrequenciaIndividual(
    alunoId: Id, disciplinaId: Id, presente: bool, justificado: bool, observacao: Option<string>)

  /** One entry of a batch: a dict with `aluno_id` and, optionally,
      `presente`, `justificado` and `observacao`. */
  datatype Entrada = Entrada(alunoId: Id, presente: Option<bool>, justificado: Option<bool>, observacao: Option<string>)

  /** The values one write stores in a record. */
  datatype Marca = Marca(presente: bool, justificado: bool, observacao: Option<string>)

  /** The values a batch entry writes: `freq_data.get(...)` with the column
      defaults for the keys it lacks. */
  function MarcaDe(e: Entrada): (m: Marca)
    ensures e.presente.None? ==> m.presente == PresentePadrao
    ensures e.justificado.None? ==> m.justificado == JustificadoPadrao
    ensures e.presente.Some? ==> m.presente == e.presente.value
    ensures e.justificado.Some? ==> m.justificado == e.justificado.value
    ensures m.observacao == e.observacao
  {
    Marca(e.presente.GetOr(PresentePadrao), e.justificado.GetOr(JustificadoPadrao), e.observacao)
  }

  /** The record holds the values of the write. */
  predicate Registra(f: Frequencia, m: Marca) {
    f.presente == m.presente && f.justificado == m.justificado && f.observacao == m.observacao
  }

  /** Overwrite of an existing record: the three values, and data_registro
      set to the local clock. */
  function AtualizarEm(db: Db, k: Id, m: Marca, clock: Clock): (r: Db)
    requires k in db.frequencias
    ensures r == db.(frequencias := r.frequencias)
    ensures r.frequencias.Keys == db.frequencias.Keys
    ensures Registra(r.frequencias[k], m) && r.frequencias[k].dataRegistro == clock.local
    ensures r.frequencias[k].alunoId == db.frequencias[k].alunoId
    ensures r.frequencias[k].sessaoId == db.frequencias[k].sessaoId
    ensures forall j :: j in db.frequencias && j != k ==> r.frequencias[j] == db.frequencias[j]
  {
    var f := db.frequencias[k];
    db.(frequencias := db.frequencias[k := f.(presente := m.presente, justificado := m.justificado,
                                              observacao := m.observacao, dataRegistro := clock.local)])
  }

  /** Insert of a new record under a fresh key; data_registro takes its
      column default, the UTC clock. */
  function Inserir(db: Db, alunoId: Id, sessaoId: Id, m: Marca, clock: Clock): (r: Db)
    requires Wf(db)
    ensures Wf(r)
    ensures r == db.(frequencias := r.frequencias, nextFrequencia := r.nextFrequencia)
    ensures db.nextFrequencia !in db.frequencias
    ensures r.frequencias.Keys == db.frequencias.Keys + {db.nextFrequencia}
    ensures r.nextFrequencia == db.nextFrequencia + 1
    ensures r.frequencias[db.nextFrequencia] ==
      Frequencia(alunoId, sessaoId, m.presente, m.justificado, m.observacao, clock.utc)
    ensures forall j :: j in db.frequencias ==> r.frequencias[j] == db.frequencias[j]
  {
    var id := db.nextFrequencia;
    db.(frequencias := db.frequencias[id := Frequencia(alunoId, sessaoId, m.presente, m.justificado, m.observacao, clock.utc)],
        nextFrequencia := id + 1)
  }

  /** The upsert of both paths: the first record of the pair is overwritten,
      or else one record is inserted. Only the attendance table changes. */
  function Upsert(db: Db, alunoId: Id, sessaoId: Id, m: Marca, clock: Clock): (r: Db)
    requires Wf(db)
    ensures Wf(r)
    ensures r == db.(frequencias := r.frequencias, nextFrequencia := r.nextFrequencia)
    ensures db.frequencias.Keys <= r.frequencias.Keys && db.nextFrequencia <= r.nextFrequencia
  {
    match BuscarFrequencia(db, alunoId, sessaoId)
    case Some(k) => AtualizarEm(db, k, m, clock)
    case None => Inserir(db, alunoId, sessaoId, m, clock)
  }

  /** The two outcomes of the upsert, case by case. */
  lemma UpsertCasos(db: Db, alunoId: Id, sessaoId: Id, m: Marca, clock: Clock)
    requires Wf(db)
    ensures var k := BuscarFrequencia(db, alunoId, sessaoId);
      && (k.Some? ==> k.value in db.frequencias && Upsert(db, alunoId, sessaoId, m, clock) == AtualizarEm(db, k.value, m, clock))
      && (k.None? ==> Upsert(db, alunoId, sessaoId, m, clock) == Inserir(db, alunoId, sessaoId, m, clock))
  {
  }

  /** Upsert of a pair that has a record: that record, the only one of the
      pair, is overwritten in place. */
  lemma UpsertAtualiza(db: Db, alunoId: Id, sessaoId: Id, m: Marca, clock: Clock)
    requires Wf(db) && FrequenciaUnica(db.frequencias)
    requires BuscarFrequencia(db, alunoId, sessaoId).Some?
    ensures var r := Upsert(db, alunoId, sessaoId, m, clock);
      var k := BuscarFrequencia(db, alunoId, sessaoId).value;
      && FrequenciaUnica(r.frequencias)
      && FrequenciasDe(r.frequencias, alunoId, sessaoId) == {k}
      && r.frequencias.Keys == db.frequencias.Keys
      && BuscarFrequencia(r, alunoId, sessaoId) == Some(k)
      && Registra(r.frequencias[k], m) && r.frequencias[k].dataRegistro == clock.local
  {
    var r := Upsert(db, alunoId, sessaoId, m, clock);
    var k := BuscarFrequencia(db, alunoId, sessaoId).value;
    var ks := FrequenciasDe(db.frequencias, alunoId, sessaoId);
    assert ks == {k} by {
      assert k in ks;
      forall j | j in ks ensures j == k {
        assert db.frequencias[j].alunoId == db.frequencias[k].alunoId;
      }
    }
    FrequenciasDeAtualiza(db.frequencias, k, r.frequencias[k], alunoId, sessaoId);
    UnicaAtualiza(db.frequencias, k, r.frequencias[k]);
    FirstOfSingleton(FrequenciasDe(r.frequencias, alunoId, sessaoId), k, r.nextFrequencia);
  }

  /** The insert of the first record of a pair: one record with the written
      values and the UTC clock, under a fresh key, the pair's only one. */
  lemma InserirPrimeira(db: Db, alunoId: Id, sessaoId: Id, m: Marca, clock: Clock)
    requires Wf(db) && FrequenciaUnica(db.frequencias)
    requires FrequenciasDe(db.frequencias, alunoId, sessaoId) == {}
    ensures var r := Inserir(db, alunoId, sessaoId, m, clock);
      var n := db.nextFrequencia;
      && FrequenciaUnica(r.frequencias)
      && FrequenciasDe(r.frequencias, alunoId, sessaoId) == {n}
      && n !in db.frequencias && r.frequencias.Keys == db.frequencias.Keys + {n}
      && BuscarFrequencia(r, alunoId, sessaoId) == Some(n)
      && Registra(r.frequencias[n], m) && r.frequencias[n].dataRegistro == clock.utc
  {
    var n := db.nextFrequencia;
    var v := Frequencia(alunoId, sessaoId, m.presente, m.justificado, m.observacao, clock.utc);
    var r := Inserir(db, alunoId, sessaoId, m, clock);
    FrequenciasDeInsere(db.frequencias, n, v, alunoId, sessaoId);
    UnicaInsere(db.frequencias, n, v);
    FirstOfSingleton(FrequenciasDe(r.frequencias, alunoId, sessaoId), n, r.nextFrequencia);
  }

  /** After the upsert the pair has exactly one record and it holds the
      written values (its data_registro is the local clock when it was
      overwritten and the UTC clock when it was inserted), and the store
      invariant is kept. */
  lemma UpsertGrava(db: Db, alunoId: Id, sessaoId: Id, m: Marca, clock: Clock)
    requires Valid(db)
    ensures var r := Upsert(db, alunoId, sessaoId, m, clock);
      var k := BuscarFrequencia(r, alunoId, sessaoId);
      && Valid(r)
      && k.Some?
      && FrequenciasDe(r.frequencias, alunoId, sessaoId) == {k.value}
      && Registra(r.frequencias[k.value], m)
      && r.frequencias[k.value].dataRegistro ==
           (if BuscarFrequencia(db, alunoId, sessaoId).Some? then clock.local else clock.utc)
      && (BuscarFrequencia(db, alunoId, sessaoId).Some? ==> r.frequencias.Keys == db.frequencias.Keys)
  {
    if BuscarFrequencia(db, alunoId, sessaoId).Some? {
      UpsertAtualiza(db, alunoId, sessaoId, m, clock);
    } else {
      InserirPrimeira(db, alunoId, sessaoId, m, clock);
    }
  }

  /** Overwriting a record of one pair leaves the records of any other pair. */
  lemma AtualizarPreservaOutros(db: Db, k: Id, m: Marca, clock: Clock, b: Id, s: Id)
    requires k in db.frequencias
    requires b != db.frequencias[k].alunoId || s != db.frequencias[k].sessaoId
    ensures var r := AtualizarEm(db, k, m, clock);
      && FrequenciasDe(r.frequencias, b, s) == FrequenciasDe(db.frequencias, b, s)
      && forall j :: j in FrequenciasDe(db.frequencias, b, s) ==> r.frequencias[j] == db.frequencias[j]
  {
    var r := AtualizarEm(db, k, m, clock);
    FrequenciasDeAtualiza(db.frequencias, k, r.frequencias[k], b, s);
  }

  /** Inserting a record of one pair leaves the records of any other pair. */
  lemma InserirPreservaOutros(db: Db, alunoId: Id, sessaoId: Id, m: Marca, clock: Clock, b: Id, s: Id)
    requires Wf(db)
    requires b != alunoId || s != sessaoId
    ensures var r := Inserir(db, alunoId, sessaoId, m, clock);
      && FrequenciasDe(r.frequencias, b, s) == FrequenciasDe(db.frequencias, b, s)
      && forall j :: j in FrequenciasDe(db.frequencias, b, s) ==> r.frequencias[j] == db.frequencias[j]
  {
    var r := Inserir(db, alunoId, sessaoId, m, clock);
    FrequenciasDeInsere(db.frequencias, db.nextFrequencia, r.frequencias[db.nextFrequencia], b, s);
  }

  /** The upsert leaves the records of every other pair as they were. */
  lemma UpsertPreservaOutros(db: Db, alunoId: Id, sessaoId: Id, m: Marca, clock: Clock, b: Id, s: Id)
    requires Wf(db)
    requires b != alunoId || s != sessaoId
    ensures var r := Upsert(db, alunoId, sessaoId, m, clock);
      && FrequenciasDe(r.frequencias, b, s) == FrequenciasDe(db.frequencias, b, s)
      && forall k :: k in FrequenciasDe(db.frequencias, b, s) ==> r.frequencias[k] == db.frequencias[k]
  {
    match BuscarFrequencia(db, alunoId, sessaoId)
    case Some(k) =>
      AtualizarPreservaOutros(db, k, m, clock, b, s);
    case None =>
      InserirPreservaOutros(db, alunoId, sessaoId, m, clock, b, s);
  }

  /** marcar_frequencia_individual: the student and the subject must exist
      and the student must be enrolled in the subject (otherwise nothing is
      written); then the day's session of the student's class and the subject
      is found or created, and the pair's record is upserted. */
  function MarcarFrequenciaIndividual(db: Db, f: FrequenciaIndividual, clock: Clock): (r: (Db, Result<()>))
    requires Wf(db)
    ensures Wf(r.0)
    ensures r.1 == Err(NaoEncontrado) <==> f.alunoId !in db.alunos || f.disciplinaId !in db.disciplinas
    ensures r.1 == Err(NaoMatriculado) <==>
      f.alunoId in db.alunos && f.disciplinaId in db.disciplinas && (f.alunoId, f.disciplinaId) !in db.matriculas
    ensures r.1.Ok? <==>
      f.alunoId in db.alunos && f.disciplinaId in db.disciplinas && (f.alunoId, f.disciplinaId) in db.matriculas
    ensures r.1.Err? ==> r.0 == db
    ensures r.0.turmas == db.turmas && r.0.disciplinas == db.disciplinas
    ensures r.0.alunos == db.alunos && r.0.matriculas == db.matriculas
  {
    if f.alunoId !in db.alunos || f.disciplinaId !in db.disciplinas then (db, Err(NaoEncontrado))
    else if (f.alunoId, f.disciplinaId) !in db.matriculas then (db, Err(NaoMatriculado))
    else
      var (db1, s) := AbrirSessaoDoDia(db, db.alunos[f.alunoId].turmaId, f.disciplinaId, clock);
      (Upsert(db1, f.alunoId, s, Marca(f.presente, f.justificado, f.observacao), clock), Ok(()))
  }

  /** A successful individual mark: the store invariant holds; the record is
      written against the day's session of the student's class and the
      subject, which is that pair's only record; at most one session is
      created, and only when the class had none for the subject that day. */
  lemma MarcarIndividualGrava(db: Db, f: FrequenciaIndividual, clock: Clock)
    requires Valid(db)
    requires MarcarFrequenciaIndividual(db, f, clock).1.Ok?
    ensures var db' := MarcarFrequenciaIndividual(db, f, clock).0;
      var turma := db.alunos[f.alunoId].turmaId;
      var s := AbrirSessaoDoDia(db, turma, f.disciplinaId, clock).1;
      var k := BuscarFrequencia(db', f.alunoId, s);
      && Valid(db')
      && s in db'.sessoes
      && db'.sessoes[s].turmaId == turma && db'.sessoes[s].disciplinaId == f.disciplinaId
      && NoDia(db'.sessoes[s].data, clock.local)
      && k.Some? && FrequenciasDe(db'.frequencias, f.alunoId, s) == {k.value}
      && Registra(db'.frequencias[k.value], Marca(f.presente, f.justificado, f.observacao))
      && (db'.sessoes == db.sessoes ||
          (SessoesDoDia(db, turma, f.disciplinaId, clock.local) == {} &&
           s !in db.sessoes && db'.sessoes == db.sessoes[s := Sessao(clock.local, turma, f.disciplinaId, None)]))
  {
    var turma := db.alunos[f.alunoId].turmaId;
    var (db1, s) := AbrirSessaoDoDia(db, turma, f.disciplinaId, clock);
    AbrirSessaoDoDiaPreserva(db, turma, f.disciplinaId, clock);
    UpsertGrava(db1, f.alunoId, s, Marca(f.presente, f.justificado, f.observacao), clock);
  }

  /** Individual marking keeps the store invariant, on every path. */
  lemma MarcarIndividualPreserva(db: Db, f: FrequenciaIndividual, clock: Clock)
    requires Valid(db)
    ensures Valid(MarcarFrequenciaIndividual(db, f, clock).0)
  {
    if MarcarFrequenciaIndividual(db, f, clock).1.Ok? {
      MarcarIndividualGrava(db, f, clock);
    }
  }

  /** The day's session depends on the session table alone. */
  lemma AbrirSoVeSessoes(x: Db, y: Db, turmaId: Id, disciplinaId: Id, clock: Clock)
    requires Wf(x) && Wf(y)
    requires y.sessoes == x.sessoes && y.nextSessao == x.nextSessao
    ensures var (x', sx) := AbrirSessaoDoDia(x, turmaId, disciplinaId, clock);
      var (y', sy) := AbrirSessaoDoDia(y, turmaId, disciplinaId, clock);
      sy == sx && y' == y.(sessoes := x'.sessoes, nextSessao := x'.nextSessao)
  {
    assert SessoesDoDia(y, turmaId, disciplinaId, clock.local) == SessoesDoDia(x, turmaId, disciplinaId, clock.local);
  }

  /** Day-bucket dedup: after a successful mark, a second mark on the same
      day by a student of the same class for the same subject succeeds, uses
      the same session and creates none. */
  lemma {:induction false} MarcarMesmoDia(db: Db, f1: FrequenciaIndividual, f2: FrequenciaIndividual, c1: Clock, c2: Clock)
    requires Valid(db)
    requires MarcarFrequenciaIndividual(db, f1, c1).1.Ok?
    requires f2.alunoId in db.alunos && f2.disciplinaId == f1.disciplinaId
    requires (f2.alunoId, f2.disciplinaId) in db.matriculas
    requires db.alunos[f2.alunoId].turmaId == db.alunos[f1.alunoId].turmaId
    requires Dia(c1.local) == Dia(c2.local)
    ensures var db1 := MarcarFrequenciaIndividual(db, f1, c1).0;
      var turma := db.alunos[f1.alunoId].turmaId;
      && MarcarFrequenciaIndividual(db1, f2, c2).1.Ok?
      && MarcarFrequenciaIndividual(db1, f2, c2).0.sessoes == db1.sessoes
      && AbrirSessaoDoDia(db1, turma, f2.disciplinaId, c2) == (db1, AbrirSessaoDoDia(db, turma, f1.disciplinaId, c1).1)
  {
    var turma := db.alunos[f1.alunoId].turmaId;
    var (dbA, s) := AbrirSessaoDoDia(db, turma, f1.disciplinaId, c1);
    var db1 := Upsert(dbA, f1.alunoId, s, Marca(f1.presente, f1.justificado, f1.observacao), c1);
    assert db1 == MarcarFrequenciaIndividual(db, f1, c1).0;
    AbrirSessaoDoDiaEstavel(db, turma, f1.disciplinaId, c1, c2);
    AbrirSoVeSessoes(dbA, db1, turma, f1.disciplinaId, c2);
    assert AbrirSessaoDoDia(db1, turma, f2.disciplinaId, c2) == (db1, s);
  }

  /** Two same-day marks of one student for one subject leave one record for
      the pair, with the second write's values, and create no second record. */
  lemma MarcarMesmoDiaMesmoAluno(db: Db, f1: FrequenciaIndividual, f2: FrequenciaIndividual, c1: Clock, c2: Clock)
    requires Valid(db)
    requires MarcarFrequenciaIndividual(db, f1, c1).1.Ok?
    requires f2.alunoId == f1.alunoId && f2.disciplinaId == f1.disciplinaId
    requires Dia(c1.local) == Dia(c2.local)
    ensures var db1 := MarcarFrequenciaIndividual(db, f1, c1).0;
      var db2 := MarcarFrequenciaIndividual(db1, f2, c2).0;
      var s := AbrirSessaoDoDia(db, db.alunos[f1.alunoId].turmaId, f1.disciplinaId, c1).1;
      var k := BuscarFrequencia(db2, f2.alunoId, s);
      && db2.sessoes == db1.sessoes
      && db2.frequencias.Keys == db1.frequencias.Keys
      && k.Some? && FrequenciasDe(db2.frequencias, f2.alunoId, s) == {k.value}
      && Registra(db2.frequencias[k.value], Marca(f2.presente, f2.justificado, f2.observacao))
  {
    var turma := db.alunos[f1.alunoId].turmaId;
    var s := AbrirSessaoDoDia(db, turma, f1.disciplinaId, c1).1;
    var db1 := MarcarFrequenciaIndividual(db, f1, c1).0;
    MarcarMesmoDia(db, f1, f2, c1, c2);
    MarcarIndividualGrava(db, f1, c1);
    assert MarcarFrequenciaIndividual(db1, f2, c2).0 == Upsert(db1, f2.alunoId, s, Marca(f2.presente, f2.justificado, f2.observacao), c2);
    UpsertGrava(db1, f2.alunoId, s, Marca(f2.presente, f2.justificado, f2.observacao), c2);
  }

  /** The batch of marcar_frequencia_lote applied to the current store: each
      entry in turn upserts the record of (aluno_id, sessao_id). */
  function Lote(db: Db, sessaoId: Id, es: seq<Entrada>, clock: Clock): (r: Db)
    requires Wf(db)
    decreases |es|
    ensures Wf(r)
    ensures r == db.(frequencias := r.frequencias, nextFrequencia := r.nextFrequencia)
    ensures db.frequencias.Keys <= r.frequencias.Keys && db.nextFrequencia <= r.nextFrequencia
  {
    if es == [] then db
    else
      var e := es[|es| - 1];
      Upsert(Lote(db, sessaoId, es[..|es| - 1], clock), e.alunoId, sessaoId, MarcaDe(e), clock)
  }

  /** marcar_frequencia_lote: the batch with no check of the session, of the
      students or of their enrollment; the message reports the number of
      entries received. */
  function MarcarFrequenciaLote(db: Db, sessaoId: Id, es: seq<Entrada>, clock: Clock): (r: (Db, nat))
    requires Wf(db)
    ensures r.1 == |es|
    ensures r.0 == db.(frequencias := r.0.frequencias, nextFrequencia := r.0.nextFrequencia)
  {
    (Lote(db, sessaoId, es, clock), |es|)
  }

  /** The last entry of the batch for a student, if it has one. */
  function UltimaEntrada(es: seq<Entrada>, alunoId: Id): (r: Option<Entrada>)
    ensures r.Some? ==> r.value in es && r.value.alunoId == alunoId
    ensures r.None? <==> forall i :: 0 <= i < |es| ==> es[i].alunoId != alunoId
  {
    if es == [] then None
    else if es[|es| - 1].alunoId == alunoId then Some(es[|es| - 1])
    else UltimaEntrada(es[..|es| - 1], alunoId)
  }

  /** A batch leaves the records of a student it does not mention as they were. */
  lemma {:induction false} LotePreservaOutros(db: Db, sessaoId: Id, es: seq<Entrada>, clock: Clock, b: Id, s: Id)
    requires Wf(db)
    requires UltimaEntrada(es, b).None? || s != sessaoId
    ensures var r := Lote(db, sessaoId, es, clock);
      && FrequenciasDe(r.frequencias, b, s) == FrequenciasDe(db.frequencias, b, s)
      && forall k :: k in FrequenciasDe(db.frequencias, b, s) ==> r.frequencias[k] == db.frequencias[k]
  {
    if es != [] {
      var e := es[|es| - 1];
      var es' := es[..|es| - 1];
      assert UltimaEntrada(es', b).None? || s != sessaoId;
      LotePreservaOutros(db, sessaoId, es', clock, b, s);
      UpsertPreservaOutros(Lote(db, sessaoId, es', clock), e.alunoId, sessaoId, MarcaDe(e), clock, b, s);
    }
  }

  /** Upsert uniqueness for the batch: the invariant is kept, and every
      student the batch mentions, whether or not that student or the session
      exists, ends with exactly one record for the session, holding the values
      of its last entry. */
  lemma {:induction false} LoteGrava(db: Db, sessaoId: Id, es: seq<Entrada>, clock: Clock)
    requires Valid(db)
    ensures var r := Lote(db, sessaoId, es, clock);
      && Valid(r)
      && forall a :: UltimaEntrada(es, a).Some? ==>
           && BuscarFrequencia(r, a, sessaoId).Some?
           && FrequenciasDe(r.frequencias, a, sessaoId) == {BuscarFrequencia(r, a, sessaoId).value}
           && Registra(r.frequencias[BuscarFrequencia(r, a, sessaoId).value], MarcaDe(UltimaEntrada(es, a).value))
  {
    if es != [] {
      var e := es[|es| - 1];
      var es' := es[..|es| - 1];
      var cur := Lote(db, sessaoId, es', clock);
      var r := Lote(db, sessaoId, es, clock);
      LoteGrava(db, sessaoId, es', clock);
      UpsertGrava(cur, e.alunoId, sessaoId, MarcaDe(e), clock);
      forall a | UltimaEntrada(es, a).Some?
        ensures && BuscarFrequencia(r, a, sessaoId).Some?
                && FrequenciasDe(r.frequencias, a, sessaoId) == {BuscarFrequencia(r, a, sessaoId).value}
                && Registra(r.frequencias[BuscarFrequencia(r, a, sessaoId).value], MarcaDe(UltimaEntrada(es, a).value))
      {
        if a != e.alunoId {
          UpsertPreservaOutros(cur, e.alunoId, sessaoId, MarcaDe(e), clock, a, sessaoId);
          var k := BuscarFrequencia(cur, a, sessaoId).value;
          FirstOfSingleton(FrequenciasDe(r.frequencias, a, sessaoId), k, r.nextFrequencia);
        }
      }
    }
  }

  /** marcar_frequencia_lote as written. The session is created with
      autoflush off, so each entry's lookup sees the store as it was before the
      batch, not the rows the batch has added so far: a record that existed is
      overwritten (the last entry wins), and every entry whose lookup found
      nothing inserts a new row. */
  function LoteComoEscrito(db: Db, sessaoId: Id, es: seq<Entrada>, clock: Clock): (r: Db)
    requires Wf(db)
    decreases |es|
    ensures Wf(r)
    ensures r == db.(frequencias := r.frequencias, nextFrequencia := r.nextFrequencia)
    ensures db.frequencias.Keys <= r.frequencias.Keys && db.nextFrequencia <= r.nextFrequencia
  {
    if es == [] then db
    else
      var cur := LoteComoEscrito(db, sessaoId, es[..|es| - 1], clock);
      var e := es[|es| - 1];
      match BuscarFrequencia(db, e.alunoId, sessaoId)
      case Some(k) => AtualizarEm(cur, k, MarcaDe(e), clock)
      case None => Inserir(cur, e.alunoId, sessaoId, MarcaDe(e), clock)
  }

  /** As written, two entries for a student with no record for the session
      are both inserted, since both look up the pre-batch store. */
  lemma LoteComoEscritoDuasInsercoes(db: Db, sessaoId: Id, e: Entrada, clock: Clock)
    requires Wf(db)
    requires FrequenciasDe(db.frequencias, e.alunoId, sessaoId) == {}
    ensures var r1 := Inserir(db, e.alunoId, sessaoId, MarcaDe(e), clock);
      LoteComoEscrito(db, sessaoId, [e, e], clock) == Inserir(r1, e.alunoId, sessaoId, MarcaDe(e), clock)
  {
    assert BuscarFrequencia(db, e.alunoId, sessaoId).None?;
    assert LoteComoEscrito(db, sessaoId, [e], clock) == Inserir(db, e.alunoId, sessaoId, MarcaDe(e), clock) by {
      assert [e][..0] == [];
    }
    assert [e, e][..1] == [e];
  }

  /** The as-written batch breaks upsert uniqueness: two entries for a student
      with no record for the session leave two records for the pair. */
  lemma LoteComoEscritoDuplica(db: Db, sessaoId: Id, e: Entrada, clock: Clock)
    requires Wf(db)
    requires FrequenciasDe(db.frequencias, e.alunoId, sessaoId) == {}
    ensures var r := LoteComoEscrito(db, sessaoId, [e, e], clock);
      && |FrequenciasDe(r.frequencias, e.alunoId, sessaoId)| == 2
      && !FrequenciaUnica(r.frequencias)
  {
    var n := db.nextFrequencia;
    var m := MarcaDe(e);
    var r1 := Inserir(db, e.alunoId, sessaoId, m, clock);
    var r := Inserir(r1, e.alunoId, sessaoId, m, clock);
    LoteComoEscritoDuasInsercoes(db, sessaoId, e, clock);
    var f := Frequencia(e.alunoId, sessaoId, m.presente, m.justificado, m.observacao, clock.utc);
    FrequenciasDeInsere(db.frequencias, n, f, e.alunoId, sessaoId);
    FrequenciasDeInsere(r1.frequencias, n + 1, f, e.alunoId, sessaoId);
    assert FrequenciasDe(r.frequencias, e.alunoId, sessaoId) == {n, n + 1};
    assert r.frequencias[n] == r.frequencias[n + 1];
  }

  ghost predicate AlunosDistintos(es: seq<Entrada>) {
    forall i, j :: 0 <= i < j < |es| ==> es[i].alunoId != es[j].alunoId
  }

  /** With distinct students the two readings of the batch agree: looking up
      the pre-batch store or the current one finds the same record. */
  lemma {:induction false} LoteConcorda(db: Db, sessaoId: Id, es: seq<Entrada>, clock: Clock)
    requires Wf(db)
    requires AlunosDistintos(es)
    ensures LoteComoEscrito(db, sessaoId, es, clock) == Lote(db, sessaoId, es, clock)
  {
    if es != [] {
      var e := es[|es| - 1];
      var es' := es[..|es| - 1];
      LoteConcorda(db, sessaoId, es', clock);
      var cur := Lote(db, sessaoId, es', clock);
      assert UltimaEntrada(es', e.alunoId).None? by {
        forall i | 0 <= i < |es'| ensures es'[i].alunoId != e.alunoId {
          assert es'[i] == es[i];
        }
      }
      LotePreservaOutros(db, sessaoId, es', clock, e.alunoId, sessaoId);
      var ks := FrequenciasDe(db.frequencias, e.alunoId, sessaoId);
      assert FrequenciasDe(cur.frequencias, e.alunoId, sessaoId) == ks;
      FirstStable(ks, db.nextFrequencia, cur.nextFrequencia);
      assert BuscarFrequencia(cur, e.alunoId, sessaoId) == BuscarFrequencia(db, e.alunoId, sessaoId);
    }
  }
}
