/** Sessions: the explicit creation path, and the find-or-create of the day's
    session that individual attendance marking uses. */
module Sessions {
  import opened Domain
  import opened Ordering
  import opened Queries

  /** The fields of a SessaoCreate request; `data` is optional. */
  datatype NovaSessao = NovaSessao(turmaId: Id, disciplinaId: Id, descricao: Option<string>, data: Option<int>)

  /** criar_sessao: always inserts a new session, stamped with the given
      timestamp or else the current local time. Neither the class nor the
      subject is looked up, and no same-day session is searched for. */
  function CriarSessao(db: Db, s: NovaSessao, clock: Clock): (r: (Db, Id))
    requires Wf(db)
    ensures r.1 !in db.sessoes
    ensures r.0.sessoes == db.sessoes[r.1 := Sessao(s.data.GetOr(clock.local), s.turmaId, s.disciplinaId, s.descricao)]
    ensures r.0 == db.(sessoes := r.0.sessoes, nextSessao := r.0.nextSessao)
    ensures Wf(r.0)
  {
    var id := db.nextSessao;
    (db.(sessoes := db.sessoes[id := Sessao(s.data.GetOr(clock.local), s.turmaId, s.disciplinaId, s.descricao)],
         nextSessao := id + 1),
     id)
  }

  lemma CriarSessaoPreserva(db: Db, s: NovaSessao, clock: Clock)
    requires Valid(db)
    ensures Valid(CriarSessao(db, s, clock).0)
  {
  }

  /** The explicit path does not deduplicate: two calls with the same
      request on the same clock yield two distinct sessions. */
  lemma CriarSessaoNaoDeduplica(db: Db, s: NovaSessao, clock: Clock)
    requires Wf(db)
    ensures var (db1, id1) := CriarSessao(db, s, clock);
      var (db2, id2) := CriarSessao(db1, s, clock);
      && id1 != id2 && id1 in db2.sessoes && id2 in db2.sessoes
      && db2.sessoes[id1] == db2.sessoes[id2]
      && |db2.sessoes.Keys| == |db.sessoes.Keys| + 2
  {
  }

  /** The session of today (the day of the local clock) for a class and a
      subject: the first existing one, or else a new one stamped with the
      current local time and no description. */
  function AbrirSessaoDoDia(db: Db, turmaId: Id, disciplinaId: Id, clock: Clock): (r: (Db, Id))
    requires Wf(db)
    ensures Wf(r.0)
    ensures r.1 in r.0.sessoes
    ensures r.0.sessoes[r.1].turmaId == turmaId && r.0.sessoes[r.1].disciplinaId == disciplinaId
    ensures NoDia(r.0.sessoes[r.1].data, clock.local)
    ensures r.0 == db.(sessoes := r.0.sessoes, nextSessao := r.0.nextSessao)
    ensures SessoesDoDia(db, turmaId, disciplinaId, clock.local) != {} ==> r.0 == db
    ensures SessoesDoDia(db, turmaId, disciplinaId, clock.local) == {} ==>
      r.1 !in db.sessoes && r.0.sessoes == db.sessoes[r.1 := Sessao(clock.local, turmaId, disciplinaId, None)]
  {
    match SessaoDoDia(db, turmaId, disciplinaId, clock.local)
    case Some(s) => (db, s)
    case None =>
      var id := db.nextSessao;
      (db.(sessoes := db.sessoes[id := Sessao(clock.local, turmaId, disciplinaId, None)], nextSessao := id + 1), id)
  }

  /** The two outcomes of the find-or-create, case by case. */
  lemma AbrirSessaoDoDiaCasos(db: Db, turmaId: Id, disciplinaId: Id, clock: Clock)
    requires Wf(db)
    ensures var hoje := SessaoDoDia(db, turmaId, disciplinaId, clock.local);
      && (hoje.Some? ==> AbrirSessaoDoDia(db, turmaId, disciplinaId, clock) == (db, hoje.value))
      && (hoje.None? ==>
            AbrirSessaoDoDia(db, turmaId, disciplinaId, clock) ==
            (db.(sessoes := db.sessoes[db.nextSessao := Sessao(clock.local, turmaId, disciplinaId, None)],
                 nextSessao := db.nextSessao + 1), db.nextSessao))
  {
  }

  /** Once the day's session is open, looking again on the same day for the
      same class and subject finds that same session and creates none. */
  lemma {:induction false} AbrirSessaoDoDiaEstavel(db: Db, turmaId: Id, disciplinaId: Id, c1: Clock, c2: Clock)
    requires Wf(db)
    requires Dia(c1.local) == Dia(c2.local)
    ensures var (db1, s1) := AbrirSessaoDoDia(db, turmaId, disciplinaId, c1);
      AbrirSessaoDoDia(db1, turmaId, disciplinaId, c2) == (db1, s1)
  {
    var (db1, s1) := AbrirSessaoDoDia(db, turmaId, disciplinaId, c1);
    var dia1 := SessoesDoDia(db1, turmaId, disciplinaId, c1.local);
    assert SessoesDoDia(db1, turmaId, disciplinaId, c2.local) == dia1 by {
      forall k | k in db1.sessoes ensures NoDia(db1.sessoes[k].data, c1.local) == NoDia(db1.sessoes[k].data, c2.local) {
        NoDiaSeMesmoDia(db1.sessoes[k].data, c1.local);
        NoDiaSeMesmoDia(db1.sessoes[k].data, c2.local);
      }
    }
    match SessaoDoDia(db, turmaId, disciplinaId, c1.local)
    case Some(s) =>
      assert db1 == db;
    case None =>
      assert SessoesDoDia(db, turmaId, disciplinaId, c1.local) == {};
      forall x | x in dia1 && 0 <= x < db1.nextSessao ensures x == s1 {
        assert x == s1 || x in SessoesDoDia(db, turmaId, disciplinaId, c1.local);
      }
      assert s1 in dia1;
      FirstOfSingleton(dia1, s1, db1.nextSessao);
  }

  lemma AbrirSessaoDoDiaPreserva(db: Db, turmaId: Id, disciplinaId: Id, clock: Clock)
    requires Valid(db)
    ensures Valid(AbrirSessaoDoDia(db, turmaId, disciplinaId, clock).0)
  {
  }
}
