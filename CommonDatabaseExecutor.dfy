/**
 * `CommonDatabaseExecutor` (com.powerup tree): opening a role-scoped SQL
 * session, and the save rule shared by every database service (insert what is
 * new, update what changed, leave alone what is equal).
 *
 * A session is an object with an `open` flag, the backend state `D` the
 * callbacks see through it, a ghost flag saying whether `getConnection` has
 * succeeded on it, and a ghost log of the SQL statements run on it. The
 * factory keeps a ghost log of the sessions it has opened.
 * What the database does (open, connect, execute) may fail at any point; the
 * model makes each of those a nondeterministic choice.
 */
module CommonDatabaseExecutor {
  import opened Wrappers
  import opened JavaUuid
  import opened ModelObjects
  import opened DatabaseOperationGroup

  /** ROLE_DEFINITION_SQL: the statement that sets the connection's role. */
  const RoleDefinitionSql: string := "SET ROLE "

  // ---------------------------------------------------------------------------
  // The role filter and the role statement

  /** The characters `[a-zA-Z\d]` matches (Java's `\d` is ASCII digits unless asked otherwise). */
  predicate IsRoleCharacter(c: char)
  {
    'a' <= c <= 'z' || 'A' <= c <= 'Z' || '0' <= c <= '9'
  }

  /** `role.replaceAll("[^a-zA-Z\\d]", "")`: the role less every other character. */
  function FilterRole(s: string): (r: string)
    ensures |r| <= |s|
    ensures forall i :: 0 <= i < |r| ==> IsRoleCharacter(r[i])
  {
    if s == [] then [] else (if IsRoleCharacter(s[0]) then [s[0]] else []) + FilterRole(s[1..])
  }

  /** `StringUtils.isNotEmpty(role)`: not null and not the empty string. */
  predicate IsNotEmpty(role: Option<string>)
  {
    role.Some? && |role.value| > 0
  }

  /**
   * The statements `getOpenSqlSession` runs: one `SET ROLE` with the filtered
   * role when the raw role is non-empty, none otherwise.
   */
  function RoleStatements(role: Option<string>): (r: seq<string>)
    ensures |r| <= 1
    ensures r != [] <==> IsNotEmpty(role)
  {
    if IsNotEmpty(role) then [RoleDefinitionSql + FilterRole(role.value)] else []
  }

  /** Filtering two texts one after the other is filtering each in turn. */
  lemma {:induction false} FilterRoleAppend(a: string, b: string)
    ensures FilterRole(a + b) == FilterRole(a) + FilterRole(b)
    decreases |a|
  {
    if a == [] {
      assert a + b == b;
    } else {
      var ab := a + b;
      assert ab[0] == a[0] && ab[1..] == a[1..] + b;
      FilterRoleAppend(a[1..], b);
      var h := if IsRoleCharacter(a[0]) then [a[0]] else [];
      assert h + (FilterRole(a[1..]) + FilterRole(b)) == (h + FilterRole(a[1..])) + FilterRole(b);
    }
  }

  /** A role made of letters and digits only is left as it is. */
  lemma {:induction false} FilterRoleKeepsRoleCharacters(s: string)
    requires forall i :: 0 <= i < |s| ==> IsRoleCharacter(s[i])
    ensures FilterRole(s) == s
    decreases |s|
  {
    if s != [] {
      FilterRoleKeepsRoleCharacters(s[1..]);
      assert [s[0]] + s[1..] == s;
    }
  }

  /** Filtering twice is filtering once. */
  lemma FilterRoleIdempotent(s: string)
    ensures FilterRole(FilterRole(s)) == FilterRole(s)
  {
    FilterRoleKeepsRoleCharacters(FilterRole(s));
  }

  /**
   * Every letter and digit of the role is kept as often as it occurs, and every
   * other character is dropped; with `FilterRoleAppend` this says the letters
   * and digits stay in their original order.
   */
  lemma {:induction false} FilterRoleCounts(s: string, c: char)
    ensures multiset(FilterRole(s))[c] == if IsRoleCharacter(c) then multiset(s)[c] else 0
    decreases |s|
  {
    if s != [] {
      FilterRoleCounts(s[1..], c);
      assert s == [s[0]] + s[1..];
      assert multiset(s) == multiset([s[0]]) + multiset(s[1..]);
      var h := if IsRoleCharacter(s[0]) then [s[0]] else [];
      assert multiset(FilterRole(s)) == multiset(h) + multiset(FilterRole(s[1..]));
    }
  }

  /** Filtering a text one character at a time, from the front. */
  lemma FilterRoleCons(c: char, s: string)
    ensures FilterRole([c] + s) == (if IsRoleCharacter(c) then [c] else []) + FilterRole(s)
  {
    assert ([c] + s)[1..] == s;
  }

  /** The special characters around the digit of the executor's special-character test are dropped. */
  lemma FilterRoleExampleTail()
    ensures FilterRole("$%2&*") == "2"
  {
    FilterRoleCons('*', "");
    FilterRoleCons('&', "*");
    FilterRoleCons('2', "&*");
    FilterRoleCons('%', "2&*");
    FilterRoleCons('$', "%2&*");
  }

  /** The role of the executor's special-character test loses everything but its letters and digit. */
  lemma FilterRoleExample()
    ensures FilterRole("Role$%2&*") == "Role2"
  {
    FilterRoleExampleTail();
    FilterRoleCons('e', "$%2&*");
    FilterRoleCons('l', "e$%2&*");
    FilterRoleCons('o', "le$%2&*");
    FilterRoleCons('R', "ole$%2&*");
  }

  /** The role of the executor's nominal test, no role, an empty role, and a punctuation-only role. */
  lemma RoleStatementExamples()
    ensures RoleStatements(Some("Role")) == ["SET ROLE Role"]
    ensures RoleStatements(None) == [] && RoleStatements(Some("")) == []
    ensures RoleStatements(Some("$%")) == ["SET ROLE "]
  {
    FilterRoleKeepsRoleCharacters("Role");
    assert RoleDefinitionSql + "Role" == "SET ROLE Role";
    assert FilterRole("$%") == [];
    assert RoleDefinitionSql + [] == "SET ROLE ";
  }

  // ---------------------------------------------------------------------------
  // Sessions

  /** The exceptions `getOpenSqlSession` can end in. */
  datatype SessionError =
    | PersistenceException   // MyBatis' own unchecked failure, passed on as it is
    | SqlSessionException    // a SQLException from the role statement, wrapped

  /**
   * An SQL session: open until closed, the backend state behind it, whether a
   * connection has been obtained from it, and the statements it ran.
   */
  class SqlSession<D> {
    var open: bool
    var data: D
    ghost var connected: bool
    ghost var statements: seq<string>

    constructor (d: D)
      ensures open && data == d && !connected && statements == []
    {
      open := true;
      data := d;
      connected := false;
      statements := [];
    }

    /** `close()`. */
    method Close()
      modifies this
      ensures !open && data == old(data) && connected == old(connected) && statements == old(statements)
    {
      open := false;
    }

    /** `getConnection()`: the session's connection, or MyBatis' unchecked exception. */
    method GetConnection() returns (r: Result<(), SessionError>)
      modifies this
      ensures r.Failure? ==> r.error == PersistenceException
      ensures connected == (old(connected) || r.Success?)
      ensures open == old(open) && data == old(data) && statements == old(statements)
    {
      var fails: bool :| true;
      r := if fails then Failure(PersistenceException) else Success(());
      connected := connected || r.Success?;
    }

    /**
     * `createStatement()`, `execute(sql)` and closing the statement: on success
     * the statement has run; any step may throw a SQLException instead, before
     * or after the statement ran.
     */
    method ExecuteStatement(sql: string) returns (ok: bool)
      modifies this
      ensures open == old(open) && data == old(data) && connected == old(connected)
      ensures statements == old(statements) + [sql] || (!ok && statements == old(statements))
    {
      var reached: bool :| true;
      if reached {
        statements := statements + [sql];
      }
      var fails: bool :| true;
      ok := reached && !fails;
    }
  }

  /**
   * The session factory: every session it opens is new, open, not yet
   * connected and sees the backend, and is added to the log `sessions`.
   */
  class SqlSessionFactory<D> {
    const backend: D
    ghost var sessions: seq<SqlSession<D>>

    constructor (d: D)
      ensures backend == d && sessions == []
    {
      backend := d;
      sessions := [];
    }

    /** `openSession()`: a fresh open session, or MyBatis' unchecked exception. */
    method OpenSession() returns (r: Result<SqlSession<D>, SessionError>)
      modifies this
      ensures r.Success? ==> fresh(r.value) && r.value.open && !r.value.connected && r.value.statements == [] && r.value.data == backend
      ensures r.Success? ==> sessions == old(sessions) + [r.value]
      ensures r.Failure? ==> r.error == PersistenceException && sessions == old(sessions)
    {
      var fails: bool :| true;
      if fails {
        r := Failure(PersistenceException);
      } else {
        var session := new SqlSession(backend);
        sessions := sessions + [session];
        r := Success(session);
      }
    }
  }

  // ---------------------------------------------------------------------------
  // The save rule

  /** One callback invocation, as a call log records it. */
  datatype Call<V> =
    | Retrieve(id: Uuid)
    | Store(modelObject: ModelObject<V>)
    | Update(updated: ModelObject<V>, existing: ModelObject<V>)
    | CascadeUpdate(updated: ModelObject<V>, existing: ModelObject<V>)

  predicate IsWrite<V>(c: Call<V>)
  {
    c.Store? || c.Update? || c.CascadeUpdate?
  }

  /** The whole effect of one save: its outcome, the callbacks it made in order, and the backend state after. */
  datatype SaveRun<V, D> = SaveRun(outcome: Result<bool, DatastoreError>, calls: seq<Call<V>>, state: D)

  /** A write that returned normally makes the save return true; one that threw passes its exception on. */
  function Completed(outcome: Result<(), DatastoreError>): (r: Result<bool, DatastoreError>)
    ensures r.Success? <==> outcome.Success?
    ensures r.Success? ==> r.value
    ensures r.Failure? ==> r.error == outcome.error
  {
    if outcome.Success? then Success(true) else Failure(outcome.error)
  }

  /**
   * What `saveObject` does, as a function of the candidate, the callbacks and the
   * backend state: a null candidate returns false and calls nothing; otherwise
   * retrieve by the candidate's id, then store if nothing is there, update if
   * what is there differs, and do nothing if it is equal. A callback that is
   * absent (null) when needed throws a NullPointerException.
   */
  function SaveSpec<V(==), D>(candidate: Option<ModelObject<V>>, group: DatabaseOperationGroup<V, D>, d: D): SaveRun<V, D>
  {
    match candidate
    case None => SaveRun(Success(false), [], d)
    case Some(m) =>
      match group.retrieveFunction
      case None => SaveRun(Failure(NullPointerException), [], d)
      case Some(retrieve) =>
        match retrieve(m.id, d)
        case Failure(e) => SaveRun(Failure(e), [Retrieve(m.id)], d)
        case Success(None) =>
          (match group.storeFunction
           case None => SaveRun(Failure(NullPointerException), [Retrieve(m.id)], d)
           case Some(store) =>
             var reply := store(m, d);
             SaveRun(Completed(reply.outcome), [Retrieve(m.id), Store(m)], reply.state))
        case Success(Some(existing)) =>
          if m == existing then SaveRun(Success(true), [Retrieve(m.id)], d)
          else
            match group.updateFunction
            case None => SaveRun(Failure(NullPointerException), [Retrieve(m.id)], d)
            case Some(update) =>
              var reply := update(m, existing, d);
              SaveRun(Completed(reply.outcome), [Retrieve(m.id), Update(m, existing)], reply.state)
  }

  /** A null candidate: the result is false, no callback is made and nothing changes. */
  lemma SaveNullCandidate<V, D>(group: DatabaseOperationGroup<V, D>, d: D)
    ensures SaveSpec(None, group, d) == SaveRun(Success(false), [], d)
  {
  }

  /** For a candidate, the first callback is always retrieve, by the candidate's id. */
  lemma SaveRetrievesFirst<V, D>(m: ModelObject<V>, group: DatabaseOperationGroup<V, D>, d: D)
    requires group.retrieveFunction.Some?
    ensures var run := SaveSpec(Some(m), group, d); run.calls != [] && run.calls[0] == Retrieve(m.id)
    ensures forall i :: 1 <= i < |SaveSpec(Some(m), group, d).calls| ==> IsWrite(SaveSpec(Some(m), group, d).calls[i])
  {
  }

  /** Nothing under the id: store is called once with the candidate, update never, and a normal return gives true. */
  lemma SaveStoresWhenAbsent<V, D>(m: ModelObject<V>, group: DatabaseOperationGroup<V, D>, d: D)
    requires group.retrieveFunction.Some? && group.retrieveFunction.value(m.id, d) == Success(None)
    requires group.storeFunction.Some?
    ensures var reply := group.storeFunction.value(m, d);
      SaveSpec(Some(m), group, d) == SaveRun(Completed(reply.outcome), [Retrieve(m.id), Store(m)], reply.state)
  {
  }

  /** An equal object under the id: nothing is written, nothing changes, and the result is still true. */
  lemma SaveWritesNothingWhenEqual<V, D>(m: ModelObject<V>, group: DatabaseOperationGroup<V, D>, d: D)
    requires group.retrieveFunction.Some? && group.retrieveFunction.value(m.id, d) == Success(Some(m))
    ensures SaveSpec(Some(m), group, d) == SaveRun(Success(true), [Retrieve(m.id)], d)
  {
  }

  /** A different object under the id: update is called once with the candidate and the existing object, store never. */
  lemma SaveUpdatesWhenDifferent<V, D>(m: ModelObject<V>, existing: ModelObject<V>, group: DatabaseOperationGroup<V, D>, d: D)
    requires group.retrieveFunction.Some? && group.retrieveFunction.value(m.id, d) == Success(Some(existing))
    requires existing != m && group.updateFunction.Some?
    ensures var reply := group.updateFunction.value(m, existing, d);
      SaveSpec(Some(m), group, d) == SaveRun(Completed(reply.outcome), [Retrieve(m.id), Update(m, existing)], reply.state)
  {
  }

  /**
   * The save never uses the cascade update callback: replacing it (or leaving
   * it out) changes nothing, and no cascade call is ever logged.
   */
  lemma SaveNeverCascades<V, D>(
    candidate: Option<ModelObject<V>>, group: DatabaseOperationGroup<V, D>, d: D,
    cascade: Option<CascadeUpdateFunction<V, D>>)
    ensures SaveSpec(candidate, group.(cascadeUpdateFunction := cascade), d) == SaveSpec(candidate, group, d)
    ensures forall i :: 0 <= i < |SaveSpec(candidate, group, d).calls| ==> !SaveSpec(candidate, group, d).calls[i].CascadeUpdate?
  {
  }

  /**
   * At most one write per save; without a write the backend is untouched; and a
   * save that returns normally returns true exactly when there was a candidate.
   */
  lemma SaveWritesAtMostOnce<V, D>(candidate: Option<ModelObject<V>>, group: DatabaseOperationGroup<V, D>, d: D)
    ensures var run := SaveSpec(candidate, group, d);
      |run.calls| <= 2 && (forall i :: 0 <= i < |run.calls| && IsWrite(run.calls[i]) ==> i == 1)
    ensures var run := SaveSpec(candidate, group, d);
      (forall i :: 0 <= i < |run.calls| ==> !IsWrite(run.calls[i])) ==> run.state == d
    ensures var run := SaveSpec(candidate, group, d);
      run.outcome.Success? ==> (run.outcome.value <==> candidate.Some?)
  {
    var run := SaveSpec(candidate, group, d);
    if |run.calls| == 2 {
      assert IsWrite(run.calls[1]);
    }
  }

  /**
   * Saving an object right after storing it writes nothing, provided the store
   * returned normally and the backend then hands the stored object back.
   */
  lemma SaveAfterStoreWritesNothing<V, D>(m: ModelObject<V>, group: DatabaseOperationGroup<V, D>, d: D)
    requires group.retrieveFunction.Some? && group.retrieveFunction.value(m.id, d) == Success(None)
    requires group.storeFunction.Some? && group.storeFunction.value(m, d).outcome.Success?
    requires group.retrieveFunction.value(m.id, group.storeFunction.value(m, d).state) == Success(Some(m))
    ensures var first := SaveSpec(Some(m), group, d);
      first.outcome == Success(true) && first.calls == [Retrieve(m.id), Store(m)]
    ensures var first := SaveSpec(Some(m), group, d);
      SaveSpec(Some(m), group, first.state) == SaveRun(Success(true), [Retrieve(m.id)], first.state)
  {
    SaveStoresWhenAbsent(m, group, d);
    SaveWritesNothingWhenEqual(m, group, group.storeFunction.value(m, d).state);
  }

  // ---------------------------------------------------------------------------
  // The executor

  class CommonDatabaseExecutor<D> {
    const sqlSessionFactory: SqlSessionFactory<D>

    constructor (factory: SqlSessionFactory<D>)
      ensures sqlSessionFactory == factory
    {
      sqlSessionFactory := factory;
    }

    /**
     * `getOpenSqlSession(role)`. At most one session is opened, and `issued` is
     * the one the factory's log gained. On success it is the session returned:
     * new, open, connected, on the backend, and it has run exactly the role
     * statement (if any). On failure the session opened, if it got that far, is
     * closed before the exception is passed on. A failure before a connection
     * was obtained is MyBatis' PersistenceException, passed on unwrapped; a
     * failure after it can only come from the role statement's SQLException,
     * wrapped as SqlSessionException.
     */
    method GetOpenSqlSession(role: Option<string>) returns (r: Result<SqlSession<D>, SessionError>, ghost issued: Option<SqlSession<D>>)
      modifies sqlSessionFactory
      ensures sqlSessionFactory.sessions == old(sqlSessionFactory.sessions) + (if issued.Some? then [issued.value] else [])
      ensures issued.Some? ==> fresh(issued.value) && issued.value.data == sqlSessionFactory.backend
      ensures r.Success? ==> issued == Some(r.value) && r.value.open && r.value.connected
      ensures r.Success? ==> r.value.statements == RoleStatements(role)
      ensures r.Failure? && issued.Some? ==> !issued.value.open
      ensures r.Failure? && issued.Some? ==> issued.value.statements == [] || issued.value.statements == RoleStatements(role)
      ensures r.Failure? && issued.Some? ==> (r.error == SqlSessionException <==> issued.value.connected)
      ensures r.Failure? && issued.None? ==> r.error == PersistenceException
      ensures r.Failure? && r.error == SqlSessionException ==> IsNotEmpty(role)
    {
      var sqlSession: Option<SqlSession<D>> := None;
      var validSession := false;
      var outcome: Result<SqlSession<D>, SessionError>;
      // try
      var opening := sqlSessionFactory.OpenSession();
      if opening.Failure? {
        outcome := Failure(opening.error);
      } else {
        var session := opening.value;
        sqlSession := Some(session);
        var connection := session.GetConnection();
        if connection.Failure? {
          outcome := Failure(connection.error);
        } else {
          var ok := true;
          if IsNotEmpty(role) {
            ok := session.ExecuteStatement(RoleDefinitionSql + FilterRole(role.value));
          }
          if ok {
            validSession := true;
            outcome := Success(session);
          } else {
            // catch (SQLException e): throw new SqlSessionException(e)
            outcome := Failure(SqlSessionException);
          }
        }
      }
      // finally
      if !validSession && sqlSession.Some? {
        sqlSession.value.Close();
      }
      r := outcome;
      issued := sqlSession;
    }

    /**
     * `saveObject`: exactly what `SaveSpec` says, carried out on the session's
     * backend state, with the callbacks it made recorded in `calls`. The session
     * itself (open or closed, statements run) is left as it was.
     */
    method SaveObject<V(==)>(parameters: ModelObjectParameterGroup<V>, group: DatabaseOperationGroup<V, D>, session: SqlSession<D>)
      returns (result: Result<bool, DatastoreError>, ghost calls: seq<Call<V>>)
      modifies session
      ensures SaveSpec(parameters.modelObject, group, old(session.data)) == SaveRun(result, calls, session.data)
      ensures session.open == old(session.open) && session.connected == old(session.connected)
      ensures session.statements == old(session.statements)
    {
      var saved := true;
      calls := [];
      if parameters.modelObject.None? {
        saved := false;
      } else {
        var candidate := parameters.modelObject.value;
        if group.retrieveFunction.None? {
          result := Failure(NullPointerException);
          return;
        }
        var retrieved := group.retrieveFunction.value(candidate.id, session.data);
        calls := calls + [Retrieve(candidate.id)];
        if retrieved.Failure? {
          result := Failure(retrieved.error);
          return;
        }
        var existing := retrieved.value;
        if existing.None? {
          if group.storeFunction.None? {
            result := Failure(NullPointerException);
            return;
          }
          var reply := group.storeFunction.value(candidate, session.data);
          calls := calls + [Store(candidate)];
          session.data := reply.state;
          if reply.outcome.Failure? {
            result := Failure(reply.outcome.error);
            return;
          }
        } else if candidate != existing.value {
          if group.updateFunction.None? {
            result := Failure(NullPointerException);
            return;
          }
          var reply := group.updateFunction.value(candidate, existing.value, session.data);
          calls := calls + [Update(candidate, existing.value)];
          session.data := reply.state;
          if reply.outcome.Failure? {
            result := Failure(reply.outcome.error);
            return;
          }
        }
      }
      result := Success(saved);
    }
  }
}
