/** The POST branch of register.php: validate the form, look the email and
    username up in `infos`, and either report the duplicates or insert the
    new account with its password hashed. */
module Registration {
  import opened PhpText
  import opened Calendar
  import opened Validation
  import opened UserStore

  /** Every answer the endpoint gives. The comment after each names the HTTP
      status it is sent with. `Register` gives only the first five; the
      connection failure, the echo and the refusal come from `Endpoint.Handle`. */
  datatype Response =
    | Registered                        // 200, "Registration successful."
    | ValidationFailed(errors: Errors)  // 400, the rule failures
    | DuplicateFound(errors: Errors)    // 400, the email/username clashes
    | StoreUnavailable(reason: Bytes)   // 500, "Connection failed: " and the driver's reason
    | QueryFailed                       // 500, "Database query error."
    | StoreWriteFailed                  // 500, "Failed to register."
    | Clicked(message: Bytes)           // 200, the echo of an input click
    | MethodNotAllowed                  // 405

  /** How the database behaves during one request, with mysqli reporting
      errors by return value rather than by exception: whether the connection
      opens (and the driver's error text if not), whether the lookup prepares
      and executes, and whether the insert prepares and executes. */
  datatype Db = Db(
    connected: bool,
    connectError: Bytes,
    checkPrepares: bool,
    checkExecutes: bool,
    insertPrepares: bool,
    insertExecutes: bool)

  /** The answer together with the table as it stands afterwards. */
  datatype Handled = Handled(response: Response, store: Store)

  const EmailTaken := "Email is already registered."
  const UsernameTaken := "Username is already taken."

  /** The second error map, built from one row the lookup returned: a key for
      each of the two fields that row shares with the request. */
  function DuplicateErrors(row: UserRecord, email: Bytes, username: Bytes): (errors: Errors)
    ensures Email in errors <==> row.email == email
    ensures Username in errors <==> row.username == username
    ensures Email in errors ==> errors[Email] == EmailTaken
    ensures Username in errors ==> errors[Username] == UsernameTaken
    ensures errors.Keys <= {Email, Username}
  {
    var byEmail: Errors := if row.email == email then map[Email := EmailTaken] else map[];
    if row.username == username then byEmail[Username := UsernameTaken] else byEmail
  }

  /** The duplicate report of the lookup: nothing when no row holds the
      email or the username, otherwise the clashes with the first row the
      query returns. It is never empty when some row clashes. */
  function LookupDuplicates(store: Store, email: Bytes, username: Bytes): (errors: Errors)
    ensures errors == map[] <==> !Taken(store, email, username)
    ensures errors.Keys <= {Email, Username}
    ensures Taken(store, email, username) ==>
      var first := store[FirstConflict(store, email, username)];
      && (Email in errors <==> first.email == email)
      && (Username in errors <==> first.username == username)
    ensures Email in errors ==> errors[Email] == EmailTaken
    ensures Username in errors ==> errors[Username] == UsernameTaken
  {
    var rows := Select(store, email, username);
    if rows == [] then map[]
    else
      assert rows[0] in rows;
      FirstRowIsFirstConflict(store, email, username, FirstConflict(store, email, username));
      var errors := DuplicateErrors(rows[0], email, username);
      assert Email in errors || Username in errors;
      errors
  }

  /** The row the insert writes: the trimmed names, username and email, the
      hash of the password, and the birthdate text as submitted. */
  function NewRecord(f: Form): UserRecord {
    UserRecord(Trim(f.firstName), Trim(f.lastName), Trim(f.username), Trim(f.email),
      PasswordHash(f.password), f.birthdate)
  }

  /** The lookup lets the request through to the insert: either it failed to
      execute, so `num_rows` reads as null and no row is examined, or no row
      holds the email or the username. */
  predicate LookupPasses(store: Store, f: Form, db: Db) {
    !db.checkExecutes || !Taken(store, Trim(f.email), Trim(f.username))
  }

  /** The POST branch of register.php over an open connection. */
  function Register(store: Store, f: Form, today: Date, db: Db): (out: Handled)
    ensures out.store == store || (out.response == Registered && out.store == store + [NewRecord(f)])
    ensures out.response.ValidationFailed? <==> !Acceptable(f, today)
    ensures out.response.ValidationFailed? ==> out.response.errors == Validate(f, today)
    ensures out.response.DuplicateFound? <==>
      Acceptable(f, today) && db.checkPrepares && db.checkExecutes && Taken(store, Trim(f.email), Trim(f.username))
    ensures out.response.DuplicateFound? ==>
      out.response.errors == LookupDuplicates(store, Trim(f.email), Trim(f.username))
    ensures out.response == QueryFailed <==>
      Acceptable(f, today) && (!db.checkPrepares || (LookupPasses(store, f, db) && !db.insertPrepares))
    ensures out.response == StoreWriteFailed <==>
      Acceptable(f, today) && db.checkPrepares && LookupPasses(store, f, db) && db.insertPrepares && !db.insertExecutes
    ensures out.response == Registered <==>
      Acceptable(f, today) && db.checkPrepares && LookupPasses(store, f, db) && db.insertPrepares && db.insertExecutes
    ensures out.response == Registered ==> out.store == store + [NewRecord(f)]
  {
    ValidExactlyWhenAcceptable(f, today);
    var errors := Validate(f, today);
    if errors != map[] then Handled(ValidationFailed(errors), store)
    else if !db.checkPrepares then Handled(QueryFailed, store)
    else
      var email := Trim(f.email);
      var username := Trim(f.username);
      var duplicates := if db.checkExecutes then LookupDuplicates(store, email, username) else map[];
      if duplicates != map[] then Handled(DuplicateFound(duplicates), store)
      else if !db.insertPrepares then Handled(QueryFailed, store)
      else if !db.insertExecutes then Handled(StoreWriteFailed, store)
      else Handled(Registered, store + [NewRecord(f)])
  }

  /** A duplicate report is decided by the first clashing row alone: it
      names the email exactly when that row holds the email, and the
      username exactly when that row holds the username. */
  lemma FirstClashDecidesReport(store: Store, f: Form, today: Date, db: Db, i: int)
    requires FirstConflictAt(store, Trim(f.email), Trim(f.username), i)
    requires Register(store, f, today, db).response.DuplicateFound?
    ensures var errors := Register(store, f, today, db).response.errors;
      && (Email in errors <==> store[i].email == Trim(f.email))
      && (Username in errors <==> store[i].username == Trim(f.username))
      && (Email in errors ==> errors[Email] == EmailTaken)
      && (Username in errors ==> errors[Username] == UsernameTaken)
  {
    var email, username := Trim(f.email), Trim(f.username);
    assert Taken(store, email, username);
    assert FirstConflict(store, email, username) == i;
  }

  /** When the first clashing row holds the email but not the username, the
      lookup reports the email alone. */
  lemma EmailOnlyReport(store: Store, email: Bytes, username: Bytes, i: int)
    requires FirstConflictAt(store, email, username, i) && store[i].username != username
    ensures LookupDuplicates(store, email, username) == map[Email := EmailTaken]
  {
    assert Taken(store, email, username);
    assert FirstConflict(store, email, username) == i;
    var errors := LookupDuplicates(store, email, username);
    assert errors.Keys == {Email};
  }

  /** Only the first clashing row is examined: when it shares just the email,
      the report names only the email, even if a later row holds the
      requested username. */
  lemma LaterUsernameClashUnreported(store: Store, f: Form, today: Date, db: Db, i: int, j: int)
    requires Acceptable(f, today) && db.checkPrepares && db.checkExecutes
    requires FirstConflictAt(store, Trim(f.email), Trim(f.username), i)
    requires store[i].username != Trim(f.username)
    requires i < j < |store| && store[j].username == Trim(f.username)
    ensures Register(store, f, today, db).response == DuplicateFound(map[Email := EmailTaken])
  {
    var email, username := Trim(f.email), Trim(f.username);
    assert Taken(store, email, username);
    EmailOnlyReport(store, email, username, i);
  }

  /** Every key of a duplicate report names a value some row really holds. */
  lemma ReportedClashesExist(store: Store, f: Form, today: Date, db: Db)
    requires Register(store, f, today, db).response.DuplicateFound?
    ensures var errors := Register(store, f, today, db).response.errors;
      && (Email in errors ==> exists r :: r in store && r.email == Trim(f.email))
      && (Username in errors ==> exists r :: r in store && r.username == Trim(f.username))
  {
    var email, username := Trim(f.email), Trim(f.username);
    var i := FirstConflict(store, email, username);
    FirstClashDecidesReport(store, f, today, db, i);
    assert store[i] in store;
  }

  /** A successful registration appends exactly one row, built from the
      submitted fields with the password hashed, and leaves every earlier row
      as it was. */
  lemma RegistrationAppendsOneRow(store: Store, f: Form, today: Date, db: Db)
    requires Register(store, f, today, db).response == Registered
    ensures var after := Register(store, f, today, db).store;
      && |after| == |store| + 1
      && after[..|store|] == store
      && after[|store|].firstName == Trim(f.firstName)
      && after[|store|].lastName == Trim(f.lastName)
      && after[|store|].email == Trim(f.email)
      && after[|store|].username == Trim(f.username)
      && after[|store|].password == PasswordHash(f.password)
      && after[|store|].birthdate == f.birthdate
  {
    var after := Register(store, f, today, db).store;
    assert after[..|store|] == store;
  }

  /** Registration keeps emails and usernames unique across the table
      whenever the lookup executes. */
  lemma RegisterPreservesUnique(store: Store, f: Form, today: Date, db: Db)
    requires Unique(store)
    ensures db.checkExecutes ==> Unique(Register(store, f, today, db).store)
  {
    var out := Register(store, f, today, db);
    if out.response == Registered && db.checkExecutes {
      AppendFreshKeepsUnique(store, NewRecord(f));
    }
  }

  /** When the lookup fails to execute, no row is examined: a valid request
      whose email is already taken is inserted anyway, and the table then
      holds that email twice. */
  lemma FailedLookupAdmitsDuplicate(store: Store, f: Form, today: Date, db: Db, r: UserRecord)
    requires Acceptable(f, today)
    requires db.checkPrepares && !db.checkExecutes && db.insertPrepares && db.insertExecutes
    requires r in store && r.email == Trim(f.email)
    ensures Register(store, f, today, db).response == Registered
    ensures !Unique(Register(store, f, today, db).store)
  {
    var after := Register(store, f, today, db).store;
    var k :| 0 <= k < |store| && store[k] == r;
    assert after[k] == r && after[|store|] == NewRecord(f);
  }

  /** A request whose email or username some row already holds is never
      registered when the lookup executes; it is a duplicate when it also
      validates and the lookup prepares. */
  lemma TakenValueNeverRegisters(store: Store, g: Form, today: Date, db: Db, r: UserRecord)
    requires r in store && (r.email == Trim(g.email) || r.username == Trim(g.username))
    ensures db.checkExecutes ==> Register(store, g, today, db).response != Registered
    ensures Acceptable(g, today) && db.checkPrepares && db.checkExecutes ==>
      Register(store, g, today, db).response.DuplicateFound?
  {
    var k :| 0 <= k < |store| && store[k] == r;
    assert Conflicts(store[k], Trim(g.email), Trim(g.username));
  }

  /** Once an account is registered, a later request with the same email or
      the same username is never registered while the lookup executes; if it
      also passes validation and the lookup prepares, it is reported as a
      duplicate. */
  lemma ResubmissionRejected(store: Store, f: Form, today: Date, db: Db, g: Form, later: Date, db2: Db)
    requires Register(store, f, today, db).response == Registered
    requires Trim(g.email) == Trim(f.email) || Trim(g.username) == Trim(f.username)
    ensures var after := Register(store, f, today, db).store;
      && (db2.checkExecutes ==> Register(after, g, later, db2).response != Registered)
      && (Acceptable(g, later) && db2.checkPrepares && db2.checkExecutes ==>
            Register(after, g, later, db2).response.DuplicateFound?)
  {
    var after := Register(store, f, today, db).store;
    assert after[|store|] in after;
    TakenValueNeverRegisters(after, g, later, db2, after[|store|]);
  }
}
