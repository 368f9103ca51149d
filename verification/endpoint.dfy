/** The whole of register.php as one request/response step: open the
    connection, then dispatch on the request method to registration, the
    input-click echo, or a refusal. */
module Endpoint {
  import opened PhpText
  import opened Calendar
  import opened Validation
  import opened UserStore
  import opened Registration

  /** One HTTP request: its method (`verb`), the query parameters (`$_GET`) and the
      form fields (`$_POST`). */
  datatype Request = Request(verb: Bytes, query: map<Bytes, Bytes>, form: Form)

  const ConnectionFailedPrefix: Bytes := "Connection failed: "
  const ClickedPrefix: Bytes := "Clicked on "

  /** The `input` query parameter, or "" when it is absent. */
  function InputParameter(query: map<Bytes, Bytes>): Bytes {
    if "input" in query then query["input"] else ""
  }

  /** A GET whose `action` parameter is present and is exactly "input_click". */
  predicate IsInputClick(req: Request) {
    req.verb == "GET" && "action" in req.query && req.query["action"] == "input_click"
  }

  /** register.php for one request against the table `store`. */
  function Handle(req: Request, store: Store, today: Date, db: Db): (out: Handled)
    ensures !db.connected ==> out.response == StoreUnavailable(ConnectionFailedPrefix + db.connectError)
    ensures db.connected && req.verb == "POST" ==> out == Register(store, req.form, today, db)
    ensures out.response.Clicked? <==> db.connected && IsInputClick(req)
    ensures out.response.Clicked? ==>
      && |out.response.message| >= |ClickedPrefix|
      && out.response.message[..|ClickedPrefix|] == ClickedPrefix
      && out.response.message[|ClickedPrefix|..] == InputParameter(req.query)
    ensures out.response == MethodNotAllowed <==> db.connected && req.verb != "POST" && !IsInputClick(req)
    ensures out.store != store ==>
      req.verb == "POST" && out.response == Registered && out.store == store + [NewRecord(req.form)]
  {
    if !db.connected then
      Handled(StoreUnavailable(ConnectionFailedPrefix + db.connectError), store)
    else if req.verb == "POST" then
      Register(store, req.form, today, db)
    else if IsInputClick(req) then
      Handled(Clicked(ClickedPrefix + InputParameter(req.query)), store)
    else
      Handled(MethodNotAllowed, store)
  }

  /** The HTTP status each answer is sent with. */
  function StatusCode(r: Response): int {
    match r
    case Registered => 200
    case Clicked(_) => 200
    case ValidationFailed(_) => 400
    case DuplicateFound(_) => 400
    case StoreUnavailable(_) => 500
    case QueryFailed => 500
    case StoreWriteFailed => 500
    case MethodNotAllowed => 405
  }

  /** The `success` member of each JSON body. */
  predicate SuccessFlag(r: Response) {
    r.Registered? || r.Clicked?
  }

  /** Whatever the request and the database do, the answer is sent with 200
      exactly when its `success` flag is true, and the table changes only
      on a 200 answer to a POST. */
  lemma StatusAgreesWithBody(req: Request, store: Store, today: Date, db: Db)
    ensures var out := Handle(req, store, today, db);
      && (StatusCode(out.response) == 200 <==> SuccessFlag(out.response))
      && (out.store != store ==> StatusCode(out.response) == 200 && req.verb == "POST")
  {
  }

  /** Clicking on the birthdate field is acknowledged with "Clicked on birthdate". */
  lemma ClickOnBirthdate(store: Store, today: Date, db: Db, form: Form)
    requires db.connected
    ensures var req := Request("GET", map["action" := "input_click", "input" := "birthdate"], form);
      Handle(req, store, today, db) == Handled(Clicked("Clicked on birthdate"), store)
  {
    var req := Request("GET", map["action" := "input_click", "input" := "birthdate"], form);
    assert IsInputClick(req);
    assert InputParameter(req.query) == "birthdate";
  }
}
