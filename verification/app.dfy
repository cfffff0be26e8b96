/**
 * The request handlers of app.py and the `try_db_operation` decorator that
 * wraps each of them.
 *
 * Every handler first makes its own checks, then chooses a branch on the
 * process-wide flag `use_local_storage`: the database branch (not modelled;
 * its outcome is the parameter `db`) or the fallback branch over
 * `local_storage` (module Store). The decorator runs the handler; when the
 * flag is clear and the run raises, it sets the flag for good and runs the
 * handler once more, now against the fallback store.
 */
module App {
  import opened Passwords
  import opened Store
  import opened Ranking

  /** A request as the handler reads it; a field missing from the JSON body is None. */
  datatype Request =
    | RegisterRequest(username: Option<string>, password: Option<string>, salt: string)
    | LoginRequest(username: Option<string>, password: Option<string>)
    | AddGameRequest(userId: Option<int>, zaidimas: Option<string>, pc: Option<string>, laimetojas: Option<string>)
    | HistoryRequest(owner: int)
    | ScoreboardRequest
    | HighscoreRequest(userId: Option<int>, score: Option<int>)

  /** Python truthiness of an optional string: present and non-empty. */
  predicate Truthy(v: Option<string>)
  {
    v.Some? && v.value != ""
  }

  /** The check a handler makes before it looks at the flag; only registration has one. */
  function Precheck(req: Request): Option<Response>
  {
    match req
    case RegisterRequest(username, password, _) =>
      if !Truthy(username) || !Truthy(password) then Some(Response(400, Error(FieldsRequired))) else None
    case _ => None
  }

  /** The fallback branch of each handler, run on the tables of `local_storage`. */
  function Local(t: Tables, req: Request): (Outcome, Tables)
    requires Precheck(req).None?
  {
    match req
    case RegisterRequest(username, password, salt) =>
      var (resp, t') := RegisterLocal(t, username.value, password.value, salt);
      (Returned(resp), t')
    case LoginRequest(username, password) =>
      (Login(t.users, username, password), t)
    case AddGameRequest(userId, zaidimas, pc, laimetojas) =>
      var (resp, t') := AddGameLocal(t, userId, zaidimas, pc, laimetojas);
      (Returned(resp), t')
    case HistoryRequest(userId) =>
      (Returned(Response(200, Records(HistoryOf(t.games, userId)))), t)
    case ScoreboardRequest =>
      (Returned(Response(200, Board(Scoreboard(t.users)))), t)
    case HighscoreRequest(userId, score) =>
      UpdateHighscoreLocal(t, userId, score)
  }

  /**
   * One run of a handler with the flag at `local`: the pre-check, then the branch
   * the flag selects. The database branch yields `db` and leaves the fallback
   * tables alone.
   */
  function Handler(local: bool, t: Tables, req: Request, db: Outcome): (Outcome, Tables)
  {
    match Precheck(req)
    case Some(resp) => (Returned(resp), t)
    case None => if local then Local(t, req) else (db, t)
  }

  /** The decorated handler: the flag afterwards, the outcome, the tables afterwards. */
  function Serve(local: bool, t: Tables, req: Request, db: Outcome): (bool, Outcome, Tables)
  {
    if local then
      var (out, t') := Handler(true, t, req, db);
      (true, out, t')
    else
      var (first, t1) := Handler(false, t, req, db);
      if first.Raised? then
        var (out, t') := Handler(true, t1, req, db);
        (true, out, t')
      else (false, first, t1)
  }

  /** One request as it arrives, with what the database would do with it. */
  datatype Call = Call(req: Request, db: Outcome)

  /** A run of requests, one at a time: the flag and the tables at the end. */
  function Session(local: bool, t: Tables, calls: seq<Call>): (bool, Tables)
    decreases |calls|
  {
    if calls == [] then (local, t)
    else
      var (local', _, t') := Serve(local, t, calls[0].req, calls[0].db);
      Session(local', t', calls[1..])
  }

  // ---------------------------------------------------------------------------
  // The fallback branch

  /** Every fallback branch keeps the store well formed and only extends it; the read-only ones change nothing. */
  lemma LocalKeepsWellFormed(t: Tables, req: Request)
    requires WellFormed(t) && Precheck(req).None?
    ensures WellFormed(Local(t, req).1) && Extends(t, Local(t, req).1)
    ensures req.LoginRequest? || req.HistoryRequest? || req.ScoreboardRequest? ==> Local(t, req).1 == t
  {
  }

  /**
   * The fallback branch raises only for a login of an existing user with no
   * password, and a highscore update of an existing user with no score.
   */
  lemma LocalRaises(t: Tables, req: Request)
    requires Precheck(req).None?
    ensures Local(t, req).0.Raised?
        <==> || (req.LoginRequest? && FindByName(t.users, req.username).Some? && req.password.None?)
             || (req.HighscoreRequest? && FindById(t.users, req.userId).Some? && req.score.None?)
  {
  }

  // ---------------------------------------------------------------------------
  // The decorator

  /**
   * A registration missing its username or password is refused with 400 before
   * either store is consulted: nothing changes, the flag included.
   */
  lemma RegisterMissingFields(local: bool, t: Tables, username: Option<string>, password: Option<string>, salt: string, db: Outcome)
    requires username.None? || password.None? || username == Some("") || password == Some("")
    ensures Serve(local, t, RegisterRequest(username, password, salt), db)
         == (local, Returned(Response(400, Error(FieldsRequired))), t)
  {
  }

  /**
   * The flag ends up set exactly when it was set before, or a database run that
   * got past the pre-check raised.
   */
  lemma ServeFlag(local: bool, t: Tables, req: Request, db: Outcome)
    ensures Serve(local, t, req, db).0 <==> local || (Precheck(req).None? && db.Raised?)
  {
  }

  /** With the flag set, the handler runs once on the fallback store and its failure propagates. */
  lemma ServeWhenLocal(t: Tables, req: Request, db: Outcome)
    ensures var (local', out, t') := Serve(true, t, req, db);
      && local'
      && (out, t') == Handler(true, t, req, db)
      && (Precheck(req).None? ==> (out.Raised? <==> Local(t, req).0.Raised?))
  {
  }

  /**
   * With the flag clear, a database failure is answered from the fallback store
   * (one retry, on the unchanged tables); any other database outcome is passed
   * through and the fallback store is not touched.
   */
  lemma ServeWhenDatabase(t: Tables, req: Request, db: Outcome)
    requires Precheck(req).None?
    ensures var (local', out, t') := Serve(false, t, req, db);
      if db.Raised? then local' && (out, t') == Local(t, req)
      else !local' && out == db && t' == t
  {
  }

  /** Each decorated call keeps the fallback store well formed and only extends it. */
  lemma ServeKeepsWellFormed(local: bool, t: Tables, req: Request, db: Outcome)
    requires WellFormed(t)
    ensures WellFormed(Serve(local, t, req, db).2) && Extends(t, Serve(local, t, req, db).2)
  {
    if Precheck(req).None? {
      LocalKeepsWellFormed(t, req);
    }
  }

  // ---------------------------------------------------------------------------
  // Sessions

  /** Once the flag is set no request clears it. */
  lemma {:induction false} SessionKeepsFallback(t: Tables, calls: seq<Call>)
    ensures Session(true, t, calls).0
    decreases |calls|
  {
    if calls != [] {
      var (_, _, t') := Serve(true, t, calls[0].req, calls[0].db);
      SessionKeepsFallback(t', calls[1..]);
    }
  }

  /** Every session keeps the fallback store well formed: ids in order, names distinct, nothing lost. */
  lemma {:induction false} SessionKeepsWellFormed(local: bool, t: Tables, calls: seq<Call>)
    requires WellFormed(t)
    ensures WellFormed(Session(local, t, calls).1) && Extends(t, Session(local, t, calls).1)
    decreases |calls|
  {
    if calls != [] {
      var (local', _, t') := Serve(local, t, calls[0].req, calls[0].db);
      ServeKeepsWellFormed(local, t, calls[0].req, calls[0].db);
      SessionKeepsWellFormed(local', t', calls[1..]);
      ExtendsTransitive(t, t', Session(local', t', calls[1..]).1);
    }
  }

  /** A session that ends with the flag still clear never touched the fallback store. */
  lemma {:induction false} SessionOnDatabase(t: Tables, calls: seq<Call>)
    ensures !Session(false, t, calls).0 ==> Session(false, t, calls).1 == t
    decreases |calls|
  {
    if calls != [] {
      var (local', _, t') := Serve(false, t, calls[0].req, calls[0].db);
      if local' {
        SessionKeepsFallback(t', calls[1..]);
      } else {
        SessionOnDatabase(t', calls[1..]);
      }
    }
  }

  // ---------------------------------------------------------------------------
  // The process state

  /**
   * The globals of app.py: the flag `use_local_storage` and the two lists of
   * `local_storage`. The ghost `runs` logs the flag's value at each run of a
   * handler, so that the decorator's retries can be counted.
   */
  class Backend {
    var useLocalStorage: bool
    var users: seq<User>
    var gameHistory: seq<Game>
    ghost var runs: seq<bool>

    function Contents(): Tables
      reads this
    {
      Tables(users, gameHistory)
    }

    ghost predicate Valid()
      reads this
    {
      WellFormed(Contents())
    }

    /** A fresh process: empty fallback store, database in use. */
    constructor ()
      ensures Valid() && !useLocalStorage && Contents() == Tables([], []) && runs == []
    {
      useLocalStorage := false;
      users := [];
      gameHistory := [];
      runs := [];
    }

    method Register(username: Option<string>, password: Option<string>, salt: string, db: Outcome)
      returns (out: Outcome)
      requires Valid()
      modifies this
      ensures Valid() && useLocalStorage == old(useLocalStorage) && runs == old(runs) + [useLocalStorage]
      ensures (out, Contents()) == Handler(useLocalStorage, old(Contents()), RegisterRequest(username, password, salt), db)
    {
      runs := runs + [useLocalStorage];
      if !Truthy(username) || !Truthy(password) {
        return Returned(Response(400, Error(FieldsRequired)));
      }
      if !useLocalStorage {
        return db;
      }
      RegisterKeepsWellFormed(Contents(), username.value, password.value, salt);
      if NameTaken(users, username.value) {
        return Returned(Response(400, Error(UsernameExists)));
      }
      var user := User(|users| + 1, username.value, Hash(salt, password.value), 0);
      users := users + [user];
      out := Returned(Response(201, Message(UserCreated)));
    }

    method Login(username: Option<string>, password: Option<string>, db: Outcome) returns (out: Outcome)
      requires Valid()
      modifies this
      ensures Valid() && useLocalStorage == old(useLocalStorage) && runs == old(runs) + [useLocalStorage]
      ensures Contents() == old(Contents())
      ensures (out, Contents()) == Handler(useLocalStorage, old(Contents()), LoginRequest(username, password), db)
    {
      runs := runs + [useLocalStorage];
      if !useLocalStorage {
        return db;
      }
      out := Store.Login(users, username, password);
    }

    method AddGameHistory(
      userId: Option<int>, zaidimas: Option<string>, pc: Option<string>, laimetojas: Option<string>, db: Outcome)
      returns (out: Outcome)
      requires Valid()
      modifies this
      ensures Valid() && useLocalStorage == old(useLocalStorage) && runs == old(runs) + [useLocalStorage]
      ensures (out, Contents())
           == Handler(useLocalStorage, old(Contents()), AddGameRequest(userId, zaidimas, pc, laimetojas), db)
    {
      AddGameKeepsWellFormed(Contents(), userId, zaidimas, pc, laimetojas);
      runs := runs + [useLocalStorage];
      if !useLocalStorage {
        return db;
      }
      var game := Game(|gameHistory| + 1, userId, zaidimas, pc, laimetojas);
      gameHistory := gameHistory + [game];
      out := Returned(Response(201, Message(GameAdded)));
    }

    method GetGameHistory(userId: int, db: Outcome) returns (out: Outcome)
      requires Valid()
      modifies this
      ensures Valid() && useLocalStorage == old(useLocalStorage) && runs == old(runs) + [useLocalStorage]
      ensures Contents() == old(Contents())
      ensures (out, Contents()) == Handler(useLocalStorage, old(Contents()), HistoryRequest(userId), db)
    {
      runs := runs + [useLocalStorage];
      if !useLocalStorage {
        return db;
      }
      out := Returned(Response(200, Records(HistoryOf(gameHistory, userId))));
    }

    method GetScoreboard(db: Outcome) returns (out: Outcome)
      requires Valid()
      modifies this
      ensures Valid() && useLocalStorage == old(useLocalStorage) && runs == old(runs) + [useLocalStorage]
      ensures Contents() == old(Contents())
      ensures (out, Contents()) == Handler(useLocalStorage, old(Contents()), ScoreboardRequest, db)
    {
      runs := runs + [useLocalStorage];
      if !useLocalStorage {
        return db;
      }
      out := Returned(Response(200, Board(Scoreboard(users))));
    }

    method UpdateHighscore(userId: Option<int>, score: Option<int>, db: Outcome) returns (out: Outcome)
      requires Valid()
      modifies this
      ensures Valid() && useLocalStorage == old(useLocalStorage) && runs == old(runs) + [useLocalStorage]
      ensures (out, Contents()) == Handler(useLocalStorage, old(Contents()), HighscoreRequest(userId, score), db)
    {
      UpdateHighscoreKeepsWellFormed(Contents(), userId, score);
      runs := runs + [useLocalStorage];
      if !useLocalStorage {
        return db;
      }
      var found := FindById(users, userId);
      if found.Some? {
        var i := found.value;
        if score.None? {
          return Raised;
        }
        if score.value > users[i].highscore {
          users := users[i := users[i].(highscore := score.value)];
        }
      }
      out := Returned(Response(200, Message(HighscoreUpdated)));
    }

    /** The handler the request is routed to. */
    method Handle(req: Request, db: Outcome) returns (out: Outcome)
      requires Valid()
      modifies this
      ensures Valid() && useLocalStorage == old(useLocalStorage) && runs == old(runs) + [useLocalStorage]
      ensures (out, Contents()) == Handler(useLocalStorage, old(Contents()), req, db)
    {
      match req
      case RegisterRequest(username, password, salt) =>
        out := Register(username, password, salt, db);
      case LoginRequest(username, password) =>
        out := Login(username, password, db);
      case AddGameRequest(userId, zaidimas, pc, laimetojas) =>
        out := AddGameHistory(userId, zaidimas, pc, laimetojas, db);
      case HistoryRequest(userId) =>
        out := GetGameHistory(userId, db);
      case ScoreboardRequest =>
        out := GetScoreboard(db);
      case HighscoreRequest(userId, score) =>
        out := UpdateHighscore(userId, score, db);
    }

    /**
     * try_db_operation around the routed handler. With the flag set the handler
     * runs once; with it clear, a raising run sets the flag and the handler runs
     * exactly once more.
     */
    method TryDbOperation(req: Request, db: Outcome) returns (out: Outcome)
      requires Valid()
      modifies this
      ensures Valid()
      ensures (useLocalStorage, out, Contents()) == Serve(old(useLocalStorage), old(Contents()), req, db)
      ensures old(useLocalStorage) ==> runs == old(runs) + [true]
      ensures !old(useLocalStorage) ==> runs == old(runs) + if useLocalStorage then [false, true] else [false]
    {
      if useLocalStorage {
        out := Handle(req, db);
        return;
      }
      out := Handle(req, db);
      if out.Raised? {
        useLocalStorage := true;
        out := Handle(req, db);
      }
    }
  }
}
