/**
 * The in-memory fallback store (`local_storage` in app.py) and the
 * `use_local_storage` branches of the request handlers that act on it.
 *
 * The store holds two lists, users and game history records. Both only ever
 * grow by appending; the only in-place change is raising a user's highscore.
 * The branches are given here as functions from the old tables to a response
 * and the new tables; the class in module App runs them against its fields.
 */
module Store {
  import opened Passwords

  datatype Option<T> = None | Some(value: T)

  /** A user dict of `local_storage['users']` (its `created_at` clock reading is left out). */
  datatype User = User(id: int, username: string, password: PasswordHash, highscore: int)

  /**
   * A record of `local_storage['game_history']`. The request fields are stored
   * exactly as received, so a field the request left out is stored as None.
   * `zaidimas` is the game, `pc` the opponent and `laimetojas` the winner.
   */
  datatype Game = Game(
    id: int,
    userId: Option<int>,
    zaidimas: Option<string>,
    pc: Option<string>,
    laimetojas: Option<string>)

  /** The two lists of `local_storage`. */
  datatype Tables = Tables(users: seq<User>, games: seq<Game>)

  /** One scoreboard line. */
  datatype Entry = Entry(username: string, highscore: int)

  /** A JSON response body. */
  datatype Body =
    | Message(text: string)
    | Error(text: string)
    | LoggedIn(text: string, userId: int)
    | Records(games: seq<Game>)
    | Board(entries: seq<Entry>)

  /** An HTTP status with its body. */
  datatype Response = Response(status: int, body: Body)

  /** What running a handler yields: a response, or an exception that escapes it. */
  datatype Outcome = Returned(response: Response) | Raised

  const FieldsRequired := "Username and password required"
  const UsernameExists := "Username already exists"
  const UserCreated := "User created successfully"
  const InvalidCredentials := "Invalid credentials"
  const LoginSuccessful := "Login successful"
  const GameAdded := "Game history added"
  const HighscoreUpdated := "Highscore updated"

  // ---------------------------------------------------------------------------
  // Lookups

  /** `next((u for u in users if p(u)), None)`, as the index of that user. */
  function First(users: seq<User>, p: User -> bool): (r: Option<nat>)
    ensures r.Some? ==> r.value < |users| && p(users[r.value])
    ensures r.Some? ==> forall j :: 0 <= j < r.value ==> !p(users[j])
    ensures r.None? ==> forall j :: 0 <= j < |users| ==> !p(users[j])
  {
    if users == [] then None
    else if p(users[0]) then Some(0)
    else match First(users[1..], p)
      case None => None
      case Some(k) => Some(k + 1)
  }

  /** `any(u['username'] == username for u in users)`. */
  predicate NameTaken(users: seq<User>, name: string)
  {
    exists i :: 0 <= i < |users| && users[i].username == name
  }

  /** The first user whose username equals the requested one (None matches no user). */
  function FindByName(users: seq<User>, name: Option<string>): (r: Option<nat>)
    ensures r.Some? ==> r.value < |users| && Some(users[r.value].username) == name
    ensures r.Some? ==> forall j :: 0 <= j < r.value ==> users[j].username != users[r.value].username
    ensures r.None? <==> name.None? || !NameTaken(users, name.value)
  {
    First(users, (u: User) => Some(u.username) == name)
  }

  /** The first user whose id equals the requested one (None matches no user). */
  function FindById(users: seq<User>, id: Option<int>): (r: Option<nat>)
    ensures r.Some? ==> r.value < |users| && Some(users[r.value].id) == id
    ensures r.Some? ==> forall j :: 0 <= j < r.value ==> users[j].id != users[r.value].id
    ensures r.None? <==> id.None? || forall j :: 0 <= j < |users| ==> users[j].id != id.value
  {
    First(users, (u: User) => Some(u.id) == id)
  }

  // ---------------------------------------------------------------------------
  // The use_local_storage branches

  /** register, after its field check: reject a taken name, else append with id = length + 1. */
  function RegisterLocal(t: Tables, name: string, password: string, salt: string): (Response, Tables)
  {
    if NameTaken(t.users, name) then
      (Response(400, Error(UsernameExists)), t)
    else
      var user := User(|t.users| + 1, name, Hash(salt, password), 0);
      (Response(201, Message(UserCreated)), t.(users := t.users + [user]))
  }

  /**
   * login: the first user with that name, then the password check. A found user
   * with no password in the request makes the hash check raise.
   */
  function Login(users: seq<User>, username: Option<string>, password: Option<string>): Outcome
  {
    match FindByName(users, username)
    case None => Returned(Response(401, Error(InvalidCredentials)))
    case Some(i) =>
      if password.None? then Raised
      else if !Check(users[i].password, password.value) then Returned(Response(401, Error(InvalidCredentials)))
      else Returned(Response(200, LoggedIn(LoginSuccessful, users[i].id)))
  }

  /** add_game_history: append the record as given, with id = length + 1; nothing is validated. */
  function AddGameLocal(
    t: Tables, userId: Option<int>, zaidimas: Option<string>, pc: Option<string>, laimetojas: Option<string>
  ): (Response, Tables)
  {
    var game := Game(|t.games| + 1, userId, zaidimas, pc, laimetojas);
    (Response(201, Message(GameAdded)), t.(games := t.games + [game]))
  }

  /** get_game_history: the records of one user, in storage order. */
  function HistoryOf(games: seq<Game>, userId: int): (r: seq<Game>)
    ensures |r| <= |games|
    ensures forall g :: g in r <==> g in games && g.userId == Some(userId)
  {
    if games == [] then []
    else (if games[0].userId == Some(userId) then [games[0]] else []) + HistoryOf(games[1..], userId)
  }

  /**
   * update_highscore: for the first user with that id, store the new score if it
   * is strictly greater. Comparing a missing score with a found user's raises.
   */
  function UpdateHighscoreLocal(t: Tables, userId: Option<int>, score: Option<int>): (Outcome, Tables)
  {
    match FindById(t.users, userId)
    case None => (Returned(Response(200, Message(HighscoreUpdated))), t)
    case Some(i) =>
      if score.None? then (Raised, t)
      else if score.value > t.users[i].highscore then
        (Returned(Response(200, Message(HighscoreUpdated))),
         t.(users := t.users[i := t.users[i].(highscore := score.value)]))
      else (Returned(Response(200, Message(HighscoreUpdated))), t)
  }

  // ---------------------------------------------------------------------------
  // Invariants of the store

  /** Ids are assigned as length + 1 and nothing is ever deleted. */
  ghost predicate IdsSequential(t: Tables)
  {
    && (forall i :: 0 <= i < |t.users| ==> t.users[i].id == i + 1)
    && (forall i :: 0 <= i < |t.games| ==> t.games[i].id == i + 1)
  }

  /** No two users share a username. */
  ghost predicate NamesDistinct(users: seq<User>)
  {
    forall i, j :: 0 <= i < j < |users| ==> users[i].username != users[j].username
  }

  /** What every reachable fallback store satisfies. */
  ghost predicate WellFormed(t: Tables)
  {
    && IdsSequential(t)
    && NamesDistinct(t.users)
    && (forall i :: 0 <= i < |t.users| ==> t.users[i].username != "")
  }

  /** `v` is `u` after any number of highscore updates. */
  predicate SameAccount(u: User, v: User)
  {
    u.id == v.id && u.username == v.username && u.password == v.password && u.highscore <= v.highscore
  }

  /** `t'` is a later state of `t`: users kept (scores only up), history only appended to. */
  ghost predicate Extends(t: Tables, t': Tables)
  {
    && |t.users| <= |t'.users|
    && (forall i :: 0 <= i < |t.users| ==> SameAccount(t.users[i], t'.users[i]))
    && t.games <= t'.games
  }

  lemma ExtendsTransitive(t0: Tables, t1: Tables, t2: Tables)
    requires Extends(t0, t1) && Extends(t1, t2)
    ensures Extends(t0, t2)
  {
  }

  // ---------------------------------------------------------------------------
  // Registration

  /** A registration either appends exactly one new user or changes nothing. */
  lemma RegisterOutcome(t: Tables, name: string, password: string, salt: string)
    ensures var (resp, t') := RegisterLocal(t, name, password, salt);
      && (resp.status == 201 <==> forall i :: 0 <= i < |t.users| ==> t.users[i].username != name)
      && (resp.status == 201 ==>
            && t'.games == t.games
            && |t'.users| == |t.users| + 1
            && t'.users[..|t.users|] == t.users
            && t'.users[|t.users|] == User(|t.users| + 1, name, Hash(salt, password), 0))
      && (resp.status != 201 ==> resp == Response(400, Error(UsernameExists)) && t' == t)
  {
  }

  /** Registering a non-empty name keeps the store well formed and extends it. */
  lemma RegisterKeepsWellFormed(t: Tables, name: string, password: string, salt: string)
    requires WellFormed(t) && name != ""
    ensures WellFormed(RegisterLocal(t, name, password, salt).1)
    ensures Extends(t, RegisterLocal(t, name, password, salt).1)
  {
  }

  /** A name just registered logs in with its password, and only with it. */
  lemma RegisterThenLogin(t: Tables, name: string, password: string, salt: string, attempt: string)
    requires RegisterLocal(t, name, password, salt).0.status == 201
    ensures Login(RegisterLocal(t, name, password, salt).1.users, Some(name), Some(attempt))
         == if attempt == password then Returned(Response(200, LoggedIn(LoginSuccessful, |t.users| + 1)))
            else Returned(Response(401, Error(InvalidCredentials)))
  {
    var users := RegisterLocal(t, name, password, salt).1.users;
    assert users[|t.users|].username == name;
    var r := FindByName(users, Some(name));
    assert r == Some(|t.users|) by {
      assert !NameTaken(t.users, name);
      assert forall j :: 0 <= j < |t.users| ==> users[j] == t.users[j];
    }
    CheckHash(salt, password, attempt);
  }

  /** Registering a name a second time is refused and changes nothing. */
  lemma RegisterTwiceRejected(t: Tables, name: string, p1: string, s1: string, p2: string, s2: string)
    requires RegisterLocal(t, name, p1, s1).0.status == 201
    ensures var t1 := RegisterLocal(t, name, p1, s1).1;
      RegisterLocal(t1, name, p2, s2) == (Response(400, Error(UsernameExists)), t1)
  {
    var t1 := RegisterLocal(t, name, p1, s1).1;
    assert t1.users[|t.users|].username == name;
  }

  // ---------------------------------------------------------------------------
  // Login

  /** On a well-formed store, login finds THE user with that name and answers with its id. */
  lemma LoginIdentifiesUser(t: Tables, i: nat, password: string)
    requires WellFormed(t) && i < |t.users|
    ensures Login(t.users, Some(t.users[i].username), Some(password))
         == if Check(t.users[i].password, password) then Returned(Response(200, LoggedIn(LoginSuccessful, i + 1)))
            else Returned(Response(401, Error(InvalidCredentials)))
  {
  }

  /** A login succeeds only for a stored user whose stored hash accepts the given password. */
  lemma LoginSucceedsOnlyWithPassword(users: seq<User>, username: Option<string>, password: Option<string>, id: int)
    requires Login(users, username, password) == Returned(Response(200, LoggedIn(LoginSuccessful, id)))
    ensures exists i :: 0 <= i < |users| && users[i].id == id && Some(users[i].username) == username
                        && password.Some? && Check(users[i].password, password.value)
  {
  }

  /** An unknown name and a wrong password get the same 401 answer; login never raises for them. */
  lemma LoginFailsAlike(users: seq<User>, username: Option<string>, password: string)
    requires forall i :: 0 <= i < |users| && Some(users[i].username) == username ==> !Check(users[i].password, password)
    ensures Login(users, username, Some(password)) == Returned(Response(401, Error(InvalidCredentials)))
  {
  }

  // ---------------------------------------------------------------------------
  // Game history

  /** Filtering distributes over concatenation, so the filter keeps storage order. */
  lemma {:induction false} HistoryOfConcat(a: seq<Game>, b: seq<Game>, userId: int)
    ensures HistoryOf(a + b, userId) == HistoryOf(a, userId) + HistoryOf(b, userId)
  {
    if a == [] {
      assert a + b == b;
    } else {
      assert (a + b)[1..] == a[1..] + b;
      HistoryOfConcat(a[1..], b, userId);
    }
  }

  /** A user's history is empty exactly when no stored record carries that user id. */
  lemma HistoryOfEmpty(games: seq<Game>, userId: int)
    ensures HistoryOf(games, userId) == [] <==> forall i :: 0 <= i < |games| ==> games[i].userId != Some(userId)
  {
  }

  /** Adding a record and reading a history: the old history, plus the new record if it is that user's. */
  lemma AddGameThenHistory(
    t: Tables, userId: Option<int>, zaidimas: Option<string>, pc: Option<string>, laimetojas: Option<string>, reader: int)
    ensures var t' := AddGameLocal(t, userId, zaidimas, pc, laimetojas).1;
      HistoryOf(t'.games, reader)
        == HistoryOf(t.games, reader)
           + (if userId == Some(reader) then [Game(|t.games| + 1, userId, zaidimas, pc, laimetojas)] else [])
  {
    var game := Game(|t.games| + 1, userId, zaidimas, pc, laimetojas);
    HistoryOfConcat(t.games, [game], reader);
    assert [game][1..] == [];
  }

  /** Adding a record keeps the store well formed and only appends to the history. */
  lemma AddGameKeepsWellFormed(
    t: Tables, userId: Option<int>, zaidimas: Option<string>, pc: Option<string>, laimetojas: Option<string>)
    requires WellFormed(t)
    ensures var t' := AddGameLocal(t, userId, zaidimas, pc, laimetojas).1;
      WellFormed(t') && Extends(t, t') && t'.users == t.users && |t'.games| == |t.games| + 1
  {
  }

  // ---------------------------------------------------------------------------
  // Highscore update

  function Max(a: int, b: int): int
  {
    if a < b then b else a
  }

  /**
   * With ids assigned as length + 1, user id k sits at index k - 1; that user's
   * score becomes the larger of the old and the new one and nothing else changes.
   * The update raises only when the user exists and the score is missing.
   */
  lemma UpdateHighscoreEffect(t: Tables, userId: Option<int>, score: Option<int>)
    requires IdsSequential(t)
    ensures var (out, t') := UpdateHighscoreLocal(t, userId, score);
      var found := userId.Some? && 1 <= userId.value <= |t.users|;
      && t'.games == t.games
      && |t'.users| == |t.users|
      && (out.Raised? <==> found && score.None?)
      && (out.Returned? ==> out.response == Response(200, Message(HighscoreUpdated)))
      && forall i :: 0 <= i < |t.users| ==>
           t'.users[i] == if found && score.Some? && i == userId.value - 1
                          then t.users[i].(highscore := Max(t.users[i].highscore, score.value))
                          else t.users[i]
  {
    var r := FindById(t.users, userId);
    var found := userId.Some? && 1 <= userId.value <= |t.users|;
    if found {
      var k := userId.value - 1;
      assert t.users[k].id == userId.value;
      assert r == Some(k) by {
        assert r.Some?;
        assert t.users[r.value].id == r.value + 1;
      }
    } else {
      assert r.None? by {
        assert forall j :: 0 <= j < |t.users| ==> Some(t.users[j].id) != userId;
      }
    }
  }

  /** A score that is not above the stored one changes nothing (so the scoreboard is unaffected). */
  lemma UpdateLowerScoreNoop(t: Tables, k: nat, score: int)
    requires IdsSequential(t) && k < |t.users| && score <= t.users[k].highscore
    ensures UpdateHighscoreLocal(t, Some(k + 1), Some(score)) == (Returned(Response(200, Message(HighscoreUpdated))), t)
  {
  }

  /** A highscore update keeps the store well formed and never lowers a score. */
  lemma UpdateHighscoreKeepsWellFormed(t: Tables, userId: Option<int>, score: Option<int>)
    requires WellFormed(t)
    ensures WellFormed(UpdateHighscoreLocal(t, userId, score).1)
    ensures Extends(t, UpdateHighscoreLocal(t, userId, score).1)
  {
  }
}
