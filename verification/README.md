# Fallback store of the PRS game backend, in Dafny

The backend (`app.py`) serves six JSON endpoints: register, login, add a game
history record, read one user's history, read the scoreboard and raise a
user's highscore. Each handler is wrapped by `try_db_operation`. While the
process-wide flag `use_local_storage` is clear, a handler works on the
relational database. The first time a run raises, the wrapper sets the flag
and runs the handler again. From then on every handler works on
`local_storage`, an in-memory dict of two lists (`users`, `game_history`).
Nothing ever clears the flag.

This project models that fallback store, the `use_local_storage` branch of
every handler, and the wrapper's flag state machine:

- `passwords.dfy` (module `Passwords`): the password hash as a pure function
  of a salt and the password, and the check that re-digests and compares.
- `store.dfy` (module `Store`): users, game records, responses and the
  outcome of a run (a response or a raised exception). Also the first-match
  lookup used by login and update_highscore, the fallback branch of each
  handler as a function from the old tables to a response and the new
  tables, the store's invariants, and the lemmas about each branch.
- `scoreboard.dfy` (module `Ranking`): the scoreboard as a stable sort by
  highscore, high to low. It is proved sorted, a permutation and stable, and
  shown to be the only list with those properties.
- `app.dfy` (module `App`): requests, the per-handler pre-check, one run of a
  handler (`Handler`), the decorated handler (`Serve`) and sequences of
  requests (`Session`). The class `Backend` holds the flag and the two lists
  as fields. Its handler methods change those fields in place and are proved
  equal to `Handler`; `TryDbOperation` is proved equal to `Serve`. A ghost
  log `runs` records the flag at every handler run, so the contract can say
  how often the handler ran.

The database branch of each handler is not modelled. Its outcome is the
parameter `db`: whatever the database branch would return, or `Raised`.
Any exception from the database branch sets the flag, including one the
request itself causes rather than the database. Examples: a login of an
existing user with no password, or a highscore update of an existing user
with no score, where `None > int` raises. In fallback mode the same two
requests raise again, and the exception propagates (`LocalRaises`).
The login case raises because `check_password_hash` is given `None`, which
the foreign hash library rejects when it encodes the password.

Every handler but get_game_history and get_scoreboard reads the JSON body
before it looks at the flag (app.py:60-62, 93-95, 111-115, 172-174). A
request that is not JSON, or whose body is not a JSON object, raises there.
In database mode `try_db_operation` catches that exception too and sets the
flag for good, even when the database is healthy. `ServeFlag`'s "the flag is
set only when the database branch raised" holds for the requests the model
represents; such malformed bodies are not among them.

## Model

| member | source | states |
|---|---|---|
| `Passwords.Hash` | app.py:73 | No own contract: the hash of the password under the drawn salt. See `Passwords.CheckHash`. |
| `Passwords.Check` | app.py:99 | No own contract: re-digest with the stored salt and compare. See `Passwords.CheckHash`. |
| `Store.FindByName` | app.py:98 | The first user whose username is the requested one: a found index holds that name and no earlier user has it. None exactly when the name is missing or no user has it. |
| `Store.FindById` | app.py:177 | The first user whose id is the requested one: a found index holds that id and no earlier user has it. None exactly when the id is missing or no user has it. |
| `Store.NameTaken` | app.py:68 | No own contract: some stored user has the name. See `Store.RegisterOutcome`. |
| `Store.RegisterLocal` | app.py:67-78 | No own contract. See `Store.RegisterOutcome`, `Store.RegisterKeepsWellFormed`, `Store.RegisterThenLogin`, `Store.RegisterTwiceRejected`. |
| `Store.Login` | app.py:97-101 | No own contract. See `Store.LoginIdentifiesUser`, `Store.LoginSucceedsOnlyWithPassword`, `Store.LoginFailsAlike`, `App.LocalRaises`. |
| `Store.AddGameLocal` | app.py:117-126 | No own contract. See `Store.AddGameThenHistory`, `Store.AddGameKeepsWellFormed`. |
| `Store.UpdateHighscoreLocal` | app.py:176-180 | No own contract. See `Store.UpdateHighscoreEffect`, `Store.UpdateLowerScoreNoop`, `Store.UpdateHighscoreKeepsWellFormed`, `App.LocalRaises`. |
| `Ranking.Entries` | app.py:158-161 | No own contract: each user's (username, highscore) pair in storage order. See `Ranking.ScoreboardPermutation`. |
| `Ranking.Insert` | app.py:157 | No own contract. See `Ranking.InsertMembers`, `Ranking.InsertSorted`, `Ranking.InsertWithScore`. |
| `Ranking.SortDesc` | app.py:157 | No own contract. See `Ranking.SortDescSortedPermutation`, `Ranking.SortDescStable`. |
| `Ranking.Scoreboard` | app.py:156-161 | No own contract. See `Ranking.ScoreboardCharacterised`, `Ranking.ScoreboardPermutation`. |
| `App.Precheck` | app.py:64-65 | No own contract: only registration has a check before the flag. See `App.RegisterMissingFields`. |
| `App.Local` | app.py:67-180 | No own contract: the fallback branch of the requested handler. See `App.LocalKeepsWellFormed`, `App.LocalRaises`. |
| `App.Handler` | app.py:59-186 | No own contract: one handler run, the pre-check and then the branch the flag selects. See `App.RegisterMissingFields`, `App.Backend.Handle`. |
| `App.Serve` | app.py:43-55 | No own contract. See `App.ServeFlag`, `App.ServeWhenLocal`, `App.ServeWhenDatabase`, `App.ServeKeepsWellFormed`, `App.Backend.TryDbOperation`. |
| `App.Session` | app.py:43-55 | No own contract: the decorated handlers run one request after another. See `App.SessionKeepsFallback`, `App.SessionKeepsWellFormed`, `App.SessionOnDatabase`. |
| `Passwords.CheckHash` | app.py:99 | A hash made from password p checks against q exactly when p = q. |
| `Store.First` | app.py:98 | The result is the index of the first user satisfying the predicate: that user satisfies it and no earlier one does. None means no user satisfies it. |
| `Store.HistoryOf` | app.py:142 | A record is in the result exactly when it is stored and its user_id is the requested id; the result is no longer than the stored list. |
| `Store.HistoryOfConcat` | app.py:142 | The filter distributes over concatenation, so it keeps storage order. |
| `Store.HistoryOfEmpty` | app.py:142-143 | The history is empty exactly when no stored record carries that user id. |
| `Store.RegisterOutcome` | app.py:68-78 | Registration succeeds (201) exactly when no stored user has the name. On success the user list grows by one new user: id = old length + 1, the given name, the hash of the password, highscore 0. Earlier users and the history are unchanged. Otherwise the answer is 400 "Username already exists" and nothing changes. |
| `Store.RegisterKeepsWellFormed` | app.py:68-78 | Registering a non-empty name keeps ids equal to position + 1 and usernames pairwise distinct and non-empty; existing users are kept. |
| `Store.RegisterThenLogin` | app.py:70-101 | After a successful registration, logging in with that name and password returns 200 with the new id (old length + 1). Any other password gets 401. |
| `Store.RegisterTwiceRejected` | app.py:68-69 | Registering the same name a second time returns 400 and leaves the store as it was. |
| `Store.LoginIdentifiesUser` | app.py:98-101 | On a well-formed store, a login with user i's name returns 200 with id i + 1 when the stored hash accepts the password, and 401 otherwise. |
| `Store.LoginSucceedsOnlyWithPassword` | app.py:98-101 | A 200 login answer names the id of a stored user whose username is the one requested and whose hash accepts the given password. |
| `Store.LoginFailsAlike` | app.py:98-100 | An unknown name and a wrong password both get the same 401 "Invalid credentials", never an exception. |
| `Store.AddGameThenHistory` | app.py:118-125 | After adding a record, a user's history is the old history plus the new record (id = old length + 1, fields as given) when the record names that user, and the old history otherwise. |
| `Store.AddGameKeepsWellFormed` | app.py:118-126 | Adding a record appends exactly one record, leaves users unchanged and keeps the store well formed. |
| `Store.UpdateHighscoreEffect` | app.py:177-180 | With ids equal to position + 1, user k's score becomes max(old, new) and every other user is unchanged. An unknown or missing id changes nothing. The answer is always 200 "Highscore updated", except that a found user with a missing score raises. |
| `Store.UpdateLowerScoreNoop` | app.py:178-180 | A score not above the stored one leaves the whole store unchanged and still answers "Highscore updated". |
| `Store.UpdateHighscoreKeepsWellFormed` | app.py:177-179 | A highscore update keeps the store well formed and never lowers any score. |
| `Ranking.InsertMembers` | app.py:157 | Inserting an entry adds exactly that entry: the result's multiset is the list's plus the entry. |
| `Ranking.InsertSorted` | app.py:157 | Inserting into a list sorted high to low keeps it sorted. |
| `Ranking.InsertWithScore` | app.py:157 | Among entries with the inserted entry's score, it goes first; the other scores' entries keep their order. |
| `Ranking.SortDescSortedPermutation` | app.py:157 | The sort output is non-increasing in highscore and a permutation of its input. |
| `Ranking.SortDescStable` | app.py:157 | For every score, the entries with that score appear in the same order as in the input. |
| `Ranking.SortedUnique` | app.py:157 | Two non-increasing lists that agree score by score, on which entries have that score and in what order, are equal. |
| `Ranking.ScoreboardCharacterised` | app.py:157-161 | A list is the scoreboard exactly when it is non-increasing and agrees score by score with the users' (username, highscore) pairs in storage order. |
| `Ranking.ScoreboardPermutation` | app.py:157-161 | The scoreboard is sorted high to low and lists each user's (username, highscore) pair exactly once. |
| `App.RegisterMissingFields` | app.py:64-65 | A registration with a missing or empty username or password answers 400 in either mode. Neither store is touched and the flag keeps its value. |
| `App.LocalKeepsWellFormed` | app.py:67-179 | Every fallback branch keeps the store well formed and only extends it. Login, history and scoreboard leave it exactly as it was. |
| `App.LocalRaises` | app.py:98-179 | A fallback branch raises exactly for a login of an existing user with no password, or a highscore update of an existing user with no score. |
| `App.ServeFlag` | app.py:46-54 | After the decorated call the flag is set exactly when it was set before, or when the database branch raised. |
| `App.ServeWhenLocal` | app.py:47-48 | With the flag set, the flag stays set, the result is the fallback run's, and the call raises exactly when the fallback branch raises: the exception propagates. That the handler runs only once, with no retry, is stated by the `runs` log of `App.Backend.TryDbOperation`. |
| `App.ServeWhenDatabase` | app.py:49-54 | With the flag clear, a raising database branch sets the flag, and the answer is one run of the fallback branch on the unchanged store. Any other database outcome is passed through with the flag still clear and the store untouched. |
| `App.ServeKeepsWellFormed` | app.py:43-55 | Each decorated call keeps the fallback store well formed and only extends it. |
| `App.SessionKeepsFallback` | app.py:46-54 | Once the flag is set, no sequence of requests clears it. |
| `App.SessionKeepsWellFormed` | app.py:17-21 | Over any sequence of requests the store keeps ids equal to position + 1 and distinct, non-empty usernames. Users are never removed, their names and hashes never change, their scores only rise, and the history is only appended to. |
| `App.SessionOnDatabase` | app.py:49-54 | A sequence of requests that ends with the flag still clear has never changed the fallback store. |
| `App.Backend.constructor` | app.py:17-21 | A new process has an empty fallback store and the flag clear. |
| `App.Backend.Register` | app.py:59-88 | Runs one register handler in place: the new lists and the answer are those of `Handler`, the flag is unchanged, and the store stays well formed. |
| `App.Backend.Login` | app.py:92-106 | Runs one login handler: the answer is `Handler`'s and the lists are unchanged. |
| `App.Backend.AddGameHistory` | app.py:110-136 | Runs one add_game_history handler in place, as `Handler` says, keeping the store well formed. |
| `App.Backend.GetGameHistory` | app.py:140-151 | Runs one get_game_history handler: the answer is `Handler`'s and the lists are unchanged. |
| `App.Backend.GetScoreboard` | app.py:155-167 | Runs one get_scoreboard handler: the answer is `Handler`'s and the lists are unchanged. |
| `App.Backend.UpdateHighscore` | app.py:171-186 | Runs one update_highscore handler in place, as `Handler` says, keeping the store well formed. |
| `App.Backend.Handle` | app.py:57-59 | Routes a request to its handler; the result, new lists and flag are `Handler`'s, and exactly one handler run is logged. |
| `App.Backend.TryDbOperation` | app.py:43-55 | The new flag, answer and lists are `Serve`'s. With the flag set the handler ran once, in fallback mode. With it clear, the handler ran once in database mode, plus exactly once in fallback mode when that run raised. |

## Left out

- The HTTP layer (routing, `request.get_json`, `jsonify`, CORS, app startup) is not modelled. A request is a value of `Request`. A response is a status and a body.
- The SQLAlchemy branch of each handler is not modelled. Its outcome is the parameter `db`, and it never touches the fallback store. A database branch that commits and then raises is not modelled either.
- `generate_password_hash` and `check_password_hash` are foreign. The salt they draw at random is an input (`salt`). The digest is an injective stand-in, so hash collisions are not modelled.
- `created_at` and its clock read are not modelled, and neither is the `print` of the caught exception.
- Request values are either missing or of the expected JSON type (string, or integer for ids and scores). Other JSON types are not modelled: booleans comparing equal to 1, floats, and a body that is not a JSON object (in the source such a body raises before either branch and, in database mode, sets the flag).
- In update_highscore, the Python code changes the user dict in place. The model replaces the list element with an updated copy. Nothing else holds a reference to that dict, so the two agree.
- Concurrent requests and the unsynchronised sharing of the flag and the lists are not modelled. Requests run one at a time.
