# Higher-or-lower game backend — a Dafny model

This project models the core of the higher-or-lower backend. A player starts a game and
gets a number in [0, 1000]. The player then guesses whether the next random number will be
higher or lower. A correct guess extends the game's streak. A wrong guess ends the game and
records its final streak in the history of completed games. The backend also reports
per-user statistics (games completed and longest streak) and can clear them.

The relational database is one immutable `Store` value (`records.dfy`). It holds:
- the users table, as a sequence searched first-match like the query's `first()`;
- the game-session table, as a map from primary key to session;
- the ledger of completed games, as a sequence;
- one counter that hands out fresh primary keys.

Every repository method (`repository.dfy`) is a pure function of the store. A read
(`GetUserByUsername`, `GetActiveSession`, `GetUserStatistics`) returns its answer alone and
leaves the store as it is. A mutating method is one transition `Store -> Step<T>`, which pairs
its output with the store it leaves behind; `EndGameSession` has no output and returns the
store alone. This matches the source, where each mutating repository method commits as a
single transaction and the reads never commit. The service layer
(`service.py`, modelled in `service.dfy`) composes those transitions. Each random draw is a
parameter with `requires IsDraw(draw)` (0 <= draw <= 1000). Errors are a `Result` whose
`GameError` distinguishes unknown user, invalid session and bad guess direction. The
source raises one exception type for all three. The model keeps the source's order of
checks: the session is checked before the direction.

The store invariant `Valid` says:
- keys are below the counter;
- user ids and usernames are distinct;
- ledger ids are distinct;
- **a user has at most one active session**.

Every service operation preserves `Valid`. Each one also `Evolves` the store:
- no user disappears;
- keys only grow;
- a new session never reuses a key;
- an inactive session is never changed or revived, only deleted.

## Model

| member | source | states |
|---|---|---|
| Records.AtMostOneActivePerUser | Backend/repository.py:47-58 | under the store invariant, the set of active sessions a user owns has at most one element |
| Records.PerUserAtMostOneActive | Backend/repository.py:47-58 | conversely, when every user owns at most one active session, the store invariant on sessions holds |
| Repository.GetUserByUsername | Backend/repository.py:14-15 | the lookup returns a stored user with exactly that username, and returns nothing iff no stored user has it |
| Repository.CreateUser | Backend/repository.py:17-28 | a taken username fails with DuplicateUsername and leaves the store unchanged (unique constraint, rollback); otherwise exactly one user with that name and the next key is appended, sessions and games are unchanged, and looking the name up afterwards finds the new user |
| Repository.GetOrCreateUser | Backend/repository.py:30-37 | the returned user has the requested name and is what a later lookup finds; an existing user is returned with the store unchanged; otherwise exactly one user is appended |
| Repository.GetOrCreateUserIdempotent | Backend/repository.py:30-37 | a second call with the same username returns the same user and the same store, and the user count grows by at most one overall |
| Repository.GetActiveSession | Backend/repository.py:69-73 | a session is returned iff one is stored under that id with its active flag set; under the invariant it is its owner's only active session |
| Repository.DeactivateUser | Backend/repository.py:47-50 | keeps every session key, leaves the user with no active session, changes only the active flag of the user's sessions, and leaves every other user's sessions as they were |
| Repository.CreateGameSession | Backend/repository.py:44-63 | the new session gets the next key, the given number and streak 0, and is active; afterwards it is the user's only active session; the user's earlier sessions become inactive with their numbers and streaks kept; other users' sessions, users and games are unchanged |
| Repository.UpdateSession | Backend/repository.py:75-83 | an unknown or inactive id changes nothing and returns nothing; otherwise only that session's number and streak change, it stays active, and every other session, user and game is unchanged |
| Repository.EndGameSession | Backend/repository.py:89-104 | on an active session: appends exactly one completed game with a fresh id and the session's owner and streak, and clears only that session's active flag; on any other id: no change |
| Repository.EndGameSessionOnce | Backend/repository.py:89-104 | ending the same session a second time changes nothing, so a session is never recorded twice |
| Repository.GamesOf | Backend/repository.py:112 | the filtered ledger holds each of the user's games exactly as many times as the ledger does, and no other game |
| Repository.GamesExcept | Backend/repository.py:129 | the filtered ledger holds each game not owned by the user exactly as many times as the ledger does, and none of the user's games |
| Repository.MaxStreak | Backend/repository.py:113-115 | max-or-0: at least every streak in the list, equal to one of them when the list is non-empty, 0 when it is empty |
| Repository.GamesPartition | Backend/repository.py:128-129 | the user's games and everybody else's games together account for the whole ledger |
| Repository.GamesExceptKeepsOthers | Backend/repository.py:129 | deleting one user's games leaves each other user's history exactly as it was (order and multiplicity) and leaves that user none |
| Repository.GamesExceptDistinct | Backend/repository.py:129 | deleting games keeps ledger ids distinct |
| Repository.GetUserStatistics | Backend/repository.py:110-120 | total is the number of the user's completed games; longest is at least each of their streaks, equals one of them, and is 0 when there are none |
| Repository.AggregateStatistics | Backend/repository.py:112-115 | an equivalent single scan of the ledger, counting the user's games and keeping a running maximum, gives the same statistics as the count and maximum queries |
| Repository.ClearUserStatistics | Backend/repository.py:125-136 | returns the number of the user's games before deletion; afterwards the user has no games (statistics 0/0) and no sessions; every other user's history and sessions are untouched; users and the key counter are unchanged |
| Repository.CreateUserPreservesValid | Backend/repository.py:17-24 | creating a user keeps the store invariant (unique ids and usernames) |
| Repository.GetOrCreateUserPreservesValid | Backend/repository.py:30-37 | get-or-create keeps the store invariant |
| Repository.CreateGameSessionPreservesValid | Backend/repository.py:47-58 | deactivating the user's sessions and then inserting one keeps the store invariant, in particular at most one active session per user |
| Repository.UpdateSessionPreservesValid | Backend/repository.py:75-83 | updating a session keeps the store invariant |
| Repository.EndGameSessionPreservesValid | Backend/repository.py:89-103 | ending a session keeps the store invariant, including distinct ledger ids |
| Repository.ClearUserStatisticsPreservesValid | Backend/repository.py:125-134 | clearing a user's data keeps the store invariant |
| Service.GetOrCreateUser | Backend/service.py:13-19 | the user service returns the user with that name, which a later lookup finds; an existing name leaves the store unchanged; when the name is new exactly that one user is appended |
| Service.StartGame | Backend/service.py:27-45 | an unknown username fails with UserNotFound and leaves the store unchanged; otherwise the returned number is the draw (in [0, 1000]), the returned id is the new session's key, that session is active with the draw and streak 0, it is the user's only active session, the user's earlier sessions are kept with only their active flag cleared, every other user's sessions are unchanged, no other key is added, and no completed game is recorded for the abandoned one |
| Service.MakeGuess | Backend/service.py:47-94 | an unknown or inactive session fails with InvalidSession whatever the guess text; then a direction other than "higher"/"lower" fails with InvalidGuess; both leave the store unchanged. Otherwise success holds iff ("higher" and draw > current) or ("lower" and draw < current), so a tie is always wrong, and game_over is the negation of success. On success the streak is old+1, the session stays active holding the draw, and no game is recorded. On failure the streak returned is the old one, exactly one completed game with that streak is appended, and the session becomes inactive |
| Service.GetStatistics | Backend/service.py:96-110 | an unknown username fails with UserNotFound; otherwise it returns the username, the number of the user's completed games and their longest streak (max-or-0) |
| Service.ClearStatistics | Backend/service.py:112-127 | an unknown username fails with UserNotFound and leaves the store unchanged; otherwise it returns the number of the user's completed games, after which the user's statistics read 0/0, the user has no sessions, other users' games and sessions are untouched, and no session is added |
| Service.GetOrCreateUserKeepsInvariant | Backend/service.py:13-19 | get-or-create keeps the store invariant and only evolves the store |
| Service.StartGameKeepsInvariant | Backend/service.py:27-45 | starting a game keeps the invariant (one active session per user); it does not revive or change an inactive session, and the new key is fresh |
| Service.MakeGuessKeepsInvariant | Backend/service.py:47-94 | a guess keeps the invariant; it does not change or revive an inactive session |
| Service.ClearStatisticsKeepsInvariant | Backend/service.py:112-127 | clearing keeps the invariant and only evolves the store (no user disappears, the key counter never decreases, no inactive session is changed or revived) |
| Service.ClearStatisticsOnlyDeletes | Backend/repository.py:125-134 | clearing only deletes sessions: every session that survives was stored under the same key with the same value before, so no session is added or changed |
| Service.NoGuessAfterGameOver | Backend/service.py:49-51 | after a wrong guess, any further guess on that session fails with InvalidSession and changes nothing |
| Service.StartManyKeepsUsers | Backend/service.py:27-35 | any sequence of game starts leaves the users table unchanged |
| Service.StartManyLeavesOneActive | Backend/service.py:27-35 | after one or more starts for a known user, exactly one of the user's sessions is active: the one the last start created (the key handed out last), with the last draw and streak 0 |

## Left out

- HTTP routing, status codes, request/response validation, and process start-up
  (`controller.py`, `main.py`, `run.py`, `schemas.py`). Only the response fields
  `success`, `new_number`, `consecutive_correct` and `game_over` are mirrored (`GuessResponse`).
- Timestamps (`created_at`, `completed_at`). They are wall-clock values with no behaviour to state.
- Human-readable messages and logging.
- Randomness: `random.randint(0, 1000)` becomes a parameter constrained to [0, 1000].
- Commit, rollback and storage failures. Each mutating repository method is one atomic transition, and
  the model has no storage-failure error.
- Concurrency between requests. Requests are applied one after another.
- Concrete key values. The database's per-table auto-increment keys are modelled by one
  counter that never reuses a key. Reuse of a deleted row's key by the storage engine is not
  modelled. The storage engine configuration (`database.py`) is not part of this model.
- The `String(50)` length on usernames. No check in the code path enforces it, and neither does
  the model. Also, the code does not reject an empty username, so the model does not either.
- Referential integrity of `user_id` foreign keys. The repository accepts any user id, and the
  model does not require the user to exist.
- Repository.GetUserStatistics: streaks are `nat`, because the code only stores 0 or old+1.
  With natural-number streaks, "max or 0" and "max" agree on non-empty histories, and the
  model does not cover negative streaks.
