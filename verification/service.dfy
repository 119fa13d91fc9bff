/** The game service: the operations the backend exposes, composed from the
    repository. Each random draw from [0, 1000] is a parameter, so every
    operation is a deterministic transition of the store. */
module Service {
  import opened Records
  import Repository

  const MinNumber: int := 0
  const MaxNumber: int := 1000

  /** A value the uniform draw over the closed range can return. */
  predicate IsDraw(n: int) {
    MinNumber <= n <= MaxNumber
  }

  datatype GameStartResponse = GameStartResponse(sessionId: nat, currentNumber: int)
  datatype GuessResponse = GuessResponse(success: bool, newNumber: int, consecutiveCorrect: nat, gameOver: bool)
  datatype StatisticsResponse = StatisticsResponse(username: string, totalGames: nat, longestStreak: nat)

  /** The user service: get-or-create passed through to the repository. */
  function GetOrCreateUser(s: Store, username: string): (r: Step<User>)
    ensures r.out.username == username
    ensures Repository.GetUserByUsername(r.next, username) == Some(r.out)
    ensures Repository.GetUserByUsername(s, username).Some? ==> r.next == s
    ensures Repository.GetUserByUsername(s, username).None? ==> r.next.users == s.users + [r.out]
    ensures |r.next.users| <= |s.users| + 1
    ensures r.next.sessions == s.sessions && r.next.games == s.games
  {
    Repository.GetOrCreateUser(s, username)
  }

  /** Starts a game for a known user with the drawn number, abandoning (not
      recording) whatever game the user had in progress. */
  function StartGame(s: Store, username: string, draw: int): (r: Step<Result<GameStartResponse>>)
    requires IsDraw(draw)
    ensures Repository.GetUserByUsername(s, username).None? ==> r == Step(Err(UserNotFound), s)
    ensures Repository.GetUserByUsername(s, username).Some? ==>
              var user := Repository.GetUserByUsername(s, username).value;
              && r.out.Ok?
              && IsDraw(r.out.value.currentNumber)
              && r.out.value.currentNumber == draw
              && r.out.value.sessionId == s.nextId
              && Repository.GetActiveSession(r.next, r.out.value.sessionId) == Some(GameSession(user.id, draw, 0, true))
              && ActiveSessionsOf(r.next.sessions, user.id) == {r.out.value.sessionId}
              && r.next.sessions.Keys == s.sessions.Keys + {r.out.value.sessionId}
              && (forall k :: k in s.sessions && k != r.out.value.sessionId && s.sessions[k].userId == user.id ==>
                    r.next.sessions[k] == s.sessions[k].(active := false))
              && (forall k :: k in s.sessions && k != r.out.value.sessionId && s.sessions[k].userId != user.id ==>
                    r.next.sessions[k] == s.sessions[k])
              && r.next.users == s.users
              && r.next.games == s.games
  {
    match Repository.GetUserByUsername(s, username)
    case None => Step(Err(UserNotFound), s)
    case Some(user) =>
      var created := Repository.CreateGameSession(s, user.id, draw);
      Step(Ok(GameStartResponse(created.out, draw)), created.next)
  }

  /** The correctness rule of a guess against the next draw. */
  predicate IsCorrect(guess: string, current: int, drawn: int) {
    (guess == "higher" && drawn > current) || (guess == "lower" && drawn < current)
  }

  /** The request names an active session and a well-formed direction, so
      the service goes on to draw a number and judge the guess. */
  predicate GuessAccepted(s: Store, sessionId: int, guess: string) {
    Repository.GetActiveSession(s, sessionId).Some? && (guess == "higher" || guess == "lower")
  }

  /** Judges a guess on an active session against the drawn number. A
      correct guess keeps the session going with the drawn number and a
      streak one longer; a wrong one moves the session into the ledger with
      the streak it had. The session is checked before the guess text. */
  function MakeGuess(s: Store, sessionId: int, guess: string, draw: int): (r: Step<Result<GuessResponse>>)
    requires IsDraw(draw)
    ensures Repository.GetActiveSession(s, sessionId).None? ==> r == Step(Err(InvalidSession), s)
    ensures Repository.GetActiveSession(s, sessionId).Some? && guess != "higher" && guess != "lower" ==>
              r == Step(Err(InvalidGuess), s)
    ensures r.out.Ok? <==> GuessAccepted(s, sessionId, guess)
    ensures GuessAccepted(s, sessionId, guess) ==>
              var before := Repository.GetActiveSession(s, sessionId).value;
              && r.out.value.newNumber == draw
              && r.out.value.gameOver == !r.out.value.success
              && (r.out.value.success <==>
                    (guess == "higher" && draw > before.currentNumber) || (guess == "lower" && draw < before.currentNumber))
              && (draw == before.currentNumber ==> !r.out.value.success)
              && r.next.users == s.users
    ensures GuessAccepted(s, sessionId, guess) && r.out.value.success ==>
              var before := Repository.GetActiveSession(s, sessionId).value;
              && r.out.value.consecutiveCorrect == before.consecutiveCorrect + 1
              && Repository.GetActiveSession(r.next, sessionId) ==
                   Some(before.(currentNumber := draw, consecutiveCorrect := before.consecutiveCorrect + 1))
              && r.next.games == s.games
              && r.next.sessions.Keys == s.sessions.Keys
              && (forall k :: k in s.sessions && k != sessionId ==> r.next.sessions[k] == s.sessions[k])
    ensures GuessAccepted(s, sessionId, guess) && !r.out.value.success ==>
              var before := Repository.GetActiveSession(s, sessionId).value;
              && r.out.value.consecutiveCorrect == before.consecutiveCorrect
              && r.next.games == s.games + [Game(s.nextId, before.userId, before.consecutiveCorrect)]
              && Repository.GetActiveSession(r.next, sessionId).None?
              && sessionId in r.next.sessions && r.next.sessions[sessionId] == before.(active := false)
              && r.next.sessions.Keys == s.sessions.Keys
              && (forall k :: k in s.sessions && k != sessionId ==> r.next.sessions[k] == s.sessions[k])
  {
    match Repository.GetActiveSession(s, sessionId)
    case None => Step(Err(InvalidSession), s)
    case Some(session) =>
      if guess != "higher" && guess != "lower" then Step(Err(InvalidGuess), s)
      else if IsCorrect(guess, session.currentNumber, draw) then
        var streak := session.consecutiveCorrect + 1;
        var updated := Repository.UpdateSession(s, sessionId, draw, streak);
        Step(Ok(GuessResponse(true, draw, streak, false)), updated.next)
      else
        var ended := Repository.EndGameSession(s, sessionId);
        Step(Ok(GuessResponse(false, draw, session.consecutiveCorrect, true)), ended)
  }

  /** Statistics of a known user: how many games it completed and its longest
      streak, 0 when it has none. */
  function GetStatistics(s: Store, username: string): (r: Result<StatisticsResponse>)
    ensures Repository.GetUserByUsername(s, username).None? ==> r == Err(UserNotFound)
    ensures Repository.GetUserByUsername(s, username).Some? ==>
              var user := Repository.GetUserByUsername(s, username).value;
              && r.Ok?
              && r.value.username == username
              && r.value.totalGames == |Repository.GamesOf(s.games, user.id)|
              && (forall g :: g in s.games && g.userId == user.id ==> g.consecutiveCorrectGuesses <= r.value.longestStreak)
              && (r.value.totalGames == 0 ==> r.value.longestStreak == 0)
              && (r.value.totalGames > 0 ==>
                    exists g :: g in s.games && g.userId == user.id && g.consecutiveCorrectGuesses == r.value.longestStreak)
  {
    match Repository.GetUserByUsername(s, username)
    case None => Err(UserNotFound)
    case Some(user) =>
      var stats := Repository.GetUserStatistics(s, user.id);
      Ok(StatisticsResponse(username, stats.totalGames, stats.longestStreak))
  }

  /** Deletes a known user's completed games and sessions, returning how many
      games were deleted. */
  function ClearStatistics(s: Store, username: string): (r: Step<Result<nat>>)
    ensures Repository.GetUserByUsername(s, username).None? ==> r == Step(Err(UserNotFound), s)
    ensures Repository.GetUserByUsername(s, username).Some? ==>
              var user := Repository.GetUserByUsername(s, username).value;
              && r.out.Ok?
              && r.out.value == |Repository.GamesOf(s.games, user.id)|
              && GetStatistics(r.next, username) == Ok(StatisticsResponse(username, 0, 0))
              && (forall k :: k in r.next.sessions ==> r.next.sessions[k].userId != user.id)
              && (forall other :: other != user.id ==>
                    Repository.GamesOf(r.next.games, other) == Repository.GamesOf(s.games, other))
              && (forall k :: k in s.sessions && s.sessions[k].userId != user.id ==>
                    k in r.next.sessions && r.next.sessions[k] == s.sessions[k])
              && r.next.sessions.Keys <= s.sessions.Keys
              && r.next.users == s.users
  {
    match Repository.GetUserByUsername(s, username)
    case None => Step(Err(UserNotFound), s)
    case Some(user) =>
      var cleared := Repository.ClearUserStatistics(s, user.id);
      Step(Ok(cleared.out), cleared.next)
  }

  // ---------------------------------------------------------------------
  // Properties across requests
  // ---------------------------------------------------------------------

  /** How one request may change the store: no user disappears, keys only
      grow, new sessions get keys never used before, and an inactive session
      is never changed or revived (it may only be deleted). */
  predicate Evolves(s: Store, t: Store) {
    && s.nextId <= t.nextId
    && (forall u :: u in s.users ==> u in t.users)
    && (forall k :: k in s.sessions && !s.sessions[k].active && k in t.sessions ==> t.sessions[k] == s.sessions[k])
    && (forall k :: k in t.sessions && k !in s.sessions ==> s.nextId <= k)
  }

  lemma GetOrCreateUserKeepsInvariant(s: Store, username: string)
    requires Valid(s)
    ensures Valid(GetOrCreateUser(s, username).next)
    ensures Evolves(s, GetOrCreateUser(s, username).next)
  {
    Repository.GetOrCreateUserPreservesValid(s, username);
  }

  lemma StartGameKeepsInvariant(s: Store, username: string, draw: int)
    requires Valid(s) && IsDraw(draw)
    ensures Valid(StartGame(s, username, draw).next)
    ensures Evolves(s, StartGame(s, username, draw).next)
  {
    var user := Repository.GetUserByUsername(s, username);
    if user.Some? {
      Repository.CreateGameSessionPreservesValid(s, user.value.id, draw);
    }
  }

  lemma MakeGuessKeepsInvariant(s: Store, sessionId: int, guess: string, draw: int)
    requires Valid(s) && IsDraw(draw)
    ensures Valid(MakeGuess(s, sessionId, guess, draw).next)
    ensures Evolves(s, MakeGuess(s, sessionId, guess, draw).next)
  {
    var session := Repository.GetActiveSession(s, sessionId);
    if session.Some? && (guess == "higher" || guess == "lower") {
      if IsCorrect(guess, session.value.currentNumber, draw) {
        Repository.UpdateSessionPreservesValid(s, sessionId, draw, session.value.consecutiveCorrect + 1);
      } else {
        Repository.EndGameSessionPreservesValid(s, sessionId);
      }
    }
  }

  lemma ClearStatisticsKeepsInvariant(s: Store, username: string)
    requires Valid(s)
    ensures Valid(ClearStatistics(s, username).next)
    ensures Evolves(s, ClearStatistics(s, username).next)
  {
    var user := Repository.GetUserByUsername(s, username);
    if user.Some? {
      Repository.ClearUserStatisticsPreservesValid(s, user.value.id);
    }
  }

  /** Clearing only deletes sessions: every session left was stored under the
      same key with the same value before. */
  lemma ClearStatisticsOnlyDeletes(s: Store, username: string)
    ensures var t := ClearStatistics(s, username).next;
            forall k :: k in t.sessions ==> k in s.sessions && t.sessions[k] == s.sessions[k]
  {
  }

  /** A session a wrong guess ended can no longer be played, whatever is
      guessed next. */
  lemma NoGuessAfterGameOver(s: Store, sessionId: int, guess: string, draw: int, guess': string, draw': int)
    requires IsDraw(draw) && IsDraw(draw')
    requires GuessAccepted(s, sessionId, guess)
    requires !MakeGuess(s, sessionId, guess, draw).out.value.success
    ensures var t := MakeGuess(s, sessionId, guess, draw).next;
            MakeGuess(t, sessionId, guess', draw') == Step(Err(InvalidSession), t)
  {
  }

  /** The store after `username` asks for one new game per draw, in order. */
  function StartMany(s: Store, username: string, draws: seq<int>): Store
    requires forall i :: 0 <= i < |draws| ==> IsDraw(draws[i])
    decreases |draws|
  {
    if |draws| == 0 then s
    else StartGame(StartMany(s, username, draws[..|draws| - 1]), username, draws[|draws| - 1]).next
  }

  /** Starting games never adds, removes or changes a user. */
  lemma {:induction false} StartManyKeepsUsers(s: Store, username: string, draws: seq<int>)
    requires forall i :: 0 <= i < |draws| ==> IsDraw(draws[i])
    ensures StartMany(s, username, draws).users == s.users
    decreases |draws|
  {
    if |draws| > 0 {
      StartManyKeepsUsers(s, username, draws[..|draws| - 1]);
    }
  }

  /** After any number of starts for a known user, exactly one of the user's
      sessions is active: the last one, holding the last draw. */
  lemma {:induction false} StartManyLeavesOneActive(s: Store, username: string, draws: seq<int>)
    requires forall i :: 0 <= i < |draws| ==> IsDraw(draws[i])
    requires Repository.GetUserByUsername(s, username).Some?
    requires |draws| > 0
    ensures var t := StartMany(s, username, draws);
            var user := Repository.GetUserByUsername(s, username).value;
            var newest := StartMany(s, username, draws[..|draws| - 1]).nextId;
            && ActiveSessionsOf(t.sessions, user.id) == {newest}
            && Repository.GetActiveSession(t, newest) == Some(GameSession(user.id, draws[|draws| - 1], 0, true))
  {
    var before := StartMany(s, username, draws[..|draws| - 1]);
    StartManyKeepsUsers(s, username, draws[..|draws| - 1]);
    var r := StartGame(before, username, draws[|draws| - 1]);
    assert ActiveSessionsOf(r.next.sessions, Repository.GetUserByUsername(s, username).value.id) == {r.out.value.sessionId};
  }
}
