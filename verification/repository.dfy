/** The repository layer: the queries and updates the game service issues
    against the store. Every mutating function is one committed transaction,
    so a caller sees either all of its effect or none of it. */
module Repository {
  import opened Records

  // ---------------------------------------------------------------------
  // Users
  // ---------------------------------------------------------------------

  /** Position of the first user called `username`, as the query's `first()`
      picks it. */
  function FindUser(users: seq<User>, username: string): (r: Option<nat>)
    ensures r.Some? ==> r.value < |users| && users[r.value].username == username
    ensures r.Some? ==> forall j :: 0 <= j < r.value ==> users[j].username != username
    ensures r.None? ==> forall j :: 0 <= j < |users| ==> users[j].username != username
  {
    if |users| == 0 then None
    else if users[0].username == username then Some(0)
    else match FindUser(users[1..], username)
      case None => None
      case Some(k) => Some(k + 1)
  }

  /** Exact, case-sensitive lookup by username. */
  function GetUserByUsername(s: Store, username: string): (r: Option<User>)
    ensures r.Some? ==> r.value in s.users && r.value.username == username
    ensures r.None? <==> forall u :: u in s.users ==> u.username != username
  {
    match FindUser(s.users, username)
    case None => None
    case Some(i) => Some(s.users[i])
  }

  /** Inserts a user under the next key; the unique constraint on usernames
      makes the insert fail, leaving the store as it was, when the name is
      taken. */
  function CreateUser(s: Store, username: string): (r: Step<Result<User>>)
    ensures GetUserByUsername(s, username).Some? ==> r == Step(Err(DuplicateUsername), s)
    ensures GetUserByUsername(s, username).None? ==>
              && r.out.Ok?
              && r.out.value.username == username
              && r.out.value.id == s.nextId
              && r.next.users == s.users + [r.out.value]
              && r.next.sessions == s.sessions
              && r.next.games == s.games
              && r.next.nextId > s.nextId
              && GetUserByUsername(r.next, username) == Some(r.out.value)
  {
    if GetUserByUsername(s, username).Some? then Step(Err(DuplicateUsername), s)
    else
      var u := User(s.nextId, username);
      var users' := s.users + [u];
      assert users'[|s.users|] == u;
      Step(Ok(u), s.(users := users', nextId := s.nextId + 1))
  }

  /** Returns the user called `username`, creating it if there is none. */
  function GetOrCreateUser(s: Store, username: string): (r: Step<User>)
    ensures r.out.username == username
    ensures GetUserByUsername(r.next, username) == Some(r.out)
    ensures GetUserByUsername(s, username).Some? ==> r == Step(GetUserByUsername(s, username).value, s)
    ensures GetUserByUsername(s, username).None? ==>
              && r.next.users == s.users + [r.out]
              && r.next.sessions == s.sessions
              && r.next.games == s.games
  {
    match GetUserByUsername(s, username)
    case Some(u) => Step(u, s)
    case None =>
      var created := CreateUser(s, username);
      Step(created.out.value, created.next)
  }

  /** Asking twice for the same name returns the same user and creates at
      most one record. */
  lemma GetOrCreateUserIdempotent(s: Store, username: string)
    ensures var first := GetOrCreateUser(s, username);
            && GetOrCreateUser(first.next, username) == first
            && |first.next.users| <= |s.users| + 1
  {
  }

  // ---------------------------------------------------------------------
  // Game sessions
  // ---------------------------------------------------------------------

  /** The session stored under `sessionId`, provided it is still active. */
  function GetActiveSession(s: Store, sessionId: int): (r: Option<GameSession>)
    ensures r.Some? <==> sessionId in s.sessions && s.sessions[sessionId].active
    ensures r.Some? ==> r.value == s.sessions[sessionId]
    ensures Valid(s) && r.Some? ==> ActiveSessionsOf(s.sessions, r.value.userId) == {sessionId}
  {
    if sessionId in s.sessions && s.sessions[sessionId].active then Some(s.sessions[sessionId]) else None
  }

  /** Clears the active flag of every session `userId` owns. */
  function DeactivateUser(sessions: map<nat, GameSession>, userId: nat): (r: map<nat, GameSession>)
    ensures r.Keys == sessions.Keys
    ensures ActiveSessionsOf(r, userId) == {}
    ensures forall k :: k in sessions && sessions[k].userId == userId ==> r[k] == sessions[k].(active := false)
    ensures forall k :: k in sessions && sessions[k].userId != userId ==> r[k] == sessions[k]
  {
    map k | k in sessions :: if sessions[k].userId == userId then sessions[k].(active := false) else sessions[k]
  }

  /** Ends every active session of `userId` and inserts a fresh active one
      holding `currentNumber` with a streak of 0, in one transaction. */
  function CreateGameSession(s: Store, userId: nat, currentNumber: int): (r: Step<nat>)
    ensures r.out == s.nextId && r.next.nextId == s.nextId + 1
    ensures r.out in r.next.sessions && r.next.sessions[r.out] == GameSession(userId, currentNumber, 0, true)
    ensures ActiveSessionsOf(r.next.sessions, userId) == {r.out}
    ensures r.next.sessions.Keys == s.sessions.Keys + {r.out}
    ensures forall k :: k in s.sessions && k != r.out && s.sessions[k].userId == userId ==>
              r.next.sessions[k] == s.sessions[k].(active := false)
    ensures forall k :: k in s.sessions && k != r.out && s.sessions[k].userId != userId ==>
              r.next.sessions[k] == s.sessions[k]
    ensures r.next.users == s.users && r.next.games == s.games
  {
    var id := s.nextId;
    var sessions' := DeactivateUser(s.sessions, userId)[id := GameSession(userId, currentNumber, 0, true)];
    Step(id, s.(sessions := sessions', nextId := id + 1))
  }

  /** Stores a new number and streak on an active session; an unknown or
      inactive id leaves the store untouched. */
  function UpdateSession(s: Store, sessionId: int, newNumber: int, consecutiveCorrect: nat): (r: Step<Option<GameSession>>)
    ensures GetActiveSession(s, sessionId).None? ==> r == Step(None, s)
    ensures GetActiveSession(s, sessionId).Some? ==>
              && r.out == Some(GameSession(GetActiveSession(s, sessionId).value.userId, newNumber, consecutiveCorrect, true))
              && GetActiveSession(r.next, sessionId) == r.out
              && r.next.sessions.Keys == s.sessions.Keys
              && (forall k :: k in s.sessions && k != sessionId ==> r.next.sessions[k] == s.sessions[k])
              && r.next.users == s.users && r.next.games == s.games && r.next.nextId == s.nextId
  {
    match GetActiveSession(s, sessionId)
    case None => Step(None, s)
    case Some(session) =>
      var updated := session.(currentNumber := newNumber, consecutiveCorrect := consecutiveCorrect);
      Step(Some(updated), s.(sessions := s.sessions[sessionId as nat := updated]))
  }

  /** Moves an active session into the history ledger: appends one completed
      game carrying the session's owner and streak, and clears the session's
      active flag. An unknown or inactive id is ignored. */
  function EndGameSession(s: Store, sessionId: int): (r: Store)
    ensures GetActiveSession(s, sessionId).None? ==> r == s
    ensures GetActiveSession(s, sessionId).Some? ==>
              var before := GetActiveSession(s, sessionId).value;
              && r.games == s.games + [Game(s.nextId, before.userId, before.consecutiveCorrect)]
              && sessionId in r.sessions && r.sessions[sessionId] == before.(active := false)
              && GetActiveSession(r, sessionId).None?
              && r.sessions.Keys == s.sessions.Keys
              && (forall k :: k in s.sessions && k != sessionId ==> r.sessions[k] == s.sessions[k])
              && r.users == s.users && r.nextId == s.nextId + 1
  {
    match GetActiveSession(s, sessionId)
    case None => s
    case Some(session) =>
      var game := Game(s.nextId, session.userId, session.consecutiveCorrect);
      s.(games := s.games + [game],
         sessions := s.sessions[sessionId as nat := session.(active := false)],
         nextId := s.nextId + 1)
  }

  /** A session is recorded in the ledger at most once: ending it again
      changes nothing. */
  lemma EndGameSessionOnce(s: Store, sessionId: int)
    ensures var once := EndGameSession(s, sessionId);
            EndGameSession(once, sessionId) == once
  {
  }

  // ---------------------------------------------------------------------
  // History ledger and statistics
  // ---------------------------------------------------------------------

  /** The completed games of `userId`, in ledger order. */
  function GamesOf(games: seq<Game>, userId: nat): (r: seq<Game>)
    ensures forall g :: g in r <==> g in games && g.userId == userId
    ensures forall g {:trigger multiset(r)[g]} :: multiset(r)[g] == if g.userId == userId then multiset(games)[g] else 0
    ensures |r| <= |games|
    decreases |games|
  {
    if |games| == 0 then []
    else
      var init := games[..|games| - 1];
      var last := games[|games| - 1];
      assert games == init + [last];
      var rest := GamesOf(init, userId);
      if last.userId == userId then rest + [last] else rest
  }

  /** The completed games of everybody but `userId`, in ledger order. */
  function GamesExcept(games: seq<Game>, userId: nat): (r: seq<Game>)
    ensures forall g :: g in r <==> g in games && g.userId != userId
    ensures forall g {:trigger multiset(r)[g]} :: multiset(r)[g] == if g.userId != userId then multiset(games)[g] else 0
    ensures |r| <= |games|
    decreases |games|
  {
    if |games| == 0 then []
    else
      var init := games[..|games| - 1];
      var last := games[|games| - 1];
      assert games == init + [last];
      var rest := GamesExcept(init, userId);
      if last.userId != userId then rest + [last] else rest
  }

  /** Longest streak among `games`, or 0 when there are none. */
  function MaxStreak(games: seq<Game>): (r: nat)
    ensures forall g :: g in games ==> g.consecutiveCorrectGuesses <= r
    ensures |games| == 0 ==> r == 0
    ensures |games| > 0 ==> exists g :: g in games && g.consecutiveCorrectGuesses == r
    decreases |games|
  {
    if |games| == 0 then 0
    else
      var init := games[..|games| - 1];
      var last := games[|games| - 1];
      assert games == init + [last];
      var m := MaxStreak(init);
      if last.consecutiveCorrectGuesses > m then last.consecutiveCorrectGuesses else m
  }

  /** Every game belongs either to `userId` or to somebody else. */
  lemma {:induction false} GamesPartition(games: seq<Game>, userId: nat)
    ensures |GamesOf(games, userId)| + |GamesExcept(games, userId)| == |games|
    decreases |games|
  {
    if |games| > 0 {
      GamesPartition(games[..|games| - 1], userId);
    }
  }

  /** Removing one user's games leaves every other user's history as it was,
      order and multiplicity included, and leaves that user none. */
  lemma {:induction false} GamesExceptKeepsOthers(games: seq<Game>, userId: nat, other: nat)
    ensures GamesOf(GamesExcept(games, userId), other) == if other == userId then [] else GamesOf(games, other)
    decreases |games|
  {
    if |games| > 0 {
      var init := games[..|games| - 1];
      var last := games[|games| - 1];
      GamesExceptKeepsOthers(init, userId, other);
      var rest := GamesExcept(init, userId);
      if last.userId != userId {
        assert (rest + [last])[..|rest + [last]| - 1] == rest;
      }
    } else if other == userId {
      assert GamesOf(GamesExcept(games, userId), other) == [];
    }
  }

  /** Filtering the ledger keeps its ids distinct. */
  lemma {:induction false} GamesExceptDistinct(games: seq<Game>, userId: nat)
    requires GameIdsDistinct(games)
    ensures GameIdsDistinct(GamesExcept(games, userId))
    decreases |games|
  {
    if |games| > 0 {
      var init := games[..|games| - 1];
      var last := games[|games| - 1];
      assert GameIdsDistinct(init);
      GamesExceptDistinct(init, userId);
      var rest := GamesExcept(init, userId);
      if last.userId != userId {
        var r := rest + [last];
        forall i, j | 0 <= i < j < |r| ensures r[i].id != r[j].id {
          if j == |rest| {
            assert r[i] in init;
            var p :| 0 <= p < |init| && init[p] == r[i];
            assert games[p] == r[i] && games[|games| - 1] == last;
          } else {
            assert r[i] == rest[i] && r[j] == rest[j];
          }
        }
      }
    }
  }

  lemma GamesOfAppend(games: seq<Game>, g: Game, userId: nat)
    ensures GamesOf(games + [g], userId) == GamesOf(games, userId) + (if g.userId == userId then [g] else [])
  {
    assert (games + [g])[..|games|] == games;
  }

  lemma MaxStreakAppend(games: seq<Game>, g: Game)
    ensures MaxStreak(games + [g]) ==
              if g.consecutiveCorrectGuesses > MaxStreak(games) then g.consecutiveCorrectGuesses else MaxStreak(games)
  {
    assert (games + [g])[..|games|] == games;
  }

  datatype Statistics = Statistics(totalGames: nat, longestStreak: nat)

  /** The statistics of `userId` over a ledger, as the count and maximum
      queries compute them. */
  function StatsOf(games: seq<Game>, userId: nat): Statistics {
    Statistics(|GamesOf(games, userId)|, MaxStreak(GamesOf(games, userId)))
  }

  /** What scanning one more ledger entry does to the statistics of the
      scanned prefix. */
  lemma AggregateStep(games: seq<Game>, i: nat, userId: nat)
    requires i < |games|
    ensures var before := StatsOf(games[..i], userId);
            var g := games[i];
            StatsOf(games[..i + 1], userId) ==
              if g.userId != userId then before
              else if g.consecutiveCorrectGuesses > before.longestStreak
              then Statistics(before.totalGames + 1, g.consecutiveCorrectGuesses)
              else Statistics(before.totalGames + 1, before.longestStreak)
  {
    var g := games[i];
    assert games[..i + 1] == games[..i] + [g];
    GamesOfAppend(games[..i], g, userId);
    if g.userId == userId {
      MaxStreakAppend(GamesOf(games[..i], userId), g);
    }
  }

  /** Number of completed games of `userId` and their longest streak (0 when
      there are none). */
  function GetUserStatistics(s: Store, userId: nat): (r: Statistics)
    ensures r.totalGames == |GamesOf(s.games, userId)|
    ensures r.totalGames <= |s.games|
    ensures forall g :: g in s.games && g.userId == userId ==> g.consecutiveCorrectGuesses <= r.longestStreak
    ensures r.totalGames == 0 ==> r.longestStreak == 0
    ensures r.totalGames > 0 ==>
              exists g :: g in s.games && g.userId == userId && g.consecutiveCorrectGuesses == r.longestStreak
  {
    StatsOf(s.games, userId)
  }

  /** An equivalent single scan of the ledger for the count and maximum
      queries: it counts the user's games and keeps their running maximum. */
  method AggregateStatistics(s: Store, userId: nat) returns (stats: Statistics)
    ensures stats == GetUserStatistics(s, userId)
  {
    var total := 0;
    var longest := 0;
    var i := 0;
    while i < |s.games|
      invariant 0 <= i <= |s.games|
      invariant Statistics(total, longest) == StatsOf(s.games[..i], userId)
    {
      AggregateStep(s.games, i, userId);
      var g := s.games[i];
      if g.userId == userId {
        total := total + 1;
        if g.consecutiveCorrectGuesses > longest {
          longest := g.consecutiveCorrectGuesses;
        }
      }
      i := i + 1;
    }
    assert s.games[..i] == s.games;
    stats := Statistics(total, longest);
  }

  /** Deletes all completed games and all sessions (active or not) of
      `userId` and returns how many games were deleted. */
  function ClearUserStatistics(s: Store, userId: nat): (r: Step<nat>)
    ensures r.out == |GamesOf(s.games, userId)|
    ensures |r.next.games| + r.out == |s.games|
    ensures GetUserStatistics(r.next, userId) == Statistics(0, 0)
    ensures forall other :: other != userId ==> GamesOf(r.next.games, other) == GamesOf(s.games, other)
    ensures forall k :: k in r.next.sessions ==> r.next.sessions[k].userId != userId
    ensures forall k :: k in s.sessions && s.sessions[k].userId != userId ==>
              k in r.next.sessions && r.next.sessions[k] == s.sessions[k]
    ensures r.next.sessions.Keys <= s.sessions.Keys
    ensures r.next.users == s.users && r.next.nextId == s.nextId
  {
    var count := |GamesOf(s.games, userId)|;
    var games' := GamesExcept(s.games, userId);
    GamesPartition(s.games, userId);
    GamesExceptKeepsOthers(s.games, userId, userId);
    assert forall other :: GamesOf(games', other) == if other == userId then [] else GamesOf(s.games, other) by {
      forall other ensures GamesOf(games', other) == if other == userId then [] else GamesOf(s.games, other) {
        GamesExceptKeepsOthers(s.games, userId, other);
      }
    }
    var sessions' := map k | k in s.sessions && s.sessions[k].userId != userId :: s.sessions[k];
    Step(count, s.(games := games', sessions := sessions'))
  }

  // ---------------------------------------------------------------------
  // The store invariant is kept by every mutation
  // ---------------------------------------------------------------------

  lemma CreateUserPreservesValid(s: Store, username: string)
    requires Valid(s)
    ensures Valid(CreateUser(s, username).next)
  {
    var r := CreateUser(s, username);
    if r.out.Ok? {
      var users := r.next.users;
      forall i, j | 0 <= i < j < |users|
        ensures users[i].id != users[j].id && users[i].username != users[j].username
      {
        if j == |s.users| {
          assert users[i] == s.users[i] && users[i] in s.users;
        }
      }
    }
  }

  lemma GetOrCreateUserPreservesValid(s: Store, username: string)
    requires Valid(s)
    ensures Valid(GetOrCreateUser(s, username).next)
  {
    CreateUserPreservesValid(s, username);
  }

  lemma CreateGameSessionPreservesValid(s: Store, userId: nat, currentNumber: int)
    requires Valid(s)
    ensures Valid(CreateGameSession(s, userId, currentNumber).next)
  {
    var r := CreateGameSession(s, userId, currentNumber);
    forall other: nat ensures |ActiveSessionsOf(r.next.sessions, other)| <= 1 {
      if other != userId {
        AtMostOneActivePerUser(s.sessions, other);
        assert ActiveSessionsOf(r.next.sessions, other) == ActiveSessionsOf(s.sessions, other);
      }
    }
    PerUserAtMostOneActive(r.next.sessions);
  }

  lemma UpdateSessionPreservesValid(s: Store, sessionId: int, newNumber: int, consecutiveCorrect: nat)
    requires Valid(s)
    ensures Valid(UpdateSession(s, sessionId, newNumber, consecutiveCorrect).next)
  {
  }

  lemma EndGameSessionPreservesValid(s: Store, sessionId: int)
    requires Valid(s)
    ensures Valid(EndGameSession(s, sessionId))
  {
    var r := EndGameSession(s, sessionId);
    if GetActiveSession(s, sessionId).Some? {
      forall i, j | 0 <= i < j < |r.games| ensures r.games[i].id != r.games[j].id {
        if j == |s.games| {
          assert r.games[i] == s.games[i] && s.games[i] in s.games;
        }
      }
    }
  }

  lemma ClearUserStatisticsPreservesValid(s: Store, userId: nat)
    requires Valid(s)
    ensures Valid(ClearUserStatistics(s, userId).next)
  {
    GamesExceptDistinct(s.games, userId);
  }
}
