/** Records of the higher-or-lower game backend and the store that holds them.

    The relational database is modelled as one immutable value: the users
    table, the game-session table keyed by its primary key, the ledger of
    completed games, and a counter that hands out fresh primary keys.
    Timestamps are not modelled. */
module Records {

  datatype Option<+T> = None | Some(value: T)

  /** Why an operation fails. The service raises one exception type for the
      first three; the last is the unique constraint on usernames. */
  datatype GameError = UserNotFound | InvalidSession | InvalidGuess | DuplicateUsername

  datatype Result<+T> = Ok(value: T) | Err(error: GameError)

  /** A player; never changed and never deleted. */
  datatype User = User(id: nat, username: string)

  /** A game in progress (active) or abandoned / lost (inactive). Its id is
      the key under which the store holds it. */
  datatype GameSession = GameSession(userId: nat, currentNumber: int, consecutiveCorrect: nat, active: bool)

  /** A completed game in the history ledger. */
  datatype Game = Game(id: nat, userId: nat, consecutiveCorrectGuesses: nat)

  datatype Store = Store(users: seq<User>, sessions: map<nat, GameSession>, games: seq<Game>, nextId: nat)

  /** What a state transition returns, together with the store it leaves. */
  datatype Step<+T> = Step(out: T, next: Store)

  /** Every stored key is below the next key to be handed out. */
  predicate IdsBelowNext(s: Store) {
    && (forall i :: 0 <= i < |s.users| ==> s.users[i].id < s.nextId)
    && (forall k :: k in s.sessions ==> k < s.nextId)
    && (forall g :: g in s.games ==> g.id < s.nextId)
  }

  /** Users have distinct ids and distinct usernames. */
  predicate UsersDistinct(users: seq<User>) {
    forall i, j :: 0 <= i < j < |users| ==> users[i].id != users[j].id && users[i].username != users[j].username
  }

  /** Completed games have distinct ids. */
  predicate GameIdsDistinct(games: seq<Game>) {
    forall i, j :: 0 <= i < j < |games| ==> games[i].id != games[j].id
  }

  /** The central invariant: a user owns at most one active session. */
  predicate AtMostOneActive(sessions: map<nat, GameSession>) {
    forall a, b | a in sessions && b in sessions ::
      (sessions[a].active && sessions[b].active && sessions[a].userId == sessions[b].userId) ==> a == b
  }

  /** The keys of the active sessions that `userId` owns. */
  function ActiveSessionsOf(sessions: map<nat, GameSession>, userId: nat): set<nat> {
    set k | k in sessions && sessions[k].active && sessions[k].userId == userId
  }

  predicate Valid(s: Store) {
    && IdsBelowNext(s)
    && UsersDistinct(s.users)
    && GameIdsDistinct(s.games)
    && AtMostOneActive(s.sessions)
  }

  /** The invariant, read as a statement about each user: no user has two
      active sessions. */
  lemma {:induction false} AtMostOneActivePerUser(sessions: map<nat, GameSession>, userId: nat)
    requires AtMostOneActive(sessions)
    ensures |ActiveSessionsOf(sessions, userId)| <= 1
  {
    var act := ActiveSessionsOf(sessions, userId);
    if act != {} {
      var k :| k in act;
      assert act == {k};
    }
  }

  /** Conversely, when no user has two active sessions the invariant holds. */
  lemma {:induction false} PerUserAtMostOneActive(sessions: map<nat, GameSession>)
    requires forall userId: nat :: |ActiveSessionsOf(sessions, userId)| <= 1
    ensures AtMostOneActive(sessions)
  {
    forall a, b | a in sessions && b in sessions &&
                  sessions[a].active && sessions[b].active && sessions[a].userId == sessions[b].userId
      ensures a == b
    {
      var act := ActiveSessionsOf(sessions, sessions[a].userId);
      assert a in act && b in act;
      assert |act - {a}| == |act| - 1;
      assert act - {a} == {};
    }
  }
}
