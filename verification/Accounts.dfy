/** Users, refresh-token sessions and TOTP records: the tables, the services over them, and their histories. */
module Accounts {
  import opened Results

  /** Thirty days, in seconds. */
  const SESSION_TTL: int := 30 * 24 * 60 * 60

  datatype User = User(id: string, email: string, hash: string, mfaRequired: bool)
  datatype Session = Session(id: string, user: string, expires: int, mfa: bool)
  datatype Totp = Totp(user: string, secret: string, confirmed: bool)

  /** Users by name, sessions by refresh token (unique), TOTP records by id. */
  datatype Db = Db(users: map<string, User>, sessions: map<string, Session>, totps: map<string, Totp>)

  const EMPTY := Db(map[], map[], map[])

  // Statements.

  /**
   * `prover` is the user whose code was accepted when the session was marked; the statement itself names the session
   * only.
   */
  datatype Stmt =
    | InsertSession(token: string, session: Session, now: int)
    | MarkMfa(sessionId: string, prover: string, now: int)
    | DeleteSession(token: string, now: int)
    | DeleteExpired(now: int)

  function Marked(sessions: map<string, Session>, id: string): map<string, Session> {
    map t | t in sessions :: if sessions[t].id == id then sessions[t].(mfa := true) else sessions[t]
  }

  function Unexpired(sessions: map<string, Session>, now: int): map<string, Session> {
    map t | t in sessions && sessions[t].expires >= now :: sessions[t]
  }

  /** An insert of a token that is already stored violates the unique constraint and changes nothing. */
  function Applied(sessions: map<string, Session>, st: Stmt): map<string, Session> {
    match st
    case InsertSession(t, s, _) => if t in sessions then sessions else sessions[t := s]
    case MarkMfa(id, _, _) => Marked(sessions, id)
    case DeleteSession(t, _) => sessions - {t}
    case DeleteExpired(now) => Unexpired(sessions, now)
  }

  datatype AuthError = UserExists | InvalidCredentials | StoreFailed | MfaInvalid

  /** Subject and MFA flag of an access token. */
  datatype Access = Access(user: string, mfa: bool)

  function Refreshed(sessions: map<string, Session>, token: string, now: int): Result<Access, AuthError> {
    if token !in sessions || now > sessions[token].expires then Err(InvalidCredentials)
    else Ok(Access(sessions[token].user, sessions[token].mfa))
  }

  // Session histories.

  function Sessions(run: seq<Stmt>): map<string, Session> {
    if run == [] then map[] else Applied(Sessions(run[..|run| - 1]), run[|run| - 1])
  }

  ghost predicate InOrder(run: seq<Stmt>) { forall i, j :: 0 <= i < j < |run| ==> run[i].now <= run[j].now }

  /**
   * The session a token stands for by its history alone: the latest successful insert that no explicit delete has
   * followed, with the MFA marks since. Expiry sweeps play no part in it.
   */
  ghost function Life(run: seq<Stmt>, token: string): Option<Session> {
    if run == [] then None else
      LifeNext(Life(run[..|run| - 1], token), token in Sessions(run[..|run| - 1]), run[|run| - 1], token)
  }

  function LifeNext(before: Option<Session>, stored: bool, st: Stmt, token: string): Option<Session> {
    match st
    case InsertSession(t, s, _) => if t == token && !stored then Some(s) else before
    case MarkMfa(id, _, _) => if before.Some? && before.value.id == id then Some(before.value.(mfa := true)) else before
    case DeleteSession(t, _) => if t == token then None else before
    case DeleteExpired(_) => before
  }

  /** A stored session is the token's life; a life that is not stored has expired. */
  lemma {:induction false} StoredIsLife(run: seq<Stmt>, token: string, now: int)
    requires InOrder(run) && (run != [] ==> run[|run| - 1].now <= now)
    ensures token in Sessions(run) ==> Life(run, token) == Some(Sessions(run)[token])
    ensures token !in Sessions(run) ==> Life(run, token).None? || Life(run, token).value.expires < now
  {
    if run != [] {
      var front := run[..|run| - 1];
      StoredIsLife(front, token, run[|run| - 1].now);
    }
  }

  /**
   * Refresh succeeds exactly for a token whose life goes on and has not expired, with that session's subject and
   * flag.
   */
  lemma RefreshHistory(run: seq<Stmt>, token: string, now: int)
    requires InOrder(run) && (run != [] ==> run[|run| - 1].now <= now)
    ensures Refreshed(Sessions(run), token, now) ==
            match Life(run, token)
            case None => Err(InvalidCredentials)
            case Some(s) => if now > s.expires then Err(InvalidCredentials) else Ok(Access(s.user, s.mfa))
  {
    StoredIsLife(run, token, now);
  }

  /** Statement `i` opens a session: its token was not stored. */
  ghost predicate Opens(run: seq<Stmt>, i: nat, token: string)
    requires i < |run|
  {
    run[i].InsertSession? && run[i].token == token && token !in Sessions(run[..i])
  }

  ghost predicate Ends(run: seq<Stmt>, i: nat, token: string)
    requires i < |run|
  {
    run[i].DeleteSession? && run[i].token == token
  }

  /** Some statement after number `i` marks that session id as verified. */
  ghost predicate MarkedSince(run: seq<Stmt>, i: nat, id: string) {
    exists j :: i < j < |run| && run[j].MarkMfa? && run[j].sessionId == id
  }

  /**
   * The life of a token as its history tells it: statement `i` opened it and nothing has ended or replaced it since.
   */
  ghost predicate OpenedBy(run: seq<Stmt>, i: nat, token: string) {
    && i < |run| && Opens(run, i, token)
    && (forall j :: i < j < |run| ==> !Opens(run, j, token) && !Ends(run, j, token))
  }

  lemma OpensInPrefix(run: seq<Stmt>, n: nat, j: nat, token: string)
    requires j < n <= |run|
    ensures Opens(run[..n], j, token) == Opens(run, j, token) && Ends(run[..n], j, token) == Ends(run, j, token)
  {
    assert run[..n][..j] == run[..j];
  }

  /** One more statement that neither opens nor ends the token's session. */
  lemma OpenedByNext(run: seq<Stmt>, n: nat, token: string, i: nat)
    requires n < |run| && OpenedBy(run[..n], i, token) && !Opens(run, n, token) && !Ends(run, n, token)
    ensures OpenedBy(run[..n + 1], i, token)
  {
    hide Opens, Ends;
    OpensInPrefix(run, n, i, token);
    OpensInPrefix(run, n + 1, i, token);
    var longer := run[..n + 1];
    forall j: nat | i < j < |longer| ensures !Opens(longer, j, token) && !Ends(longer, j, token) {
      OpensInPrefix(run, n + 1, j, token);
      if j < n {
        OpensInPrefix(run, n, j, token);
      }
    }
  }

  lemma MarkedSinceNext(run: seq<Stmt>, n: nat, i: nat, id: string)
    requires i < n < |run|
    ensures MarkedSince(run[..n + 1], i, id) <==>
            MarkedSince(run[..n], i, id) || (run[n].MarkMfa? && run[n].sessionId == id)
  {
    forall j | i < j < n ensures run[..n + 1][j] == run[..n][j] {}
    assert run[..n + 1][n] == run[n];
    if MarkedSince(run[..n], i, id) {
      var j :| i < j < n && run[..n][j].MarkMfa? && run[..n][j].sessionId == id;
      assert run[..n + 1][j] == run[..n][j];
    }
  }

  /**
   * Who a life belongs to and when it expires are as inserted; its flag is the inserted one or a later mark of its
   * id.
   */
  lemma {:induction false} LifeHistory(run: seq<Stmt>, token: string) returns (i: nat)
    requires Life(run, token).Some?
    ensures OpenedBy(run, i, token)
    ensures var s := run[i].session;
            Life(run, token) == Some(s.(mfa := s.mfa || MarkedSince(run, i, s.id)))
  {
    var n := |run| - 1;
    if Opens(run, n, token) {
      i := n;
    } else {
      i := LifeHistory(run[..n], token);
      OpenedByNext(run, n, token, i);
      MarkedSinceNext(run, n, i, run[i].session.id);
      assert run[..n + 1] == run;
    }
  }

  /**
   * A token that refreshes does so for the user of the session that opened it, and carries the MFA flag exactly if
   * that session was opened verified or has been marked since.
   */
  lemma RefreshFlag(run: seq<Stmt>, token: string, now: int) returns (i: nat)
    requires InOrder(run) && (run != [] ==> run[|run| - 1].now <= now) && Refreshed(Sessions(run), token, now).Ok?
    ensures OpenedBy(run, i, token)
    ensures var s := run[i].session;
            && now <= s.expires
            && Refreshed(Sessions(run), token, now).value == Access(s.user, s.mfa || MarkedSince(run, i, s.id))
  {
    RefreshHistory(run, token, now);
    i := LifeHistory(run, token);
  }

  /** Every access token a refresh hands out, at any point of the run, carries the flag. */
  ghost predicate AlwaysFlagged(run: seq<Stmt>) {
    forall n: nat, token, now :: n <= |run| && (n > 0 ==> run[n - 1].now <= now) ==> Flagged(run[..n], token, now)
  }

  ghost predicate Flagged(run: seq<Stmt>, token: string, now: int) {
    Refreshed(Sessions(run), token, now).Ok? ==> Refreshed(Sessions(run), token, now).value.mfa
  }

  /** No session is opened unverified: nobody who has to present a code logs in. */
  ghost predicate OpenedVerified(run: seq<Stmt>) {
    forall i: nat :: i < |run| && run[i].InsertSession? && Opens(run, i, run[i].token) ==> run[i].session.mfa
  }

  lemma FlaggedWhen(run: seq<Stmt>, n: nat, token: string, now: int)
    requires InOrder(run) && OpenedVerified(run) && n <= |run| && (n > 0 ==> run[n - 1].now <= now)
    ensures Flagged(run[..n], token, now)
  {
    if Refreshed(Sessions(run[..n]), token, now).Ok? {
      hide Sessions, MarkedSince;
      var i := RefreshFlag(run[..n], token, now);
      OpensInPrefix(run, n, i, token);
    }
  }

  /** Right after an unverified session is opened, its token refreshes without the flag. */
  lemma UnflaggedAfter(run: seq<Stmt>, i: nat)
    requires i < |run| && run[i].InsertSession? && Opens(run, i, run[i].token)
    requires !run[i].session.mfa && run[i].session.expires >= run[i].now
    ensures !Flagged(run[..i + 1], run[i].token, run[i].now)
  {
    hide Sessions, Life;
    OneMore(run[..i], run[i], run[i].token);
    assert run[..i + 1] == run[..i] + [run[i]];
  }

  /** Refresh hands out flagged access tokens only, exactly when no session is opened unverified. */
  lemma AlwaysFlaggedIff(run: seq<Stmt>)
    requires InOrder(run) && Lasting(run)
    ensures AlwaysFlagged(run) <==> OpenedVerified(run)
  {
    hide Flagged, Opens, InOrder;
    if OpenedVerified(run) {
      forall n: nat, token, now | n <= |run| && (n > 0 ==> run[n - 1].now <= now)
        ensures Flagged(run[..n], token, now)
      {
        FlaggedWhen(run, n, token, now);
      }
    } else {
      var i: nat :| i < |run| && run[i].InsertSession? && Opens(run, i, run[i].token) && !run[i].session.mfa;
      UnflaggedAfter(run, i);
    }
  }

  /**
   * One login of somebody who has to present a code: the token refreshes before any code is checked, without the
   * flag.
   */
  lemma UnflaggedRefresh() returns (run: seq<Stmt>)
    ensures InOrder(run) && Lasting(run) && Refreshed(Sessions(run), "t", 1) == Ok(Access("u", false))
  {
    run := [InsertSession("t", Session("s", "u", SESSION_TTL, false), 0)];
    assert run[..0] == [];
  }

  /** The session has been marked since by a code of that user. */
  ghost predicate MarkedBy(run: seq<Stmt>, i: nat, id: string, user: string) {
    exists j :: i < j < |run| && run[j].MarkMfa? && run[j].sessionId == id && run[j].prover == user
  }

  /**
   * If the token refreshes with the flag, its session was opened verified or a code of its own user was accepted
   * since.
   */
  ghost predicate OwnFlag(run: seq<Stmt>, token: string, now: int) {
    var r := Refreshed(Sessions(run), token, now);
    r.Ok? && r.value.mfa ==>
      exists i: nat ::
        OpenedBy(run, i, token) && (run[i].session.mfa || MarkedBy(run, i, run[i].session.id, r.value.user))
  }

  ghost predicate OwnFlags(run: seq<Stmt>) {
    forall n: nat, token, now :: n <= |run| && (n > 0 ==> run[n - 1].now <= now) ==> OwnFlag(run[..n], token, now)
  }

  /** Statement `j` marks a live unverified session of somebody else than the user whose code was accepted. */
  ghost predicate MarksOther(run: seq<Stmt>, j: nat, token: string)
    requires j < |run|
  {
    run[j].MarkMfa? && token in Sessions(run[..j]) &&
    var s := Sessions(run[..j])[token];
    s.id == run[j].sessionId && !s.mfa && s.expires >= run[j].now && s.user != run[j].prover
  }

  ghost predicate MarksOwn(run: seq<Stmt>) { forall j: nat, token :: j < |run| ==> !MarksOther(run, j, token) }

  lemma OpenedByOnce(run: seq<Stmt>, i: nat, k: nat, token: string)
    requires OpenedBy(run, i, token) && OpenedBy(run, k, token)
    ensures i == k
  {
  }

  lemma OpenedByPrefix(run: seq<Stmt>, n: nat, i: nat, token: string)
    requires OpenedBy(run, i, token) && i < n <= |run|
    ensures OpenedBy(run[..n], i, token)
  {
    OpensInPrefix(run, n, i, token);
    hide Opens, Ends;
    var front := run[..n];
    forall j: nat | i < j < |front| ensures !Opens(front, j, token) && !Ends(front, j, token) {
      OpensInPrefix(run, n, j, token);
    }
  }

  lemma {:induction false} FirstMark(run: seq<Stmt>, i: nat, n: nat, id: string) returns (j: nat)
    requires n <= |run| && MarkedSince(run[..n], i, id)
    ensures i < j < n && run[j].MarkMfa? && run[j].sessionId == id && !MarkedSince(run[..j], i, id)
    decreases n
  {
    var k: nat :| i < k < n && run[..n][k].MarkMfa? && run[..n][k].sessionId == id;
    if MarkedSince(run[..k], i, id) {
      j := FirstMark(run, i, k, id);
    } else {
      j := k;
    }
  }

  /**
   * A token whose session was opened unverified and unmarked so far: while it has not expired it is stored like that.
   */
  lemma StoredUnmarked(run: seq<Stmt>, i: nat, token: string, now: int)
    requires InOrder(run) && (run != [] ==> run[|run| - 1].now <= now)
    requires OpenedBy(run, i, token) && Life(run, token).Some?
    requires var s := run[i].session; !s.mfa && !MarkedSince(run, i, s.id) && now <= s.expires
    ensures token in Sessions(run) && Sessions(run)[token] == run[i].session
  {
    var k := LifeHistory(run, token);
    OpenedByOnce(run, i, k, token);
    StoredIsLife(run, token, now);
  }

  /** A token that has been opened and not ended since has a life. */
  lemma {:induction false} OpenedLives(run: seq<Stmt>, i: nat, token: string)
    requires OpenedBy(run, i, token)
    ensures Life(run, token).Some?
    decreases run
  {
    var n := |run| - 1;
    if i < n {
      OpenedByPrefix(run, n, i, token);
      OpenedLives(run[..n], i, token);
      assert !Ends(run, n, token);
    }
  }

  lemma OwnFlagWhen(run: seq<Stmt>, n: nat, token: string, now: int)
    requires InOrder(run) && MarksOwn(run) && n <= |run| && (n > 0 ==> run[n - 1].now <= now)
    ensures OwnFlag(run[..n], token, now)
  {
    var front := run[..n];
    var r := Refreshed(Sessions(front), token, now);
    if r.Ok? && r.value.mfa {
      hide Sessions, Life, Refreshed, Opens;
      var i := RefreshFlag(front, token, now);
      if !run[i].session.mfa {
        OwnMark(run, n, i, token, now);
      }
    }
  }

  lemma OwnMark(run: seq<Stmt>, n: nat, i: nat, token: string, now: int)
    requires InOrder(run) && MarksOwn(run) && 0 < n <= |run| && run[n - 1].now <= now && OpenedBy(run[..n], i, token)
    requires var s := run[i].session; !s.mfa && MarkedSince(run[..n], i, s.id) && now <= s.expires
    ensures MarkedBy(run[..n], i, run[i].session.id, run[i].session.user)
  {
    var s := run[i].session;
    var j := FirstMark(run, i, n, s.id);
    assert run[..n][..j] == run[..j] && run[..n][j] == run[j];
    OpenedByPrefix(run[..n], j, i, token);
    OpenedLives(run[..j], i, token);
    hide Sessions, Life, Opens, OpenedBy;
    StoredUnmarked(run[..j], i, token, run[j].now);
    assert !MarksOther(run, j, token);
  }

  /** Right after such a mark the token refreshes with a flag that no code of its user stands for. */
  lemma MarksOtherShows(run: seq<Stmt>, j: nat, token: string)
    requires InOrder(run) && j < |run| && MarksOther(run, j, token)
    ensures !OwnFlag(run[..j + 1], token, run[j].now)
  {
    var front, all := run[..j], run[..j + 1];
    assert all == front + [run[j]];
    StoredIsLife(front, token, run[j].now);
    var i := LifeHistory(front, token);
    OneMore(front, run[j], token);
    assert all[..j] == front && run[..i] == front[..i];
    OpenedByNext(run, j, token, i);
    assert Refreshed(Sessions(all), token, run[j].now) == Ok(Access(Sessions(front)[token].user, true));
    hide Sessions, Life, Refreshed, Opens, OpenedBy;
    forall k: nat | OpenedBy(all, k, token) ensures k == i { OpenedByOnce(all, i, k, token); }
    NotMarkedBy(run, j, i);
  }

  lemma NotMarkedBy(run: seq<Stmt>, j: nat, i: nat)
    requires i < j < |run| && run[i].InsertSession? && !MarkedSince(run[..j], i, run[i].session.id)
    requires run[j].MarkMfa? && run[j].prover != run[i].session.user
    ensures !MarkedBy(run[..j + 1], i, run[i].session.id, run[i].session.user)
  {
    forall k: nat | i < k < j ensures run[..j + 1][k] == run[..j][k] {}
  }

  /**
   * At every point of a run flags come from codes of the session's own user, exactly when marks hit own sessions
   * only.
   */
  lemma OwnFlagsIff(run: seq<Stmt>)
    requires InOrder(run)
    ensures OwnFlags(run) <==> MarksOwn(run)
  {
    hide OwnFlag, MarksOther, InOrder;
    if MarksOwn(run) {
      forall n: nat, token, now | n <= |run| && (n > 0 ==> run[n - 1].now <= now)
        ensures OwnFlag(run[..n], token, now)
      {
        OwnFlagWhen(run, n, token, now);
      }
    } else {
      var j: nat, token :| j < |run| && MarksOther(run, j, token);
      MarksOtherShows(run, j, token);
    }
  }

  /** A session of "v" marked by a code of "u" refreshes with the flag. */
  lemma OtherUsersMark() returns (run: seq<Stmt>)
    ensures InOrder(run) && Lasting(run)
    ensures Refreshed(Sessions(run), "t", 1) == Ok(Access("v", true)) && !OwnFlag(run, "t", 1)
  {
    run := [InsertSession("t", Session("s", "v", SESSION_TTL, false), 0), MarkMfa("s", "u", 1)];
    assert run[..1] == [run[0]] && run[..1][..0] == [] && run[..2] == run;
    assert MarksOther(run, 1, "t");
    MarksOtherShows(run, 1, "t");
  }

  /** The same history without its expiry sweeps. */
  function Unswept(run: seq<Stmt>): seq<Stmt> {
    if run == [] then [] else
      Unswept(run[..|run| - 1]) + if run[|run| - 1].DeleteExpired? then [] else [run[|run| - 1]]
  }

  lemma OneMore(run: seq<Stmt>, st: Stmt, token: string)
    ensures Sessions(run + [st]) == Applied(Sessions(run), st)
    ensures Life(run + [st], token) == LifeNext(Life(run, token), token in Sessions(run), st, token)
    ensures Unswept(run + [st]) == if st.DeleteExpired? then Unswept(run) else Unswept(run) + [st]
  {
    assert (run + [st])[..|run|] == run;
  }

  /** The token is stored exactly while its life goes on, as that session. */
  ghost predicate Tracks(run: seq<Stmt>, token: string) {
    Life(run, token) == if token in Sessions(run) then Some(Sessions(run)[token]) else None
  }

  /** What a statement other than a sweep does to one token. */
  lemma AppliedAt(sessions: map<string, Session>, st: Stmt, token: string)
    requires !st.DeleteExpired?
    ensures var after := Applied(sessions, st);
            (if token in after then Some(after[token]) else None) ==
            LifeNext(if token in sessions then Some(sessions[token]) else None, token in sessions, st, token)
  {
  }

  lemma TracksStep(run: seq<Stmt>, st: Stmt, token: string)
    requires Tracks(run, token) && !st.DeleteExpired?
    ensures Tracks(run + [st], token)
  {
    hide Sessions, Life, Applied, LifeNext;
    OneMore(run, st, token);
    AppliedAt(Sessions(run), st, token);
  }

  /** Without sweeps the table tracks every token's life. */
  lemma {:induction false} StoredUnswept(run: seq<Stmt>, token: string)
    ensures Tracks(Unswept(run), token)
  {
    if run != [] {
      var front, last := run[..|run| - 1], run[|run| - 1];
      StoredUnswept(front, token);
      if last.DeleteExpired? {
        assert Unswept(run) == Unswept(front);
      } else {
        TracksStep(Unswept(front), last, token);
      }
    }
  }

  /** Statement `j` stores a token again whose earlier session had expired and been swept away. */
  ghost predicate LateInsert(run: seq<Stmt>, j: nat)
    requires j < |run|
  {
    run[j].InsertSession? && run[j].token !in Sessions(run[..j]) && Life(run[..j], run[j].token).Some?
  }

  ghost predicate NoLateInsert(run: seq<Stmt>) { forall j: nat :: j < |run| ==> !LateInsert(run, j) }

  lemma LateInPrefix(run: seq<Stmt>, n: nat, j: nat)
    requires j < n <= |run|
    ensures LateInsert(run[..n], j) == LateInsert(run, j)
  {
    assert run[..n][..j] == run[..j];
  }

  lemma {:induction false} UnsweptLife(run: seq<Stmt>, token: string)
    requires InOrder(run) && NoLateInsert(run)
    ensures Life(Unswept(run), token) == Life(run, token)
  {
    if run != [] {
      var n := |run| - 1;
      var front, last := run[..n], run[n];
      forall j: nat | j < n ensures !LateInsert(front, j) { LateInPrefix(run, n, j); }
      UnsweptLife(front, token);
      StoredUnswept(front, token);
      StoredIsLife(front, token, last.now);
      assert !LateInsert(run, n);
      hide Sessions, Life, Unswept;
      assert run == front + [last];
      OneMore(front, last, token);
      OneMore(Unswept(front), last, token);
    }
  }

  /** After the first `n` statements a refresh has the same outcome with and without the sweeps. */
  ghost predicate SameOutcome(run: seq<Stmt>, n: nat, token: string, now: int)
    requires n <= |run|
  {
    Refreshed(Sessions(Unswept(run[..n])), token, now) == Refreshed(Sessions(run[..n]), token, now)
  }

  ghost predicate SweepsInvisible(run: seq<Stmt>) {
    forall n: nat, token, now :: n <= |run| && (n > 0 ==> run[n - 1].now <= now) ==> SameOutcome(run, n, token, now)
  }

  lemma SameWithoutSweeps(run: seq<Stmt>, token: string, now: int)
    requires InOrder(run) && NoLateInsert(run) && (run != [] ==> run[|run| - 1].now <= now)
    ensures Refreshed(Sessions(Unswept(run)), token, now) == Refreshed(Sessions(run), token, now)
  {
    UnsweptLife(run, token);
    StoredUnswept(run, token);
    StoredIsLife(run, token, now);
  }

  lemma {:induction false} FirstLate(run: seq<Stmt>, n: nat) returns (j: nat)
    requires n <= |run| && exists i: nat :: i < n && LateInsert(run, i)
    ensures j < n && LateInsert(run, j) && NoLateInsert(run[..j])
  {
    var i: nat :| i < n && LateInsert(run, i);
    if exists k: nat :: k < i && LateInsert(run, k) {
      j := FirstLate(run, i);
    } else {
      j := i;
      forall k: nat | k < i ensures !LateInsert(run[..i], k) { LateInPrefix(run, i, k); }
    }
  }

  /** Right after a late insert the outcomes differ: accepted after the sweep, a duplicate without it. */
  lemma LateInsertShows(run: seq<Stmt>, j: nat)
    requires j < |run| && InOrder(run) && LateInsert(run, j) && NoLateInsert(run[..j])
    requires run[j].session.expires >= run[j].now
    ensures !SameOutcome(run, j + 1, run[j].token, run[j].now)
  {
    hide Sessions, Unswept, Life, NoLateInsert;
    var before, st := run[..j], run[j];
    UnsweptLife(before, st.token);
    StoredUnswept(before, st.token);
    StoredIsLife(before, st.token, st.now);
    OneMore(before, st, st.token);
    OneMore(Unswept(before), st, st.token);
    assert run[..j + 1] == before + [st];
  }

  /** Sessions are created with an expiry in the future. */
  ghost predicate Lasting(run: seq<Stmt>) {
    forall i :: 0 <= i < |run| && run[i].InsertSession? ==> run[i].session.expires >= run[i].now
  }

  /**
   * Expiry sweeps change no refresh outcome, at any point of a run, exactly when no token is stored again after a
   * sweep.
   */
  lemma SweepsInvisibleIff(run: seq<Stmt>)
    requires InOrder(run) && Lasting(run)
    ensures SweepsInvisible(run) <==> NoLateInsert(run)
  {
    if NoLateInsert(run) {
      forall n: nat, token, now | n <= |run| && (n > 0 ==> run[n - 1].now <= now)
        ensures SameOutcome(run, n, token, now)
      {
        forall j: nat | j < n ensures !LateInsert(run[..n], j) { LateInPrefix(run, n, j); }
        SameWithoutSweeps(run[..n], token, now);
      }
    } else {
      var j := FirstLate(run, |run|);
      LateInsertShows(run, j);
    }
  }

  // MFA enrolment, write by write.

  function Registered(db: Db, username: string, u: User): Db { db.(users := db.users[username := u]) }

  function Enrolled(db: Db, id: string, user: string, secret: string): Db {
    db.(totps := db.totps[id := Totp(user, secret, false)])
  }

  /** The first write of a confirmation. */
  function Confirmed(db: Db, id: string): Db {
    if id in db.totps then db.(totps := db.totps[id := db.totps[id].(confirmed := true)]) else db
  }

  /** The second write. */
  function Required(db: Db, user: string): Db {
    db.(users :=
          map n | n in db.users ::
            if db.users[n].id == user then db.users[n].(mfaRequired := true) else db.users[n])
  }

  ghost predicate IsRecord(db: Db, id: string, user: string) {
    id in db.totps && db.totps[id].user == user && db.totps[id].confirmed
  }

  ghost predicate HasRecord(db: Db, user: string) { exists id :: IsRecord(db, id, user) }

  /** Everybody who must present a code has a confirmed record to check it against. */
  ghost predicate Guarded(db: Db) {
    forall n :: n in db.users && db.users[n].mfaRequired ==> HasRecord(db, db.users[n].id)
  }

  /** `confirming` holds the confirmations that have done their first write and not yet their second. */
  datatype Enrolment = Enrolment(db: Db, confirming: multiset<string>)

  datatype MfaStep =
    | Register(username: string, account: User)
    | Enroll(id: string, user: string, secret: string)
    | ConfirmRecord(id: string, user: string)
    | RequireMfa(user: string)
    | Abandon(user: string)
    | OnSessions(stmt: Stmt)

  /**
   * ConfirmRecord stands for the checks of ConfirmTOTP up to its first write; names and record ids are fresh when
   * inserted.
   */
  predicate MfaEnabled(m: Enrolment, st: MfaStep) {
    match st
    case Register(name, u) => name !in m.db.users && !u.mfaRequired
    case Enroll(id, _, _) => id !in m.db.totps
    case ConfirmRecord(id, u) => id in m.db.totps && m.db.totps[id].user == u
    case RequireMfa(u) => u in m.confirming
    case Abandon(u) => u in m.confirming
    case OnSessions(_) => true
  }

  function MfaNext(m: Enrolment, st: MfaStep): Enrolment
    requires MfaEnabled(m, st)
  {
    match st
    case Register(name, u) => m.(db := Registered(m.db, name, u))
    case Enroll(id, u, secret) => m.(db := Enrolled(m.db, id, u, secret))
    case ConfirmRecord(id, u) => Enrolment(Confirmed(m.db, id), m.confirming + multiset{u})
    case RequireMfa(u) => Enrolment(Required(m.db, u), m.confirming - multiset{u})
    case Abandon(u) => m.(confirming := m.confirming - multiset{u})
    case OnSessions(stmt) => m.(db := m.db.(sessions := Applied(m.db.sessions, stmt)))
  }

  ghost function MfaRun(steps: seq<MfaStep>): Option<Enrolment> {
    if steps == [] then Some(Enrolment(EMPTY, multiset{})) else
      var p := MfaRun(steps[..|steps| - 1]);
      if p.None? || !MfaEnabled(p.value, steps[|steps| - 1]) then None else Some(MfaNext(p.value, steps[|steps| - 1]))
  }

  // The tables read off the steps.

  ghost predicate RequiredSince(steps: seq<MfaStep>, r: nat, user: string) {
    exists j :: r < j < |steps| && steps[j].RequireMfa? && steps[j].user == user
  }

  ghost predicate ConfirmedSince(steps: seq<MfaStep>, e: nat, id: string) {
    exists j :: e < j < |steps| && steps[j].ConfirmRecord? && steps[j].id == id
  }

  lemma SinceStep(steps: seq<MfaStep>, k: nat, key: string)
    requires k < |steps| - 1
    ensures var n := |steps| - 1;
            && (RequiredSince(steps, k, key) <==>
                  RequiredSince(steps[..n], k, key) || (steps[n].RequireMfa? && steps[n].user == key))
            && (ConfirmedSince(steps, k, key) <==>
                  ConfirmedSince(steps[..n], k, key) || (steps[n].ConfirmRecord? && steps[n].id == key))
  {
    var n := |steps| - 1;
    forall j | k < j < n ensures steps[..n][j] == steps[j] {}
    if RequiredSince(steps[..n], k, key) {
      var j :| k < j < n && steps[..n][j].RequireMfa? && steps[..n][j].user == key;
      assert steps[j].RequireMfa?;
    }
    if ConfirmedSince(steps[..n], k, key) {
      var j :| k < j < n && steps[..n][j].ConfirmRecord? && steps[..n][j].id == key;
      assert steps[j].ConfirmRecord?;
    }
  }

  /** An account is as registered, and MFA-required exactly if that has been written for its id since. */
  lemma {:induction false} AccountHistory(steps: seq<MfaStep>, username: string) returns (r: nat)
    requires MfaRun(steps).Some? && username in MfaRun(steps).value.db.users
    ensures r < |steps| && steps[r].Register? && steps[r].username == username
    ensures var u := steps[r].account;
            MfaRun(steps).value.db.users[username] ==
            User(u.id, u.email, u.hash, RequiredSince(steps, r, u.id))
  {
    var n := |steps| - 1;
    var m := MfaRun(steps[..n]).value;
    if username in m.db.users {
      r := AccountHistory(steps[..n], username);
      SinceStep(steps, r, steps[r].account.id);
    } else {
      r := n;
    }
  }

  /** A TOTP record is as enrolled, and confirmed exactly if that has been written for it since. */
  lemma {:induction false} RecordHistory(steps: seq<MfaStep>, id: string) returns (e: nat)
    requires MfaRun(steps).Some? && id in MfaRun(steps).value.db.totps
    ensures e < |steps| && steps[e].Enroll? && steps[e].id == id
    ensures MfaRun(steps).value.db.totps[id] == Totp(steps[e].user, steps[e].secret, ConfirmedSince(steps, e, id))
  {
    var n := |steps| - 1;
    var m := MfaRun(steps[..n]).value;
    if id in m.db.totps {
      e := RecordHistory(steps[..n], id);
      SinceStep(steps, e, id);
    } else {
      e := n;
    }
  }

  lemma StoredStep(m: Enrolment, st: MfaStep)
    requires MfaEnabled(m, st)
    ensures var t := MfaNext(m, st);
            && m.db.users.Keys <= t.db.users.Keys && m.db.totps.Keys <= t.db.totps.Keys
            && (st.Register? ==> st.username in t.db.users) && (st.Enroll? ==> st.id in t.db.totps)
  {
  }

  /** Every registration and every enrolment is in the tables. */
  lemma {:induction false} AllStored(steps: seq<MfaStep>, k: nat)
    requires MfaRun(steps).Some? && k < |steps|
    ensures steps[k].Register? ==> steps[k].username in MfaRun(steps).value.db.users
    ensures steps[k].Enroll? ==> steps[k].id in MfaRun(steps).value.db.totps
  {
    hide MfaNext;
    var n := |steps| - 1;
    StoredStep(MfaRun(steps[..n]).value, steps[n]);
    if k < n {
      AllStored(steps[..n], k);
    }
  }

  lemma RecordsKept(a: Db, b: Db)
    requires forall id :: id in a.totps && a.totps[id].confirmed ==> id in b.totps && b.totps[id] == a.totps[id]
    ensures forall u :: HasRecord(a, u) ==> HasRecord(b, u)
  {
    forall u | HasRecord(a, u) ensures HasRecord(b, u) {
      var id :| IsRecord(a, id, u);
      assert IsRecord(b, id, u);
    }
  }

  /** Confirming gives the record's owner a confirmed record and takes none away. */
  lemma ConfirmedKeeps(db: Db, id: string)
    requires id in db.totps
    ensures HasRecord(Confirmed(db, id), db.totps[id].user)
    ensures Guarded(db) ==> Guarded(Confirmed(db, id))
    ensures forall u :: HasRecord(db, u) ==> HasRecord(Confirmed(db, id), u)
  {
    assert IsRecord(Confirmed(db, id), id, db.totps[id].user);
    RecordsKept(db, Confirmed(db, id));
  }

  lemma RequiredKeeps(db: Db, user: string)
    requires HasRecord(db, user)
    ensures Guarded(db) ==> Guarded(Required(db, user))
    ensures forall u :: HasRecord(db, u) ==> HasRecord(Required(db, user), u)
  {
    RecordsKept(db, Required(db, user));
  }

  lemma MfaStepKeeps(m: Enrolment, st: MfaStep)
    requires MfaEnabled(m, st) && Guarded(m.db) && forall u :: u in m.confirming ==> HasRecord(m.db, u)
    ensures var next := MfaNext(m, st);
            Guarded(next.db) && forall u :: u in next.confirming ==> HasRecord(next.db, u)
  {
    match st
    case ConfirmRecord(id, u) => ConfirmedKeeps(m.db, id);
    case RequireMfa(u) => RequiredKeeps(m.db, u);
    case _ => RecordsKept(m.db, MfaNext(m, st).db);
  }

  /**
   * In every reachable state, including between the two writes of a confirmation, after a failure there, and after
   * enrolling again, a user marked as requiring MFA owns a confirmed record.
   */
  lemma RequiredHasConfirmed(steps: seq<MfaStep>)
    requires MfaRun(steps).Some?
    ensures var m := MfaRun(steps).value;
            forall n :: n in m.db.users && (m.db.users[n].mfaRequired || m.db.users[n].id in m.confirming) ==>
              exists id :: id in m.db.totps && m.db.totps[id].user == m.db.users[n].id && m.db.totps[id].confirmed
  {
    EnrolmentInv(steps);
    var m := MfaRun(steps).value;
    forall n | n in m.db.users && (m.db.users[n].mfaRequired || m.db.users[n].id in m.confirming)
      ensures exists id :: id in m.db.totps && m.db.totps[id].user == m.db.users[n].id && m.db.totps[id].confirmed
    {
      assert HasRecord(m.db, m.db.users[n].id);
      var id :| IsRecord(m.db, id, m.db.users[n].id);
      assert id in m.db.totps && m.db.totps[id].confirmed;
    }
  }

  lemma {:induction false} EnrolmentInv(steps: seq<MfaStep>)
    requires MfaRun(steps).Some?
    ensures var m := MfaRun(steps).value;
            Guarded(m.db) && forall u :: u in m.confirming ==> HasRecord(m.db, u)
  {
    if steps != [] {
      var front, st := steps[..|steps| - 1], steps[|steps| - 1];
      EnrolmentInv(front);
      MfaStepKeeps(MfaRun(front).value, st);
    }
  }

  type Validator = (string, string, int) -> bool

  /** Some confirmed record of the user accepts the code. */
  ghost predicate Matching(db: Db, valid: Validator, user: string, code: string, now: int) {
    exists id :: IsRecord(db, id, user) && valid(code, db.totps[id].secret, now)
  }

  /** Whoever is asked for a code in a reachable state has a record whose codes VerifyTOTP accepts. */
  lemma RequiredCanVerify(steps: seq<MfaStep>, username: string, valid: Validator) returns (id: string)
    requires MfaRun(steps).Some?
    requires var db := MfaRun(steps).value.db; username in db.users && db.users[username].mfaRequired
    ensures var db := MfaRun(steps).value.db;
            var user := db.users[username].id;
            && id in db.totps && db.totps[id].user == user && db.totps[id].confirmed
            && forall code, now :: valid(code, db.totps[id].secret, now) ==> Matching(db, valid, user, code, now)
  {
    EnrolmentInv(steps);
    var db := MfaRun(steps).value.db;
    assert HasRecord(db, db.users[username].id);
    id :| IsRecord(db, id, db.users[username].id);
  }

  // The services.

  datatype LoginResult = LoginResult(access: Option<Access>, refreshToken: string, sessionId: string, needsMfa: bool)

  class AuthService {
    var db: Db
    /** bcrypt comparison and TOTP validation at a time. */
    const matches: (string, string) -> bool
    const valid: Validator

    constructor (matches: (string, string) -> bool, valid: Validator)
      ensures db == EMPTY
    {
      db, this.matches, this.valid := EMPTY, matches, valid;
    }

    method Register(username: string, email: string, hash: string, id: string) returns (r: Result<string, AuthError>)
      modifies this
      ensures r.Ok? <==>
              username !in old(db).users && forall n :: n in old(db).users ==> old(db).users[n].email != email
      ensures r.Ok? ==> r.value == id && db == Registered(old(db), username, User(id, email, hash, false))
      ensures r.Ok? ==> db == old(db).(users := old(db).users[username := User(id, email, hash, false)])
      ensures r.Err? ==> r.error == UserExists && db == old(db)
      ensures Guarded(old(db)) ==> Guarded(db)
    {
      if username in db.users || exists n :: n in db.users && db.users[n].email == email { return Err(UserExists); }
      ghost var before := db;
      db := db.(users := db.users[username := User(id, email, hash, false)]);
      RecordsKept(before, db);
      r := Ok(id);
    }

    /** `token` and `id` are what the JWT manager and the database generate. */
    method Login(username: string, password: string, token: string, id: string, now: int)
      returns (r: Result<LoginResult, AuthError>)
      modifies this
      ensures var known := username in old(db).users && matches(old(db).users[username].hash, password);
              && (r.Ok? <==> known && token !in old(db).sessions)
              && (r.Err? ==> r.error == (if known then StoreFailed else InvalidCredentials) && db == old(db))
      ensures r.Ok? ==> var u := old(db).users[username];
                var s := Session(id, u.id, now + 2592000, !u.mfaRequired);
                && db == old(db).(sessions := old(db).sessions[token := s])
                && r.value ==
                   LoginResult(if u.mfaRequired then None else Some(Access(u.id, false)), token, id, u.mfaRequired)
                && (forall t :: now <= t <= now + 2592000 ==>
                      Refreshed(db.sessions, token, t) == Ok(Access(u.id, !u.mfaRequired)))
                && (Guarded(old(db)) && r.value.needsMfa ==>
                      exists rid :: rid in db.totps && db.totps[rid].user == u.id && db.totps[rid].confirmed)
      ensures Guarded(old(db)) ==> Guarded(db)
    {
      if username !in db.users { return Err(InvalidCredentials); }
      var u := db.users[username];
      if !matches(u.hash, password) { return Err(InvalidCredentials); }
      if token in db.sessions { return Err(StoreFailed); }
      ghost var before := db;
      db := db.(sessions := db.sessions[token := Session(id, u.id, now + SESSION_TTL, !u.mfaRequired)]);
      RecordsKept(before, db);
      var access := None;
      if !u.mfaRequired {
        access := Some(Access(u.id, false));
      }
      r := Ok(LoginResult(access, token, id, u.mfaRequired));
    }

    method Refresh(token: string, now: int) returns (r: Result<Access, AuthError>)
      ensures r == Refreshed(db.sessions, token, now)
      ensures r == if token in db.sessions && now <= db.sessions[token].expires
                   then Ok(Access(db.sessions[token].user, db.sessions[token].mfa)) else Err(InvalidCredentials)
    {
      if token !in db.sessions { return Err(InvalidCredentials); }
      var s := db.sessions[token];
      if now > s.expires { return Err(InvalidCredentials); }
      r := Ok(Access(s.user, s.mfa));
    }

    method Logout(token: string, now: int)
      modifies this
      ensures db == old(db).(sessions := old(db).sessions - {token})
      ensures forall t :: Refreshed(db.sessions, token, t) == Err(InvalidCredentials)
    {
      db := db.(sessions := db.sessions - {token});
    }

    /** The confirmed records of a user, in the order `ids` in which the database returns them. */
    method ListTotp(user: string, ids: seq<string>) returns (records: seq<Totp>)
      requires forall id :: id in db.totps <==> id in ids
      ensures forall rec :: rec in records <==>
                exists id :: id in db.totps && db.totps[id] == rec && rec.user == user && rec.confirmed
    {
      records := [];
      for i := 0 to |ids|
        invariant forall rec :: rec in records <==>
          exists id :: id in ids[..i] && IsRecord(db, id, user) && db.totps[id] == rec
      {
        var rec := db.totps[ids[i]];
        if rec.user == user && rec.confirmed {
          records := records + [rec];
        }
        assert ids[..i + 1] == ids[..i] + [ids[i]];
      }
      assert ids[..|ids|] == ids;
      forall rec ensures (exists id :: IsRecord(db, id, user) && db.totps[id] == rec) <==>
                         exists id :: id in db.totps && db.totps[id] == rec && rec.user == user && rec.confirmed
      {
        if id :| IsRecord(db, id, user) && db.totps[id] == rec {
          assert id in db.totps && db.totps[id] == rec;
        }
      }
    }

    method EnrollTotp(id: string, user: string, secret: string)
      requires id !in db.totps
      modifies this
      ensures db == Enrolled(old(db), id, user, secret)
      ensures db == old(db).(totps := old(db).totps[id := Totp(user, secret, false)])
      ensures Guarded(old(db)) ==> Guarded(db)
    {
      ghost var before := db;
      db := db.(totps := db.totps[id := Totp(user, secret, false)]);
      RecordsKept(before, db);
    }

    /** `writes` tells how many of the two writes go through: confirming the record, then marking the user. */
    method ConfirmTotp(user: string, id: string, code: string, now: int, writes: nat) returns (err: Option<AuthError>)
      modifies this
      ensures var totps := old(db).totps;
              var good := id in totps && totps[id].user == user && valid(code, totps[id].secret, now);
              && (err == None <==> good && writes >= 2)
              && (err.Some? ==> err.value == if good then StoreFailed else MfaInvalid)
              && db == (if !good || writes == 0 then old(db)
                        else if writes == 1 then Confirmed(old(db), id)
                        else Required(Confirmed(old(db), id), user))
              && db.sessions == old(db).sessions
              && db.totps == (if good && writes >= 1 then totps[id := Totp(user, totps[id].secret, true)] else totps)
              && db.users.Keys == old(db).users.Keys
              && forall n :: n in db.users ==>
                   var u := old(db).users[n];
                   db.users[n] == if good && writes >= 2 && u.id == user then User(u.id, u.email, u.hash, true) else u
      ensures Guarded(old(db)) ==> Guarded(db)
      ensures err == None ==> HasRecord(db, user)
    {
      if id !in db.totps || db.totps[id].user != user { return Some(MfaInvalid); }
      if !valid(code, db.totps[id].secret, now) { return Some(MfaInvalid); }
      if writes == 0 { return Some(StoreFailed); }
      ConfirmedKeeps(db, id);
      db := db.(totps := db.totps[id := db.totps[id].(confirmed := true)]);
      if writes == 1 { return Some(StoreFailed); }
      RequiredKeeps(db, user);
      db := Required(db, user);
      err := None;
    }

    /** The scan over the stored records and its writes: mark the session, then open a verified one. */
    method VerifyTotp(user: string, sessionId: string, code: string, ids: seq<string>, token: string, id: string,
                      now: int)
      returns (r: Result<Access, AuthError>)
      requires forall rid :: rid in db.totps <==> rid in ids
      modifies this
      ensures var marked := Applied(old(db).sessions, MarkMfa(sessionId, user, now));
              var both := Applied(marked, InsertSession(token, Session(id, user, now + SESSION_TTL, true), now));
              if !Matching(old(db), valid, user, code, now) then r == Err(MfaInvalid) && db == old(db)
              else
                && db == old(db).(sessions := both)
                && r == (if token in old(db).sessions then Err(StoreFailed) else Ok(Access(user, true)))
      ensures r == Err(MfaInvalid) <==>
              !exists rid :: && rid in old(db).totps && old(db).totps[rid].user == user && old(db).totps[rid].confirmed
                             && valid(code, old(db).totps[rid].secret, now)
      ensures db.users == old(db).users && db.totps == old(db).totps
      ensures Matching(old(db), valid, user, code, now) ==>
                && db.sessions.Keys == old(db).sessions.Keys + {token}
                && forall t :: t in db.sessions ==>
                     db.sessions[t] ==
                     if t !in old(db).sessions then Session(id, user, now + 2592000, true)
                     else if old(db).sessions[t].id == sessionId then old(db).sessions[t].(mfa := true)
                     else old(db).sessions[t]
      ensures r.Ok? ==> forall t :: now <= t <= now + 2592000 ==> Refreshed(db.sessions, token, t) == r
      ensures Guarded(old(db)) ==> Guarded(db)
    {
      ghost var before := db;
      var records := ListTotp(user, ids);
      var matched := false;
      var i := 0;
      while i < |records| && !matched
        invariant 0 <= i <= |records|
        invariant matched <==> exists j :: 0 <= j < i && valid(code, records[j].secret, now)
      {
        matched := valid(code, records[i].secret, now);
        i := i + 1;
      }
      assert matched <==> Matching(db, valid, user, code, now) by {
        ScanMatches(db, valid, user, code, now, records, i);
      }
      if !matched { return Err(MfaInvalid); }
      db := db.(sessions := Marked(db.sessions, sessionId));
      RecordsKept(before, db);
      if token in db.sessions { return Err(StoreFailed); }
      db := db.(sessions := db.sessions[token := Session(id, user, now + SESSION_TTL, true)]);
      RecordsKept(before, db);
      r := Ok(Access(user, true));
    }
  }

  /** After a completed confirmation the next login of that user asks for a code and hands out no access token. */
  method ConfirmThenLogin(svc: AuthService, username: string, password: string, totpId: string, code: string, now: int,
                          token: string, id: string)
    returns (err: Option<AuthError>, r: Result<LoginResult, AuthError>)
    requires username in svc.db.users
    modifies svc
    ensures err == None && r.Ok? ==>
              r.value.needsMfa && r.value.access == None && token in svc.db.sessions && !svc.db.sessions[token].mfa
  {
    var user := svc.db.users[username].id;
    err := svc.ConfirmTotp(user, totpId, code, now, 2);
    r := svc.Login(username, password, token, id, now);
  }

  /** Scanning the listed records, up to the first match, finds one exactly if some stored record matches. */
  lemma ScanMatches(db: Db, valid: Validator, user: string, code: string, now: int, records: seq<Totp>, n: nat)
    requires forall rec :: rec in records <==> exists id :: IsRecord(db, id, user) && db.totps[id] == rec
    requires n <= |records| && (n < |records| ==> exists j :: 0 <= j < n && valid(code, records[j].secret, now))
    ensures (exists j :: 0 <= j < n && valid(code, records[j].secret, now)) <==> Matching(db, valid, user, code, now)
  {
    if Matching(db, valid, user, code, now) {
      var id :| IsRecord(db, id, user) && valid(code, db.totps[id].secret, now);
      assert db.totps[id] in records;
    }
    if j :| 0 <= j < n && valid(code, records[j].secret, now) {
      assert records[j] in records;
      var id :| IsRecord(db, id, user) && db.totps[id] == records[j];
      assert IsRecord(db, id, user) && valid(code, db.totps[id].secret, now);
    }
  }
}
