/** Per-IP token buckets with eviction of idle entries, over real-valued time in seconds. */
module RateLimit {
  const IDLE: real := 300.0

  /** `r` tokens per second, at most `b` of them. */
  datatype Limits = Limits(r: real, b: nat) {
    ghost predicate Valid() { r >= 0.0 }
  }

  datatype Bucket = Bucket(tokens: real, last: real)

  function Full(c: Limits): Bucket { Bucket(c.b as real, 0.0) }

  /** Tokens available at time `t`. */
  function Level(c: Limits, k: Bucket, t: real): real {
    var elapsed := if t < k.last then 0.0 else t - k.last;
    var tokens := k.tokens + c.r * elapsed;
    if tokens > c.b as real then c.b as real else tokens
  }

  predicate Allows(c: Limits, k: Bucket, t: real) { Level(c, k, t) >= 1.0 }

  function Taken(c: Limits, k: Bucket, t: real): Bucket {
    if Allows(c, k, t) then Bucket(Level(c, k, t) - 1.0, t) else k
  }

  datatype Entry = Entry(bucket: Bucket, lastSeen: real)

  type Table = map<string, Entry>

  function BucketOf(c: Limits, table: Table, ip: string): Bucket { if ip in table then table[ip].bucket else Full(c) }

  function Asked(c: Limits, table: Table, ip: string, t: real): Table {
    table[ip := Entry(Taken(c, BucketOf(c, table, ip), t), t)]
  }

  predicate Stale(e: Entry, t: real) { t - e.lastSeen > IDLE }

  function Swept(table: Table, t: real): Table { map ip | ip in table && !Stale(table[ip], t) :: table[ip] }

  class RateLimiter {
    const c: Limits
    var limiters: Table

    constructor (c: Limits)
      ensures this.c == c && limiters == map[]
    {
      this.c := c;
      limiters := map[];
    }

    /** getLimiter followed by Allow. */
    method Allow(ip: string, now: real) returns (ok: bool)
      modifies this
      ensures ok == Allows(c, BucketOf(c, old(limiters), ip), now)
      ensures limiters == Asked(c, old(limiters), ip, now)
      ensures limiters.Keys == old(limiters).Keys + {ip} && limiters[ip].lastSeen == now
      ensures forall other :: other in old(limiters) && other != ip ==> limiters[other] == old(limiters)[other]
    {
      if ip !in limiters {
        limiters := limiters[ip := Entry(Full(c), now)];
      }
      limiters := limiters[ip := limiters[ip].(lastSeen := now)];
      var k := limiters[ip].bucket;
      var level := Level(c, k, now);
      ok := level >= 1.0;
      if ok {
        limiters := limiters[ip := limiters[ip].(bucket := Bucket(level - 1.0, now))];
      }
    }

    /** One tick of the cleanup loop. */
    method Cleanup(now: real)
      modifies this
      ensures limiters == Swept(old(limiters), now)
      ensures forall ip :: ip in limiters <==> ip in old(limiters) && now - old(limiters)[ip].lastSeen <= 300.0
      ensures forall ip :: ip in limiters ==> limiters[ip] == old(limiters)[ip]
    {
      ghost var before := limiters;
      var todo := limiters.Keys;
      while todo != {}
        invariant todo <= before.Keys
        invariant limiters == map ip | ip in before && (ip in todo || !Stale(before[ip], now)) :: before[ip]
        decreases |todo|
      {
        var ip :| ip in todo;
        if now - limiters[ip].lastSeen > IDLE {
          limiters := limiters - {ip};
        }
        todo := todo - {ip};
      }
    }

    /** The interceptor: only the listed methods consult the table. */
    method Intercept(fullMethod: string, ip: string, now: real) returns (ok: bool)
      modifies this
      ensures var limited := || fullMethod == "/auth.AuthService/Register"
                             || fullMethod == "/auth.AuthService/Login"
                             || fullMethod == "/auth.AuthService/VerifyMFA";
              if limited then
                ok == Allows(c, BucketOf(c, old(limiters), ip), now) && limiters == Asked(c, old(limiters), ip, now)
              else ok && limiters == old(limiters)
    {
      ok := true;
      if Limited(fullMethod) {
        ok := Allow(ip, now);
      }
    }
  }

  predicate Limited(fullMethod: string) {
    fullMethod in ["/auth.AuthService/Register", "/auth.AuthService/Login", "/auth.AuthService/VerifyMFA"]
  }

  // Whole schedules.

  datatype Op = Request(ip: string, t: real) | Tick(t: real)

  ghost predicate Schedule(ops: seq<Op>) {
    && (forall i :: 0 <= i < |ops| ==> ops[i].t >= 0.0)
    && (forall i, j :: 0 <= i < j < |ops| ==> ops[i].t <= ops[j].t)
  }

  /** One operation; without eviction a tick does nothing. */
  function Stepped(c: Limits, evict: bool, table: Table, op: Op): Table {
    match op
    case Request(ip, t) => Asked(c, table, ip, t)
    case Tick(t) => if evict then Swept(table, t) else table
  }

  /** The table after the first `n` operations. */
  function State(c: Limits, evict: bool, ops: seq<Op>, n: nat): Table
    requires n <= |ops|
  {
    if n == 0 then map[] else Stepped(c, evict, State(c, evict, ops, n - 1), ops[n - 1])
  }

  /** The operation is a request that the table admits. */
  predicate Grants(c: Limits, table: Table, op: Op) {
    op.Request? && Allows(c, BucketOf(c, table, op.ip), op.t)
  }

  /** The answer to operation `n` (a tick counts as not admitting anything). */
  predicate Admits(c: Limits, evict: bool, ops: seq<Op>, n: nat)
    requires n < |ops|
  {
    Grants(c, State(c, evict, ops, n), ops[n])
  }

  /** Every entry was last used before `now` and its tokens are within bounds. */
  ghost predicate Sane(c: Limits, table: Table, now: real) {
    forall ip :: ip in table ==>
      && 0.0 <= table[ip].bucket.tokens <= c.b as real
      && 0.0 <= table[ip].bucket.last <= table[ip].lastSeen <= now
  }

  ghost function LevelOf(c: Limits, table: Table, ip: string, t: real): real { Level(c, BucketOf(c, table, ip), t) }

  lemma LevelBounds(c: Limits, k: Bucket, t: real)
    requires c.Valid() && k.tokens >= 0.0
    ensures 0.0 <= Level(c, k, t) <= c.b as real
  {
    assert c.r * (if t < k.last then 0.0 else t - k.last) >= 0.0;
  }

  lemma FullLevel(c: Limits, t: real)
    requires c.Valid() && t >= 0.0
    ensures Level(c, Full(c), t) == c.b as real
  {
    assert c.r * t >= 0.0;
  }

  /** An idle bucket is full again when the burst refills within the idle time. */
  lemma IdleFull(c: Limits, k: Bucket, t: real)
    requires c.Valid() && c.b as real <= IDLE * c.r && k.tokens >= 0.0 && t - k.last >= IDLE
    ensures Level(c, k, t) == c.b as real
  {
    assert c.r * (t - k.last) >= c.r * IDLE;
  }

  lemma LevelGrowth(c: Limits, k: Bucket, t: real, u: real)
    requires c.Valid() && k.last <= t <= u
    ensures Level(c, k, u) <= Level(c, k, t) + c.r * (u - t)
  {
    NonNegative(c.r, u - t);
    assert c.r * (u - k.last) == c.r * (t - k.last) + c.r * (u - t);
  }

  lemma {:induction false} StateSane(c: Limits, evict: bool, ops: seq<Op>, n: nat, now: real)
    requires c.Valid() && Schedule(ops) && n <= |ops| && now >= 0.0 && (n > 0 ==> now >= ops[n - 1].t)
    ensures Sane(c, State(c, evict, ops, n), now)
  {
    if n > 0 {
      StateSane(c, evict, ops, n - 1, ops[n - 1].t);
      if ops[n - 1].Request? {
        var k := BucketOf(c, State(c, evict, ops, n - 1), ops[n - 1].ip);
        LevelBounds(c, k, ops[n - 1].t);
      }
    }
  }

  /** The tables offer the same number of tokens to every address at every time from `now` on. */
  ghost predicate SameLevels(c: Limits, a: Table, b: Table, now: real) {
    forall ip, t :: t >= now ==> LevelOf(c, a, ip, t) == LevelOf(c, b, ip, t)
  }

  lemma AskedSame(c: Limits, a: Table, b: Table, ip: string, now: real)
    requires c.Valid() && SameLevels(c, a, b, now)
    ensures Allows(c, BucketOf(c, a, ip), now) == Allows(c, BucketOf(c, b, ip), now)
    ensures SameLevels(c, Asked(c, a, ip, now), Asked(c, b, ip, now), now)
  {
    assert LevelOf(c, a, ip, now) == LevelOf(c, b, ip, now);
    forall jp, t | t >= now
      ensures LevelOf(c, Asked(c, a, ip, now), jp, t) == LevelOf(c, Asked(c, b, ip, now), jp, t)
    {
      assert LevelOf(c, a, jp, t) == LevelOf(c, b, jp, t);
    }
  }

  lemma SweptSame(c: Limits, a: Table, b: Table, now: real)
    requires c.Valid() && c.b as real <= IDLE * c.r && now >= 0.0 && Sane(c, a, now) && SameLevels(c, a, b, now)
    ensures SameLevels(c, Swept(a, now), b, now)
  {
    forall ip, t | t >= now ensures LevelOf(c, Swept(a, now), ip, t) == LevelOf(c, b, ip, t) {
      assert LevelOf(c, a, ip, t) == LevelOf(c, b, ip, t);
      if ip in a && Stale(a[ip], now) {
        FullLevel(c, t);
        IdleFull(c, a[ip].bucket, t);
      }
    }
  }

  lemma {:induction false} TablesAgree(c: Limits, ops: seq<Op>, n: nat, now: real)
    requires c.Valid() && c.b as real <= IDLE * c.r && Schedule(ops) && n <= |ops|
    requires now >= 0.0 && (n > 0 ==> now >= ops[n - 1].t)
    ensures SameLevels(c, State(c, true, ops, n), State(c, false, ops, n), now)
  {
    if n > 0 {
      var t := ops[n - 1].t;
      TablesAgree(c, ops, n - 1, t);
      var a, b := State(c, true, ops, n - 1), State(c, false, ops, n - 1);
      if ops[n - 1].Request? {
        AskedSame(c, a, b, ops[n - 1].ip, t);
      } else {
        StateSane(c, true, ops, n - 1, t);
        SweptSame(c, a, b, t);
      }
    }
  }

  ghost predicate Invisible(c: Limits, ops: seq<Op>) {
    forall n :: 0 <= n < |ops| ==> Admits(c, true, ops, n) == Admits(c, false, ops, n)
  }

  /**
   * With a burst that refills within five minutes no schedule can tell the evicting table from one that never evicts.
   */
  lemma EvictionInvisible(c: Limits, ops: seq<Op>)
    requires c.Valid() && c.b as real <= IDLE * c.r && Schedule(ops)
    ensures Invisible(c, ops)
  {
    forall n | 0 <= n < |ops| ensures Admits(c, true, ops, n) == Admits(c, false, ops, n) {
      TablesAgree(c, ops, n, ops[n].t);
      if ops[n].Request? {
        assert LevelOf(c, State(c, true, ops, n), ops[n].ip, ops[n].t) ==
               LevelOf(c, State(c, false, ops, n), ops[n].ip, ops[n].t);
      }
    }
  }

  /** Requests of `ip` admitted among the operations from `i` up to `j`. */
  ghost function Admitted(c: Limits, evict: bool, ops: seq<Op>, ip: string, i: nat, j: nat): nat
    requires i <= j <= |ops|
    decreases j
  {
    if i == j then 0 else
      Admitted(c, evict, ops, ip, i, j - 1) + if Admits(c, evict, ops, j - 1) && ops[j - 1].ip == ip then 1 else 0
  }

  ghost function Spent(c: Limits, table: Table, op: Op, ip: string): real {
    if Grants(c, table, op) && op.ip == ip then 1.0 else 0.0
  }

  /** An operation lowers the level by what it spends; waiting until `t` adds at most the refill. */
  lemma StepLevel(c: Limits, table: Table, op: Op, ip: string, t: real)
    requires c.Valid() && Sane(c, table, op.t) && 0.0 <= op.t <= t
    ensures LevelOf(c, Stepped(c, false, table, op), ip, t) <=
            LevelOf(c, table, ip, op.t) - Spent(c, table, op, ip) + c.r * (t - op.t)
  {
    var k, next := BucketOf(c, table, ip), BucketOf(c, Stepped(c, false, table, op), ip);
    LevelGrowth(c, k, op.t, t);
    if Grants(c, table, op) && op.ip == ip {
      LevelGrowth(c, next, op.t, t);
      assert c.r * (op.t - op.t) == 0.0;
    } else {
      assert next == k;
    }
  }

  /** Before an operation the level is within bounds, and the operation spends no more than there is. */
  lemma SpentBounds(c: Limits, table: Table, op: Op, ip: string)
    requires c.Valid() && Sane(c, table, op.t)
    ensures 0.0 <= Spent(c, table, op, ip) <= LevelOf(c, table, ip, op.t) <= c.b as real
  {
    LevelBounds(c, BucketOf(c, table, ip), op.t);
  }

  lemma NonNegative(x: real, y: real)
    requires x >= 0.0 && y >= 0.0
    ensures x * y >= 0.0
  {
  }

  /** Tokens that come back between two times. */
  ghost function Refill(r: real, begin: real, end: real): real { r * (end - begin) }

  lemma RefillAdds(r: real, begin: real, now: real, end: real)
    ensures Refill(r, begin, end) == Refill(r, begin, now) + Refill(r, now, end)
    ensures r >= 0.0 && begin <= end ==> Refill(r, begin, end) >= 0.0
  {
    if r >= 0.0 && begin <= end {
      NonNegative(r, end - begin);
    }
  }

  /** One operation of the table that never evicts, in those terms. */
  lemma StateLevel(c: Limits, ops: seq<Op>, ip: string, j: nat, t: real)
    requires c.Valid() && Schedule(ops) && 0 < j <= |ops| && t >= ops[j - 1].t
    ensures LevelOf(c, State(c, false, ops, j), ip, t) <=
            LevelOf(c, State(c, false, ops, j - 1), ip, ops[j - 1].t)
            - Spent(c, State(c, false, ops, j - 1), ops[j - 1], ip) + Refill(c.r, ops[j - 1].t, t)
  {
    hide Level, LevelOf, BucketOf, Stepped, Grants, Sane, Spent;
    StateSane(c, false, ops, j - 1, ops[j - 1].t);
    var table, op := State(c, false, ops, j - 1), ops[j - 1];
    assert State(c, false, ops, j) == Stepped(c, false, table, op);
    hide State;
    StepLevel(c, table, op, ip, t);
  }

  lemma AdmittedStep(c: Limits, ops: seq<Op>, ip: string, i: nat, j: nat)
    requires i < j <= |ops|
    ensures Admitted(c, false, ops, ip, i, j) as real ==
            Admitted(c, false, ops, ip, i, j - 1) as real + Spent(c, State(c, false, ops, j - 1), ops[j - 1], ip)
  {
  }

  /** Potential argument: what was admitted plus what is left never exceeds the burst plus the refill. */
  lemma {:induction false} Potential(c: Limits, ops: seq<Op>, ip: string, i: nat, j: nat, t: real)
    requires c.Valid() && Schedule(ops) && i <= j <= |ops| && i < |ops|
    requires t >= ops[i].t && (j > i ==> t >= ops[j - 1].t)
    ensures Admitted(c, false, ops, ip, i, j) as real + LevelOf(c, State(c, false, ops, j), ip, t)
            <= c.b as real + Refill(c.r, ops[i].t, t)
    decreases j
  {
    hide Level, LevelOf, BucketOf, Stepped, Grants, State, Refill, Spent;
    if j == i {
      StateSane(c, false, ops, j, t);
      SpentBounds(c, State(c, false, ops, j), Tick(t), ip);
      RefillAdds(c.r, ops[i].t, t, t);
    } else {
      Potential(c, ops, ip, i, j - 1, ops[j - 1].t);
      StateLevel(c, ops, ip, j, t);
      AdmittedStep(c, ops, ip, i, j);
      RefillAdds(c.r, ops[i].t, ops[j - 1].t, t);
    }
  }

  /** Requests admitted plus tokens left, against burst and refill. */
  lemma Budget(c: Limits, ops: seq<Op>, ip: string, i: nat, j: nat, t: real)
    requires c.Valid() && Schedule(ops) && i <= j <= |ops| && i < |ops|
    requires t >= ops[i].t && (j > i ==> t >= ops[j - 1].t)
    ensures Admitted(c, false, ops, ip, i, j) as real + LevelOf(c, State(c, false, ops, j), ip, t)
            <= c.b as real + c.r * (t - ops[i].t)
  {
    hide Level, LevelOf, BucketOf, State;
    Potential(c, ops, ip, i, j, t);
  }

  /** The table that never evicts admits at most burst plus refill in any window. */
  lemma AdmittedBudget(c: Limits, ops: seq<Op>, ip: string, i: nat, j: nat)
    requires c.Valid() && Schedule(ops) && i < j <= |ops|
    ensures Admitted(c, false, ops, ip, i, j) as real <= c.b as real + c.r * (ops[j - 1].t - ops[i].t)
  {
    hide Level, LevelOf, State;
    Budget(c, ops, ip, i, j, ops[j - 1].t);
    StateSane(c, false, ops, j, ops[j - 1].t);
    SpentBounds(c, State(c, false, ops, j), Tick(ops[j - 1].t), ip);
  }

  function Lesser(x: real, y: real): real { if x <= y then x else y }

  /** Levels can be computed in steps: what there is at `s`, plus the refill until `t`, but no more than the burst. */
  lemma LevelInSteps(c: Limits, k: Bucket, s: real, t: real)
    requires c.Valid() && k.last <= s <= t
    ensures Level(c, k, t) == Lesser(c.b as real, Level(c, k, s) + Refill(c.r, s, t))
  {
    RefillAdds(c.r, k.last, s, t);
    RefillAdds(c.r, s, t, t);
  }

  /** One operation, exactly. */
  lemma StepLevelExact(c: Limits, table: Table, op: Op, ip: string, t: real)
    requires c.Valid() && Sane(c, table, op.t) && 0.0 <= op.t <= t
    ensures LevelOf(c, Stepped(c, false, table, op), ip, t) ==
            Lesser(c.b as real, LevelOf(c, table, ip, op.t) - Spent(c, table, op, ip) + Refill(c.r, op.t, t))
  {
    var k, next := BucketOf(c, table, ip), BucketOf(c, Stepped(c, false, table, op), ip);
    LevelInSteps(c, k, op.t, t);
    if Grants(c, table, op) && op.ip == ip {
      assert next == Bucket(Level(c, k, op.t) - 1.0, op.t);
    } else {
      assert next == k;
    }
  }

  lemma StateLevelExact(c: Limits, ops: seq<Op>, ip: string, j: nat, t: real)
    requires c.Valid() && Schedule(ops) && 0 < j <= |ops| && t >= ops[j - 1].t
    ensures LevelOf(c, State(c, false, ops, j), ip, t) ==
            Lesser(c.b as real, LevelOf(c, State(c, false, ops, j - 1), ip, ops[j - 1].t)
                                - Spent(c, State(c, false, ops, j - 1), ops[j - 1], ip) + Refill(c.r, ops[j - 1].t, t))
  {
    hide Level, LevelOf, BucketOf, Stepped, Grants, Sane, Spent, Refill;
    StateSane(c, false, ops, j - 1, ops[j - 1].t);
    var table, op := State(c, false, ops, j - 1), ops[j - 1];
    assert State(c, false, ops, j) == Stepped(c, false, table, op);
    hide State;
    StepLevelExact(c, table, op, ip, t);
  }

  /** The level is the full burst (then `i` is `n`), or the window from operation `i` on has a tight budget. */
  lemma {:induction false} TightWindow(c: Limits, ops: seq<Op>, ip: string, n: nat, t: real) returns (i: nat)
    requires c.Valid() && Schedule(ops) && n <= |ops| && t >= 0.0 && (n > 0 ==> t >= ops[n - 1].t)
    ensures i <= n
    ensures LevelOf(c, State(c, false, ops, n), ip, t) ==
            if i == n then c.b as real
            else c.b as real + Refill(c.r, ops[i].t, t) - Admitted(c, false, ops, ip, i, n) as real
  {
    i := n;
    if n == 0 {
      FullLevel(c, t);
    } else {
      hide Level, LevelOf, State, Refill, Spent, Sane;
      var s := ops[n - 1].t;
      var h := TightWindow(c, ops, ip, n - 1, s);
      StateLevelExact(c, ops, ip, n, t);
      if LevelOf(c, State(c, false, ops, n), ip, t) != c.b as real {
        i := h;
        AdmittedStep(c, ops, ip, h, n);
        RefillAdds(c.r, ops[h].t, s, t);
      }
    }
  }

  /** The operations from `i` up to `n` have admitted more than `b + r T - 1` requests of the address. */
  ghost predicate OverBudget(c: Limits, evict: bool, ops: seq<Op>, ip: string, i: nat, n: nat)
    requires i <= n < |ops|
  {
    Admitted(c, evict, ops, ip, i, n) as real > c.b as real + c.r * (ops[n].t - ops[i].t) - 1.0
  }

  ghost predicate Exhausted(c: Limits, evict: bool, ops: seq<Op>, ip: string, n: nat)
    requires n < |ops|
  {
    exists i: nat :: i <= n && OverBudget(c, evict, ops, ip, i, n)
  }

  lemma OverRefill(c: Limits, ops: seq<Op>, ip: string, i: nat, n: nat)
    requires i <= n < |ops|
    ensures OverBudget(c, false, ops, ip, i, n) <==>
            Admitted(c, false, ops, ip, i, n) as real > c.b as real + Refill(c.r, ops[i].t, ops[n].t) - 1.0
  {
    hide Admitted;
    assert Refill(c.r, ops[i].t, ops[n].t) == c.r * (ops[n].t - ops[i].t);
  }

  /** A level below one is explained by a window. */
  lemma LowLevel(c: Limits, ops: seq<Op>, ip: string, n: nat) returns (i: nat)
    requires c.Valid() && Schedule(ops) && n < |ops| && LevelOf(c, State(c, false, ops, n), ip, ops[n].t) < 1.0
    ensures i <= n && OverBudget(c, false, ops, ip, i, n)
  {
    i := TightWindow(c, ops, ip, n, ops[n].t);
    OverRefill(c, ops, ip, i, n);
    NoneAdmitted(c, ops, ip, n);
    RefillAdds(c.r, ops[n].t, ops[n].t, ops[n].t);
    hide LevelOf, State, Admitted, OverBudget, Refill;
  }

  /** A window over budget leaves less than one token. */
  lemma WindowEmpties(c: Limits, ops: seq<Op>, ip: string, i: nat, n: nat)
    requires c.Valid() && Schedule(ops) && i <= n < |ops| && OverBudget(c, false, ops, ip, i, n)
    ensures LevelOf(c, State(c, false, ops, n), ip, ops[n].t) < 1.0
  {
    hide Level, LevelOf, State, Admitted, BucketOf;
    Budget(c, ops, ip, i, n, ops[n].t);
  }

  lemma DeniedWithoutEviction(c: Limits, ops: seq<Op>, n: nat)
    requires c.Valid() && Schedule(ops) && n < |ops| && ops[n].Request?
    ensures !Admits(c, false, ops, n) <==> Exhausted(c, false, ops, ops[n].ip, n)
  {
    var ip := ops[n].ip;
    assert Admits(c, false, ops, n) <==> LevelOf(c, State(c, false, ops, n), ip, ops[n].t) >= 1.0;
    hide LevelOf, State, Admits, OverBudget;
    if !Admits(c, false, ops, n) {
      var i := LowLevel(c, ops, ip, n);
    }
    if i: nat :| i <= n && OverBudget(c, false, ops, ip, i, n) {
      WindowEmpties(c, ops, ip, i, n);
    }
  }

  lemma NoneAdmitted(c: Limits, ops: seq<Op>, ip: string, n: nat)
    requires n <= |ops|
    ensures Admitted(c, false, ops, ip, n, n) == 0
  {
  }

  /**
   * A request is denied exactly if some window that ends with it has already admitted more than the burst plus the rate
   * times its duration, less one.
   */
  lemma DeniedIff(c: Limits, ops: seq<Op>, n: nat)
    requires c.Valid() && c.b as real <= IDLE * c.r && Schedule(ops) && n < |ops| && ops[n].Request?
    ensures !Admits(c, true, ops, n) <==> Exhausted(c, true, ops, ops[n].ip, n)
  {
    EvictionInvisible(c, ops);
    DeniedWithoutEviction(c, ops, n);
    hide Admits, Admitted;
    forall i: nat | i <= n
      ensures OverBudget(c, true, ops, ops[n].ip, i, n) == OverBudget(c, false, ops, ops[n].ip, i, n)
    {
      SameAdmitted(c, ops, ops[n].ip, i, n);
    }
  }

  lemma {:induction false} SameAdmitted(c: Limits, ops: seq<Op>, ip: string, i: nat, j: nat)
    requires Invisible(c, ops) && i <= j <= |ops|
    ensures Admitted(c, true, ops, ip, i, j) == Admitted(c, false, ops, ip, i, j)
    decreases j
  {
    if i < j {
      SameAdmitted(c, ops, ip, i, j - 1);
    }
  }

  /** Any window of the schedule admits at most the burst plus the rate times its duration, for each address. */
  lemma WindowBound(c: Limits, ops: seq<Op>, ip: string, i: nat, j: nat)
    requires c.Valid() && c.b as real <= IDLE * c.r && Schedule(ops) && i < j <= |ops|
    ensures Admitted(c, true, ops, ip, i, j) as real <= c.b as real + c.r * (ops[j - 1].t - ops[i].t)
  {
    EvictionInvisible(c, ops);
    SameAdmitted(c, ops, ip, i, j);
    AdmittedBudget(c, ops, ip, i, j);
  }

  // The condition is necessary.

  /** `b` requests at time 0, a tick at `t`, `b` more requests. */
  ghost function Probe(ip: string, b: nat, t: real): seq<Op> {
    seq(2 * b + 1, i => if i < b then Request(ip, 0.0) else if i == b then Tick(t) else Request(ip, t))
  }

  /** From a full bucket `k <= b` requests at one instant are all admitted. */
  lemma {:induction false} Drains(c: Limits, ops: seq<Op>, ip: string, from: nat, k: nat, t: real)
    requires c.Valid() && k <= c.b && from + k <= |ops| && t >= 0.0
    requires forall i :: from <= i < from + k ==> ops[i] == Request(ip, t)
    requires LevelOf(c, State(c, true, ops, from), ip, t) == c.b as real
    ensures Admitted(c, true, ops, ip, from, from + k) == k
    ensures LevelOf(c, State(c, true, ops, from + k), ip, t) == (c.b - k) as real
    ensures k > 0 ==> ip in State(c, true, ops, from + k) && State(c, true, ops, from + k)[ip].lastSeen == t
  {
    if k > 0 {
      Drains(c, ops, ip, from, k - 1, t);
      assert ops[from + k - 1] == Request(ip, t);
      assert c.r * (t - t) == 0.0;
    }
  }

  lemma {:induction false} AdmittedSplit(c: Limits, evict: bool, ops: seq<Op>, ip: string, i: nat, j: nat, k: nat)
    requires i <= j <= k <= |ops|
    ensures Admitted(c, evict, ops, ip, i, k) == Admitted(c, evict, ops, ip, i, j) + Admitted(c, evict, ops, ip, j, k)
    decreases k
  {
    if j < k {
      AdmittedSplit(c, evict, ops, ip, i, j, k - 1);
    }
  }

  /** The first half drains the bucket and the tick forgets it. */
  lemma ProbeForgets(c: Limits, ip: string, t: real)
    requires c.Valid() && c.b > 0 && t > IDLE
    ensures var ops := Probe(ip, c.b, t);
            Admitted(c, true, ops, ip, 0, c.b + 1) == c.b && ip !in State(c, true, ops, c.b + 1)
  {
    var ops := Probe(ip, c.b, t);
    FullLevel(c, 0.0);
    Drains(c, ops, ip, 0, c.b, 0.0);
    assert ops[c.b] == Tick(t);
  }

  lemma ProbeAdmitted(c: Limits, ip: string, t: real)
    requires c.Valid() && c.b > 0 && t > IDLE
    ensures Admitted(c, true, Probe(ip, c.b, t), ip, 0, 2 * c.b + 1) == 2 * c.b
  {
    hide Level;
    var ops, b := Probe(ip, c.b, t), c.b;
    ProbeForgets(c, ip, t);
    FullLevel(c, t);
    Drains(c, ops, ip, b + 1, b, t);
    AdmittedSplit(c, true, ops, ip, 0, b + 1, 2 * b + 1);
  }

  /** A schedule on which the evicting table admits more. */
  lemma Distinguishes(c: Limits) returns (ops: seq<Op>)
    requires c.Valid() && c.b as real > IDLE * c.r
    ensures Schedule(ops) && !Invisible(c, ops)
  {
    hide Level, State, Stepped;
    assert c.b > 0 by { assert IDLE * c.r >= 0.0; }
    var t := ProbeTime(c);
    ops := Probe("ip", c.b, t);
    ProbeAdmitted(c, "ip", t);
    AdmittedBudget(c, ops, "ip", 0, |ops|);
    if Invisible(c, ops) {
      SameAdmitted(c, ops, "ip", 0, |ops|);
    }
  }

  /** Eviction is invisible on every schedule exactly when the burst refills within the idle time. */
  lemma EvictionInvisibleIff(c: Limits)
    requires c.Valid()
    ensures (forall ops :: Schedule(ops) ==> Invisible(c, ops)) <==> c.b as real <= IDLE * c.r
  {
    if c.b as real <= IDLE * c.r {
      forall ops | Schedule(ops) ensures Invisible(c, ops) {
        EvictionInvisible(c, ops);
      }
    } else {
      var ops := Distinguishes(c);
    }
  }

  /** A time just past the idle limit at which the bucket has not refilled yet. */
  lemma ProbeTime(c: Limits) returns (t: real)
    requires c.Valid() && c.b as real > IDLE * c.r
    ensures t > IDLE && c.r * t < c.b as real
  {
    var slack := c.b as real - IDLE * c.r;
    var more := slack / (c.r + slack);
    t := IDLE + more;
    Share(c.r, slack, more);
  }

  lemma Share(r: real, slack: real, more: real)
    requires r >= 0.0 && slack > 0.0 && more == slack / (r + slack)
    ensures more > 0.0 && r * more < slack
  {
    assert more * (r + slack) == slack;
    assert more > 0.0;
    assert r * more == slack - slack * more;
    assert slack * more > 0.0;
  }

  /** The server's own setting, five requests per second with a burst of ten, satisfies the condition. */
  lemma ServerLimits(ops: seq<Op>, ip: string, i: nat, j: nat)
    requires Schedule(ops) && i < j <= |ops|
    ensures Invisible(Limits(5.0, 10), ops)
    ensures Admitted(Limits(5.0, 10), true, ops, ip, i, j) as real <= 10.0 + 5.0 * (ops[j - 1].t - ops[i].t)
    ensures ops[i].Request? ==> (!Admits(Limits(5.0, 10), true, ops, i) <==>
                                 Exhausted(Limits(5.0, 10), true, ops, ops[i].ip, i))
  {
    if ops[i].Request? {
      DeniedIff(Limits(5.0, 10), ops, i);
    }
    EvictionInvisible(Limits(5.0, 10), ops);
    WindowBound(Limits(5.0, 10), ops, ip, i, j);
  }
}
