/**
 * SyncService: per-user subscriber lists and their bounded channels. Subscribe and cancel run under the lock; a
 * notify is taken here as ONE step, although the source lets go of the lock between copying the list and sending.
 * What other calls in that gap do, panics included, is the subject of SliceNotify.
 */
module Hub {
  import opened Results
  import opened Vault
  import opened Sequences

  const CAPACITY: nat := 32

  datatype Event = Upsert(id: string, item: Item) | Removed(id: string)

  datatype Chan = Chan(user: string, open: bool, buffer: seq<Event>)

  /** Channels are numbered in creation order. */
  datatype State = State(subs: map<string, seq<nat>>, chans: seq<Chan>) {
    function Listed(u: string): seq<nat> { if u in subs then subs[u] else [] }

    /** The channels listed for `u` are distinct, open and belong to `u`. */
    ghost predicate ListOk(u: string) {
      && Distinct(Listed(u))
      && (forall i :: 0 <= i < |Listed(u)| ==>
            Listed(u)[i] < |chans| && chans[Listed(u)[i]].user == u && chans[Listed(u)[i]].open)
    }

    /** An open channel is listed for its user, and no buffer is over capacity. */
    ghost predicate ChanOk(k: nat)
      requires k < |chans|
    {
      |chans[k].buffer| <= CAPACITY && (chans[k].open ==> k in Listed(chans[k].user))
    }

    ghost predicate Valid() {
      (forall u :: ListOk(u)) && (forall k: nat :: k < |chans| ==> ChanOk(k))
    }
  }

  datatype Outcome = Running(s: State) | Panicked

  function Subscribed(s: State, u: string): State {
    State(s.subs[u := s.Listed(u) + [|s.chans|]], s.chans + [Chan(u, true, [])])
  }

  /** The list without the first occurrence of `k`. */
  function Without(ks: seq<nat>, k: nat): seq<nat> {
    if ks == [] then [] else if ks[0] == k then ks[1..] else [ks[0]] + Without(ks[1..], k)
  }

  /** Cancel removes the channel from its user's list and closes it; closing twice panics. */
  function Cancelled(s: State, k: nat): Outcome
    requires k < |s.chans|
  {
    var c := s.chans[k];
    if !c.open then Panicked
    else Running(State(if c.user in s.subs then s.subs[c.user := Without(s.subs[c.user], k)] else s.subs,
                       s.chans[k := c.(open := false)]))
  }

  /** Non-blocking send: a full buffer drops the event. */
  function Offered(c: Chan, e: Event): Chan {
    if |c.buffer| < CAPACITY then c.(buffer := c.buffer + [e]) else c
  }

  /** Sends to every listed channel in turn; sending on a closed channel panics. */
  function Broadcast(chans: seq<Chan>, ks: seq<nat>, e: Event): (r: Option<seq<Chan>>)
    ensures r.Some? ==> |r.value| == |chans|
  {
    if ks == [] then Some(chans) else
      match Broadcast(chans, ks[..|ks| - 1], e)
      case None => None
      case Some(cs) =>
        var k := ks[|ks| - 1];
        if k < |cs| && cs[k].open then Some(cs[k := Offered(cs[k], e)]) else None
  }

  /** The whole notify as one step. */
  function Notified(s: State, u: string, e: Event): Outcome
  {
    match Broadcast(s.chans, s.Listed(u), e)
    case None => Panicked
    case Some(cs) => Running(s.(chans := cs))
  }

  function Received(s: State, k: nat): State
    requires k < |s.chans| && s.chans[k].buffer != []
  {
    s.(chans := s.chans[k := s.chans[k].(buffer := s.chans[k].buffer[1..])])
  }

  datatype Action = Subscribe(user: string) | Cancel(k: nat) | Notify(user: string, event: Event) | Receive(k: nat)

  /** Cancel and Receive need a channel that Subscribe returned; Receive waits for an event. */
  predicate Enabled(s: State, a: Action) {
    match a
    case Cancel(k) => k < |s.chans|
    case Receive(k) => k < |s.chans| && s.chans[k].buffer != []
    case _ => true
  }

  function Next(s: State, a: Action): Outcome
    requires s.Valid() && Enabled(s, a)
  {
    match a
    case Subscribe(u) => Running(Subscribed(s, u))
    case Cancel(k) => Cancelled(s, k)
    case Notify(u, e) => Notified(s, u, e)
    case Receive(k) => Running(Received(s, k))
  }

  // Steps keep the table valid.

  /** The slice expression of the source: the list without position `i`. */
  lemma {:induction false} WithoutAt(ks: seq<nat>, i: nat)
    requires Distinct(ks) && i < |ks|
    ensures Without(ks, ks[i]) == ks[..i] + ks[i + 1..]
  {
    if i > 0 {
      WithoutAt(ks[1..], i - 1);
      assert ks[..i] + ks[i + 1..] == [ks[0]] + (ks[1..][..i - 1] + ks[1..][i..]);
    }
  }

  lemma {:induction false} WithoutAbsent(ks: seq<nat>, k: nat)
    requires k !in ks
    ensures Without(ks, k) == ks
  {
    if ks != [] {
      WithoutAbsent(ks[1..], k);
    }
  }

  lemma DropAt(ks: seq<nat>, i: nat)
    requires Distinct(ks) && i < |ks|
    ensures var r := ks[..i] + ks[i + 1..];
            && Distinct(r) && ks[i] !in r
            && (forall j :: 0 <= j < |r| ==> r[j] in ks)
            && (forall j :: 0 <= j < |ks| && j != i ==> ks[j] in r)
  {
    var r := ks[..i] + ks[i + 1..];
    forall j | 0 <= j < |ks| && j != i ensures ks[j] in r {
      assert r[if j < i then j else j - 1] == ks[j];
    }
  }

  /** Removal keeps the other channels, in their order. */
  lemma WithoutOthers(ks: seq<nat>, k: nat)
    requires Distinct(ks)
    ensures var r := Without(ks, k);
            && Distinct(r) && k !in r
            && (forall i :: 0 <= i < |r| ==> r[i] in ks)
            && (forall l :: l in ks && l != k ==> l in r)
  {
    if k in ks {
      var i :| 0 <= i < |ks| && ks[i] == k;
      WithoutAt(ks, i);
      DropAt(ks, i);
    } else {
      WithoutAbsent(ks, k);
    }
  }

  /** On distinct open channels Broadcast offers the event to each listed channel once and touches no other. */
  lemma {:induction false} BroadcastEach(chans: seq<Chan>, ks: seq<nat>, e: Event)
    requires forall i :: 0 <= i < |ks| ==> ks[i] < |chans| && chans[ks[i]].open
    requires Distinct(ks)
    ensures Broadcast(chans, ks, e).Some?
    ensures forall k :: 0 <= k < |chans| ==>
      Broadcast(chans, ks, e).value[k] == (if k in ks then Offered(chans[k], e) else chans[k])
  {
    if ks != [] {
      var front, last := ks[..|ks| - 1], ks[|ks| - 1];
      BroadcastEach(chans, front, e);
      assert ks == front + [last];
      assert last !in front;
    }
  }

  lemma SubscribeValid(s: State, u: string)
    requires s.Valid()
    ensures Subscribed(s, u).Valid()
  {
    var t := Subscribed(s, u);
    forall v ensures t.ListOk(v) {
      assert s.ListOk(v);
    }
    forall k: nat | k < |t.chans| ensures t.ChanOk(k) {
      if k < |s.chans| {
        assert s.ChanOk(k);
      } else {
        assert t.Listed(u)[|s.Listed(u)|] == k;
      }
    }
  }

  lemma CancelList(s: State, k: nat, u: string)
    requires s.Valid() && k < |s.chans| && s.chans[k].open
    ensures Cancelled(s, k).s.Listed(u) == Without(s.Listed(u), k)
  {
    assert s.ListOk(u);
    if k in s.Listed(u) {
      assert s.chans[k].user == u;
    } else {
      WithoutAbsent(s.Listed(u), k);
    }
  }

  lemma CancelValid(s: State, k: nat)
    requires s.Valid() && k < |s.chans| && s.chans[k].open
    ensures Cancelled(s, k).s.Valid()
  {
    var t := Cancelled(s, k).s;
    forall u ensures t.ListOk(u) {
      assert s.ListOk(u);
      CancelList(s, k, u);
      WithoutOthers(s.Listed(u), k);
    }
    forall l: nat | l < |t.chans| ensures t.ChanOk(l) {
      var u := s.chans[l].user;
      assert s.ChanOk(l) && s.ListOk(u);
      CancelList(s, k, u);
      WithoutOthers(s.Listed(u), k);
    }
  }

  lemma NotifyEach(s: State, u: string, e: Event)
    requires s.Valid()
    ensures Notified(s, u, e).Running?
    ensures Notified(s, u, e).s.subs == s.subs && |Notified(s, u, e).s.chans| == |s.chans|
    ensures forall k :: 0 <= k < |s.chans| ==>
      Notified(s, u, e).s.chans[k] ==
      (if s.chans[k].user == u && s.chans[k].open then Offered(s.chans[k], e) else s.chans[k])
  {
    assert s.ListOk(u);
    BroadcastEach(s.chans, s.Listed(u), e);
    forall k: nat | k < |s.chans| && s.chans[k].user == u && s.chans[k].open ensures k in s.Listed(u) {
      assert s.ChanOk(k);
    }
  }

  lemma NotifyValid(s: State, u: string, e: Event)
    requires s.Valid()
    ensures Notified(s, u, e).Running? && Notified(s, u, e).s.Valid()
  {
    NotifyEach(s, u, e);
    var t := Notified(s, u, e).s;
    forall v ensures t.ListOk(v) { assert s.ListOk(v); }
    forall k: nat | k < |t.chans| ensures t.ChanOk(k) { assert s.ChanOk(k); }
  }

  lemma ReceiveValid(s: State, k: nat)
    requires s.Valid() && Enabled(s, Receive(k))
    ensures Received(s, k).Valid()
  {
    var t := Received(s, k);
    forall v ensures t.ListOk(v) { assert s.ListOk(v); }
    forall l: nat | l < |t.chans| ensures t.ChanOk(l) { assert s.ChanOk(l); }
  }

  /** With notify as one step, every action keeps the table valid and panics only when it cancels a closed channel. */
  lemma NextValid(s: State, a: Action)
    requires s.Valid() && Enabled(s, a)
    ensures Next(s, a).Panicked? <==> a.Cancel? && !s.chans[a.k].open
    ensures Next(s, a).Running? ==> Next(s, a).s.Valid()
  {
    match a
    case Subscribe(u) => SubscribeValid(s, u);
    case Cancel(k) => if s.chans[k].open { CancelValid(s, k); }
    case Notify(u, e) => NotifyEach(s, u, e); NotifyValid(s, u, e);
    case Receive(k) => ReceiveValid(s, k);
  }

  // Whole runs.

  const EMPTY := State(map[], [])

  datatype RunResult = Alive(s: State) | Dead | Stuck

  /** Runs the actions in order: Dead after a panic, Stuck if an action was not enabled. */
  ghost function Exec(run: seq<Action>): (r: RunResult)
    ensures r.Alive? ==> r.s.Valid()
  {
    if run == [] then Alive(EMPTY) else
      match Exec(Front(run))
      case Alive(s) =>
        var a := Last(run);
        if !Enabled(s, a) then Stuck else
          NextValid(s, a);
          if Next(s, a).Panicked? then Dead else Alive(Next(s, a).s)
      case other => other
  }

  function Front<T>(s: seq<T>): seq<T> requires s != [] { s[..|s| - 1] }
  function Last<T>(s: seq<T>): T requires s != [] { s[|s| - 1] }

  /** User of the subscription that created channel `k`, if it has happened. */
  ghost function Owner(run: seq<Action>, k: nat): Option<string> {
    if run == [] then None else
      match Owner(Front(run), k)
      case Some(u) => Some(u)
      case None => if Last(run).Subscribe? && Subscriptions(Front(run)) == k then Some(Last(run).user) else None
  }

  ghost function Subscriptions(run: seq<Action>): nat {
    if run == [] then 0 else Subscriptions(Front(run)) + if Last(run).Subscribe? then 1 else 0
  }

  ghost predicate Ended(run: seq<Action>, k: nat) { Cancel(k) in run }

  /** Channel `k` is offered the event of the last action: it was subscribed by that user and not cancelled. */
  ghost predicate Offer(run: seq<Action>, k: nat)
    requires run != []
  {
    Last(run).Notify? && Owner(Front(run), k) == Some(Last(run).user) && !Ended(Front(run), k)
  }

  /** The events published for the owner of `k` between its subscription and its cancellation. */
  ghost function Published(run: seq<Action>, k: nat): seq<Event> {
    if run == [] then [] else Published(Front(run), k) + if Offer(run, k) then [Last(run).event] else []
  }

  ghost predicate HasRoom(run: seq<Action>, k: nat) {
    Exec(run).Alive? && k < |Exec(run).s.chans| && |Exec(run).s.chans[k].buffer| < 32
  }

  /** For each of those events, whether the buffer had room when it was offered. */
  ghost function Room(run: seq<Action>, k: nat): (r: seq<bool>)
    ensures |r| == |Published(run, k)|
  {
    if run == [] then [] else Room(Front(run), k) + if Offer(run, k) then [HasRoom(Front(run), k)] else []
  }

  /** The events the subscriber has taken out of channel `k`. */
  ghost function Taken(run: seq<Action>, k: nat): seq<Event> {
    if run == [] then [] else
      var p := Exec(Front(run));
      Taken(Front(run), k) +
      if Last(run) == Receive(k) && p.Alive? && Enabled(p.s, Receive(k)) then [p.s.chans[k].buffer[0]] else []
  }

  ghost function Select(es: seq<Event>, room: seq<bool>): seq<Event>
    requires |es| == |room|
  {
    if es == [] then [] else Select(Front(es), Front(room)) + if Last(room) then [Last(es)] else []
  }

  ghost function Misses(room: seq<bool>): nat {
    if room == [] then 0 else Misses(Front(room)) + if Last(room) then 0 else 1
  }

  lemma {:induction false} SelectCount(es: seq<Event>, room: seq<bool>)
    requires |es| == |room|
    ensures |Select(es, room)| + Misses(room) == |es|
  {
    if es != [] { SelectCount(Front(es), Front(room)); }
  }

  ghost predicate Subsequence(a: seq<Event>, b: seq<Event>) {
    a == [] || (b != [] && (Subsequence(a, Front(b)) || (Last(a) == Last(b) && Subsequence(Front(a), Front(b)))))
  }

  lemma {:induction false} SelectSubsequence(es: seq<Event>, room: seq<bool>)
    requires |es| == |room|
    ensures Subsequence(Select(es, room), es)
  {
    if es != [] {
      SelectSubsequence(Front(es), Front(room));
      var got := Select(es, room);
      if Last(room) {
        assert Front(got) == Select(Front(es), Front(room)) && Last(got) == Last(es);
      } else {
        assert got == Select(Front(es), Front(room));
      }
    }
  }

  /** What an action does to one channel, independently of the table. */
  function ChanNext(c: Chan, k: nat, a: Action): Chan {
    match a
    case Subscribe(_) => c
    case Cancel(l) => if l == k then c.(open := false) else c
    case Notify(u, e) => if c.user == u && c.open then Offered(c, e) else c
    case Receive(l) => if l == k && c.buffer != [] then c.(buffer := c.buffer[1..]) else c
  }

  lemma ChanStep(s: State, a: Action, k: nat)
    requires s.Valid() && Enabled(s, a) && Next(s, a).Running?
    ensures |Next(s, a).s.chans| == |s.chans| + if a.Subscribe? then 1 else 0
    ensures k < |s.chans| ==> Next(s, a).s.chans[k] == ChanNext(s.chans[k], k, a)
    ensures a.Subscribe? ==> Next(s, a).s.chans[|s.chans|] == Chan(a.user, true, [])
  {
    if a.Notify? {
      NotifyEach(s, a.user, a.event);
    }
  }

  /** One more action at the end of a run that is still alive. */
  lemma ExecStep(run: seq<Action>, k: nat)
    requires run != [] && Exec(run).Alive?
    ensures Exec(Front(run)).Alive?
    ensures var s, t := Exec(Front(run)).s, Exec(run).s;
            && Enabled(s, Last(run))
            && (Last(run).Cancel? ==> s.chans[Last(run).k].open)
            && |t.chans| == |s.chans| + (if Last(run).Subscribe? then 1 else 0)
            && (k < |s.chans| ==> t.chans[k] == ChanNext(s.chans[k], k, Last(run)))
            && (Last(run).Subscribe? ==> t.chans[|s.chans|] == Chan(Last(run).user, true, []))
  {
    var s := Exec(Front(run)).s;
    NextValid(s, Last(run));
    ChanStep(s, Last(run), k);
  }

  lemma EndedStep(run: seq<Action>, k: nat)
    requires run != []
    ensures Ended(run, k) <==> Ended(Front(run), k) || Last(run) == Cancel(k)
  {
    assert run == Front(run) + [Last(run)];
  }

  /** The state of a channel read off the run alone. */
  lemma {:induction false} ChannelOfRun(run: seq<Action>, k: nat)
    requires Exec(run).Alive?
    ensures |Exec(run).s.chans| == Subscriptions(run)
    ensures Owner(run, k) == if k < Subscriptions(run) then Some(Exec(run).s.chans[k].user) else None
    ensures Ended(run, k) <==> k < Subscriptions(run) && !Exec(run).s.chans[k].open
  {
    if run != [] {
      ExecStep(run, k);
      ChannelOfRun(Front(run), k);
      EndedStep(run, k);
    }
  }

  ghost predicate CancelledTwice(run: seq<Action>) {
    exists i, j :: 0 <= i < j < |run| && run[i] == run[j] && run[i].Cancel?
  }

  lemma CancelledTwiceStep(run: seq<Action>)
    requires run != []
    ensures CancelledTwice(run) <==> CancelledTwice(Front(run)) || (Last(run).Cancel? && Last(run) in Front(run))
  {
    var front, a := Front(run), Last(run);
    if CancelledTwice(front) {
      var i, j :| 0 <= i < j < |front| && front[i] == front[j] && front[i].Cancel?;
      assert run[i] == run[j];
    }
    if a.Cancel? && a in front {
      var i :| 0 <= i < |front| && front[i] == a;
      assert run[i] == run[|front|];
    }
  }

  /**
   * With notify as one step a run ends in a panic exactly when some cancel function is called twice. With notify in
   * several steps there are other panics: SliceNotify.OverlapPanics, and SliceNotify.OverlapPanicsIff for exactly
   * when.
   */
  lemma {:induction false} PanicIffCancelledTwice(run: seq<Action>)
    requires !Exec(run).Stuck?
    ensures Exec(run).Dead? <==> CancelledTwice(run)
  {
    if run != [] {
      var front, a := Front(run), Last(run);
      PanicIffCancelledTwice(front);
      CancelledTwiceStep(run);
      if Exec(front).Alive? {
        NextValid(Exec(front).s, a);
        if a.Cancel? {
          ChannelOfRun(front, a.k);
        }
      }
    }
  }

  lemma {:induction false} NothingYet(run: seq<Action>, k: nat)
    requires Exec(run).Alive? && k >= |Exec(run).s.chans|
    ensures Taken(run, k) == [] == Published(run, k)
  {
    if run != [] {
      ExecStep(run, k);
      ChannelOfRun(Front(run), k);
      NothingYet(Front(run), k);
    }
  }

  lemma OfferStep(run: seq<Action>, k: nat)
    requires run != [] && Exec(run).Alive? && k < |Exec(Front(run)).s.chans| && Offer(run, k)
    requires Taken(Front(run), k) + Exec(Front(run)).s.chans[k].buffer ==
             Select(Published(Front(run), k), Room(Front(run), k))
    ensures Taken(run, k) + Exec(run).s.chans[k].buffer == Select(Published(run, k), Room(run, k))
  {
    hide Exec;
    ExecStep(run, k);
    ChannelOfRun(Front(run), k);
    var es, room := Published(run, k), Room(run, k);
    assert Front(es) == Published(Front(run), k) && Front(room) == Room(Front(run), k);
    assert Taken(run, k) == Taken(Front(run), k);
  }

  lemma QuietChan(run: seq<Action>, k: nat)
    requires run != [] && Exec(run).Alive? && k < |Exec(Front(run)).s.chans| && !Offer(run, k)
    ensures var before := Exec(Front(run)).s.chans[k].buffer;
            Exec(run).s.chans[k].buffer == if Last(run) == Receive(k) && before != [] then before[1..] else before
  {
    ExecStep(run, k);
    ChannelOfRun(Front(run), k);
  }

  lemma TakenStep(run: seq<Action>, k: nat)
    requires run != [] && Exec(run).Alive? && k < |Exec(Front(run)).s.chans|
    ensures Last(run) == Receive(k) ==> Exec(Front(run)).s.chans[k].buffer != []
    ensures Taken(run, k) == Taken(Front(run), k) +
                             if Last(run) == Receive(k) then [Exec(Front(run)).s.chans[k].buffer[0]] else []
  {
    ExecStep(run, k);
  }

  lemma MoveHead(t: seq<Event>, b: seq<Event>)
    requires b != []
    ensures (t + [b[0]]) + b[1..] == t + b
  {
  }

  lemma QuietStep(run: seq<Action>, k: nat)
    requires run != [] && Exec(run).Alive? && k < |Exec(Front(run)).s.chans| && !Offer(run, k)
    ensures Taken(run, k) + Exec(run).s.chans[k].buffer == Taken(Front(run), k) + Exec(Front(run)).s.chans[k].buffer
  {
    QuietChan(run, k);
    TakenStep(run, k);
    var taken, before := Taken(Front(run), k), Exec(Front(run)).s.chans[k].buffer;
    if Last(run) == Receive(k) {
      MoveHead(taken, before);
    } else {
      assert taken + [] == taken;
    }
  }

  /** With notify as one step: taken plus buffered is what was published for the channel and found room, in order. */
  lemma {:induction false} DeliveredInOrder(run: seq<Action>, k: nat)
    requires Exec(run).Alive? && k < |Exec(run).s.chans|
    ensures Taken(run, k) + Exec(run).s.chans[k].buffer == Select(Published(run, k), Room(run, k))
  {
    assert run != [];
    hide Exec;
    ExecStep(run, k);
    if k >= |Exec(Front(run)).s.chans| {
      NothingYet(Front(run), k);
      assert Published(run, k) == [] == Taken(run, k);
    } else {
      DeliveredInOrder(Front(run), k);
      if Offer(run, k) {
        OfferStep(run, k);
      } else {
        QuietStep(run, k);
        assert Published(run, k) == Published(Front(run), k) && Room(run, k) == Room(Front(run), k);
      }
    }
  }

  /**
   * Delivery conservation, with notify as one step. What a subscriber has taken plus what is still buffered is an
   * in-order subsequence of the events published for its own user while it was subscribed; exactly the offers that
   * met a full buffer are missing.
   */
  lemma Delivery(run: seq<Action>, k: nat)
    requires Exec(run).Alive? && k < |Exec(run).s.chans|
    ensures var got := Taken(run, k) + Exec(run).s.chans[k].buffer;
            && Subsequence(got, Published(run, k))
            && |got| + Misses(Room(run, k)) == |Published(run, k)|
            && |Exec(run).s.chans[k].buffer| <= CAPACITY
  {
    DeliveredInOrder(run, k);
    SelectCount(Published(run, k), Room(run, k));
    SelectSubsequence(Published(run, k), Room(run, k));
    assert Exec(run).s.ChanOk(k);
  }
}
