/**
 * The sync stream of one client as a step system: vault operations, publications, catch-up, registration, the bounded
 * live channel, the stream, and a client that applies what it receives. A notify call that other subscribers' cancels
 * make pass over the client's channel, or come to it again, is a publication that skips the channel or offers
 * repeatedly.
 */
module Replica {
  import opened Results
  import opened Vault
  import Hub

  /** What a sync event carries of an item; the type is not sent. */
  datatype View = View(payload: Bytes, metadata: string, version: int)

  function ToView(item: Item): View { View(item.payload, item.metadata, item.version) }

  datatype Event = Upsert(id: string, view: View) | Removed(id: string)

  type Copy = map<string, View>

  function Apply(c: Copy, e: Event): Copy {
    match e
    case Upsert(id, view) => c[id := view]
    case Removed(id) => c - {id}
  }

  function ApplyAll(c: Copy, es: seq<Event>): Copy {
    if es == [] then c else Apply(ApplyAll(c, es[..|es| - 1]), es[|es| - 1])
  }

  // The handler.

  const DEFAULT_LIMIT: nat := 50

  /** Limits outside 1..200 are replaced by 50; the sync handler asks for 1000. */
  function EffectiveLimit(limit: int): nat { if limit <= 0 || limit > 200 then DEFAULT_LIMIT else limit }

  /** One page of the listing; `answer` is the user's rows in the order of the query, before LIMIT. */
  method ListPage(answer: seq<(string, Item)>, limit: int) returns (items: seq<(string, Item)>, cursor: Option<string>)
    ensures items <= answer
    ensures var most := if 1 <= limit <= 200 then limit else 50;
            |items| == if |answer| <= most then |answer| else most
    ensures cursor.Some? <==> |items| < |answer|
    ensures cursor.Some? ==> cursor.value == answer[|items|].0
  {
    var n := if limit <= 0 || limit > 200 then 50 else limit;
    var fetched := if |answer| <= n + 1 then answer else answer[..n + 1];
    items := [];
    for i := 0 to |fetched|
      invariant items == fetched[..i]
    {
      items := items + [fetched[i]];
    }
    cursor := None;
    if |items| > n {
      cursor := Some(items[n].0);
      items := items[..n];
    }
  }

  function Known(kvs: seq<(string, int)>): map<string, int> {
    if kvs == [] then map[] else Known(kvs[..|kvs| - 1])[kvs[|kvs| - 1].0 := kvs[|kvs| - 1].1]
  }

  predicate Newer(known: map<string, int>, id: string, item: Item) { id !in known || item.version > known[id] }

  /** The catch-up events for a listing, in listing order. */
  function Missing(rows: Rows, known: map<string, int>, page: seq<string>): seq<Event>
    requires forall i :: 0 <= i < |page| ==> page[i] in rows
  {
    if page == [] then [] else
      var id := page[|page| - 1];
      Missing(rows, known, page[..|page| - 1]) +
      if Newer(known, id, rows[id]) then [Upsert(id, ToView(rows[id]))] else []
  }

  /** The handler's first part: index the announced versions, then send what is missing or newer. */
  method SendCatchUp(rows: Rows, page: seq<string>, kvs: seq<(string, int)>) returns (sent: seq<Event>)
    requires forall i :: 0 <= i < |page| ==> page[i] in rows
    ensures sent == Missing(rows, Known(kvs), page)
    ensures forall e :: e in sent ==> e.Upsert? && e.id in page && Carries(e.view, rows[e.id])
    ensures forall i :: 0 <= i < |page| ==>
              (Names(sent, page[i]) <==> forall v :: Announced(kvs, page[i], v) ==> rows[page[i]].version > v)
    ensures SentInOrder(sent, page)
  {
    MissingExact(rows, Known(kvs), page);
    forall i | 0 <= i < |page|
      ensures (forall v :: Announced(kvs, page[i], v) ==> rows[page[i]].version > v) <==>
              (page[i] !in Known(kvs) || rows[page[i]].version > Known(kvs)[page[i]])
    {
      AnnouncedOlder(kvs, page[i], rows[page[i]].version);
    }
    hide Announced, Names, SentInOrder, Carries;
    var known := map[];
    for i := 0 to |kvs|
      invariant known == Known(kvs[..i])
    {
      assert kvs[..i + 1][..i] == kvs[..i];
      known := known[kvs[i].0 := kvs[i].1];
    }
    assert kvs[..|kvs|] == kvs;
    sent := [];
    for i := 0 to |page|
      invariant sent == Missing(rows, known, page[..i])
    {
      assert page[..i + 1][..i] == page[..i];
      var item := rows[page[i]];
      if page[i] !in known || item.version > known[page[i]] {
        sent := sent + [Upsert(page[i], ToView(item))];
      }
    }
    assert page[..|page|] == page;
  }

  /** The view has the item's content and version. */
  ghost predicate Carries(view: View, item: Item) {
    view.payload == item.payload && view.metadata == item.metadata && view.version == item.version
  }

  /** The last announcement of the id has that version. */
  ghost predicate Announced(kvs: seq<(string, int)>, id: string, v: int) {
    exists k :: 0 <= k < |kvs| && kvs[k] == (id, v) && forall j :: k < j < |kvs| ==> kvs[j].0 != id
  }

  lemma {:induction false} KnownIsAnnounced(kvs: seq<(string, int)>)
    ensures forall id, v :: Announced(kvs, id, v) <==> id in Known(kvs) && Known(kvs)[id] == v
  {
    if kvs != [] {
      var n := |kvs| - 1;
      KnownIsAnnounced(kvs[..n]);
      forall id, v
        ensures Announced(kvs, id, v) <==> if kvs[n].0 == id then kvs[n].1 == v else Announced(kvs[..n], id, v)
      {
        AnnouncedStep(kvs, id, v);
      }
    }
  }

  lemma AnnouncedOlder(kvs: seq<(string, int)>, id: string, version: int)
    ensures (forall v :: Announced(kvs, id, v) ==> version > v) <==> (id !in Known(kvs) || version > Known(kvs)[id])
  {
    KnownIsAnnounced(kvs);
    if id in Known(kvs) {
      assert Announced(kvs, id, Known(kvs)[id]);
    }
  }

  lemma AnnouncedStep(kvs: seq<(string, int)>, id: string, v: int)
    requires kvs != []
    ensures var n := |kvs| - 1;
            Announced(kvs, id, v) <==> if kvs[n].0 == id then kvs[n].1 == v else Announced(kvs[..n], id, v)
  {
    var n := |kvs| - 1;
    if kvs[n].0 == id && kvs[n].1 == v {
      assert kvs[n] == (id, v);
    }
    if kvs[n].0 != id && Announced(kvs[..n], id, v) {
      var k :| 0 <= k < n && kvs[..n][k] == (id, v) && forall j :: k < j < n ==> kvs[..n][j].0 != id;
      assert kvs[k] == (id, v);
      forall j | k < j < |kvs| ensures kvs[j].0 != id { assert j < n ==> kvs[..n][j].0 != id; }
    }
    if kvs[n].0 != id && Announced(kvs, id, v) {
      var k :| 0 <= k < |kvs| && kvs[k] == (id, v) && forall j :: k < j < |kvs| ==> kvs[j].0 != id;
      assert kvs[..n][k] == (id, v);
    }
  }

  ghost predicate Names(es: seq<Event>, id: string) { exists e :: e in es && e.id == id }

  /** Of two events the earlier one names an item listed earlier. */
  ghost predicate SentInOrder(es: seq<Event>, page: seq<string>) {
    forall a, b :: 0 <= a < b < |es| ==> ListedBefore(page, es[a].id, es[b].id)
  }

  ghost predicate ListedBefore(page: seq<string>, x: string, y: string) {
    exists i, j :: 0 <= i < j < |page| && page[i] == x && page[j] == y
  }

  /** Every catch-up event carries the current content of an item not announced or announced with an older version. */
  lemma {:induction false} MissingNewer(rows: Rows, known: map<string, int>, page: seq<string>)
    requires forall i :: 0 <= i < |page| ==> page[i] in rows
    ensures forall e :: e in Missing(rows, known, page) ==>
      && e.Upsert? && e.id in page
      && e.view.payload == rows[e.id].payload && e.view.metadata == rows[e.id].metadata
      && e.view.version == rows[e.id].version && (e.id in known ==> rows[e.id].version > known[e.id])
  {
    if page != [] {
      MissingNewer(rows, known, page[..|page| - 1]);
    }
  }

  lemma {:induction false} NewerNamed(rows: Rows, known: map<string, int>, page: seq<string>, i: nat)
    requires forall k :: 0 <= k < |page| ==> page[k] in rows
    requires i < |page| && Newer(known, page[i], rows[page[i]])
    ensures Names(Missing(rows, known, page), page[i])
  {
    var n, es := |page| - 1, Missing(rows, known, page);
    if i < n {
      NewerNamed(rows, known, page[..n], i);
      var e :| e in Missing(rows, known, page[..n]) && e.id == page[i];
      assert e in es;
    } else {
      assert es[|es| - 1].id == page[n];
    }
  }

  lemma {:induction false} MissingInOrder(rows: Rows, known: map<string, int>, page: seq<string>)
    requires forall i :: 0 <= i < |page| ==> page[i] in rows
    ensures SentInOrder(Missing(rows, known, page), page)
  {
    if page != [] {
      var front := page[..|page| - 1];
      MissingInOrder(rows, known, front);
      MissingNewer(rows, known, front);
      OrderStep(Missing(rows, known, front), Missing(rows, known, page), page);
    }
  }

  /** And every such item is sent, in the order of the listing. */
  lemma MissingExact(rows: Rows, known: map<string, int>, page: seq<string>)
    requires forall i :: 0 <= i < |page| ==> page[i] in rows
    ensures var es := Missing(rows, known, page);
            && (forall e :: e in es ==> e.Upsert? && e.id in page && Carries(e.view, rows[e.id]))
            && (forall i :: 0 <= i < |page| ==>
                  (Names(es, page[i]) <==> page[i] !in known || rows[page[i]].version > known[page[i]]))
            && SentInOrder(es, page)
  {
    MissingNewer(rows, known, page);
    MissingInOrder(rows, known, page);
    hide Missing;
    forall i | 0 <= i < |page| && (page[i] !in known || rows[page[i]].version > known[page[i]])
      ensures Names(Missing(rows, known, page), page[i])
    {
      NewerNamed(rows, known, page, i);
    }
  }

  lemma OrderStep(front: seq<Event>, es: seq<Event>, page: seq<string>)
    requires page != [] && SentInOrder(front, page[..|page| - 1])
    requires forall e :: e in front ==> e.id in page[..|page| - 1]
    requires es == front || (|es| == |front| + 1 && es[..|front|] == front && es[|front|].id == page[|page| - 1])
    ensures SentInOrder(es, page)
  {
    var n := |page| - 1;
    assert es[..|front|] == front;
    forall a, b | 0 <= a < b < |es| ensures ListedBefore(page, es[a].id, es[b].id) {
      assert es[a] == es[..|front|][a] == front[a];
      if b < |front| {
        assert es[b] == es[..|front|][b] == front[b];
        assert ListedBefore(page[..n], front[a].id, front[b].id);
        var i, j :| 0 <= i < j < n && page[..n][i] == front[a].id && page[..n][j] == front[b].id;
        assert page[i] == es[a].id && page[j] == es[b].id;
      } else {
        assert front[a] in front;
        var i :| 0 <= i < n && page[..n][i] == front[a].id;
        assert page[i] == es[a].id && page[n] == es[b].id;
      }
    }
  }

  /** The live part of the handler: a hub event as it goes out on the stream. */
  function Wire(e: Hub.Event): Event {
    match e
    case Upsert(id, item) => Upsert(id, ToView(item))
    case Removed(id) => Removed(id)
  }

  function WireAll(es: seq<Hub.Event>): seq<Event> { seq(|es|, i requires 0 <= i < |es| => Wire(es[i])) }

  /** What goes out on the stream for a hub event has its id and, for an upsert, the item's content and version. */
  lemma WireCarries(e: Hub.Event)
    ensures Wire(e).id == e.id && (Wire(e).Upsert? <==> e.Upsert?)
    ensures e.Upsert? ==>
              && Wire(e).view.payload == e.item.payload && Wire(e).view.metadata == e.item.metadata
              && Wire(e).view.version == e.item.version
  {
  }

  // The step system.

  datatype Phase = Connecting | CaughtUp | Live

  /** `pending` holds writes whose notification has not run yet. */
  datatype Sys = Sys(user: string, known: map<string, int>, rows: Rows, used: set<string>, pending: seq<Event>,
                     phase: Phase, buffer: seq<Event>, sent: seq<Event>, client: Copy) {
    predicate Owned(id: string) { id in rows && rows[id].user == user }

    ghost function OwnedIds(): set<string> { set id | id in rows && rows[id].user == user }

    /** The client's copy once everything already sent or buffered has arrived. */
    function Arrived(): Copy { ApplyAll(client, sent + buffer) }

    ghost predicate Agrees(c: Copy, id: string)
      requires id in rows
    {
      && id in c && c[id].payload == rows[id].payload && c[id].metadata == rows[id].metadata
      && c[id].version == rows[id].version
    }
  }

  /**
   * A notify call that comes to the channel n times is n - 1 Offer steps and then Publish; one that never does is
   * Skip. Between these steps anything may happen.
   */
  datatype Step =
    | Write(op: Op)
    | Offer(k: nat)
    | Publish(k: nat)
    | Skip(k: nat)
    | CatchUp(page: seq<string>)
    | Register
    | Forward
    | Deliver

  ghost predicate Enabled(s: Sys, st: Step) {
    match st
    case Write(op) => op.Create? ==> op.id !in s.used
    case Offer(k) => k < |s.pending|
    case Publish(k) => k < |s.pending|
    case Skip(k) => k < |s.pending|
    case CatchUp(page) =>
      && s.phase.Connecting?
      && (forall i :: 0 <= i < |page| ==> s.Owned(page[i]))
      && (forall i, j :: 0 <= i < j < |page| ==> page[i] != page[j])
      && |page| == (if |s.OwnedIds()| <= EffectiveLimit(1000) then |s.OwnedIds()| else EffectiveLimit(1000))
    case Register => s.phase.CaughtUp?
    case Forward => s.phase.Live? && s.buffer != []
    case Deliver => s.sent != []
  }

  function EventOf(rows: Rows, op: Op): Event
    requires Succeeds(rows, op)
  {
    if op.Delete? then Removed(op.id) else Upsert(op.id, ToView(After(rows, op)[op.id]))
  }

  /** The event of a successful write: its id, and for a creation or an update the content written and its version. */
  lemma EventCarries(rows: Rows, op: Op)
    requires Succeeds(rows, op)
    ensures EventOf(rows, op).id == op.id && (EventOf(rows, op).Removed? <==> op.Delete?)
    ensures !op.Delete? ==>
              var view := EventOf(rows, op).view;
              && view.payload == op.payload && view.metadata == op.metadata
              && view.version == if op.Create? then 1 else rows[op.id].version + 1
  {
  }

  /** A write; successful writes of this user will be published, those of other users never reach this client. */
  function Written(s: Sys, op: Op): Sys {
    var t := s.(rows := After(s.rows, op), used := s.used + {op.id});
    if !Succeeds(s.rows, op) || op.user != s.user then t else t.(pending := s.pending + [EventOf(s.rows, op)])
  }

  /** An event reaches the channel only once it is registered and while its buffer has room. */
  predicate Enqueues(s: Sys) { s.phase.Live? && |s.buffer| < Hub.CAPACITY }

  function Offered(s: Sys, k: nat): Sys
    requires k < |s.pending|
  {
    if Enqueues(s) then s.(buffer := s.buffer + [s.pending[k]]) else s
  }

  function Skipped(s: Sys, k: nat): Sys
    requires k < |s.pending|
  {
    s.(pending := s.pending[..k] + s.pending[k + 1..])
  }

  function Published(s: Sys, k: nat): Sys
    requires k < |s.pending|
  {
    Skipped(Offered(s, k), k)
  }

  /** On a registered channel a publication is exactly the hub's non-blocking offer. */
  lemma PublishIsOffer(s: Sys, k: nat, buffer: seq<Hub.Event>, e: Hub.Event)
    requires s.phase.Live? && k < |s.pending| && s.buffer == WireAll(buffer) && s.pending[k] == Wire(e)
    ensures Published(s, k).buffer == WireAll(Hub.Offered(Hub.Chan(s.user, true, buffer), e).buffer)
  {
    assert WireAll(buffer + [e]) == WireAll(buffer) + [Wire(e)];
  }

  ghost function Next(s: Sys, st: Step): Sys
    requires Enabled(s, st)
  {
    match st
    case Write(op) => Written(s, op)
    case Offer(k) => Offered(s, k)
    case Publish(k) => Published(s, k)
    case Skip(k) => Skipped(s, k)
    case CatchUp(page) => s.(phase := CaughtUp, sent := s.sent + Missing(s.rows, s.known, page))
    case Register => s.(phase := Live, buffer := [])
    case Forward => s.(sent := s.sent + [s.buffer[0]], buffer := s.buffer[1..])
    case Deliver => s.(client := Apply(s.client, s.sent[0]), sent := s.sent[1..])
  }

  ghost function Exec(s: Sys, steps: seq<Step>): Option<Sys> {
    if steps == [] then Some(s) else
      var p := Exec(s, steps[..|steps| - 1]);
      if p.None? || !Enabled(p.value, steps[|steps| - 1]) then None else Some(Next(p.value, steps[|steps| - 1]))
  }

  // Invariant.

  /** `view` was once the content of `id`: an id still stored has a higher version or exactly this content. */
  ghost predicate Past(s: Sys, id: string, view: View) {
    && id in s.used
    && (id in s.rows ==> view.version <= s.rows[id].version &&
                         (view.version == s.rows[id].version ==> view == ToView(s.rows[id])))
  }

  ghost predicate PastCopy(s: Sys, c: Copy) { forall id :: id in c ==> Past(s, id, c[id]) }

  ghost predicate PastEvent(s: Sys, e: Event) {
    if e.Upsert? then Past(s, e.id, e.view) else e.id in s.used && e.id !in s.rows
  }

  ghost predicate PastEvents(s: Sys, es: seq<Event>) { forall i :: 0 <= i < |es| ==> PastEvent(s, es[i]) }

  /** Announced versions are those the client holds. */
  ghost predicate Truthful(s: Sys) {
    forall id :: id in s.known ==> id in s.client && s.client[id].version == s.known[id]
  }

  /** Everything held or under way is an old or current content; before catch-up nothing is under way to the client. */
  ghost predicate Inv(s: Sys) {
    && s.rows.Keys <= s.used
    && PastCopy(s, s.client) && PastEvents(s, s.pending) && PastEvents(s, s.buffer) && PastEvents(s, s.sent)
    && (!s.phase.Live? ==> s.buffer == [])
    && (s.phase.Connecting? ==> s.sent == [] && Truthful(s))
  }

  /** A client at the moment it connects: its copies are old contents and nothing is in flight towards it. */
  ghost predicate Start(s: Sys) {
    && s.rows.Keys <= s.used && s.phase.Connecting? && s.sent == [] == s.buffer
    && PastEvents(s, s.pending) && PastCopy(s, s.client) && Truthful(s)
  }

  lemma {:induction false} ApplyConcat(c: Copy, a: seq<Event>, b: seq<Event>)
    ensures ApplyAll(c, a + b) == ApplyAll(ApplyAll(c, a), b)
  {
    if b == [] {
      assert a + b == a;
    } else {
      assert (a + b)[..|a + b| - 1] == a + b[..|b| - 1];
      ApplyConcat(c, a, b[..|b| - 1]);
    }
  }

  lemma ApplyOne(c: Copy, e: Event)
    ensures ApplyAll(c, [e]) == Apply(c, e)
  {
    assert [e][..0] == [];
  }

  lemma {:induction false} ApplyPast(s: Sys, c: Copy, es: seq<Event>)
    requires PastCopy(s, c) && PastEvents(s, es)
    ensures PastCopy(s, ApplyAll(c, es))
  {
    if es != [] {
      ApplyPast(s, c, es[..|es| - 1]);
    }
  }

  lemma ArrivedPast(s: Sys)
    requires PastCopy(s, s.client) && PastEvents(s, s.sent) && PastEvents(s, s.buffer)
    ensures PastCopy(s, s.Arrived())
  {
    ApplyPast(s, s.client, s.sent + s.buffer);
  }

  lemma WritePast(s: Sys, op: Op)
    requires s.rows.Keys <= s.used && Enabled(s, Write(op))
    ensures forall id, view :: Past(s, id, view) ==> Past(Written(s, op), id, view)
    ensures forall e :: PastEvent(s, e) ==> PastEvent(Written(s, op), e)
    ensures Written(s, op).rows.Keys <= Written(s, op).used
    ensures Succeeds(s.rows, op) ==> PastEvent(Written(s, op), EventOf(s.rows, op))
  {
  }

  lemma WriteInv(s: Sys, op: Op)
    requires Inv(s) && Enabled(s, Write(op))
    ensures Inv(Written(s, op))
  {
    hide ApplyAll, After, EventOf, Past;
    var t := Written(s, op);
    WritePast(s, op);
    assert PastEvents(t, t.pending) && PastEvents(t, t.buffer) && PastEvents(t, t.sent);
  }

  /** `c` is the client's copy with exactly the items of `page` brought up to date. */
  ghost predicate Refreshed(s: Sys, page: seq<string>, c: Copy)
    requires forall i :: 0 <= i < |page| ==> page[i] in s.rows
  {
    && (forall i :: 0 <= i < |page| ==> s.Agrees(c, page[i]))
    && (forall id :: id !in page ==> (id in c <==> id in s.client) && (id in c ==> c[id] == s.client[id]))
  }

  lemma RefreshOne(s: Sys, front: seq<string>, id: string, c: Copy)
    requires forall i :: 0 <= i < |front| ==> front[i] in s.rows
    requires Refreshed(s, front, c) && id in s.rows && PastCopy(s, s.client) && Truthful(s)
    ensures Refreshed(s, front + [id], if Newer(s.known, id, s.rows[id]) then c[id := ToView(s.rows[id])] else c)
  {
    if !Newer(s.known, id, s.rows[id]) {
      assert Past(s, id, s.client[id]);
    }
  }

  lemma {:induction false} MissingApplied(s: Sys, page: seq<string>)
    requires forall i :: 0 <= i < |page| ==> page[i] in s.rows
    requires PastCopy(s, s.client) && Truthful(s) && s.rows.Keys <= s.used
    ensures PastEvents(s, Missing(s.rows, s.known, page))
    ensures Refreshed(s, page, ApplyAll(s.client, Missing(s.rows, s.known, page)))
  {
    if page != [] {
      var front, id := page[..|page| - 1], page[|page| - 1];
      MissingApplied(s, front);
      var es := Missing(s.rows, s.known, front);
      RefreshOne(s, front, id, ApplyAll(s.client, es));
      assert page == front + [id];
      ApplyConcat(s.client, es, [Upsert(id, ToView(s.rows[id]))]);
      ApplyOne(ApplyAll(s.client, es), Upsert(id, ToView(s.rows[id])));
      assert es + [] == es;
    }
  }

  lemma PastSame(s: Sys, t: Sys)
    requires t.rows == s.rows && t.used == s.used
    ensures forall e :: PastEvent(s, e) <==> PastEvent(t, e)
    ensures forall c :: PastCopy(s, c) <==> PastCopy(t, c)
  {
    assert forall id, view :: Past(s, id, view) <==> Past(t, id, view);
  }

  lemma DeliverInv(s: Sys)
    requires Inv(s) && Enabled(s, Deliver)
    ensures Inv(Next(s, Deliver)) && Next(s, Deliver).Arrived() == s.Arrived()
  {
    hide ApplyAll;
    var t := Next(s, Deliver);
    assert s.sent + s.buffer == [s.sent[0]] + (t.sent + t.buffer);
    ApplyConcat(s.client, [s.sent[0]], t.sent + t.buffer);
    ApplyOne(s.client, s.sent[0]);
    assert PastEvent(s, s.sent[0]);
  }

  lemma NextInv(s: Sys, st: Step)
    requires Inv(s) && Enabled(s, st)
    ensures Inv(Next(s, st))
  {
    hide ApplyAll, Missing, Past;
    match st
    case Write(op) => WriteInv(s, op);
    case Offer(k) => OfferInv(s, k);
    case Publish(k) => OfferInv(s, k); SkipInv(Offered(s, k), k);
    case Skip(k) => SkipInv(s, k);
    case CatchUp(page) => CatchUpInv(s, page);
    case Register => PastSame(s, Next(s, st));
    case Forward => PastSame(s, Next(s, st));
    case Deliver => DeliverInv(s);
  }

  lemma OfferInv(s: Sys, k: nat)
    requires Inv(s) && k < |s.pending|
    ensures Inv(Offered(s, k))
  {
    hide ApplyAll, Past, PastEvent, PastCopy;
    PastSame(s, Offered(s, k));
  }

  lemma SkipInv(s: Sys, k: nat)
    requires Inv(s) && k < |s.pending|
    ensures Inv(Skipped(s, k))
  {
    hide ApplyAll, Past, PastEvent, PastCopy;
    PastSame(s, Skipped(s, k));
  }

  lemma CatchUpInv(s: Sys, page: seq<string>)
    requires Inv(s) && Enabled(s, CatchUp(page))
    ensures Inv(Next(s, CatchUp(page)))
  {
    hide ApplyAll, Missing, Past, PastEvent, PastCopy, Refreshed;
    PastSame(s, Next(s, CatchUp(page)));
    MissingApplied(s, page);
  }

  lemma {:induction false} ExecInv(s: Sys, steps: seq<Step>)
    requires Start(s) && Exec(s, steps).Some?
    ensures Inv(Exec(s, steps).value)
  {
    if steps != [] {
      ExecInv(s, steps[..|steps| - 1]);
      NextInv(Exec(s, steps[..|steps| - 1]).value, steps[|steps| - 1]);
    }
  }

  // What the client ends up with, read off the run.

  /** The events a step sends towards the client: a catch-up, or an offer that finds room in a registered channel. */
  function Told(s: Sys, st: Step): seq<Event>
    requires Enabled(s, st)
  {
    match st
    case CatchUp(page) => Missing(s.rows, s.known, page)
    case Offer(k) => if Enqueues(s) then [s.pending[k]] else []
    case Publish(k) => if Enqueues(s) then [s.pending[k]] else []
    case _ => []
  }

  /** The last event of `es` about `id`, if there is one. */
  function LastAbout(es: seq<Event>, id: string): Option<Event> {
    if es == [] then None
    else if es[|es| - 1].id == id then Some(es[|es| - 1])
    else LastAbout(es[..|es| - 1], id)
  }

  /** The last event about `id` that the run has sent towards the client, if any. */
  ghost function LastWord(s: Sys, steps: seq<Step>, id: string): Option<Event>
    requires Exec(s, steps).Some?
  {
    if steps == [] then None else
      var n := |steps| - 1;
      var last := LastAbout(Told(Exec(s, steps[..n]).value, steps[n]), id);
      if last.Some? then last else LastWord(s, steps[..n], id)
  }

  function Held(c: Copy, id: string): Option<View> { if id in c then Some(c[id]) else None }

  /** What a copy holds of `id` after the last word on it, or without one. */
  function Settle(before: Option<View>, word: Option<Event>): Option<View> {
    match word
    case None => before
    case Some(Upsert(_, view)) => Some(view)
    case Some(Removed(_)) => None
  }

  lemma {:induction false} ApplyAllHeld(c: Copy, es: seq<Event>, id: string)
    ensures Held(ApplyAll(c, es), id) == Settle(Held(c, id), LastAbout(es, id))
  {
    if es != [] {
      ApplyAllHeld(c, es[..|es| - 1], id);
    }
  }

  lemma OfferArrives(c: Copy, sent: seq<Event>, buffer: seq<Event>, e: Event)
    ensures ApplyAll(c, sent + (buffer + [e])) == ApplyAll(ApplyAll(c, sent + buffer), [e])
  {
    hide ApplyAll;
    assert sent + (buffer + [e]) == (sent + buffer) + [e];
    ApplyConcat(c, sent + buffer, [e]);
  }

  /** A step changes what will have arrived only by what it tells the client. */
  lemma ArrivedStep(s: Sys, st: Step)
    requires Inv(s) && Enabled(s, st)
    ensures Next(s, st).Arrived() == ApplyAll(s.Arrived(), Told(s, st))
  {
    var t := Next(s, st);
    assert ApplyAll(s.Arrived(), []) == s.Arrived();
    assert (!s.phase.Live? ==> s.buffer == []) && (s.phase.Connecting? ==> s.sent == []);
    hide ApplyAll, Inv, Missing, After, EventOf;
    match st
    case Write(_) =>
    case Skip(_) =>
    case Offer(k) => OfferArrives(s.client, s.sent, s.buffer, s.pending[k]);
    case Publish(k) => OfferArrives(s.client, s.sent, s.buffer, s.pending[k]);
    case CatchUp(page) =>
      assert s.sent + s.buffer == [];
      assert t.sent + t.buffer == (s.sent + s.buffer) + Told(s, st);
      ApplyConcat(s.client, s.sent + s.buffer, Told(s, st));
    case Register => assert s.buffer == [];
    case Forward => assert t.sent + t.buffer == s.sent + s.buffer;
    case Deliver => DeliverInv(s);
  }

  /**
   * In every run the client will hold of each id, stored or not, exactly the last word on it, or what it held at
   * first.
   */
  lemma {:induction false} ArrivedIsLastWord(s: Sys, steps: seq<Step>, id: string)
    requires Start(s) && Exec(s, steps).Some?
    ensures Held(Exec(s, steps).value.Arrived(), id) == Settle(Held(s.client, id), LastWord(s, steps, id))
  {
    if steps == [] {
      assert s.sent + s.buffer == [];
    } else {
      var n := |steps| - 1;
      var p := Exec(s, steps[..n]).value;
      ArrivedIsLastWord(s, steps[..n], id);
      ExecInv(s, steps[..n]);
      ArrivedStep(p, steps[n]);
      ApplyAllHeld(p.Arrived(), Told(p, steps[n]), id);
    }
  }

  /**
   * Exact agreement, for every interleaving of writes, publications, catch-up and delivery: the client's copy of a
   * stored item, everything in flight applied, is the stored content exactly when the last word on it, or the copy
   * held at connection if there was none, carries the stored version.
   */
  lemma ExactAgreement(s: Sys, steps: seq<Step>, id: string)
    requires Start(s) && Exec(s, steps).Some? && Exec(s, steps).value.Owned(id)
    ensures var t := Exec(s, steps).value;
            var last := Settle(Held(s.client, id), LastWord(s, steps, id));
            var c, row := t.Arrived(), t.rows[id];
            (id in c && c[id].payload == row.payload && c[id].metadata == row.metadata && c[id].version == row.version)
            <==> last.Some? && last.value.version == row.version
  {
    ArrivedIsLastWord(s, steps, id);
    ExecInv(s, steps);
    ArrivedPast(Exec(s, steps).value);
  }

  /**
   * An id that is not stored stays with the client exactly if the last word on it is an upsert, or it was held and
   * never spoken of.
   */
  lemma GhostCopyIff(s: Sys, steps: seq<Step>, id: string)
    requires Start(s) && Exec(s, steps).Some? && id !in Exec(s, steps).value.rows
    ensures var word := LastWord(s, steps, id);
            id in Exec(s, steps).value.Arrived() <==>
            (word.None? && id in s.client) || (word.Some? && word.value.Upsert?)
  {
    ArrivedIsLastWord(s, steps, id);
  }

  // Undisturbed runs.

  /**
   * The client, which connected holding `held`, can do without the event: it will have the content anyway, or the item
   * is one it does not hold or held from the start.
   */
  predicate Missable(s: Sys, e: Event, held: set<string>) {
    if e.Upsert? then Held(s.Arrived(), e.id) == Some(e.view) else e.id in s.Arrived() ==> e.id in held
  }

  /**
   * Conditions under which nothing is missed: a user's write starts only when the previous one has been published and
   * not between catch-up and registration, the listing fits one page, and a publication that meets a full buffer or
   * passes over the registered channel is missable.
   */
  ghost predicate Undisturbed(s: Sys, st: Step, held: set<string>) {
    match st
    case Write(op) => op.user == s.user && Succeeds(s.rows, op) ==> s.pending == [] && !s.phase.CaughtUp?
    case Publish(k) => s.phase.Live? && k < |s.pending| ==> |s.buffer| < Hub.CAPACITY || Missable(s, s.pending[k], held)
    case Skip(k) => s.phase.Live? && k < |s.pending| ==> Missable(s, s.pending[k], held)
    case CatchUp(_) => |s.OwnedIds()| <= DEFAULT_LIMIT
    case _ => true
  }

  ghost predicate UndisturbedRun(s: Sys, steps: seq<Step>) {
    steps == [] ||
    (var n := |steps| - 1;
     && UndisturbedRun(s, steps[..n])
     && (Exec(s, steps[..n]).Some? ==> Undisturbed(Exec(s, steps[..n]).value, steps[n], s.client.Keys)))
  }

  /** The event is the newest word on its id. */
  ghost predicate Current(s: Sys, e: Event) {
    if e.Upsert? then s.Owned(e.id) && e.view == ToView(s.rows[e.id]) else e.id !in s.rows
  }

  ghost function PendingIds(s: Sys): set<string> { set i | 0 <= i < |s.pending| :: s.pending[i].id }

  /** Every stored item except those of `but` has arrived. */
  ghost predicate UpToDate(s: Sys, c: Copy, but: set<string>) {
    forall id :: s.Owned(id) && id !in but ==> s.Agrees(c, id)
  }

  ghost predicate Calm(s: Sys, held: set<string>) {
    && |s.pending| <= 1 && (forall i :: 0 <= i < |s.pending| ==> Current(s, s.pending[i]))
    && (s.phase.Connecting? ==> s.client.Keys == held)
    && (s.phase.CaughtUp? ==> UpToDate(s, s.Arrived(), {}) && s.Arrived().Keys <= s.OwnedIds() + held)
    && (s.phase.Live? ==>
          UpToDate(s, s.Arrived(), PendingIds(s)) && s.Arrived().Keys <= s.OwnedIds() + held + PendingIds(s))
  }

  lemma OwnWriteShape(s: Sys, op: Op)
    requires Enabled(s, Write(op)) && Succeeds(s.rows, op) && op.user == s.user && s.pending == []
    ensures var t := Written(s, op);
            && t.pending == [EventOf(s.rows, op)] && Current(t, t.pending[0])
            && PendingIds(t) == {op.id} && PendingIds(s) == {}
            && (forall id :: id != op.id ==>
                  (t.Owned(id) <==> s.Owned(id)) && (s.Owned(id) ==> t.rows[id] == s.rows[id]))
  {
    var t := Written(s, op);
    assert t.pending[0].id == op.id;
  }

  /** One item changed, its event is the only one pending, and nothing else moved. */
  lemma CalmAfterChange(s: Sys, t: Sys, id: string, held: set<string>)
    requires Calm(s, held) && !s.phase.CaughtUp?
    requires t.phase == s.phase && t.client == s.client && t.Arrived() == s.Arrived()
    requires |t.pending| == 1 && Current(t, t.pending[0]) && PendingIds(s) == {} && PendingIds(t) == {id}
    requires forall x :: x != id ==> (t.Owned(x) <==> s.Owned(x)) && (s.Owned(x) ==> t.rows[x] == s.rows[x])
    ensures Calm(t, held)
  {
    hide ApplyAll, Current, PendingIds;
    assert s.OwnedIds() <= t.OwnedIds() + {id} by {
      forall x | x in s.OwnedIds() ensures x in t.OwnedIds() + {id} { assert s.Owned(x); }
    }
    if s.phase.Live? {
      forall x | t.Owned(x) && x != id ensures t.Agrees(t.Arrived(), x) {
        assert s.Owned(x) && s.Agrees(s.Arrived(), x);
      }
    }
  }

  lemma CalmOwnWrite(s: Sys, op: Op, held: set<string>)
    requires Calm(s, held) && Enabled(s, Write(op)) && Undisturbed(s, Write(op), held)
    requires Succeeds(s.rows, op) && op.user == s.user
    ensures Calm(Written(s, op), held)
  {
    hide ApplyAll, After, EventOf, Succeeds, Current, PendingIds;
    OwnWriteShape(s, op);
    CalmAfterChange(s, Written(s, op), op.id, held);
  }

  /** The client's user, rows, pending events and view all stay as they are. */
  lemma CalmSame(s: Sys, t: Sys, held: set<string>)
    requires Calm(s, held) && t.user == s.user && t.pending == s.pending && t.Arrived() == s.Arrived()
    requires forall id :: (t.Owned(id) <==> s.Owned(id)) && (s.Owned(id) ==> t.rows[id] == s.rows[id])
    requires forall i :: 0 <= i < |s.pending| ==> Current(t, s.pending[i])
    requires
      || (t.phase == s.phase && t.client == s.client)
      || (!s.phase.Connecting? && (t.phase == s.phase || t.phase.Live?))
    ensures Calm(t, held)
  {
    hide ApplyAll, Current;
    assert t.OwnedIds() == s.OwnedIds() by {
      forall id ensures id in t.OwnedIds() <==> id in s.OwnedIds() { assert t.Owned(id) <==> s.Owned(id); }
    }
    assert PendingIds(t) == PendingIds(s);
    assert forall id :: t.Owned(id) ==> t.Agrees(t.Arrived(), id) == s.Agrees(s.Arrived(), id);
  }

  lemma CalmOtherWrite(s: Sys, op: Op, held: set<string>)
    requires Inv(s) && Calm(s, held) && Enabled(s, Write(op))
    requires !Succeeds(s.rows, op) || op.user != s.user
    ensures Calm(Written(s, op), held)
  {
    hide ApplyAll;
    var t := Written(s, op);
    forall i | 0 <= i < |s.pending| ensures Current(t, s.pending[i]) {
      assert Current(s, s.pending[i]) && PastEvent(s, s.pending[i]);
    }
    CalmSame(s, t, held);
  }

  /** Once the newest word on the pending id is buffered, everything is up to date. */
  lemma WordArrives(s: Sys, t: Sys, e: Event, held: set<string>)
    requires t.rows == s.rows && t.user == s.user && Current(s, e) && t.Arrived() == Apply(s.Arrived(), e)
    requires UpToDate(s, s.Arrived(), {e.id}) && s.Arrived().Keys <= s.OwnedIds() + held + {e.id}
    ensures UpToDate(t, t.Arrived(), {}) && t.Arrived().Keys <= t.OwnedIds() + held
  {
    hide ApplyAll;
    forall id | t.Owned(id) ensures t.Agrees(t.Arrived(), id) {
      assert s.Owned(id) && (id != e.id ==> s.Agrees(s.Arrived(), id));
    }
    assert t.OwnedIds() == s.OwnedIds();
    assert e.Upsert? ==> e.id in s.OwnedIds();
  }

  /** A missable word changes nothing by not arriving. */
  lemma WordMissed(s: Sys, t: Sys, e: Event, held: set<string>)
    requires t.rows == s.rows && t.user == s.user && Current(s, e) && t.Arrived() == s.Arrived() && Missable(s, e, held)
    requires UpToDate(s, s.Arrived(), {e.id}) && s.Arrived().Keys <= s.OwnedIds() + held + {e.id}
    ensures UpToDate(t, t.Arrived(), {}) && t.Arrived().Keys <= t.OwnedIds() + held
  {
    hide ApplyAll;
    forall id | t.Owned(id) ensures t.Agrees(t.Arrived(), id) {
      assert s.Owned(id) && (id != e.id ==> s.Agrees(s.Arrived(), id));
    }
    SameOwned(s, t);
    assert e.Upsert? ==> e.id in s.OwnedIds();
  }

  lemma OfferArrived(s: Sys, k: nat)
    requires Inv(s) && k < |s.pending| && Enqueues(s)
    ensures Offered(s, k).Arrived() == Apply(s.Arrived(), s.pending[k])
  {
    hide ApplyAll, Inv;
    ArrivedStep(s, Offer(k));
    ApplyOne(s.Arrived(), s.pending[k]);
  }

  lemma MoreExcepted(s: Sys, c: Copy, but: set<string>)
    requires UpToDate(s, c, {})
    ensures UpToDate(s, c, but)
  {
  }

  /** In a calm live system one offer of the pending event brings the client up to date; more do no harm. */
  lemma CalmOffer(s: Sys, k: nat, held: set<string>)
    requires Inv(s) && Calm(s, held) && Enabled(s, Offer(k)) && Enqueues(s)
    ensures var t := Offered(s, k);
            Calm(t, held) && UpToDate(t, t.Arrived(), {}) && t.Arrived().Keys <= t.OwnedIds() + held
  {
    hide ApplyAll, Inv, Sys.OwnedIds, UpToDate;
    OfferArrived(s, k);
    var t, e := Offered(s, k), s.pending[k];
    assert k == 0 && PendingIds(s) == {e.id} == PendingIds(t) && Current(s, e) && Current(t, e);
    hide Current, PendingIds;
    WordArrives(s, t, e, held);
    MoreExcepted(t, t.Arrived(), {e.id});
  }

  /** The end of a publication, of which the client has had or can do without the event. */
  lemma CalmSkip(s: Sys, k: nat, held: set<string>)
    requires Inv(s) && Calm(s, held) && Enabled(s, Skip(k))
    requires s.phase.Live? ==>
      Missable(s, s.pending[k], held) ||
      (UpToDate(s, s.Arrived(), {}) && s.Arrived().Keys <= s.OwnedIds() + held)
    ensures Calm(Skipped(s, k), held)
  {
    hide ApplyAll, PastCopy, PastEvents, Truthful, Sys.OwnedIds;
    var t, e := Skipped(s, k), s.pending[k];
    assert k == 0 && t.pending == [] && PendingIds(s) == {e.id} && PendingIds(t) == {} && Current(s, e);
    SameOwned(s, t);
    if s.phase.Live? && Missable(s, e, held) {
      WordMissed(s, t, e, held);
    } else if !s.phase.Connecting? {
      SameUpToDate(s, t);
    }
  }

  lemma SameUpToDate(s: Sys, t: Sys)
    requires t.rows == s.rows && t.user == s.user && UpToDate(s, s.Arrived(), {}) && t.Arrived() == s.Arrived()
    ensures UpToDate(t, t.Arrived(), {})
  {
    hide ApplyAll;
    forall id | t.Owned(id) ensures t.Agrees(t.Arrived(), id) { assert s.Owned(id) && s.Agrees(s.Arrived(), id); }
  }

  lemma CalmPublish(s: Sys, k: nat, held: set<string>)
    requires Inv(s) && Calm(s, held) && Enabled(s, Publish(k)) && Undisturbed(s, Publish(k), held)
    ensures Calm(Published(s, k), held)
  {
    if Enqueues(s) {
      CalmOffer(s, k, held);
      OfferInv(s, k);
      hide Calm, UpToDate, Inv, ApplyAll;
      CalmSkip(Offered(s, k), k, held);
    } else {
      CalmSkip(s, k, held);
    }
  }

  lemma SameOwned(s: Sys, t: Sys)
    requires t.rows == s.rows && t.user == s.user
    ensures t.OwnedIds() == s.OwnedIds()
  {
  }

  lemma {:induction false} PageIds(page: seq<string>, ids: set<string>)
    requires forall i :: 0 <= i < |page| ==> page[i] in ids
    requires forall i, j :: 0 <= i < j < |page| ==> page[i] != page[j]
    requires |page| == |ids|
    ensures forall id :: id in ids ==> id in page
  {
    if page != [] {
      var front, id := page[..|page| - 1], page[|page| - 1];
      PageIds(front, ids - {id});
      assert page == front + [id];
    }
  }

  lemma FullPage(s: Sys, page: seq<string>)
    requires Enabled(s, CatchUp(page)) && |s.OwnedIds()| <= DEFAULT_LIMIT
    ensures forall id :: s.Owned(id) ==> id in page
  {
    forall i | 0 <= i < |page| ensures page[i] in s.OwnedIds() { assert s.Owned(page[i]); }
    PageIds(page, s.OwnedIds());
  }

  lemma PageArrives(s: Sys, t: Sys, page: seq<string>, held: set<string>)
    requires t.rows == s.rows && t.user == s.user && s.client.Keys == held
    requires (forall i :: 0 <= i < |page| ==> page[i] in s.rows && s.Owned(page[i])) && Refreshed(s, page, t.Arrived())
    requires forall id :: s.Owned(id) ==> id in page
    ensures UpToDate(t, t.Arrived(), {}) && t.Arrived().Keys <= t.OwnedIds() + held
  {
    hide ApplyAll;
    forall id | t.Owned(id) ensures t.Agrees(t.Arrived(), id) {
      assert s.Owned(id);
      var i :| 0 <= i < |page| && page[i] == id;
      assert s.Agrees(t.Arrived(), page[i]);
    }
    forall id | id in t.Arrived() ensures id in t.OwnedIds() + held {
      if id in page {
        var i :| 0 <= i < |page| && page[i] == id;
        assert s.Owned(page[i]);
      }
    }
  }

  lemma CalmCatchUp(s: Sys, page: seq<string>, held: set<string>)
    requires Inv(s) && Calm(s, held) && Enabled(s, CatchUp(page)) && Undisturbed(s, CatchUp(page), held)
    ensures Calm(Next(s, CatchUp(page)), held)
  {
    var t, es := Next(s, CatchUp(page)), Missing(s.rows, s.known, page);
    assert s.sent == [] && s.buffer == [] && t.sent + t.buffer == es;
    FullPage(s, page);
    MissingApplied(s, page);
    hide ApplyAll, Missing, ToView, Inv, Refreshed, UpToDate;
    PageArrives(s, t, page, held);
    forall i | 0 <= i < |t.pending| ensures Current(t, t.pending[i]) { assert Current(s, s.pending[i]); }
  }

  lemma CalmNext(s: Sys, st: Step, held: set<string>)
    requires Inv(s) && Calm(s, held) && Enabled(s, st) && Undisturbed(s, st, held)
    ensures Calm(Next(s, st), held)
  {
    match st
    case Write(op) =>
      if Succeeds(s.rows, op) && op.user == s.user { CalmOwnWrite(s, op, held); } else { CalmOtherWrite(s, op, held); }
    case Offer(k) => if Enqueues(s) { CalmOffer(s, k, held); }
    case Publish(k) => CalmPublish(s, k, held);
    case Skip(k) => CalmSkip(s, k, held);
    case CatchUp(page) => CalmCatchUp(s, page, held);
    case _ =>
      ArrivedStep(s, st);
      assert ApplyAll(s.Arrived(), []) == s.Arrived();
      hide ApplyAll;
      forall i | 0 <= i < |s.pending| ensures Current(Next(s, st), s.pending[i]) { assert Current(s, s.pending[i]); }
      CalmSame(s, Next(s, st), held);
  }

  lemma {:induction false} CalmExec(s: Sys, steps: seq<Step>)
    requires Start(s) && s.pending == [] && Exec(s, steps).Some? && UndisturbedRun(s, steps)
    ensures Calm(Exec(s, steps).value, s.client.Keys)
  {
    if steps != [] {
      var front := steps[..|steps| - 1];
      CalmExec(s, front);
      ExecInv(s, front);
      CalmNext(Exec(s, front).value, steps[|steps| - 1], s.client.Keys);
    }
  }

  lemma UserStep(s: Sys, st: Step)
    requires Enabled(s, st)
    ensures Next(s, st).user == s.user
  {
    hide After, EventOf, Succeeds, Missing, Apply, Sys.OwnedIds;
  }

  lemma {:induction false} SameUser(s: Sys, steps: seq<Step>)
    requires Exec(s, steps).Some?
    ensures Exec(s, steps).value.user == s.user
  {
    if steps != [] {
      hide Next, Enabled;
      SameUser(s, steps[..|steps| - 1]);
      UserStep(Exec(s, steps[..|steps| - 1]).value, steps[|steps| - 1]);
    }
  }

  /** A calm system that is past catch-up, everything on its way applied. */
  lemma CalmAgrees(t: Sys, held: set<string>)
    requires Calm(t, held) && !t.phase.Connecting?
    ensures var c := ApplyAll(t.client, t.sent + t.buffer + t.pending);
            && (forall id :: t.Owned(id) ==> t.Agrees(c, id))
            && c.Keys <= t.OwnedIds() + held
  {
    hide ApplyAll;
    ApplyConcat(t.client, t.sent + t.buffer, t.pending);
    if t.pending != [] {
      var e := t.pending[0];
      assert t.pending == [e] && PendingIds(t) == {e.id} && Current(t, e);
      ApplyOne(t.Arrived(), e);
    } else {
      assert PendingIds(t) == {};
      assert t.sent + t.buffer + t.pending == t.sent + t.buffer;
    }
  }

  /**
   * Replica agreement: in every undisturbed run, once the sent, buffered and pending events are applied the client
   * holds every stored item of its user with its content and version, and any other id it knew before connecting.
   */
  lemma ReplicaAgreement(s: Sys, steps: seq<Step>)
    requires Start(s) && s.pending == [] && Exec(s, steps).Some? && UndisturbedRun(s, steps)
    requires !Exec(s, steps).value.phase.Connecting?
    ensures var t := Exec(s, steps).value;
            var c := ApplyAll(t.client, t.sent + t.buffer + t.pending);
            && (forall id :: id in t.rows && t.rows[id].user == s.user ==>
                  && id in c && c[id].payload == t.rows[id].payload && c[id].metadata == t.rows[id].metadata
                  && c[id].version == t.rows[id].version)
            && (forall id :: id in c ==> (id in t.rows && t.rows[id].user == s.user) || id in s.client)
  {
    SameUser(s, steps);
    CalmExec(s, steps);
    hide ApplyAll, Exec, Calm, UndisturbedRun, Start;
    var t := Exec(s, steps).value;
    CalmAgrees(t, s.client.Keys);
    forall id | id in t.rows && t.rows[id].user == s.user
      ensures t.Agrees(ApplyAll(t.client, t.sent + t.buffer + t.pending), id)
    {
      assert t.Owned(id);
    }
  }

  /**
   * A notify call that began before the client registered may end after it and pass over the new channel: after
   * catch-up whatever is still to be published is missable.
   */
  lemma EarlyIsMissable(s: Sys, steps: seq<Step>)
    requires Start(s) && s.pending == [] && Exec(s, steps).Some? && UndisturbedRun(s, steps)
    requires Exec(s, steps).value.phase.CaughtUp?
    ensures var t := Exec(s, steps).value;
            forall i :: 0 <= i < |t.pending| ==> Missable(t, t.pending[i], s.client.Keys)
  {
    hide ApplyAll, Exec;
    CalmExec(s, steps);
    var t := Exec(s, steps).value;
    forall i | 0 <= i < |t.pending| ensures Missable(t, t.pending[i], s.client.Keys) {
      var e := t.pending[i];
      assert Current(t, e);
      assert e.Upsert? ==> t.Agrees(t.Arrived(), e.id);
      assert e.Removed? ==> e.id !in t.OwnedIds();
    }
  }

  ghost function CreatedIds(ops: seq<Op>): set<string> { set i | 0 <= i < |ops| && ops[i].Create? :: ops[i].id }

  /** A client of `user` that connects after the operations `ops`, announcing the versions it holds. */
  ghost function Connected(ops: seq<Op>, user: string, client: Copy): Sys {
    Sys(user, map id | id in client :: client[id].version, State(ops, |ops|), CreatedIds(ops), [], Connecting, [], [],
        client)
  }

  lemma OldContent(ops: seq<Op>, user: string, client: Copy, id: string, n: nat)
    requires FreshIds(ops) && n <= |ops| && id in State(ops, n)
    ensures Past(Connected(ops, user, client), id, ToView(State(ops, n)[id]))
  {
    LiveWasCreated(ops, n, id);
    if id in State(ops, |ops|) {
      VersionIdentity(ops, n, |ops|, id);
    }
  }

  /** A client whose entries are contents the vault once had satisfies the start condition, by version identity. */
  lemma StartFromHistory(ops: seq<Op>, user: string, client: Copy, seen: map<string, nat>)
    requires FreshIds(ops) && client.Keys <= seen.Keys
    requires forall id :: id in client ==>
      seen[id] <= |ops| && id in State(ops, seen[id]) && client[id] == ToView(State(ops, seen[id])[id])
    ensures Start(Connected(ops, user, client))
  {
    var s := Connected(ops, user, client);
    forall id | id in client ensures Past(s, id, client[id]) {
      OldContent(ops, user, client, id, seen[id]);
    }
    forall id | id in s.rows ensures id in s.used {
      OldContent(ops, user, client, id, |ops|);
    }
  }

  lemma {:induction false} DistinctSize(page: seq<string>)
    requires forall i, j :: 0 <= i < j < |page| ==> page[i] != page[j]
    ensures |set id | id in page| == |page|
  {
    if page != [] {
      var front, last := page[..|page| - 1], page[|page| - 1];
      DistinctSize(front);
      assert page == front + [last];
      assert (set id | id in page) == (set id | id in front) + {last};
    }
  }

  /** Of more than fifty items a new client is left without exactly as many as did not fit the page. */
  lemma TruncatedListing(s: Sys, page: seq<string>)
    requires Start(s) && s.client == map[] && Enabled(s, CatchUp(page)) && |s.OwnedIds()| > 50
    ensures var t := Next(s, CatchUp(page));
            |set id | id in s.OwnedIds() && id !in t.Arrived()| == |s.OwnedIds()| - 50
  {
    var t := Next(s, CatchUp(page));
    assert t.sent + t.buffer == Missing(s.rows, s.known, page);
    MissingApplied(s, page);
    DistinctSize(page);
    var ids := set id | id in page;
    forall id | id in ids ensures id in s.OwnedIds() && id in t.Arrived() {
      var i :| 0 <= i < |page| && page[i] == id;
      assert s.Owned(page[i]) && s.Agrees(t.Arrived(), page[i]);
    }
    assert (set id | id in s.OwnedIds() && id !in t.Arrived()) == s.OwnedIds() - ids;
  }

  // Each disturbance really loses something: one run each, ending with nothing left to publish.

  function Fresh(user: string): Sys { Sys(user, map[], map[], {}, [], Connecting, [], [], map[]) }

  lemma ExecSnoc(s: Sys, steps: seq<Step>, st: Step)
    requires Exec(s, steps).Some? && Enabled(Exec(s, steps).value, st)
    ensures Exec(s, steps + [st]) == Some(Next(Exec(s, steps).value, st))
  {
    assert (steps + [st])[..|steps|] == steps;
  }

  lemma CatchUpNothing(user: string)
    ensures Exec(Fresh(user), [CatchUp([])]) == Some(Fresh(user).(phase := CaughtUp))
  {
    var s := Fresh(user);
    assert s.OwnedIds() == {} && s.sent + Missing(s.rows, s.known, []) == [];
    ExecSnoc(s, [], CatchUp([]));
    assert [] + [CatchUp([])] == [CatchUp([])];
  }

  /** A write published between catch-up and registration never reaches the client. */
  lemma LostInGap(user: string, id: string, payload: Bytes, metadata: string) returns (steps: seq<Step>, t: Sys)
    ensures Start(Fresh(user)) && Exec(Fresh(user), steps) == Some(t)
    ensures t.phase.Live? && t.pending == [] == t.sent && t.buffer == [] && t.Owned(id) && id !in t.client
  {
    hide Exec;
    var s, op := Fresh(user), Create(id, user, "text", payload, metadata);
    CatchUpNothing(user);
    steps := [CatchUp([])];
    ExecSnoc(s, steps, Write(op));
    steps := steps + [Write(op)];
    ExecSnoc(s, steps, Publish(0));
    steps := steps + [Publish(0)];
    ExecSnoc(s, steps, Register);
    steps := steps + [Register];
    t := Exec(s, steps).value;
  }

  /** The notify call passes over the client's channel: nothing is left to publish and the client lacks the item. */
  lemma PassedOver(user: string, id: string, payload: Bytes, metadata: string) returns (steps: seq<Step>, t: Sys)
    ensures Start(Fresh(user)) && Exec(Fresh(user), steps) == Some(t)
    ensures t.phase.Live? && t.pending == [] && t.Owned(id) && id !in t.Arrived()
  {
    hide Exec;
    var s, op := Fresh(user), Create(id, user, "text", payload, metadata);
    steps := Registered(user);
    ExecSnoc(s, steps, Write(op));
    steps := steps + [Write(op)];
    ExecSnoc(s, steps, Skip(0));
    steps := steps + [Skip(0)];
    t := Exec(s, steps).value;
    assert t.sent + t.buffer == [];
  }

  lemma Registered(user: string) returns (steps: seq<Step>)
    ensures Exec(Fresh(user), steps) == Some(Fresh(user).(phase := Live))
  {
    hide Exec;
    CatchUpNothing(user);
    steps := [CatchUp([])];
    ExecSnoc(Fresh(user), steps, Register);
    steps := steps + [Register];
  }

  /** One item with content `view`, and the two events that are under way. */
  function Pair(user: string, id: string, rows: Rows, pending: seq<Event>, buffer: seq<Event>): Sys {
    Fresh(user).(phase := Live, rows := rows, used := {id}, pending := pending, buffer := buffer)
  }

  /** A creation and a second write of the same item, neither published yet. */
  lemma TwoWrites(user: string, id: string, payload: Bytes, metadata: string, op: Op) returns (steps: seq<Step>)
    requires op == Update(id, user, payload, metadata) || op == Delete(id, user)
    ensures var item := Item(user, "text", payload, metadata, 1);
            var rows := map[id := item];
            Exec(Fresh(user), steps) ==
            Some(Pair(user, id, After(rows, op), [Upsert(id, ToView(item)), EventOf(rows, op)], []))
  {
    hide Exec;
    var s, item := Fresh(user), Item(user, "text", payload, metadata, 1);
    var rows, e := map[id := item], Upsert(id, ToView(item));
    steps := Registered(user);
    var create := Write(Create(id, user, "text", payload, metadata));
    assert Written(s.(phase := Live), create.op) == Pair(user, id, rows, [e], []);
    ExecSnoc(s, steps, create);
    steps := steps + [create];
    assert Written(Pair(user, id, rows, [e], []), op) == Pair(user, id, After(rows, op), [e, EventOf(rows, op)], []);
    ExecSnoc(s, steps, Write(op));
    steps := steps + [Write(op)];
  }

  /** The two writes published in the other order. */
  lemma Overtake(user: string, id: string, payload: Bytes, metadata: string, op: Op) returns (steps: seq<Step>, t: Sys)
    requires op == Update(id, user, payload, metadata) || op == Delete(id, user)
    ensures var item := Item(user, "text", payload, metadata, 1);
            var rows := map[id := item];
            && Exec(Fresh(user), steps) == Some(t)
            && t == Pair(user, id, After(rows, op), [], [EventOf(rows, op), Upsert(id, ToView(item))])
  {
    hide Exec, After, EventOf;
    var s, item := Fresh(user), Item(user, "text", payload, metadata, 1);
    var rows, e := map[id := item], Upsert(id, ToView(item));
    steps := TwoWrites(user, id, payload, metadata, op);
    assert [e, EventOf(rows, op)][..1] + [e, EventOf(rows, op)][2..] == [e];
    assert Published(Pair(user, id, After(rows, op), [e, EventOf(rows, op)], []), 1) ==
           Pair(user, id, After(rows, op), [e], [EventOf(rows, op)]);
    ExecSnoc(s, steps, Publish(1));
    steps := steps + [Publish(1)];
    ExecSnoc(s, steps, Publish(0));
    steps := steps + [Publish(0)];
    t := Exec(s, steps).value;
    assert [e][..0] + [e][1..] == [];
  }

  lemma TwoApplied(c: Copy, a: Event, b: Event)
    ensures ApplyAll(c, [] + [a, b]) == Apply(Apply(c, a), b)
  {
    assert [] + [a, b] == [a] + [b];
    ApplyConcat(c, [a], [b]);
    ApplyOne(c, a);
    ApplyOne(Apply(c, a), b);
  }

  /** An update whose notification is overtaken leaves the client on the older version. */
  lemma OvertakenUpdate(user: string, id: string, payload: Bytes, metadata: string) returns (steps: seq<Step>, t: Sys)
    ensures Start(Fresh(user)) && Exec(Fresh(user), steps) == Some(t)
    ensures t.phase.Live? && t.pending == [] && t.Owned(id) && !t.Agrees(t.Arrived(), id)
  {
    steps, t := Overtake(user, id, payload, metadata, Update(id, user, payload, metadata));
    hide Exec;
    TwoApplied(map[], t.buffer[0], t.buffer[1]);
  }

  /** A removal overtaken by the upsert before it leaves the client with an item that no longer exists. */
  lemma OvertakenRemoval(user: string, id: string, payload: Bytes, metadata: string) returns (steps: seq<Step>, t: Sys)
    ensures Start(Fresh(user)) && Exec(Fresh(user), steps) == Some(t)
    ensures t.phase.Live? && t.pending == [] && id !in t.rows && id in t.Arrived()
  {
    steps, t := Overtake(user, id, payload, metadata, Delete(id, user));
    hide Exec;
    TwoApplied(map[], t.buffer[0], t.buffer[1]);
  }

  /** An item deleted while the client was away stays in its copy. */
  lemma StaleAfterAbsence(s: Sys, page: seq<string>, id: string)
    requires Start(s) && id in s.client && id !in s.rows && Enabled(s, CatchUp(page))
    ensures id in Next(s, CatchUp(page)).Arrived()
  {
    MissingApplied(s, page);
    assert Next(s, CatchUp(page)).sent + Next(s, CatchUp(page)).buffer == Missing(s.rows, s.known, page);
    assert forall i :: 0 <= i < |page| ==> page[i] != id by { assert forall i :: 0 <= i < |page| ==> s.Owned(page[i]); }
  }

  /** `n` published versions of one item that nobody has forwarded. */
  function Version(user: string, payload: Bytes, metadata: string, n: nat): Item {
    Item(user, "text", payload, metadata, n)
  }

  function Events(user: string, id: string, payload: Bytes, metadata: string, n: nat): seq<Event> {
    seq(n, i requires 0 <= i < n => Upsert(id, ToView(Version(user, payload, metadata, i + 1))))
  }

  lemma {:induction false} Flood(user: string, id: string, payload: Bytes, metadata: string, n: nat)
    returns (steps: seq<Step>)
    requires 1 <= n <= 33
    ensures Exec(Fresh(user), steps) ==
            Some(Pair(user, id, map[id := Version(user, payload, metadata, n)], [],
                      Events(user, id, payload, metadata, if n <= Hub.CAPACITY then n else Hub.CAPACITY)))
  {
    hide Exec;
    var s := Fresh(user);
    var buffer := Events(user, id, payload, metadata, n - 1);
    var op: Op;
    if n == 1 {
      steps := Registered(user);
      op := Create(id, user, "text", payload, metadata);
      var v := Version(user, payload, metadata, 1);
      assert Written(s.(phase := Live), op) == Pair(user, id, map[id := v], [Upsert(id, ToView(v))], buffer);
    } else {
      steps := Flood(user, id, payload, metadata, n - 1);
      op := Update(id, user, payload, metadata);
      FloodWrite(user, id, payload, metadata, n);
    }
    ExecSnoc(s, steps, Write(op));
    steps := steps + [Write(op)];
    FloodPublish(user, id, payload, metadata, n);
    ExecSnoc(s, steps, Publish(0));
    steps := steps + [Publish(0)];
  }

  lemma FloodWrite(user: string, id: string, payload: Bytes, metadata: string, n: nat)
    requires n >= 2
    ensures var buffer := Events(user, id, payload, metadata, n - 1);
            var v := Version(user, payload, metadata, n);
            Written(Pair(user, id, map[id := Version(user, payload, metadata, n - 1)], [], buffer),
                    Update(id, user, payload, metadata))
            == Pair(user, id, map[id := v], [Upsert(id, ToView(v))], buffer)
  {
    var buffer := Events(user, id, payload, metadata, n - 1);
    var p := Pair(user, id, map[id := Version(user, payload, metadata, n - 1)], [], buffer);
    assert After(p.rows, Update(id, user, payload, metadata)) == map[id := Version(user, payload, metadata, n)];
    assert p.used + {id} == p.used;
  }

  lemma FloodPublish(user: string, id: string, payload: Bytes, metadata: string, n: nat)
    requires 1 <= n <= 33
    ensures var v := Version(user, payload, metadata, n);
            Published(Pair(user, id, map[id := v], [Upsert(id, ToView(v))],
                           Events(user, id, payload, metadata, n - 1)), 0)
            == Pair(user, id, map[id := v], [],
                    Events(user, id, payload, metadata, if n <= Hub.CAPACITY then n else Hub.CAPACITY))
  {
    var v := Version(user, payload, metadata, n);
    var e := Upsert(id, ToView(v));
    assert [e][..0] + [e][1..] == [];
    assert Events(user, id, payload, metadata, n) == Events(user, id, payload, metadata, n - 1) + [e];
  }

  /**
   * The publication that meets a full buffer is lost: with nothing left to publish the client stays one version
   * behind.
   */
  lemma DroppedWhenFull(user: string, id: string, payload: Bytes, metadata: string) returns (steps: seq<Step>, t: Sys)
    ensures Start(Fresh(user)) && Exec(Fresh(user), steps) == Some(t)
    ensures t.phase.Live? && t.pending == [] && t.Owned(id) && t.rows[id].version == 33
    ensures id in t.Arrived() && t.Arrived()[id].version == 32
  {
    steps := Flood(user, id, payload, metadata, 33);
    t := Exec(Fresh(user), steps).value;
    hide Exec;
    var es := Events(user, id, payload, metadata, 32);
    assert t.sent + t.buffer == es;
    ApplyAllHeld(t.client, es, id);
    assert es[31].id == id;
  }
}
