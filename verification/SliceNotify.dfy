/**
 * Fine-grained notify: the subscriber lists are slices over shared backing arrays. Notify copies the slice header
 * under the lock; without it, it then loads one channel after the other from the array and sends on each, so other
 * operations run between any two of these steps. Cancel shifts the list inside its array and then closes the channel;
 * loads that race with the shift may still see the old words. A send on a closed channel, or a second close, panics.
 */
module SliceNotify {
  import opened Results
  import opened Sequences

  /** A slice that starts at element 0 of array number `arr`. */
  datatype Slice = Slice(arr: nat, len: nat)

  /** A notify call: its snapshot, the position of the next load, the channel loaded and not sent on, its offers. */
  datatype Call = Call(user: string, snap: Slice, next: nat, held: Option<nat>, offered: seq<nat>) {
    predicate Unfinished() { held.Some? || next < snap.len }
  }

  /** A cancel that holds the lock and has yet to close `ch`; `was` is what the arrays held before it. */
  datatype Removal = Removal(ch: nat, was: seq<seq<nat>>)

  /** The length of an array is its capacity. Channels are numbered in creation order; `owners` gives their users. */
  datatype Mem = Mem(arrays: seq<seq<nat>>, subs: map<string, Slice>, calls: seq<Call>, owners: seq<string>,
                     closed: set<nat>, removing: Option<Removal>) {
    /** The channels of a slice; the nil slice has length 0. */
    function Elements(sl: Slice): (s: seq<nat>)
      requires SliceOk(sl)
      ensures |s| == sl.len
    {
      if sl.len == 0 then [] else arrays[sl.arr][..sl.len]
    }

    predicate SliceOk(sl: Slice) { sl.len > 0 ==> sl.arr < |arrays| && sl.len <= |arrays[sl.arr]| }

    function Header(u: string): Slice { if u in subs then subs[u] else Slice(0, 0) }

    /** Lists lie inside their arrays, and no two users share an array. */
    ghost predicate ArraysOk() {
      && (forall u :: u in subs ==> subs[u].arr < |arrays| && subs[u].len <= |arrays[subs[u].arr]|)
      && (forall u, v :: u in subs && v in subs && u != v ==> subs[u].arr != subs[v].arr)
    }

    function List(u: string): seq<nat>
      requires ArraysOk()
    {
      Elements(Header(u))
    }

    /** The channel is one of `u`'s and has not been closed. */
    ghost predicate Open(u: string, ch: nat) { ch < |owners| && owners[ch] == u && ch !in closed }

    /** And no cancel is about to close it. */
    ghost predicate Active(u: string, ch: nat) { Open(u, ch) && !(removing.Some? && removing.value.ch == ch) }

    /** Exactly the active channels of `u` are listed for `u`, each once. */
    ghost predicate ListOk(u: string)
      requires ArraysOk()
    {
      Distinct(List(u)) && forall ch :: ch in List(u) <==> Active(u, ch)
    }

    predicate CallShape(c: nat)
      requires c < |calls|
    {
      SliceOk(calls[c].snap) && calls[c].next <= calls[c].snap.len
    }

    /** A call's snapshot lies inside its array, which belongs to no other user. */
    ghost predicate CallOk(c: nat)
      requires c < |calls|
    {
      CallShape(c) &&
      (calls[c].snap.len > 0 ==> forall u :: u in subs && subs[u].arr == calls[c].snap.arr ==> u == calls[c].user)
    }

    /** The call reads the array in which the list of `u` lies. */
    predicate OnList(c: nat, u: string)
      requires c < |calls|
    {
      calls[c].snap.len > 0 && u in subs && subs[u].arr == calls[c].snap.arr
    }

    /** A removal has changed no array but its user's. */
    ghost predicate RemovalOk() {
      removing.Some? ==>
        var r := removing.value;
        && r.ch < |owners| && |r.was| == |arrays|
        && (forall k :: 0 <= k < |arrays| ==> |r.was[k]| == |arrays[k]|)
        && (forall k :: 0 <= k < |arrays| && r.was[k] != arrays[k] ==>
              owners[r.ch] in subs && subs[owners[r.ch]].arr == k)
    }

    ghost predicate Valid() {
      && ArraysOk() && RemovalOk() && (forall ch :: ch in closed ==> ch < |owners|)
      && (forall u :: ListOk(u))
      && (forall c: nat :: c < |calls| ==> CallOk(c))
    }

    /** The channels a call has yet to load. */
    function Unread(c: nat): (s: seq<nat>)
      requires c < |calls| && CallShape(c)
      ensures |s| == calls[c].snap.len - calls[c].next
    {
      Elements(calls[c].snap)[calls[c].next..]
    }

    /** The channels a call has yet to send on: the one it holds, and those to load. */
    function Ahead(c: nat): seq<nat>
      requires c < |calls| && CallShape(c)
    {
      (if calls[c].held.Some? then [calls[c].held.value] else []) + Unread(c)
    }

    /** One of them is closed. */
    ghost predicate ClosedAhead(c: nat)
      requires c < |calls| && CallShape(c)
    {
      exists ch :: ch in Ahead(c) && ch in closed
    }

    /** Everybody the call has offered to and will offer to if its array is left alone. */
    function Plan(c: nat): seq<nat>
      requires c < |calls| && CallShape(c)
    {
      calls[c].offered + Ahead(c)
    }
  }

  /** Cancel is the search and the removal under the lock, Close ends it; a `stale` load sees the old word. */
  datatype Step =
    | Subscribe(user: string, spare: nat)
    | Cancel(user: string, ch: nat)
    | Close
    | Begin(user: string)
    | Load(call: nat, stale: bool)
    | Send(call: nat)

  /** Subscribe, Cancel and Begin wait for the lock, which a cancel gives back after closing its channel. */
  predicate Enabled(m: Mem, st: Step) {
    match st
    case Subscribe(_, _) => m.removing.None?
    case Cancel(u, ch) => m.removing.None? && ch < |m.owners| && m.owners[ch] == u
    case Close => m.removing.Some?
    case Begin(_) => m.removing.None?
    case Load(c, stale) =>
      c < |m.calls| && m.calls[c].held.None? && m.calls[c].next < m.calls[c].snap.len && (stale ==> m.removing.Some?)
    case Send(c) => c < |m.calls| && m.calls[c].held.Some?
  }

  /** append: in place while capacity lasts, otherwise into a new array with `spare` extra slots. */
  function Appended(m: Mem, u: string, spare: nat): Mem
    requires m.ArraysOk()
  {
    var ch, sl := |m.owners|, m.Header(u);
    var t := m.(owners := m.owners + [u]);
    if u in m.subs && sl.len < |m.arrays[sl.arr]| then
      var grown: seq<nat> := m.arrays[sl.arr][sl.len := ch];
      t.(arrays := m.arrays[sl.arr := grown], subs := m.subs[u := Slice(sl.arr, sl.len + 1)])
    else
      var grown: seq<nat> := m.List(u) + [ch] + seq(spare, _ => 0);
      t.(arrays := m.arrays + [grown], subs := m.subs[u := Slice(|m.arrays|, sl.len + 1)])
  }

  /** append(subs[:i], subs[i+1:]...): shifts the tail down inside the same array. */
  function Shifted(a: seq<nat>, len: nat, i: nat): (r: seq<nat>)
    requires i < len <= |a|
    ensures |r| == |a|
  {
    a[..i] + a[i + 1..len] + a[len - 1..]
  }

  /** The list of `u` without position `i`. */
  function Removed(m: Mem, u: string, i: nat): Mem
    requires m.ArraysOk() && u in m.subs && i < m.subs[u].len
  {
    var sl := m.subs[u];
    m.(arrays := m.arrays[sl.arr := Shifted(m.arrays[sl.arr], sl.len, i)],
       subs := m.subs[u := Slice(sl.arr, sl.len - 1)])
  }

  /** First position of `ch`, or the length of the list. */
  function Position(s: seq<nat>, ch: nat): (i: nat)
    ensures i <= |s| && (i < |s| ==> s[i] == ch) && (i == |s| ==> ch !in s)
  {
    if s == [] || s[0] == ch then 0 else 1 + Position(s[1..], ch)
  }

  /** The cleanup function of `ch` up to its close: the channel is removed from its user's list if it is there. */
  function Cancelled(m: Mem, ch: nat): Mem
    requires m.ArraysOk() && ch < |m.owners|
  {
    var u := m.owners[ch];
    var i := Position(m.List(u), ch);
    var t := if i < |m.List(u)| then Removed(m, u, i) else m;
    t.(removing := Some(Removal(ch, m.arrays)))
  }

  datatype Outcome = Alive(m: Mem) | Panic

  function Closed(m: Mem): Outcome
    requires m.removing.Some?
  {
    var ch := m.removing.value.ch;
    if ch in m.closed then Panic else Alive(m.(closed := m.closed + {ch}, removing := None))
  }

  function Begun(m: Mem, u: string): Mem { m.(calls := m.calls + [Call(u, m.Header(u), 0, None, [])]) }

  /** The word a load finds, which is the old one if the load is stale. */
  function Word(m: Mem, c: nat, stale: bool): nat
    requires Enabled(m, Load(c, stale)) && m.CallShape(c) && m.RemovalOk()
  {
    (if stale then m.removing.value.was else m.arrays)[m.calls[c].snap.arr][m.calls[c].next]
  }

  function Loaded(m: Mem, c: nat, stale: bool): Mem
    requires Enabled(m, Load(c, stale)) && m.CallShape(c) && m.RemovalOk()
  {
    m.(calls := m.calls[c := m.calls[c].(next := m.calls[c].next + 1, held := Some(Word(m, c, stale)))])
  }

  function Sent(m: Mem, c: nat): Outcome
    requires Enabled(m, Send(c))
  {
    var call := m.calls[c];
    var ch := call.held.value;
    if ch in m.closed then Panic
    else Alive(m.(calls := m.calls[c := call.(held := None, offered := call.offered + [ch])]))
  }

  function Next(m: Mem, st: Step): Outcome
    requires m.Valid() && Enabled(m, st)
  {
    match st
    case Subscribe(u, spare) => Alive(Appended(m, u, spare))
    case Cancel(_, ch) => Alive(Cancelled(m, ch))
    case Close => Closed(m)
    case Begin(u) => Alive(Begun(m, u))
    case Load(c, stale) => assert m.CallOk(c); Alive(Loaded(m, c, stale))
    case Send(c) => Sent(m, c)
  }

  // Every step keeps the memory valid.

  lemma AppendedArrays(m: Mem, u: string, spare: nat)
    requires m.ArraysOk()
    ensures Appended(m, u, spare).ArraysOk()
  {
  }

  /** An append adds the new channel to its user's list and touches no other list. */
  lemma AppendedLists(m: Mem, u: string, spare: nat, v: string)
    requires m.ArraysOk() && Appended(m, u, spare).ArraysOk()
    ensures Appended(m, u, spare).List(v) == if v == u then m.List(u) + [|m.owners|] else m.List(v)
  {
  }

  lemma AppendedListOk(m: Mem, t: Mem, u: string, v: string)
    requires m.Valid() && m.removing.None? && t.ArraysOk()
    requires t.owners == m.owners + [u] && t.closed == m.closed && t.removing == m.removing
    requires t.List(v) == if v == u then m.List(u) + [|m.owners|] else m.List(v)
    ensures t.ListOk(v)
  {
    assert m.ListOk(v);
    var ch := |m.owners|;
    assert ch !in m.closed && !m.Active(v, ch) && ch !in m.List(v);
    assert forall x :: x in m.closed ==> x < |m.owners|;
    hide Mem.Valid, Mem.ArraysOk, Mem.List;
    forall x ensures x in t.List(v) <==> t.Active(v, x) {
      assert x in m.List(v) <==> m.Active(v, x);
    }
  }

  lemma AppendedValid(m: Mem, u: string, spare: nat)
    requires m.Valid() && m.removing.None?
    ensures Appended(m, u, spare).Valid()
  {
    var t := Appended(m, u, spare);
    AppendedArrays(m, u, spare);
    forall v ensures t.ListOk(v) {
      AppendedLists(m, u, spare, v);
      AppendedListOk(m, t, u, v);
    }
    forall c: nat | c < |t.calls| ensures t.CallOk(c) { assert m.CallOk(c); }
  }

  lemma RemovedLists(m: Mem, u: string, i: nat)
    requires m.ArraysOk() && u in m.subs && i < m.subs[u].len
    ensures Removed(m, u, i).ArraysOk()
    ensures forall v :: Removed(m, u, i).List(v) == if v == u then m.List(u)[..i] + m.List(u)[i + 1..] else m.List(v)
  {
    var t, sl := Removed(m, u, i), m.subs[u];
    var a := m.arrays[sl.arr];
    assert Shifted(a, sl.len, i)[..sl.len - 1] == a[..sl.len][..i] + a[..sl.len][i + 1..];
  }

  lemma WithoutPosition(s: seq<nat>, i: nat)
    requires Distinct(s) && i < |s|
    ensures var r := s[..i] + s[i + 1..]; Distinct(r) && forall x :: x in r <==> x in s && x != s[i]
  {
    var r := s[..i] + s[i + 1..];
    forall j | 0 <= j < |s| && j != i ensures s[j] in r {
      assert r[if j < i then j else j - 1] == s[j];
    }
  }

  lemma CancelledListOk(m: Mem, t: Mem, u: string, i: nat, v: string)
    requires m.Valid() && m.removing.None? && t.ArraysOk() && i < |m.List(u)|
    requires t.owners == m.owners && t.closed == m.closed && t.removing.Some? && t.removing.value.ch == m.List(u)[i]
    requires t.List(v) == if v == u then m.List(u)[..i] + m.List(u)[i + 1..] else m.List(v)
    ensures t.ListOk(v)
  {
    assert m.ListOk(u) && m.ListOk(v) && m.Active(u, m.List(u)[i]);
    WithoutPosition(m.List(u), i);
    hide Mem.List;
    forall x ensures x in t.List(v) <==> t.Active(v, x) {
      assert x in m.List(v) <==> m.Active(v, x);
    }
  }

  /** An active channel is found in its user's list. */
  lemma Found(m: Mem, ch: nat)
    requires m.Valid() && m.removing.None? && ch < |m.owners|
    ensures var u := m.owners[ch];
            if ch in m.closed then Position(m.List(u), ch) == |m.List(u)|
            else u in m.subs && Position(m.List(u), ch) < |m.List(u)| == m.subs[u].len
  {
    var u := m.owners[ch];
    assert m.ListOk(u) && (m.Active(u, ch) <==> ch !in m.closed);
  }

  /** Cancelling again removes nothing. */
  lemma CancelledAgain(m: Mem, ch: nat)
    requires m.Valid() && m.removing.None? && ch < |m.owners| && ch in m.closed
    ensures Cancelled(m, ch).ArraysOk() && forall v :: Cancelled(m, ch).ListOk(v)
  {
    Found(m, ch);
    var t := Cancelled(m, ch);
    forall v ensures t.ListOk(v) { assert m.ListOk(v) && t.List(v) == m.List(v); }
  }

  lemma CancelledLists(m: Mem, ch: nat)
    requires m.Valid() && m.removing.None? && ch < |m.owners| && ch !in m.closed
    ensures Cancelled(m, ch).ArraysOk() && forall v :: Cancelled(m, ch).ListOk(v)
  {
    Found(m, ch);
    var u, t := m.owners[ch], Cancelled(m, ch);
    var i := Position(m.List(u), ch);
    var r := Removed(m, u, i);
    RemovedLists(m, u, i);
    assert t.arrays == r.arrays && t.subs == r.subs;
    assert t.ArraysOk() && t.removing == Some(Removal(m.List(u)[i], m.arrays));
    hide Cancelled, Removed, Position, Mem.Valid, Mem.ArraysOk, Mem.ListOk;
    forall v ensures t.ListOk(v) {
      assert t.List(v) == r.List(v);
      CancelledListOk(m, t, u, i, v);
    }
  }

  lemma CancelledCalls(m: Mem, ch: nat)
    requires m.Valid() && ch < |m.owners|
    ensures var t := Cancelled(m, ch);
            t.RemovalOk() && t.calls == m.calls && forall c: nat :: c < |t.calls| ==> t.CallOk(c)
  {
    var t := Cancelled(m, ch);
    forall c: nat | c < |t.calls| ensures t.CallOk(c) { assert m.CallOk(c); }
  }

  lemma CancelledValid(m: Mem, ch: nat)
    requires m.Valid() && m.removing.None? && ch < |m.owners|
    ensures Cancelled(m, ch).Valid()
  {
    if ch in m.closed {
      CancelledAgain(m, ch);
    } else {
      CancelledLists(m, ch);
    }
    CancelledCalls(m, ch);
  }

  lemma ClosedValid(m: Mem)
    requires m.Valid() && m.removing.Some? && Closed(m).Alive?
    ensures Closed(m).m.Valid()
  {
    var t := Closed(m).m;
    forall v ensures t.ListOk(v) {
      assert m.ListOk(v) && t.List(v) == m.List(v);
      assert forall x :: t.Active(v, x) <==> m.Active(v, x);
    }
    forall c: nat | c < |t.calls| ensures t.CallOk(c) { assert m.CallOk(c); }
  }

  /** A change to calls alone, each of them well formed, keeps the memory valid. */
  lemma CallsValid(m: Mem, t: Mem)
    requires m.Valid() && t == m.(calls := t.calls)
    requires forall c: nat :: c < |t.calls| ==> t.CallOk(c)
    ensures t.Valid()
  {
    forall v ensures t.ListOk(v) {
      assert m.ListOk(v) && t.List(v) == m.List(v);
      assert forall x :: t.Active(v, x) <==> m.Active(v, x);
    }
  }

  lemma NextValid(m: Mem, st: Step)
    requires m.Valid() && Enabled(m, st) && Next(m, st).Alive?
    ensures Next(m, st).m.Valid()
  {
    match st
    case Subscribe(u, spare) => AppendedValid(m, u, spare);
    case Cancel(_, ch) => CancelledValid(m, ch);
    case Close => ClosedValid(m);
    case _ =>
      var t := Next(m, st).m;
      forall c: nat | c < |t.calls| ensures t.CallOk(c) { assert c < |m.calls| ==> m.CallOk(c); }
      CallsValid(m, t);
  }

  // Runs.

  datatype Run = Going(m: Mem) | Dead | Stuck

  /** Runs the steps from `m`: Dead after a panic, Stuck if a step was not enabled. */
  ghost function Exec(m: Mem, steps: seq<Step>): (r: Run)
    requires m.Valid()
    ensures r.Going? ==> r.m.Valid()
  {
    if steps == [] then Going(m) else
      var n := |steps| - 1;
      match Exec(m, steps[..n])
      case Going(p) =>
        if !Enabled(p, steps[n]) then Stuck
        else if Next(p, steps[n]).Panic? then Dead
        else NextValid(p, steps[n]); Going(Next(p, steps[n]).m)
      case other => other
  }

  lemma ExecMore(m: Mem, steps: seq<Step>, st: Step)
    requires m.Valid()
    ensures Exec(m, steps + [st]) ==
            match Exec(m, steps)
            case Going(p) =>
              if !Enabled(p, st) then Stuck else if Next(p, st).Panic? then Dead else Going(Next(p, st).m)
            case other => other
  {
    assert (steps + [st])[..|steps|] == steps;
  }

  lemma ExecNone(m: Mem)
    requires m.Valid()
    ensures Exec(m, []) == Going(m)
  {
  }

  lemma ExecOne(m: Mem, st: Step)
    requires m.Valid()
    ensures Exec(m, [st]) ==
            if !Enabled(m, st) then Stuck else if Next(m, st).Panic? then Dead else Going(Next(m, st).m)
  {
    assert [st][..0] == [];
  }

  lemma {:induction false} ExecConcat(m: Mem, a: seq<Step>, b: seq<Step>)
    requires m.Valid()
    ensures Exec(m, a + b) == match Exec(m, a) case Going(p) => Exec(p, b) case other => other
  {
    if b == [] {
      assert a + b == a;
    } else {
      var n := |b| - 1;
      ExecConcat(m, a, b[..n]);
      assert a + b == (a + b[..n]) + [b[n]];
      ExecMore(m, a + b[..n], b[n]);
      assert b == b[..n] + [b[n]];
    }
  }

  // One call.

  /** The user's list still covers the snapshot, so appends go past it or into another array. */
  ghost predicate Steady(m: Mem, c: nat)
    requires c < |m.calls|
  {
    m.OnList(c, m.calls[c].user) ==> m.subs[m.calls[c].user].len >= m.calls[c].snap.len
  }

  /** No cancel of the call's user is at work. */
  ghost predicate Quiet(m: Mem, c: nat)
    requires c < |m.calls|
  {
    m.removing.Some? && m.removing.value.ch < |m.owners| ==> m.owners[m.removing.value.ch] != m.calls[c].user
  }

  /** The step leaves the list of the call's user alone, or appends to it past the snapshot. */
  ghost predicate Apart(m: Mem, st: Step, c: nat)
    requires c < |m.calls|
  {
    && Quiet(m, c) && !(st.Cancel? && st.user == m.calls[c].user)
    && (Steady(m, c) || !(st.Subscribe? && st.user == m.calls[c].user))
  }

  /** A step changes a call only by the call's own loads and sends. */
  lemma CallStep(m: Mem, st: Step, c: nat)
    requires m.Valid() && Enabled(m, st) && Next(m, st).Alive? && c < |m.calls|
    ensures var t, call := Next(m, st).m, m.calls[c];
            && m.CallOk(c) && t.Valid() && c < |t.calls| && t.CallOk(c)
            && t.calls[c] ==
               if st.Load? && st.call == c then call.(next := call.next + 1, held := Some(Word(m, c, st.stale)))
               else if st == Send(c) then call.(held := None, offered := call.offered + [call.held.value])
               else call
  {
    NextValid(m, st);
    assert m.CallOk(c) && Next(m, st).m.CallOk(c);
  }

  /** The snapshot's words are untouched by a step apart from it. */
  lemma ElementsKept(m: Mem, st: Step, c: nat)
    requires m.Valid() && Enabled(m, st) && Next(m, st).Alive? && c < |m.calls| && Apart(m, st, c)
    ensures var t := Next(m, st).m;
            && m.CallShape(c) && t.SliceOk(m.calls[c].snap)
            && t.Elements(m.calls[c].snap) == m.Elements(m.calls[c].snap)
  {
    assert m.CallOk(c);
    var t, snap := Next(m, st).m, m.calls[c].snap;
    if st.Subscribe? {
      assert snap.len > 0 ==> t.arrays[snap.arr][..snap.len] == m.arrays[snap.arr][..snap.len];
    } else if st.Cancel? {
      assert snap.len > 0 ==> t.arrays[snap.arr] == m.arrays[snap.arr];
    }
  }

  /** So a load of it finds the word that is there now. */
  lemma WordKept(m: Mem, c: nat, stale: bool)
    requires m.Valid() && Enabled(m, Load(c, stale)) && Quiet(m, c)
    ensures m.CallOk(c) && Word(m, c, stale) == m.Unread(c)[0]
  {
    assert m.CallOk(c);
  }

  /** A list that no cancel shortens stays in its array or moves to a new one. */
  lemma HeaderKept(m: Mem, st: Step, u: string)
    requires m.Valid() && Enabled(m, st) && Next(m, st).Alive? && !(st.Cancel? && st.user == u)
    ensures var t := Next(m, st).m;
            && (!st.Subscribe? || st.user != u ==> (u in t.subs <==> u in m.subs) && t.Header(u) == m.Header(u))
            && (st.Subscribe? && st.user == u ==>
                  t.Header(u) == Slice(|m.arrays|, m.Header(u).len + 1) ||
                  (u in m.subs && t.Header(u) == Slice(m.subs[u].arr, m.Header(u).len + 1)))
  {
  }

  lemma QuietKept(m: Mem, st: Step, c: nat)
    requires m.Valid() && Enabled(m, st) && Next(m, st).Alive? && c < |m.calls| && Quiet(m, c)
    requires !(st.Cancel? && st.user == m.calls[c].user)
    ensures c < |Next(m, st).m.calls| && Quiet(Next(m, st).m, c)
  {
    CallStep(m, st, c);
    hide Appended;
  }

  lemma SteadyKept(m: Mem, st: Step, c: nat)
    requires m.Valid() && Enabled(m, st) && Next(m, st).Alive? && c < |m.calls| && Apart(m, st, c)
    ensures var t := Next(m, st).m; c < |t.calls| && Quiet(t, c) && (Steady(m, c) ==> Steady(t, c))
  {
    CallStep(m, st, c);
    QuietKept(m, st, c);
    HeaderKept(m, st, m.calls[c].user);
    hide Next, Mem.Valid, Quiet;
  }

  /** What is ahead of a call changes by its own sends only, as long as steps are apart from it. */
  lemma AheadKept(m: Mem, st: Step, c: nat)
    requires m.Valid() && Enabled(m, st) && Next(m, st).Alive? && c < |m.calls| && Apart(m, st, c)
    ensures var t := Next(m, st).m;
            && c < |t.calls| && t.CallOk(c) && m.CallOk(c)
            && (st == Send(c) ==> m.Ahead(c) != [])
            && t.Ahead(c) == if st == Send(c) then m.Ahead(c)[1..] else m.Ahead(c)
  {
    CallStep(m, st, c);
    ElementsKept(m, st, c);
    if st.Load? && st.call == c {
      WordKept(m, c, st.stale);
    }
  }

  lemma HeldAhead(m: Mem, c: nat)
    requires c < |m.calls| && m.CallShape(c) && m.calls[c].held.Some?
    ensures m.Ahead(c) != [] && m.Ahead(c)[0] == m.calls[c].held.value && m.Ahead(c)[1..] == m.Unread(c)
  {
  }

  lemma HeadMoved(front: seq<nat>, back: seq<nat>)
    requires back != []
    ensures (front + [back[0]]) + back[1..] == front + back
  {
  }

  lemma PlanKept(m: Mem, st: Step, c: nat)
    requires m.Valid() && Enabled(m, st) && Next(m, st).Alive? && c < |m.calls| && Apart(m, st, c)
    ensures var t := Next(m, st).m;
            && c < |t.calls| && t.CallOk(c) && m.CallOk(c)
            && t.calls[c].user == m.calls[c].user && t.calls[c].snap == m.calls[c].snap && t.Plan(c) == m.Plan(c)
  {
    hide Next, Mem.Valid, Mem.Ahead, Apart;
    CallStep(m, st, c);
    AheadKept(m, st, c);
    if st == Send(c) {
      HeldAhead(m, c);
      HeadMoved(m.calls[c].offered, m.Ahead(c));
    }
  }

  /** What the call still has to send on is open. */
  ghost predicate Safe(m: Mem, c: nat)
    requires c < |m.calls| && m.CallShape(c)
  {
    forall ch :: ch in m.Ahead(c) ==> m.Open(m.calls[c].user, ch)
  }

  lemma BeginSafe(m: Mem, u: string)
    requires m.Valid() && m.removing.None?
    ensures var t := Begun(m, u); var c := |m.calls|;
            t.Valid() && t.CallOk(c) && t.Plan(c) == m.List(u) && Steady(t, c) && Quiet(t, c) && Safe(t, c)
  {
    NextValid(m, Begin(u));
    var t, c := Begun(m, u), |m.calls|;
    assert m.ListOk(u) && t.CallOk(c) && t.calls[c].snap == m.Header(u);
    assert t.Ahead(c) == m.List(u) == t.Plan(c);
    forall ch | ch in m.List(u) ensures t.Open(u, ch) { assert m.Active(u, ch); }
  }

  lemma OpenKept(m: Mem, st: Step, c: nat)
    requires m.Valid() && Enabled(m, st) && Next(m, st).Alive? && c < |m.calls| && Quiet(m, c)
    ensures forall ch :: m.Open(m.calls[c].user, ch) ==> Next(m, st).m.Open(m.calls[c].user, ch)
  {
    hide Mem.ListOk, Mem.ArraysOk, Mem.CallOk;
  }

  lemma SafeKept(m: Mem, st: Step, c: nat)
    requires m.Valid() && Enabled(m, st) && Next(m, st).Alive? && c < |m.calls| && Apart(m, st, c)
    requires m.CallOk(c) && Safe(m, c)
    ensures var t := Next(m, st).m; c < |t.calls| && t.CallOk(c) && Safe(t, c)
  {
    CallStep(m, st, c);
    AheadKept(m, st, c);
    OpenKept(m, st, c);
    var t := Next(m, st).m;
    hide Next, Mem.Valid, Mem.Ahead, Mem.Open, Mem.ListOk, Quiet, Steady;
    assert forall ch :: ch in t.Ahead(c) ==> ch in m.Ahead(c);
  }

  /**
   * In every interleaving without a cancel for the same user, a notify call offers the event to exactly the channels
   * that were listed when it took its snapshot, in order; appends never change the recipients, and what it holds or
   * has yet to load is open.
   */
  lemma {:induction false} NotifyExact(m: Mem, u: string, steps: seq<Step>)
    requires m.Valid() && m.removing.None? && Begun(m, u).Valid() && Exec(Begun(m, u), steps).Going?
    requires forall n :: 0 <= n < |steps| ==> !(steps[n].Cancel? && steps[n].user == u)
    ensures var c, t := |m.calls|, Exec(Begun(m, u), steps).m;
            && c < |t.calls| && t.CallOk(c) && t.calls[c].user == u && t.calls[c].snap == m.Header(u)
            && t.Plan(c) == m.List(u) && Steady(t, c) && Quiet(t, c) && Safe(t, c)
  {
    if steps == [] {
      BeginSafe(m, u);
    } else {
      var n, c := |steps| - 1, |m.calls|;
      NotifyExact(m, u, steps[..n]);
      var p := Exec(Begun(m, u), steps[..n]).m;
      PlanKept(p, steps[n], c);
      SteadyKept(p, steps[n], c);
      SafeKept(p, steps[n], c);
    }
  }

  lemma PlanPrefix(m: Mem, c: nat)
    requires c < |m.calls| && m.CallShape(c)
    ensures m.calls[c].offered <= m.Plan(c) && (!m.calls[c].Unfinished() ==> m.calls[c].offered == m.Plan(c))
  {
    assert !m.calls[c].Unfinished() ==> m.Ahead(c) == [];
    hide Mem.Ahead;
  }

  lemma SendGoes(m: Mem, c: nat)
    requires m.Valid() && Enabled(m, Send(c)) && m.CallShape(c) && Safe(m, c)
    ensures Next(m, Send(c)).Alive?
  {
    HeldAhead(m, c);
    hide Mem.Ahead;
    assert m.Open(m.calls[c].user, m.Ahead(c)[0]);
  }

  /** So every send of such a call goes through, and a finished one has offered the event once to everybody listed. */
  lemma NotifyDelivers(m: Mem, u: string, steps: seq<Step>)
    requires m.Valid() && m.removing.None? && Begun(m, u).Valid() && Exec(Begun(m, u), steps).Going?
    requires forall n :: 0 <= n < |steps| ==> !(steps[n].Cancel? && steps[n].user == u)
    ensures var c, t := |m.calls|, Exec(Begun(m, u), steps).m;
            && c < |t.calls| && t.calls[c].offered <= m.List(u) && Distinct(m.List(u))
            && (!t.calls[c].Unfinished() ==> t.calls[c].offered == m.List(u))
            && (Enabled(t, Send(c)) ==> Next(t, Send(c)).Alive?)
  {
    assert m.ListOk(u);
    NotifyExact(m, u, steps);
    var c, t := |m.calls|, Exec(Begun(m, u), steps).m;
    hide Exec, Next, Begun, Safe, Steady, Quiet, Mem.Valid, Mem.List, Mem.Plan, Distinct;
    PlanPrefix(t, c);
    if Enabled(t, Send(c)) {
      SendGoes(t, c);
    }
  }

  // Finishing a call.

  function LoadSends(c: nat, k: nat): seq<Step> {
    if k == 0 then [] else LoadSends(c, k - 1) + [Load(c, false), Send(c)]
  }

  /** The steps left to a call that nothing interrupts any more. */
  function Finish(m: Mem, c: nat): seq<Step>
    requires c < |m.calls| && m.CallShape(c)
  {
    (if m.calls[c].held.Some? then [Send(c)] else []) + LoadSends(c, |m.Unread(c)|)
  }

  /** The memory after `k` loads and sends of the call that all went through. */
  function Advanced(m: Mem, c: nat, k: nat): Mem
    requires c < |m.calls| && m.CallShape(c) && k <= |m.Unread(c)|
  {
    var call := m.calls[c];
    m.(calls := m.calls[c := call.(next := call.next + k, offered := call.offered + m.Unread(c)[..k])])
  }

  lemma AdvanceNone(m: Mem, c: nat)
    requires c < |m.calls| && m.CallShape(c)
    ensures Advanced(m, c, 0) == m
  {
    var call, rest := m.calls[c], m.Unread(c);
    hide Mem.Unread;
    assert call.offered + rest[..0] == call.offered;
    assert m.calls[c := call] == m.calls;
  }

  /** One more load. */
  function Holding(m: Mem, c: nat, k: nat): Mem
    requires c < |m.calls| && m.CallShape(c) && k < |m.Unread(c)|
  {
    var p := Advanced(m, c, k);
    p.(calls := p.calls[c := p.calls[c].(next := p.calls[c].next + 1, held := Some(m.Unread(c)[k]))])
  }

  lemma AdvanceLoad(m: Mem, c: nat, k: nat)
    requires m.Valid() && c < |m.calls| && m.CallShape(c) && m.calls[c].held.None? && k < |m.Unread(c)|
    ensures var p := Advanced(m, c, k);
            && Enabled(p, Load(c, false)) && p.CallShape(c) && p.RemovalOk()
            && Loaded(p, c, false) == Holding(m, c, k)
  {
  }

  lemma AdvanceSend(m: Mem, c: nat, k: nat)
    requires c < |m.calls| && m.CallShape(c) && m.calls[c].held.None? && k < |m.Unread(c)|
    ensures Enabled(Holding(m, c, k), Send(c))
    ensures Sent(Holding(m, c, k), c) == if m.Unread(c)[k] in m.closed then Panic else Alive(Advanced(m, c, k + 1))
  {
    var call, rest := m.calls[c], m.Unread(c);
    assert call.offered + rest[..k] + [rest[k]] == call.offered + rest[..k + 1];
    var last := Advanced(m, c, k + 1).calls[c];
    assert Holding(m, c, k).calls[c := last] == m.calls[c := last];
  }

  lemma ExecTwo(m: Mem, p: Mem, a: Step, b: Step)
    requires m.Valid() && Enabled(m, a) && Next(m, a) == Alive(p) && Enabled(p, b)
    ensures p.Valid() && Exec(m, [a, b]) == if Next(p, b).Panic? then Dead else Going(Next(p, b).m)
  {
    NextValid(m, a);
    ExecOne(m, a);
    assert [a, b] == [a] + [b];
    ExecMore(m, [a], b);
  }

  /** One load and its send. */
  lemma RoundGoes(m: Mem, c: nat, k: nat)
    requires m.Valid() && c < |m.calls| && m.CallShape(c) && m.calls[c].held.None? && k < |m.Unread(c)|
    requires Advanced(m, c, k).Valid()
    ensures Exec(Advanced(m, c, k), [Load(c, false), Send(c)]) ==
            if m.Unread(c)[k] in m.closed then Dead else Going(Advanced(m, c, k + 1))
  {
    AdvanceLoad(m, c, k);
    AdvanceSend(m, c, k);
    hide Exec, Advanced, Holding, Loaded, Sent, Mem.Unread, Mem.Valid, Enabled;
    ExecTwo(Advanced(m, c, k), Holding(m, c, k), Load(c, false), Send(c));
  }

  /** While the channels to load are open, `k` rounds go through the first `k` of them; a closed one ends the run. */
  lemma {:induction false} RoundsGo(m: Mem, c: nat, k: nat)
    requires m.Valid() && c < |m.calls| && m.CallShape(c) && m.calls[c].held.None? && k <= |m.Unread(c)|
    requires forall p :: 0 <= p < k - 1 ==> m.Unread(c)[p] !in m.closed
    ensures Exec(m, LoadSends(c, k)) ==
            if k > 0 && m.Unread(c)[k - 1] in m.closed then Dead else Going(Advanced(m, c, k))
  {
    hide Exec, Advanced, Mem.Unread, Mem.Valid, Mem.CallShape;
    if k == 0 {
      AdvanceNone(m, c);
      ExecNone(m);
    } else {
      RoundsGo(m, c, k - 1);
      assert k >= 2 ==> m.Unread(c)[k - 2] !in m.closed;
      ExecConcat(m, LoadSends(c, k - 1), [Load(c, false), Send(c)]);
      RoundGoes(m, c, k - 1);
    }
  }

  lemma {:induction false} DeadStays(m: Mem, c: nat, j: nat, k: nat)
    requires m.Valid() && j <= k && Exec(m, LoadSends(c, j)).Dead?
    ensures Exec(m, LoadSends(c, k)).Dead?
    decreases k
  {
    if j < k {
      DeadStays(m, c, j, k - 1);
      ExecConcat(m, LoadSends(c, k - 1), [Load(c, false), Send(c)]);
    }
  }

  /** First position of a closed channel. */
  ghost function FirstClosed(s: seq<nat>, closed: set<nat>): (p: nat)
    ensures p <= |s| && (p < |s| ==> s[p] in closed) && forall q :: 0 <= q < p ==> s[q] !in closed
  {
    if s == [] || s[0] in closed then 0 else 1 + FirstClosed(s[1..], closed)
  }

  /** A call that holds nothing. */
  lemma RoundsIff(m: Mem, c: nat)
    requires m.Valid() && c < |m.calls| && m.CallShape(c) && m.calls[c].held.None?
    ensures var run := Exec(m, LoadSends(c, |m.Unread(c)|));
            if exists ch :: ch in m.Unread(c) && ch in m.closed then run.Dead?
            else run.Going? && c < |run.m.calls| && run.m.calls[c].offered == m.calls[c].offered + m.Unread(c)
  {
    var n := |m.Unread(c)|;
    var p := FirstClosed(m.Unread(c), m.closed);
    hide Exec;
    if p < n {
      assert m.Unread(c)[p] in m.closed;
      RoundsGo(m, c, p + 1);
      hide Mem.Valid;
      DeadStays(m, c, p + 1, n);
    } else {
      RoundsGo(m, c, n);
      assert m.Unread(c)[..n] == m.Unread(c);
    }
  }

  /** The send of the channel a call holds. */
  lemma SendHeld(m: Mem, c: nat)
    requires m.Valid() && c < |m.calls| && m.CallShape(c) && m.calls[c].held.Some?
    ensures var ch := m.calls[c].held.value;
            if ch in m.closed then Exec(m, [Send(c)]).Dead?
            else
              Exec(m, [Send(c)]).Going? &&
              var p := Exec(m, [Send(c)]).m;
              && c < |p.calls| && p.CallShape(c) && p.calls[c].held.None? && p.closed == m.closed
              && p.Unread(c) == m.Unread(c) && p.calls[c].offered == m.calls[c].offered + [ch]
  {
    ExecOne(m, Send(c));
  }

  /** A call that holds a channel. */
  lemma FinishHeld(m: Mem, c: nat)
    requires m.Valid() && c < |m.calls| && m.CallShape(c) && m.calls[c].held.Some?
    ensures var run := Exec(m, Finish(m, c));
            if m.ClosedAhead(c) then run.Dead?
            else run.Going? && c < |run.m.calls| && run.m.calls[c].offered == m.Plan(c)
  {
    hide Exec, LoadSends, Mem.Valid, Mem.Unread, Mem.Ahead, Mem.Plan, Mem.ClosedAhead;
    SendHeld(m, c);
    ExecConcat(m, [Send(c)], LoadSends(c, |m.Unread(c)|));
    AheadParts(m, c);
    if m.calls[c].held.value !in m.closed {
      RoundsIff(Exec(m, [Send(c)]).m, c);
    }
  }

  lemma AheadParts(m: Mem, c: nat)
    requires c < |m.calls| && m.CallShape(c) && m.calls[c].held.Some?
    ensures var call := m.calls[c];
            && m.Plan(c) == call.offered + [call.held.value] + m.Unread(c)
            && (m.ClosedAhead(c) <==> call.held.value in m.closed || exists ch :: ch in m.Unread(c) && ch in m.closed)
  {
    hide Mem.Unread;
    var held := m.calls[c].held.value;
    assert m.Ahead(c) == [held] + m.Unread(c);
    if held in m.closed {
      assert m.Ahead(c)[0] == held;
    }
    if ch :| ch in m.Unread(c) && ch in m.closed {
      assert ch in m.Ahead(c);
    }
  }

  /** Carrying out the rest of a call panics exactly if a closed channel is ahead, and otherwise completes its plan. */
  lemma FinishIff(m: Mem, c: nat)
    requires m.Valid() && c < |m.calls| && m.CallShape(c)
    ensures var run := Exec(m, Finish(m, c));
            if m.ClosedAhead(c) then run.Dead?
            else run.Going? && c < |run.m.calls| && run.m.calls[c].offered == m.Plan(c)
  {
    var rounds := LoadSends(c, |m.Unread(c)|);
    hide Exec, LoadSends, Mem.Valid, Mem.Unread;
    if m.calls[c].held.Some? {
      FinishHeld(m, c);
    } else {
      assert [] + rounds == rounds && m.Ahead(c) == [] + m.Unread(c) == m.Unread(c);
      RoundsIff(m, c);
    }
  }

  // One cancel between two steps of a call.

  /** The memory after the whole cancel. */
  ghost function After(m: Mem, ch: nat): Mem
    requires m.ArraysOk() && ch < |m.owners|
  {
    Cancelled(m, ch).(closed := m.closed + {ch}, removing := None)
  }

  lemma AfterIsCancelled(m: Mem, ch: nat)
    requires m.Valid() && m.removing.None? && ch < |m.owners| && ch !in m.closed
    ensures Exec(m, [Cancel(m.owners[ch], ch), Close]) == Going(After(m, ch)) && After(m, ch).Valid()
  {
    ExecTwo(m, Cancelled(m, ch), Cancel(m.owners[ch], ch), Close);
    assert Closed(Cancelled(m, ch)) == Alive(After(m, ch));
  }

  lemma ShiftedAt(a: seq<nat>, len: nat, i: nat, p: nat)
    requires i < len <= |a| && p < |a|
    ensures Shifted(a, len, i)[p] == if p < i || p >= len - 1 then a[p] else a[p + 1]
  {
  }

  function Place(m: Mem, ch: nat): nat
    requires m.ArraysOk() && ch < |m.owners|
  {
    Position(m.List(m.owners[ch]), ch)
  }

  /** What the call finds in its array after the cancel: the shifted words if the list lies there, else what it had. */
  lemma AfterUnread(m: Mem, c: nat, ch: nat)
    requires m.Valid() && m.removing.None? && c < |m.calls| && ch < |m.owners| && ch !in m.closed
    ensures var t, call, u := After(m, ch), m.calls[c], m.owners[ch];
            && m.CallShape(c) && t.calls == m.calls && t.CallShape(c)
            && u in m.subs && Place(m, ch) < m.subs[u].len == |m.List(u)| && m.List(u)[Place(m, ch)] == ch
            && (if m.OnList(c, u) then
                  t.Unread(c) ==
                  Shifted(m.arrays[call.snap.arr], m.subs[u].len, Place(m, ch))[..call.snap.len][call.next..]
                else t.Unread(c) == m.Unread(c))
  {
    assert m.CallOk(c);
    Found(m, ch);
    hide Position;
  }

  /** A slot behind the end of the list, which an earlier shift has left there, still shows the channel to the call. */
  ghost predicate LeftBehind(m: Mem, c: nat, ch: nat)
    requires m.Valid() && c < |m.calls| && m.CallShape(c) && ch < |m.owners| && m.OnList(c, m.owners[ch])
  {
    var call := m.calls[c];
    exists p :: m.subs[m.owners[ch]].len <= p < call.snap.len && call.next <= p && m.arrays[call.snap.arr][p] == ch
  }

  /**
   * The call will load the channel although it has been removed: from an array the list no longer lies in, or from the
   * last slot of the list, which the shift leaves as it is, or from a slot left behind.
   */
  ghost predicate Reached(m: Mem, c: nat, ch: nat)
    requires m.Valid() && c < |m.calls| && m.CallShape(c) && ch < |m.owners|
  {
    var u, call := m.owners[ch], m.calls[c];
    if !m.OnList(c, u) then ch in m.Unread(c)
    else (call.next <= Place(m, ch) == m.subs[u].len - 1 < call.snap.len) || LeftBehind(m, c, ch)
  }

  lemma OnlyThere(a: seq<nat>, len: nat, i: nat, p: nat)
    requires i < len <= |a| && p < len && Distinct(a[..len]) && a[p] == a[i]
    ensures p == i
  {
    assert a[..len][p] == a[..len][i];
  }

  /** On arrays. */
  lemma ShiftShows(a: seq<nat>, len: nat, i: nat, next: nat, n: nat)
    requires i < len <= |a| && next <= n <= |a| && Distinct(a[..len])
    ensures a[i] in Shifted(a, len, i)[..n][next..] <==>
            (next <= i == len - 1 < n) || exists p :: len <= p < n && next <= p && a[p] == a[i]
  {
    var seen := Shifted(a, len, i)[..n][next..];
    if a[i] in seen {
      var q :| 0 <= q < |seen| && seen[q] == a[i];
      var p := q + next;
      ShiftedAt(a, len, i, p);
      if p < len {
        OnlyThere(a, len, i, if p < i || p == len - 1 then p else p + 1);
      } else {
        assert a[p] == a[i];
      }
    }
    if next <= i == len - 1 < n {
      ShiftedAt(a, len, i, i);
      assert seen[i - next] == a[i];
    }
    if p :| len <= p < n && next <= p && a[p] == a[i] {
      ShiftedAt(a, len, i, p);
      assert seen[p - next] == a[i];
    }
  }

  /** After the cancel the channel is still to be loaded exactly if it is reached. */
  lemma ReachedIff(m: Mem, c: nat, ch: nat)
    requires m.Valid() && m.removing.None? && c < |m.calls| && ch < |m.owners| && ch !in m.closed
    ensures m.CallShape(c) && After(m, ch).CallShape(c)
    ensures ch in After(m, ch).Unread(c) <==> Reached(m, c, ch)
  {
    AfterUnread(m, c, ch);
    var u, call := m.owners[ch], m.calls[c];
    if m.OnList(c, u) {
      assert m.ListOk(u);
      var a, len, i := m.arrays[call.snap.arr], m.subs[u].len, Place(m, ch);
      assert a[..len] == m.List(u) && a[i] == ch;
      ShiftShows(a, len, i, call.next, call.snap.len);
    }
  }

  lemma ShiftSources(a: seq<nat>, len: nat, i: nat, next: nat, n: nat, x: nat)
    requires i < len <= |a| && next <= n <= |a| && x in Shifted(a, len, i)[..n][next..]
    ensures x in a[..n][next..] || x in a[..len]
  {
    var seen := Shifted(a, len, i)[..n][next..];
    var q :| 0 <= q < |seen| && seen[q] == x;
    ShiftedAt(a, len, i, q + next);
    if q + next < i || q + next >= len - 1 {
      assert a[..n][next..][q] == x;
    } else {
      assert a[..len][q + next + 1] == x;
    }
  }

  /** What the call still loads after the cancel was ahead of it before, or is listed. */
  lemma StillOpen(m: Mem, c: nat, ch: nat)
    requires m.Valid() && m.removing.None? && c < |m.calls| && ch < |m.owners| && ch !in m.closed
    requires m.CallShape(c) && !m.ClosedAhead(c)
    ensures After(m, ch).CallShape(c) && forall x :: x in After(m, ch).Unread(c) ==> x !in m.closed
  {
    AfterUnread(m, c, ch);
    var u, call := m.owners[ch], m.calls[c];
    assert m.ListOk(u) && forall x :: x in m.List(u) ==> m.Active(u, x);
    assert forall x :: x in m.Unread(c) ==> x in m.Ahead(c);
    if m.OnList(c, u) {
      var a, len := m.arrays[call.snap.arr], m.subs[u].len;
      assert a[..len] == m.List(u) && a[..call.snap.len][call.next..] == m.Unread(c);
      hide Mem.Valid, After, Shifted;
      forall x | x in After(m, ch).Unread(c) ensures x !in m.closed {
        ShiftSources(a, len, Place(m, ch), call.next, call.snap.len, x);
      }
    }
  }

  /**
   * A cancel of an open channel between two steps of a call that had only open channels ahead: finishing the call
   * panics exactly if the call holds the channel or will still load it.
   */
  lemma OverlapPanicsIff(m: Mem, c: nat, ch: nat)
    requires m.Valid() && m.removing.None? && c < |m.calls| && ch < |m.owners| && ch !in m.closed
    requires m.CallShape(c) && !m.ClosedAhead(c)
    ensures After(m, ch).Valid() && After(m, ch).CallShape(c)
    ensures After(m, ch).ClosedAhead(c) <==> m.calls[c].held == Some(ch) || Reached(m, c, ch)
    ensures Exec(After(m, ch), Finish(After(m, ch), c)).Dead? <==> m.calls[c].held == Some(ch) || Reached(m, c, ch)
  {
    AfterIsCancelled(m, ch);
    AfterUnread(m, c, ch);
    ReachedIff(m, c, ch);
    StillOpen(m, c, ch);
    FinishIff(After(m, ch), c);
    hide Mem.Valid, After, Mem.Unread, Exec, Reached, Mem.OnList, Shifted, Place;
    ClosedAheadIff(m, After(m, ch), c, ch);
  }

  /** One more closed channel, and the call's words as they may be now. */
  lemma ClosedAheadIff(m: Mem, t: Mem, c: nat, ch: nat)
    requires c < |m.calls| && t.calls == m.calls && m.CallShape(c) && t.CallShape(c)
    requires t.closed == m.closed + {ch} && !m.ClosedAhead(c) && forall x :: x in t.Unread(c) ==> x !in m.closed
    ensures t.ClosedAhead(c) <==> m.calls[c].held == Some(ch) || ch in t.Unread(c)
  {
    hide Mem.Unread, Mem.Ahead;
    forall x ensures x in m.Ahead(c) <==> m.calls[c].held == Some(x) || x in m.Unread(c) { InAhead(m, c, x); }
    forall x ensures x in t.Ahead(c) <==> t.calls[c].held == Some(x) || x in t.Unread(c) { InAhead(t, c, x); }
  }

  lemma InAhead(m: Mem, c: nat, x: nat)
    requires c < |m.calls| && m.CallShape(c)
    ensures x in m.Ahead(c) <==> m.calls[c].held == Some(x) || x in m.Unread(c)
  {
  }

  /** In a list at least as long as the snapshot only the last channel is reached, and only by a full snapshot. */
  lemma ReachedOnLongList(m: Mem, c: nat, ch: nat)
    requires m.Valid() && m.removing.None? && c < |m.calls| && ch < |m.owners| && ch !in m.closed
    requires m.CallShape(c) && m.OnList(c, m.owners[ch]) && m.calls[c].snap.len <= m.subs[m.owners[ch]].len
    ensures Reached(m, c, ch) <==>
            m.calls[c].next <= Place(m, ch) == m.calls[c].snap.len - 1 == m.subs[m.owners[ch]].len - 1
  {
  }

  function Max(a: int, b: int): int { if a >= b then a else b }

  function Min(a: int, b: int): int { if a <= b then a else b }

  lemma ShiftVisible(a: seq<nat>, len: nat, i: nat, next: nat, n: nat)
    requires i < len <= |a| && next <= n <= |a| && Distinct(a[..len])
    ensures Shifted(a, len, i)[..n][next..] == a[..n][next..] <==> Max(i, next) >= Min(n, len - 1)
  {
    var b, from := Shifted(a, len, i), Max(i, next);
    if from < Min(n, len - 1) {
      ShiftedAt(a, len, i, from);
      assert a[..len][from] != a[..len][from + 1];
      assert b[..n][next..][from - next] != a[..n][next..][from - next];
    } else {
      forall p | next <= p < n ensures b[p] == a[p] { ShiftedAt(a, len, i, p); }
      assert b[..n][next..] == a[..n][next..];
    }
  }

  /** The channels ahead of a call stay the same exactly when its array is not shifted where it has yet to load. */
  lemma SameRecipientsIff(m: Mem, c: nat, ch: nat)
    requires m.Valid() && m.removing.None? && c < |m.calls| && ch < |m.owners| && ch !in m.closed
    ensures m.CallShape(c) && After(m, ch).CallShape(c)
    ensures var u, call := m.owners[ch], m.calls[c];
            After(m, ch).Ahead(c) == m.Ahead(c) <==>
            !m.OnList(c, u) || Max(Place(m, ch), call.next) >= Min(call.snap.len, m.subs[u].len - 1)
  {
    AfterUnread(m, c, ch);
    var u, call, t := m.owners[ch], m.calls[c], After(m, ch);
    if m.OnList(c, u) {
      assert m.ListOk(u);
      ShiftVisible(m.arrays[call.snap.arr], m.subs[u].len, Place(m, ch), call.next, call.snap.len);
    }
    hide Mem.Valid, After, Mem.Unread, Mem.OnList;
    SameTail(m, t, c);
  }

  lemma SameTail(m: Mem, t: Mem, c: nat)
    requires c < |m.calls| && t.calls == m.calls && m.CallShape(c) && t.CallShape(c)
    ensures t.Ahead(c) == m.Ahead(c) <==> t.Unread(c) == m.Unread(c)
  {
    hide Mem.Unread;
    var k := if m.calls[c].held.Some? then 1 else 0;
    assert t.Ahead(c)[k..] == t.Unread(c) && m.Ahead(c)[k..] == m.Unread(c);
  }

  /** The cancel is harmless to the call: the same channels are ahead, all of them open. */
  ghost predicate Harmless(m: Mem, c: nat, ch: nat)
    requires m.ArraysOk() && c < |m.calls| && ch < |m.owners| && m.CallShape(c) && After(m, ch).CallShape(c)
  {
    After(m, ch).Ahead(c) == m.Ahead(c) && !After(m, ch).ClosedAhead(c)
  }

  /** Exactly when the shift passes by the call and the call neither holds nor reaches the channel. */
  lemma CancelHarmlessIff(m: Mem, c: nat, ch: nat)
    requires m.Valid() && m.removing.None? && c < |m.calls| && ch < |m.owners| && ch !in m.closed
    requires m.CallShape(c) && !m.ClosedAhead(c)
    ensures After(m, ch).CallShape(c)
    ensures var u, call := m.owners[ch], m.calls[c];
            Harmless(m, c, ch) <==>
            && call.held != Some(ch) && !Reached(m, c, ch)
            && (m.OnList(c, u) ==> Max(Place(m, ch), call.next) >= Min(call.snap.len, m.subs[u].len - 1))
  {
    SameRecipientsIff(m, c, ch);
    OverlapPanicsIff(m, c, ch);
  }

  // Whole runs.

  const EMPTY := Mem([], map[], [], [], {}, None)

  lemma EmptyValid()
    ensures EMPTY.Valid()
  {
  }

  ghost function RunOf(steps: seq<Step>): Run { EmptyValid(); Exec(EMPTY, steps) }

  /** Some call of this user holds a channel or has one to load. */
  ghost predicate Busy(m: Mem, u: string) {
    exists c: nat :: c < |m.calls| && m.calls[c].user == u && m.calls[c].Unfinished()
  }

  /** No cancel falls between the snapshot and the last send of a notify call for the same user. */
  ghost predicate NoOverlap(steps: seq<Step>) {
    forall n :: 0 <= n < |steps| && steps[n].Cancel? && RunOf(steps[..n]).Going? ==>
      !Busy(RunOf(steps[..n]).m, steps[n].user)
  }

  /** The cancel that has been called and has not come to its close. */
  ghost function Pending(steps: seq<Step>): Option<nat> {
    if steps == [] then None else
      var n := |steps| - 1;
      match steps[n]
      case Cancel(_, ch) => Some(ch)
      case Close => None
      case _ => Pending(steps[..n])
  }

  /** The channels whose cancel has come to its close, once for each time. */
  ghost function Closes(steps: seq<Step>): seq<nat> {
    if steps == [] then [] else
      var n := |steps| - 1;
      Closes(steps[..n]) + if steps[n].Close? && Pending(steps[..n]).Some? then [Pending(steps[..n]).value] else []
  }

  lemma RemovingStep(m: Mem, st: Step)
    requires m.Valid() && Enabled(m, st) && Next(m, st).Alive?
    ensures var t := Next(m, st).m;
            && t.closed == (if st.Close? then m.closed + {m.removing.value.ch} else m.closed)
            && (if st.Cancel? then t.removing.Some? && t.removing.value.ch == st.ch
                else if st.Close? then t.removing.None?
                else t.removing == m.removing)
  {
  }

  /** Which channels are closed, and which one is about to be, follows from the calls of cancel alone. */
  lemma {:induction false} ClosedOfRun(steps: seq<Step>)
    requires RunOf(steps).Going?
    ensures var m := RunOf(steps).m;
            && (forall ch :: ch in m.closed <==> ch in Closes(steps))
            && Pending(steps) == if m.removing.Some? then Some(m.removing.value.ch) else None
  {
    if steps != [] {
      var n := |steps| - 1;
      ClosedOfRun(steps[..n]);
      RemovingStep(RunOf(steps[..n]).m, steps[n]);
    }
  }

  /**
   * Whatever happened before, a step panics exactly if it closes a channel again or sends on a loaded channel whose
   * cancel has come to its close.
   */
  lemma PanicStepIff(steps: seq<Step>, st: Step)
    requires RunOf(steps).Going? && Enabled(RunOf(steps).m, st)
    ensures RunOf(steps + [st]).Dead? <==>
      || (st.Close? && Pending(steps).Some? && Pending(steps).value in Closes(steps))
      || (st.Send? && RunOf(steps).m.calls[st.call].held.value in Closes(steps))
  {
    EmptyValid();
    ExecMore(EMPTY, steps, st);
    ClosedOfRun(steps);
  }

  /** Every unfinished call is steady, has only open channels ahead, and no cancel of its user at work. */
  ghost predicate CallsFine(m: Mem)
    requires m.Valid()
  {
    forall c: nat :: c < |m.calls| && m.calls[c].Unfinished() ==>
      m.CallOk(c) && Steady(m, c) && Quiet(m, c) && Safe(m, c)
  }

  lemma FineStepPanics(m: Mem, st: Step)
    requires m.Valid() && CallsFine(m) && Enabled(m, st)
    ensures Next(m, st).Panic? <==> st.Close? && m.removing.value.ch in m.closed
  {
    if st.Send? {
      assert m.CallOk(st.call) && Safe(m, st.call);
      SendGoes(m, st.call);
    }
  }

  /** One call stays fine. */
  lemma FineKept(m: Mem, st: Step, c: nat)
    requires m.Valid() && CallsFine(m) && Enabled(m, st) && (st.Cancel? ==> !Busy(m, st.user)) && Next(m, st).Alive?
    requires Next(m, st).m.Valid() && c < |Next(m, st).m.calls| && Next(m, st).m.calls[c].Unfinished()
    ensures var t := Next(m, st).m; t.CallOk(c) && Steady(t, c) && Quiet(t, c) && Safe(t, c)
  {
    if c < |m.calls| {
      CallStep(m, st, c);
      assert m.calls[c].Unfinished();
      PlanKept(m, st, c);
      SteadyKept(m, st, c);
      SafeKept(m, st, c);
    } else {
      BeginSafe(m, st.user);
    }
  }

  lemma CallsFineStep(m: Mem, st: Step)
    requires m.Valid() && CallsFine(m) && Enabled(m, st) && (st.Cancel? ==> !Busy(m, st.user)) && Next(m, st).Alive?
    ensures Next(m, st).m.Valid() && CallsFine(Next(m, st).m)
  {
    hide Next, Enabled, Steady, Quiet, Safe, Mem.Valid, Busy;
    NextValid(m, st);
    var t := Next(m, st).m;
    forall c: nat | c < |t.calls| && t.calls[c].Unfinished()
      ensures t.CallOk(c) && Steady(t, c) && Quiet(t, c) && Safe(t, c)
    {
      FineKept(m, st, c);
    }
  }

  lemma NoOverlapFront(steps: seq<Step>)
    requires steps != [] && NoOverlap(steps)
    ensures NoOverlap(steps[..|steps| - 1])
  {
    var n := |steps| - 1;
    forall k | 0 <= k < n && steps[..n][k].Cancel? && RunOf(steps[..n][..k]).Going?
      ensures !Busy(RunOf(steps[..n][..k]).m, steps[..n][k].user)
    {
      assert steps[..n][..k] == steps[..k];
    }
  }

  lemma {:induction false} RunFine(steps: seq<Step>)
    requires RunOf(steps).Going? && NoOverlap(steps)
    ensures CallsFine(RunOf(steps).m)
  {
    if steps != [] {
      var n := |steps| - 1;
      NoOverlapFront(steps);
      RunFine(steps[..n]);
      CallsFineStep(RunOf(steps[..n]).m, steps[n]);
    }
  }

  lemma AddedDistinct(s: seq<nat>, x: nat)
    ensures Distinct(s + [x]) <==> Distinct(s) && x !in s
  {
    if Distinct(s + [x]) {
      forall i, j | 0 <= i < j < |s| ensures s[i] != s[j] { assert (s + [x])[i] != (s + [x])[j]; }
      forall i | 0 <= i < |s| ensures s[i] != x { assert (s + [x])[i] != (s + [x])[|s|]; }
    }
  }

  /**
   * With loads and sends interleaved freely but no overlapping cancel, a run panics exactly when the cancel of some
   * channel comes to its close twice.
   */
  lemma {:induction false} PanicIffCancelledTwice(steps: seq<Step>)
    requires !RunOf(steps).Stuck? && NoOverlap(steps)
    ensures RunOf(steps).Dead? <==> !Distinct(Closes(steps))
  {
    if steps != [] {
      var n := |steps| - 1;
      var front, st := steps[..n], steps[n];
      NoOverlapFront(steps);
      PanicIffCancelledTwice(front);
      assert Closes(front) + [] == Closes(front);
      if Pending(front).Some? {
        AddedDistinct(Closes(front), Pending(front).value);
      }
      if RunOf(front).Going? {
        RunFine(front);
        FineStepPanics(RunOf(front).m, st);
        ClosedOfRun(front);
      }
    }
  }

  // Runs in which a cancel overlaps a call, every cancel called once.

  ghost predicate CancelledTwice(steps: seq<Step>) {
    exists i, j :: 0 <= i < j < |steps| && steps[i].Cancel? && steps[j].Cancel? && steps[i].ch == steps[j].ch
  }

  ghost predicate NoCancel(steps: seq<Step>) { forall i :: 0 <= i < |steps| ==> !steps[i].Cancel? }

  /** A run that reaches `m`, one cancel, and the rest of the call. */
  lemma Interrupt(steps: seq<Step>, m: Mem, c: nat, ch: nat) returns (all: seq<Step>)
    requires RunOf(steps) == Going(m) && NoCancel(steps)
    requires m.Valid() && m.removing.None? && c < |m.calls| && ch < |m.owners| && ch !in m.closed
    ensures After(m, ch).Valid() && After(m, ch).CallShape(c)
    ensures RunOf(all) == Exec(After(m, ch), Finish(After(m, ch), c)) && !CancelledTwice(all)
  {
    AfterIsCancelled(m, ch);
    AfterUnread(m, c, ch);
    assert m.ArraysOk();
    hide Exec, Mem.Valid, Mem.ArraysOk, After, Finish, Mem.Unread, Mem.OnList, NoCancel, CancelledTwice;
    var cancel, rest := [Cancel(m.owners[ch], ch), Close], Finish(After(m, ch), c);
    all := steps + cancel + rest;
    FinishNoCancel(After(m, ch), c);
    OneCancel(steps, m.owners[ch], ch, rest);
    EmptyValid();
    ExecConcat(EMPTY, steps + cancel, rest);
    ExecConcat(EMPTY, steps, cancel);
  }

  lemma OneRemoval(before: seq<Step>, u: string, ch: nat, rest: seq<Step>)
    requires NoCancel(before) && NoCancel(rest)
    ensures !CancelledTwice(before + [Cancel(u, ch)] + rest)
  {
    var all := before + [Cancel(u, ch)] + rest;
    assert forall i | 0 <= i < |before| :: all[i] == before[i];
    assert forall i | |before| + 1 <= i < |all| :: all[i] == rest[i - |before| - 1];
  }

  lemma OneCancel(before: seq<Step>, u: string, ch: nat, rest: seq<Step>)
    requires NoCancel(before) && NoCancel(rest)
    ensures !CancelledTwice(before + [Cancel(u, ch), Close] + rest)
  {
    assert before + [Cancel(u, ch), Close] + rest == before + [Cancel(u, ch)] + ([Close] + rest);
    OneRemoval(before, u, ch, [Close] + rest);
  }

  lemma {:induction false} RoundsNoCancel(c: nat, k: nat)
    ensures NoCancel(LoadSends(c, k))
  {
    if k > 0 {
      RoundsNoCancel(c, k - 1);
    }
  }

  lemma FinishNoCancel(m: Mem, c: nat)
    requires c < |m.calls| && m.CallShape(c)
    ensures NoCancel(Finish(m, c))
  {
    hide LoadSends, Mem.Unread;
    RoundsNoCancel(c, |m.Unread(c)|);
  }

  lemma Then(steps: seq<Step>, p: Mem, st: Step, q: Mem) returns (more: seq<Step>)
    requires RunOf(steps) == Going(p) && NoCancel(steps)
    requires p.Valid() && Enabled(p, st) && Next(p, st) == Alive(q) && !st.Cancel?
    ensures more == steps + [st] && RunOf(more) == Going(q) && NoCancel(more) && q.Valid()
  {
    EmptyValid();
    NextValid(p, st);
    ExecMore(EMPTY, steps, st);
    more := steps + [st];
  }

  /** One user whose list has `len` of the words of the last array. */
  function Single(u: string, arrays: seq<seq<nat>>, len: nat, calls: seq<Call>): Mem
    requires |arrays| > 0
  {
    Mem(arrays, map[u := Slice(|arrays| - 1, len)], calls, seq(len, _ => u), {}, None)
  }

  lemma AppendHere(u: string, a: seq<nat>, len: nat)
    requires len < |a|
    ensures Single(u, [a], len, []).ArraysOk()
    ensures Appended(Single(u, [a], len, []), u, 0) == Single(u, [a[len := len]], len + 1, [])
  {
    var r, t := Appended(Single(u, [a], len, []), u, 0), Single(u, [a[len := len]], len + 1, []);
    assert r.arrays == t.arrays && r.subs == t.subs && r.owners == t.owners;
  }

  lemma FirstAppend(u: string, spare: nat)
    requires EMPTY.ArraysOk()
    ensures Appended(EMPTY, u, spare) == Single(u, [[0] + seq(spare, _ => 0)], 1, [])
  {
    var r, t := Appended(EMPTY, u, spare), Single(u, [[0] + seq(spare, _ => 0)], 1, []);
    assert EMPTY.List(u) + [0] + seq(spare, _ => 0) == [0] + seq(spare, _ => 0);
    assert r.arrays == t.arrays && r.subs == t.subs && r.owners == t.owners;
  }

  lemma OneListed(u: string) returns (steps: seq<Step>)
    ensures var m := Single(u, [[0, 0, 0]], 1, []);
            m.Valid() && RunOf(steps) == Going(m) && NoCancel(steps)
  {
    EmptyValid();
    FirstAppend(u, 2);
    assert [0] + seq(2, _ => 0) == [0, 0, 0];
    hide Appended, Single;
    steps := Then([], EMPTY, Subscribe(u, 2), Single(u, [[0, 0, 0]], 1, []));
  }

  /** One more subscription into the spare slot. */
  lemma OneMore(before: seq<Step>, u: string, a: seq<nat>, len: nat, b: seq<nat>) returns (steps: seq<Step>)
    requires len < |a| && b == a[len := len]
    requires var m := Single(u, [a], len, []); m.Valid() && RunOf(before) == Going(m) && NoCancel(before)
    ensures var m := Single(u, [b], len + 1, []); m.Valid() && RunOf(steps) == Going(m) && NoCancel(steps)
  {
    hide RunOf, Appended, Mem.Valid, Mem.ArraysOk;
    AppendHere(u, a, len);
    steps := Then(before, Single(u, [a], len, []), Subscribe(u, 0), Single(u, [b], len + 1, []));
  }

  /** Three channels of one user in one array, and a notify call that has not loaded yet. */
  lemma ThreeListed(u: string) returns (steps: seq<Step>, m: Mem)
    ensures m == Single(u, [[0, 1, 2]], 3, [Call(u, Slice(0, 3), 0, None, [])]) && m.Valid()
    ensures RunOf(steps) == Going(m) && NoCancel(steps)
  {
    hide RunOf, Mem.Valid, NoCancel;
    steps := OneListed(u);
    steps := OneMore(steps, u, [0, 0, 0], 1, [0, 1, 0]);
    steps := OneMore(steps, u, [0, 1, 0], 2, [0, 1, 2]);
    m := Single(u, [[0, 1, 2]], 3, [Call(u, Slice(0, 3), 0, None, [])]);
    var all := Single(u, [[0, 1, 2]], 3, []);
    assert Begun(all, u) == m;
    steps := Then(steps, all, Begin(u), m);
  }

  /** The call has loaded the first channel. */
  lemma FirstHeld(u: string) returns (steps: seq<Step>, m: Mem)
    ensures m == Single(u, [[0, 1, 2]], 3, [Call(u, Slice(0, 3), 1, Some(0), [])]) && m.Valid()
    ensures RunOf(steps) == Going(m) && NoCancel(steps)
  {
    var p: Mem;
    steps, p := ThreeListed(u);
    m := Single(u, [[0, 1, 2]], 3, [Call(u, Slice(0, 3), 1, Some(0), [])]);
    assert Enabled(p, Load(0, false)) && Loaded(p, 0, false) == m;
    hide RunOf, Loaded, Single, Enabled, Mem.Valid, NoCancel;
    steps := Then(steps, p, Load(0, false), m);
  }

  /** The last of three channels is cancelled before the first load: the third send meets it closed. */
  lemma OverlapPanics(u: string) returns (steps: seq<Step>)
    ensures RunOf(steps).Dead? && !CancelledTwice(steps)
  {
    var m: Mem;
    steps, m := ThreeListed(u);
    assert m.List(u) == [0, 1, 2] && m.List(u)[2] == 2;
    assert Reached(m, 0, 2);
    hide RunOf, Exec, Reached;
    OverlapPanicsIff(m, 0, 2);
    steps := Interrupt(steps, m, 0, 2);
  }

  /** A channel is cancelled while the call holds it: the send meets it closed. */
  lemma HeldPanics(u: string) returns (steps: seq<Step>)
    ensures RunOf(steps).Dead? && !CancelledTwice(steps)
  {
    var m: Mem;
    steps, m := FirstHeld(u);
    hide RunOf, Exec, Reached, NoCancel;
    OverlapPanicsIff(m, 0, 0);
    steps := Interrupt(steps, m, 0, 0);
  }

  lemma CancelHere(u: string, calls: seq<Call>)
    ensures var m := Single(u, [[0, 1, 2]], 3, calls);
            && m.ArraysOk()
            && Cancelled(m, 0) ==
               m.(arrays := [[1, 2, 2]], subs := map[u := Slice(0, 2)], removing := Some(Removal(0, [[0, 1, 2]])))
  {
    var m := Single(u, [[0, 1, 2]], 3, calls);
    assert m.List(u) == [0, 1, 2] && Position(m.List(u), 0) == 0;
    assert Shifted([0, 1, 2], 3, 0) == [1, 2, 2];
    var t := Cancelled(m, 0);
    assert t.arrays == [[1, 2, 2]] && t.subs == map[u := Slice(0, 2)];
  }

  /** While the first channel is being removed the call loads the old word of its slot: a channel about to be closed. */
  lemma StalePanics(u: string) returns (steps: seq<Step>)
    ensures RunOf(steps).Dead? && !CancelledTwice(steps)
  {
    hide RunOf, Mem.Valid, NoCancel, CancelledTwice;
    var m: Mem;
    steps, m := ThreeListed(u);
    var calls := [Call(u, Slice(0, 3), 1, Some(0), [])];
    CancelHere(u, m.calls);
    var removed := Cancelled(m, 0);
    var held := removed.(calls := calls);
    var closed := held.(closed := {0}, removing := None);
    FewSteps();
    OneRemoval(steps, u, 0, [Load(0, true), Close, Send(0)]);
    assert Next(m, Cancel(u, 0)) == Alive(removed);
    AfterStep(steps, m, Cancel(u, 0), removed);
    assert Loaded(removed, 0, true) == held;
    AfterStep(steps + [Cancel(u, 0)], removed, Load(0, true), held);
    assert Closed(held) == Alive(closed);
    AfterStep(steps + [Cancel(u, 0)] + [Load(0, true)], held, Close, closed);
    AfterPanic(steps + [Cancel(u, 0)] + [Load(0, true)] + [Close], closed, Send(0));
    var all := steps + [Cancel(u, 0)] + [Load(0, true)] + [Close] + [Send(0)];
    assert all == steps + [Cancel(u, 0)] + [Load(0, true), Close, Send(0)];
    steps := all;
  }

  lemma FewSteps()
    ensures NoCancel([Load(0, true), Close, Send(0)])
  {
  }

  lemma AfterPanic(steps: seq<Step>, p: Mem, st: Step)
    requires RunOf(steps) == Going(p) && p.Valid() && Enabled(p, st) && Next(p, st).Panic?
    ensures RunOf(steps + [st]).Dead?
  {
    EmptyValid();
    ExecMore(EMPTY, steps, st);
  }

  lemma AfterStep(steps: seq<Step>, p: Mem, st: Step, q: Mem)
    requires RunOf(steps) == Going(p) && p.Valid() && Enabled(p, st) && Next(p, st) == Alive(q)
    ensures RunOf(steps + [st]) == Going(q) && q.Valid()
  {
    EmptyValid();
    NextValid(p, st);
    ExecMore(EMPTY, steps, st);
  }

  /** The list moves to a new array after the snapshot; then its first channel is cancelled, and the call finds it. */
  lemma MovedPanics(u: string) returns (steps: seq<Step>)
    ensures RunOf(steps).Dead? && !CancelledTwice(steps)
  {
    EmptyValid();
    FirstAppend(u, 0);
    var call := Call(u, Slice(0, 1), 0, None, []);
    var one, begun := Single(u, [[0]], 1, []), Single(u, [[0]], 1, [call]);
    var m := Single(u, [[0], [0, 1]], 2, [call]);
    assert [0] + seq(0, _ => 0) == [0];
    assert Begun(one, u) == begun;
    MovedAppend(u, call);
    assert RunOf([]) == Going(EMPTY);
    hide RunOf, Exec, Appended, Begun;
    steps := Then([], EMPTY, Subscribe(u, 0), one);
    steps := Then(steps, one, Begin(u), begun);
    steps := Then(steps, begun, Subscribe(u, 0), m);
    assert m.Unread(0)[0] == 0;
    OverlapPanicsIff(m, 0, 0);
    steps := Interrupt(steps, m, 0, 0);
  }

  lemma MovedAppend(u: string, call: Call)
    ensures Single(u, [[0]], 1, [call]).ArraysOk()
    ensures Appended(Single(u, [[0]], 1, [call]), u, 0) == Single(u, [[0], [0, 1]], 2, [call])
  {
    var m, t := Single(u, [[0]], 1, [call]), Single(u, [[0], [0, 1]], 2, [call]);
    var r := Appended(m, u, 0);
    assert m.List(u) + [1] + seq(0, _ => 0) == [0, 1];
    assert r.arrays == t.arrays && r.subs == t.subs && r.owners == t.owners;
  }

  /** And has sent on it. */
  lemma FirstSent(u: string) returns (steps: seq<Step>, m: Mem)
    ensures m == Single(u, [[0, 1, 2]], 3, [Call(u, Slice(0, 3), 1, None, [] + [0])]) && m.Valid()
    ensures RunOf(steps) == Going(m) && NoCancel(steps)
  {
    var held: Mem;
    steps, held := FirstHeld(u);
    m := Single(u, [[0, 1, 2]], 3, [Call(u, Slice(0, 3), 1, None, [] + [0])]);
    assert Enabled(held, Send(0)) && Sent(held, 0) == Alive(m);
    hide RunOf, Sent, Single, Enabled, Mem.Valid, NoCancel;
    steps := Then(steps, held, Send(0), m);
  }

  lemma SkipAfter(u: string)
    ensures var m := Single(u, [[0, 1, 2]], 3, [Call(u, Slice(0, 3), 1, None, [] + [0])]);
            && m.ArraysOk() && After(m, 0).calls == m.calls && After(m, 0).CallShape(0)
            && After(m, 0).Plan(0) == [0, 2, 2] && !After(m, 0).ClosedAhead(0)
  {
    var m := Single(u, [[0, 1, 2]], 3, [Call(u, Slice(0, 3), 1, None, [] + [0])]);
    assert m.List(u) == [0, 1, 2] && m.List(u)[0] == 0;
    assert Shifted([0, 1, 2], 3, 0) == [1, 2, 2];
    var t := After(m, 0);
    assert t.arrays[0] == [1, 2, 2] && t.closed == {0};
    hide After, Shifted, Position;
    assert t.Unread(0) == [2, 2] == t.Ahead(0);
  }

  /**
   * The first of three is cancelled after the first send: the second is skipped, the third offered the event twice.
   */
  lemma OverlapSkips(u: string) returns (steps: seq<Step>, t: Mem)
    ensures RunOf(steps) == Going(t) && !CancelledTwice(steps)
    ensures |t.calls| > 0 && t.calls[0].offered == [0, 2, 2]
  {
    var sent: Mem;
    steps, sent := FirstSent(u);
    SkipAfter(u);
    hide RunOf, Exec, Mem.Valid, NoCancel, Finish, Mem.Plan;
    var p := After(sent, 0);
    steps := Interrupt(steps, sent, 0, 0);
    FinishIff(p, 0);
    t := RunOf(steps).m;
  }
}
