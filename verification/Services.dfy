/** SyncService and VaultService as objects that update their tables in place. */
module Services {
  import opened Results
  import opened Vault
  import opened Sequences
  import Hub

  class SyncService {
    var subscribers: map<string, seq<nat>>
    var channels: seq<Hub.Chan>

    function View(): Hub.State
      reads this
    {
      Hub.State(subscribers, channels)
    }

    constructor ()
      ensures View() == Hub.EMPTY && View().Valid()
    {
      subscribers, channels := map[], [];
    }

    method Subscribe(user: string) returns (ch: nat)
      requires View().Valid()
      modifies this
      ensures ch == |old(channels)| && View() == Hub.Subscribed(old(View()), user) && View().Valid()
      ensures channels == old(channels) + [Hub.Chan(user, true, [])]
      ensures subscribers ==
              old(subscribers)[user := (if user in old(subscribers) then old(subscribers)[user] else []) + [ch]]
    {
      Hub.SubscribeValid(View(), user);
      ch := |channels|;
      var list := if user in subscribers then subscribers[user] else [];
      channels := channels + [Hub.Chan(user, true, [])];
      subscribers := subscribers[user := list + [ch]];
    }

    /** The cleanup function returned by Subscribe. */
    method Cancel(ch: nat) returns (panicked: bool)
      requires View().Valid() && ch < |channels|
      modifies this
      ensures panicked <==> Hub.Cancelled(old(View()), ch).Panicked?
      ensures !panicked ==> Hub.Cancelled(old(View()), ch) == Hub.Running(View()) && View().Valid()
      ensures panicked <==> !old(channels)[ch].open
      ensures !panicked ==>
                var u := old(channels)[ch].user;
                && channels == old(channels)[ch := old(channels)[ch].(open := false)]
                && u in old(subscribers) && ch in old(subscribers)[u]
                && forall i :: 0 <= i < |old(subscribers)[u]| && old(subscribers)[u][i] == ch ==>
                     subscribers == old(subscribers)[u := old(subscribers)[u][..i] + old(subscribers)[u][i + 1..]]
    {
      OpenListed(View(), ch);
      hide Hub.Cancelled, Hub.State.Valid;
      ghost var before := View();
      var user := channels[ch].user;
      var subs := if user in subscribers then subscribers[user] else [];
      var i := 0;
      while i < |subs| && subs[i] != ch
        invariant 0 <= i <= |subs| && ch !in subs[..i]
      {
        i := i + 1;
      }
      if i < |subs| {
        CancelFound(before, ch, i);
        subscribers := subscribers[user := subs[..i] + subs[i + 1..]];
      } else {
        assert subs[..i] == subs && !channels[ch].open;
        CancelAbsent(before, ch);
      }
      panicked := !channels[ch].open;
      if !panicked {
        Hub.CancelValid(before, ch);
        channels := channels[ch := channels[ch].(open := false)];
      }
    }

    /** One step: nothing else touches the object between the snapshot and the last send. */
    method Notify(user: string, e: Hub.Event) returns (panicked: bool)
      requires View().Valid()
      modifies this`channels
      ensures !panicked && Hub.Notified(old(View()), user, e) == Hub.Running(View()) && View().Valid()
      ensures |channels| == |old(channels)|
      ensures forall k :: 0 <= k < |channels| ==>
                var c := old(channels)[k];
                channels[k] == if c.user == user && c.open && |c.buffer| < 32 then c.(buffer := c.buffer + [e]) else c
    {
      Hub.NotifyValid(View(), user, e);
      Hub.NotifyEach(View(), user, e);
      var subs := if user in subscribers then subscribers[user] else [];
      ghost var before := channels;
      assert View().ListOk(user);
      panicked := false;
      for i := 0 to |subs|
        invariant Hub.Broadcast(before, subs[..i], e) == Some(channels) && |channels| == |before|
        invariant !panicked
      {
        PrefixOpen(before, subs, i, e);
        assert subs[..i + 1][..i] == subs[..i];
        var c := channels[subs[i]];
        if !c.open { return true; }
        if |c.buffer| < Hub.CAPACITY {
          channels := channels[subs[i] := c.(buffer := c.buffer + [e])];
        } else {
          assert channels[subs[i] := c] == channels;
        }
      }
      assert subs[..|subs|] == subs;
    }

    /** The subscriber's side: take the oldest buffered event. */
    method Receive(ch: nat) returns (e: Hub.Event)
      requires View().Valid() && Hub.Enabled(View(), Hub.Receive(ch))
      modifies this`channels
      ensures e == old(channels)[ch].buffer[0] && View() == Hub.Received(old(View()), ch) && View().Valid()
      ensures channels == old(channels)[ch := old(channels)[ch].(buffer := old(channels)[ch].buffer[1..])]
    {
      Hub.ReceiveValid(View(), ch);
      e := channels[ch].buffer[0];
      channels := channels[ch := channels[ch].(buffer := channels[ch].buffer[1..])];
    }
  }

  lemma OpenListed(s: Hub.State, ch: nat)
    requires s.Valid() && ch < |s.chans|
    ensures var u := s.chans[ch].user;
            && Distinct(s.Listed(u))
            && (s.chans[ch].open <==> u in s.subs && ch in s.subs[u])
  {
    assert s.ListOk(s.chans[ch].user) && s.ChanOk(ch);
  }

  lemma CancelFound(s: Hub.State, ch: nat, i: nat)
    requires s.Valid() && ch < |s.chans|
    requires i < |s.Listed(s.chans[ch].user)| && s.Listed(s.chans[ch].user)[i] == ch
    ensures var c := s.chans[ch];
            var list := s.Listed(c.user);
            Hub.Cancelled(s, ch) ==
            if c.open then
              Hub.Running(Hub.State(s.subs[c.user := list[..i] + list[i + 1..]], s.chans[ch := c.(open := false)]))
            else Hub.Panicked
  {
    assert s.ListOk(s.chans[ch].user);
    Hub.WithoutAt(s.Listed(s.chans[ch].user), i);
  }

  lemma CancelAbsent(s: Hub.State, ch: nat)
    requires ch < |s.chans| && ch !in s.Listed(s.chans[ch].user)
    ensures var c := s.chans[ch];
            Hub.Cancelled(s, ch) ==
            if c.open then Hub.Running(s.(chans := s.chans[ch := c.(open := false)])) else Hub.Panicked
  {
    var c := s.chans[ch];
    Hub.WithoutAbsent(s.Listed(c.user), ch);
    assert c.user in s.subs ==> s.subs[c.user := s.Listed(c.user)] == s.subs;
  }

  lemma PrefixOpen(chans: seq<Hub.Chan>, ks: seq<nat>, i: nat, e: Hub.Event)
    requires Distinct(ks) && i < |ks|
    requires forall j :: 0 <= j < |ks| ==> ks[j] < |chans| && chans[ks[j]].open
    ensures Hub.Broadcast(chans, ks[..i], e).Some? && Hub.Broadcast(chans, ks[..i], e).value[ks[i]] == chans[ks[i]]
  {
    Hub.BroadcastEach(chans, ks[..i], e);
  }

  class VaultService {
    var rows: Rows
    const sync: SyncService

    constructor (sync: SyncService)
      ensures rows == map[] && this.sync == sync
    {
      rows := map[];
      this.sync := sync;
    }

    /** Publishes `e` after a successful write. */
    ghost predicate Told(before: Hub.State, user: string, e: Hub.Event)
      reads sync
    {
      sync.View().Valid() && Hub.Notified(before, user, e) == Hub.Running(sync.View())
    }

    method Create(id: string, user: string, typ: string, payload: Bytes, metadata: string)
      returns (r: Result<Item, VaultError>)
      requires sync.View().Valid() && id !in rows
      modifies this, sync
      ensures rows == After(old(rows), Vault.Create(id, user, typ, payload, metadata))
      ensures r.Ok? <==> typ in ["credential", "text", "binary", "card", "otp"]
      ensures r.Ok? ==>
                && r.value == Item(user, typ, payload, metadata, 1) && rows == old(rows)[id := r.value]
                && Told(old(sync.View()), user, Hub.Upsert(id, r.value))
      ensures r.Err? ==> r.error == BadType && rows == old(rows) && sync.View() == old(sync.View())
    {
      if !KnownType(typ) { return Err(BadType); }
      var item := Item(user, typ, payload, metadata, 1);
      rows := rows[id := item];
      var _ := sync.Notify(user, Hub.Upsert(id, item));
      r := Ok(item);
    }

    method Update(id: string, user: string, payload: Bytes, metadata: string) returns (r: Result<Item, VaultError>)
      requires sync.View().Valid()
      modifies this, sync
      ensures rows == After(old(rows), Vault.Update(id, user, payload, metadata))
      ensures r.Ok? <==> id in old(rows) && old(rows)[id].user == user
      ensures r.Ok? ==>
                && r.value.payload == payload && r.value.metadata == metadata
                && r.value.version == old(rows)[id].version + 1
                && r.value.user == user && r.value.typ == old(rows)[id].typ
                && rows == old(rows)[id := r.value]
                && Told(old(sync.View()), user, Hub.Upsert(id, r.value))
      ensures r.Err? ==> r.error == NotFound && rows == old(rows) && sync.View() == old(sync.View())
    {
      if id !in rows || rows[id].user != user { return Err(NotFound); }
      var item := rows[id].(payload := payload, metadata := metadata, version := rows[id].version + 1);
      rows := rows[id := item];
      var _ := sync.Notify(user, Hub.Upsert(id, item));
      r := Ok(item);
    }

    method Delete(id: string, user: string) returns (r: Result<(), VaultError>)
      requires sync.View().Valid()
      modifies this, sync
      ensures rows == After(old(rows), Vault.Delete(id, user))
      ensures r.Ok? <==> id in old(rows) && old(rows)[id].user == user
      ensures r.Ok? ==> rows == old(rows) - {id} && Told(old(sync.View()), user, Hub.Removed(id))
      ensures r.Err? ==> r.error == NotFound && rows == old(rows) && sync.View() == old(sync.View())
    {
      if id !in rows || rows[id].user != user { return Err(NotFound); }
      rows := rows - {id};
      var _ := sync.Notify(user, Hub.Removed(id));
      r := Ok(());
    }
  }
}
