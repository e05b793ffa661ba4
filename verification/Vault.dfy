/** Rows of the vault_items table and what their version numbers identify. */
module Vault {
  import opened Results

  datatype Item = Item(user: string, typ: string, payload: Bytes, metadata: string, version: int)

  type Rows = map<string, Item>

  datatype VaultError = NotFound | BadType

  datatype Op =
    | Create(id: string, user: string, typ: string, payload: Bytes, metadata: string)
    | Update(id: string, user: string, payload: Bytes, metadata: string)
    | Delete(id: string, user: string)

  predicate KnownType(typ: string) {
    typ == "credential" || typ == "text" || typ == "binary" || typ == "card" || typ == "otp"
  }

  /** The statement finds its row, or its values satisfy the table's check. */
  predicate Succeeds(rows: Rows, op: Op) {
    match op
    case Create(id, _, typ, _, _) => id !in rows && KnownType(typ)
    case Update(id, user, _, _) => id in rows && rows[id].user == user
    case Delete(id, user) => id in rows && rows[id].user == user
  }

  function After(rows: Rows, op: Op): Rows {
    if !Succeeds(rows, op) then rows else
    match op
    case Create(id, user, typ, payload, metadata) => rows[id := Item(user, typ, payload, metadata, 1)]
    case Update(id, _, payload, metadata) =>
      rows[id := rows[id].(payload := payload, metadata := metadata, version := rows[id].version + 1)]
    case Delete(id, _) => rows - {id}
  }

  /** Rows after the first `n` operations, starting from an empty table. */
  function State(ops: seq<Op>, n: nat): Rows
    requires n <= |ops|
  {
    if n == 0 then map[] else After(State(ops, n - 1), ops[n - 1])
  }

  /** gen_random_uuid never repeats an id. */
  ghost predicate FreshIds(ops: seq<Op>) {
    forall i, j :: 0 <= i < j < |ops| && ops[i].Create? && ops[j].Create? ==> ops[i].id != ops[j].id
  }

  /** Successful updates of `id` among the first `n` operations. */
  ghost function UpdateCount(ops: seq<Op>, n: nat, id: string): nat
    requires n <= |ops|
  {
    if n == 0 then 0 else
      var op := ops[n - 1];
      UpdateCount(ops, n - 1, id) + if op.Update? && op.id == id && Succeeds(State(ops, n - 1), op) then 1 else 0
  }

  ghost predicate CreatedBy(ops: seq<Op>, n: nat, id: string)
    requires n <= |ops|
  {
    exists k :: 0 <= k < n && ops[k].Create? && ops[k].id == id
  }

  lemma {:induction false} LiveWasCreated(ops: seq<Op>, n: nat, id: string)
    requires n <= |ops| && (id in State(ops, n) || UpdateCount(ops, n, id) > 0)
    ensures CreatedBy(ops, n, id)
  {
    if id in State(ops, n - 1) || UpdateCount(ops, n - 1, id) > 0 {
      LiveWasCreated(ops, n - 1, id);
    } else {
      assert ops[n - 1].Create? && ops[n - 1].id == id;
    }
  }

  /** A live item's version is one plus the number of its successful updates. */
  lemma {:induction false} VersionCountsUpdates(ops: seq<Op>, n: nat, id: string)
    requires n <= |ops| && FreshIds(ops) && id in State(ops, n)
    ensures State(ops, n)[id].version == 1 + UpdateCount(ops, n, id)
  {
    if id in State(ops, n - 1) {
      VersionCountsUpdates(ops, n - 1, id);
    } else if UpdateCount(ops, n - 1, id) > 0 {
      LiveWasCreated(ops, n - 1, id);
    }
  }

  lemma StaysLive(ops: seq<Op>, i: nat, j: nat, id: string)
    requires i < j <= |ops| && FreshIds(ops) && id in State(ops, i) && id in State(ops, j)
    ensures id in State(ops, j - 1)
  {
    if id !in State(ops, j - 1) {
      LiveWasCreated(ops, i, id);
    }
  }

  /** (id, version) names one content for ever; owner and type never change; versions never go back. */
  lemma {:induction false} VersionIdentity(ops: seq<Op>, i: nat, j: nat, id: string)
    requires i <= j <= |ops| && FreshIds(ops) && id in State(ops, i) && id in State(ops, j)
    ensures var a, b := State(ops, i)[id], State(ops, j)[id];
            a.user == b.user && a.typ == b.typ && a.version <= b.version && (a.version == b.version ==> a == b)
    decreases j - i
  {
    if i < j {
      StaysLive(ops, i, j, id);
      VersionIdentity(ops, i, j - 1, id);
    }
  }

  // The table read off the history of the operations.

  /** Operation `c` created the id, with a known type, and its owner has not deleted it since. */
  ghost predicate LiveSince(ops: seq<Op>, n: nat, id: string, c: nat) {
    && c < n <= |ops| && ops[c].Create? && ops[c].id == id
    && ops[c].typ in ["credential", "text", "binary", "card", "otp"]
    && forall j :: c < j < n ==> !(ops[j].Delete? && ops[j].id == id && ops[j].user == ops[c].user)
  }

  /** An update of the item that operation `c` created, by its owner. */
  ghost predicate OwnUpdate(ops: seq<Op>, c: nat, j: nat)
    requires c < |ops| && j < |ops|
  {
    c < j && ops[j].Update? && ops[j].id == ops[c].id && ops[j].user == ops[c].user
  }

  ghost predicate LastWrite(ops: seq<Op>, n: nat, c: nat, k: nat)
    requires c < n <= |ops| && k < n
  {
    (k == c || OwnUpdate(ops, c, k)) && forall j: nat :: k < j < n ==> !OwnUpdate(ops, c, j)
  }

  ghost function OwnUpdates(ops: seq<Op>, c: nat, n: nat): nat
    requires c < |ops| && n <= |ops|
  {
    if n == 0 then 0 else OwnUpdates(ops, c, n - 1) + if OwnUpdate(ops, c, n - 1) then 1 else 0
  }

  lemma {:induction false} NoEarlyUpdates(ops: seq<Op>, c: nat, n: nat)
    requires n <= c + 1 && c < |ops|
    ensures OwnUpdates(ops, c, n) == 0
  {
    if n > 0 {
      NoEarlyUpdates(ops, c, n - 1);
    }
  }

  /**
   * A stored row: owner and type are those of its creation, the content is that of the last write by the owner, and the
   * version counts the owner's updates.
   */
  lemma {:induction false} RowHistory(ops: seq<Op>, n: nat, id: string) returns (c: nat, k: nat)
    requires n <= |ops| && FreshIds(ops) && id in State(ops, n)
    ensures LiveSince(ops, n, id, c) && k < n && LastWrite(ops, n, c, k) && (ops[k].Create? || ops[k].Update?)
    ensures var row := State(ops, n)[id];
            && row.user == ops[c].user && row.typ == ops[c].typ
            && row.payload == ops[k].payload && row.metadata == ops[k].metadata
            && row.version == 1 + OwnUpdates(ops, c, n)
  {
    if id in State(ops, n - 1) {
      c, k := RowHistory(ops, n - 1, id);
      if OwnUpdate(ops, c, n - 1) {
        k := n - 1;
      }
    } else {
      c, k := n - 1, n - 1;
      NoEarlyUpdates(ops, c, n);
    }
  }

  lemma {:induction false} Stored(ops: seq<Op>, n: nat, id: string, c: nat)
    requires FreshIds(ops) && LiveSince(ops, n, id, c)
    ensures id in State(ops, n)
    decreases n
  {
    if c == n - 1 {
      if id in State(ops, n - 1) {
        LiveWasCreated(ops, n - 1, id);
      }
    } else {
      Stored(ops, n - 1, id, c);
      var c2, k := RowHistory(ops, n - 1, id);
      assert c2 == c;
    }
  }

  /** An id is stored exactly when it was created and its owner has not deleted it since. */
  lemma StoredIff(ops: seq<Op>, n: nat, id: string)
    requires n <= |ops| && FreshIds(ops)
    ensures id in State(ops, n) <==> exists c: nat :: LiveSince(ops, n, id, c)
  {
    if id in State(ops, n) {
      var c, k := RowHistory(ops, n, id);
    }
    if c: nat :| LiveSince(ops, n, id, c) {
      Stored(ops, n, id, c);
    }
  }
}
