/** List views of the terminal client: category filters, generated folders and the exchange sorts. */
module Views {
  import opened Sequences

  datatype ItemType = Unspecified | Credential | Text | Binary | Card | Otp

  function Number(t: ItemType): int {
    match t
    case Unspecified => 0
    case Credential => 1
    case Text => 2
    case Binary => 3
    case Card => 4
    case Otp => 5
  }

  /** An item with the flags that are read from its payload. */
  datatype Item = Item(id: string, typ: ItemType, metadata: string, folder: string, favorite: bool, archived: bool,
                       trashed: bool, sshFlag: bool, fileFlag: bool) {
    predicate IsSshKey() { typ.Text? && sshFlag }
    predicate IsFile() { typ.Binary? && fileFlag }
    predicate Active() { !archived && !trashed }
  }

  /** A selectable sidebar entry. */
  datatype Category = Category(types: seq<ItemType>, all: bool, fav: bool, archived: bool, trashed: bool,
                               folder: string, sshKey: bool, isFile: bool)

  const NONE := Category([], false, false, false, false, "", false, false)
  const ALL := NONE.(all := true)
  const FAVORITES := NONE.(fav := true)
  const LOGIN := NONE.(types := [Credential, Otp])
  const CARD := NONE.(types := [Card])
  const IDENTITY := NONE.(types := [Binary])
  const NOTE := NONE.(types := [Text])
  const SSH_KEYS := NONE.(sshKey := true)
  const FILES := NONE.(isFile := true)
  const ARCHIVE := NONE.(archived := true)
  const TRASH := NONE.(trashed := true)

  function FolderCategory(f: string): Category { NONE.(folder := f) }

  /** The decision for one item, in the order of the tests. */
  predicate Shows(c: Category, it: Item) {
    if c.trashed then it.trashed
    else if c.archived then it.archived && !it.trashed
    else if it.archived || it.trashed then false
    else if c.sshKey then it.IsSshKey()
    else if c.isFile then it.IsFile()
    else if c.folder != "" then it.folder == c.folder
    else if c.all then true
    else if c.fav then it.favorite
    else it.typ in c.types && !it.IsFile()
  }

  function View(c: Category, items: seq<Item>): seq<Item> {
    if items == [] then [] else
      var last := items[|items| - 1];
      View(c, items[..|items| - 1]) + if Shows(c, last) then [last] else []
  }

  /** What each fixed entry of the sidebar shows. */
  lemma ShowsExactly(it: Item)
    ensures Shows(TRASH, it) <==> it.trashed
    ensures Shows(ARCHIVE, it) <==> it.archived && !it.trashed
    ensures Shows(ALL, it) <==> !it.archived && !it.trashed
    ensures !it.archived && !it.trashed ==>
              && (Shows(FAVORITES, it) <==> it.favorite)
              && (Shows(LOGIN, it) <==> it.typ == Credential || it.typ == Otp)
              && (Shows(CARD, it) <==> it.typ == Card)
              && (Shows(IDENTITY, it) <==> it.typ == Binary && !it.fileFlag)
              && (Shows(FILES, it) <==> it.typ == Binary && it.fileFlag)
              && (Shows(NOTE, it) <==> it.typ == Text)
              && (Shows(SSH_KEYS, it) <==> it.typ == Text && it.sshFlag)
              && (forall f :: f != "" ==> (Shows(FolderCategory(f), it) <==> it.folder == f))
    ensures it.archived || it.trashed ==>
              forall c :: Shows(c, it) ==> c.trashed || c.archived
  {
  }

  lemma ViewOne(c: Category, it: Item)
    ensures View(c, [it]) == if Shows(c, it) then [it] else []
  {
    hide Shows;
    assert View(c, [it][..0]) == [];
  }

  /** A view goes item by item, in the order of the items. */
  lemma {:induction false} ViewConcat(c: Category, a: seq<Item>, b: seq<Item>)
    ensures View(c, a + b) == View(c, a) + View(c, b)
  {
    hide Shows;
    if b == [] {
      assert a + b == a;
    } else {
      assert (a + b)[..|a + b| - 1] == a + b[..|b| - 1];
      ViewConcat(c, a, b[..|b| - 1]);
    }
  }

  // Sorting by exchange.

  predicate Before(a: seq<int>, b: seq<int>) {
    b != [] && (a == [] || a[0] < b[0] || (a[0] == b[0] && Before(a[1..], b[1..])))
  }

  /** Lexicographic order: the first difference decides, and a proper prefix comes first. */
  ghost predicate Precedes(a: seq<int>, b: seq<int>) {
    exists k: nat :: DiffersAt(a, b, k)
  }

  ghost predicate DiffersAt(a: seq<int>, b: seq<int>, k: nat) {
    k <= |a| && k < |b| && (forall i :: 0 <= i < k ==> a[i] == b[i]) && (k == |a| || a[k] < b[k])
  }

  lemma {:induction false} BeforeIff(a: seq<int>, b: seq<int>)
    ensures Before(a, b) <==> Precedes(a, b)
  {
    if b == [] {
    } else if a == [] || a[0] < b[0] {
      assert DiffersAt(a, b, 0);
    } else if a[0] == b[0] {
      BeforeIff(a[1..], b[1..]);
      if k: nat :| DiffersAt(a[1..], b[1..], k) {
        forall i | 0 <= i < k + 1 ensures a[i] == b[i] { assert i > 0 ==> a[1..][i - 1] == b[1..][i - 1]; }
        assert DiffersAt(a, b, k + 1);
      }
      if k: nat :| DiffersAt(a, b, k) {
        assert k > 0;
        assert DiffersAt(a[1..], b[1..], k - 1);
      }
    } else {
      assert forall k: nat :: DiffersAt(a, b, k) ==> k == 0;
    }
  }

  /** The same for texts, by the codes of their characters. */
  ghost predicate TextPrecedes(a: string, b: string) {
    exists k: nat :: TextDiffersAt(a, b, k)
  }

  ghost predicate TextDiffersAt(a: string, b: string, k: nat) {
    k <= |a| && k < |b| && (forall i :: 0 <= i < k ==> a[i] == b[i]) && (k == |a| || a[k] < b[k])
  }

  lemma TextBeforeIff(a: string, b: string)
    ensures Before(Codes(a), Codes(b)) <==> TextPrecedes(a, b)
  {
    BeforeIff(Codes(a), Codes(b));
    forall k: nat ensures DiffersAt(Codes(a), Codes(b), k) <==> TextDiffersAt(a, b, k) {
      if DiffersAt(Codes(a), Codes(b), k) {
        forall i | 0 <= i < k ensures a[i] == b[i] { assert Codes(a)[i] == Codes(b)[i]; }
      }
    }
  }

  lemma {:induction false} BeforeTransitive(a: seq<int>, b: seq<int>, c: seq<int>)
    requires !Before(b, a) && !Before(c, b)
    ensures !Before(c, a)
  {
    if a != [] && b != [] && c != [] && a[0] == b[0] == c[0] {
      BeforeTransitive(a[1..], b[1..], c[1..]);
    }
  }

  lemma {:induction false} BeforeAsymmetric(a: seq<int>, b: seq<int>)
    requires Before(a, b)
    ensures !Before(b, a)
  {
    if a != [] && a[0] == b[0] {
      BeforeAsymmetric(a[1..], b[1..]);
    }
  }

  lemma {:induction false} BeforeTotal(a: seq<int>, b: seq<int>)
    requires !Before(a, b) && !Before(b, a)
    ensures a == b
  {
    if a != [] {
      BeforeTotal(a[1..], b[1..]);
      assert a == [a[0]] + a[1..] && b == [b[0]] + b[1..];
    }
  }

  /** `x` may stand before `y`. */
  ghost predicate Leq<T>(key: T -> seq<int>, x: T, y: T) { !Before(key(y), key(x)) }

  ghost predicate Sorted<T>(key: T -> seq<int>, s: seq<T>) { forall i, j :: 0 <= i < j < |s| ==> Leq(key, s[i], s[j]) }

  /** The first `i` positions are final: sorted, and nothing after them belongs before them. */
  ghost predicate Final<T>(key: T -> seq<int>, s: seq<T>, i: nat)
    requires i <= |s|
  {
    forall a, b :: 0 <= a < i && a < b < |s| ==> Leq(key, s[a], s[b])
  }

  /** Position `i` holds the least of positions `i` to `j`. */
  ghost predicate Least<T>(key: T -> seq<int>, s: seq<T>, i: nat, j: nat)
    requires i < |s| && j <= |s|
  {
    forall b :: i < b < j ==> Leq(key, s[i], s[b])
  }

  lemma ExchangeStep<T>(key: T -> seq<int>, s: seq<T>, i: nat, j: nat)
    requires i < j < |s| && Final(key, s, i) && Least(key, s, i, j) && Before(key(s[j]), key(s[i]))
    ensures Final(key, Swap(s, i, j), i) && Least(key, Swap(s, i, j), i, j + 1)
  {
    var t := Swap(s, i, j);
    BeforeAsymmetric(key(s[j]), key(s[i]));
    forall b | i < b < j + 1 ensures Leq(key, t[i], t[b]) {
      if b < j {
        assert Leq(key, s[i], s[b]);
        BeforeTransitive(key(s[j]), key(s[i]), key(s[b]));
      }
    }
    forall a, b | 0 <= a < i && a < b < |t| ensures Leq(key, t[a], t[b]) {
      assert Leq(key, s[a], s[b]) && Leq(key, s[a], s[i]) && Leq(key, s[a], s[j]);
    }
  }

  method ExchangeSort<T>(s: seq<T>, key: T -> seq<int>) returns (r: seq<T>)
    ensures Sorted(key, r) && multiset(r) == multiset(s)
  {
    r := s;
    for i := 0 to |r|
      invariant |r| == |s| && multiset(r) == multiset(s) && Final(key, r, i)
    {
      for j := i + 1 to |r|
        invariant |r| == |s| && multiset(r) == multiset(s) && Final(key, r, i) && Least(key, r, i, j)
      {
        if Before(key(r[j]), key(r[i])) {
          ExchangeStep(key, r, i, j);
          SwapMultiset(r, i, j);
          r := Swap(r, i, j);
        }
      }
    }
  }

  // The list.

  datatype SortMode = ServerOrder | ByName | ByTypeAndName

  function Codes(s: string): seq<int> { seq(|s|, i requires 0 <= i < |s| => s[i] as int) }

  /** `lower` is strings.ToLower. */
  function SortKey(mode: SortMode, lower: string -> string): Item -> seq<int> {
    match mode
    case ServerOrder => (it: Item) => []
    case ByName => (it: Item) => Codes(lower(it.metadata))
    case ByTypeAndName => (it: Item) => [Number(it.typ)] + Codes(lower(it.metadata))
  }

  predicate OccursAt(s: string, q: string, i: nat) { i + |q| <= |s| && s[i..i + |q|] == q }

  predicate Contains(s: string, q: string) { exists i :: 0 <= i <= |s| && OccursAt(s, q, i) }

  function Matching(items: seq<Item>, query: string, lower: string -> string): seq<Item> {
    if items == [] then [] else
      var last := items[|items| - 1];
      Matching(items[..|items| - 1], query, lower) +
      if query == "" || Contains(lower(last.metadata), lower(query)) then [last] else []
  }

  lemma {:induction false} NoQuery(items: seq<Item>, lower: string -> string)
    ensures Matching(items, "", lower) == items
  {
    if items != [] {
      NoQuery(items[..|items| - 1], lower);
      assert items == items[..|items| - 1] + [items[|items| - 1]];
    }
  }

  /** An item matches if the lowered query is a part of its lowered name. */
  lemma MatchingOne(it: Item, query: string, lower: string -> string)
    ensures Matching([it], query, lower) ==
            if query == "" || HasPart(lower(it.metadata), lower(query)) then [it] else []
  {
    hide Contains;
    assert Matching([it][..0], query, lower) == [];
    PartIff(lower(it.metadata), lower(query));
  }

  /** Searching goes item by item. */
  lemma {:induction false} MatchingConcat(a: seq<Item>, b: seq<Item>, query: string, lower: string -> string)
    ensures Matching(a + b, query, lower) == Matching(a, query, lower) + Matching(b, query, lower)
  {
    hide Contains;
    if b == [] {
      assert a + b == a;
    } else {
      assert (a + b)[..|a + b| - 1] == a + b[..|b| - 1];
      MatchingConcat(a, b[..|b| - 1], query, lower);
    }
  }

  ghost predicate HasPart(s: string, q: string) { exists a, b :: s == a + q + b }

  lemma PartIff(s: string, q: string)
    ensures Contains(s, q) <==> HasPart(s, q)
  {
    if i :| 0 <= i <= |s| && OccursAt(s, q, i) {
      assert s == s[..i] + q + s[i + |q|..];
    }
    if a, b :| s == a + q + b {
      assert OccursAt(s, q, |a|);
    }
  }

  /** The order of the types. */
  lemma TypeOrder(i: nat)
    requires i < 6
    ensures Number([Unspecified, Credential, Text, Binary, Card, Otp][i]) == i
  {
  }

  /** The order the user sees: by name, or by type and then by name. */
  ghost predicate InShownOrder(mode: SortMode, lower: string -> string, x: Item, y: Item) {
    match mode
    case ServerOrder => true
    case ByName => !TextPrecedes(lower(y.metadata), lower(x.metadata))
    case ByTypeAndName =>
      Number(x.typ) < Number(y.typ) ||
      (Number(x.typ) == Number(y.typ) && !TextPrecedes(lower(y.metadata), lower(x.metadata)))
  }

  lemma KeyOrder(mode: SortMode, lower: string -> string, x: Item, y: Item)
    requires Leq(SortKey(mode, lower), x, y)
    ensures InShownOrder(mode, lower, x, y)
  {
    TextBeforeIff(lower(y.metadata), lower(x.metadata));
    if mode.ByTypeAndName? {
      var a, b := Codes(lower(x.metadata)), Codes(lower(y.metadata));
      assert ([Number(x.typ)] + a)[1..] == a && ([Number(y.typ)] + b)[1..] == b;
    }
  }

  method FilteredItems(items: seq<Item>, c: Category, query: string, mode: SortMode, lower: string -> string)
    returns (r: seq<Item>)
    ensures multiset(r) == multiset(Matching(View(c, items), query, lower))
    ensures mode.ServerOrder? ==> r == Matching(View(c, items), query, lower)
    ensures forall i, j :: 0 <= i < j < |r| ==> InShownOrder(mode, lower, r[i], r[j])
  {
    var base := Collect(items, c);
    if query != "" {
      base := Search(base, query, lower);
    } else {
      NoQuery(base, lower);
    }
    if mode.ServerOrder? {
      r := base;
    } else {
      r := ExchangeSort(base, SortKey(mode, lower));
      forall i, j | 0 <= i < j < |r| ensures InShownOrder(mode, lower, r[i], r[j]) {
        KeyOrder(mode, lower, r[i], r[j]);
      }
    }
  }

  /** The filtering loop, with the source's chain of tests and its inner loop over the types. */
  method Collect(items: seq<Item>, c: Category) returns (base: seq<Item>)
    ensures base == View(c, items)
  {
    base := [];
    for i := 0 to |items|
      invariant base == View(c, items[..i])
    {
      assert items[..i + 1][..i] == items[..i];
      var it := items[i];
      if c.trashed {
        if it.trashed { base := base + [it]; }
      } else if c.archived {
        if it.archived && !it.trashed { base := base + [it]; }
      } else if it.archived || it.trashed {
      } else if c.sshKey {
        if it.IsSshKey() { base := base + [it]; }
      } else if c.isFile {
        if it.IsFile() { base := base + [it]; }
      } else if c.folder != "" {
        if it.folder == c.folder { base := base + [it]; }
      } else if c.all {
        base := base + [it];
      } else if c.fav {
        if it.favorite { base := base + [it]; }
      } else {
        var hit := TypeListed(it, c.types);
        if hit { base := base + [it]; }
      }
    }
    assert items[..|items|] == items;
  }

  method TypeListed(it: Item, types: seq<ItemType>) returns (hit: bool)
    ensures hit <==> it.typ in types && !it.IsFile()
  {
    for k := 0 to |types|
      invariant it.typ !in types[..k]
    {
      if it.typ == types[k] {
        return !(types[k].Binary? && it.IsFile());
      }
    }
    hit := false;
  }

  method Search(items: seq<Item>, query: string, lower: string -> string) returns (r: seq<Item>)
    requires query != ""
    ensures r == Matching(items, query, lower)
  {
    r := [];
    var q := lower(query);
    for i := 0 to |items|
      invariant r == Matching(items[..i], query, lower)
    {
      assert items[..i + 1][..i] == items[..i];
      if Contains(lower(items[i].metadata), q) {
        r := r + [items[i]];
      }
    }
    assert items[..|items|] == items;
  }

  /** What one item contributes to a view. */
  ghost function Share(c: Category, it: Item): multiset<Item> { if Shows(c, it) then multiset{it} else multiset{} }

  lemma ViewStep(c: Category, items: seq<Item>)
    requires items != []
    ensures multiset(View(c, items)) == multiset(View(c, items[..|items| - 1])) + Share(c, items[|items| - 1])
  {
  }

  lemma LastItem(items: seq<Item>)
    requires items != []
    ensures multiset(items) == multiset(items[..|items| - 1]) + multiset{items[|items| - 1]}
  {
    assert items == items[..|items| - 1] + [items[|items| - 1]];
  }

  lemma StatusShares(it: Item)
    ensures Share(TRASH, it) + Share(ARCHIVE, it) + Share(ALL, it) == multiset{it}
  {
  }

  lemma TypeShares(it: Item)
    requires !it.typ.Unspecified?
    ensures Share(LOGIN, it) + Share(CARD, it) + Share(IDENTITY, it) + Share(NOTE, it) + Share(FILES, it) ==
            Share(ALL, it)
  {
  }

  lemma AddParts(a: seq<multiset<Item>>, b: seq<multiset<Item>>)
    requires |a| == 5 == |b|
    ensures (a[0] + b[0]) + (a[1] + b[1]) + (a[2] + b[2]) + (a[3] + b[3]) + (a[4] + b[4])
            == (a[0] + a[1] + a[2] + a[3] + a[4]) + (b[0] + b[1] + b[2] + b[3] + b[4])
  {
  }

  /** Trash, Archive and All split the items: every occurrence is in exactly one of the three. */
  lemma {:induction false} StatusPartition(items: seq<Item>)
    ensures multiset(View(TRASH, items)) + multiset(View(ARCHIVE, items)) + multiset(View(ALL, items)) ==
            multiset(items)
  {
    if items != [] {
      StatusPartition(items[..|items| - 1]);
      LastItem(items);
      ViewStep(TRASH, items);
      ViewStep(ARCHIVE, items);
      ViewStep(ALL, items);
      hide View, Share;
      StatusShares(items[|items| - 1]);
    }
  }

  /** The five type views split the active items, provided their types are set. */
  lemma {:induction false} TypePartition(items: seq<Item>)
    requires forall i :: 0 <= i < |items| ==> !items[i].typ.Unspecified?
    ensures multiset(View(LOGIN, items)) + multiset(View(CARD, items)) + multiset(View(IDENTITY, items))
            + multiset(View(NOTE, items)) + multiset(View(FILES, items)) == multiset(View(ALL, items))
  {
    if items != [] {
      TypePartition(items[..|items| - 1]);
      ViewStep(LOGIN, items);
      ViewStep(CARD, items);
      ViewStep(IDENTITY, items);
      ViewStep(NOTE, items);
      ViewStep(FILES, items);
      ViewStep(ALL, items);
      hide View, Share;
      var front, last := items[..|items| - 1], items[|items| - 1];
      TypeShares(last);
      AddParts([multiset(View(LOGIN, front)), multiset(View(CARD, front)), multiset(View(IDENTITY, front)),
                multiset(View(NOTE, front)), multiset(View(FILES, front))],
               [Share(LOGIN, last), Share(CARD, last), Share(IDENTITY, last), Share(NOTE, last), Share(FILES, last)]);
    }
  }

  // Folders.

  ghost predicate HasFolder(items: seq<Item>, f: string) {
    exists i :: 0 <= i < |items| && items[i].Active() && items[i].folder == f && f != ""
  }

  /** The folder entries of the sidebar: one for each folder of an active item, in strictly ascending order. */
  method Folders(items: seq<Item>) returns (folders: seq<string>)
    ensures forall f :: f in folders <==> HasFolder(items, f)
    ensures forall i, j :: 0 <= i < j < |folders| ==> TextPrecedes(folders[i], folders[j])
  {
    folders := [];
    var seen := {};
    for i := 0 to |items|
      invariant forall f :: f in seen <==> f in folders
      invariant forall f :: f in folders <==> HasFolder(items[..i], f)
      invariant forall a, b :: 0 <= a < b < |folders| ==> folders[a] != folders[b]
    {
      var it := items[i];
      FolderStep(items, i);
      if it.folder != "" && it.folder !in seen && !it.archived && !it.trashed {
        seen := seen + {it.folder};
        folders := folders + [it.folder];
      }
    }
    assert items[..|items|] == items;
    ghost var unsorted := folders;
    folders := ExchangeSort(folders, Codes);
    assert forall f :: f in unsorted <==> f in multiset(unsorted);
    assert forall f :: f in folders <==> f in multiset(folders);
    StrictlySorted(unsorted, folders);
    forall i, j | 0 <= i < j < |folders| ensures TextPrecedes(folders[i], folders[j]) {
      TextBeforeIff(folders[i], folders[j]);
    }
  }

  lemma FolderStep(items: seq<Item>, i: nat)
    requires i < |items|
    ensures forall f :: HasFolder(items[..i + 1], f) <==>
      HasFolder(items[..i], f) || (items[i].Active() && items[i].folder == f && f != "")
  {
    forall f | HasFolder(items[..i], f) ensures HasFolder(items[..i + 1], f) {
      var k :| 0 <= k < i && items[..i][k].Active() && items[..i][k].folder == f;
      assert items[..i + 1][k] == items[..i][k];
    }
    assert items[..i + 1][i] == items[i];
  }

  lemma CodesInjective(a: string, b: string)
    requires Codes(a) == Codes(b)
    ensures a == b
  {
    forall i | 0 <= i < |a| ensures a[i] == b[i] {
      assert Codes(a)[i] == Codes(b)[i];
    }
  }

  /** A sorted arrangement of distinct strings is strictly ascending. */
  lemma StrictlySorted(s: seq<string>, r: seq<string>)
    requires multiset(r) == multiset(s) && Sorted(Codes, r)
    requires forall a, b :: 0 <= a < b < |s| ==> s[a] != s[b]
    ensures forall i, j :: 0 <= i < j < |r| ==> Before(Codes(r[i]), Codes(r[j]))
  {
    forall i, j | 0 <= i < j < |r| ensures Before(Codes(r[i]), Codes(r[j])) {
      assert Leq(Codes, r[i], r[j]);
      if !Before(Codes(r[i]), Codes(r[j])) {
        BeforeTotal(Codes(r[i]), Codes(r[j]));
        CodesInjective(r[i], r[j]);
        TwiceCounted(r, i, j);
        OnceCounted(s, r[i]);
        assert false;
      }
    }
  }

  lemma TwiceCounted(r: seq<string>, i: nat, j: nat)
    requires i < j < |r| && r[i] == r[j]
    ensures multiset(r)[r[i]] >= 2
  {
    assert r == r[..j] + [r[j]] + r[j + 1..];
    assert r[..j][i] == r[i];
  }

  lemma {:induction false} OnceCounted(s: seq<string>, x: string)
    requires forall a, b :: 0 <= a < b < |s| ==> s[a] != s[b]
    ensures multiset(s)[x] <= 1
  {
    if s != [] {
      OnceCounted(s[..|s| - 1], x);
      assert s == s[..|s| - 1] + [s[|s| - 1]];
      if s[|s| - 1] == x {
        assert x !in s[..|s| - 1];
      }
    }
  }

  ghost predicate ShownBy(folders: seq<string>, i: nat, it: Item)
    requires i < |folders|
  {
    Shows(FolderCategory(folders[i]), it)
  }

  /** Exactly one folder entry shows the item. */
  ghost predicate ShownOnce(folders: seq<string>, it: Item) {
    && (exists i: nat :: i < |folders| && ShownBy(folders, i, it))
    && (forall i: nat, j: nat :: i < j < |folders| ==> !(ShownBy(folders, i, it) && ShownBy(folders, j, it)))
  }

  /** Every active item with a folder is shown by exactly one folder entry, and no folder entry shows nothing. */
  lemma FolderViews(items: seq<Item>, folders: seq<string>)
    requires forall f :: f in folders <==> HasFolder(items, f)
    requires forall i, j :: 0 <= i < j < |folders| ==> TextPrecedes(folders[i], folders[j])
    ensures forall k :: 0 <= k < |items| && items[k].Active() && items[k].folder != "" ==> ShownOnce(folders, items[k])
    ensures forall i :: 0 <= i < |folders| ==> View(FolderCategory(folders[i]), items) != []
  {
    forall i | 0 <= i < |folders| ensures folders[i] != "" && View(FolderCategory(folders[i]), items) != [] {
      assert HasFolder(items, folders[i]);
      var k :| 0 <= k < |items| && items[k].Active() && items[k].folder == folders[i];
      Shown(FolderCategory(folders[i]), items, k);
    }
    forall i, j | 0 <= i < j < |folders| ensures folders[i] != folders[j] {
      TextBeforeIff(folders[i], folders[j]);
      BeforeAsymmetric(Codes(folders[i]), Codes(folders[j]));
    }
    forall k | 0 <= k < |items| && items[k].Active() && items[k].folder != "" ensures ShownOnce(folders, items[k]) {
      assert HasFolder(items, items[k].folder);
      var i: nat :| i < |folders| && folders[i] == items[k].folder;
      assert ShownBy(folders, i, items[k]);
    }
  }

  lemma {:induction false} Shown(c: Category, items: seq<Item>, k: nat)
    requires k < |items| && Shows(c, items[k])
    ensures View(c, items) != []
  {
    if k < |items| - 1 {
      Shown(c, items[..|items| - 1], k);
    }
  }
}
