/**
 How a batch of spans, log records or metrics becomes a request: grouped by resource and then
 by instrumentation scope, through one map of resource groups and one map of scope groups
 whose key joins the two identifiers.  `Grouped` says what the grouping is to be, by filters
 on the batch; `Owned` says which labels the joined key really gives to each record.
 */
module OtlpGrouping {
  import opened Common

  type Id = string

  datatype Record = Record(resourceId: Id, scopeId: Id, body: int)

  datatype ScopeGroup = ScopeGroup(scopeId: Id, records: seq<Record>)

  datatype ResourceGroup = ResourceGroup(resourceId: Id, scopes: seq<ScopeGroup>)

  type Request = seq<ResourceGroup>

  /** The key of the map of scope groups. */
  function Key(resourceId: Id, scopeId: Id): string {
    resourceId + "|" + scopeId
  }

  function KeyOf(x: Record): string {
    Key(x.resourceId, x.scopeId)
  }

  /** A record under the labels of the groups it is put in. */
  datatype Item = Item(resourceId: Id, scopeId: Id, record: Record)

  // Grouping by filters ------------------------------------------------------------

  /** The distinct elements in the order of their first occurrence. */
  function Firsts(xs: seq<Id>): seq<Id> {
    if xs == [] then []
    else
      var n, before := |xs| - 1, Firsts(xs[..|xs| - 1]);
      if xs[n] in before then before else before + [xs[n]]
  }

  function ResourceIds(batch: seq<Record>): seq<Id> {
    seq(|batch|, i requires 0 <= i < |batch| => batch[i].resourceId)
  }

  function ScopeIds(items: seq<Item>): seq<Id> {
    Firsts(seq(|items|, i requires 0 <= i < |items| => items[i].scopeId))
  }

  function OfResource(items: seq<Item>, r: Id): seq<Item> {
    if items == [] then []
    else
      var n := |items| - 1;
      OfResource(items[..n], r) + if items[n].resourceId == r then [items[n]] else []
  }

  function OfScope(items: seq<Item>, s: Id): seq<Record> {
    if items == [] then []
    else
      var n := |items| - 1;
      OfScope(items[..n], s) + if items[n].scopeId == s then [items[n].record] else []
  }

  function Scopes(items: seq<Item>): seq<ScopeGroup> {
    var ss := ScopeIds(items);
    seq(|ss|, j requires 0 <= j < |ss| => ScopeGroup(ss[j], OfScope(items, ss[j])))
  }

  function Placed(ids: seq<Id>, items: seq<Item>): Request {
    seq(|ids|, i requires 0 <= i < |ids| => ResourceGroup(ids[i], Scopes(OfResource(items, ids[i]))))
  }

  function Labelled(batch: seq<Record>): seq<Item> {
    seq(|batch|, i requires 0 <= i < |batch| => Item(batch[i].resourceId, batch[i].scopeId, batch[i]))
  }

  /** The stable grouping of a batch by resource and by scope. */
  function Grouped(batch: seq<Record>): Request {
    Placed(Firsts(ResourceIds(batch)), Labelled(batch))
  }

  // The labels that the joined key gives ---------------------------------------------

  function FirstWithKey(batch: seq<Record>, key: string): Option<Record> {
    if batch == [] then None
    else if KeyOf(batch[0]) == key then Some(batch[0])
    else FirstWithKey(batch[1..], key)
  }

  /** A record goes where the first record with its key went. */
  function Owner(before: seq<Record>, x: Record): Item {
    match FirstWithKey(before, KeyOf(x))
    case None => Item(x.resourceId, x.scopeId, x)
    case Some(y) => Item(y.resourceId, y.scopeId, x)
  }

  function Owned(batch: seq<Record>): seq<Item> {
    if batch == [] then []
    else
      var n := |batch| - 1;
      Owned(batch[..n]) + [Owner(batch[..n], batch[n])]
  }

  // Facts about the filters -----------------------------------------------------------

  predicate Distinct(xs: seq<Id>) {
    forall i, j | 0 <= i < j < |xs| :: xs[i] != xs[j]
  }

  lemma {:induction false} FirstsAreDistinct(xs: seq<Id>)
    ensures Distinct(Firsts(xs))
  {
    if xs != [] { FirstsAreDistinct(xs[..|xs| - 1]); }
  }

  lemma {:induction false} InFirstsIff(xs: seq<Id>, x: Id)
    ensures x in Firsts(xs) <==> x in xs
  {
    if xs != [] {
      var n := |xs| - 1;
      InFirstsIff(xs[..n], x);
      assert xs == xs[..n] + [xs[n]];
    }
  }

  lemma OfResourceMore(items: seq<Item>, it: Item, r: Id)
    ensures OfResource(items + [it], r) == if it.resourceId == r then OfResource(items, r) + [it] else OfResource(items, r)
  {
    assert (items + [it])[..|items|] == items;
  }

  lemma OfScopeMore(items: seq<Item>, it: Item, s: Id)
    ensures OfScope(items + [it], s) == if it.scopeId == s then OfScope(items, s) + [it.record] else OfScope(items, s)
  {
    assert (items + [it])[..|items|] == items;
  }

  lemma ScopeIdsMore(items: seq<Item>, it: Item)
    ensures ScopeIds(items + [it]) == if it.scopeId in ScopeIds(items) then ScopeIds(items) else ScopeIds(items) + [it.scopeId]
  {
    var xs := seq(|items|, i requires 0 <= i < |items| => items[i].scopeId);
    var more := items + [it];
    assert seq(|more|, i requires 0 <= i < |more| => more[i].scopeId) == xs + [it.scopeId];
  }

  lemma {:induction false} NoneOfScope(items: seq<Item>, s: Id)
    requires s !in ScopeIds(items)
    ensures OfScope(items, s) == []
  {
    if items != [] {
      var n := |items| - 1;
      assert items == items[..n] + [items[n]];
      ScopeIdsMore(items[..n], items[n]);
      NoneOfScope(items[..n], s);
    }
  }

  lemma {:induction false} NoneOfResource(items: seq<Item>, r: Id)
    requires forall k | 0 <= k < |items| :: items[k].resourceId != r
    ensures OfResource(items, r) == []
  {
    if items != [] { NoneOfResource(items[..|items| - 1], r); }
  }

  lemma ScopesWithNew(items: seq<Item>, it: Item)
    requires it.scopeId !in ScopeIds(items)
    ensures Scopes(items + [it]) == Scopes(items) + [ScopeGroup(it.scopeId, [it.record])]
  {
    ScopeIdsMore(items, it);
    NoneOfScope(items, it.scopeId);
    var ss := ScopeIds(items);
    forall j | 0 <= j <= |ss|
      ensures Scopes(items + [it])[j] == (Scopes(items) + [ScopeGroup(it.scopeId, [it.record])])[j]
    {
      OfScopeMore(items, it, (ss + [it.scopeId])[j]);
    }
  }

  lemma ScopesWithOld(items: seq<Item>, it: Item, j: nat)
    requires j < |ScopeIds(items)| && ScopeIds(items)[j] == it.scopeId
    ensures
      var ss := Scopes(items);
      Scopes(items + [it]) == ss[j := ss[j].(records := ss[j].records + [it.record])]
  {
    ScopeIdsMore(items, it);
    FirstsAreDistinct(seq(|items|, i requires 0 <= i < |items| => items[i].scopeId));
    var ids, ss := ScopeIds(items), Scopes(items);
    forall k | 0 <= k < |ids|
      ensures Scopes(items + [it])[k] == ss[j := ss[j].(records := ss[j].records + [it.record])][k]
    {
      OfScopeMore(items, it, ids[k]);
    }
  }

  function ScopeIdsIn(items: seq<Item>, r: Id): seq<Id> {
    ScopeIds(OfResource(items, r))
  }

  lemma ScopeIdsInMore(items: seq<Item>, it: Item, r: Id)
    ensures
      var ss := ScopeIdsIn(items, r);
      ScopeIdsIn(items + [it], r) ==
        if it.resourceId == r && it.scopeId !in ss then ss + [it.scopeId] else ss
  {
    OfResourceMore(items, it, r);
    if it.resourceId == r { ScopeIdsMore(OfResource(items, r), it); }
  }

  /** One more item changes the group of its resource and no other. */
  lemma PlacedMore(ids: seq<Id>, items: seq<Item>, it: Item, i: nat)
    requires Distinct(ids) && i < |ids| && ids[i] == it.resourceId
    ensures Placed(ids, items + [it])
      == Placed(ids, items)[i := ResourceGroup(ids[i], Scopes(OfResource(items, ids[i]) + [it]))]
  {
    var was := Placed(ids, items);
    forall k | 0 <= k < |ids|
      ensures Placed(ids, items + [it])[k] == was[i := ResourceGroup(ids[i], Scopes(OfResource(items, ids[i]) + [it]))][k]
    {
      OfResourceMore(items, it, ids[k]);
    }
  }

  lemma PlacedWithNewResource(ids: seq<Id>, items: seq<Item>, r: Id)
    requires forall k | 0 <= k < |items| :: items[k].resourceId != r
    ensures Placed(ids + [r], items) == Placed(ids, items) + [ResourceGroup(r, [])]
  {
    NoneOfResource(items, r);
    var more := ids + [r];
    forall k | 0 <= k < |more|
      ensures Placed(more, items)[k] == (Placed(ids, items) + [ResourceGroup(r, [])])[k]
    {}
  }

  // The labels of a growing batch --------------------------------------------------------

  lemma {:induction false} FirstWithKeyMore(batch: seq<Record>, x: Record, key: string)
    ensures
      var y := FirstWithKey(batch, key);
      FirstWithKey(batch + [x], key) == if y.Some? then y else if KeyOf(x) == key then Some(x) else None
  {
    if batch != [] {
      FirstWithKeyMore(batch[1..], x, key);
      assert (batch + [x])[1..] == batch[1..] + [x];
    }
  }

  lemma {:induction false} FirstWithKeyIsIn(batch: seq<Record>, key: string)
    ensures
      var y := FirstWithKey(batch, key);
      y.Some? ==> y.value in batch && KeyOf(y.value) == key
  {
    if batch != [] { FirstWithKeyIsIn(batch[1..], key); }
  }

  lemma {:induction false} OwnedLength(batch: seq<Record>)
    ensures |Owned(batch)| == |batch|
  {
    if batch != [] { OwnedLength(batch[..|batch| - 1]); }
  }

  /** The labels of a record are those of the first record of the batch with its key. */
  lemma {:induction false} OwnersAgree(batch: seq<Record>, k: nat)
    requires k < |batch|
    ensures |Owned(batch)| == |batch|
    ensures
      var y := FirstWithKey(batch, KeyOf(batch[k]));
      y.Some? && Owned(batch)[k] == Item(y.value.resourceId, y.value.scopeId, batch[k])
    decreases |batch|
  {
    var n := |batch| - 1;
    var before, x := batch[..n], batch[n];
    assert batch == before + [x];
    OwnedLength(before);
    FirstWithKeyMore(before, x, KeyOf(batch[k]));
    if k < n { OwnersAgree(before, k); }
  }

  lemma OwnedShape(batch: seq<Record>, k: nat)
    requires k < |batch|
    ensures |Owned(batch)| == |batch|
    ensures Owned(batch)[k].record == batch[k]
    ensures Key(Owned(batch)[k].resourceId, Owned(batch)[k].scopeId) == KeyOf(batch[k])
    ensures exists y | y in batch :: y.resourceId == Owned(batch)[k].resourceId
  {
    OwnersAgree(batch, k);
    FirstWithKeyIsIn(batch, KeyOf(batch[k]));
  }

  lemma OwnedMore(batch: seq<Record>, x: Record)
    ensures Owned(batch + [x]) == Owned(batch) + [Owner(batch, x)]
  {
    assert (batch + [x])[..|batch|] == batch;
  }

  lemma ResourceIdsMore(batch: seq<Record>, x: Record)
    ensures
      var ids := Firsts(ResourceIds(batch));
      Firsts(ResourceIds(batch + [x])) == if x.resourceId in ids then ids else ids + [x.resourceId]
  {
    assert ResourceIds(batch + [x]) == ResourceIds(batch) + [x.resourceId];
  }

  lemma LabelsAreListed(batch: seq<Record>, k: nat)
    requires k < |Owned(batch)|
    ensures Owned(batch)[k].resourceId in Firsts(ResourceIds(batch))
  {
    OwnedLength(batch);
    OwnedShape(batch, k);
    var y :| y in batch && y.resourceId == Owned(batch)[k].resourceId;
    var i :| 0 <= i < |batch| && batch[i] == y;
    assert ResourceIds(batch)[i] == y.resourceId;
    InFirstsIff(ResourceIds(batch), y.resourceId);
  }

  lemma {:induction false} ScopeIdHasItem(items: seq<Item>, r: Id, s: Id)
    requires s in ScopeIdsIn(items, r)
    ensures exists k | 0 <= k < |items| :: items[k].resourceId == r && items[k].scopeId == s
  {
    if items != [] {
      var n := |items| - 1;
      var before := items[..n];
      assert items == before + [items[n]];
      ScopeIdsInMore(before, items[n], r);
      if s in ScopeIdsIn(before, r) {
        ScopeIdHasItem(before, r, s);
        var k :| 0 <= k < |before| && before[k].resourceId == r && before[k].scopeId == s;
        assert items[k] == before[k];
      }
    }
  }

  /** While no record has the key, the resource has no scope group for it. */
  lemma NewKeyIsNewScope(batch: seq<Record>, r: Id, s: Id)
    requires FirstWithKey(batch, Key(r, s)).None?
    ensures s !in ScopeIdsIn(Owned(batch), r)
  {
    if s in ScopeIdsIn(Owned(batch), r) {
      ScopeIdHasItem(Owned(batch), r, s);
      var k :| 0 <= k < |Owned(batch)| && Owned(batch)[k].resourceId == r && Owned(batch)[k].scopeId == s;
      OwnedLength(batch);
      OwnedShape(batch, k);
      KeyIsFound(batch, k);
    }
  }

  lemma {:induction false} KeyIsFound(batch: seq<Record>, k: nat)
    requires k < |batch|
    ensures FirstWithKey(batch, KeyOf(batch[k])).Some?
  {
    if k > 0 { KeyIsFound(batch[1..], k - 1); }
  }

  // The conversion ---------------------------------------------------------------------------

  ghost predicate ResourcesAt(ids: seq<Id>, resourceAt: map<Id, nat>) {
    && Distinct(ids)
    && (forall r | r in ids :: r in resourceAt)
    && (forall r | r in resourceAt :: resourceAt[r] < |ids| && ids[resourceAt[r]] == r)
  }

  /** `at` is the place of the scope group of `y`. */
  predicate ScopeIsAt(ids: seq<Id>, items: seq<Item>, at: (nat, nat), y: Record) {
    && at.0 < |ids| && ids[at.0] == y.resourceId
    && at.1 < |ScopeIdsIn(items, y.resourceId)| && ScopeIdsIn(items, y.resourceId)[at.1] == y.scopeId
  }

  predicate KeyAt(batch: seq<Record>, ids: seq<Id>, items: seq<Item>, scopeAt: map<string, (nat, nat)>, c: string) {
    match FirstWithKey(batch, c)
    case None => c !in scopeAt
    case Some(y) => c in scopeAt && ScopeIsAt(ids, items, scopeAt[c], y)
  }

  ghost predicate ScopesAt(batch: seq<Record>, ids: seq<Id>, items: seq<Item>, scopeAt: map<string, (nat, nat)>) {
    forall c {:trigger KeyAt(batch, ids, items, scopeAt, c)} :: KeyAt(batch, ids, items, scopeAt, c)
  }

  lemma GrowingKeepsScopes(batch: seq<Record>, ids: seq<Id>, r: Id, scopeAt: map<string, (nat, nat)>)
    requires ScopesAt(batch, ids, Owned(batch), scopeAt)
    ensures ScopesAt(batch, ids + [r], Owned(batch), scopeAt)
  {
    forall c
      ensures KeyAt(batch, ids + [r], Owned(batch), scopeAt, c)
    {
      assert KeyAt(batch, ids, Owned(batch), scopeAt, c);
    }
  }

  /** After a record is placed, every key points where it did, and the key of the record to its group. */
  lemma PlacingKeepsScopes(batch: seq<Record>, x: Record, ids: seq<Id>, scopeAt: map<string, (nat, nat)>, at: (nat, nat))
    requires ScopesAt(batch, ids, Owned(batch), scopeAt)
    requires
      var it := Owner(batch, x);
      ScopeIsAt(ids, Owned(batch + [x]), at, Record(it.resourceId, it.scopeId, x.body))
    requires KeyOf(x) in scopeAt ==> scopeAt[KeyOf(x)] == at
    ensures ScopesAt(batch + [x], ids, Owned(batch + [x]), scopeAt[KeyOf(x) := at])
  {
    OwnedMore(batch, x);
    var it := Owner(batch, x);
    var more, items, now := batch + [x], Owned(batch + [x]), scopeAt[KeyOf(x) := at];
    forall c
      ensures KeyAt(more, ids, items, now, c)
    {
      assert KeyAt(batch, ids, Owned(batch), scopeAt, c);
      FirstWithKeyMore(batch, x, c);
      match FirstWithKey(batch, c)
      case None =>
      case Some(y) =>
        ScopeIdsInMore(Owned(batch), it, y.resourceId);
    }
  }

  function AddScope(request: Request, i: nat, s: Id): Request
    requires i < |request|
  {
    request[i := request[i].(scopes := request[i].scopes + [ScopeGroup(s, [])])]
  }

  function AddRecord(request: Request, at: (nat, nat), x: Record): Request
    requires at.0 < |request| && at.1 < |request[at.0].scopes|
  {
    var scopes := request[at.0].scopes;
    request[at.0 := request[at.0].(scopes :=
      scopes[at.1 := scopes[at.1].(records := scopes[at.1].records + [x])])]
  }

  lemma RecordInNewScope(batch: seq<Record>, x: Record, ids: seq<Id>, i: nat)
    requires Distinct(ids) && i < |ids| && ids[i] == x.resourceId
    requires FirstWithKey(batch, KeyOf(x)).None?
    ensures
      var request := Placed(ids, Owned(batch));
      var at := (i, |request[i].scopes|);
      && AddRecord(AddScope(request, i, x.scopeId), at, x) == Placed(ids, Owned(batch + [x]))
      && ScopeIsAt(ids, Owned(batch + [x]), at, x)
  {
    var items, it := Owned(batch), Owner(batch, x);
    OwnedMore(batch, x);
    NewKeyIsNewScope(batch, x.resourceId, x.scopeId);
    PlacedMore(ids, items, it, i);
    ScopesWithNew(OfResource(items, ids[i]), it);
    ScopeIdsInMore(items, it, x.resourceId);
    AddScopeThenRecord(Placed(ids, items), i, x);
  }

  lemma AddScopeThenRecord(request: Request, i: nat, x: Record)
    requires i < |request|
    ensures
      var scopes := request[i].scopes;
      AddRecord(AddScope(request, i, x.scopeId), (i, |scopes|), x)
        == request[i := ResourceGroup(request[i].resourceId, scopes + [ScopeGroup(x.scopeId, [x])])]
  {
    var scopes := request[i].scopes;
    var extended := scopes + [ScopeGroup(x.scopeId, [])];
    assert [] + [x] == [x];
    assert extended[|scopes| := ScopeGroup(x.scopeId, [x])] == scopes + [ScopeGroup(x.scopeId, [x])];
  }

  lemma RecordInOldScope(batch: seq<Record>, x: Record, ids: seq<Id>, at: (nat, nat))
    requires Distinct(ids) && FirstWithKey(batch, KeyOf(x)).Some?
    requires ScopeIsAt(ids, Owned(batch), at, FirstWithKey(batch, KeyOf(x)).value)
    ensures
      var request := Placed(ids, Owned(batch));
      && AddRecord(request, at, x) == Placed(ids, Owned(batch + [x]))
      && ScopeIsAt(ids, Owned(batch + [x]), at, FirstWithKey(batch, KeyOf(x)).value)
  {
    var items, it := Owned(batch), Owner(batch, x);
    OwnedMore(batch, x);
    PlacedMore(ids, items, it, at.0);
    ScopesWithOld(OfResource(items, ids[at.0]), it, at.1);
    ScopeIdsInMore(items, it, it.resourceId);
  }

  ghost predicate Converting(batch: seq<Record>, request: Request, resourceAt: map<Id, nat>, scopeAt: map<string, (nat, nat)>) {
    var ids := Firsts(ResourceIds(batch));
    && request == Placed(ids, Owned(batch))
    && ResourcesAt(ids, resourceAt)
    && ScopesAt(batch, ids, Owned(batch), scopeAt)
  }

  lemma NothingConverted(batch: seq<Record>, resourceAt: map<Id, nat>, scopeAt: map<string, (nat, nat)>)
    requires batch == [] && resourceAt == map[] && scopeAt == map[]
    ensures Converting(batch, [], resourceAt, scopeAt)
  {
    var ids := Firsts(ResourceIds(batch));
    forall c
      ensures KeyAt(batch, ids, Owned(batch), scopeAt, c)
    {}
  }

  /** The first half of a turn finds or adds the resource group. */
  lemma ResourceStep(batch: seq<Record>, x: Record, request: Request, resourceAt: map<Id, nat>, scopeAt: map<string, (nat, nat)>)
    requires Converting(batch, request, resourceAt, scopeAt)
    ensures
      var ids, more := Firsts(ResourceIds(batch)), Firsts(ResourceIds(batch + [x]));
      if x.resourceId in resourceAt then
        more == ids
      else
        && request + [ResourceGroup(x.resourceId, [])] == Placed(more, Owned(batch))
        && ResourcesAt(more, resourceAt[x.resourceId := |request|])
        && ScopesAt(batch, more, Owned(batch), scopeAt)
  {
    var ids, r := Firsts(ResourceIds(batch)), x.resourceId;
    ResourceIdsMore(batch, x);
    if r !in resourceAt {
      NewResourceIsEmpty(batch, ids, r);
      GrowingKeepsResources(ids, r, resourceAt);
      GrowingKeepsScopes(batch, ids, r, scopeAt);
    }
  }

  lemma NewResourceIsEmpty(batch: seq<Record>, ids: seq<Id>, r: Id)
    requires ids == Firsts(ResourceIds(batch)) && r !in ids
    ensures Placed(ids + [r], Owned(batch)) == Placed(ids, Owned(batch)) + [ResourceGroup(r, [])]
  {
    forall k | 0 <= k < |Owned(batch)|
      ensures Owned(batch)[k].resourceId != r
    {
      LabelsAreListed(batch, k);
    }
    PlacedWithNewResource(ids, Owned(batch), r);
  }

  lemma GrowingKeepsResources(ids: seq<Id>, r: Id, resourceAt: map<Id, nat>)
    requires ResourcesAt(ids, resourceAt) && r !in ids
    ensures ResourcesAt(ids + [r], resourceAt[r := |ids|])
  {}

  /** The second half adds the scope group or finds it, and puts the record there. */
  lemma NewScopeStep(batch: seq<Record>, x: Record, ids: seq<Id>, i: nat, scopeAt: map<string, (nat, nat)>)
    requires Distinct(ids) && i < |ids| && ids[i] == x.resourceId
    requires ScopesAt(batch, ids, Owned(batch), scopeAt)
    requires KeyOf(x) !in scopeAt
    ensures
      var request := Placed(ids, Owned(batch));
      var at := (i, |request[i].scopes|);
      && AddRecord(AddScope(request, i, x.scopeId), at, x) == Placed(ids, Owned(batch + [x]))
      && ScopesAt(batch + [x], ids, Owned(batch + [x]), scopeAt[KeyOf(x) := at])
  {
    var request := Placed(ids, Owned(batch));
    assert KeyAt(batch, ids, Owned(batch), scopeAt, KeyOf(x));
    RecordInNewScope(batch, x, ids, i);
    PlacingKeepsScopes(batch, x, ids, scopeAt, (i, |request[i].scopes|));
  }

  lemma OldScopeStep(batch: seq<Record>, x: Record, ids: seq<Id>, scopeAt: map<string, (nat, nat)>)
    requires Distinct(ids)
    requires ScopesAt(batch, ids, Owned(batch), scopeAt)
    requires KeyOf(x) in scopeAt
    ensures
      var request, at := Placed(ids, Owned(batch)), scopeAt[KeyOf(x)];
      && at.0 < |request| && at.1 < |request[at.0].scopes|
      && AddRecord(request, at, x) == Placed(ids, Owned(batch + [x]))
      && ScopesAt(batch + [x], ids, Owned(batch + [x]), scopeAt)
  {
    var at := scopeAt[KeyOf(x)];
    assert KeyAt(batch, ids, Owned(batch), scopeAt, KeyOf(x));
    RecordInOldScope(batch, x, ids, at);
    PlacingKeepsScopes(batch, x, ids, scopeAt, at);
    assert scopeAt[KeyOf(x) := at] == scopeAt;
  }

  /** The request groups the records by resource and scope, under the labels that the keys give them. */
  method Convert(batch: seq<Record>) returns (request: Request)
    ensures request == Placed(Firsts(ResourceIds(batch)), Owned(batch))
  {
    request := [];
    var resourceAt: map<Id, nat>, scopeAt: map<string, (nat, nat)> := map[], map[];
    NothingConverted(batch[..0], resourceAt, scopeAt);
    for n := 0 to |batch|
      invariant Converting(batch[..n], request, resourceAt, scopeAt)
    {
      var x := batch[n];
      ghost var done := batch[..n];
      assert batch[..n + 1] == done + [x];
      ResourceStep(done, x, request, resourceAt, scopeAt);
      var i: nat;
      if x.resourceId !in resourceAt {
        i := |request|;
        request := request + [ResourceGroup(x.resourceId, [])];
        resourceAt := resourceAt[x.resourceId := i];
      } else {
        i := resourceAt[x.resourceId];
      }
      ghost var ids := Firsts(ResourceIds(done + [x]));
      var key := Key(x.resourceId, x.scopeId);
      var at: (nat, nat);
      if key !in scopeAt {
        NewScopeStep(done, x, ids, i, scopeAt);
        at := (i, |request[i].scopes|);
        request := AddScope(request, i, x.scopeId);
        scopeAt := scopeAt[key := at];
      } else {
        OldScopeStep(done, x, ids, scopeAt);
        at := scopeAt[key];
      }
      request := AddRecord(request, at, x);
    }
    assert batch[..|batch|] == batch;
  }

  // When the conversion is the stable grouping --------------------------------------------------

  /** Records whose keys are equal have equal identifiers. */
  ghost predicate NoClash(batch: seq<Record>) {
    forall x, y | x in batch && y in batch && KeyOf(x) == KeyOf(y) ::
      x.resourceId == y.resourceId && x.scopeId == y.scopeId
  }

  lemma {:induction false} NoClashKeepsLabels(batch: seq<Record>)
    requires NoClash(batch)
    ensures Owned(batch) == Labelled(batch)
  {
    if batch != [] {
      var n := |batch| - 1;
      var before, x := batch[..n], batch[n];
      assert batch == before + [x];
      NoClashKeepsLabels(before);
      FirstWithKeyIsIn(before, KeyOf(x));
      assert Labelled(batch) == Labelled(before) + [Item(x.resourceId, x.scopeId, x)];
    }
  }

  /** In the stable grouping every record is under its own labels. */
  ghost predicate WellPlaced(request: Request) {
    forall i, j, k {:trigger request[i].scopes[j].records[k]}
      | 0 <= i < |request| && 0 <= j < |request[i].scopes| && 0 <= k < |request[i].scopes[j].records| ::
      IsUnder(request[i].scopes[j].records[k], request[i].resourceId, request[i].scopes[j].scopeId)
  }

  predicate IsUnder(x: Record, r: Id, s: Id) {
    x.resourceId == r && x.scopeId == s
  }

  lemma {:induction false} OfScopeIff(items: seq<Item>, s: Id, x: Record)
    ensures x in OfScope(items, s) <==> exists it | it in items :: it.scopeId == s && it.record == x
  {
    if items != [] {
      var n := |items| - 1;
      OfScopeIff(items[..n], s, x);
      assert items == items[..n] + [items[n]];
    }
  }

  lemma {:induction false} OfResourceIff(items: seq<Item>, r: Id, it: Item)
    ensures it in OfResource(items, r) <==> it in items && it.resourceId == r
  {
    if items != [] {
      var n := |items| - 1;
      OfResourceIff(items[..n], r, it);
      assert items == items[..n] + [items[n]];
    }
  }

  lemma GroupedIsWellPlaced(batch: seq<Record>)
    ensures WellPlaced(Grouped(batch))
  {
    var request := Grouped(batch);
    forall i, j, k | 0 <= i < |request| && 0 <= j < |request[i].scopes| && 0 <= k < |request[i].scopes[j].records|
      ensures IsUnder(request[i].scopes[j].records[k], request[i].resourceId, request[i].scopes[j].scopeId)
    {
      var r, s, x := request[i].resourceId, request[i].scopes[j].scopeId, request[i].scopes[j].records[k];
      var items := OfResource(Labelled(batch), r);
      OfScopeIff(items, s, x);
      var it :| it in items && it.scopeId == s && it.record == x;
      OfResourceIff(Labelled(batch), r, it);
    }
  }

  lemma {:induction false} ScopeIsListed(items: seq<Item>, it: Item)
    requires it in items
    ensures it.scopeId in ScopeIds(items)
  {
    var n := |items| - 1;
    var before := items[..n];
    assert items == before + [items[n]];
    ScopeIdsMore(before, items[n]);
    if it in before { ScopeIsListed(before, it); }
  }

  /** Every item stands in the group of its labels. */
  lemma ItemIsPlaced(ids: seq<Id>, items: seq<Item>, it: Item) returns (i: nat, j: nat, k: nat)
    requires it in items && it.resourceId in ids
    ensures
      var request := Placed(ids, items);
      && i < |request| && j < |request[i].scopes| && k < |request[i].scopes[j].records|
      && request[i].resourceId == it.resourceId
      && request[i].scopes[j].scopeId == it.scopeId
      && request[i].scopes[j].records[k] == it.record
  {
    i :| 0 <= i < |ids| && ids[i] == it.resourceId;
    var mine := OfResource(items, it.resourceId);
    OfResourceIff(items, it.resourceId, it);
    ScopeIsListed(mine, it);
    j :| 0 <= j < |ScopeIds(mine)| && ScopeIds(mine)[j] == it.scopeId;
    OfScopeIff(mine, it.scopeId, it.record);
    k :| 0 <= k < |OfScope(mine, it.scopeId)| && OfScope(mine, it.scopeId)[k] == it.record;
  }

  lemma WellPlacedHasNoClash(batch: seq<Record>, x: Record)
    requires WellPlaced(Placed(Firsts(ResourceIds(batch)), Owned(batch)))
    requires x in batch
    ensures
      var y := FirstWithKey(batch, KeyOf(x));
      y.Some? && IsUnder(x, y.value.resourceId, y.value.scopeId)
  {
    var ids := Firsts(ResourceIds(batch));
    var request := Placed(ids, Owned(batch));
    var n :| 0 <= n < |batch| && batch[n] == x;
    OwnedLength(batch);
    OwnersAgree(batch, n);
    LabelsAreListed(batch, n);
    var i, j, k := ItemIsPlaced(ids, Owned(batch), Owned(batch)[n]);
    assert IsUnder(request[i].scopes[j].records[k], request[i].resourceId, request[i].scopes[j].scopeId);
  }

  /** The conversion is the stable grouping exactly for the batches whose keys do not clash. */
  lemma ConvertGroupsIff(batch: seq<Record>)
    ensures Placed(Firsts(ResourceIds(batch)), Owned(batch)) == Grouped(batch) <==>
      forall x, y | x in batch && y in batch && x.resourceId + "|" + x.scopeId == y.resourceId + "|" + y.scopeId ::
        x.resourceId == y.resourceId && x.scopeId == y.scopeId
  {
    if NoClash(batch) { NoClashKeepsLabels(batch); }
    if Placed(Firsts(ResourceIds(batch)), Owned(batch)) == Grouped(batch) {
      GroupedIsWellPlaced(batch);
      forall x, y | x in batch && y in batch && KeyOf(x) == KeyOf(y)
        ensures x.resourceId == y.resourceId && x.scopeId == y.scopeId
      {
        WellPlacedHasNoClash(batch, x);
        WellPlacedHasNoClash(batch, y);
      }
    }
  }

  /** No identifier of a resource in the batch begins with that of another. */
  ghost predicate PrefixFree(batch: seq<Record>) {
    forall x, y | x in batch && y in batch && x.resourceId <= y.resourceId :: x.resourceId == y.resourceId
  }

  lemma PrefixFreeHasNoClash(batch: seq<Record>)
    requires PrefixFree(batch)
    ensures NoClash(batch)
  {
    forall x, y | x in batch && y in batch && KeyOf(x) == KeyOf(y)
      ensures x.resourceId == y.resourceId && x.scopeId == y.scopeId
    {
      KeysAreSplitAtOnePlace(x, y);
    }
  }

  lemma KeysAreSplitAtOnePlace(x: Record, y: Record)
    requires KeyOf(x) == KeyOf(y)
    ensures x.resourceId <= y.resourceId || y.resourceId <= x.resourceId
    ensures x.resourceId == y.resourceId ==> x.scopeId == y.scopeId
  {
    var c := KeyOf(x);
    assert c[..|x.resourceId|] == x.resourceId && c[..|y.resourceId|] == y.resourceId;
    assert c[|x.resourceId| + 1..] == x.scopeId && c[|y.resourceId| + 1..] == y.scopeId;
    if |x.resourceId| <= |y.resourceId| {
      assert y.resourceId[..|x.resourceId|] == x.resourceId;
    } else {
      assert x.resourceId[..|y.resourceId|] == y.resourceId;
    }
  }

  /** A group of the stable grouping holds the records of the batch with its labels, in batch order. */
  function Matching(batch: seq<Record>, r: Id, s: Id): seq<Record> {
    if batch == [] then []
    else
      var n := |batch| - 1;
      Matching(batch[..n], r, s) + if IsUnder(batch[n], r, s) then [batch[n]] else []
  }

  lemma {:induction false} GroupHoldsMatching(batch: seq<Record>, r: Id, s: Id)
    ensures OfScope(OfResource(Labelled(batch), r), s) == Matching(batch, r, s)
  {
    if batch != [] {
      var n := |batch| - 1;
      var before, x := batch[..n], batch[n];
      GroupHoldsMatching(before, r, s);
      var it := Item(x.resourceId, x.scopeId, x);
      assert Labelled(batch) == Labelled(before) + [it];
      OfResourceMore(Labelled(before), it, r);
      OfScopeMore(OfResource(Labelled(before), r), it, s);
    }
  }

  // The stable grouping by positions in the batch ---------------------------------------------------

  lemma {:induction false} MatchingPositions(batch: seq<Record>, r: Id, s: Id) returns (ps: seq<nat>)
    ensures forall a, b | 0 <= a < b < |ps| :: ps[a] < ps[b]
    ensures forall p | p in ps :: p < |batch| && batch[p].resourceId == r && batch[p].scopeId == s
    ensures forall p | 0 <= p < |batch| && batch[p].resourceId == r && batch[p].scopeId == s :: p in ps
    ensures |Matching(batch, r, s)| == |ps|
    ensures forall a | 0 <= a < |ps| :: ps[a] < |batch| && Matching(batch, r, s)[a] == batch[ps[a]]
  {
    ps := [];
    if batch != [] {
      var n := |batch| - 1;
      ps := MatchingPositions(batch[..n], r, s);
      if IsUnder(batch[n], r, s) { ps := ps + [n]; }
    }
  }

  /** A group holds exactly the records of the batch with its two identifiers, in batch order. */
  lemma GroupIsInBatchOrder(batch: seq<Record>, i: nat, j: nat) returns (ps: seq<nat>)
    requires i < |Grouped(batch)| && j < |Grouped(batch)[i].scopes|
    ensures forall a, b | 0 <= a < b < |ps| :: ps[a] < ps[b]
    ensures
      var r, group := Grouped(batch)[i].resourceId, Grouped(batch)[i].scopes[j];
      && (forall p | p in ps :: p < |batch| && batch[p].resourceId == r && batch[p].scopeId == group.scopeId)
      && (forall p | 0 <= p < |batch| && batch[p].resourceId == r && batch[p].scopeId == group.scopeId :: p in ps)
      && |group.records| == |ps| && (forall a | 0 <= a < |ps| :: ps[a] < |batch| && group.records[a] == batch[ps[a]])
  {
    var r, s := Grouped(batch)[i].resourceId, Grouped(batch)[i].scopes[j].scopeId;
    GroupHoldsMatching(batch, r, s);
    ps := MatchingPositions(batch, r, s);
  }

  lemma {:induction false} FirstsInOrder(xs: seq<Id>, a: nat, b: nat) returns (p: nat)
    requires a < b < |Firsts(xs)|
    ensures p < |xs| && xs[p] == Firsts(xs)[a] && Firsts(xs)[b] !in xs[..p + 1]
  {
    var n := |xs| - 1;
    var before := Firsts(xs[..n]);
    if b < |before| {
      p := FirstsInOrder(xs[..n], a, b);
      assert xs[..n][..p + 1] == xs[..p + 1];
    } else {
      InFirstsIff(xs[..n], before[a]);
      InFirstsIff(xs[..n], xs[n]);
      p :| 0 <= p < n && xs[..n][p] == before[a];
      assert forall x | x in xs[..p + 1] :: x in xs[..n];
    }
  }

  /** Every record has its group. */
  lemma EveryRecordHasGroup(batch: seq<Record>, p: nat) returns (i: nat, j: nat)
    requires p < |batch|
    ensures
      var request := Grouped(batch);
      && i < |request| && j < |request[i].scopes|
      && request[i].resourceId == batch[p].resourceId && request[i].scopes[j].scopeId == batch[p].scopeId
  {
    var ids := Firsts(ResourceIds(batch));
    assert ResourceIds(batch)[p] == batch[p].resourceId;
    InFirstsIff(ResourceIds(batch), batch[p].resourceId);
    assert Labelled(batch)[p] in Labelled(batch);
    var k: nat;
    i, j, k := ItemIsPlaced(ids, Labelled(batch), Labelled(batch)[p]);
  }

  /** Resources stand in the order in which they first occur: some record of the one comes before all of the other. */
  lemma ResourcesInOrder(batch: seq<Record>, a: nat, b: nat) returns (p: nat)
    requires a < b < |Grouped(batch)|
    ensures p < |batch| && batch[p].resourceId == Grouped(batch)[a].resourceId
    ensures forall q | 0 <= q <= p :: batch[q].resourceId != Grouped(batch)[b].resourceId
  {
    var ids := ResourceIds(batch);
    p := FirstsInOrder(ids, a, b);
    forall q | 0 <= q <= p
      ensures batch[q].resourceId != Grouped(batch)[b].resourceId
    {
      assert ids[..p + 1][q] == batch[q].resourceId;
    }
  }

  /** So do the scopes of one resource. */
  lemma ScopesInOrder(batch: seq<Record>, i: nat, a: nat, b: nat) returns (p: nat)
    requires i < |Grouped(batch)| && a < b < |Grouped(batch)[i].scopes|
    ensures
      var r, ss := Grouped(batch)[i].resourceId, Grouped(batch)[i].scopes;
      && p < |batch| && batch[p].resourceId == r && batch[p].scopeId == ss[a].scopeId
      && forall q | 0 <= q <= p && batch[q].resourceId == r :: batch[q].scopeId != ss[b].scopeId
  {
    p := ScopeIdsInOrder(batch, Grouped(batch)[i].resourceId, a, b);
  }

  /** Scope s of resource r occurs at p, and scope u of that resource not until then. */
  ghost predicate ComesFirst(batch: seq<Record>, r: Id, s: Id, u: Id, p: nat) {
    && p < |batch| && batch[p].resourceId == r && batch[p].scopeId == s
    && forall q | 0 <= q <= p && batch[q].resourceId == r :: batch[q].scopeId != u
  }

  lemma ListedComesFirst(batch: seq<Record>, r: Id, s: Id, u: Id) returns (p: nat)
    requires s in ScopeIdsIn(Labelled(batch), r) && u !in ScopeIdsIn(Labelled(batch), r)
    ensures ComesFirst(batch, r, s, u, p)
  {
    ScopeIdHasItem(Labelled(batch), r, s);
    p :| 0 <= p < |batch| && Labelled(batch)[p].resourceId == r && Labelled(batch)[p].scopeId == s;
    forall q | 0 <= q <= p && batch[q].resourceId == r
      ensures batch[q].scopeId != u
    {
      ItsScopeIsListed(batch, q);
    }
  }

  lemma {:induction false} ScopeIdsInOrder(batch: seq<Record>, r: Id, a: nat, b: nat) returns (p: nat)
    requires a < b < |ScopeIdsIn(Labelled(batch), r)|
    ensures ComesFirst(batch, r, ScopeIdsIn(Labelled(batch), r)[a], ScopeIdsIn(Labelled(batch), r)[b], p)
    decreases |batch|
  {
    var n := |batch| - 1;
    var before, x := batch[..n], batch[n];
    var was := ScopeIdsIn(Labelled(before), r);
    var it := Item(x.resourceId, x.scopeId, x);
    assert Labelled(batch) == Labelled(before) + [it];
    ScopeIdsInMore(Labelled(before), it, r);
    if b < |was| {
      p := ScopeIdsInOrder(before, r, a, b);
    } else {
      p := ListedComesFirst(before, r, was[a], x.scopeId);
    }
    assert forall q | 0 <= q <= p :: before[q] == batch[q];
  }

  lemma ItsScopeIsListed(batch: seq<Record>, q: nat)
    requires q < |batch|
    ensures batch[q].scopeId in ScopeIdsIn(Labelled(batch), batch[q].resourceId)
  {
    var it := Labelled(batch)[q];
    assert it in Labelled(batch);
    OfResourceIff(Labelled(batch), it.resourceId, it);
    ScopeIsListed(OfResource(Labelled(batch), it.resourceId), it);
  }

  // Nothing is lost or doubled, clash or not ------------------------------------------------------

  function FlatScopes(scopes: seq<ScopeGroup>): seq<Record> {
    if scopes == [] then [] else scopes[0].records + FlatScopes(scopes[1..])
  }

  function Flat(request: Request): seq<Record> {
    if request == [] then [] else FlatScopes(request[0].scopes) + Flat(request[1..])
  }

  lemma {:induction false} FlatScopesMore(scopes: seq<ScopeGroup>, j: nat, x: Record)
    requires j < |scopes|
    ensures multiset(FlatScopes(scopes[j := scopes[j].(records := scopes[j].records + [x])]))
      == multiset(FlatScopes(scopes)) + multiset{x}
  {
    var group := scopes[j].(records := scopes[j].records + [x]);
    var more := scopes[j := group];
    var rest := scopes[1..];
    if j == 0 {
      assert more[1..] == rest;
      OneMoreBefore(scopes[0].records, x, FlatScopes(rest));
    } else {
      FlatScopesMore(rest, j - 1, x);
      assert more[1..] == rest[j - 1 := group];
      OneMoreAfter(scopes[0].records, x, FlatScopes(rest), FlatScopes(more[1..]));
    }
  }

  lemma OneMoreBefore(a: seq<Record>, x: Record, b: seq<Record>)
    ensures multiset(a + [x] + b) == multiset(a + b) + multiset{x}
  {}

  lemma OneMoreAfter(a: seq<Record>, x: Record, b: seq<Record>, more: seq<Record>)
    requires multiset(more) == multiset(b) + multiset{x}
    ensures multiset(a + more) == multiset(a + b) + multiset{x}
  {}

  lemma {:induction false} FlatScopesEnd(scopes: seq<ScopeGroup>, g: ScopeGroup)
    ensures multiset(FlatScopes(scopes + [g])) == multiset(FlatScopes(scopes)) + multiset(g.records)
  {
    if scopes == [] {
      assert [g][1..] == [];
      assert FlatScopes([g]) == g.records + [];
    } else {
      FlatScopesEnd(scopes[1..], g);
      assert (scopes + [g])[1..] == scopes[1..] + [g];
    }
  }

  lemma {:induction false} FlatMore(request: Request, i: nat, g: ResourceGroup, x: Record)
    requires i < |request|
    requires multiset(FlatScopes(g.scopes)) == multiset(FlatScopes(request[i].scopes)) + multiset{x}
    ensures multiset(Flat(request[i := g])) == multiset(Flat(request)) + multiset{x}
  {
    if i == 0 {
      assert request[i := g][1..] == request[1..];
    } else {
      FlatMore(request[1..], i - 1, g, x);
      assert request[i := g][1..] == request[1..][i - 1 := g];
    }
  }

  lemma ScopesGainOne(items: seq<Item>, it: Item)
    ensures multiset(FlatScopes(Scopes(items + [it]))) == multiset(FlatScopes(Scopes(items))) + multiset{it.record}
  {
    if it.scopeId in ScopeIds(items) {
      var j :| 0 <= j < |ScopeIds(items)| && ScopeIds(items)[j] == it.scopeId;
      ScopesWithOld(items, it, j);
      FlatScopesMore(Scopes(items), j, it.record);
    } else {
      ScopesWithNew(items, it);
      FlatScopesEnd(Scopes(items), ScopeGroup(it.scopeId, [it.record]));
    }
  }

  lemma {:induction false} FlatOfEmpty(request: Request)
    requires forall i | 0 <= i < |request| :: request[i].scopes == []
    ensures Flat(request) == []
  {
    if request != [] { FlatOfEmpty(request[1..]); }
  }

  function Records(items: seq<Item>): seq<Record> {
    seq(|items|, k requires 0 <= k < |items| => items[k].record)
  }

  lemma PlacedGainsOne(ids: seq<Id>, items: seq<Item>, it: Item)
    requires Distinct(ids) && it.resourceId in ids
    ensures multiset(Flat(Placed(ids, items + [it]))) == multiset(Flat(Placed(ids, items))) + multiset{it.record}
  {
    var i :| 0 <= i < |ids| && ids[i] == it.resourceId;
    PlacedMore(ids, items, it, i);
    var mine := OfResource(items, ids[i]);
    ScopesGainOne(mine, it);
    FlatMore(Placed(ids, items), i, ResourceGroup(ids[i], Scopes(mine + [it])), it.record);
  }

  predicate Listed(items: seq<Item>, ids: seq<Id>) {
    forall k | 0 <= k < |items| :: items[k].resourceId in ids
  }

  lemma NothingPlaced(ids: seq<Id>, items: seq<Item>)
    requires items == []
    ensures Flat(Placed(ids, items)) == []
  {
    FlatOfEmpty(Placed(ids, items));
  }

  /** The groups hold the records of the items, each as often as they do. */
  ghost predicate Conserved(ids: seq<Id>, items: seq<Item>) {
    multiset(Flat(Placed(ids, items))) == multiset(Records(items))
  }

  lemma {:induction false} PlacedConserves(ids: seq<Id>, items: seq<Item>)
    requires Distinct(ids) && Listed(items, ids)
    ensures Conserved(ids, items)
  {
    if items == [] {
      NothingPlaced(ids, items);
    } else {
      var n := |items| - 1;
      assert items == items[..n] + [items[n]];
      PlacedConserves(ids, items[..n]);
      OneMoreConserves(ids, items[..n], items[n]);
    }
  }

  lemma OneMoreConserves(ids: seq<Id>, items: seq<Item>, it: Item)
    requires Distinct(ids) && it.resourceId in ids
    requires Conserved(ids, items)
    ensures Conserved(ids, items + [it])
  {
    PlacedGainsOne(ids, items, it);
    RecordsMore(items, it);
  }

  lemma RecordsMore(items: seq<Item>, it: Item)
    ensures multiset(Records(items + [it])) == multiset(Records(items)) + multiset{it.record}
  {
    assert Records(items + [it]) == Records(items) + [it.record];
  }

  /** Every record of the batch is in the request exactly as often, and sibling groups have different labels. */
  lemma ConvertConserves(batch: seq<Record>)
    ensures
      var request := Placed(Firsts(ResourceIds(batch)), Owned(batch));
      multiset(Flat(request)) == multiset(batch)
    ensures Distinct(Firsts(ResourceIds(batch)))
    ensures forall r :: Distinct(ScopeIdsIn(Owned(batch), r))
  {
    var ids := Firsts(ResourceIds(batch));
    FirstsAreDistinct(ResourceIds(batch));
    forall k | 0 <= k < |Owned(batch)|
      ensures Owned(batch)[k].resourceId in ids
    {
      LabelsAreListed(batch, k);
    }
    PlacedConserves(ids, Owned(batch));
    OwnedLength(batch);
    forall k | 0 <= k < |batch|
      ensures Records(Owned(batch))[k] == batch[k]
    {
      OwnedShape(batch, k);
    }
    assert Records(Owned(batch)) == batch;
    forall r
      ensures Distinct(ScopeIdsIn(Owned(batch), r))
    {
      var mine := OfResource(Owned(batch), r);
      FirstsAreDistinct(seq(|mine|, i requires 0 <= i < |mine| => mine[i].scopeId));
    }
  }
}
