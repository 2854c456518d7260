/**
 The identifiers by which the converters group: PHP serializations of what identifies a
 resource or a scope.  Because these texts are prefix-free, the joined keys of the grouping
 never clash, and every batch that the converters can build is grouped stably by identifier.
 An identifier is empty when serialization fails, so different contents that both fail share
 a group; nothing else does.
 */
module OtlpIdentifiers {
  import opened OtlpGrouping
  import PhpSerialize

  // What the getters of the SDK return; attributes are already an array.
  datatype Resource = Resource(schemaUrl: PhpSerialize.Value, attributes: PhpSerialize.Entries, dropped: int)

  datatype Scope = Scope(
    name: PhpSerialize.Value, version: PhpSerialize.Value, schemaUrl: PhpSerialize.Value,
    attributes: PhpSerialize.Entries, dropped: int)

  /** One record as the converter meets it; `failed` says that serialize gives no string. */
  datatype Source = Source(
    resource: Resource, resourceFailed: bool, scope: Scope, scopeFailed: bool, body: int)

  function ListFrom(values: seq<PhpSerialize.Value>, from: nat): PhpSerialize.Entries
    decreases |values|
  {
    if values == [] then PhpSerialize.End
    else PhpSerialize.Entry(PhpSerialize.IntKey(from), values[0], ListFrom(values[1..], from + 1))
  }

  function ResourceValue(r: Resource): PhpSerialize.Value {
    PhpSerialize.Arr(ListFrom([r.schemaUrl, PhpSerialize.Arr(r.attributes), PhpSerialize.Int(r.dropped)], 0))
  }

  function ScopeValue(s: Scope): PhpSerialize.Value {
    PhpSerialize.Arr(ListFrom(
      [s.name, s.version, s.schemaUrl, PhpSerialize.Arr(s.attributes), PhpSerialize.Int(s.dropped)], 0))
  }

  predicate WellFormed(x: Source) {
    PhpSerialize.WellFormed(ResourceValue(x.resource)) && PhpSerialize.WellFormed(ScopeValue(x.scope))
  }

  /** The empty string stands for a failed serialization. */
  function ResourceId(r: Resource, failed: bool): Id {
    if failed then [] else PhpSerialize.Serialize(ResourceValue(r))
  }

  function ScopeId(s: Scope, failed: bool): Id {
    if failed then [] else PhpSerialize.Serialize(ScopeValue(s))
  }

  function RecordOf(x: Source): Record {
    Record(ResourceId(x.resource, x.resourceFailed), ScopeId(x.scope, x.scopeFailed), x.body)
  }

  function RecordsOf(batch: seq<Source>): seq<Record> {
    seq(|batch|, i requires 0 <= i < |batch| => RecordOf(batch[i]))
  }

  ghost predicate AllWellFormed(batch: seq<Source>) {
    forall i | 0 <= i < |batch| :: WellFormed(batch[i])
  }

  /** Equal identifiers mean equal contents: what is grouped together belongs together. */
  lemma ResourceIdIsFaithful(x: Source, y: Source)
    requires WellFormed(x) && WellFormed(y) && !x.resourceFailed && !y.resourceFailed
    ensures ResourceId(x.resource, false) == ResourceId(y.resource, false) <==> x.resource == y.resource
  {
    if ResourceId(x.resource, false) == ResourceId(y.resource, false) {
      PhpSerialize.SerializeIsPrefixFree(ResourceValue(x.resource), ResourceValue(y.resource));
      SameList([x.resource.schemaUrl, PhpSerialize.Arr(x.resource.attributes), PhpSerialize.Int(x.resource.dropped)],
               [y.resource.schemaUrl, PhpSerialize.Arr(y.resource.attributes), PhpSerialize.Int(y.resource.dropped)], 0);
    }
  }

  lemma ScopeIdIsFaithful(x: Source, y: Source)
    requires WellFormed(x) && WellFormed(y) && !x.scopeFailed && !y.scopeFailed
    ensures ScopeId(x.scope, false) == ScopeId(y.scope, false) <==> x.scope == y.scope
  {
    if ScopeId(x.scope, false) == ScopeId(y.scope, false) {
      PhpSerialize.SerializeIsPrefixFree(ScopeValue(x.scope), ScopeValue(y.scope));
      var a := [x.scope.name, x.scope.version, x.scope.schemaUrl, PhpSerialize.Arr(x.scope.attributes),
                PhpSerialize.Int(x.scope.dropped)];
      var b := [y.scope.name, y.scope.version, y.scope.schemaUrl, PhpSerialize.Arr(y.scope.attributes),
                PhpSerialize.Int(y.scope.dropped)];
      SameList(a, b, 0);
      assert a[0] == b[0] && a[1] == b[1] && a[2] == b[2] && a[3] == b[3] && a[4] == b[4];
    }
  }

  lemma {:induction false} SameList(a: seq<PhpSerialize.Value>, b: seq<PhpSerialize.Value>, from: nat)
    requires ListFrom(a, from) == ListFrom(b, from)
    ensures a == b
    decreases |a|
  {
    if a != [] {
      SameList(a[1..], b[1..], from + 1);
      assert a == [a[0]] + a[1..] && b == [b[0]] + b[1..];
    }
  }

  /** Two joined keys agree only if both identifiers do. */
  lemma KeysNeverClash(x: Source, y: Source)
    requires WellFormed(x) && WellFormed(y) && KeyOf(RecordOf(x)) == KeyOf(RecordOf(y))
    ensures RecordOf(x).resourceId == RecordOf(y).resourceId && RecordOf(x).scopeId == RecordOf(y).scopeId
  {
    var a, b := RecordOf(x), RecordOf(y);
    KeysAreSplitAtOnePlace(a, b);
    assert KeyOf(a)[0] == (if x.resourceFailed then '|' else 'a');
    assert KeyOf(b)[0] == (if y.resourceFailed then '|' else 'a');
    if !x.resourceFailed {
      if a.resourceId <= b.resourceId {
        PhpSerialize.SerializeIsPrefixFree(ResourceValue(x.resource), ResourceValue(y.resource));
      } else {
        PhpSerialize.SerializeIsPrefixFree(ResourceValue(y.resource), ResourceValue(x.resource));
      }
    }
  }

  lemma RecordComesFrom(batch: seq<Source>, x: Record) returns (i: nat)
    requires x in RecordsOf(batch)
    ensures i < |batch| && x == RecordOf(batch[i])
  {
    var records := RecordsOf(batch);
    i :| 0 <= i < |records| && records[i] == x;
  }

  lemma RecordsNeverClash(batch: seq<Source>)
    requires AllWellFormed(batch)
    ensures NoClash(RecordsOf(batch))
  {
    var records := RecordsOf(batch);
    forall x, y | x in records && y in records && KeyOf(x) == KeyOf(y)
      ensures x.resourceId == y.resourceId && x.scopeId == y.scopeId
    {
      var i := RecordComesFrom(batch, x);
      var j := RecordComesFrom(batch, y);
      KeysNeverClash(batch[i], batch[j]);
    }
  }

  /** Every batch is converted into the stable grouping of its records by resource and scope. */
  lemma EveryBatchIsGrouped(batch: seq<Source>)
    requires AllWellFormed(batch)
    ensures
      var records := RecordsOf(batch);
      Placed(Firsts(ResourceIds(records)), Owned(records)) == Grouped(records)
  {
    RecordsNeverClash(batch);
    ConvertGroupsIff(RecordsOf(batch));
  }

  // What the groups mean for the contents ---------------------------------------------------

  predicate SameResourceGroup(x: Source, y: Source) {
    RecordOf(x).resourceId == RecordOf(y).resourceId
  }

  predicate SameScopeGroup(x: Source, y: Source) {
    SameResourceGroup(x, y) && RecordOf(x).scopeId == RecordOf(y).scopeId
  }

  /** Two sources share a resource group exactly when their resources are equal, or both failed. */
  lemma ResourceGroupIff(x: Source, y: Source)
    requires WellFormed(x) && WellFormed(y)
    ensures SameResourceGroup(x, y) <==>
      if x.resourceFailed || y.resourceFailed then x.resourceFailed && y.resourceFailed
      else x.resource == y.resource
  {
    PhpSerialize.TextStartsWithTag(ResourceValue(x.resource), []);
    PhpSerialize.TextStartsWithTag(ResourceValue(y.resource), []);
    if !x.resourceFailed && !y.resourceFailed { ResourceIdIsFaithful(x, y); }
  }

  lemma ScopeIdIff(x: Source, y: Source)
    requires WellFormed(x) && WellFormed(y)
    ensures RecordOf(x).scopeId == RecordOf(y).scopeId <==>
      if x.scopeFailed || y.scopeFailed then x.scopeFailed && y.scopeFailed
      else x.scope == y.scope
  {
    PhpSerialize.TextStartsWithTag(ScopeValue(x.scope), []);
    PhpSerialize.TextStartsWithTag(ScopeValue(y.scope), []);
    if !x.scopeFailed && !y.scopeFailed { ScopeIdIsFaithful(x, y); }
  }

  /** The records of each resource group have one resource exactly when no two different
      resources of the batch both failed to serialize. */
  lemma ResourceGroupsAreFaithfulIff(batch: seq<Source>)
    requires AllWellFormed(batch)
    ensures (forall i, j | 0 <= i < |batch| && 0 <= j < |batch| && SameResourceGroup(batch[i], batch[j]) ::
               batch[i].resource == batch[j].resource)
       <==> (forall i, j | 0 <= i < |batch| && 0 <= j < |batch| && batch[i].resourceFailed && batch[j].resourceFailed ::
               batch[i].resource == batch[j].resource)
  {
    forall i, j | 0 <= i < |batch| && 0 <= j < |batch|
      ensures SameResourceGroup(batch[i], batch[j]) <==>
        if batch[i].resourceFailed || batch[j].resourceFailed then batch[i].resourceFailed && batch[j].resourceFailed
        else batch[i].resource == batch[j].resource
    {
      ResourceGroupIff(batch[i], batch[j]);
    }
  }

  /** The records of each scope group have one scope exactly when no two different scopes of
      one resource group both failed to serialize. */
  lemma ScopeGroupsAreFaithfulIff(batch: seq<Source>)
    requires AllWellFormed(batch)
    ensures (forall i, j | 0 <= i < |batch| && 0 <= j < |batch| && SameScopeGroup(batch[i], batch[j]) ::
               batch[i].scope == batch[j].scope)
       <==> (forall i, j | 0 <= i < |batch| && 0 <= j < |batch| && SameResourceGroup(batch[i], batch[j])
               && batch[i].scopeFailed && batch[j].scopeFailed ::
               batch[i].scope == batch[j].scope)
  {
    forall i, j | 0 <= i < |batch| && 0 <= j < |batch|
      ensures RecordOf(batch[i]).scopeId == RecordOf(batch[j]).scopeId <==>
        if batch[i].scopeFailed || batch[j].scopeFailed then batch[i].scopeFailed && batch[j].scopeFailed
        else batch[i].scope == batch[j].scope
    {
      ScopeIdIff(batch[i], batch[j]);
    }
  }

  /** Two different resources that both fail to serialize end up in one group. */
  lemma FailedResourcesShareGroup(x: Source, y: Source)
    requires x.resourceFailed && y.resourceFailed && x.scopeFailed && y.scopeFailed
    ensures Owned(RecordsOf([x, y])) == [Item([], [], RecordOf(x)), Item([], [], RecordOf(y))]
  {
    var records := RecordsOf([x, y]);
    OwnersAgree(records, 0);
    OwnersAgree(records, 1);
    assert KeyOf(records[0]) == KeyOf(records[1]);
  }

  /** The conversion from the identifying contents to the request. */
  method ConvertSources(batch: seq<Source>) returns (request: Request)
    requires AllWellFormed(batch)
    ensures request == Grouped(RecordsOf(batch))
  {
    EveryBatchIsGrouped(batch);
    request := Convert(RecordsOf(batch));
  }
}
