/** The world (world.hpp): the entity record table, the mask-to-archetype
    cache, the component registry and the views, plus `mask_archetype`, the
    archetype that also keeps the back-pointers of the records of its rows.

    Pointers become keys: a record's archetype pointer is the archetype's mask
    (the cache holds one archetype per mask) and an archetype's record pointer
    is the entity id whose record it is. */
module World {
  import opened Registry
  import Layout
  import A = Archetype

  /** `entity_record`: unassigned (a null archetype pointer) or the archetype
      and the row the entity lives in. */
  datatype Record = Unassigned | Assigned(archetype: Mask, index: nat)

  /** `mask_archetype`: the row storage plus, per row, the entity whose record
      points at that row. */
  datatype MaskArchetype = MaskArchetype(storage: A.Archetype, records: seq<EntityId>)

  /** A view: its mask and the archetypes it iterates, in the order they were
      added to it. */
  datatype View = View(mask: Mask, archetypes: seq<Mask>)

  /** `creationOrder` lists the cached archetypes in the order they were
      created; it is the order in which views see them. */
  datatype World = World(
    componentIndex: map<TypeId, ComponentIndex>,
    infos: seq<ComponentInfo>,
    nextComponent: nat,
    nextEntity: EntityId,
    entityRecords: map<EntityId, Record>,
    archetypes: map<Mask, MaskArchetype>,
    creationOrder: seq<Mask>,
    views: seq<View>,
    entityType: TypeId)

  datatype CreateResult = CreateResult(world: World, id: EntityId)

  datatype ViewResult = ViewResult(world: World, view: nat)

  // ---------------------------------------------------------------------------
  // Invariant

  predicate RegistryValid(w: World)
  {
    && |w.infos| == w.nextComponent
    && WellFormed(w.infos)
    && w.entityType in w.componentIndex
    && (forall t | t in w.componentIndex :: w.componentIndex[t] < w.nextComponent)
    && (forall t1, t2 | t1 in w.componentIndex && t2 in w.componentIndex && t1 != t2 ::
          w.componentIndex[t1] != w.componentIndex[t2])
  }

  /** A cached archetype is a valid archetype stored under its own mask. */
  predicate StorageOk(a: A.Archetype, m: Mask, infos: seq<ComponentInfo>)
  {
    A.Valid(a, infos) && a.Mask() == m
  }

  predicate StoragesValid(archetypes: map<Mask, MaskArchetype>, infos: seq<ComponentInfo>)
  {
    forall m {:trigger StorageOk(archetypes[m].storage, m, infos)} | m in archetypes :: StorageOk(archetypes[m].storage, m, infos)
  }

  /** One back-pointer per row. */
  predicate SizesAgree(w: World)
  {
    forall m | m in w.archetypes :: |w.archetypes[m].records| == w.archetypes[m].storage.Size()
  }

  /** Every row's record points back at that row ... */
  predicate RowsPointBack(w: World)
  {
    forall m, i | m in w.archetypes && 0 <= i < |w.archetypes[m].records| ::
      && w.archetypes[m].records[i] in w.entityRecords
      && w.entityRecords[w.archetypes[m].records[i]] == Assigned(m, i)
  }

  /** ... and every assigned record points at a row that names it. */
  predicate RecordsPointAtRows(w: World)
  {
    forall e | e in w.entityRecords && w.entityRecords[e].Assigned? ::
      && w.entityRecords[e].archetype in w.archetypes
      && w.entityRecords[e].index < |w.archetypes[w.entityRecords[e].archetype].records|
      && w.archetypes[w.entityRecords[e].archetype].records[w.entityRecords[e].index] == e
  }

  predicate OrderValid(w: World)
  {
    && Distinct(w.creationOrder)
    && (forall m | m in w.creationOrder :: m in w.archetypes)
    && (forall m | m in w.archetypes :: m in w.creationOrder)
  }

  /** Every view lists exactly the archetypes whose mask contains its own, in
      creation order. */
  predicate ViewsValid(w: World)
  {
    forall k | 0 <= k < |w.views| :: w.views[k].archetypes == Filter(w.creationOrder, w.views[k].mask)
  }

  /** The invariant apart from the archetypes' own validity. */
  predicate Linked(w: World)
  {
    && RegistryValid(w)
    && SizesAgree(w)
    && RowsPointBack(w)
    && RecordsPointAtRows(w)
    && OrderValid(w)
    && ViewsValid(w)
  }

  predicate Valid(w: World)
  {
    Linked(w) && StoragesValid(w.archetypes, w.infos)
  }

  // ---------------------------------------------------------------------------
  // Helpers over masks and component lists

  /** The archetypes of `order` whose mask contains `m` (`(m & mask) == m`). */
  function Filter(order: seq<Mask>, m: Mask): (r: seq<Mask>)
  {
    if order == [] then []
    else Filter(order[..|order| - 1], m) + (if m <= order[|order| - 1] then [order[|order| - 1]] else [])
  }

  function Xor(a: Mask, b: Mask): Mask
  {
    (a - b) + (b - a)
  }

  /** `layout.insert(...)`: the components of `xs` not yet in `cols`, appended. */
  function AppendNew(cols: seq<ComponentIndex>, xs: seq<ComponentIndex>): (r: seq<ComponentIndex>)
    ensures MaskOf(r) == MaskOf(cols) + MaskOf(xs)
    ensures Distinct(cols) ==> Distinct(r)
    ensures forall i | 0 <= i < |r| :: r[i] in cols || r[i] in xs
    decreases |xs|
  {
    if xs == [] then cols
    else
      var cols' := if xs[0] in cols then cols else cols + [xs[0]];
      assert MaskOf(xs) == {xs[0]} + MaskOf(xs[1..]);
      AppendNew(cols', xs[1..])
  }

  /** `layout.erase(...)`: `cols` without the components of `m`. */
  function Erase(cols: seq<ComponentIndex>, m: Mask): (r: seq<ComponentIndex>)
    ensures MaskOf(r) == MaskOf(cols) - m
    ensures Distinct(cols) ==> Distinct(r)
    ensures forall i | 0 <= i < |r| :: r[i] in cols
  {
    if cols == [] then []
    else
      var init := cols[..|cols| - 1];
      var x := cols[|cols| - 1];
      assert cols == init + [x];
      assert MaskOf(cols) == MaskOf(init) + {x};
      var rest := Erase(init, m);
      if x in m then rest
      else
        assert MaskOf(rest + [x]) == MaskOf(rest) + {x};
        assert forall k | 0 <= k < |init| :: init[k] == cols[k];
        rest + [x]
  }

  predicate AllRegistered(w: World, ts: seq<TypeId>)
  {
    forall i | 0 <= i < |ts| :: ts[i] in w.componentIndex
  }

  /** The dense indices of a type pack, in pack order (`make_component_set`).
      A pack of distinct registered types gives distinct indices, each below
      the component counter. */
  function ComponentList(w: World, ts: seq<TypeId>): (r: seq<ComponentIndex>)
    requires AllRegistered(w, ts)
    ensures |r| == |ts| && forall i | 0 <= i < |ts| :: r[i] == w.componentIndex[ts[i]]
    ensures RegistryValid(w) ==> forall i | 0 <= i < |r| :: r[i] < w.nextComponent
    ensures RegistryValid(w) && Distinct(ts) ==> Distinct(r)
  {
    seq(|ts|, i requires 0 <= i < |ts| => w.componentIndex[ts[i]])
  }

  /** `make_mask`: the bit of each type's dense index is set, and no other. */
  function MakeMask(w: World, ts: seq<TypeId>): (r: Mask)
    requires AllRegistered(w, ts)
    ensures forall i | 0 <= i < |ts| :: w.componentIndex[ts[i]] in r
    ensures forall c | c in r :: exists i | 0 <= i < |ts| :: c == w.componentIndex[ts[i]]
    ensures RegistryValid(w) ==> forall c | c in r :: c < w.nextComponent
  {
    MaskOf(ComponentList(w, ts))
  }

  function EntityIndex(w: World): ComponentIndex
    requires w.entityType in w.componentIndex
  {
    w.componentIndex[w.entityType]
  }

  /** `m_entity_record[id]`: a missing entry reads as an unassigned record. */
  function RecordOf(w: World, e: EntityId): Record
  {
    if e in w.entityRecords then w.entityRecords[e] else Unassigned
  }

  /** The component values of an assigned entity. */
  function EntityRow(w: World, e: EntityId): Row
    requires RecordsPointAtRows(w) && SizesAgree(w) && RecordOf(w, e).Assigned?
  {
    var r := RecordOf(w, e);
    w.archetypes[r.archetype].storage.rows[r.index]
  }

  /** Row `i` of archetype `m` holds `v` for component `c`. */
  predicate RowHolds(w: World, m: Mask, i: nat, c: ComponentIndex, v: Value)
  {
    && m in w.archetypes && i < |w.archetypes[m].storage.rows|
    && c in w.archetypes[m].storage.rows[i] && w.archetypes[m].storage.rows[i][c] == v
  }

  /** `component<T>(id)`: the value of component `t` of entity `e`. Whichever
      row names `e` as its entity is the one the record points at, and it
      holds the result. */
  function Component(w: World, e: EntityId, t: TypeId): (r: Value)
    requires Valid(w) && RecordOf(w, e).Assigned?
    requires t in w.componentIndex && w.componentIndex[t] in RecordOf(w, e).archetype
    ensures RowHolds(w, RecordOf(w, e).archetype, RecordOf(w, e).index, w.componentIndex[t], r)
    ensures forall m, i | m in w.archetypes && 0 <= i < |w.archetypes[m].records| && w.archetypes[m].records[i] == e ::
      m == RecordOf(w, e).archetype && RowHolds(w, m, i, w.componentIndex[t], r)
  {
    var r := RecordOf(w, e);
    assert StorageOk(w.archetypes[r.archetype].storage, r.archetype, w.infos);
    w.archetypes[r.archetype].storage.rows[r.index][w.componentIndex[t]]
  }

  // Registry and entity ids

  /** Fields no structural change touches. */
  predicate SameRegistry(w: World, w': World)
  {
    && w'.componentIndex == w.componentIndex && w'.infos == w.infos
    && w'.nextComponent == w.nextComponent && w'.entityType == w.entityType
    && w'.nextEntity == w.nextEntity
  }

  /** `world()`: an empty world whose registry holds only the entity
      component, which is registered first and so gets index 0. */
  function Init(entityType: TypeId, entityInfo: ComponentInfo): (w: World)
    requires entityInfo.size > 0
    ensures Valid(w) && EntityIndex(w) == 0 && w.infos == [entityInfo]
    ensures w.archetypes == map[] && w.entityRecords == map[] && w.views == []
  {
    World(map[entityType := 0], [entityInfo], 1, 0, map[], map[], [], [], entityType)
  }

  /** Registers one type: a known type is left alone, an unseen type gets the
      next dense index and its info in the slot at that index. */
  function RegisterComponent(w: World, t: TypeId, info: ComponentInfo): (w': World)
    requires Valid(w) && info.size > 0
    ensures Valid(w')
    ensures t in w.componentIndex ==> w' == w
    ensures t !in w.componentIndex ==>
      && w'.componentIndex == w.componentIndex[t := w.nextComponent]
      && w'.nextComponent == w.nextComponent + 1
      && |w'.infos| == w'.nextComponent && w'.infos[w'.componentIndex[t]] == info
      && Extends(w.infos, w'.infos)
    ensures t in w'.componentIndex && w.componentIndex.Keys <= w'.componentIndex.Keys
    ensures forall u | u in w.componentIndex :: w'.componentIndex[u] == w.componentIndex[u]
    ensures w'.archetypes == w.archetypes && w'.entityRecords == w.entityRecords
    ensures w'.views == w.views && w'.creationOrder == w.creationOrder
    ensures w'.nextEntity == w.nextEntity && w'.entityType == w.entityType
    ensures RegistryGrown(w, w')
  {
    if t in w.componentIndex then w
    else
      var index := w.nextComponent;
      var w' := w.(componentIndex := w.componentIndex[t := index], infos := w.infos + [info], nextComponent := index + 1);
      RegisterKeepsArchetypes(w, w');
      w'
  }

  lemma RegisterKeepsArchetypes(w: World, w': World)
    requires Valid(w) && RegistryValid(w') && Extends(w.infos, w'.infos)
    requires w'.archetypes == w.archetypes && w'.entityRecords == w.entityRecords
    requires w'.views == w.views && w'.creationOrder == w.creationOrder
    ensures Valid(w')
  {
    forall m | m in w'.archetypes
      ensures StorageOk(w'.archetypes[m].storage, m, w'.infos)
    {
      assert StorageOk(w.archetypes[m].storage, m, w.infos);
      A.ValidUnderLongerRegistry(w.archetypes[m].storage, w.infos, w'.infos);
    }
  }

  /** `register_component<Ts...>()`: registers each type of the pack in order. */
  function RegisterComponents(w: World, ts: seq<(TypeId, ComponentInfo)>): (w': World)
    requires Valid(w) && forall i | 0 <= i < |ts| :: ts[i].1.size > 0
    ensures Valid(w')
    ensures forall i | 0 <= i < |ts| :: ts[i].0 in w'.componentIndex
    ensures RegistryGrown(w, w')
    decreases |ts|
  {
    if ts == [] then w
    else
      var w1 := RegisterComponent(w, ts[0].0, ts[0].1);
      var w' := RegisterComponents(w1, ts[1..]);
      RegisterChain(w, w1, w');
      PackRegistered(ts, w1, w');
      w'
  }

  /** `w'` is `w` after registrations: every old type keeps its index and
      info, and nothing but the registry changes. */
  predicate RegistryGrown(w: World, w': World)
  {
    && w.componentIndex.Keys <= w'.componentIndex.Keys
    && (forall u | u in w.componentIndex :: w'.componentIndex[u] == w.componentIndex[u])
    && Extends(w.infos, w'.infos)
    && w'.archetypes == w.archetypes && w'.entityRecords == w.entityRecords
    && w'.views == w.views && w'.creationOrder == w.creationOrder
    && w'.nextEntity == w.nextEntity && w'.entityType == w.entityType
  }

  /** The head of a pack registered first and the tail after it leave the
      whole pack registered. */
  lemma PackRegistered(ts: seq<(TypeId, ComponentInfo)>, w1: World, w': World)
    requires ts != [] && ts[0].0 in w1.componentIndex && RegistryGrown(w1, w')
    requires forall i | 0 <= i < |ts[1..]| :: ts[1..][i].0 in w'.componentIndex
    ensures forall i | 0 <= i < |ts| :: ts[i].0 in w'.componentIndex
  {
    assert forall i | 1 <= i < |ts| :: ts[i] == ts[1..][i - 1];
  }

  /** Two registration steps compose. */
  lemma RegisterChain(w: World, w1: World, w': World)
    requires RegistryGrown(w, w1) && RegistryGrown(w1, w')
    ensures RegistryGrown(w, w')
  {
  }

  /** Registering a pack whose types are all known changes nothing. */
  lemma {:induction false} RegisterKnownIsNoOp(w: World, ts: seq<(TypeId, ComponentInfo)>)
    requires Valid(w) && forall i | 0 <= i < |ts| :: ts[i].1.size > 0
    requires forall i | 0 <= i < |ts| :: ts[i].0 in w.componentIndex
    ensures RegisterComponents(w, ts) == w
    decreases |ts|
  {
    if ts != [] {
      RegisterKnownIsNoOp(w, ts[1..]);
    }
  }

  /** `register_component` is idempotent. */
  lemma RegisterIdempotent(w: World, ts: seq<(TypeId, ComponentInfo)>)
    requires Valid(w) && forall i | 0 <= i < |ts| :: ts[i].1.size > 0
    ensures RegisterComponents(RegisterComponents(w, ts), ts) == RegisterComponents(w, ts)
  {
    RegisterKnownIsNoOp(RegisterComponents(w, ts), ts);
  }

  /** `create()`: the next id from the counter; the entity starts unassigned. */
  function Create(w: World): (r: CreateResult)
    requires Valid(w)
    ensures Valid(r.world)
    ensures r.id == w.nextEntity && r.world.nextEntity == w.nextEntity + 1
    ensures r.world.entityRecords == w.entityRecords && r.world.archetypes == w.archetypes
    ensures r.world.views == w.views && r.world.creationOrder == w.creationOrder
    ensures r.world.componentIndex == w.componentIndex && r.world.infos == w.infos
    ensures r.world.nextComponent == w.nextComponent && r.world.entityType == w.entityType
  {
    CreateResult(w.(nextEntity := w.nextEntity + 1), w.nextEntity)
  }

  // ---------------------------------------------------------------------------
  // Archetype creation and views

  lemma StoragesUpdate(archetypes: map<Mask, MaskArchetype>, infos: seq<ComponentInfo>, m: Mask, a: MaskArchetype)
    requires StoragesValid(archetypes, infos) && StorageOk(a.storage, m, infos)
    ensures StoragesValid(archetypes[m := a], infos)
  {
  }

  /** The views after archetype `m` is created: each view whose mask `m`
      contains gets `m` appended. */
  function NotifyViews(views: seq<View>, m: Mask): (r: seq<View>)
    ensures |r| == |views|
    ensures forall k | 0 <= k < |views| :: r[k].mask == views[k].mask
    ensures forall k | 0 <= k < |views| ::
      r[k].archetypes == if views[k].mask <= m then views[k].archetypes + [m] else views[k].archetypes
  {
    seq(|views|, k requires 0 <= k < |views| =>
      if views[k].mask <= m then views[k].(archetypes := views[k].archetypes + [m]) else views[k])
  }

  lemma NotifyKeepsViews(w: World, w': World, m: Mask)
    requires OrderValid(w) && ViewsValid(w) && m !in w.archetypes
    requires w'.creationOrder == w.creationOrder + [m] && w'.views == NotifyViews(w.views, m)
    ensures ViewsValid(w')
  {
    assert w'.creationOrder[..|w.creationOrder|] == w.creationOrder;
  }

  /** A new, empty archetype breaks no pointer and extends the creation
      order. */
  lemma GrownKeepsPointers(w: World, w': World, m: Mask, a: MaskArchetype)
    requires RowsPointBack(w) && RecordsPointAtRows(w) && SizesAgree(w) && OrderValid(w)
    requires m !in w.archetypes && a.records == [] && a.storage.Size() == 0
    requires w'.archetypes == w.archetypes[m := a] && w'.entityRecords == w.entityRecords
    requires w'.creationOrder == w.creationOrder + [m]
    ensures RowsPointBack(w') && RecordsPointAtRows(w') && SizesAgree(w') && OrderValid(w')
  {
    forall m', i | m' in w'.archetypes && 0 <= i < |w'.archetypes[m'].records|
      ensures w'.archetypes[m'].records[i] in w'.entityRecords
      ensures w'.entityRecords[w'.archetypes[m'].records[i]] == Assigned(m', i)
    {
      assert m' != m;
    }
  }

  /** The views of `w'` are those of `w`, each with the same mask and
      possibly more archetypes appended to its list. */
  predicate ViewsGrown(w: World, w': World)
  {
    && |w'.views| == |w.views|
    && forall k | 0 <= k < |w.views| ::
         w'.views[k].mask == w.views[k].mask && w.views[k].archetypes <= w'.views[k].archetypes
  }

  /** `make_archetype(layout)`: builds the archetype, appends it to every view
      whose mask it contains, and caches it under its mask. */
  function MakeArchetype(w: World, columns: seq<ComponentIndex>): (w': World)
    requires Valid(w) && A.Fits(w.infos, columns) && MaskOf(columns) !in w.archetypes
    ensures Valid(w') && SameRegistry(w, w')
    ensures w'.archetypes.Keys == w.archetypes.Keys + {MaskOf(columns)}
    ensures forall m | m in w.archetypes :: w'.archetypes[m] == w.archetypes[m]
    ensures w'.archetypes[MaskOf(columns)] == MaskArchetype(A.New(w.infos, columns), [])
    ensures w'.entityRecords == w.entityRecords
    ensures |w'.views| == |w.views|
    ensures forall k | 0 <= k < |w.views| :: w'.views[k].mask == w.views[k].mask
    ensures forall k | 0 <= k < |w.views| :: (w'.views[k].archetypes ==
      if w.views[k].mask <= MaskOf(columns) then w.views[k].archetypes + [MaskOf(columns)] else w.views[k].archetypes)
    ensures ViewsGrown(w, w')
  {
    var m := MaskOf(columns);
    var a := MaskArchetype(A.New(w.infos, columns), []);
    var w' := w.(archetypes := w.archetypes[m := a],
                 creationOrder := w.creationOrder + [m],
                 views := NotifyViews(w.views, m));
    StoragesUpdate(w.archetypes, w.infos, m, a);
    NotifyKeepsViews(w, w', m);
    GrownKeepsPointers(w, w', m, a);
    w'
  }

  /** `make_view<Ts...>()`: a view over every cached archetype whose mask
      contains the requested one; later archetypes are added by
      `MakeArchetype`. */
  function MakeView(w: World, ts: seq<TypeId>): (r: ViewResult)
    requires Valid(w) && AllRegistered(w, ts)
    ensures Valid(r.world)
    ensures r.view == |w.views| && |r.world.views| == |w.views| + 1
    ensures r.world.views[..|w.views|] == w.views
    ensures r.world.views[r.view].mask == MakeMask(w, ts)
    ensures forall m :: m in r.world.views[r.view].archetypes <==> m in w.archetypes && MakeMask(w, ts) <= m
    ensures Distinct(r.world.views[r.view].archetypes)
    ensures r.world.archetypes == w.archetypes && r.world.entityRecords == w.entityRecords
    ensures SameRegistry(w, r.world)
  {
    var mask := MakeMask(w, ts);
    var v := View(mask, Filter(w.creationOrder, mask));
    FilterMembers(w.creationOrder, mask);
    var w' := w.(views := w.views + [v]);
    assert w'.views[..|w.views|] == w.views;
    ViewResult(w', |w.views|)
  }

  lemma {:induction false} FilterMembers(order: seq<Mask>, m: Mask)
    requires Distinct(order)
    ensures forall x :: x in Filter(order, m) <==> x in order && m <= x
    ensures Distinct(Filter(order, m))
  {
    if order != [] {
      var init := order[..|order| - 1];
      var last := order[|order| - 1];
      assert order == init + [last];
      FilterMembers(init, m);
      assert last !in init;
    }
  }

  /** A view sees every archetype whose mask contains its own, whether that
      archetype existed when the view was made or was created afterwards, and
      nothing else, each once. */
  lemma ViewComplete(w: World, k: nat, m: Mask)
    requires Valid(w) && k < |w.views|
    ensures m in w.views[k].archetypes <==> m in w.archetypes && w.views[k].mask <= m
    ensures Distinct(w.views[k].archetypes)
  {
    FilterMembers(w.creationOrder, w.views[k].mask);
  }

  // ---------------------------------------------------------------------------
  // mask_archetype

  /** The world after a row holding `s` is appended to archetype `m` for `e`. */
  function WithAdded(w: World, m: Mask, e: EntityId, s: A.Archetype): World
    requires m in w.archetypes
  {
    w.(archetypes := w.archetypes[m := MaskArchetype(s, w.archetypes[m].records + [e])],
       entityRecords := w.entityRecords[e := Assigned(m, |w.archetypes[m].records|)])
  }

  lemma AddedRecords(w: World, m: Mask, e: EntityId, s: A.Archetype)
    requires RowsPointBack(w) && RecordsPointAtRows(w) && SizesAgree(w)
    requires m in w.archetypes && RecordOf(w, e).Unassigned?
    requires s.Size() == w.archetypes[m].storage.Size() + 1
    requires forall j | 0 <= j < w.archetypes[m].storage.Size() :: s.rows[j] == w.archetypes[m].storage.rows[j]
    ensures var w' := WithAdded(w, m, e, s);
      && RowsPointBack(w') && RecordsPointAtRows(w') && SizesAgree(w')
      && RecordOf(w', e) == Assigned(m, |w.archetypes[m].records|)
      && EntityRow(w', e) == s.rows[|w.archetypes[m].records|]
      && (forall x | x != e :: RecordOf(w', x) == RecordOf(w, x))
      && (forall x | x != e && RecordOf(w, x).Assigned? :: EntityRow(w', x) == EntityRow(w, x))
  {
    var w' := WithAdded(w, m, e, s);
    var arch := w.archetypes[m];
    var n := |arch.records|;
    forall m', i | m' in w'.archetypes && 0 <= i < |w'.archetypes[m'].records|
      ensures w'.archetypes[m'].records[i] in w'.entityRecords
      ensures w'.entityRecords[w'.archetypes[m'].records[i]] == Assigned(m', i)
    {
      if m' != m || i < n {
        var x := w.archetypes[m'].records[i];
        assert w'.archetypes[m'].records[i] == x;
        assert x != e;
      }
    }
  }

  /** What `mask_archetype::add` establishes, for any new storage `s` that
      appends one row to the archetype's storage. */
  lemma AddedLinked(w: World, m: Mask, e: EntityId, s: A.Archetype)
    requires Linked(w) && m in w.archetypes && RecordOf(w, e).Unassigned?
    requires s.Size() == w.archetypes[m].storage.Size() + 1
    requires forall j | 0 <= j < w.archetypes[m].storage.Size() :: s.rows[j] == w.archetypes[m].storage.rows[j]
    ensures var w' := WithAdded(w, m, e, s);
      && Linked(w') && SameRegistry(w, w')
      && w'.archetypes.Keys == w.archetypes.Keys
      && w'.views == w.views && w'.creationOrder == w.creationOrder
      && RecordOf(w', e) == Assigned(m, w.archetypes[m].storage.Size())
      && EntityRow(w', e) == s.rows[w.archetypes[m].storage.Size()]
      && (forall x | x != e :: RecordOf(w', x) == RecordOf(w, x))
      && (forall x | x != e && RecordOf(w, x).Assigned? :: EntityRow(w', x) == EntityRow(w, x))
  {
    AddedRecords(w, m, e, s);
  }

  lemma DefaultsOnMask(s: A.Archetype, m: Mask, n: nat, infos: seq<ComponentInfo>)
    requires StorageOk(s, m, infos) && n < s.Size()
    requires forall c | c in s.columns :: s.rows[n][c] == infos[c].defaultValue
    ensures s.rows[n].Keys == m
    ensures forall c | c in m :: c < |infos| && s.rows[n][c] == infos[c].defaultValue
  {
  }

  /** `mask_archetype::add(record)`: adds a row and points the record at it. */
  function MaskAdd(w: World, m: Mask, e: EntityId): (w': World)
    requires Valid(w) && m in w.archetypes && RecordOf(w, e).Unassigned?
    ensures Valid(w') && SameRegistry(w, w')
    ensures w'.archetypes.Keys == w.archetypes.Keys
    ensures w'.views == w.views && w'.creationOrder == w.creationOrder
    ensures RecordOf(w', e) == Assigned(m, w.archetypes[m].storage.Size())
    ensures EntityRow(w', e).Keys == m
    ensures forall c | c in m :: c < |w.infos| && EntityRow(w', e)[c] == w.infos[c].defaultValue
    ensures forall x | x != e :: RecordOf(w', x) == RecordOf(w, x)
    ensures forall x | x != e && RecordOf(w, x).Assigned? :: EntityRow(w', x) == EntityRow(w, x)
  {
    var storage := w.archetypes[m].storage;
    assert StorageOk(storage, m, w.infos);
    var added := A.Add(storage, w.infos).archetype;
    AddedLinked(w, m, e, added);
    StoragesUpdate(w.archetypes, w.infos, m, MaskArchetype(added, w.archetypes[m].records + [e]));
    DefaultsOnMask(added, m, storage.Size(), w.infos);
    WithAdded(w, m, e, added)
  }

  /** Two rows of one archetype name different entities. */
  lemma RecordsDistinct(w: World, m: Mask, i: nat, j: nat)
    requires RowsPointBack(w) && m in w.archetypes
    requires i < |w.archetypes[m].records| && j < |w.archetypes[m].records|
    ensures w.archetypes[m].records[i] == w.archetypes[m].records[j] <==> i == j
  {
  }

  /** `mask_archetype::remove(index)`: swap-removes the row and re-points the
      record of the row that took its place. The removed entity's own record
      is left as it was: nothing in the world calls this operation, and a
      caller would have to reset it. */
  function MaskRemove(w: World, m: Mask, i: nat): (w': World)
    requires Linked(w) && m in w.archetypes && i < |w.archetypes[m].records|
    requires StorageOk(w.archetypes[m].storage, m, w.infos)
    ensures m in w'.archetypes && w'.archetypes.Keys == w.archetypes.Keys
    ensures w'.archetypes[m].storage == A.Remove(w.archetypes[m].storage, i, w.infos)
    ensures forall m' | m' in w.archetypes && m' != m :: w'.archetypes[m'] == w.archetypes[m']
    ensures SameRegistry(w, w') && w'.views == w.views && w'.creationOrder == w.creationOrder
    ensures A.Valid(w'.archetypes[m].storage, w.infos)
    ensures |w'.archetypes[m].records| == w'.archetypes[m].storage.Size() == |w.archetypes[m].records| - 1
    ensures w.archetypes[m].records[i] !in w'.archetypes[m].records
    ensures forall j | 0 <= j < |w'.archetypes[m].records| ::
      RecordOf(w', w'.archetypes[m].records[j]) == Assigned(m, j)
    ensures forall x | x !in w.archetypes[m].records :: RecordOf(w', x) == RecordOf(w, x)
  {
    var storage := A.Remove(w.archetypes[m].storage, i, w.infos);
    RemovedFacts(w, m, i, storage);
    WithRemoved(w, m, i, storage)
  }

  /** The world after row `i` of archetype `m` is swap-removed, with `s` as
      the archetype's new storage. */
  function WithRemoved(w: World, m: Mask, i: nat, s: A.Archetype): World
    requires RowsPointBack(w) && m in w.archetypes && i < |w.archetypes[m].records|
  {
    var arch := w.archetypes[m];
    var n := |arch.records|;
    var e := arch.records[i];
    var back := arch.records[n - 1];
    w.(archetypes := w.archetypes[m := MaskArchetype(s, A.SwapRemove(arch.records, i))],
       entityRecords := if e != back then w.entityRecords[back := w.entityRecords[back].(index := i)] else w.entityRecords)
  }

  lemma RemovedFacts(w: World, m: Mask, i: nat, s: A.Archetype)
    requires RowsPointBack(w) && m in w.archetypes && i < |w.archetypes[m].records|
    ensures var w' := WithRemoved(w, m, i, s);
      && m in w'.archetypes && w'.archetypes.Keys == w.archetypes.Keys
      && w'.archetypes[m].storage == s
      && |w'.archetypes[m].records| == |w.archetypes[m].records| - 1
      && w.archetypes[m].records[i] !in w'.archetypes[m].records
      && (forall j | 0 <= j < |w'.archetypes[m].records| ::
            RecordOf(w', w'.archetypes[m].records[j]) == Assigned(m, j))
      && (forall x | x !in w.archetypes[m].records :: RecordOf(w', x) == RecordOf(w, x))
  {
    var w' := WithRemoved(w, m, i, s);
    RemovedBackPointers(w, m, i);
    forall j | 0 <= j < |w'.archetypes[m].records|
      ensures RecordOf(w', w'.archetypes[m].records[j]) == Assigned(m, j)
    {
      RemovedRecordAt(w, m, i, s, j);
    }
    forall x | x !in w.archetypes[m].records
      ensures RecordOf(w', x) == RecordOf(w, x)
    {
      RemovedOther(w, m, i, s, x);
    }
  }

  lemma RemovedRecordAt(w: World, m: Mask, i: nat, s: A.Archetype, j: nat)
    requires RowsPointBack(w) && m in w.archetypes && i < |w.archetypes[m].records|
    requires j < |w.archetypes[m].records| - 1
    ensures var w' := WithRemoved(w, m, i, s);
      RecordOf(w', w'.archetypes[m].records[j]) == Assigned(m, j)
  {
    RemovedBackPointers(w, m, i);
  }

  lemma RemovedOther(w: World, m: Mask, i: nat, s: A.Archetype, x: EntityId)
    requires RowsPointBack(w) && m in w.archetypes && i < |w.archetypes[m].records|
    requires x !in w.archetypes[m].records
    ensures RecordOf(WithRemoved(w, m, i, s), x) == RecordOf(w, x)
  {
    assert x != w.archetypes[m].records[|w.archetypes[m].records| - 1];
  }

  lemma RemovedBackPointers(w: World, m: Mask, i: nat)
    requires RowsPointBack(w) && m in w.archetypes && i < |w.archetypes[m].records|
    ensures var arch := w.archetypes[m];
      var n := |arch.records|;
      var e := arch.records[i];
      var back := arch.records[n - 1];
      var records := A.SwapRemove(arch.records, i);
      && back in w.entityRecords && w.entityRecords[back] == Assigned(m, n - 1)
      && e !in records
      && forall j | 0 <= j < |records| ::
           records[j] in w.entityRecords
           && (if records[j] == back && e != back then j == i else w.entityRecords[records[j]] == Assigned(m, j))
  {
    var arch := w.archetypes[m];
    var n := |arch.records|;
    var records := A.SwapRemove(arch.records, i);
    forall j | 0 <= j < |records|
      ensures records[j] != arch.records[i]
    {
      if j == i {
        RecordsDistinct(w, m, i, n - 1);
      } else {
        RecordsDistinct(w, m, i, j);
      }
    }
    forall j | 0 <= j < |records| && j != i
      ensures records[j] != arch.records[n - 1]
    {
      RecordsDistinct(w, m, j, n - 1);
    }
  }

  /** The world after the row `i` of `source` moves to `target`, with `s` and
      `t` as the two archetypes' new storage. */
  function WithMoved(w: World, source: Mask, i: nat, target: Mask, s: A.Archetype, t: A.Archetype): World
    requires RowsPointBack(w) && source in w.archetypes && target in w.archetypes && source != target
    requires i < |w.archetypes[source].records|
  {
    var src := w.archetypes[source];
    var tgt := w.archetypes[target];
    var n := |src.records|;
    var e := src.records[i];
    var back := src.records[n - 1];
    var records := w.entityRecords[e := Assigned(target, |tgt.records|)];
    var archetypes := w.archetypes[target := MaskArchetype(t, tgt.records + [e])];
    if e != back then
      w.(archetypes := archetypes[source := MaskArchetype(s, src.records[i := back][..n - 1])],
         entityRecords := records[back := records[back].(index := i)])
    else
      w.(archetypes := archetypes[source := MaskArchetype(s, src.records[..n - 1])],
         entityRecords := records)
  }

  /** Only the moved entity's record and the record of the row that took its
      place change. */
  lemma MovedRecordFacts(w: World, source: Mask, i: nat, target: Mask, s: A.Archetype, t: A.Archetype)
    requires RowsPointBack(w) && source in w.archetypes && target in w.archetypes && source != target
    requires i < |w.archetypes[source].records|
    ensures var w' := WithMoved(w, source, i, target, s, t);
      var src := w.archetypes[source];
      var n := |src.records|;
      var e := src.records[i];
      var back := src.records[n - 1];
      && RecordOf(w', e) == Assigned(target, |w.archetypes[target].records|)
      && (e != back ==> RecordOf(w', back) == Assigned(source, i))
      && (forall x | x != e && x != back :: RecordOf(w', x) == RecordOf(w, x))
      && w'.archetypes.Keys == w.archetypes.Keys
      && w'.archetypes[target].records == w.archetypes[target].records + [e]
      && |w'.archetypes[source].records| == n - 1
      && (forall j | 0 <= j < n - 1 && j != i :: w'.archetypes[source].records[j] == src.records[j])
      && (i < n - 1 ==> w'.archetypes[source].records[i] == back)
      && (forall m | m in w.archetypes && m != source && m != target :: w'.archetypes[m] == w.archetypes[m])
  {
    RecordsDistinct(w, source, i, |w.archetypes[source].records| - 1);
  }

  lemma MovedRowsPointBack(w: World, source: Mask, i: nat, target: Mask, s: A.Archetype, t: A.Archetype)
    requires RowsPointBack(w) && source in w.archetypes && target in w.archetypes && source != target
    requires i < |w.archetypes[source].records|
    ensures RowsPointBack(WithMoved(w, source, i, target, s, t))
  {
    var w' := WithMoved(w, source, i, target, s, t);
    var src := w.archetypes[source];
    var tgt := w.archetypes[target];
    var n := |src.records|;
    var e := src.records[i];
    var back := src.records[n - 1];
    MovedRecordFacts(w, source, i, target, s, t);
    RecordsDistinct(w, source, i, n - 1);
    forall m, j | m in w'.archetypes && 0 <= j < |w'.archetypes[m].records|
      ensures w'.archetypes[m].records[j] in w'.entityRecords
      ensures w'.entityRecords[w'.archetypes[m].records[j]] == Assigned(m, j)
    {
      var x := w'.archetypes[m].records[j];
      if m == target {
        if j < |tgt.records| {
          assert x == tgt.records[j];
          assert x != e && x != back;
        }
      } else if m == source {
        if j == i && e != back {
          assert x == back;
        } else {
          assert x == src.records[j];
          RecordsDistinct(w, source, j, n - 1);
          RecordsDistinct(w, source, j, i);
        }
      } else {
        assert x == w.archetypes[m].records[j];
        assert x != e && x != back;
      }
    }
  }

  lemma MovedRecordsPointAtRows(w: World, source: Mask, i: nat, target: Mask, s: A.Archetype, t: A.Archetype)
    requires RowsPointBack(w) && RecordsPointAtRows(w)
    requires source in w.archetypes && target in w.archetypes && source != target
    requires i < |w.archetypes[source].records|
    ensures RecordsPointAtRows(WithMoved(w, source, i, target, s, t))
  {
    var w' := WithMoved(w, source, i, target, s, t);
    var src := w.archetypes[source];
    var n := |src.records|;
    var e := src.records[i];
    var back := src.records[n - 1];
    MovedRecordFacts(w, source, i, target, s, t);
    RecordsDistinct(w, source, i, n - 1);
    forall x | x in w'.entityRecords && w'.entityRecords[x].Assigned?
      ensures w'.entityRecords[x].archetype in w'.archetypes
      ensures w'.entityRecords[x].index < |w'.archetypes[w'.entityRecords[x].archetype].records|
      ensures w'.archetypes[w'.entityRecords[x].archetype].records[w'.entityRecords[x].index] == x
    {
      if x != e && x != back {
        assert RecordOf(w', x) == RecordOf(w, x);
        var r := w.entityRecords[x];
        if r.archetype == source {
          RecordsDistinct(w, source, r.index, i);
          RecordsDistinct(w, source, r.index, n - 1);
        }
      }
    }
  }

  lemma MovedSizes(w: World, source: Mask, i: nat, target: Mask, s: A.Archetype, t: A.Archetype)
    requires RowsPointBack(w) && SizesAgree(w)
    requires source in w.archetypes && target in w.archetypes && source != target
    requires i < |w.archetypes[source].records|
    requires s.Size() == w.archetypes[source].storage.Size() - 1
    requires t.Size() == w.archetypes[target].storage.Size() + 1
    ensures SizesAgree(WithMoved(w, source, i, target, s, t))
  {
    MovedRecordFacts(w, source, i, target, s, t);
  }

  lemma MovedPointers(w: World, source: Mask, i: nat, target: Mask, s: A.Archetype, t: A.Archetype)
    requires RowsPointBack(w) && RecordsPointAtRows(w) && SizesAgree(w)
    requires source in w.archetypes && target in w.archetypes && source != target
    requires i < |w.archetypes[source].records|
    requires s.Size() == w.archetypes[source].storage.Size() - 1
    requires t.Size() == w.archetypes[target].storage.Size() + 1
    ensures var w' := WithMoved(w, source, i, target, s, t);
      RowsPointBack(w') && RecordsPointAtRows(w') && SizesAgree(w')
  {
    MovedRowsPointBack(w, source, i, target, s, t);
    MovedRecordsPointAtRows(w, source, i, target, s, t);
    MovedSizes(w, source, i, target, s, t);
  }

  /** The row of an entity other than the moved one reads the same after the
      move. */
  lemma MovedRowOf(w: World, source: Mask, i: nat, target: Mask, s: A.Archetype, t: A.Archetype, x: EntityId)
    requires RowsPointBack(w) && RecordsPointAtRows(w) && SizesAgree(w)
    requires source in w.archetypes && target in w.archetypes && source != target
    requires i < |w.archetypes[source].records|
    requires A.SwapRemoved(s, w.archetypes[source].storage, i)
    requires A.Appended(t, w.archetypes[target].storage)
    requires x != w.archetypes[source].records[i] && RecordOf(w, x).Assigned?
    requires var w' := WithMoved(w, source, i, target, s, t);
      RecordsPointAtRows(w') && SizesAgree(w')
    ensures var w' := WithMoved(w, source, i, target, s, t);
      && RecordOf(w', x).Assigned?
      && RecordOf(w', x).archetype == RecordOf(w, x).archetype
      && EntityRow(w', x) == EntityRow(w, x)
  {
    var src := w.archetypes[source];
    var n := |src.records|;
    var r := RecordOf(w, x);
    MovedRecordFacts(w, source, i, target, s, t);
    if x == src.records[n - 1] {
      RecordsDistinct(w, source, i, n - 1);
      assert r == Assigned(source, n - 1);
    } else if r.archetype == source {
      RecordsDistinct(w, source, r.index, i);
      RecordsDistinct(w, source, r.index, n - 1);
    }
  }

  /** What `mask_archetype::move` establishes apart from the archetypes' own
      validity. */
  lemma MovedLinked(w: World, source: Mask, i: nat, target: Mask, s: A.Archetype, t: A.Archetype)
    requires Linked(w) && source in w.archetypes && target in w.archetypes && source != target
    requires i < |w.archetypes[source].records|
    requires s.Size() == w.archetypes[source].storage.Size() - 1
    requires t.Size() == w.archetypes[target].storage.Size() + 1
    ensures var w' := WithMoved(w, source, i, target, s, t);
      && Linked(w') && SameRegistry(w, w')
      && w'.archetypes == w.archetypes[target := MaskArchetype(t, w.archetypes[target].records + [w.archetypes[source].records[i]])]
                                      [source := MaskArchetype(s, w'.archetypes[source].records)]
      && w'.views == w.views && w'.creationOrder == w.creationOrder
  {
    MovedRecordFacts(w, source, i, target, s, t);
    MovedPointers(w, source, i, target, s, t);
  }

  /** The moved entity's record points at the row appended to `target`. */
  lemma MovedEntityRow(w: World, source: Mask, i: nat, target: Mask, s: A.Archetype, t: A.Archetype)
    requires Linked(w) && source in w.archetypes && target in w.archetypes && source != target
    requires i < |w.archetypes[source].records|
    requires s.Size() == w.archetypes[source].storage.Size() - 1
    requires t.Size() == w.archetypes[target].storage.Size() + 1
    ensures var w' := WithMoved(w, source, i, target, s, t);
      var e := w.archetypes[source].records[i];
      && Linked(w')
      && RecordOf(w, e) == Assigned(source, i)
      && RecordOf(w', e) == Assigned(target, |w.archetypes[target].records|)
      && EntityRow(w', e) == t.rows[w.archetypes[target].storage.Size()]
  {
    MovedLinked(w, source, i, target, s, t);
    MovedRecordFacts(w, source, i, target, s, t);
  }

  /** The row `move` appends carries exactly the target's components: shared
      ones copied from the source row, the others defaulted. */
  lemma MovedValues(t: A.Archetype, target: Mask, n: nat, infos: seq<ComponentInfo>, row: Row, source: Mask)
    requires StorageOk(t, target, infos) && n < t.Size() && row.Keys == source
    requires forall c | c in t.Mask() && c in source :: t.rows[n][c] == row[c]
    requires forall c | c in t.Mask() && c !in source :: t.rows[n][c] == infos[c].defaultValue
    ensures t.rows[n].Keys == target
    ensures forall c | c in target && c in source :: t.rows[n][c] == row[c]
    ensures forall c | c in target && c !in source :: c < |infos| && t.rows[n][c] == infos[c].defaultValue
  {
  }

  /** `mask_archetype::move(index, target)`: moves the row into `target`,
      points the moved record at its new row, and re-points the record of the
      row that took its place in the source. */
  function MaskMove(w: World, source: Mask, i: nat, target: Mask): (w': World)
    requires Valid(w) && source in w.archetypes && target in w.archetypes && source != target
    requires i < |w.archetypes[source].records|
    ensures Valid(w') && SameRegistry(w, w')
    ensures w'.archetypes.Keys == w.archetypes.Keys
    ensures w'.views == w.views && w'.creationOrder == w.creationOrder
  {
    var src := w.archetypes[source];
    var tgt := w.archetypes[target];
    assert StorageOk(src.storage, source, w.infos);
    assert StorageOk(tgt.storage, target, w.infos);
    var moved := A.Move(src.storage, i, tgt.storage, w.infos);
    var w' := WithMoved(w, source, i, target, moved.source, moved.target);
    MovedLinked(w, source, i, target, moved.source, moved.target);
    StoragesUpdate(w.archetypes, w.infos, target, w'.archetypes[target]);
    StoragesUpdate(w.archetypes[target := w'.archetypes[target]], w.infos, source, w'.archetypes[source]);
    w'
  }

  /** After `move`, the moved entity's record points at the row appended to
      `target`; that row carries exactly the target's components, with the
      values of the ones the source also has and defaults for the rest. */
  lemma MaskMoveMovesEntity(w: World, source: Mask, i: nat, target: Mask)
    requires Valid(w) && source in w.archetypes && target in w.archetypes && source != target
    requires i < |w.archetypes[source].records|
    ensures var w' := MaskMove(w, source, i, target);
      var e := w.archetypes[source].records[i];
      && RecordOf(w, e) == Assigned(source, i)
      && RecordOf(w', e) == Assigned(target, |w.archetypes[target].records|)
      && EntityRow(w, e).Keys == source
      && EntityRow(w', e).Keys == target
      && (forall c | c in target && c in source :: EntityRow(w', e)[c] == EntityRow(w, e)[c])
      && (forall c | c in target && c !in source :: c < |w.infos| && EntityRow(w', e)[c] == w.infos[c].defaultValue)
  {
    var src := w.archetypes[source];
    var tgt := w.archetypes[target];
    assert StorageOk(src.storage, source, w.infos);
    assert StorageOk(tgt.storage, target, w.infos);
    var moved := A.Move(src.storage, i, tgt.storage, w.infos);
    MovedEntityRow(w, source, i, target, moved.source, moved.target);
    MovedValues(moved.target, target, tgt.storage.Size(), w.infos, src.storage.rows[i], source);
  }

  /** Every entity other than the moved one keeps its archetype and its
      values, for any new storages that keep the rows that stay. */
  lemma MovedOthers(w: World, source: Mask, i: nat, target: Mask, s: A.Archetype, t: A.Archetype)
    requires Linked(w) && source in w.archetypes && target in w.archetypes && source != target
    requires i < |w.archetypes[source].records|
    requires A.SwapRemoved(s, w.archetypes[source].storage, i)
    requires A.Appended(t, w.archetypes[target].storage)
    ensures var w' := WithMoved(w, source, i, target, s, t);
      var e := w.archetypes[source].records[i];
      && Linked(w')
      && (forall x | x != e :: RecordOf(w', x).Assigned? == RecordOf(w, x).Assigned?)
      && (forall x | x != e && RecordOf(w, x).Assigned? ::
            RecordOf(w', x).archetype == RecordOf(w, x).archetype && EntityRow(w', x) == EntityRow(w, x))
  {
    var w' := WithMoved(w, source, i, target, s, t);
    var e := w.archetypes[source].records[i];
    MovedLinked(w, source, i, target, s, t);
    MovedRecordFacts(w, source, i, target, s, t);
    forall x | x != e && RecordOf(w, x).Assigned?
      ensures RecordOf(w', x).Assigned?
      ensures RecordOf(w', x).archetype == RecordOf(w, x).archetype
      ensures EntityRow(w', x) == EntityRow(w, x)
    {
      MovedRowOf(w, source, i, target, s, t, x);
    }
    RecordsDistinct(w, source, i, |w.archetypes[source].records| - 1);
  }

  /** After `move`, every other entity keeps its archetype and its values. */
  lemma MaskMoveKeepsOthers(w: World, source: Mask, i: nat, target: Mask)
    requires Valid(w) && source in w.archetypes && target in w.archetypes && source != target
    requires i < |w.archetypes[source].records|
    ensures var w' := MaskMove(w, source, i, target);
      var e := w.archetypes[source].records[i];
      && (forall x | x != e :: RecordOf(w', x).Assigned? == RecordOf(w, x).Assigned?)
      && (forall x | x != e && RecordOf(w, x).Assigned? ::
            RecordOf(w', x).archetype == RecordOf(w, x).archetype && EntityRow(w', x) == EntityRow(w, x))
  {
    var src := w.archetypes[source];
    var tgt := w.archetypes[target];
    assert StorageOk(src.storage, source, w.infos);
    assert StorageOk(tgt.storage, target, w.infos);
    MoveKeepsOthersCore(w, source, i, target);
  }

  lemma MoveKeepsOthersCore(w: World, source: Mask, i: nat, target: Mask)
    requires Linked(w) && source in w.archetypes && target in w.archetypes && source != target
    requires i < |w.archetypes[source].records|
    requires StorageOk(w.archetypes[source].storage, source, w.infos)
    requires StorageOk(w.archetypes[target].storage, target, w.infos)
    ensures var moved := A.Move(w.archetypes[source].storage, i, w.archetypes[target].storage, w.infos);
      var w' := WithMoved(w, source, i, target, moved.source, moved.target);
      var e := w.archetypes[source].records[i];
      && Linked(w')
      && (forall x | x != e :: RecordOf(w', x).Assigned? == RecordOf(w, x).Assigned?)
      && (forall x | x != e && RecordOf(w, x).Assigned? ::
            RecordOf(w', x).archetype == RecordOf(w, x).archetype && EntityRow(w', x) == EntityRow(w, x))
  {
    var src := w.archetypes[source].storage;
    var tgt := w.archetypes[target].storage;
    var moved := A.Move(src, i, tgt, w.infos);
    MovedOthers(w, source, i, target, moved.source, moved.target);
  }

  // ---------------------------------------------------------------------------
  // Structural changes

  /** What `add<Ts...>` needs from its caller: registered types; on an
      assigned entity, at least one type it does not own yet (otherwise the
      target archetype is the source one and `move` rejects the self-move);
      and a target archetype that fits in a chunk if it must be created. */
  predicate CanAdd(w: World, e: EntityId, ts: seq<TypeId>)
    requires Valid(w)
  {
    && AllRegistered(w, ts)
    && var list := ComponentList(w, ts);
       match RecordOf(w, e)
       case Unassigned =>
         var columns := AppendNew([EntityIndex(w)], list);
         MaskOf(columns) in w.archetypes || A.Fits(w.infos, columns)
       case Assigned(m, _) =>
         && m in w.archetypes
         && !(MaskOf(list) <= m)
         && (m + MaskOf(list) in w.archetypes
             || A.Fits(w.infos, AppendNew(w.archetypes[m].storage.columns, list)))
  }

  /** The archetype an `add` lands in: fetched from the cache or created. */
  function AddTarget(w: World, e: EntityId, ts: seq<TypeId>): (r: (World, Mask))
    requires Valid(w) && CanAdd(w, e, ts)
    ensures Valid(r.0) && SameRegistry(w, r.0) && r.1 in r.0.archetypes
    ensures r.0.entityRecords == w.entityRecords
    ensures forall m | m in w.archetypes :: m in r.0.archetypes && r.0.archetypes[m] == w.archetypes[m]
    ensures r.0.archetypes.Keys == w.archetypes.Keys + {r.1}
    ensures RecordOf(w, e).Unassigned? ==> r.1 == {EntityIndex(w)} + MakeMask(w, ts)
    ensures RecordOf(w, e).Assigned? ==> r.1 == RecordOf(w, e).archetype + MakeMask(w, ts)
    ensures ViewsGrown(w, r.0)
  {
    var list := ComponentList(w, ts);
    match RecordOf(w, e)
    case Unassigned =>
      var columns := AppendNew([EntityIndex(w)], list);
      var m := MaskOf(columns);
      assert MaskOf([EntityIndex(w)]) == {EntityIndex(w)};
      if m in w.archetypes then (w, m) else (MakeArchetype(w, columns), m)
    case Assigned(source, _) =>
      var m := source + MaskOf(list);
      if m in w.archetypes then (w, m)
      else
        var columns := AppendNew(w.archetypes[source].storage.columns, list);
        assert StorageOk(w.archetypes[source].storage, source, w.infos);
        assert MaskOf(columns) == m;
        (MakeArchetype(w, columns), m)
  }

  /** `add<Ts...>(id)`: an unassigned entity is added to the archetype for
      `{entity} + Ts`; an assigned one is moved to the archetype for
      `current | Ts`, created with layout `current + Ts` if it is not cached. */
  function Add(w: World, e: EntityId, ts: seq<TypeId>): (w': World)
    requires Valid(w) && CanAdd(w, e, ts)
    ensures Valid(w') && SameRegistry(w, w') && w.archetypes.Keys <= w'.archetypes.Keys
    ensures ViewsGrown(w, w')
  {
    var (w1, m) := AddTarget(w, e, ts);
    match RecordOf(w, e)
    case Unassigned => MaskAdd(w1, m, e)
    case Assigned(source, index) =>
      assert RecordOf(w1, e) == RecordOf(w, e);
      MaskMove(w1, source, index, m)
  }

  /** What `remove<Ts...>` needs from its caller: an assigned entity that owns
      every type in `Ts`, at least one such type (otherwise the target is the
      source and `move` rejects the self-move), and at least one component left
      (otherwise the target layout is empty and its row size zero). */
  predicate CanRemove(w: World, e: EntityId, ts: seq<TypeId>)
  {
    && AllRegistered(w, ts)
    && RecordOf(w, e).Assigned?
    && var removed := MakeMask(w, ts);
       && removed <= RecordOf(w, e).archetype
       && removed != {}
       && removed != RecordOf(w, e).archetype
  }

  /** The archetype a `remove` lands in: the one for `current ^ Ts`. */
  function RemoveTarget(w: World, e: EntityId, ts: seq<TypeId>): (r: (World, Mask))
    requires Valid(w) && CanRemove(w, e, ts)
    ensures Valid(r.0) && SameRegistry(w, r.0) && r.1 in r.0.archetypes
    ensures r.0.entityRecords == w.entityRecords
    ensures forall m | m in w.archetypes :: m in r.0.archetypes && r.0.archetypes[m] == w.archetypes[m]
    ensures r.0.archetypes.Keys == w.archetypes.Keys + {r.1}
    ensures r.1 == RecordOf(w, e).archetype - MakeMask(w, ts)
    ensures ViewsGrown(w, r.0)
  {
    var source := RecordOf(w, e).archetype;
    var removed := MakeMask(w, ts);
    var m := Xor(source, removed);
    assert m == source - removed;
    if m in w.archetypes then (w, m)
    else
      var columns := Erase(w.archetypes[source].storage.columns, removed);
      assert StorageOk(w.archetypes[source].storage, source, w.infos);
      EraseFits(w.infos, w.archetypes[source].storage.columns, removed);
      (MakeArchetype(w, columns), m)
  }

  /** Erasing components from a list that fits leaves a list that fits, as
      long as something is left. */
  lemma EraseFits(infos: seq<ComponentInfo>, cols: seq<ComponentIndex>, m: Mask)
    requires A.Fits(infos, cols) && MaskOf(cols) - m != {}
    ensures A.Fits(infos, Erase(cols, m))
  {
    EraseSizeSum(infos, cols, m);
  }

  lemma {:induction false} EraseSizeSum(infos: seq<ComponentInfo>, cols: seq<ComponentIndex>, m: Mask)
    requires Registered(infos, cols)
    ensures Registered(infos, Erase(cols, m))
    ensures Layout.SizeSum(infos, Erase(cols, m)) <= Layout.SizeSum(infos, cols)
  {
    if cols != [] {
      var init := cols[..|cols| - 1];
      var x := cols[|cols| - 1];
      EraseSizeSum(infos, init, m);
      var r := Erase(cols, m);
      if x !in m {
        assert r[..|r| - 1] == Erase(init, m);
      } else {
        assert r == Erase(init, m);
      }
    }
  }

  /** `remove<Ts...>(id)`: moves the entity to the archetype for
      `current ^ Ts`, created with layout `current - Ts` if not cached. */
  function Remove(w: World, e: EntityId, ts: seq<TypeId>): (w': World)
    requires Valid(w) && CanRemove(w, e, ts)
    ensures Valid(w') && SameRegistry(w, w') && w.archetypes.Keys <= w'.archetypes.Keys
    ensures ViewsGrown(w, w')
  {
    var (w1, m) := RemoveTarget(w, e, ts);
    var r := RecordOf(w, e);
    assert RecordOf(w1, e) == r;
    MaskMove(w1, r.archetype, r.index, m)
  }

  // ---------------------------------------------------------------------------
  // Properties of structural changes

  /** The mask of an assigned entity is its record's archetype key. */
  function EntityMask(w: World, e: EntityId): Mask
    requires RecordOf(w, e).Assigned?
  {
    RecordOf(w, e).archetype
  }

  /** An assigned entity's row carries exactly the components of its mask. */
  lemma RowKeys(w: World, e: EntityId)
    requires Valid(w) && RecordOf(w, e).Assigned?
    ensures EntityRow(w, e).Keys == EntityMask(w, e)
  {
    var r := RecordOf(w, e);
    assert StorageOk(w.archetypes[r.archetype].storage, r.archetype, w.infos);
  }

  /** Every entity other than `e` keeps its assignment, its mask and its
      component values. */
  ghost predicate OthersUnchanged(w: World, w': World, e: EntityId)
    requires Linked(w) && Linked(w')
  {
    && (forall x | x != e :: RecordOf(w', x).Assigned? == RecordOf(w, x).Assigned?)
    && (forall x | x != e && RecordOf(w, x).Assigned? ::
          EntityMask(w', x) == EntityMask(w, x) && EntityRow(w', x) == EntityRow(w, x))
  }

  /** `e` sits in the archetype for `mask` in `w'`; every component it owned in
      `w` and still owns keeps its value, and every other component holds the
      default value of its type. */
  predicate Reassigned(w: World, w': World, e: EntityId, mask: Mask)
    requires Linked(w) && Linked(w')
  {
    && RecordOf(w', e).Assigned?
    && EntityMask(w', e) == mask
    && EntityRow(w', e).Keys == mask
    && forall c | c in mask ::
         if RecordOf(w, e).Assigned? && c in EntityMask(w, e) then
           c in EntityRow(w, e) && EntityRow(w', e)[c] == EntityRow(w, e)[c]
         else
           c < |w.infos| && EntityRow(w', e)[c] == w.infos[c].defaultValue
  }

  lemma OthersUnchangedTrans(w0: World, w1: World, w2: World, e: EntityId)
    requires Linked(w0) && Linked(w1) && Linked(w2)
    requires OthersUnchanged(w0, w1, e) && OthersUnchanged(w1, w2, e)
    ensures OthersUnchanged(w0, w2, e)
  {
  }

  /** A world that only gains archetypes leaves every entity where it was. */
  lemma GrownUnchanged(w: World, w1: World, e: EntityId)
    requires Linked(w) && Linked(w1) && w1.entityRecords == w.entityRecords
    requires forall m | m in w.archetypes :: m in w1.archetypes && w1.archetypes[m] == w.archetypes[m]
    ensures OthersUnchanged(w, w1, e)
    ensures RecordOf(w1, e) == RecordOf(w, e)
    ensures RecordOf(w, e).Assigned? ==> EntityRow(w1, e) == EntityRow(w, e)
  {
  }

  /** `add` on an unassigned entity: it lands in the archetype for
      `{entity} + Ts` with every component at its default. */
  lemma AddUnassigned(w: World, e: EntityId, ts: seq<TypeId>)
    requires Valid(w) && CanAdd(w, e, ts) && RecordOf(w, e).Unassigned?
    ensures Reassigned(w, Add(w, e, ts), e, {EntityIndex(w)} + MakeMask(w, ts))
    ensures OthersUnchanged(w, Add(w, e, ts), e)
  {
    var (w1, m) := AddTarget(w, e, ts);
    var w' := MaskAdd(w1, m, e);
    assert Add(w, e, ts) == w';
    AddedToWorld(w, w1, w', e, m);
  }

  lemma AddedToWorld(w: World, w1: World, w': World, e: EntityId, m: Mask)
    requires Linked(w) && Linked(w1) && Linked(w') && w1.infos == w.infos
    requires w1.entityRecords == w.entityRecords
    requires forall m | m in w.archetypes :: m in w1.archetypes && w1.archetypes[m] == w.archetypes[m]
    requires RecordOf(w, e).Unassigned? && RecordOf(w', e).Assigned? && RecordOf(w', e).archetype == m
    requires EntityRow(w', e).Keys == m
    requires forall c | c in m :: c < |w.infos| && EntityRow(w', e)[c] == w.infos[c].defaultValue
    requires forall x | x != e :: RecordOf(w', x) == RecordOf(w1, x)
    requires forall x | x != e && RecordOf(w1, x).Assigned? :: EntityRow(w', x) == EntityRow(w1, x)
    ensures Reassigned(w, w', e, m)
    ensures OthersUnchanged(w, w', e)
  {
    GrownUnchanged(w, w1, e);
    OthersUnchangedTrans(w, w1, w', e);
  }

  /** `add` on an assigned entity: it moves to the archetype for the union. */
  lemma AddAssigned(w: World, e: EntityId, ts: seq<TypeId>)
    requires Valid(w) && CanAdd(w, e, ts) && RecordOf(w, e).Assigned?
    ensures Reassigned(w, Add(w, e, ts), e, EntityMask(w, e) + MakeMask(w, ts))
    ensures OthersUnchanged(w, Add(w, e, ts), e)
  {
    var (w1, m) := AddTarget(w, e, ts);
    var r := RecordOf(w, e);
    assert RecordOf(w1, e) == r;
    var w' := MaskMove(w1, r.archetype, r.index, m);
    assert Add(w, e, ts) == w';
    MovedInWorld(w, w1, r.archetype, r.index, m);
  }

  /** Moving an assigned entity, after the target archetype has been fetched
      or created, reassigns it to the target and leaves everyone else. */
  lemma MovedInWorld(w: World, w1: World, source: Mask, i: nat, target: Mask)
    requires Valid(w1) && Linked(w) && w1.infos == w.infos
    requires w1.entityRecords == w.entityRecords
    requires forall m | m in w.archetypes :: m in w1.archetypes && w1.archetypes[m] == w.archetypes[m]
    requires source in w.archetypes && target in w1.archetypes && source != target
    requires i < |w.archetypes[source].records|
    ensures var e := w.archetypes[source].records[i];
      var w' := MaskMove(w1, source, i, target);
      && Reassigned(w, w', e, target)
      && OthersUnchanged(w, w', e)
  {
    var e := w.archetypes[source].records[i];
    var w' := MaskMove(w1, source, i, target);
    MaskMoveMovesEntity(w1, source, i, target);
    MaskMoveKeepsOthers(w1, source, i, target);
    MovedCombine(w, w1, w', e, source, target);
  }

  lemma MovedCombine(w: World, w1: World, w': World, e: EntityId, source: Mask, target: Mask)
    requires Linked(w) && Linked(w1) && Linked(w') && w1.infos == w.infos
    requires w1.entityRecords == w.entityRecords
    requires forall m | m in w.archetypes :: m in w1.archetypes && w1.archetypes[m] == w.archetypes[m]
    requires RecordOf(w1, e).Assigned? && RecordOf(w1, e).archetype == source
    requires RecordOf(w', e).Assigned? && RecordOf(w', e).archetype == target
    requires EntityRow(w', e).Keys == target && EntityRow(w1, e).Keys == source
    requires forall c | c in target && c in source :: EntityRow(w', e)[c] == EntityRow(w1, e)[c]
    requires forall c | c in target && c !in source :: c < |w1.infos| && EntityRow(w', e)[c] == w1.infos[c].defaultValue
    requires forall x | x != e :: RecordOf(w', x).Assigned? == RecordOf(w1, x).Assigned?
    requires forall x | x != e && RecordOf(w1, x).Assigned? ::
      RecordOf(w', x).archetype == RecordOf(w1, x).archetype && EntityRow(w', x) == EntityRow(w1, x)
    ensures Reassigned(w, w', e, target)
    ensures OthersUnchanged(w, w', e)
  {
    GrownUnchanged(w, w1, e);
    OthersUnchangedTrans(w, w1, w', e);
  }

  /** `add` keeps the world invariant; the entity's mask becomes the union,
      the components it had keep their values and the new ones hold their
      defaults; every other entity keeps its mask and its values; no cached
      archetype is dropped. */
  lemma AddCorrect(w: World, e: EntityId, ts: seq<TypeId>)
    requires Valid(w) && CanAdd(w, e, ts)
    ensures Reassigned(w, Add(w, e, ts), e,
      (if RecordOf(w, e).Unassigned? then {EntityIndex(w)} else EntityMask(w, e)) + MakeMask(w, ts))
    ensures OthersUnchanged(w, Add(w, e, ts), e)
  {
    if RecordOf(w, e).Unassigned? {
      AddUnassigned(w, e, ts);
    } else {
      AddAssigned(w, e, ts);
    }
  }

  /** `remove` keeps the world invariant; the entity's mask loses exactly the
      removed components and the remaining ones keep their values; every
      other entity keeps its mask and its values. */
  lemma RemoveCorrect(w: World, e: EntityId, ts: seq<TypeId>)
    requires Valid(w) && CanRemove(w, e, ts)
    ensures Reassigned(w, Remove(w, e, ts), e, EntityMask(w, e) - MakeMask(w, ts))
    ensures OthersUnchanged(w, Remove(w, e, ts), e)
  {
    var (w1, m) := RemoveTarget(w, e, ts);
    var r := RecordOf(w, e);
    assert RecordOf(w1, e) == r;
    var w' := MaskMove(w1, r.archetype, r.index, m);
    assert Remove(w, e, ts) == w';
    MovedInWorld(w, w1, r.archetype, r.index, m);
  }

  /** After `add<Ts...>`, `component<T>` for a `T` of the pack reads the value
      the entity already had for it, or the type's default value when the
      component is new to the entity. */
  lemma ComponentAfterAdd(w: World, e: EntityId, ts: seq<TypeId>, k: nat)
    requires Valid(w) && CanAdd(w, e, ts) && k < |ts|
    ensures var w' := Add(w, e, ts);
      var c := w.componentIndex[ts[k]];
      && RecordOf(w', e).Assigned? && ts[k] in w'.componentIndex && w'.componentIndex[ts[k]] == c
      && c in RecordOf(w', e).archetype
      && Component(w', e, ts[k])
         == if RecordOf(w, e).Assigned? && c in EntityMask(w, e) then Component(w, e, ts[k])
            else w.infos[c].defaultValue
  {
    var w' := Add(w, e, ts);
    var c := w.componentIndex[ts[k]];
    AddCorrect(w, e, ts);
    assert ComponentList(w, ts)[k] == c;
    assert c in MakeMask(w, ts);
    if RecordOf(w, e).Assigned? && c in EntityMask(w, e) {
      RowKeys(w, e);
    }
  }

  /** `e` is assigned in both worlds, with the same mask and the same values. */
  predicate SameEntity(w: World, w': World, e: EntityId)
    requires Linked(w) && Linked(w')
  {
    && RecordOf(w, e).Assigned? && RecordOf(w', e).Assigned?
    && EntityMask(w', e) == EntityMask(w, e)
    && EntityRow(w', e) == EntityRow(w, e)
  }

  /** Every cached archetype has at least one component: its layout fits a
      chunk only when its column list is non-empty. */
  lemma MaskNonEmpty(w: World, m: Mask)
    requires Valid(w) && m in w.archetypes
    ensures m != {}
  {
    var a := w.archetypes[m].storage;
    assert StorageOk(a, m, w.infos);
    assert a.columns[0] in MaskOf(a.columns);
  }

  /** Adding components the entity does not own and then removing them
      returns it to an archetype with its original mask and its original
      values. */
  lemma AddRemoveRoundTrip(w: World, e: EntityId, ts: seq<TypeId>)
    requires Valid(w) && CanAdd(w, e, ts) && RecordOf(w, e).Assigned?
    requires MakeMask(w, ts) !! EntityMask(w, e)
    ensures CanRemove(Add(w, e, ts), e, ts)
    ensures SameEntity(w, Remove(Add(w, e, ts), e, ts), e)
  {
    var w1 := Add(w, e, ts);
    var mask := EntityMask(w, e);
    var added := MakeMask(w, ts);
    AddAssigned(w, e, ts);
    RowKeys(w, e);
    MaskNonEmpty(w, mask);
    CanRemoveAfterAdd(w, w1, e, ts, mask);
    RemoveCorrect(w1, e, ts);
    var w2 := Remove(w1, e, ts);
    assert (mask + added) - added == mask;
    RoundTripCombine(w, w1, w2, e, mask, added);
  }

  lemma CanRemoveAfterAdd(w: World, w1: World, e: EntityId, ts: seq<TypeId>, mask: Mask)
    requires Linked(w) && Linked(w1) && w1.componentIndex == w.componentIndex
    requires AllRegistered(w, ts) && mask != {} && !(MakeMask(w, ts) <= mask) && MakeMask(w, ts) !! mask
    requires Reassigned(w, w1, e, mask + MakeMask(w, ts))
    ensures CanRemove(w1, e, ts) && MakeMask(w1, ts) == MakeMask(w, ts)
  {
    assert ComponentList(w1, ts) == ComponentList(w, ts);
  }

  lemma RoundTripCombine(w: World, w1: World, w2: World, e: EntityId, mask: Mask, added: Mask)
    requires Linked(w) && Linked(w1) && Linked(w2)
    requires RecordOf(w, e).Assigned? && EntityMask(w, e) == mask && EntityRow(w, e).Keys == mask
    requires Reassigned(w, w1, e, mask + added) && Reassigned(w1, w2, e, mask)
    ensures SameEntity(w, w2, e)
  {
    var r2 := EntityRow(w2, e);
    var r := EntityRow(w, e);
    forall c | c in mask
      ensures r2[c] == r[c]
    {
      assert c in EntityMask(w1, e);
    }
    assert r2 == r;
  }

  // ---------------------------------------------------------------------------
  // Sequences of world operations

  /** One public operation of the world, with its arguments. */
  datatype Step =
    | CreateStep
    | RegisterStep(types: seq<(TypeId, ComponentInfo)>)
    | AddStep(entity: EntityId, addTypes: seq<TypeId>)
    | RemoveStep(entity: EntityId, removeTypes: seq<TypeId>)
    | ViewStep(viewTypes: seq<TypeId>)

  /** What each operation needs from its caller. */
  predicate Enabled(w: World, s: Step)
    requires Valid(w)
  {
    match s
    case CreateStep => true
    case RegisterStep(types) => forall i | 0 <= i < |types| :: types[i].1.size > 0
    case AddStep(e, ts) => CanAdd(w, e, ts)
    case RemoveStep(e, ts) => CanRemove(w, e, ts)
    case ViewStep(ts) => AllRegistered(w, ts)
  }

  function Apply(w: World, s: Step): (w': World)
    requires Valid(w) && Enabled(w, s)
    ensures Valid(w')
  {
    match s
    case CreateStep => Create(w).world
    case RegisterStep(types) => RegisterComponents(w, types)
    case AddStep(e, ts) => Add(w, e, ts)
    case RemoveStep(e, ts) => Remove(w, e, ts)
    case ViewStep(ts) => MakeView(w, ts).world
  }

  /** Every step can be taken in the world the steps before it leave. */
  predicate Runnable(w: World, steps: seq<Step>)
    requires Valid(w)
    decreases |steps|
  {
    steps == [] || (Enabled(w, steps[0]) && Runnable(Apply(w, steps[0]), steps[1..]))
  }

  function Run(w: World, steps: seq<Step>): (w': World)
    requires Valid(w) && Runnable(w, steps)
    ensures Valid(w')
    decreases |steps|
  {
    if steps == [] then w else Run(Apply(w, steps[0]), steps[1..])
  }

  function CreateCount(steps: seq<Step>): nat
  {
    if steps == [] then 0 else (if steps[0].CreateStep? then 1 else 0) + CreateCount(steps[1..])
  }

  /** Only `create` advances the entity counter, by one each time. */
  lemma {:induction false} RunAdvancesCounter(w: World, steps: seq<Step>)
    requires Valid(w) && Runnable(w, steps)
    ensures Run(w, steps).nextEntity == w.nextEntity + CreateCount(steps)
    decreases |steps|
  {
    if steps != [] {
      RunAdvancesCounter(Apply(w, steps[0]), steps[1..]);
    }
  }

  /** A `create` after any sequence of operations returns a larger id than an
      earlier `create`: larger by one plus the number of `create`s between. */
  lemma CreateIncreasing(w: World, steps: seq<Step>)
    requires Valid(w) && Runnable(Create(w).world, steps)
    ensures Create(Run(Create(w).world, steps)).id == Create(w).id + 1 + CreateCount(steps)
    ensures Create(Run(Create(w).world, steps)).id > Create(w).id
  {
    RunAdvancesCounter(Create(w).world, steps);
  }
}
