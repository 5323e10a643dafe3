/** The column layout of an archetype (archetype.cpp, `initialize_layout`), and
    the integer arithmetic that turns a row number into a chunk, a slot inside
    the chunk and a byte offset inside the chunk. */
module Layout {
  import opened Registry

  /** Byte capacity of one chunk. */
  const CHUNK_SIZE: nat := 4096

  /** Offsets are stored as 16-bit integers. */
  const OFFSET_LIMIT: nat := 0x1_0000

  /** `order` is the sorted component list, `entityPerChunk` the number of rows
      a chunk holds and `offsets` the byte offset of each component's column. */
  datatype ColumnLayout = ColumnLayout(
    order: seq<ComponentIndex>,
    entityPerChunk: nat,
    offsets: map<ComponentIndex, nat>)

  /** The sort comparator: larger alignment first, ties broken by the smaller
      component index. */
  predicate Before(infos: seq<ComponentInfo>, a: ComponentIndex, b: ComponentIndex)
    requires a < |infos| && b < |infos|
  {
    if infos[a].align == infos[b].align then a < b else infos[a].align > infos[b].align
  }

  predicate LayoutSorted(infos: seq<ComponentInfo>, s: seq<ComponentIndex>)
    requires Registered(infos, s)
  {
    forall i, j | 0 <= i < j < |s| :: Before(infos, s[i], s[j])
  }

  /** Inserts `x` at its place in a sorted list. */
  function Insert(infos: seq<ComponentInfo>, x: ComponentIndex, s: seq<ComponentIndex>): (r: seq<ComponentIndex>)
    requires Registered(infos, s) && x < |infos| && x !in s && LayoutSorted(infos, s)
    ensures Registered(infos, r) && LayoutSorted(infos, r)
    ensures multiset(r) == multiset(s) + multiset{x}
  {
    if s == [] then [x]
    else if Before(infos, x, s[0]) then
      SortedCons(infos, x, s);
      [x] + s
    else
      var t := Insert(infos, x, s[1..]);
      InsertAfterHead(infos, x, s, t);
      SortedCons(infos, s[0], t);
      assert s == [s[0]] + s[1..];
      [s[0]] + t
  }

  /** A sorted list stays sorted under a head that comes before all of it. */
  lemma SortedCons(infos: seq<ComponentInfo>, h: ComponentIndex, t: seq<ComponentIndex>)
    requires h < |infos| && Registered(infos, t) && LayoutSorted(infos, t)
    requires forall k | 0 <= k < |t| :: Before(infos, h, t[k])
    ensures Registered(infos, [h] + t) && LayoutSorted(infos, [h] + t)
  {
    var r := [h] + t;
    forall i, j | 0 <= i < j < |r|
      ensures Before(infos, r[i], r[j])
    {
      if i > 0 {
        assert r[i] == t[i - 1] && r[j] == t[j - 1];
      }
    }
  }

  lemma InsertAfterHead(infos: seq<ComponentInfo>, x: ComponentIndex, s: seq<ComponentIndex>, t: seq<ComponentIndex>)
    requires Registered(infos, s) && x < |infos| && x !in s && LayoutSorted(infos, s)
    requires s != [] && !Before(infos, x, s[0])
    requires Registered(infos, t) && multiset(t) == multiset(s[1..]) + multiset{x}
    ensures forall k | 0 <= k < |t| :: Before(infos, s[0], t[k])
  {
    forall k | 0 <= k < |t|
      ensures Before(infos, s[0], t[k])
    {
      assert t[k] in multiset(t);
      if t[k] != x {
        assert t[k] in multiset(s[1..]);
        var m :| 0 <= m < |s[1..]| && s[1..][m] == t[k];
        assert s[m + 1] == t[k];
      }
    }
  }

  /** The component list in layout order (the `std::sort` call). */
  function Sort(infos: seq<ComponentInfo>, ids: seq<ComponentIndex>): (r: seq<ComponentIndex>)
    requires Registered(infos, ids) && Distinct(ids)
    ensures Registered(infos, r) && LayoutSorted(infos, r)
    ensures multiset(r) == multiset(ids)
  {
    if ids == [] then []
    else
      var init := ids[..|ids| - 1];
      var x := ids[|ids| - 1];
      var t := Sort(infos, init);
      assert x !in multiset(init);
      assert ids == init + [x];
      Insert(infos, x, t)
  }

  /** Sum of the byte sizes of the components in `s` (the `entity_size` loop). */
  function SizeSum(infos: seq<ComponentInfo>, s: seq<ComponentIndex>): nat
    requires Registered(infos, s)
  {
    if s == [] then 0 else SizeSum(infos, s[..|s| - 1]) + infos[s[|s| - 1]].size
  }

  /** The column offsets: each component's column starts where the previous
      one's `size * entityPerChunk` bytes end. */
  function OffsetMap(infos: seq<ComponentInfo>, order: seq<ComponentIndex>, epc: nat): map<ComponentIndex, nat>
    requires Registered(infos, order)
  {
    if order == [] then map[]
    else
      var init := order[..|order| - 1];
      OffsetMap(infos, init, epc)[order[|order| - 1] := epc * SizeSum(infos, init)]
  }

  /** The layout `initialize_layout` computes for a component list. */
  function MakeLayout(infos: seq<ComponentInfo>, ids: seq<ComponentIndex>): (l: ColumnLayout)
    requires WellFormed(infos) && Registered(infos, ids) && Distinct(ids) && |ids| > 0
    ensures multiset(l.order) == multiset(ids) && Registered(infos, l.order)
    ensures LayoutSorted(infos, l.order)
    ensures l.entityPerChunk == CHUNK_SIZE / SizeSum(infos, ids)
    ensures SizeSum(infos, ids) <= CHUNK_SIZE ==> l.entityPerChunk >= 1
    ensures l.offsets.Keys == MaskOf(ids)
  {
    var order := Sort(infos, ids);
    SizeSumPermutation(infos, order, ids);
    SizeSumPositive(infos, ids);
    var epc := CHUNK_SIZE / SizeSum(infos, order);
    OffsetMapKeys(infos, order, epc);
    assert forall c :: c in order <==> c in multiset(ids);
    ColumnLayout(order, epc, OffsetMap(infos, order, epc))
  }

  /** The loop form of `initialize_layout`: sum the sizes in layout order, divide
      the chunk size by that sum, then hand out cumulative offsets. */
  method InitializeLayout(infos: seq<ComponentInfo>, ids: seq<ComponentIndex>) returns (l: ColumnLayout)
    requires WellFormed(infos) && Registered(infos, ids) && Distinct(ids) && |ids| > 0
    ensures l == MakeLayout(infos, ids)
  {
    var list := Sort(infos, ids);
    var entitySize := 0;
    var k := 0;
    while k < |list|
      invariant 0 <= k <= |list|
      invariant entitySize == SizeSum(infos, list[..k])
    {
      SizeSumSnoc(infos, list, k);
      entitySize := entitySize + infos[list[k]].size;
      k := k + 1;
    }
    assert list[..k] == list;
    SizeSumPermutation(infos, list, ids);
    SizeSumPositive(infos, ids);
    var epc := CHUNK_SIZE / entitySize;
    var offsets := AssignOffsets(infos, list, epc);
    l := ColumnLayout(list, epc, offsets);
  }

  /** The offset loop of `initialize_layout`: each column starts where the
      previous one's `size * epc` bytes end. */
  method AssignOffsets(infos: seq<ComponentInfo>, list: seq<ComponentIndex>, epc: nat)
    returns (offsets: map<ComponentIndex, nat>)
    requires Registered(infos, list)
    ensures offsets == OffsetMap(infos, list, epc)
  {
    offsets := map[];
    var offset: nat := 0;
    var k := 0;
    while k < |list|
      invariant 0 <= k <= |list|
      invariant offset == epc * SizeSum(infos, list[..k])
      invariant offsets == OffsetMap(infos, list[..k], epc)
    {
      SizeSumSnoc(infos, list, k);
      OffsetMapSnoc(infos, list, epc, k);
      var size := infos[list[k]].size;
      OffsetStep(offset, epc, SizeSum(infos, list[..k]), size);
      offsets := offsets[list[k] := offset];
      offset := offset + size * epc;
      k := k + 1;
    }
    assert list[..k] == list;
  }

  /** Row `row` lives in chunk `row / epc`, at slot `row % epc`. */
  function Locate(row: nat, epc: nat): (r: (nat, nat))
    requires epc > 0
    ensures r.1 < epc && r.0 * epc + r.1 == row
  {
    (row / epc, row % epc)
  }

  /** Byte offset, inside its chunk, of component `c` at slot `slot`. */
  function ByteOffset(infos: seq<ComponentInfo>, l: ColumnLayout, c: ComponentIndex, slot: nat): nat
    requires c in l.offsets && c < |infos|
  {
    l.offsets[c] + slot * infos[c].size
  }

  // ---------------------------------------------------------------------------
  // Sums of sizes

  lemma {:induction false} SizeSumAppend(infos: seq<ComponentInfo>, s: seq<ComponentIndex>, t: seq<ComponentIndex>)
    requires Registered(infos, s) && Registered(infos, t)
    ensures Registered(infos, s + t)
    ensures SizeSum(infos, s + t) == SizeSum(infos, s) + SizeSum(infos, t)
    decreases |t|
  {
    if t == [] {
      assert s + t == s;
    } else {
      var t' := t[..|t| - 1];
      SizeSumAppend(infos, s, t');
      assert (s + t)[..|s + t| - 1] == s + t';
    }
  }

  lemma {:induction false} SizeSumPositive(infos: seq<ComponentInfo>, s: seq<ComponentIndex>)
    requires WellFormed(infos) && Registered(infos, s) && |s| > 0
    ensures SizeSum(infos, s) > 0
  {
  }

  /** The sum of sizes does not depend on the order of the components. */
  lemma {:induction false} SizeSumPermutation(infos: seq<ComponentInfo>, s: seq<ComponentIndex>, t: seq<ComponentIndex>)
    requires Registered(infos, s) && multiset(s) == multiset(t)
    ensures Registered(infos, t)
    ensures SizeSum(infos, s) == SizeSum(infos, t)
    decreases |s|
  {
    RegisteredPermutation(infos, s, t);
    if s != [] {
      var x := s[|s| - 1];
      var s' := s[..|s| - 1];
      assert s == s' + [x];
      assert multiset(s) == multiset(s') + multiset{x};
      assert x in multiset(t);
      var j :| 0 <= j < |t| && t[j] == x;
      var t' := t[..j] + t[j + 1..];
      MultisetRemoveAt(t, j);
      SizeSumRemoveAt(infos, t, j);
      SizeSumPermutation(infos, s', t');
    }
  }

  /** Dropping element `j` removes one copy of it from the multiset. */
  lemma MultisetRemoveAt<T>(t: seq<T>, j: nat)
    requires j < |t|
    ensures multiset(t[..j] + t[j + 1..]) == multiset(t) - multiset{t[j]}
  {
    assert t == t[..j] + [t[j]] + t[j + 1..];
  }

  /** Dropping element `j` lowers the size sum by that element's size. */
  lemma SizeSumRemoveAt(infos: seq<ComponentInfo>, t: seq<ComponentIndex>, j: nat)
    requires Registered(infos, t) && j < |t|
    ensures Registered(infos, t[..j] + t[j + 1..])
    ensures SizeSum(infos, t) == SizeSum(infos, t[..j] + t[j + 1..]) + infos[t[j]].size
  {
    var x := t[j];
    assert t == t[..j] + [x] + t[j + 1..];
    SizeSumAppend(infos, t[..j], [x]);
    SizeSumAppend(infos, t[..j] + [x], t[j + 1..]);
    SizeSumAppend(infos, t[..j], t[j + 1..]);
    assert SizeSum(infos, [x]) == infos[x].size by {
      assert [x][..0] == [];
    }
  }

  lemma RegisteredPermutation(infos: seq<ComponentInfo>, s: seq<ComponentIndex>, t: seq<ComponentIndex>)
    requires Registered(infos, s) && multiset(s) == multiset(t)
    ensures Registered(infos, t)
  {
    forall i | 0 <= i < |t|
      ensures t[i] < |infos|
    {
      assert t[i] in multiset(s);
      var j :| 0 <= j < |s| && s[j] == t[i];
    }
  }

  /** A prefix weighs no more than the whole list. */
  lemma SizeSumPrefix(infos: seq<ComponentInfo>, s: seq<ComponentIndex>, k: nat)
    requires Registered(infos, s) && k <= |s|
    ensures SizeSum(infos, s[..k]) <= SizeSum(infos, s)
  {
    assert s == s[..k] + s[k..];
    SizeSumAppend(infos, s[..k], s[k..]);
  }

  // ---------------------------------------------------------------------------
  // Offsets

  lemma {:induction false} OffsetMapKeys(infos: seq<ComponentInfo>, order: seq<ComponentIndex>, epc: nat)
    requires Registered(infos, order)
    ensures OffsetMap(infos, order, epc).Keys == MaskOf(order)
  {
    if order != [] {
      var init := order[..|order| - 1];
      OffsetMapKeys(infos, init, epc);
      assert order == init + [order[|order| - 1]];
    }
  }

  /** The column at position `k` of the layout order starts at `epc` times the
      sizes of the columns before it. */
  lemma {:induction false} OffsetOfColumn(infos: seq<ComponentInfo>, order: seq<ComponentIndex>, epc: nat, k: nat)
    requires Registered(infos, order) && Distinct(order) && k < |order|
    ensures order[k] in OffsetMap(infos, order, epc)
    ensures OffsetMap(infos, order, epc)[order[k]] == epc * SizeSum(infos, order[..k])
  {
    var n := |order|;
    var init := order[..n - 1];
    if k < n - 1 {
      OffsetOfColumn(infos, init, epc, k);
      assert init[k] == order[k];
      assert init[..k] == order[..k];
    }
  }

  lemma MulMonotone(a: nat, b: nat, c: nat)
    requires a <= b
    ensures a * c <= b * c
  {
  }

  lemma OffsetStep(offset: nat, epc: nat, before: nat, size: nat)
    requires offset == epc * before
    ensures offset + size * epc == epc * (before + size)
    ensures size * epc >= 0
  {
  }

  lemma DivBounds(n: nat, d: nat)
    requires d > 0
    ensures (n / d) * d <= n < (n / d + 1) * d
  {
  }

  // ---------------------------------------------------------------------------
  // Properties of the computed layout

  /** The first column in layout order has the largest alignment of all the
      components and starts at byte 0. */
  lemma FirstColumnAtZero(infos: seq<ComponentInfo>, ids: seq<ComponentIndex>)
    requires WellFormed(infos) && Registered(infos, ids) && Distinct(ids) && |ids| > 0
    ensures var l := MakeLayout(infos, ids);
      && l.order[0] in l.offsets && l.offsets[l.order[0]] == 0
      && forall c | c in ids :: infos[c].align <= infos[l.order[0]].align
  {
    var l := MakeLayout(infos, ids);
    SortedDistinct(infos, l.order);
    OffsetOfColumn(infos, l.order, l.entityPerChunk, 0);
    forall c | c in ids
      ensures infos[c].align <= infos[l.order[0]].align
    {
      assert c in multiset(l.order);
      var j :| 0 <= j < |l.order| && l.order[j] == c;
      if j > 0 {
        assert Before(infos, l.order[0], l.order[j]);
      }
    }
  }

  lemma SortedDistinct(infos: seq<ComponentInfo>, s: seq<ComponentIndex>)
    requires Registered(infos, s) && LayoutSorted(infos, s)
    ensures Distinct(s)
  {
    forall i, j | 0 <= i < j < |s|
      ensures s[i] != s[j]
    {
      assert Before(infos, s[i], s[j]);
    }
  }

  /** `entityPerChunk` is the largest row count whose rows fit in one chunk. */
  lemma EntityPerChunkIsCapacity(infos: seq<ComponentInfo>, ids: seq<ComponentIndex>)
    requires WellFormed(infos) && Registered(infos, ids) && Distinct(ids) && |ids| > 0
    ensures var l := MakeLayout(infos, ids);
      && l.entityPerChunk * SizeSum(infos, ids) <= CHUNK_SIZE
      && CHUNK_SIZE < (l.entityPerChunk + 1) * SizeSum(infos, ids)
  {
    SizeSumPositive(infos, ids);
    DivBounds(CHUNK_SIZE, SizeSum(infos, ids));
  }

  /** Every column ends inside the chunk, so no offset is truncated when it is
      stored in 16 bits. */
  lemma ColumnWithinChunk(infos: seq<ComponentInfo>, ids: seq<ComponentIndex>, c: ComponentIndex)
    requires WellFormed(infos) && Registered(infos, ids) && Distinct(ids) && |ids| > 0
    requires c in ids
    ensures var l := MakeLayout(infos, ids);
      && c in l.offsets
      && l.offsets[c] + infos[c].size * l.entityPerChunk <= CHUNK_SIZE
      && l.offsets[c] < OFFSET_LIMIT
  {
    var l := MakeLayout(infos, ids);
    var epc := l.entityPerChunk;
    SortedDistinct(infos, l.order);
    var k := PositionOf(infos, ids, l.order, c);
    OffsetOfColumn(infos, l.order, epc, k);
    SizeSumSnoc(infos, l.order, k);
    SizeSumPrefix(infos, l.order, k + 1);
    SizeSumPermutation(infos, l.order, ids);
    EntityPerChunkIsCapacity(infos, ids);
    assert epc * SizeSum(infos, ids) <= CHUNK_SIZE;
    ColumnArith(l.offsets[c], infos[c].size, epc, SizeSum(infos, l.order[..k]),
                SizeSum(infos, l.order[..k + 1]), SizeSum(infos, ids));
    assert l.offsets[c] + infos[c].size * epc <= CHUNK_SIZE;
  }

  /** Where `c` sits in a permutation `order` of `ids`. */
  lemma PositionOf(infos: seq<ComponentInfo>, ids: seq<ComponentIndex>, order: seq<ComponentIndex>,
                   c: ComponentIndex) returns (k: nat)
    requires multiset(order) == multiset(ids) && c in ids
    ensures k < |order| && order[k] == c
  {
    assert c in multiset(ids);
    k :| 0 <= k < |order| && order[k] == c;
  }

  lemma SizeSumSnoc(infos: seq<ComponentInfo>, s: seq<ComponentIndex>, k: nat)
    requires Registered(infos, s) && k < |s|
    ensures SizeSum(infos, s[..k + 1]) == SizeSum(infos, s[..k]) + infos[s[k]].size
  {
    assert s[..k + 1][..k] == s[..k];
  }

  lemma OffsetMapSnoc(infos: seq<ComponentInfo>, s: seq<ComponentIndex>, epc: nat, k: nat)
    requires Registered(infos, s) && k < |s|
    ensures OffsetMap(infos, s[..k + 1], epc)
         == OffsetMap(infos, s[..k], epc)[s[k] := epc * SizeSum(infos, s[..k])]
  {
    assert s[..k + 1][..k] == s[..k];
  }

  lemma ColumnArith(off: nat, sz: nat, epc: nat, before: nat, through: nat, total: nat)
    requires off == epc * before && through == before + sz && through <= total
    requires epc * total <= CHUNK_SIZE
    ensures off + sz * epc <= CHUNK_SIZE
    ensures off <= CHUNK_SIZE
  {
    MulMonotone(through, total, epc);
  }

  /** Distinct (component, slot) pairs of one chunk occupy disjoint byte ranges. */
  lemma SlotsDisjoint(infos: seq<ComponentInfo>, ids: seq<ComponentIndex>, l: ColumnLayout,
                      c1: ComponentIndex, s1: nat, c2: ComponentIndex, s2: nat)
    requires WellFormed(infos) && Registered(infos, ids) && Distinct(ids) && |ids| > 0
    requires l == MakeLayout(infos, ids)
    requires c1 in ids && c2 in ids && (c1, s1) != (c2, s2)
    requires s1 < l.entityPerChunk && s2 < l.entityPerChunk
    ensures c1 in l.offsets && c2 in l.offsets
    ensures ByteOffset(infos, l, c1, s1) + infos[c1].size <= ByteOffset(infos, l, c2, s2)
         || ByteOffset(infos, l, c2, s2) + infos[c2].size <= ByteOffset(infos, l, c1, s1)
  {
    var epc := l.entityPerChunk;
    SortedDistinct(infos, l.order);
    var k1 := PositionOf(infos, ids, l.order, c1);
    var k2 := PositionOf(infos, ids, l.order, c2);
    assert l.offsets == OffsetMap(infos, l.order, epc);
    OffsetMapKeys(infos, l.order, epc);
    assert c1 in l.offsets && c2 in l.offsets;
    if k1 == k2 {
      SlotsOfOneColumnDisjoint(infos, l, c1, s1, s2);
    } else if k1 < k2 {
      SlotBeforeLaterColumn(infos, l.order, epc, k1, s1, k2);
      MulMonotone(0, s2, infos[c2].size);
    } else {
      SlotBeforeLaterColumn(infos, l.order, epc, k2, s2, k1);
      MulMonotone(0, s1, infos[c1].size);
    }
  }

  lemma SlotsOfOneColumnDisjoint(infos: seq<ComponentInfo>, l: ColumnLayout, c: ComponentIndex, s1: nat, s2: nat)
    requires c in l.offsets && c < |infos| && s1 != s2
    ensures ByteOffset(infos, l, c, s1) + infos[c].size <= ByteOffset(infos, l, c, s2)
         || ByteOffset(infos, l, c, s2) + infos[c].size <= ByteOffset(infos, l, c, s1)
  {
    var sz := infos[c].size;
    if s1 < s2 {
      MulMonotone(s1 + 1, s2, sz);
    } else {
      MulMonotone(s2 + 1, s1, sz);
    }
  }

  /** Any slot of column `k1` ends before column `k2 > k1` starts. */
  lemma SlotBeforeLaterColumn(infos: seq<ComponentInfo>, order: seq<ComponentIndex>, epc: nat,
                              k1: nat, s1: nat, k2: nat)
    requires Registered(infos, order) && Distinct(order) && k1 < k2 < |order| && s1 < epc
    ensures order[k1] in OffsetMap(infos, order, epc) && order[k2] in OffsetMap(infos, order, epc)
    ensures OffsetMap(infos, order, epc)[order[k1]] + s1 * infos[order[k1]].size + infos[order[k1]].size
         <= OffsetMap(infos, order, epc)[order[k2]]
  {
    OffsetOfColumn(infos, order, epc, k1);
    OffsetOfColumn(infos, order, epc, k2);
    SizeSumSnoc(infos, order, k1);
    assert order[..k2][..k1 + 1] == order[..k1 + 1];
    SizeSumPrefix(infos, order[..k2], k1 + 1);
    SlotArith(OffsetMap(infos, order, epc)[order[k1]], s1, infos[order[k1]].size, epc,
              SizeSum(infos, order[..k1]), SizeSum(infos, order[..k1 + 1]),
              SizeSum(infos, order[..k2]), OffsetMap(infos, order, epc)[order[k2]]);
  }

  lemma SlotArith(off1: nat, s1: nat, sz: nat, epc: nat, before: nat, through: nat, later: nat, off2: nat)
    requires off1 == epc * before && through == before + sz && through <= later
    requires off2 == epc * later && s1 < epc
    ensures off1 + s1 * sz + sz <= off2
  {
    MulMonotone(s1 + 1, epc, sz);
    MulMonotone(through, later, epc);
  }

  // ---------------------------------------------------------------------------
  // Registering more types does not change an existing layout

  lemma ExtendsRegistered(infos: seq<ComponentInfo>, infos': seq<ComponentInfo>, s: seq<ComponentIndex>)
    requires Extends(infos, infos') && Registered(infos, s)
    ensures Registered(infos', s)
    ensures LayoutSorted(infos, s) ==> LayoutSorted(infos', s)
  {
  }

  lemma {:induction false} InsertExtends(infos: seq<ComponentInfo>, infos': seq<ComponentInfo>, x: ComponentIndex, s: seq<ComponentIndex>)
    requires Extends(infos, infos')
    requires Registered(infos, s) && x < |infos| && x !in s && LayoutSorted(infos, s)
    ensures Registered(infos', s) && LayoutSorted(infos', s)
    ensures Insert(infos', x, s) == Insert(infos, x, s)
  {
    ExtendsRegistered(infos, infos', s);
    if s != [] && !Before(infos, x, s[0]) {
      assert s == [s[0]] + s[1..];
      InsertExtends(infos, infos', x, s[1..]);
    }
  }

  lemma {:induction false} SortExtends(infos: seq<ComponentInfo>, infos': seq<ComponentInfo>, ids: seq<ComponentIndex>)
    requires Extends(infos, infos') && Registered(infos, ids) && Distinct(ids)
    ensures Registered(infos', ids) && Sort(infos', ids) == Sort(infos, ids)
  {
    if ids != [] {
      var init := ids[..|ids| - 1];
      var x := ids[|ids| - 1];
      SortExtends(infos, infos', init);
      assert x !in multiset(init);
      assert x !in Sort(infos, init) by {
        assert multiset(Sort(infos, init)) == multiset(init);
      }
      InsertExtends(infos, infos', x, Sort(infos, init));
    }
  }

  lemma {:induction false} SizeSumExtends(infos: seq<ComponentInfo>, infos': seq<ComponentInfo>, s: seq<ComponentIndex>)
    requires Extends(infos, infos') && Registered(infos, s)
    ensures Registered(infos', s) && SizeSum(infos', s) == SizeSum(infos, s)
  {
    if s != [] {
      SizeSumExtends(infos, infos', s[..|s| - 1]);
    }
  }

  lemma {:induction false} OffsetMapExtends(infos: seq<ComponentInfo>, infos': seq<ComponentInfo>, order: seq<ComponentIndex>, epc: nat)
    requires Extends(infos, infos') && Registered(infos, order)
    ensures Registered(infos', order) && OffsetMap(infos', order, epc) == OffsetMap(infos, order, epc)
  {
    if order != [] {
      OffsetMapExtends(infos, infos', order[..|order| - 1], epc);
      SizeSumExtends(infos, infos', order[..|order| - 1]);
    }
  }

  /** The layout of a component list depends only on the entries of its own
      components. */
  lemma MakeLayoutExtends(infos: seq<ComponentInfo>, infos': seq<ComponentInfo>, ids: seq<ComponentIndex>)
    requires Extends(infos, infos') && WellFormed(infos')
    requires WellFormed(infos) && Registered(infos, ids) && Distinct(ids) && |ids| > 0
    ensures Registered(infos', ids)
    ensures SizeSum(infos', ids) == SizeSum(infos, ids)
    ensures MakeLayout(infos', ids) == MakeLayout(infos, ids)
  {
    SortExtends(infos, infos', ids);
    SizeSumExtends(infos, infos', ids);
    var order := Sort(infos, ids);
    SizeSumPermutation(infos, order, ids);
    SizeSumExtends(infos, infos', order);
    OffsetMapExtends(infos, infos', order, CHUNK_SIZE / SizeSum(infos, order));
  }
}
