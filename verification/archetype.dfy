/** The archetype (archetype.cpp): a dense sequence of rows, one per entity,
    spread across fixed-size chunks. Row contents are abstract component values;
    the chunk list is modelled by its length, since a chunk carries no state of
    its own beyond the bytes the rows occupy. */
module Archetype {
  import opened Registry
  import Layout

  /** `columns` is the component list the archetype was built from (its
      `m_components`), `layout` the layout computed from it, `rows` the live
      rows in storage order and `chunkCount` the length of the chunk list. */
  datatype Archetype = Archetype(
    columns: seq<ComponentIndex>,
    layout: Layout.ColumnLayout,
    rows: seq<Row>,
    chunkCount: nat)
  {
    function Size(): nat { |rows| }
    function Mask(): Mask { MaskOf(columns) }
    function EntityPerChunk(): nat { layout.entityPerChunk }
    function Capacity(): nat { chunkCount * layout.entityPerChunk }
  }

  datatype AddResult = AddResult(archetype: Archetype, index: nat)

  datatype MoveResult = MoveResult(source: Archetype, target: Archetype, index: nat)

  function CeilDiv(n: nat, d: nat): nat
    requires d > 0
  {
    (n + d - 1) / d
  }

  /** A component list the layout code can handle: registered, without
      duplicates, not empty (or the row size is zero and the division by it is
      undefined) and no larger than a chunk (or `entityPerChunk` is zero). */
  predicate Fits(infos: seq<ComponentInfo>, columns: seq<ComponentIndex>)
  {
    && WellFormed(infos)
    && Registered(infos, columns)
    && Distinct(columns)
    && |columns| > 0
    && Layout.SizeSum(infos, columns) <= Layout.CHUNK_SIZE
  }

  /** The archetype invariant: the layout is the one computed from the
      columns, every row carries exactly the archetype's components, and the
      chunk list is exactly as long as the rows need. */
  predicate Valid(a: Archetype, infos: seq<ComponentInfo>)
  {
    && Fits(infos, a.columns)
    && a.layout == Layout.MakeLayout(infos, a.columns)
    && (forall i | 0 <= i < |a.rows| :: a.rows[i].Keys == a.Mask())
    && a.chunkCount == CeilDiv(|a.rows|, a.layout.entityPerChunk)
  }

  /** The archetype constructor: no rows, no chunks, the computed layout. */
  function New(infos: seq<ComponentInfo>, columns: seq<ComponentIndex>): (a: Archetype)
    requires Fits(infos, columns)
    ensures Valid(a, infos) && a.Size() == 0 && a.chunkCount == 0
    ensures a.Mask() == MaskOf(columns)
  {
    var l := Layout.MakeLayout(infos, columns);
    Archetype(columns, l, [], 0)
  }

  /** The row default construction writes: every component at its default. */
  function DefaultRow(infos: seq<ComponentInfo>, columns: seq<ComponentIndex>): (r: Row)
    requires Registered(infos, columns)
    ensures r.Keys == MaskOf(columns)
  {
    map c | c in columns :: infos[c].defaultValue
  }

  // ---------------------------------------------------------------------------
  // Chunk accounting

  /** The chunk part of `allocate`: a chunk is appended when the rows already
      fill every chunk. */
  function AllocateChunks(size: nat, chunkCount: nat, epc: nat): (r: nat)
    requires epc > 0 && chunkCount == CeilDiv(size, epc)
    ensures r == CeilDiv(size + 1, epc)
    ensures r == chunkCount + 1 <==> size == chunkCount * epc
    ensures r == chunkCount || r == chunkCount + 1
  {
    CeilDivBounds(size, epc);
    var r := if size >= chunkCount * epc then chunkCount + 1 else chunkCount;
    CeilDivFromBounds(size + 1, epc, r);
    r
  }

  /** The chunk part of `remove`: once the row count has dropped to `newSize`,
      the last chunk is freed when `newSize` is a multiple of the row count per
      chunk. */
  function ReleaseChunks(newSize: nat, chunkCount: nat, epc: nat): (r: nat)
    requires epc > 0 && chunkCount == CeilDiv(newSize + 1, epc)
    ensures r == CeilDiv(newSize, epc)
    ensures r == chunkCount - 1 <==> newSize % epc == 0
    ensures r == chunkCount || r + 1 == chunkCount
  {
    CeilDivBounds(newSize + 1, epc);
    var r := if newSize % epc == 0 then chunkCount - 1 else chunkCount;
    ReleaseBounds(newSize, chunkCount, epc);
    CeilDivFromBounds(newSize, epc, r);
    r
  }

  lemma ReleaseBounds(newSize: nat, chunkCount: nat, epc: nat)
    requires epc > 0 && chunkCount >= 1
    requires chunkCount * epc >= newSize + 1 && (chunkCount - 1) * epc < newSize + 1
    ensures newSize % epc == 0 ==> (chunkCount - 1) * epc == newSize
    ensures newSize % epc != 0 ==> (chunkCount - 1) * epc < newSize
  {
    if newSize % epc == 0 {
      MultipleBelow(newSize, epc, chunkCount);
    } else {
      NotMultiple(newSize, epc, chunkCount - 1);
    }
  }

  // ---------------------------------------------------------------------------
  // Row operations

  /** `r` holds the rows of `a` after a swap-remove of row `i`. */
  predicate SwapRemoved(r: Archetype, a: Archetype, i: nat)
  {
    && r.Size() == a.Size() - 1
    && (forall j | 0 <= j < a.Size() - 1 && j != i :: r.rows[j] == a.rows[j])
    && (i < a.Size() - 1 ==> r.rows[i] == a.rows[a.Size() - 1])
  }

  /** `r` holds the rows of `a` and one more. */
  predicate Appended(r: Archetype, a: Archetype)
  {
    && r.Size() == a.Size() + 1
    && forall j | 0 <= j < a.Size() :: r.rows[j] == a.rows[j]
  }

  /** `allocate` followed by constructing `row` in the new slot: the rows
      grow by one and a chunk is appended exactly when the old rows filled
      every chunk. */
  function Append(a: Archetype, row: Row, infos: seq<ComponentInfo>): (r: Archetype)
    requires Valid(a, infos) && row.Keys == a.Mask()
    ensures Valid(r, infos)
    ensures r.columns == a.columns && r.layout == a.layout
    ensures Appended(r, a) && r.rows[a.Size()] == row
    ensures r.chunkCount == a.chunkCount + 1 <==> a.Size() == a.Capacity()
    ensures r.chunkCount == a.chunkCount || r.chunkCount == a.chunkCount + 1
  {
    var chunks := AllocateChunks(a.Size(), a.chunkCount, a.EntityPerChunk());
    a.(rows := a.rows + [row], chunkCount := chunks)
  }

  /** `add`: allocate one row (appending a chunk if needed) and
      default-construct every component in it. Returns the new row's index,
      which is the old size. */
  function Add(a: Archetype, infos: seq<ComponentInfo>): (r: AddResult)
    requires Valid(a, infos)
    ensures Valid(r.archetype, infos)
    ensures r.index == a.Size() && r.archetype.Size() == a.Size() + 1
    ensures r.archetype.columns == a.columns && r.archetype.layout == a.layout
    ensures forall j | 0 <= j < a.Size() :: r.archetype.rows[j] == a.rows[j]
    ensures forall c | c in a.columns :: r.archetype.rows[r.index][c] == infos[c].defaultValue
    ensures r.archetype.chunkCount == a.chunkCount + 1 <==> a.Size() == a.Capacity()
    ensures r.archetype.chunkCount == a.chunkCount || r.archetype.chunkCount == a.chunkCount + 1
  {
    AddResult(Append(a, DefaultRow(infos, a.columns), infos), a.Size())
  }

  /** `swap`: exchanges two rows. */
  function Swap<T>(s: seq<T>, i: nat, j: nat): (r: seq<T>)
    requires i < |s| && j < |s|
    ensures |r| == |s| && r[i] == s[j] && r[j] == s[i]
    ensures forall k | 0 <= k < |s| && k != i && k != j :: r[k] == s[k]
    ensures multiset(r) == multiset(s)
  {
    s[i := s[j]][j := s[i]]
  }

  /** Swap-remove on a sequence: the last element takes the place of element
      `i`, and the sequence shrinks by one. */
  function SwapRemove<T>(s: seq<T>, i: nat): (r: seq<T>)
    requires i < |s|
    ensures |r| == |s| - 1
    ensures forall j | 0 <= j < |r| && j != i :: r[j] == s[j]
    ensures i < |r| ==> r[i] == s[|s| - 1]
    ensures multiset(r) == multiset(s) - multiset{s[i]}
  {
    var back := |s| - 1;
    var swapped := if i != back then Swap(s, i, back) else s;
    assert swapped == swapped[..back] + [s[i]];
    swapped[..back]
  }

  /** `remove`: swap row `i` with the last row, destroy the last row, and free
      the last chunk when the new size is a multiple of `entityPerChunk`. */
  function Remove(a: Archetype, i: nat, infos: seq<ComponentInfo>): (r: Archetype)
    requires Valid(a, infos) && i < a.Size()
    ensures Valid(r, infos)
    ensures r.columns == a.columns && r.layout == a.layout
    ensures r.Size() == a.Size() - 1
    ensures forall j | 0 <= j < r.Size() && j != i :: r.rows[j] == a.rows[j]
    ensures i < r.Size() ==> r.rows[i] == a.rows[a.Size() - 1]
    ensures multiset(r.rows) == multiset(a.rows) - multiset{a.rows[i]}
    ensures r.chunkCount + 1 == a.chunkCount <==> r.Size() % a.EntityPerChunk() == 0
    ensures r.chunkCount == a.chunkCount || r.chunkCount + 1 == a.chunkCount
  {
    var rows := SwapRemove(a.rows, i);
    SwapRemoveKeys(a, i, infos);
    var chunks := ReleaseChunks(|rows|, a.chunkCount, a.EntityPerChunk());
    a.(rows := rows, chunkCount := chunks)
  }

  /** Every row left by a swap-remove still has the archetype's components. */
  lemma SwapRemoveKeys(a: Archetype, i: nat, infos: seq<ComponentInfo>)
    requires Valid(a, infos) && i < a.Size()
    ensures forall j | 0 <= j < a.Size() - 1 :: SwapRemove(a.rows, i)[j].Keys == a.Mask()
  {
    var rows := SwapRemove(a.rows, i);
    forall j | 0 <= j < |rows|
      ensures rows[j].Keys == a.Mask()
    {
      if j == i {
        assert rows[j] == a.rows[a.Size() - 1];
      } else {
        assert rows[j] == a.rows[j];
      }
    }
  }

  /** The row `move` writes into the target: components the source also has
      keep their values, components only the target has are default-constructed. */
  function MigrateRow(row: Row, target: Archetype, infos: seq<ComponentInfo>): (r: Row)
    requires Registered(infos, target.columns)
    ensures r.Keys == target.Mask()
    ensures forall c | c in r :: r[c] == (if c in row then row[c] else infos[c].defaultValue)
  {
    map c | c in target.columns :: if c in row then row[c] else infos[c].defaultValue
  }

  /** `move`: append row `i`'s values to `target` (default values for the
      components the source lacks), then swap-remove row `i` from the source.
      Returns the row index in the target, which is the target's old size. */
  function Move(source: Archetype, i: nat, target: Archetype, infos: seq<ComponentInfo>): (r: MoveResult)
    requires Valid(source, infos) && Valid(target, infos) && i < source.Size()
    ensures Valid(r.source, infos) && Valid(r.target, infos)
    ensures r.index == target.Size()
    ensures r.target.Size() == target.Size() + 1 && r.source.Size() == source.Size() - 1
    ensures r.target.columns == target.columns && r.target.layout == target.layout
    ensures Appended(r.target, target)
    ensures forall c | c in target.Mask() && c in source.Mask() ::
              r.target.rows[r.index][c] == source.rows[i][c]
    ensures forall c | c in target.Mask() && c !in source.Mask() ::
              r.target.rows[r.index][c] == infos[c].defaultValue
    ensures r.target.chunkCount == target.chunkCount + 1 <==> target.Size() == target.Capacity()
    ensures r.source == Remove(source, i, infos) && SwapRemoved(r.source, source, i)
  {
    var row := MigrateRow(source.rows[i], target, infos);
    MoveResult(Remove(source, i, infos), Append(target, row, infos), target.Size())
  }

  /** `clear`: destroy every row and free every chunk. */
  function Clear(a: Archetype, infos: seq<ComponentInfo>): (r: Archetype)
    requires Valid(a, infos)
    ensures Valid(r, infos) && r.Size() == 0 && r.chunkCount == 0
    ensures r.columns == a.columns && r.layout == a.layout
  {
    a.(rows := [], chunkCount := 0)
  }

  // ---------------------------------------------------------------------------
  // Addressing

  /** Every live row lives in an allocated chunk, at a slot below the per-chunk
      row count; the rows never outgrow the chunks. */
  lemma RowInAllocatedChunk(a: Archetype, infos: seq<ComponentInfo>, row: nat)
    requires Valid(a, infos) && row < a.Size()
    ensures a.EntityPerChunk() > 0
    ensures Layout.Locate(row, a.EntityPerChunk()).0 < a.chunkCount
    ensures a.Size() <= a.Capacity()
  {
    var e := a.EntityPerChunk();
    CeilDivBounds(a.Size(), e);
    var q := row / e;
    Layout.DivBounds(row, e);
    if q >= a.chunkCount {
      Layout.MulMonotone(a.chunkCount, q, e);
    }
  }

  /** Component `c` of row `row` occupies, inside chunk `row / epc`, bytes that
      end within the chunk. */
  lemma ComponentAddressInChunk(a: Archetype, infos: seq<ComponentInfo>, row: nat, c: ComponentIndex)
    requires Valid(a, infos) && row < a.Size() && c in a.columns
    ensures a.EntityPerChunk() > 0 && c in a.layout.offsets && c < |infos|
    ensures row / a.EntityPerChunk() < a.chunkCount
    ensures Layout.ByteOffset(infos, a.layout, c, row % a.EntityPerChunk()) + infos[c].size
         <= Layout.CHUNK_SIZE
  {
    RowInAllocatedChunk(a, infos, row);
    var e := a.EntityPerChunk();
    Layout.ColumnWithinChunk(infos, a.columns, c);
    SlotEnd(a.layout.offsets[c], row % e, infos[c].size, e);
  }

  lemma SlotEnd(offset: nat, slot: nat, size: nat, epc: nat)
    requires offset + size * epc <= Layout.CHUNK_SIZE && slot < epc
    ensures offset + slot * size + size <= Layout.CHUNK_SIZE
  {
    Layout.MulMonotone(slot + 1, epc, size);
  }

  // ---------------------------------------------------------------------------
  // Ceiling division

  lemma CeilDivBounds(n: nat, d: nat)
    requires d > 0
    ensures CeilDiv(n, d) * d >= n
    ensures CeilDiv(n, d) == 0 || (CeilDiv(n, d) - 1) * d < n
    ensures n == 0 <==> CeilDiv(n, d) == 0
  {
    Layout.DivBounds(n + d - 1, d);
  }

  lemma CeilDivFromBounds(n: nat, d: nat, c: nat)
    requires d > 0 && c * d >= n && (c == 0 || (c - 1) * d < n)
    ensures c == CeilDiv(n, d)
  {
    CeilDivBounds(n, d);
    var c' := CeilDiv(n, d);
    if c < c' {
      Layout.MulMonotone(c, c' - 1, d);
    } else if c > c' {
      Layout.MulMonotone(c', c - 1, d);
    }
  }

  /** A multiple of `d` with `n < c * d <= n + d` is `(c - 1) * d` when `n` is
      itself a multiple of `d`. */
  lemma MultipleBelow(n: nat, d: nat, c: nat)
    requires d > 0 && n % d == 0 && c * d >= n + 1 && c >= 1 && (c - 1) * d < n + 1
    ensures (c - 1) * d == n
  {
    var q := n / d;
    assert n == q * d;
    if c - 1 < q {
      Layout.MulMonotone(c, q, d);
    } else if c - 1 > q {
      Layout.MulMonotone(q + 1, c - 1, d);
    }
  }

  lemma NotMultiple(n: nat, d: nat, k: nat)
    requires d > 0 && n % d != 0
    ensures k * d != n
  {
    var q := n / d;
    Layout.DivBounds(n, d);
    if k > q {
      Layout.MulMonotone(q + 1, k, d);
    } else {
      Layout.MulMonotone(k, q, d);
    }
  }

  // ---------------------------------------------------------------------------
  // Repeated insertion

  /** `n` consecutive `add` calls: however many rows they add, the chunk
      count stays `ceil(size / epc)`. */
  function AddN(a: Archetype, infos: seq<ComponentInfo>, n: nat): (r: Archetype)
    requires Valid(a, infos)
    ensures Valid(r, infos) && r.Size() == a.Size() + n
    ensures r.chunkCount == CeilDiv(r.Size(), r.EntityPerChunk())
    ensures r.columns == a.columns && r.layout == a.layout
    ensures AddedDefaults(r, a, infos)
    decreases n
  {
    if n == 0 then a
    else
      var a1 := Add(a, infos).archetype;
      var r := AddN(a1, infos, n - 1);
      AddedDefaultsChain(a, a1, r, infos);
      r
  }

  /** `r` keeps every row of `a`, and every row after them holds each
      component's default value. */
  predicate AddedDefaults(r: Archetype, a: Archetype, infos: seq<ComponentInfo>)
  {
    && a.Size() <= r.Size()
    && (forall j | 0 <= j < a.Size() :: r.rows[j] == a.rows[j])
    && (forall j, c | a.Size() <= j < r.Size() && c in a.columns && c < |infos| && c in r.rows[j] ::
          r.rows[j][c] == infos[c].defaultValue)
  }

  /** One `add` followed by more keeps the rows and defaults of both. */
  lemma AddedDefaultsChain(a: Archetype, a1: Archetype, r: Archetype, infos: seq<ComponentInfo>)
    requires Valid(a, infos) && a1 == Add(a, infos).archetype
    requires AddedDefaults(r, a1, infos) && a1.columns == a.columns
    ensures AddedDefaults(r, a, infos)
  {
    assert forall j | 0 <= j < a.Size() :: r.rows[j] == a1.rows[j];
  }

  /** Two 12-byte components give 4096 / 24 = 170 rows per chunk, so any
      row count from 2 * 170 + 1 = 341 up to 3 * 170 = 510 takes three chunks. */
  lemma ThreeChunksFrom341Rows(n: nat)
    requires 341 <= n <= 510
    ensures var infos := [ComponentInfo(12, 4, 0), ComponentInfo(12, 4, 0)];
      && Fits(infos, [0, 1])
      && New(infos, [0, 1]).EntityPerChunk() == 170
      && AddN(New(infos, [0, 1]), infos, n).chunkCount == 3
  {
    var infos := [ComponentInfo(12, 4, 0), ComponentInfo(12, 4, 0)];
    TwelveBytePairLayout();
    var full := AddN(New(infos, [0, 1]), infos, n);
    assert full.Size() == n && full.EntityPerChunk() == 170;
    CeilDivFromBounds(n, 170, 3);
  }

  /** The layout of two 12-byte components: 24-byte rows, 170 per chunk. */
  lemma TwelveBytePairLayout()
    ensures var infos := [ComponentInfo(12, 4, 0), ComponentInfo(12, 4, 0)];
      && Fits(infos, [0, 1])
      && New(infos, [0, 1]).EntityPerChunk() == 170
  {
    var infos := [ComponentInfo(12, 4, 0), ComponentInfo(12, 4, 0)];
    assert [0, 1][..1] == [0];
    assert [0][..0] == [];
    assert Layout.SizeSum(infos, [0, 1]) == 24;
  }

  /** An archetype stays valid when later registrations extend the table. */
  lemma ValidUnderLongerRegistry(a: Archetype, infos: seq<ComponentInfo>, infos': seq<ComponentInfo>)
    requires Valid(a, infos) && Extends(infos, infos') && WellFormed(infos')
    ensures Valid(a, infos')
  {
    Layout.MakeLayoutExtends(infos, infos', a.columns);
  }
}
