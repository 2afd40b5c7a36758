/** Two ways to feed catchment geometries to the dissolve: staged units, and the direct query. */
module Assembly {
  import opened Arith
  import opened LexOrder
  import opened OrderedKeys
  import opened Results

  type UnitId = int

  datatype Polygon = Polygon(rings: seq<seq<(real, real)>>)

  /** A multipolygon; empty when it has no polygons. */
  type Geometry = seq<Polygon>

  /** A stored catchment; `None` is a geometry that does not decode. */
  datatype StoreRow = StoreRow(id: UnitId, level: int, geometry: Option<Geometry>)

  /** The catchment file, in file order; `readable` says whether reading it works. */
  datatype CatchmentStore = CatchmentStore(rows: seq<StoreRow>, readable: bool)

  datatype OpenError = DuplicateId(id: UnitId, previousGroup: nat, group: nat)

  /** What opening a store establishes: no unit id has two rows. */
  ghost predicate Opened(store: CatchmentStore) {
    forall i, j :: 0 <= i < j < |store.rows| ==> store.rows[i].id != store.rows[j].id
  }

  datatype GeometryRow = GeometryRow(id: UnitId, geometry: Geometry)

  datatype QueryError = Read | Decode(id: UnitId)

  datatype AssemblyError =
    | CatchmentQuery | GeometryDecode(id: UnitId) | DuplicateCatchment(id: UnitId) | MissingCatchments(ids: seq<UnitId>)
    | EmptyCatchmentGeometry(id: UnitId) | EmptyRefinedTerminalGeometry(id: UnitId)

  datatype EngineError = PreMergeFetch | PreMergeDecode(id: UnitId) | SameLevelInvariant(id: UnitId)

  // ---- Opening ----------------------------------------------------------------------------

  function RowsOf(groups: seq<seq<StoreRow>>): seq<StoreRow> {
    Flatten(groups)
  }

  /** The id index names exactly the ids of the rows read so far. */
  ghost predicate IndexesIds(idGroups: map<UnitId, nat>, rows: seq<StoreRow>) {
    forall id :: id in idGroups <==> exists i :: 0 <= i < |rows| && rows[i].id == id
  }

  lemma IndexedMore(idGroups: map<UnitId, nat>, rows: seq<StoreRow>, row: StoreRow, group: nat)
    requires IndexesIds(idGroups, rows)
    ensures IndexesIds(idGroups[row.id := group], rows + [row])
    ensures row.id in idGroups ==> !Opened(CatchmentStore(rows + [row], true))
    ensures row.id !in idGroups && Opened(CatchmentStore(rows, true)) ==> Opened(CatchmentStore(rows + [row], true))
  {
    var more := rows + [row];
    assert forall i :: 0 <= i < |rows| ==> more[i] == rows[i];
    assert more[|rows|] == row;
    if row.id in idGroups {
      var i :| 0 <= i < |rows| && rows[i].id == row.id;
      assert more[i].id == more[|rows|].id;
    }
  }

  lemma StillClosed(rows: seq<StoreRow>, more: seq<StoreRow>)
    requires rows <= more && !Opened(CatchmentStore(rows, true))
    ensures !Opened(CatchmentStore(more, true))
  {
    var i, j :| 0 <= i < j < |rows| && rows[i].id == rows[j].id;
    assert more[i].id == more[j].id;
  }

  /** `read_all_ids`: row groups in order, every id into the index, refusing an id that is already there. */
  method OpenCatchments(groups: seq<seq<StoreRow>>, readable: bool) returns (r: Result<CatchmentStore, OpenError>)
    ensures r.Ok? <==> Opened(CatchmentStore(RowsOf(groups), readable))
    ensures r.Ok? ==> r.value == CatchmentStore(RowsOf(groups), readable)
  {
    hide IndexesIds;
    var idGroups: map<UnitId, nat> := map[];
    ghost var done: seq<StoreRow> := [];
    assert IndexesIds(idGroups, done) by {
      NothingIndexed();
    }
    for g := 0 to |groups|
      invariant done == RowsOf(groups[..g])
      invariant IndexesIds(idGroups, done) && Opened(CatchmentStore(done, true))
    {
      ghost var before := done;
      assert groups[..g + 1][..g] == groups[..g];
      for k := 0 to |groups[g]|
        invariant done == before + groups[g][..k]
        invariant IndexesIds(idGroups, done) && Opened(CatchmentStore(done, true))
      {
        var row := groups[g][k];
        IndexedMore(idGroups, done, row, g);
        assert before + groups[g][..k + 1] == done + [row];
        if row.id in idGroups {
          RowsPrefix(groups, g, k);
          StillClosed(done + [row], RowsOf(groups));
          return Err(DuplicateId(row.id, idGroups[row.id], g));
        }
        idGroups := idGroups[row.id := g];
        done := done + [row];
      }
      assert groups[g][..|groups[g]|] == groups[g];
    }
    assert groups[..|groups|] == groups;
    return Ok(CatchmentStore(RowsOf(groups), readable));
  }

  lemma NothingIndexed()
    ensures IndexesIds(map[], [])
  {
  }

  lemma {:induction false} RowsPrefix(groups: seq<seq<StoreRow>>, g: nat, k: nat)
    requires g < |groups| && k < |groups[g]|
    ensures RowsOf(groups[..g]) + groups[g][..k + 1] <= RowsOf(groups)
    decreases |groups|
  {
    var init, last := groups[..|groups| - 1], groups[|groups| - 1];
    if g == |groups| - 1 {
      assert groups[..g] == init;
    } else {
      assert init[..g] == groups[..g];
      RowsPrefix(init, g, k);
    }
  }

  // ---- Queries ----------------------------------------------------------------------------

  /** Rows whose id is asked for, in file order. */
  function Selected(rows: seq<StoreRow>, ids: set<UnitId>): (s: seq<StoreRow>)
    ensures forall r :: r in s <==> r in rows && r.id in ids
  {
    if rows == [] then []
    else Selected(rows[..|rows| - 1], ids) + if rows[|rows| - 1].id in ids then [rows[|rows| - 1]] else []
  }

  /** Decode the rows; the first that fails decides. */
  function Decoded(rows: seq<StoreRow>): (r: Result<seq<GeometryRow>, QueryError>)
    ensures r.Ok? <==> forall i :: 0 <= i < |rows| ==> rows[i].geometry.Some?
    ensures r.Ok? ==> |r.value| == |rows| && forall i :: 0 <= i < |rows| ==> r.value[i] == GeometryRow(rows[i].id, rows[i].geometry.value)
  {
    if rows == [] then Ok([])
    else
      var init := rows[..|rows| - 1];
      assert forall i :: 0 <= i < |init| ==> init[i] == rows[i];
      match Decoded(init)
      case Err(e) => Err(e)
      case Ok(before) =>
        if rows[|rows| - 1].geometry.None? then Err(Decode(rows[|rows| - 1].id))
        else Ok(before + [GeometryRow(rows[|rows| - 1].id, rows[|rows| - 1].geometry.value)])
  }

  function IdSet(ids: seq<UnitId>): set<UnitId> {
    set id | id in ids
  }

  /** Nothing is read when no row group holds a requested id. */
  function QueryMetadata(store: CatchmentStore, ids: seq<UnitId>): Result<seq<StoreRow>, QueryError> {
    var rows := Selected(store.rows, IdSet(ids));
    if rows == [] then Ok([]) else if !store.readable then Err(Read) else Ok(rows)
  }

  function QueryGeometries(store: CatchmentStore, ids: seq<UnitId>): Result<seq<GeometryRow>, QueryError> {
    var rows := Selected(store.rows, IdSet(ids));
    if rows == [] then Ok([]) else if !store.readable then Err(Read) else Decoded(rows)
  }

  predicate ContainsId(store: CatchmentStore, id: UnitId) {
    exists r :: r in store.rows && r.id == id
  }

  // ---- Indexing by id ---------------------------------------------------------------------

  type GeometryMap = map<UnitId, Geometry>

  /** Later rows replace earlier ones. */
  function LastById(rows: seq<GeometryRow>): (m: GeometryMap)
    ensures forall id :: id in m <==> exists i :: 0 <= i < |rows| && rows[i].id == id
  {
    if rows == [] then map[]
    else
      assert forall i :: 0 <= i < |rows| - 1 ==> rows[..|rows| - 1][i] == rows[i];
      LastById(rows[..|rows| - 1])[rows[|rows| - 1].id := rows[|rows| - 1].geometry]
  }

  function LastLevels(rows: seq<StoreRow>): (m: map<UnitId, int>)
    ensures forall id :: id in m <==> exists i :: 0 <= i < |rows| && rows[i].id == id
  {
    if rows == [] then map[]
    else
      assert forall i :: 0 <= i < |rows| - 1 ==> rows[..|rows| - 1][i] == rows[i];
      LastLevels(rows[..|rows| - 1])[rows[|rows| - 1].id := rows[|rows| - 1].level]
  }

  ghost predicate DistinctIds(rows: seq<GeometryRow>) {
    forall i, j :: 0 <= i < j < |rows| ==> rows[i].id != rows[j].id
  }

  /** `collect` into a hash map. */
  method CollectLast(rows: seq<GeometryRow>) returns (m: GeometryMap)
    ensures m == LastById(rows)
  {
    m := map[];
    for k := 0 to |rows|
      invariant m == LastById(rows[..k])
    {
      assert rows[..k + 1][..k] == rows[..k];
      m := m[rows[k].id := rows[k].geometry];
    }
    assert rows[..|rows|] == rows;
  }

  /** The first `k` rows by id; a second row of an id is an error. */
  function IndexUpTo(rows: seq<GeometryRow>, k: nat): Result<GeometryMap, AssemblyError>
    requires k <= |rows|
  {
    if k == 0 then Ok(map[])
    else
      var before :- IndexUpTo(rows, k - 1);
      if rows[k - 1].id in before then Err(DuplicateCatchment(rows[k - 1].id))
      else Ok(before[rows[k - 1].id := rows[k - 1].geometry])
  }

  lemma {:induction false} IndexFailure(rows: seq<GeometryRow>, j: nat, k: nat)
    requires j <= k <= |rows| && IndexUpTo(rows, j).Err?
    ensures IndexUpTo(rows, k) == IndexUpTo(rows, j)
  {
    if j < k {
      IndexFailure(rows, j, k - 1);
    }
  }

  /** Indexing fails exactly when an id has two rows; otherwise it agrees with the map in which later rows win. */
  lemma {:induction false} IndexExact(rows: seq<GeometryRow>, k: nat)
    requires k <= |rows|
    ensures IndexUpTo(rows, k).Ok? <==> DistinctIds(rows[..k])
    ensures IndexUpTo(rows, k) == if DistinctIds(rows[..k]) then Ok(LastById(rows[..k])) else IndexUpTo(rows, k)
    ensures IndexUpTo(rows, k).Err? ==> IndexUpTo(rows, k).error.DuplicateCatchment?
  {
    if k > 0 {
      IndexExact(rows, k - 1);
      assert rows[..k][..k - 1] == rows[..k - 1];
      assert forall i :: 0 <= i < k ==> rows[..k][i] == rows[i];
      var before := IndexUpTo(rows, k - 1);
      if before.Ok? && rows[k - 1].id in before.value {
        var i :| 0 <= i < k - 1 && rows[..k - 1][i].id == rows[k - 1].id;
        assert rows[..k][i].id == rows[..k][k - 1].id;
      }
    }
  }

  /** `index_catchments_by_id`. */
  method IndexCatchmentsById(rows: seq<GeometryRow>) returns (r: Result<GeometryMap, AssemblyError>)
    ensures r == IndexUpTo(rows, |rows|)
  {
    var m: GeometryMap := map[];
    for k := 0 to |rows|
      invariant IndexUpTo(rows, k) == Ok(m)
    {
      if rows[k].id in m {
        assert IndexUpTo(rows, k + 1) == Err(DuplicateCatchment(rows[k].id));
        IndexFailure(rows, k + 1, |rows|);
        return Err(DuplicateCatchment(rows[k].id));
      }
      m := m[rows[k].id := rows[k].geometry];
    }
    return Ok(m);
  }

  // ---- Feeding the dissolve ---------------------------------------------------------------

  predicate IdLess(a: UnitId, b: UnitId) {
    a < b
  }

  /** The keys in the order a B-tree map is iterated. */
  function InOrder(m: GeometryMap): (s: seq<UnitId>)
    ensures forall id :: id in s <==> id in m
  {
    SortedKeys(IdLess, m.Keys)
  }

  function EmptyError(id: UnitId, terminal: UnitId, overridden: bool): AssemblyError {
    if id == terminal && overridden then EmptyRefinedTerminalGeometry(id) else EmptyCatchmentGeometry(id)
  }

  /** The geometries of the ids in order, or the first id whose geometry is empty. */
  function Feed(m: GeometryMap, ids: seq<UnitId>, terminal: UnitId, overridden: bool): Result<seq<Geometry>, AssemblyError>
    requires forall id :: id in ids ==> id in m
  {
    if ids == [] then Ok([])
    else
      var init, last := ids[..|ids| - 1], ids[|ids| - 1];
      match Feed(m, init, terminal, overridden)
      case Err(e) => Err(e)
      case Ok(before) =>
        if m[last] == [] then Err(EmptyError(last, terminal, overridden)) else Ok(before + [m[last]])
  }

  lemma {:induction false} FeedFailure(m: GeometryMap, ids: seq<UnitId>, j: nat, terminal: UnitId, overridden: bool)
    requires (forall id :: id in ids ==> id in m) && j <= |ids| && Feed(m, ids[..j], terminal, overridden).Err?
    ensures Feed(m, ids, terminal, overridden) == Feed(m, ids[..j], terminal, overridden)
  {
    if j == |ids| {
      assert ids[..j] == ids;
    } else {
      var init := ids[..|ids| - 1];
      assert init[..j] == ids[..j];
      FeedFailure(m, init, j, terminal, overridden);
    }
  }

  ghost predicate Increasing(ids: seq<UnitId>) {
    forall i, j :: 0 <= i < j < |ids| ==> ids[i] < ids[j]
  }

  /** What a feed of a map is: its ids once each in increasing order with the i-th geometry at position i, unless
      some geometry is empty; then the least id with an empty geometry is named. */
  ghost predicate FedFrom(r: Result<seq<Geometry>, AssemblyError>, m: GeometryMap, ids: seq<UnitId>, terminal: UnitId, overridden: bool) {
    && Increasing(ids) && (forall id :: id in ids <==> id in m)
    && (r.Ok? <==> forall id :: id in m ==> m[id] != [])
    && (r.Ok? ==> |r.value| == |ids| && forall i :: 0 <= i < |ids| ==> r.value[i] == m[ids[i]])
    && (r.Err? ==> exists id :: LeastEmpty(m, id) && NamesEmpty(r.error, id, overridden && id == terminal))
  }

  predicate NamesEmpty(error: AssemblyError, id: UnitId, refined: bool) {
    if refined then error == EmptyRefinedTerminalGeometry(id) else error == EmptyCatchmentGeometry(id)
  }

  ghost predicate LeastEmpty(m: GeometryMap, id: UnitId) {
    id in m && m[id] == [] && forall j :: j in m && j < id ==> m[j] != []
  }

  lemma {:induction false} FeedPrefix(m: GeometryMap, ids: seq<UnitId>, terminal: UnitId, overridden: bool)
    requires forall id :: id in ids ==> id in m
    ensures var r := Feed(m, ids, terminal, overridden);
            && (r.Ok? ==> |r.value| == |ids| && forall i :: 0 <= i < |ids| ==> m[ids[i]] != [] && r.value[i] == m[ids[i]])
            && (r.Err? ==> exists k :: 0 <= k < |ids| && m[ids[k]] == [] && r.error == EmptyError(ids[k], terminal, overridden)
                                       && forall i :: 0 <= i < k ==> m[ids[i]] != [])
  {
    if ids == [] {
    } else {
      var init, last := ids[..|ids| - 1], ids[|ids| - 1];
      FeedPrefix(m, init, terminal, overridden);
      var before := Feed(m, init, terminal, overridden);
      if before.Err? {
        var k :| 0 <= k < |init| && m[init[k]] == [] && before.error == EmptyError(init[k], terminal, overridden)
                 && forall i :: 0 <= i < k ==> m[init[i]] != [];
        assert ids[k] == init[k] && forall i :: 0 <= i < k ==> ids[i] == init[i];
      } else {
        assert forall i :: 0 <= i < |init| ==> ids[i] == init[i];
        if m[last] == [] {
          assert m[ids[|ids| - 1]] == [];
        }
      }
    }
  }

  lemma InOrderIncreases(m: GeometryMap)
    ensures Increasing(InOrder(m))
  {
    SortedKeysIncrease(IdLess, m.Keys);
  }

  lemma IncreasingOrder(ids: seq<UnitId>, i: nat, k: nat)
    requires Increasing(ids) && i < |ids| && k < |ids| && ids[i] < ids[k]
    ensures i < k
  {
  }

  /** The loop's result, stated without the loop. */
  lemma FeedExact(m: GeometryMap, terminal: UnitId, overridden: bool)
    ensures FedFrom(Feed(m, InOrder(m), terminal, overridden), m, InOrder(m), terminal, overridden)
  {
    hide InOrder, Feed;
    var ids := InOrder(m);
    InOrderIncreases(m);
    FeedPrefix(m, ids, terminal, overridden);
    var r := Feed(m, ids, terminal, overridden);
    if r.Ok? {
      forall id | id in m
        ensures m[id] != []
      {
        assert id in ids;
      }
    } else {
      var k :| 0 <= k < |ids| && m[ids[k]] == [] && r.error == EmptyError(ids[k], terminal, overridden)
               && forall i :: 0 <= i < k ==> m[ids[i]] != [];
      var least := ids[k];
      assert least in ids;
      forall j | j in m && j < least
        ensures m[j] != []
      {
        assert j in ids;
        var i :| 0 <= i < |ids| && ids[i] == j;
        IncreasingOrder(ids, i, k);
      }
      assert LeastEmpty(m, least);
    }
  }

  /** The loop both paths run over their B-tree map. */
  method FeedInOrder(m: GeometryMap, terminal: UnitId, overridden: bool) returns (r: Result<seq<Geometry>, AssemblyError>)
    ensures r == Feed(m, InOrder(m), terminal, overridden)
    ensures FedFrom(r, m, InOrder(m), terminal, overridden)
  {
    hide FedFrom;
    FeedExact(m, terminal, overridden);
    var ids := InOrder(m);
    var geometries: seq<Geometry> := [];
    for k := 0 to |ids|
      invariant Feed(m, ids[..k], terminal, overridden) == Ok(geometries)
    {
      var id := ids[k];
      assert id in ids;
      assert ids[..k + 1][..k] == ids[..k];
      if m[id] == [] {
        assert Feed(m, ids[..k + 1], terminal, overridden) == Err(EmptyError(id, terminal, overridden));
        FeedFailure(m, ids, k + 1, terminal, overridden);
        return Err(EmptyError(id, terminal, overridden));
      }
      geometries := geometries + [m[id]];
    }
    assert ids[..|ids|] == ids;
    return Ok(geometries);
  }

  // ---- The staged path --------------------------------------------------------------------

  datatype PreMergeUnit = PreMergeUnit(id: UnitId, level: int, geometry: Geometry)

  ghost predicate NoRepeats(ids: seq<UnitId>) {
    forall i, j :: 0 <= i < j < |ids| ==> ids[i] != ids[j]
  }

  /** Every id has a row, on the selected level. */
  ghost predicate OnLevel(levels: map<UnitId, int>, ids: seq<UnitId>, level: int) {
    forall i :: 0 <= i < |ids| ==> ids[i] in levels && levels[ids[i]] == level
  }

  function UnitsOf(geometries: GeometryMap, ids: seq<UnitId>, level: int): (units: seq<PreMergeUnit>)
    requires forall id :: id in ids ==> id in geometries
    ensures |units| == |ids|
  {
    if ids == [] then []
    else
      var init, last := ids[..|ids| - 1], ids[|ids| - 1];
      assert last in geometries;
      UnitsOf(geometries, init, level) + [PreMergeUnit(last, level, geometries[last])]
  }

  /** When the pre-merge units can be produced: the rows can be read and decoded, no id is repeated, and every
      id has a row, the last one on the selected level. */
  ghost predicate Materialisable(store: CatchmentStore, ids: seq<UnitId>, level: int) {
    && QueryMetadata(store, ids).Ok? && QueryGeometries(store, ids).Ok?
    && NoRepeats(ids)
    && OnLevel(LastLevels(QueryMetadata(store, ids).value), ids, level)
    && (forall id :: id in ids ==> id in LastById(QueryGeometries(store, ids).value))
  }

  method CollectLevels(rows: seq<StoreRow>) returns (m: map<UnitId, int>)
    ensures m == LastLevels(rows)
  {
    m := map[];
    for k := 0 to |rows|
      invariant m == LastLevels(rows[..k])
    {
      assert rows[..k + 1][..k] == rows[..k];
      m := m[rows[k].id := rows[k].level];
    }
    assert rows[..|rows|] == rows;
  }

  /** Taking each geometry out of the map as its unit is built makes a repeated id fail. */
  method ProducePreMergeUnits(store: CatchmentStore, ids: seq<UnitId>, level: int) returns (r: Result<seq<PreMergeUnit>, EngineError>)
    ensures r.Ok? <==> Materialisable(store, ids, level)
    ensures r.Ok? ==> r.value == UnitsOf(LastById(QueryGeometries(store, ids).value), ids, level)
    ensures r.Err? && r.error.PreMergeDecode? ==> QueryGeometries(store, ids) == Err(Decode(r.error.id))
    ensures r.Err? && r.error.SameLevelInvariant? ==>
              QueryMetadata(store, ids).Ok? && r.error.id in ids && r.error.id in LastLevels(QueryMetadata(store, ids).value)
              && LastLevels(QueryMetadata(store, ids).value)[r.error.id] != level
  {
    hide QueryMetadata, QueryGeometries, LastLevels, LastById;
    var metadata := QueryMetadata(store, ids);
    if metadata.Err? {
      return Err(PreMergeFetch);
    }
    var levels := CollectLevels(metadata.value);
    var rows := QueryGeometries(store, ids);
    if rows.Err? {
      return Err(if rows.error.Decode? then PreMergeDecode(rows.error.id) else PreMergeFetch);
    }
    var remaining := CollectLast(rows.value);
    ghost var all := remaining;
    var units: seq<PreMergeUnit> := [];
    for i := 0 to |ids|
      invariant NoRepeats(ids[..i]) && OnLevel(levels, ids[..i], level)
      invariant forall id :: id in ids[..i] ==> id in all
      invariant units == UnitsOf(all, ids[..i], level)
      invariant forall id :: id in remaining <==> id in all && id !in ids[..i]
      invariant forall id :: id in remaining ==> remaining[id] == all[id]
    {
      var id := ids[i];
      assert id in ids;
      if id !in levels {
        return Err(PreMergeFetch);
      }
      if levels[id] != level {
        return Err(SameLevelInvariant(id));
      }
      if id !in remaining {
        Repeated(ids, i);
        return Err(PreMergeFetch);
      }
      Extended(ids, i, levels, level);
      assert ids[..i + 1][..i] == ids[..i];
      units := units + [PreMergeUnit(id, level, remaining[id])];
      remaining := remaining - {id};
    }
    assert ids[..|ids|] == ids;
    return Ok(units);
  }

  lemma Repeated(ids: seq<UnitId>, i: nat)
    requires i < |ids|
    ensures ids[i] in ids[..i] ==> !NoRepeats(ids)
  {
  }

  lemma Extended(ids: seq<UnitId>, i: nat, levels: map<UnitId, int>, level: int)
    requires i < |ids| && NoRepeats(ids[..i]) && OnLevel(levels, ids[..i], level) && ids[i] !in ids[..i]
    requires ids[i] in levels && levels[ids[i]] == level
    ensures NoRepeats(ids[..i + 1]) && OnLevel(levels, ids[..i + 1], level) && ids[..i + 1] == ids[..i] + [ids[i]]
  {
    assert ids[..i + 1] == ids[..i] + [ids[i]];
  }

  /** The staged map: the terminal is left out for the override. */
  function StagedMap(units: seq<PreMergeUnit>, terminal: UnitId, refined: Option<Geometry>): GeometryMap {
    if units == [] then map[]
    else
      var before, last := StagedMap(units[..|units| - 1], terminal, refined), units[|units| - 1];
      if last.id == terminal && refined.Some? then before else before[last.id := last.geometry]
  }

  function WithOverride(m: GeometryMap, terminal: UnitId, refined: Option<Geometry>): GeometryMap {
    if refined.Some? then m[terminal := refined.value] else m
  }

  /** What the staged path feeds to the dissolve. */
  function StagedFeed(units: seq<PreMergeUnit>, terminal: UnitId, refined: Option<Geometry>): Result<seq<Geometry>, AssemblyError> {
    var m := WithOverride(StagedMap(units, terminal, refined), terminal, refined);
    Feed(m, InOrder(m), terminal, refined.Some?)
  }

  predicate Overridden(id: UnitId, terminal: UnitId, refined: Option<Geometry>) {
    id == terminal && refined.Some?
  }

  /** What the staged path must feed: the override in the terminal's slot, and every other unit's geometry, the
      later unit's if an id came twice. */
  ghost predicate StagedTarget(m: GeometryMap, units: seq<PreMergeUnit>, terminal: UnitId, refined: Option<Geometry>) {
    && (refined.Some? ==> terminal in m && m[terminal] == refined.value)
    && (forall id :: !Overridden(id, terminal, refined) ==> (id in m <==> exists i :: 0 <= i < |units| && units[i].id == id))
    && (forall i :: 0 <= i < |units| && !Overridden(units[i].id, terminal, refined) && LastOfItsId(units, i) ==>
          units[i].id in m && m[units[i].id] == units[i].geometry)
  }

  ghost predicate LastOfItsId(units: seq<PreMergeUnit>, i: nat)
    requires i < |units|
  {
    forall j :: i < j < |units| ==> units[j].id != units[i].id
  }

  /** The units but an overridden terminal's, the later one winning. */
  ghost predicate Hits(m: GeometryMap, units: seq<PreMergeUnit>, terminal: UnitId, refined: Option<Geometry>) {
    && (forall id :: id in m <==> !Overridden(id, terminal, refined) && exists i :: 0 <= i < |units| && units[i].id == id)
    && (forall i :: 0 <= i < |units| && !Overridden(units[i].id, terminal, refined) && LastOfItsId(units, i) ==>
          units[i].id in m && m[units[i].id] == units[i].geometry)
  }

  lemma HitsMore(m: GeometryMap, units: seq<PreMergeUnit>, last: PreMergeUnit, terminal: UnitId, refined: Option<Geometry>)
    requires Hits(m, units, terminal, refined)
    ensures Hits(if Overridden(last.id, terminal, refined) then m else m[last.id := last.geometry], units + [last], terminal, refined)
  {
    hide Overridden;
    var more := units + [last];
    var next := if Overridden(last.id, terminal, refined) then m else m[last.id := last.geometry];
    assert more[|units|] == last && forall i :: 0 <= i < |units| ==> more[i] == units[i];
    forall i | 0 <= i < |more| && !Overridden(more[i].id, terminal, refined) && LastOfItsId(more, i)
      ensures more[i].id in next && next[more[i].id] == more[i].geometry
    {
      if i < |units| {
        assert more[|units|].id != more[i].id;
        EarlierLast(units, last, i);
      }
    }
  }

  lemma EarlierLast(units: seq<PreMergeUnit>, last: PreMergeUnit, i: nat)
    requires i < |units| && LastOfItsId(units + [last], i)
    ensures LastOfItsId(units, i)
  {
    forall j | i < j < |units|
      ensures units[j].id != units[i].id
    {
      assert (units + [last])[j] == units[j];
    }
  }

  lemma {:induction false} StagedMapHits(units: seq<PreMergeUnit>, terminal: UnitId, refined: Option<Geometry>)
    ensures Hits(StagedMap(units, terminal, refined), units, terminal, refined)
  {
    hide Hits;
    if units == [] {
      NothingHit(terminal, refined);
    } else {
      var init, last := units[..|units| - 1], units[|units| - 1];
      StagedMapHits(init, terminal, refined);
      HitsMore(StagedMap(init, terminal, refined), init, last, terminal, refined);
      assert init + [last] == units;
    }
  }

  lemma NothingHit(terminal: UnitId, refined: Option<Geometry>)
    ensures Hits(map[], [], terminal, refined)
  {
  }

  lemma StagedExact(units: seq<PreMergeUnit>, terminal: UnitId, refined: Option<Geometry>)
    ensures StagedTarget(WithOverride(StagedMap(units, terminal, refined), terminal, refined), units, terminal, refined)
  {
    hide StagedMap, LastOfItsId;
    StagedMapHits(units, terminal, refined);
  }

  /** `dissolve_watershed`, up to the dissolve itself. */
  method DissolveWatershed(units: seq<PreMergeUnit>, terminal: UnitId, refined: Option<Geometry>) returns (r: Result<seq<Geometry>, AssemblyError>)
    ensures r == StagedFeed(units, terminal, refined)
    ensures exists m :: StagedTarget(m, units, terminal, refined) && FedFrom(r, m, InOrder(m), terminal, refined.Some?)
  {
    hide Feed, FedFrom, StagedTarget;
    StagedExact(units, terminal, refined);
    var m: GeometryMap := map[];
    for k := 0 to |units|
      invariant m == StagedMap(units[..k], terminal, refined)
    {
      assert units[..k + 1][..k] == units[..k];
      if units[k].id == terminal && refined.Some? {
        continue;
      }
      m := m[units[k].id := units[k].geometry];
    }
    assert units[..|units|] == units;
    if refined.Some? {
      m := m[terminal := refined.value];
    }
    r := FeedInOrder(m, terminal, refined.Some?);
  }

  // ---- The direct path --------------------------------------------------------------------

  function Without(ids: seq<UnitId>, id: UnitId): (s: seq<UnitId>)
    ensures forall i :: i in s <==> i in ids && i != id
  {
    if ids == [] then [] else (if ids[0] == id then [] else [ids[0]]) + Without(ids[1..], id)
  }

  function Missing(ids: seq<UnitId>, m: GeometryMap): (s: seq<UnitId>)
    ensures forall i :: i in s <==> i in ids && i !in m
  {
    if ids == [] then [] else (if ids[0] in m then [] else [ids[0]]) + Missing(ids[1..], m)
  }

  /** An overridden terminal is not fetched. */
  function FetchedIds(ids: seq<UnitId>, refined: Option<Geometry>): seq<UnitId>
    requires ids != []
  {
    if refined.Some? then Without(ids, ids[0]) else ids
  }

  function MapQueryError(e: QueryError): AssemblyError {
    match e
    case Read => CatchmentQuery
    case Decode(id) => GeometryDecode(id)
  }

  /** What the direct path feeds to the dissolve. */
  function DirectFeed(store: CatchmentStore, ids: seq<UnitId>, refined: Option<Geometry>): Result<seq<Geometry>, AssemblyError>
    requires ids != []
  {
    var terminal := ids[0];
    var fetched := QueryGeometries(store, FetchedIds(ids, refined));
    if fetched.Err? then Err(MapQueryError(fetched.error))
    else
      var indexed :- IndexUpTo(fetched.value, |fetched.value|);
      if refined.Some? && ContainsId(store, terminal) && terminal in indexed then Err(DuplicateCatchment(terminal))
      else
        var m := if ContainsId(store, terminal) then WithOverride(indexed, terminal, refined) else indexed;
        if Missing(ids, m) != [] then Err(MissingCatchments(Missing(ids, m)))
        else Feed(m, InOrder(m), terminal, refined.Some?)
  }

  // ---- What a query finds -----------------------------------------------------------------

  /** The geometry of the last row of an id. */
  function LastRow(rows: seq<StoreRow>, id: UnitId): Option<Geometry> {
    if rows == [] then None
    else if rows[|rows| - 1].id == id then rows[|rows| - 1].geometry
    else LastRow(rows[..|rows| - 1], id)
  }

  lemma DecodedMore(rows: seq<StoreRow>, last: StoreRow)
    requires Decoded(rows + [last]).Ok?
    ensures Decoded(rows).Ok? && last.geometry.Some?
    ensures Decoded(rows + [last]).value == Decoded(rows).value + [GeometryRow(last.id, last.geometry.value)]
  {
    assert (rows + [last])[..|rows|] == rows;
  }

  lemma LastByIdMore(rows: seq<GeometryRow>, last: GeometryRow)
    ensures LastById(rows + [last]) == LastById(rows)[last.id := last.geometry]
  {
    assert (rows + [last])[..|rows|] == rows;
  }

  /** What a map of queried rows must be. */
  ghost predicate MapsLastRows(m: GeometryMap, rows: seq<StoreRow>, ids: set<UnitId>) {
    && (forall id :: id in m <==> id in ids && exists r :: r in rows && r.id == id)
    && (forall id :: id in m ==> LastRow(rows, id) == Some(m[id]))
  }

  lemma MapsMore(m: GeometryMap, rows: seq<StoreRow>, ids: set<UnitId>, last: StoreRow)
    requires MapsLastRows(m, rows, ids)
    ensures last.id !in ids ==> MapsLastRows(m, rows + [last], ids)
    ensures last.id in ids && last.geometry.Some? ==> MapsLastRows(m[last.id := last.geometry.value], rows + [last], ids)
  {
    assert (rows + [last])[..|rows|] == rows;
    assert last in rows + [last];
    assert forall r :: r in rows + [last] <==> r in rows || r == last;
  }

  /** A query for more ids does not change what any one id gets. */
  lemma {:induction false} LastSelected(rows: seq<StoreRow>, ids: set<UnitId>)
    requires Decoded(Selected(rows, ids)).Ok?
    ensures MapsLastRows(LastById(Decoded(Selected(rows, ids)).value), rows, ids)
  {
    hide Decoded, LastById, MapsLastRows;
    if rows == [] {
      NothingMapped(ids);
    } else {
      var init, last := rows[..|rows| - 1], rows[|rows| - 1];
      assert rows == init + [last];
      var before := Selected(init, ids);
      if last.id in ids {
        DecodedMore(before, last);
        LastByIdMore(Decoded(before).value, GeometryRow(last.id, last.geometry.value));
      } else {
        assert before + [] == before;
      }
      LastSelected(init, ids);
      MapsMore(LastById(Decoded(before).value), init, ids, last);
    }
  }

  lemma NothingMapped(ids: set<UnitId>)
    ensures MapsLastRows(LastById(Decoded(Selected([], ids)).value), [], ids)
  {
  }

  lemma {:induction false} SelectedFewer(rows: seq<StoreRow>, few: set<UnitId>, many: set<UnitId>)
    requires few <= many && Decoded(Selected(rows, many)).Ok?
    ensures Decoded(Selected(rows, few)).Ok?
  {
    hide Decoded, Selected;
    forall i | 0 <= i < |Selected(rows, few)|
      ensures Selected(rows, few)[i].geometry.Some?
    {
      var r := Selected(rows, few)[i];
      assert r in Selected(rows, few);
      assert r in Selected(rows, many);
    }
  }

  /** A successful query maps every id it finds to the geometry of that id's last row. */
  lemma QueriedMap(store: CatchmentStore, ids: seq<UnitId>)
    requires QueryGeometries(store, ids).Ok?
    ensures var m := LastById(QueryGeometries(store, ids).value);
            && (forall id :: id in m <==> id in ids && ContainsId(store, id))
            && (forall id :: id in m ==> LastRow(store.rows, id) == Some(m[id]))
  {
    hide Selected, Decoded, LastById, LastRow;
    var rows := Selected(store.rows, IdSet(ids));
    if rows == [] {
      NothingDecoded();
    }
    LastSelected(store.rows, IdSet(ids));
  }

  lemma NothingDecoded()
    ensures Decoded([]) == Ok([])
  {
  }

  /** Fetching fewer ids cannot fail where fetching all succeeded. */
  lemma FewerFetched(store: CatchmentStore, ids: seq<UnitId>, few: seq<UnitId>)
    requires QueryGeometries(store, ids).Ok? && forall id :: id in few ==> id in ids
    ensures QueryGeometries(store, few).Ok?
  {
    hide Decoded;
    var some, all := Selected(store.rows, IdSet(few)), Selected(store.rows, IdSet(ids));
    NothingDecoded();
    if some != [] {
      assert some[0] in some;
      assert some[0] in all;
      assert all != [] && Decoded(all).Ok?;
      assert forall id :: id in IdSet(few) ==> id in IdSet(ids);
      SelectedFewer(store.rows, IdSet(few), IdSet(ids));
    }
  }

  /** What the direct path must feed: exactly the requested ids, the override in the terminal's slot, and for every
      other id the geometry of its row. */
  ghost predicate DirectTarget(m: GeometryMap, store: CatchmentStore, ids: seq<UnitId>, refined: Option<Geometry>)
    requires ids != []
  {
    && (forall id :: id in m <==> id in ids)
    && (refined.Some? ==> ids[0] in m && m[ids[0]] == refined.value)
    && (forall id :: id in m && !Overridden(id, ids[0], refined) ==> LastRow(store.rows, id) == Some(m[id]))
  }

  lemma DirectExact(store: CatchmentStore, ids: seq<UnitId>, refined: Option<Geometry>, m: GeometryMap)
    requires ids != [] && QueryGeometries(store, FetchedIds(ids, refined)).Ok?
    requires var indexed := LastById(QueryGeometries(store, FetchedIds(ids, refined)).value);
             m == if ContainsId(store, ids[0]) then WithOverride(indexed, ids[0], refined) else indexed
    requires Missing(ids, m) == []
    ensures DirectTarget(m, store, ids, refined)
  {
    hide QueryGeometries, LastById, LastRow, ContainsId, Without, Missing;
    QueriedMap(store, FetchedIds(ids, refined));
    assert ids[0] in ids;
    forall id | id in ids
      ensures id in m
    {
      assert id !in Missing(ids, m);
    }
  }

  /** The outcome is a feed of some map, not a failure before it. */
  predicate Feedable(r: Result<seq<Geometry>, AssemblyError>) {
    r.Ok? || r.error.EmptyCatchmentGeometry? || r.error.EmptyRefinedTerminalGeometry?
  }

  /** `assemble_watershed`, up to the dissolve itself. */
  method AssembleWatershed(store: CatchmentStore, ids: seq<UnitId>, refined: Option<Geometry>) returns (r: Result<seq<Geometry>, AssemblyError>)
    requires ids != []
    ensures r == DirectFeed(store, ids, refined)
    ensures Feedable(r) ==> exists m :: DirectTarget(m, store, ids, refined) && FedFrom(r, m, InOrder(m), ids[0], refined.Some?)
  {
    hide QueryGeometries, IndexUpTo, Feed, FedFrom, DirectTarget, Missing, ContainsId, LastById, LastRow;
    var terminal := ids[0];
    var fetched := QueryGeometries(store, FetchedIds(ids, refined));
    if fetched.Err? {
      return Err(MapQueryError(fetched.error));
    }
    IndexExact(fetched.value, |fetched.value|);
    assert fetched.value[..|fetched.value|] == fetched.value;
    var m :- IndexCatchmentsById(fetched.value);
    if refined.Some? && ContainsId(store, terminal) {
      if terminal in m {
        return Err(DuplicateCatchment(terminal));
      }
      m := m[terminal := refined.value];
    }
    var missing := Missing(ids, m);
    if missing != [] {
      return Err(MissingCatchments(missing));
    }
    DirectExact(store, ids, refined, m);
    r := FeedInOrder(m, terminal, refined.Some?);
  }

  // ---- The two paths agree ----------------------------------------------------------------

  /** The staged map of materialised units: every id but an overridden terminal, with its geometry. */
  lemma {:induction false} StagedMapOf(geometries: GeometryMap, ids: seq<UnitId>, level: int, terminal: UnitId, refined: Option<Geometry>)
    requires forall id :: id in ids ==> id in geometries
    ensures var m := StagedMap(UnitsOf(geometries, ids, level), terminal, refined);
            && (forall id :: id in m <==> id in ids && !(id == terminal && refined.Some?))
            && (forall id :: id in m ==> m[id] == geometries[id])
  {
    if ids == [] {
    } else {
      var units := UnitsOf(geometries, ids, level);
      assert units[..|units| - 1] == UnitsOf(geometries, ids[..|ids| - 1], level);
      StagedMapOf(geometries, ids[..|ids| - 1], level, terminal, refined);
      assert forall id :: id in ids <==> id in ids[..|ids| - 1] || id == ids[|ids| - 1];
    }
  }

  /** Both paths end up with one map. */
  lemma SameMap(store: CatchmentStore, ids: seq<UnitId>, level: int, refined: Option<Geometry>)
    requires ids != [] && QueryGeometries(store, ids).Ok?
    requires forall id :: id in ids ==> id in LastById(QueryGeometries(store, ids).value)
    ensures QueryGeometries(store, FetchedIds(ids, refined)).Ok?
    ensures var indexed := LastById(QueryGeometries(store, FetchedIds(ids, refined)).value);
            var units := UnitsOf(LastById(QueryGeometries(store, ids).value), ids, level);
            && ContainsId(store, ids[0]) && (refined.Some? ==> ids[0] !in indexed)
            && WithOverride(indexed, ids[0], refined) == WithOverride(StagedMap(units, ids[0], refined), ids[0], refined)
            && Missing(ids, WithOverride(indexed, ids[0], refined)) == []
  {
    hide QueryGeometries, LastById, UnitsOf, StagedMap, LastRow, Without, Missing, ContainsId;
    var terminal, fetched := ids[0], FetchedIds(ids, refined);
    FewerFetched(store, ids, fetched);
    var all := LastById(QueryGeometries(store, ids).value);
    var indexed := LastById(QueryGeometries(store, fetched).value);
    QueriedMap(store, ids);
    QueriedMap(store, fetched);
    var staged := StagedMap(UnitsOf(all, ids, level), terminal, refined);
    StagedMapOf(all, ids, level, terminal, refined);
    assert terminal in ids;
    assert forall id :: id in indexed <==> id in staged;
    assert forall id :: id in indexed ==> indexed[id] == staged[id];
    assert indexed == staged;
    var m := WithOverride(indexed, terminal, refined);
    assert forall id :: id in ids ==> id in m;
    NoneMissing(ids, m);
  }

  lemma {:induction false} NoneMissing(ids: seq<UnitId>, m: GeometryMap)
    requires forall id :: id in ids ==> id in m
    ensures Missing(ids, m) == []
  {
    if ids != [] {
      var first := ids[0];
      assert first in ids;
      NoneMissing(ids[1..], m);
    }
  }

  lemma NoOverride(m: GeometryMap, terminal: UnitId, refined: Option<Geometry>)
    ensures refined.None? ==> WithOverride(m, terminal, refined) == m
  {
  }

  /** Nothing fetched from an opened store is duplicated. */
  lemma {:induction false} SelectedDistinct(rows: seq<StoreRow>, ids: set<UnitId>)
    requires Opened(CatchmentStore(rows, true))
    ensures Opened(CatchmentStore(Selected(rows, ids), true))
  {
    if rows == [] {
    } else {
      var init, last := rows[..|rows| - 1], rows[|rows| - 1];
      var before := Selected(init, ids);
      assert forall i :: 0 <= i < |init| ==> init[i] == rows[i];
      SelectedDistinct(init, ids);
      forall i | 0 <= i < |before|
        ensures before[i].id != last.id
      {
        assert before[i] in before;
        var j :| 0 <= j < |init| && init[j] == before[i];
        assert rows[j].id != rows[|rows| - 1].id;
      }
      assert Selected(rows, ids) == before + if last.id in ids then [last] else [];
    }
  }

  lemma FetchedDistinct(store: CatchmentStore, ids: seq<UnitId>)
    requires Opened(store) && QueryGeometries(store, ids).Ok?
    ensures DistinctIds(QueryGeometries(store, ids).value)
  {
    hide Selected, Decoded;
    SelectedDistinct(store.rows, IdSet(ids));
  }

  /** On an opened store the direct path's duplicate branches are never taken, whatever is asked for. */
  lemma DuplicateBranchUnreachable(store: CatchmentStore, ids: seq<UnitId>, refined: Option<Geometry>)
    requires Opened(store) && ids != []
    ensures var r := DirectFeed(store, ids, refined); r.Err? ==> !r.error.DuplicateCatchment?
  {
    hide QueryGeometries, IndexUpTo, Feed, InOrder, Missing, Without, ContainsId, WithOverride, LastById, LastRow, Opened;
    var fetched := QueryGeometries(store, FetchedIds(ids, refined));
    if fetched.Ok? {
      FetchedDistinct(store, FetchedIds(ids, refined));
      assert fetched.value[..|fetched.value|] == fetched.value;
      IndexExact(fetched.value, |fetched.value|);
      QueriedMap(store, FetchedIds(ids, refined));
      var indexed := LastById(fetched.value);
      var m := if ContainsId(store, ids[0]) then WithOverride(indexed, ids[0], refined) else indexed;
      FeedErrors(m, InOrder(m), ids[0], refined.Some?);
    }
  }

  lemma FeedErrors(m: GeometryMap, ids: seq<UnitId>, terminal: UnitId, overridden: bool)
    requires forall id :: id in ids ==> id in m
    ensures var r := Feed(m, ids, terminal, overridden); r.Err? ==> !r.error.DuplicateCatchment?
  {
  }

  /** On an opened store the last row of an id is its only row. */
  lemma {:induction false} OnlyRow(rows: seq<StoreRow>, r: StoreRow)
    requires Opened(CatchmentStore(rows, true)) && r in rows
    ensures LastRow(rows, r.id) == r.geometry
  {
    var init, last := rows[..|rows| - 1], rows[|rows| - 1];
    var i :| 0 <= i < |rows| && rows[i] == r;
    if i < |rows| - 1 {
      assert init[i] == r;
      assert forall j :: 0 <= j < |init| ==> init[j] == rows[j];
      OnlyRow(init, r);
    }
  }

  /** A query of an opened store finds exactly the rows asked for, each under its own id. */
  lemma QueriedExact(store: CatchmentStore, ids: seq<UnitId>)
    requires Opened(store) && QueryGeometries(store, ids).Ok?
    ensures var m := LastById(QueryGeometries(store, ids).value);
            && (forall id :: id in m <==> id in ids && ContainsId(store, id))
            && (forall r :: r in store.rows && r.id in ids ==> r.id in m && r.geometry == Some(m[r.id]))
  {
    hide QueryGeometries, LastById, LastRow;
    QueriedMap(store, ids);
    forall r | r in store.rows && r.id in ids
      ensures LastRow(store.rows, r.id) == r.geometry
    {
      OnlyRow(store.rows, r);
    }
  }

  /** Whenever pre-merge units can be produced from an opened store, their ids are distinct, and the two paths feed
      the dissolve the same geometries in id order, the override in the terminal's slot, or name the same first
      empty unit. */
  lemma PathsAgree(store: CatchmentStore, ids: seq<UnitId>, level: int, refined: Option<Geometry>)
    requires ids != [] && Opened(store) && Materialisable(store, ids, level)
    ensures NoRepeats(ids)
    ensures var units := UnitsOf(LastById(QueryGeometries(store, ids).value), ids, level);
            var r := StagedFeed(units, ids[0], refined);
            && DirectFeed(store, ids, refined) == r
            && exists m :: DirectTarget(m, store, ids, refined) && FedFrom(r, m, InOrder(m), ids[0], refined.Some?)
  {
    hide QueryGeometries, QueryMetadata, LastLevels, LastById, UnitsOf, StagedMap, FetchedIds, IndexUpTo, Feed, InOrder, Missing,
         ContainsId, WithOverride, Opened, DirectTarget, FedFrom;
    SameMap(store, ids, level, refined);
    var rows := QueryGeometries(store, FetchedIds(ids, refined)).value;
    FetchedDistinct(store, FetchedIds(ids, refined));
    IndexExact(rows, |rows|);
    assert rows[..|rows|] == rows;
    NoOverride(LastById(rows), ids[0], refined);
    var m := WithOverride(LastById(rows), ids[0], refined);
    DirectExact(store, ids, refined, m);
    FeedExact(m, ids[0], refined.Some?);
  }

  /** Opening, producing units and dissolving them, against the direct path: the whole staged run agrees. */
  method StagedRun(groups: seq<seq<StoreRow>>, readable: bool, ids: seq<UnitId>, level: int, refined: Option<Geometry>)
    returns (staged: Option<Result<seq<Geometry>, AssemblyError>>, direct: Option<Result<seq<Geometry>, AssemblyError>>)
    requires ids != []
    ensures staged.Some? ==> direct == staged
  {
    var opening := OpenCatchments(groups, readable);
    if opening.Err? {
      return None, None;
    }
    var store := opening.value;
    var assembled := AssembleWatershed(store, ids, refined);
    direct := Some(assembled);
    var units := ProducePreMergeUnits(store, ids, level);
    if units.Err? {
      return None, direct;
    }
    PathsAgree(store, ids, level, refined);
    var dissolved := DissolveWatershed(units.value, ids[0], refined);
    staged := Some(dissolved);
  }
}
