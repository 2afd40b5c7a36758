/** When the two assembly paths succeed and what they report, said of the stored rows. */
module AssemblyExact {
  import opened Results
  import opened Assembly

  /** Some stored row has a requested id. */
  ghost predicate AnyStored(store: CatchmentStore, ids: seq<UnitId>) {
    exists r :: r in store.rows && r.id in ids
  }

  ghost predicate Stored(store: CatchmentStore, id: UnitId) {
    exists r :: r in store.rows && r.id == id
  }

  lemma NothingSelected(store: CatchmentStore, ids: seq<UnitId>)
    ensures Selected(store.rows, IdSet(ids)) == [] <==> !AnyStored(store, ids)
  {
    var rows := Selected(store.rows, IdSet(ids));
    if rows != [] {
      assert rows[0] in rows;
    }
  }

  /** A metadata query reads exactly when some row is asked for, and finds exactly those rows. */
  lemma MetadataQueried(store: CatchmentStore, ids: seq<UnitId>)
    ensures QueryMetadata(store, ids).Ok? <==> store.readable || !AnyStored(store, ids)
    ensures QueryMetadata(store, ids).Ok? ==> forall r :: r in QueryMetadata(store, ids).value <==> r in store.rows && r.id in ids
    ensures QueryMetadata(store, ids).Err? ==> QueryMetadata(store, ids) == Err(Read)
  {
    hide Selected;
    NothingSelected(store, ids);
  }

  /** A geometry query succeeds exactly when nothing is asked for, or the file can be read and every row asked for
      decodes; a decoding failure names such a row. */
  lemma GeometriesQueried(store: CatchmentStore, ids: seq<UnitId>)
    ensures QueryGeometries(store, ids).Ok? <==>
            !AnyStored(store, ids) || (store.readable && forall r :: r in store.rows && r.id in ids ==> r.geometry.Some?)
    ensures QueryGeometries(store, ids) == Err(Read) <==> AnyStored(store, ids) && !store.readable
    ensures QueryGeometries(store, ids).Err? && QueryGeometries(store, ids).error.Decode? ==>
              exists r :: r in store.rows && r.id in ids && r.geometry.None? && QueryGeometries(store, ids) == Err(Decode(r.id))
  {
    NothingSelected(store, ids);
    var rows := Selected(store.rows, IdSet(ids));
    DecodedFailure(rows);
    hide Selected, Decoded;
    if forall i :: 0 <= i < |rows| ==> rows[i].geometry.Some? {
      forall r | r in store.rows && r.id in ids
        ensures r.geometry.Some?
      {
        assert r in rows;
      }
    } else {
      var i :| 0 <= i < |rows| && rows[i].geometry.None?;
      assert rows[i] in rows;
    }
  }

  lemma {:induction false} DecodedFailure(rows: seq<StoreRow>)
    ensures Decoded(rows).Err? ==> exists r :: r in rows && r.geometry.None? && Decoded(rows) == Err(Decode(r.id))
  {
    if rows != [] {
      DecodedFailure(rows[..|rows| - 1]);
      assert rows[|rows| - 1] in rows && forall r :: r in rows[..|rows| - 1] ==> r in rows;
    }
  }

  // ---- The staged path --------------------------------------------------------------------

  /** The id's row is on the level and its geometry decodes. */
  ghost predicate OnLevelDecoding(store: CatchmentStore, id: UnitId, level: int) {
    exists r :: r in store.rows && r.id == id && r.level == level && r.geometry.Some?
  }

  lemma OneRow(store: CatchmentStore, a: StoreRow, b: StoreRow)
    requires Opened(store) && a in store.rows && b in store.rows && a.id == b.id
    ensures a == b
  {
    var i :| 0 <= i < |store.rows| && store.rows[i] == a;
    var j :| 0 <= j < |store.rows| && store.rows[j] == b;
  }

  lemma {:induction false} LevelsOf(rows: seq<StoreRow>)
    ensures forall id :: id in LastLevels(rows) ==> exists r :: r in rows && r.id == id && r.level == LastLevels(rows)[id]
    ensures forall r :: r in rows ==> r.id in LastLevels(rows)
  {
    if rows != [] {
      var init, last := rows[..|rows| - 1], rows[|rows| - 1];
      LevelsOf(init);
      assert rows == init + [last];
      assert last in rows && forall r :: r in rows <==> r in init || r == last;
    }
  }

  /** On an opened store units can be produced exactly when no id is repeated, the file can be read if anything is
      asked for, and every id has a row on the level whose geometry decodes. */
  lemma MaterialisableExact(store: CatchmentStore, ids: seq<UnitId>, level: int)
    requires Opened(store)
    ensures Materialisable(store, ids, level) <==>
            NoRepeats(ids) && (ids != [] ==> store.readable) && forall id :: id in ids ==> OnLevelDecoding(store, id, level)
  {
    hide QueryMetadata, QueryGeometries, LastLevels, LastById, LastRow, Opened, NoRepeats;
    MetadataQueried(store, ids);
    GeometriesQueried(store, ids);
    if Materialisable(store, ids, level) {
      LevelsOf(QueryMetadata(store, ids).value);
      QueriedExact(store, ids);
      hide AnyStored;
      forall id | id in ids
        ensures OnLevelDecoding(store, id, level)
      {
        MaterialisedRow(store, ids, level, id);
      }
      if ids != [] {
        assert ids[0] in ids;
        AnyStoredBy(store, ids, ids[0], level);
      }
    }
    if NoRepeats(ids) && (ids != [] ==> store.readable) && forall id :: id in ids ==> OnLevelDecoding(store, id, level) {
      Materialises(store, ids, level);
    }
  }

  lemma AnyStoredBy(store: CatchmentStore, ids: seq<UnitId>, id: UnitId, level: int)
    requires id in ids && OnLevelDecoding(store, id, level)
    ensures AnyStored(store, ids)
  {
  }

  lemma MaterialisedRow(store: CatchmentStore, ids: seq<UnitId>, level: int, id: UnitId)
    requires Opened(store) && Materialisable(store, ids, level) && id in ids
    ensures OnLevelDecoding(store, id, level)
  {
    hide QueryMetadata, QueryGeometries, LastLevels, LastById, LastRow, Opened, NoRepeats, AnyStored;
    var rows := QueryMetadata(store, ids).value;
    MetadataQueried(store, ids);
    LevelsOf(rows);
    QueriedExact(store, ids);
    var r :| r in rows && r.id == id && r.level == LastLevels(rows)[id];
    assert r in store.rows && r.id in ids;
  }

  lemma Materialises(store: CatchmentStore, ids: seq<UnitId>, level: int)
    requires Opened(store) && NoRepeats(ids) && (ids != [] ==> store.readable) && forall id :: id in ids ==> OnLevelDecoding(store, id, level)
    ensures Materialisable(store, ids, level)
  {
    hide QueryMetadata, QueryGeometries, LastLevels, LastById, LastRow, Opened, NoRepeats;
    MetadataQueried(store, ids);
    GeometriesQueried(store, ids);
    forall r | r in store.rows && r.id in ids
      ensures r.geometry.Some? && r.level == level
    {
      var q :| q in store.rows && q.id == r.id && q.level == level && q.geometry.Some?;
      OneRow(store, r, q);
    }
    if ids == [] {
      assert !AnyStored(store, ids);
    }
    LevelsOf(QueryMetadata(store, ids).value);
    QueriedExact(store, ids);
    forall id | id in ids
      ensures id in LastLevels(QueryMetadata(store, ids).value) && LastLevels(QueryMetadata(store, ids).value)[id] == level
      ensures id in LastById(QueryGeometries(store, ids).value)
    {
      var q :| q in store.rows && q.id == id && q.level == level && q.geometry.Some?;
      assert q in QueryMetadata(store, ids).value;
    }
  }

  /** The units are the ids in the order given, each with its own row's geometry. */
  lemma UnitsExact(store: CatchmentStore, ids: seq<UnitId>, level: int)
    requires Opened(store) && Materialisable(store, ids, level)
    ensures var units := UnitsOf(LastById(QueryGeometries(store, ids).value), ids, level);
            && |units| == |ids|
            && forall i :: 0 <= i < |ids| ==>
                 && units[i].id == ids[i] && units[i].level == level
                 && exists r :: r in store.rows && r.id == ids[i] && r.geometry == Some(units[i].geometry)
  {
    hide QueryMetadata, QueryGeometries, LastLevels, LastById, LastRow, Opened, NoRepeats;
    var m := LastById(QueryGeometries(store, ids).value);
    QueriedExact(store, ids);
    UnitsAt(m, ids, level);
    forall i | 0 <= i < |ids|
      ensures exists r :: r in store.rows && r.id == ids[i] && r.geometry == Some(m[ids[i]])
    {
      assert ids[i] in ids;
      MaterialisedRow(store, ids, level, ids[i]);
      var r :| r in store.rows && r.id == ids[i] && r.level == level && r.geometry.Some?;
    }
  }

  lemma {:induction false} UnitsAt(m: GeometryMap, ids: seq<UnitId>, level: int)
    requires forall id :: id in ids ==> id in m
    ensures |UnitsOf(m, ids, level)| == |ids|
    ensures forall i :: 0 <= i < |ids| ==> ids[i] in ids && UnitsOf(m, ids, level)[i] == PreMergeUnit(ids[i], level, m[ids[i]])
  {
    if ids != [] {
      assert ids[|ids| - 1] in ids && forall id :: id in ids[..|ids| - 1] ==> id in ids;
      UnitsAt(m, ids[..|ids| - 1], level);
    }
  }

  // ---- The direct path --------------------------------------------------------------------

  /** What the direct path asks the store for. */
  ghost predicate Asked(ids: seq<UnitId>, refined: Option<Geometry>, id: UnitId)
    requires ids != []
  {
    id in ids && (refined.None? || id != ids[0])
  }

  lemma AskedExact(ids: seq<UnitId>, refined: Option<Geometry>, id: UnitId)
    requires ids != []
    ensures id in FetchedIds(ids, refined) <==> Asked(ids, refined, id)
  {
  }

  /** On an opened store the direct path fails to query exactly when a row it asks for is stored and the file cannot be
      read; names a row that does not decode exactly when it can be read and some row it asks for does not; and reports
      missing ids exactly when the rows decode and some requested id is not stored, and then exactly those ids. */
  lemma DirectOutcome(store: CatchmentStore, ids: seq<UnitId>, refined: Option<Geometry>)
    requires Opened(store) && ids != []
    ensures var r := DirectFeed(store, ids, refined);
            var asked := exists row :: row in store.rows && Asked(ids, refined, row.id);
            var decode := forall row :: row in store.rows && Asked(ids, refined, row.id) ==> row.geometry.Some?;
            && (r == Err(CatchmentQuery) <==> asked && !store.readable)
            && (r.Err? && r.error.GeometryDecode? <==> asked && store.readable && !decode)
            && (r.Err? && r.error.GeometryDecode? ==>
                  exists row :: row in store.rows && Asked(ids, refined, row.id) && row.geometry.None? && r.error.id == row.id)
            && (r.Err? && r.error.MissingCatchments? <==>
                  (!asked || (store.readable && decode)) && exists id :: id in ids && !Stored(store, id))
            && (r.Err? && r.error.MissingCatchments? ==> forall id :: id in r.error.ids <==> id in ids && !Stored(store, id))
  {
    hide QueryGeometries, IndexUpTo, Feed, InOrder, Missing, WithOverride, LastById, LastRow, Opened, Asked;
    var fetch := FetchedIds(ids, refined);
    forall id
      ensures id in fetch <==> Asked(ids, refined, id)
    {
      AskedExact(ids, refined, id);
    }
    hide FetchedIds;
    GeometriesQueried(store, fetch);
    var fetched := QueryGeometries(store, fetch);
    if fetched.Ok? {
      FetchedDistinct(store, fetch);
      assert fetched.value[..|fetched.value|] == fetched.value;
      IndexExact(fetched.value, |fetched.value|);
      DirectMissing(store, ids, refined);
    }
  }

  lemma DirectMissing(store: CatchmentStore, ids: seq<UnitId>, refined: Option<Geometry>)
    requires Opened(store) && ids != [] && QueryGeometries(store, FetchedIds(ids, refined)).Ok?
    requires var rows := QueryGeometries(store, FetchedIds(ids, refined)).value;
             IndexUpTo(rows, |rows|) == Ok(LastById(rows))
    ensures var r := DirectFeed(store, ids, refined);
            && (r.Err? ==> !r.error.CatchmentQuery? && !r.error.GeometryDecode?)
            && (r.Err? && r.error.MissingCatchments? <==> exists id :: id in ids && !Stored(store, id))
            && (r.Err? && r.error.MissingCatchments? ==> forall id :: id in r.error.ids <==> id in ids && !Stored(store, id))
  {
    hide QueryGeometries, IndexUpTo, Feed, InOrder, WithOverride, LastById, LastRow, Opened, Missing, FetchedIds, Without;
    var fetch := FetchedIds(ids, refined);
    var indexed := LastById(QueryGeometries(store, fetch).value);
    DuplicateBranchUnreachable(store, ids, refined);
    var m := if ContainsId(store, ids[0]) then WithOverride(indexed, ids[0], refined) else indexed;
    DirectDomain(store, ids, refined, indexed);
    var missing := Missing(ids, m);
    assert DirectFeed(store, ids, refined) ==
           if missing != [] then Err(MissingCatchments(missing)) else Feed(m, InOrder(m), ids[0], refined.Some?);
    hide DirectFeed;
    FedErrors(m, ids[0], refined.Some?);
    if missing != [] {
      assert missing[0] in missing;
      assert missing[0] in ids && missing[0] !in m;
      assert !Stored(store, missing[0]);
      forall id
        ensures id in missing <==> id in ids && !Stored(store, id)
      {
        assert id in missing <==> id in ids && id !in m;
      }
    } else {
      forall id | id in ids
        ensures Stored(store, id)
      {
        assert id !in missing;
      }
    }
  }

  lemma DirectDomain(store: CatchmentStore, ids: seq<UnitId>, refined: Option<Geometry>, indexed: GeometryMap)
    requires Opened(store) && ids != [] && QueryGeometries(store, FetchedIds(ids, refined)).Ok?
    requires indexed == LastById(QueryGeometries(store, FetchedIds(ids, refined)).value)
    ensures var m := if ContainsId(store, ids[0]) then WithOverride(indexed, ids[0], refined) else indexed;
            forall id :: id in ids ==> (id in m <==> Stored(store, id))
  {
    hide QueryGeometries, LastById, LastRow, Opened, FetchedIds;
    QueriedExact(store, FetchedIds(ids, refined));
    forall id
      ensures id in FetchedIds(ids, refined) <==> Asked(ids, refined, id)
      ensures ContainsId(store, id) <==> Stored(store, id)
    {
      AskedExact(ids, refined, id);
    }
  }

  lemma FedErrors(m: GeometryMap, terminal: UnitId, overridden: bool)
    ensures var r := Feed(m, InOrder(m), terminal, overridden);
            r.Err? ==> r.error.EmptyCatchmentGeometry? || r.error.EmptyRefinedTerminalGeometry?
  {
    hide Feed, InOrder;
    FeedExact(m, terminal, overridden);
  }

  /** The missing ids are listed in the order asked. */
  lemma {:induction false} MissingInOrder(a: seq<UnitId>, b: seq<UnitId>, m: GeometryMap)
    ensures Missing(a + b, m) == Missing(a, m) + Missing(b, m)
  {
    if a == [] {
      assert a + b == b;
    } else {
      MissingInOrder(a[1..], b, m);
      assert (a + b)[1..] == a[1..] + b && (a + b)[0] == a[0];
      Grouped(if a[0] in m then [] else [a[0]], Missing(a[1..], m), Missing(b, m));
    }
  }

  lemma Grouped<T>(a: seq<T>, b: seq<T>, c: seq<T>)
    ensures a + (b + c) == (a + b) + c
  {
  }
}
