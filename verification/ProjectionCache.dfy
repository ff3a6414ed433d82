/** The byte-bounded cache of resolver projections, oldest entry out first. */
module ProjectionCache {
  import opened Wrappers
  import opened ContributionTables

  datatype CacheKey = CacheKey(workspace: string, version: Version)

  /** The tables a resolver projection is read from. */
  const PROJECTION_TABLES: set<Table> :=
    {FileContributions, Extensions, Nodes, Edges, Dependencies, ExportedSurfaces, Diagnostics,
     UnresolvedReferences, ModuleBindings, SymbolReferences}

  type Projections = map<Path, map<Table, set<Payload>>>

  function ProjectionOf(record: Record): map<Table, set<Payload>> {
    map t: Table | t in PROJECTION_TABLES :: record[t]
  }

  /** What ResolverProjections reads from the tables. */
  function FreshRead(snapshot: map<Path, Record>): Projections {
    map path | path in snapshot :: ProjectionOf(snapshot[path])
  }

  /** Every path of the snapshot with all its tables but the catalog's two. */
  ghost predicate ReadsSnapshot(snapshot: map<Path, Record>, values: Projections) {
    values.Keys == snapshot.Keys && forall path, t: Table :: path in snapshot ==>
      && (t in values[path] <==> t != CatalogUnits && t != CatalogCoverage)
      && (t in values[path] ==> values[path][t] == snapshot[path][t])
  }

  lemma TablesProjected(t: Table)
    ensures t in PROJECTION_TABLES <==> t != CatalogUnits && t != CatalogCoverage
  {}

  lemma RecordProjected(record: Record, t: Table)
    ensures t in ProjectionOf(record) <==> t in PROJECTION_TABLES
    ensures t in ProjectionOf(record) ==> ProjectionOf(record)[t] == record[t]
  {}

  lemma FreshReadIs(snapshot: map<Path, Record>)
    ensures ReadsSnapshot(snapshot, FreshRead(snapshot))
  {
    hide ProjectionOf;
    forall path, t: Table | path in snapshot
      ensures t in FreshRead(snapshot)[path] <==> t != CatalogUnits && t != CatalogCoverage
      ensures t in FreshRead(snapshot)[path] ==> FreshRead(snapshot)[path][t] == snapshot[path][t]
    {
      TablesProjected(t);
      RecordProjected(snapshot[path], t);
    }
  }

  datatype Entry = Entry(values: Projections, bytes: nat, order: nat)

  type Entries = map<CacheKey, Entry>

  // ----- the byte count ---------------------------------------------------------------------

  /** The bytes of all entries; the order of summation does not matter, as SumWithout shows. */
  ghost function Sum(entries: Entries): nat {
    if entries == map[] then 0
    else
      var key :| key in entries;
      entries[key].bytes + Sum(entries - {key})
  }

  lemma {:induction false} SumWithout(entries: Entries, key: CacheKey)
    requires key in entries
    ensures Sum(entries) == entries[key].bytes + Sum(entries - {key})
    decreases |entries|
  {
    var first :| first in entries && Sum(entries) == entries[first].bytes + Sum(entries - {first});
    if first != key {
      assert (entries - {first}) - {key} == (entries - {key}) - {first};
      SumWithout(entries - {first}, key);
      SumWithout(entries - {key}, first);
    }
  }

  lemma SumWith(entries: Entries, key: CacheKey, entry: Entry)
    requires key !in entries
    ensures Sum(entries[key := entry]) == Sum(entries) + entry.bytes
  {
    SumWithout(entries[key := entry], key);
    assert entries[key := entry] - {key} == entries;
  }

  // ----- eviction ---------------------------------------------------------------------------

  ghost predicate DistinctOrders(entries: Entries, order: nat) {
    && (forall key :: key in entries ==> entries[key].order <= order)
    && (forall key, other ::
      key in entries && other in entries && entries[key].order == entries[other].order ==> key == other)
  }

  /** kept is before without its oldest entries. */
  ghost predicate NewestKept(before: Entries, kept: Entries) {
    && kept.Keys <= before.Keys
    && (forall key :: key in kept ==> kept[key] == before[key])
    && (forall key, other ::
      key in kept && other in before && other !in kept ==> before[other].order < before[key].order)
  }

  ghost predicate IsOldest(entries: Entries, key: CacheKey) {
    key in entries && forall other :: other in entries && other != key ==> entries[key].order < entries[other].order
  }

  /** Nothing was evicted, or putting the last evicted entry back would exceed the maximum. */
  ghost predicate EvictedForRoom(before: Entries, kept: Entries, needed: nat, maximum: nat) {
    || kept == before
    || exists last :: last in before && last !in kept && Sum(kept) + before[last].bytes + needed > maximum
         && NewestKept(before, kept[last := before[last]])
  }

  lemma EvictOldest(before: Entries, entries: Entries, key: CacheKey, needed: nat, maximum: nat)
    requires NewestKept(before, entries) && IsOldest(entries, key)
    requires Sum(entries) + needed > maximum
    ensures NewestKept(before, entries - {key})
    ensures Sum(entries) == entries[key].bytes + Sum(entries - {key})
    ensures EvictedForRoom(before, entries - {key}, needed, maximum)
  {
    SumWithout(entries, key);
    var kept := entries - {key};
    assert kept[key := before[key]] == entries;
  }

  lemma FewerOrders(entries: Entries, keys: set<CacheKey>, order: nat)
    requires DistinctOrders(entries, order)
    ensures DistinctOrders(entries - keys, order)
  {}

  lemma AddNewest(entries: Entries, key: CacheKey, entry: Entry, order: nat)
    requires DistinctOrders(entries, order) && key !in entries && entry.order == order + 1
    ensures DistinctOrders(entries[key := entry], order + 1)
    ensures entries[key := entry] - {key} == entries
  {}

  datatype Selection = Exactly(version: Version) | Above(version: Version) | Below(version: Version) {
    predicate Selects(v: Version) {
      match this
      case Exactly(version) => v == version
      case Above(version) => v > version
      case Below(version) => v < version
    }

    function Versions(versions: set<Version>): set<Version> {
      set v | v in versions && Selects(v)
    }
  }

  function Removed(entries: Entries, workspace: string, selection: Selection): set<CacheKey> {
    set key | key in entries && key.workspace == workspace && selection.Selects(key.version)
  }

  /** All that is to be removed is gone, except among the remaining keys. */
  ghost predicate InvalidatedBut(before: Entries, entries: Entries, workspace: string, selection: Selection,
          remaining: set<CacheKey>) {
    remaining <= before.Keys && entries == before - (Removed(before, workspace, selection) - remaining)
  }

  lemma InvalidateOne(before: Entries, entries: Entries, workspace: string, selection: Selection,
          remaining: set<CacheKey>,
          key: CacheKey)
    requires InvalidatedBut(before, entries, workspace, selection, remaining) && key in remaining
    ensures key in entries
    ensures InvalidatedBut(before, if key.workspace == workspace && selection.Selects(key.version) then entries - {key}
      else entries,
                           workspace, selection, remaining - {key})
  {
    var removed := Removed(before, workspace, selection);
    if key in removed {
      assert removed - (remaining - {key}) == (removed - remaining) + {key};
    } else {
      assert removed - (remaining - {key}) == removed - remaining;
    }
  }

  class Cache {
    const maximum: nat
    /** resolverProjectionBytes */
    const measure: Projections -> nat
    var entries: Entries
    var bytes: int
    var order: nat

    ghost predicate Valid()
      reads this
    {
      && bytes == Sum(entries)
      && bytes <= maximum
      && DistinctOrders(entries, order)
    }

    constructor (maximum: nat, measure: Projections -> nat)
      ensures Valid() && entries == map[]
      ensures this.maximum == maximum && this.measure == measure
    {
      this.maximum, this.measure := maximum, measure;
      entries, bytes, order := map[], 0, 0;
    }

    /** cachedResolverProjections */
    method Lookup(key: CacheKey) returns (values: Option<Projections>)
      ensures values == if key in entries then Some(entries[key].values) else None
    {
      if key in entries {
        return Some(entries[key].values);
      }
      return None;
    }

    /** oldestResolverProjection */
    method Oldest() returns (found: Option<CacheKey>)
      requires DistinctOrders(entries, order)
      ensures found.None? <==> entries == map[]
      ensures found.Some? ==> IsOldest(entries, found.value)
    {
      found := None;
      var remaining := entries.Keys;
      while remaining != {}
        invariant remaining <= entries.Keys
        invariant found.None? ==> remaining == entries.Keys
        invariant found.Some? ==> IsOldest(entries - remaining, found.value)
        decreases remaining
      {
        var key :| key in remaining;
        ghost var seen := entries - remaining;
        remaining := remaining - {key};
        assert forall other :: other in entries - remaining ==> other == key || other in seen;
        if found.None? || entries[key].order < entries[found.value].order {
          found := Some(key);
        }
      }
      assert entries - {} == entries;
    }

    method Drop(key: CacheKey)
      requires Valid() && key in entries
      modifies `entries, `bytes
      ensures Valid() && entries == old(entries) - {key}
    {
      SumWithout(entries, key);
      FewerOrders(entries, {key}, order);
      bytes := bytes - entries[key].bytes;
      entries := entries - {key};
    }

    /** The eviction loop of cacheResolverProjections: oldest first, and no more than needed. */
    method MakeRoom(needed: nat)
      requires Valid() && needed <= maximum
      modifies `entries, `bytes
      ensures Valid() && bytes + needed <= maximum
      ensures NewestKept(old(entries), entries)
      ensures EvictedForRoom(old(entries), entries, needed, maximum)
    {
      while bytes + needed > maximum
        invariant Valid()
        invariant NewestKept(old(entries), entries)
        invariant EvictedForRoom(old(entries), entries, needed, maximum)
        decreases entries.Keys
      {
        var oldest := Oldest();
        if oldest.None? {
          break;
        }
        EvictOldest(old(entries), entries, oldest.value, needed, maximum);
        Drop(oldest.value);
      }
    }

    method Put(key: CacheKey, entry: Entry)
      requires bytes == Sum(entries) && bytes + entry.bytes <= maximum && key !in entries
      requires entry.order == order && order > 0 && DistinctOrders(entries, order - 1)
      modifies `entries, `bytes
      ensures Valid() && entries == old(entries)[key := entry] && entries - {key} == old(entries)
    {
      SumWith(entries, key, entry);
      AddNewest(entries, key, entry, order - 1);
      entries := entries[key := entry];
      bytes := bytes + entry.bytes;
    }

    /** cacheResolverProjections, called as ResolverProjections does: for a key that was just missed. */
    method Store(key: CacheKey, values: Projections)
      requires Valid() && key !in entries
      modifies this
      ensures Valid()
      ensures measure(values) > maximum ==> entries == old(entries)
      ensures measure(values) <= maximum ==>
        && key in entries && entries[key].values == values && entries[key].bytes == measure(values)
        && NewestKept(old(entries), entries - {key})
        && EvictedForRoom(old(entries), entries - {key}, measure(values), maximum)
    {
      var size := measure(values);
      if size > maximum {
        return;
      }
      MakeRoom(size);
      order := order + 1;
      Put(key, Entry(values, size, order));
    }

    /** invalidateWorkspaceCaches */
    method Invalidate(workspace: string, selection: Selection)
      requires Valid()
      modifies `entries, `bytes
      ensures Valid()
      ensures entries == old(entries) - Removed(old(entries), workspace, selection)
      ensures entries == map key | key in old(entries) && !(key.workspace == workspace && match selection
        case Exactly(version) => key.version == version
        case Above(version) => key.version > version
        case Below(version) => key.version < version) :: old(entries)[key]
    {
      var remaining := entries.Keys;
      assert InvalidatedBut(entries, entries, workspace, selection, remaining);
      while remaining != {}
        invariant Valid() && InvalidatedBut(old(entries), entries, workspace, selection, remaining)
        decreases remaining
      {
        hide Valid, InvalidatedBut;
        var key :| key in remaining;
        InvalidateOne(old(entries), entries, workspace, selection, remaining, key);
        if key.workspace == workspace && selection.Selects(key.version) {
          Drop(key);
        }
        remaining := remaining - {key};
      }
      assert Removed(old(entries), workspace, selection) - {} == Removed(old(entries), workspace, selection);
    }
  }
}
