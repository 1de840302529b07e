/** Awareness tile bookkeeping (src/navigation/Awareness.cpp): the navigation mesh as a cache of
    "which entity areas overlap this tile", kept right by dirty marking, reference-counted awareness
    areas, an ordered dirty list that mirrors a set, and a most-recently-used list for pruning. */
module Awareness {
  import opened Options
  import opened Sequences
  import opened TileGrid
  import opened AwareCounts

  type EntityId = int

  /** An entity's area, a rotated box: its bounding box, the tiles whose interior meets its interior,
      and the tiles that contain, intersect or touch it (what findEntityAreas selects). */
  datatype EntityArea = EntityArea(bbox: Box, overlaps: set<Tile>, meets: set<Tile>)

  /** A rotated box lies inside its bounding box. */
  ghost predicate Sound(g: Grid, a: EntityArea) {
    a.overlaps <= a.meets && forall t :: t in a.overlaps ==> InteriorsOverlap(g, a.bbox, t)
  }

  datatype EntityEntry = EntityEntry(observers: int, isIgnored: bool, isMoving: bool, isActorOwned: bool)

  /** What an update of an entity brought: which properties are new, and what the entry then says:
      bbox and scaled bbox valid, velocity valid and not zero, the area (absent when invalid). */
  datatype Sight = Sight(newPosition: bool, newBbox: bool, bboxValid: bool, scaledBboxValid: bool,
                         moves: bool, area: Option<EntityArea>)

  /** The bounding box moved by more than 0.1 at one of its corners. */
  predicate LargeChange(a: Box, b: Box) {
    var lx, lz, hx, hz := a.lowX - b.lowX, a.lowZ - b.lowZ, a.highX - b.highX, a.highZ - b.highZ;
    lx * lx + lz * lz > 0.01 || hx * hx + hz * hz > 0.01
  }

  /** The entry after an update: ignored without a usable box, and moving from the first change that finds
      it in motion; a moving entity keeps moving. */
  function EntryAfter(e: EntityEntry, s: Sight): EntityEntry {
    if e.isMoving then e
    else
      var ignored := !s.bboxValid || (e.isIgnored && !(s.newBbox && s.scaledBboxValid));
      e.(isIgnored := ignored, isMoving := !ignored && s.moves && (s.newPosition || s.newBbox))
  }

  /** The recorded areas after an update: none for an entity ignored or in motion, a new one only for a
      change that is large enough. */
  function AreasAfter(areas: map<EntityId, EntityArea>, id: EntityId, e: EntityEntry,
                      s: Sight): map<EntityId, EntityArea> {
    var e' := EntryAfter(e, s);
    if e'.isIgnored || e'.isMoving then areas - {id}
    else if s.area.None? || !(s.newPosition || s.newBbox) then areas
    else if id in areas && !LargeChange(areas[id].bbox, s.area.value.bbox) then areas
    else areas[id := s.area.value]
  }

  /** No coordinate of the boxes differs by more than `limit`. */
  ghost predicate Near(a: Box, b: Box, limit: real) {
    && -limit <= a.lowX - b.lowX <= limit && -limit <= a.lowZ - b.lowZ <= limit
    && -limit <= a.highX - b.highX <= limit && -limit <= a.highZ - b.highZ <= limit
  }

  /** The record follows what is seen: once the entity stands and is not ignored its recorded box is where it was
      seen, to a tenth of a unit; and a recorded entity that hardly moved keeps its record. */
  ghost predicate Follows(areas: map<EntityId, EntityArea>, areas': map<EntityId, EntityArea>, id: EntityId,
                          e: EntityEntry, e': EntityEntry, s: Sight) {
    && (Stands(e, s) ==> !e'.isMoving && !e'.isIgnored)
    && (e.isMoving ==> e' == e)
    && (!e.isMoving && !s.bboxValid ==> e'.isIgnored)
    && (!e.isMoving && e.isIgnored && !s.newBbox ==> e'.isIgnored)
    && (!e.isMoving && !e.isIgnored && s.bboxValid && (s.newPosition || s.newBbox) ==> e'.isMoving == s.moves)
    && (e'.isMoving || e'.isIgnored ==> id !in areas')
    && (!e'.isMoving && !e'.isIgnored && s.area.Some? && (s.newPosition || s.newBbox) ==>
      && id in areas' && Near(areas'[id].bbox, s.area.value.bbox, 0.1)
      && (id in areas && Near(areas[id].bbox, s.area.value.bbox, 0.07) ==> areas' == areas))
  }

  /** An entity with a usable box that is not in motion. */
  predicate Stands(e: EntityEntry, s: Sight) {
    !e.isMoving && !s.moves && s.bboxValid && (e.isIgnored ==> s.newBbox && s.scaledBboxValid)
  }

  lemma SameBoxNotLarge(a: Box)
    ensures !LargeChange(a, a)
  {
  }

  lemma SquaresBound(x: real, z: real)
    ensures x * x + z * z <= 0.01 ==> -0.1 <= x <= 0.1 && -0.1 <= z <= 0.1
    ensures -0.07 <= x <= 0.07 && -0.07 <= z <= 0.07 ==> x * x + z * z <= 0.01
  {
    SquareBound(x);
    SquareBound(z);
  }

  lemma ProductPositive(a: real, b: real)
    requires a >= 0.0 && b >= 0.0
    ensures a * b >= 0.0
    ensures a > 0.0 && b > 0.0 ==> a * b > 0.0
  {
  }

  lemma SquareBound(x: real)
    ensures x * x >= 0.0
    ensures x * x <= 0.01 ==> -0.1 <= x <= 0.1
    ensures -0.07 <= x <= 0.07 ==> x * x <= 0.005
  {
    if x > 0.1 || x < -0.1 {
      var y := if x > 0.0 then x else -x;
      ProductPositive(y - 0.1, y + 0.1);
      assert x * x == y * y == (y - 0.1) * (y + 0.1) + 0.01;
    }
    if -0.07 <= x <= 0.07 {
      ProductPositive(0.07 - x, 0.07 + x);
      assert x * x == 0.0049 - (0.07 - x) * (0.07 + x);
    }
  }

  lemma AreasFollow(areas: map<EntityId, EntityArea>, id: EntityId, e: EntityEntry, s: Sight)
    ensures Follows(areas, AreasAfter(areas, id, e, s), id, e, EntryAfter(e, s), s)
  {
    if id in areas && s.area.Some? {
      var a, b := areas[id].bbox, s.area.value.bbox;
      SquaresBound(a.lowX - b.lowX, a.lowZ - b.lowZ);
      SquaresBound(a.highX - b.highX, a.highZ - b.highZ);
    }
  }

  /** The tiles that become dirty are those of the area that leaves the record of an entity and of the one that
      enters it: none while the record stays as it is. */
  ghost predicate MarksChange(g: Grid, dirty: set<Tile>, dirty': set<Tile>, areas: map<EntityId, EntityArea>,
                              areas': map<EntityId, EntityArea>, id: EntityId)
    requires g.Valid()
  {
    forall t :: t in dirty' <==> t in dirty || Touches(g, areas, areas', id, t) || Touches(g, areas', areas, id, t)
  }

  lemma NothingMarked(g: Grid, dirty: set<Tile>, areas: map<EntityId, EntityArea>, id: EntityId)
    requires g.Valid()
    ensures MarksChange(g, dirty, dirty, areas, areas, id)
  {
  }

  /** `areas` has an area of `id` that reaches the tile and `other` has not got. */
  ghost predicate Touches(g: Grid, areas: map<EntityId, EntityArea>, other: map<EntityId, EntityArea>, id: EntityId,
                          t: Tile)
    requires g.Valid()
  {
    id in areas && (id in other ==> other[id] != areas[id]) && InRect(AffectedTiles(g, areas[id].bbox), t)
  }

  /** The entry as addEntity leaves it to the update. */
  function Entered(observed: map<EntityId, EntityEntry>, observer: EntityId, id: EntityId, isDynamic: bool,
                   bboxUsable: bool)
    : EntityEntry
  {
    var e := if id in observed then observed[id].(observers := observed[id].observers + 1)
             else EntityEntry(1, !bboxUsable, isDynamic, false);
    e.(isActorOwned := e.isActorOwned || id == observer)
  }

  /** How many observers an entity has. */
  function Observers(observed: map<EntityId, EntityEntry>, id: EntityId): int {
    if id in observed then observed[id].observers else 0
  }

  /** The entry when an observer leaves and others remain. */
  function Left(e: EntityEntry, observer: EntityId, id: EntityId): EntityEntry {
    e.(observers := e.observers - 1, isActorOwned := e.isActorOwned && observer != id)
  }

  /** addEntity looks at the entity only for its first observer or for the actor itself. */
  predicate LooksAt(e: EntityEntry, observer: EntityId, id: EntityId) {
    id == observer || (!e.isActorOwned && e.observers == 1)
  }

  /** The two records hold the same areas as far as they overlap the tile. */
  ghost predicate Agrees(recorded: map<EntityId, EntityArea>, current: map<EntityId, EntityArea>, t: Tile) {
    && (forall id :: id in recorded && t in recorded[id].overlaps ==> id in current && current[id] == recorded[id])
    && (forall id :: id in current && t in current[id].overlaps ==> id in recorded && recorded[id] == current[id])
  }

  /** A fresh record agrees: what overlaps a tile meets it. */
  lemma FreshAgrees(g: Grid, recorded: map<EntityId, EntityArea>, current: map<EntityId, EntityArea>, t: Tile)
    requires forall id :: id in current ==> Sound(g, current[id])
    requires forall id :: id in recorded <==> id in current && t in current[id].meets
    requires forall id :: id in recorded ==> recorded[id] == current[id]
    ensures Agrees(recorded, current, t)
  {
    hide InteriorsOverlap;
  }

  lemma OtherAreaAgrees(recorded: map<EntityId, EntityArea>, before: map<EntityId, EntityArea>,
                        after: map<EntityId, EntityArea>, id: EntityId, t: Tile)
    requires Agrees(recorded, before, t) && after - {id} == before - {id}
    requires id in before ==> t !in before[id].overlaps
    requires id in after ==> t !in after[id].overlaps
    ensures Agrees(recorded, after, t)
  {
    forall other: EntityId
      ensures other != id ==>
                && (other in after <==> other in before)
                && (other in after ==> after[other] == before[other])
    {
      if other != id {
        assert other in after <==> other in after - {id};
        assert other in before <==> other in before - {id};
        if other in after {
          assert (after - {id})[other] == (before - {id})[other];
        }
      }
    }
  }

  ghost predicate Mirrors(ordered: seq<Tile>, tiles: set<Tile>) {
    Distinct(ordered) && Elements(ordered) == tiles
  }

  /** Taking the head of the list and its tile of the set. */
  lemma MirroredHead(ordered: seq<Tile>, tiles: set<Tile>)
    requires Mirrors(ordered, tiles) && tiles != {}
    ensures ordered != [] && ordered[0] in tiles && Mirrors(ordered[1..], tiles - {ordered[0]})
  {
    var t :| t in tiles;
    assert t in Elements(ordered);
    assert ordered[0] in Elements(ordered);
    assert Elements(ordered) == {ordered[0]} + Elements(ordered[1..]);
    assert ordered[0] !in ordered[1..];
  }

  /** MRUList::insert: to the front, or moved there. */
  function MruInsert(items: seq<Tile>, t: Tile): seq<Tile> {
    [t] + Without(items, {t})
  }

  /** The fields a visit of setAwarenessArea changes, as they were before the first visit. */
  datatype Snapshot = Snapshot(aware: map<Tile, nat>, areas: Areas, dirtyAware: set<Tile>, ordered: seq<Tile>,
                               dirtyUnaware: set<Tile>, active: seq<Tile>)

  /** Tiles newly put on the dirty list, in front and behind, and the visited tiles by recency. */
  datatype Visits = Visits(front: seq<Tile>, back: seq<Tile>, recent: seq<Tile>)

  class Awareness {
    const grid: Grid
    var awareTiles: map<Tile, nat>
    var dirtyUnaware: set<Tile>
    var dirtyAware: set<Tile>
    var dirtyAwareOrdered: seq<Tile>
    var entityAreas: map<EntityId, EntityArea>
    var observed: map<EntityId, EntityEntry>
    var moving: set<EntityId>
    var awareAreas: Areas
    var activeTiles: seq<Tile>
    var desiredTiles: nat
    /** The tile cache: for each built tile, the entity areas it was last rasterised with. */
    var built: map<Tile, map<EntityId, EntityArea>>
    /** How often EventTileDirty was emitted. */
    var dirtyEvents: nat
    /** The area ids that were set and not removed since. */
    ghost var live: set<string>

    /** The dirty list mirrors the dirty-aware set, whose tiles are aware; dirty-unaware tiles are not. */
    ghost predicate DirtySetsOk()
      reads this`awareTiles, this`dirtyAware, this`dirtyAwareOrdered, this`dirtyUnaware
    {
      && Mirrors(dirtyAwareOrdered, dirtyAware)
      && dirtyAware <= awareTiles.Keys
      && dirtyUnaware !! awareTiles.Keys
      && (forall t :: t in awareTiles ==> awareTiles[t] > 0)
    }

    ghost predicate EntitiesOk()
      reads this`entityAreas, this`observed, this`moving
    {
      && (forall id :: id in entityAreas ==>
            && Sound(grid, entityAreas[id])
            && id in observed && !observed[id].isMoving && !observed[id].isIgnored)
      && moving == set id | id in observed && observed[id].isMoving
    }

    ghost predicate Clean(t: Tile)
      reads this`built, this`dirtyAware, this`dirtyUnaware
    {
      t in built && t !in dirtyAware && t !in dirtyUnaware
    }

    /** The cache invariant. */
    ghost predicate CacheOk()
      reads this`built, this`dirtyAware, this`dirtyUnaware, this`entityAreas
    {
      forall t :: Clean(t) ==> Agrees(built[t], entityAreas, t)
    }

    ghost predicate Valid()
      reads this
    {
      && grid.Valid()
      && DirtySetsOk() && EntitiesOk() && CacheOk()
      && Distinct(activeTiles)
      && (forall t :: t in awareTiles.Keys + built.Keys ==> InGrid(grid, t))
    }

    /** Every aware tile is built or waits to be. */
    ghost predicate AwareBuiltOrDirty()
      reads this`awareTiles, this`built, this`dirtyAware
    {
      forall t :: t in awareTiles ==> t in built || t in dirtyAware
    }

    /** The aware tiles are the most recently used ones. */
    ghost predicate AwarePrefix()
      reads this`activeTiles, this`awareTiles
    {
      BeginsWith(activeTiles, awareTiles)
    }

    constructor (grid: Grid, desiredTiles: nat)
      requires grid.Valid()
      ensures Valid() && AwareBuiltOrDirty() && AwarePrefix() && Counted(awareTiles, awareAreas, live)
      ensures built == map[] && entityAreas == map[] && dirtyAware == dirtyUnaware == {}
      ensures live == {} && awareAreas == map[] && this.desiredTiles == desiredTiles && this.grid == grid
    {
      this.grid := grid;
      this.desiredTiles := desiredTiles;
      awareTiles, dirtyUnaware, dirtyAware, dirtyAwareOrdered := map[], {}, {}, [];
      entityAreas, observed, moving, awareAreas, activeTiles := map[], map[], {}, map[], [];
      built, dirtyEvents, live := map[], 0, {};
      new;
      assert forall t: Tile :: Holders(awareAreas, live, t) == {};
    }

    /** While no tile leaves the dirty sets unbuilt, the cache stays right. */
    twostate lemma CacheKept()
      requires old(CacheOk()) && built == old(built) && entityAreas == old(entityAreas)
      requires old(dirtyAware + dirtyUnaware) <= dirtyAware + dirtyUnaware
      ensures CacheOk()
    {
      assert forall t :: Clean(t) ==> old(Clean(t));
    }

    /** A tile that is not built any more is no longer a concern of the cache. */
    twostate lemma CacheKeptUnbuilt(t: Tile)
      requires old(CacheOk()) && built == old(built) - {t} && entityAreas == old(entityAreas)
      requires dirtyAware == old(dirtyAware) && dirtyUnaware == old(dirtyUnaware)
      ensures CacheOk()
    {
      hide Agrees;
      assert forall u :: Clean(u) ==> old(Clean(u)) && built[u] == old(built)[u];
    }

    /** Nor one of awareness, unless it is aware. */
    twostate lemma AwareKeptUnbuilt(t: Tile)
      requires built == old(built) - {t} && awareTiles == old(awareTiles) && dirtyAware == old(dirtyAware)
      ensures t !in awareTiles ==> forall u :: u in awareTiles && u in old(built) ==> u in built
      ensures t !in awareTiles && old(AwareBuiltOrDirty()) ==> AwareBuiltOrDirty()
    {
    }

    /** Changing the area of one entity keeps the cache right if no tile stays clean that the old area or the
        new one overlaps. */
    twostate lemma CacheKeptWithout(id: EntityId)
      requires old(CacheOk()) && built == old(built) && entityAreas - {id} == old(entityAreas) - {id}
      requires forall t :: Clean(t) ==>
                 && old(Clean(t))
                 && (id in old(entityAreas) ==> t !in old(entityAreas)[id].overlaps)
                 && (id in entityAreas ==> t !in entityAreas[id].overlaps)
      ensures CacheOk()
    {
      forall t | Clean(t)
        ensures Agrees(built[t], entityAreas, t)
      {
        OtherAreaAgrees(built[t], old(entityAreas), entityAreas, id, t);
      }
    }

    twostate lemma AwareBuiltOrDirtyKept(n: set<Tile>)
      requires built == old(built) && awareTiles.Keys <= old(awareTiles).Keys + n
      requires forall t :: t in n ==> t in built || t in dirtyAware
      requires old(dirtyAware) * awareTiles.Keys <= dirtyAware
      ensures old(AwareBuiltOrDirty()) ==> AwareBuiltOrDirty()
    {
    }

    /** With one live area the aware tiles are its tiles, and those were just visited. */
    lemma PrefixAfterSet(id: string, recent: seq<Tile>, rest: seq<Tile>)
      requires Elements(recent) == AreaOf(awareAreas, id) && Distinct(recent) && activeTiles == recent + rest
      ensures live == {id} && Counted(awareTiles, awareAreas, live) ==> AwarePrefix()
    {
      if live == {id} && Counted(awareTiles, awareAreas, live) {
        SingleAreaAware(awareAreas, id, awareTiles);
        DistinctSize(recent);
        assert |awareTiles| == |awareTiles.Keys|;
        assert activeTiles[..|awareTiles|] == recent;
      }
    }

    // -------------------------------------------------------------- dirty marking

    /** One tile of markTilesAsDirty. */
    method MarkTile(t: Tile)
      requires DirtySetsOk()
      modifies `dirtyAware, `dirtyAwareOrdered, `dirtyUnaware
      ensures DirtySetsOk()
      ensures dirtyAware == old(dirtyAware) + (if t in awareTiles then {t} else {})
      ensures dirtyUnaware == old(dirtyUnaware) + (if t in awareTiles then {} else {t})
      ensures old(dirtyAwareOrdered) <= dirtyAwareOrdered
    {
      if t in awareTiles {
        if t !in dirtyAware {
          dirtyAware := dirtyAware + {t};
          DistinctConcat(dirtyAwareOrdered, [t]);
          dirtyAwareOrdered := dirtyAwareOrdered + [t];
        }
      } else {
        dirtyUnaware := dirtyUnaware + {t};
      }
    }

    method MarkTilesAsDirtyIn(r: Rect)
      requires DirtySetsOk()
      modifies `dirtyAware, `dirtyAwareOrdered, `dirtyUnaware, `dirtyEvents
      ensures DirtySetsOk()
      ensures forall t :: t in dirtyAware <==> t in old(dirtyAware) || (InRect(r, t) && t in awareTiles)
      ensures forall t :: t in dirtyUnaware <==> t in old(dirtyUnaware) || (InRect(r, t) && t !in awareTiles)
      ensures old(dirtyAwareOrdered) <= dirtyAwareOrdered
      ensures dirtyEvents == old(dirtyEvents) + One(old(dirtyAware) == {} && dirtyAware != {})
    {
      var wereDirtyTiles := dirtyAware != {};
      var tx := r.minX;
      while tx <= r.maxX
        invariant r.minX <= tx && DirtySetsOk() && dirtyEvents == old(dirtyEvents)
        invariant tx <= r.maxX + 1 || tx == r.minX
        invariant forall t :: t in dirtyAware <==> t in old(dirtyAware) || (InRect(r, t) && t.x < tx && t in awareTiles)
        invariant forall t :: t in dirtyUnaware <==>
                  t in old(dirtyUnaware) || (InRect(r, t) && t.x < tx && t !in awareTiles)
        invariant old(dirtyAwareOrdered) <= dirtyAwareOrdered
      {
        var tz := r.minZ;
        while tz <= r.maxZ
          invariant r.minZ <= tz && DirtySetsOk() && dirtyEvents == old(dirtyEvents)
          invariant tz <= r.maxZ + 1 || tz == r.minZ
          invariant forall t :: t in dirtyAware <==>
                      t in old(dirtyAware) || (InRect(r, t) && Before(t, tx, tz) && t in awareTiles)
          invariant forall t :: t in dirtyUnaware <==>
                      t in old(dirtyUnaware) || (InRect(r, t) && Before(t, tx, tz) && t !in awareTiles)
          invariant old(dirtyAwareOrdered) <= dirtyAwareOrdered
        {
          MarkTile(Tile(tx, tz));
          tz := tz + 1;
        }
        tx := tx + 1;
      }
      if !wereDirtyTiles && dirtyAware != {} {
        dirtyEvents := dirtyEvents + 1;
      }
    }

    /** markTilesAsDirty for a box: every tile the box can overlap becomes dirty, and nothing else changes. */
    method MarkTilesAsDirty(area: Box)
      requires Valid()
      modifies `dirtyAware, `dirtyAwareOrdered, `dirtyUnaware, `dirtyEvents
      ensures Valid()
      ensures forall t :: t in dirtyAware <==>
                t in old(dirtyAware) || (InRect(AffectedTiles(grid, area), t) && t in awareTiles)
      ensures forall t :: t in dirtyUnaware <==>
                t in old(dirtyUnaware) || (InRect(AffectedTiles(grid, area), t) && t !in awareTiles)
      ensures dirtyEvents == old(dirtyEvents) + One(old(dirtyAware) == {} && dirtyAware != {})
      ensures forall t :: Clean(t) ==> old(Clean(t)) && !InteriorsOverlap(grid, area, t)
    {
      MarkTilesAsDirtyIn(AffectedTiles(grid, area));
      forall t | Clean(t)
        ensures old(Clean(t)) && !InteriorsOverlap(grid, area, t)
      {
        if InteriorsOverlap(grid, area, t) {
          AffectedTilesCover(grid, area, t);
        }
      }
    }

    // -------------------------------------------------------------- rebuilding

    /** findEntityAreas: the areas that contain, intersect or touch the tile. */
    method FindEntityAreas(t: Tile) returns (areas: map<EntityId, EntityArea>)
      ensures forall id :: id in areas <==> id in entityAreas && t in entityAreas[id].meets
      ensures forall id :: id in areas ==> areas[id] == entityAreas[id]
    {
      areas := map[];
      var rest := entityAreas.Keys;
      while rest != {}
        invariant rest <= entityAreas.Keys
        invariant forall id :: id in areas <==> id in entityAreas.Keys - rest && t in entityAreas[id].meets
        invariant forall id :: id in areas ==> areas[id] == entityAreas[id]
        decreases rest
      {
        var id := Pick(rest);
        if t in entityAreas[id].meets {
          areas := areas[id := entityAreas[id]];
        }
        rest := rest - {id};
      }
    }

    /** Rebuilds the first tile of the dirty list, if there is one; rasterising and adding it succeed. */
    method RebuildDirtyTile() returns (remaining: nat)
      requires Valid()
      modifies `dirtyAware, `dirtyAwareOrdered, `built
      ensures Valid()
      ensures remaining == |dirtyAware|
      ensures old(dirtyAware) == {} ==> unchanged(this)
      ensures old(dirtyAware) != {} ==>
                && var t := old(dirtyAwareOrdered)[0];
                && dirtyAwareOrdered == old(dirtyAwareOrdered)[1..]
                && dirtyAware == old(dirtyAware) - {t} && t in old(dirtyAware)
                && t in built && Agrees(built[t], entityAreas, t)
                && (forall id :: id in built[t] <==> id in entityAreas && t in entityAreas[id].meets)
                && built == old(built)[t := built[t]]
      ensures old(AwareBuiltOrDirty()) ==> AwareBuiltOrDirty()
    {
      if dirtyAware != {} {
        MirroredHead(dirtyAwareOrdered, dirtyAware);
        var t := dirtyAwareOrdered[0];
        var areas := FindEntityAreas(t);
        FreshAgrees(grid, areas, entityAreas, t);
        hide Mirrors, Elements, Distinct, EntitiesOk, InGrid, Agrees;
        built := built[t := areas];
        dirtyAware := dirtyAware - {t};
        dirtyAwareOrdered := dirtyAwareOrdered[1..];
        assert forall u :: Clean(u) && u != t ==> old(Clean(u));
      }
      remaining := |dirtyAware|;
    }

    // -------------------------------------------------------------- pruning

    predicate NeedsPruning()
      reads this
    {
      |activeTiles| > desiredTiles && |activeTiles| > |awareTiles|
    }

    /** Drops the least recently used tile when there are too many; with the aware tiles in front it is not aware. */
    method PruneTiles()
      requires Valid()
      modifies `activeTiles, `built
      ensures Valid()
      ensures !old(NeedsPruning()) ==> unchanged(this)
      ensures old(NeedsPruning()) ==>
                && activeTiles == old(activeTiles)[..|old(activeTiles)| - 1]
                && built == old(built) - {old(activeTiles)[|old(activeTiles)| - 1]}
      ensures old(AwarePrefix()) ==> AwarePrefix() && forall t :: t in awareTiles && t in old(built) ==> t in built
      ensures old(AwarePrefix() && AwareBuiltOrDirty()) ==> AwareBuiltOrDirty()
    {
      if |activeTiles| > |awareTiles| {
        if |activeTiles| > desiredTiles {
          hide Valid, AwareBuiltOrDirty, AwarePrefix;
          DropLeastRecent();
        }
      }
    }

    method DropLeastRecent()
      requires Valid() && |activeTiles| > |awareTiles|
      modifies `activeTiles, `built
      ensures Valid()
      ensures activeTiles == old(activeTiles)[..|old(activeTiles)| - 1]
      ensures built == old(built) - {old(activeTiles)[|old(activeTiles)| - 1]}
      ensures old(AwarePrefix()) ==> AwarePrefix() && forall t :: t in awareTiles && t in old(built) ==> t in built
      ensures old(AwarePrefix() && AwareBuiltOrDirty()) ==> AwareBuiltOrDirty()
    {
      var n := |activeTiles| - 1;
      var entry := activeTiles[n];
      PruneKeepsPrefix(activeTiles, awareTiles);
      hide DirtySetsOk, EntitiesOk, CacheOk, InGrid, Elements, Distinct, BeginsWith, AwareBuiltOrDirty;
      activeTiles := activeTiles[..n];
      built := built - {entry};
      CacheKeptUnbuilt(entry);
      AwareKeptUnbuilt(entry);
    }

    /** Pruning until it is no longer needed keeps every aware tile and ends within the desired amount,
        or with the aware tiles only. */
    method PruneWhileNeeded()
      requires Valid() && AwarePrefix() && AwareBuiltOrDirty()
      modifies `activeTiles, `built
      ensures Valid() && AwarePrefix() && AwareBuiltOrDirty()
      ensures |activeTiles| <= desiredTiles || Elements(activeTiles) == awareTiles.Keys
      ensures forall t :: t in awareTiles && t in old(built) ==> t in built
    {
      while NeedsPruning()
        invariant Valid() && AwarePrefix() && AwareBuiltOrDirty()
        invariant forall t :: t in awareTiles && t in old(built) ==> t in built
        decreases |activeTiles|
      {
        PruneTiles();
      }
      if |activeTiles| > desiredTiles {
        assert activeTiles[..|awareTiles|] == activeTiles;
      }
    }

    // -------------------------------------------------------------- entities

    /** The entity's area leaves the mesh: its tiles become dirty. */
    method EraseArea(id: EntityId)
      requires Valid()
      modifies `dirtyAware, `dirtyAwareOrdered, `dirtyUnaware, `dirtyEvents, `entityAreas
      ensures Valid() && entityAreas == old(entityAreas) - {id}
      ensures old(dirtyAware) <= dirtyAware && old(dirtyUnaware) <= dirtyUnaware
      ensures MarksChange(grid, old(dirtyAware + dirtyUnaware), dirtyAware + dirtyUnaware, old(entityAreas),
                          entityAreas, id)
      ensures dirtyEvents == old(dirtyEvents) + One(old(dirtyAware) == {} && dirtyAware != {})
    {
      hide CacheOk, DirtySetsOk, Agrees, InteriorsOverlap, InGrid, Distinct;
      if id in entityAreas {
        MarkTilesAsDirty(entityAreas[id].bbox);
        entityAreas := entityAreas - {id};
        CacheKeptWithout(id);
      } else {
        assert entityAreas - {id} == entityAreas;
      }
    }

    method ProcessEntityUpdate(id: EntityId, s: Sight) returns (changed: bool)
      requires Valid() && id in observed
      requires s.area.Some? ==> Sound(grid, s.area.value)
      modifies `dirtyAware, `dirtyAwareOrdered, `dirtyUnaware, `dirtyEvents, `entityAreas, `observed, `moving
      ensures Valid()
      ensures changed == (s.newBbox || s.newPosition)
      ensures old(observed)[id].isMoving ==> unchanged(this)
      ensures old(dirtyAware) <= dirtyAware && old(dirtyUnaware) <= dirtyUnaware
      ensures dirtyEvents == old(dirtyEvents) + One(old(dirtyAware) == {} && dirtyAware != {})
      ensures observed == old(observed)[id := EntryAfter(old(observed)[id], s)]
      ensures entityAreas == AreasAfter(old(entityAreas), id, old(observed)[id], s)
      ensures Follows(old(entityAreas), entityAreas, id, old(observed)[id], observed[id], s)
      ensures MarksChange(grid, old(dirtyAware + dirtyUnaware), dirtyAware + dirtyUnaware, old(entityAreas),
                          entityAreas, id)
    {
      AreasFollow(entityAreas, id, observed[id], s);
      NothingMarked(grid, dirtyAware + dirtyUnaware, entityAreas, id);
      hide LargeChange, CacheOk, DirtySetsOk, Agrees, InGrid, Distinct, Follows, MarksChange, Sound;
      assert id !in entityAreas ==> entityAreas - {id} == entityAreas;
      changed := s.newBbox || s.newPosition;
      var e := observed[id];
      if e.isMoving {
        return;
      }
      if e.isIgnored {
        if s.newBbox {
          e := e.(isIgnored := !s.scaledBboxValid);
          observed := observed[id := e];
        }
      }
      if !e.isIgnored {
        UpdateUsable(id, s);
      }
    }

    /** The update of an entity that is neither ignored nor moving. */
    method UpdateUsable(id: EntityId, s: Sight)
      requires Valid() && id in observed && !observed[id].isMoving && !observed[id].isIgnored
      requires s.area.Some? ==> Sound(grid, s.area.value)
      modifies `dirtyAware, `dirtyAwareOrdered, `dirtyUnaware, `dirtyEvents, `entityAreas, `observed, `moving
      ensures Valid()
      ensures old(dirtyAware) <= dirtyAware && old(dirtyUnaware) <= dirtyUnaware
      ensures dirtyEvents == old(dirtyEvents) + One(old(dirtyAware) == {} && dirtyAware != {})
      ensures observed == old(observed)[id := EntryAfter(old(observed)[id], s)]
      ensures entityAreas == AreasAfter(old(entityAreas), id, old(observed)[id], s)
      ensures MarksChange(grid, old(dirtyAware + dirtyUnaware), dirtyAware + dirtyUnaware, old(entityAreas),
                          entityAreas, id)
    {
      NothingMarked(grid, dirtyAware + dirtyUnaware, entityAreas, id);
      hide LargeChange, CacheOk, DirtySetsOk, Agrees, InGrid, Distinct, MarksChange, Sound;
      if !s.bboxValid {
        EraseArea(id);
        observed := observed[id := observed[id].(isIgnored := true)];
      } else if s.newPosition || s.newBbox {
        if s.moves {
          EraseArea(id);
          moving := moving + {id};
          observed := observed[id := observed[id].(isMoving := true)];
        } else if s.area.Some? {
          PlaceArea(id, s.area.value);
        }
      }
    }

    /** Records the area of a standing entity, unless it hardly moved. */
    method PlaceArea(id: EntityId, area: EntityArea)
      requires Valid() && Sound(grid, area)
      requires id in observed && !observed[id].isMoving && !observed[id].isIgnored
      modifies `dirtyAware, `dirtyAwareOrdered, `dirtyUnaware, `dirtyEvents, `entityAreas
      ensures Valid()
      ensures old(dirtyAware) <= dirtyAware && old(dirtyUnaware) <= dirtyUnaware
      ensures dirtyEvents == old(dirtyEvents) + One(old(dirtyAware) == {} && dirtyAware != {})
      ensures entityAreas == if id in old(entityAreas) && !LargeChange(old(entityAreas)[id].bbox, area.bbox)
                             then old(entityAreas) else old(entityAreas)[id := area]
      ensures MarksChange(grid, old(dirtyAware + dirtyUnaware), dirtyAware + dirtyUnaware, old(entityAreas),
                          entityAreas, id)
    {
      SameBoxNotLarge(area.bbox);
      hide LargeChange, CacheOk, DirtySetsOk, Agrees, InteriorsOverlap, InGrid, Distinct;
      if id in entityAreas && !LargeChange(entityAreas[id].bbox, area.bbox) {
        return;
      }
      MarkTilesAsDirty(area.bbox);
      if id in entityAreas {
        MarkTilesAsDirty(entityAreas[id].bbox);
      }
      entityAreas := entityAreas[id := area];
      CacheKeptWithout(id);
    }

    method AddEntity(observer: EntityId, id: EntityId, isDynamic: bool, bboxUsable: bool, s: Sight)
      requires Valid()
      requires s.area.Some? ==> Sound(grid, s.area.value)
      modifies `dirtyAware, `dirtyAwareOrdered, `dirtyUnaware, `dirtyEvents, `entityAreas, `observed, `moving
      ensures Valid() && id in observed
      ensures old(dirtyAware) <= dirtyAware && old(dirtyUnaware) <= dirtyUnaware
      ensures dirtyEvents == old(dirtyEvents) + One(old(dirtyAware) == {} && dirtyAware != {})
      ensures var e := Entered(old(observed), observer, id, isDynamic, bboxUsable);
              if LooksAt(e, observer, id) then
                && observed == old(observed)[id := EntryAfter(e, s)]
                && entityAreas == AreasAfter(old(entityAreas), id, e, s)
              else observed == old(observed)[id := e] && entityAreas == old(entityAreas)
      ensures observed[id].observers == Observers(old(observed), id) + 1
      ensures id !in old(observed) || id == observer ==>
                Follows(old(entityAreas), entityAreas, id,
                        Entered(old(observed), observer, id, isDynamic, bboxUsable), observed[id], s)
      ensures MarksChange(grid, old(dirtyAware + dirtyUnaware), dirtyAware + dirtyUnaware, old(entityAreas),
                          entityAreas, id)
    {
      NothingMarked(grid, dirtyAware + dirtyUnaware, entityAreas, id);
      Enter(observer, id, isDynamic, bboxUsable);
      hide MarksChange, Follows, AreasAfter, EntryAfter, CacheOk, DirtySetsOk, EntitiesOk, Distinct, InGrid, Sound;
      var isNotActorAndFirstSeen := !observed[id].isActorOwned && observed[id].observers == 1;
      if isNotActorAndFirstSeen || id == observer {
        var _ := ProcessEntityUpdate(id, s);
      }
    }

    /** The entry of a new entity, or another observer of a known one. */
    method Enter(observer: EntityId, id: EntityId, isDynamic: bool, bboxUsable: bool)
      requires Valid()
      modifies `observed, `moving
      ensures Valid()
      ensures observed == old(observed)[id := Entered(old(observed), observer, id, isDynamic, bboxUsable)]
      ensures observed[id].observers == Observers(old(observed), id) + 1
      ensures observed[id].isActorOwned <==> id == observer || (id in old(observed) && old(observed)[id].isActorOwned)
    {
      if id !in observed {
        observed := observed[id := EntityEntry(1, !bboxUsable, isDynamic, false)];
        if isDynamic {
          moving := moving + {id};
        }
      } else {
        observed := observed[id := observed[id].(observers := observed[id].observers + 1)];
      }
      if id == observer {
        observed := observed[id := observed[id].(isActorOwned := true)];
      }
    }

    /** A count or an owner changes in an entry. */
    method Rewrite(id: EntityId, e: EntityEntry)
      requires Valid() && id in observed
      requires e.isMoving == observed[id].isMoving && e.isIgnored == observed[id].isIgnored
      modifies `observed
      ensures Valid() && observed == old(observed)[id := e]
    {
      hide CacheOk, DirtySetsOk, Distinct, InGrid, Sound;
      observed := observed[id := e];
    }

    /** The last observer left. */
    method Forget(id: EntityId)
      requires Valid() && id in observed
      modifies `dirtyAware, `dirtyAwareOrdered, `dirtyUnaware, `dirtyEvents, `entityAreas, `observed, `moving
      ensures Valid()
      ensures old(dirtyAware) <= dirtyAware && old(dirtyUnaware) <= dirtyUnaware
      ensures dirtyEvents == old(dirtyEvents) + One(old(dirtyAware) == {} && dirtyAware != {})
      ensures observed == old(observed) - {id} && entityAreas == old(entityAreas) - {id} && moving == old(moving) - {id}
      ensures MarksChange(grid, old(dirtyAware + dirtyUnaware), dirtyAware + dirtyUnaware, old(entityAreas),
                          entityAreas, id)
    {
      hide CacheOk, DirtySetsOk, Agrees, InGrid, Distinct, Sound, MarksChange;
      EraseArea(id);
      if observed[id].isMoving {
        moving := moving - {id};
      }
      observed := observed - {id};
    }

    method RemoveEntity(observer: EntityId, id: EntityId)
      requires Valid()
      modifies `dirtyAware, `dirtyAwareOrdered, `dirtyUnaware, `dirtyEvents, `entityAreas, `observed, `moving
      ensures Valid()
      ensures old(dirtyAware) <= dirtyAware && old(dirtyUnaware) <= dirtyUnaware
      ensures dirtyEvents == old(dirtyEvents) + One(old(dirtyAware) == {} && dirtyAware != {})
      ensures id in old(observed) && old(observed)[id].observers == 1 ==>
                observed == old(observed) - {id} && entityAreas == old(entityAreas) - {id} &&
                  moving == old(moving) - {id}
      ensures !(id in old(observed) && old(observed)[id].observers == 1) ==>
                entityAreas == old(entityAreas) && moving == old(moving) && dirtyAware == old(dirtyAware)
      ensures MarksChange(grid, old(dirtyAware + dirtyUnaware), dirtyAware + dirtyUnaware, old(entityAreas),
                          entityAreas, id)
      ensures id !in old(observed) ==> observed == old(observed)
      ensures id in old(observed) && old(observed)[id].observers != 1 ==>
                observed == old(observed)[id := Left(old(observed)[id], observer, id)]
      ensures id in old(observed) ==> Observers(observed, id) == Observers(old(observed), id) - 1
      ensures id in observed && id == observer ==> !observed[id].isActorOwned
    {
      NothingMarked(grid, dirtyAware + dirtyUnaware, entityAreas, id);
      hide CacheOk, DirtySetsOk, EntitiesOk, InGrid, Distinct, MarksChange;
      if id in observed {
        var e := observed[id];
        e := e.(observers := e.observers - 1);
        Rewrite(id, e);
        if e.observers == 0 {
          Forget(id);
        } else if observer == id {
          Rewrite(id, e.(isActorOwned := false));
        }
      }
    }

    method UpdateEntity(observer: EntityId, id: EntityId, inDomain: bool, bboxUsable: bool, s: Sight)
      requires Valid()
      requires s.area.Some? ==> Sound(grid, s.area.value)
      modifies `dirtyAware, `dirtyAwareOrdered, `dirtyUnaware, `dirtyEvents, `entityAreas, `observed, `moving
      ensures Valid()
      ensures old(dirtyAware) <= dirtyAware && old(dirtyUnaware) <= dirtyUnaware
      ensures dirtyEvents == old(dirtyEvents) + One(old(dirtyAware) == {} && dirtyAware != {})
      ensures inDomain && id in old(observed) ==>
                && observed == old(observed)[id := EntryAfter(old(observed)[id], s)]
                && entityAreas == AreasAfter(old(entityAreas), id, old(observed)[id], s)
      ensures inDomain && id !in old(observed) ==>
                && observed == old(observed)[id := Entered(old(observed), observer, id, true, bboxUsable)]
                && entityAreas == old(entityAreas) && id in moving
      ensures !inDomain ==>
                entityAreas == if id in old(observed) && id !in observed
                  then old(entityAreas) - {id} else old(entityAreas)
      ensures !inDomain ==>
                observed == if id !in old(observed) then old(observed)
                            else if old(observed)[id].observers == 1 then old(observed) - {id}
                            else old(observed)[id := Left(old(observed)[id], observer, id)]
      ensures inDomain && id in old(observed) ==>
                Follows(old(entityAreas), entityAreas, id, old(observed)[id], observed[id], s)
      ensures MarksChange(grid, old(dirtyAware + dirtyUnaware), dirtyAware + dirtyUnaware, old(entityAreas),
                          entityAreas, id)
    {
      NothingMarked(grid, dirtyAware + dirtyUnaware, entityAreas, id);
      hide Follows, MarksChange, AreasAfter, CacheOk, DirtySetsOk, EntitiesOk, Distinct, InGrid, Sound;
      if id in observed {
        if !inDomain {
          RemoveEntity(observer, id);
        } else {
          var _ := ProcessEntityUpdate(id, s);
        }
      } else if inDomain {
        AddEntity(observer, id, true, bboxUsable, s);
      }
    }

    // -------------------------------------------------------------- awareness areas

    // After visiting the tiles `n` of the new area of `id`; `b` is the state before the first visit.

    /** New tiles are counted up; tiles of the old area are consumed as they are visited. */
    ghost predicate CountsVisited(b: Snapshot, id: string, n: set<Tile>)
      reads this`awareAreas, this`awareTiles
    {
      && awareAreas == b.areas[id := AreaOf(b.areas, id) - n]
      && awareTiles.Keys == b.aware.Keys + (n - AreaOf(b.areas, id))
      && (forall t :: t in awareTiles ==>
          awareTiles[t] == CountOf(b.aware, t) + One(t in n && t !in AreaOf(b.areas, id)))
    }

    /** Visited tiles that were dirty or never built are dirty-aware, those on the focus line in front. */
    ghost predicate DirtyVisited(b: Snapshot, n: set<Tile>, v: Visits, focus: Tile -> bool)
      reads this`dirtyAware, this`dirtyAwareOrdered, this`dirtyUnaware, this`built
    {
      && (forall t :: t in dirtyAware <==> t in b.dirtyAware || (t in n && (t in b.dirtyUnaware || t !in built)))
      && dirtyUnaware == b.dirtyUnaware - n
      && Mirrors(dirtyAwareOrdered, dirtyAware)
      && dirtyAwareOrdered == v.front + b.ordered + v.back
      && (forall t :: t in v.front ==> focus(t)) && (forall t :: t in v.back ==> !focus(t))
    }

    /** Visited tiles are in front of the MRU list. */
    ghost predicate ActiveVisited(b: Snapshot, n: set<Tile>, v: Visits)
      reads this`activeTiles
    {
      && activeTiles == v.recent + Without(b.active, n)
      && Distinct(v.recent) && Elements(v.recent) == n
    }

    method QueueVisited(t: Tile, focus: Tile -> bool, ghost b: Snapshot, ghost n: set<Tile>, ghost v: Visits)
      returns (ghost v': Visits)
      requires DirtyVisited(b, n, v, focus) && t !in n
      modifies `dirtyUnaware, `dirtyAware, `dirtyAwareOrdered
      ensures DirtyVisited(b, n + {t}, v', focus) && v'.recent == v.recent
    {
      var insertFront, insertBack := false, false;
      if t in dirtyAware {
        if focus(t) { insertFront := true; } else { insertBack := true; }
      } else if t in dirtyUnaware {
        if focus(t) { insertFront := true; } else { insertBack := true; }
      } else if t !in built {
        if focus(t) { insertFront := true; } else { insertBack := true; }
      }
      v' := v;
      if insertFront {
        if t !in dirtyAware {
          dirtyAware := dirtyAware + {t};
          DistinctConcat([t], dirtyAwareOrdered);
          dirtyAwareOrdered := [t] + dirtyAwareOrdered;
          v' := v'.(front := [t] + v.front);
          assert dirtyAwareOrdered == v'.front + b.ordered + v'.back;
        }
      } else if insertBack {
        if t !in dirtyAware {
          dirtyAware := dirtyAware + {t};
          DistinctConcat(dirtyAwareOrdered, [t]);
          dirtyAwareOrdered := dirtyAwareOrdered + [t];
          v' := v'.(back := v.back + [t]);
          assert dirtyAwareOrdered == v'.front + b.ordered + v'.back;
        }
      }
      dirtyUnaware := dirtyUnaware - {t};
    }

    method CountVisited(id: string, t: Tile, ghost b: Snapshot, ghost n: set<Tile>)
      requires CountsVisited(b, id, n) && t !in n
      modifies `awareTiles, `awareAreas
      ensures CountsVisited(b, id, n + {t})
    {
      ghost var rest := AreaOf(b.areas, id) - n;
      assert AreaOf(b.areas, id) - (n + {t}) == rest - {t};
      if t !in awareAreas[id] {
        awareTiles := awareTiles[t := CountOf(awareTiles, t) + 1];
        assert rest - {t} == rest;
      } else {
        awareAreas := awareAreas[id := awareAreas[id] - {t}];
        assert awareAreas == b.areas[id := rest - {t}];
      }
    }

    /** One tile of the double loop of setAwarenessArea, when the area covers the tile. */
    method VisitTile(id: string, t: Tile, focus: Tile -> bool, ghost b: Snapshot, ghost n: set<Tile>, ghost v: Visits)
      returns (ghost v': Visits)
      requires CountsVisited(b, id, n) && DirtyVisited(b, n, v, focus) && ActiveVisited(b, n, v) && t !in n
      modifies `awareTiles, `dirtyUnaware, `dirtyAware, `dirtyAwareOrdered, `awareAreas, `activeTiles
      ensures CountsVisited(b, id, n + {t}) && DirtyVisited(b, n + {t}, v', focus) && ActiveVisited(b, n + {t}, v')
    {
      v' := QueueVisited(t, focus, b, n, v);
      CountVisited(id, t, b, n);
      MruAfterVisit(v.recent, b.active, n, t);
      activeTiles := MruInsert(activeTiles, t);
      v' := v'.(recent := [t] + v.recent);
    }

    /** The double loop: visits the tiles of `r` that the area covers, and returns them. */
    method VisitTiles(id: string, r: Rect, covers: Tile -> bool, focus: Tile -> bool, ghost b: Snapshot)
      returns (n: set<Tile>, ghost v: Visits)
      requires CountsVisited(b, id, {}) && DirtyVisited(b, {}, Visits([], [], []), focus) && activeTiles == b.active
      modifies `awareTiles, `dirtyUnaware, `dirtyAware, `dirtyAwareOrdered, `awareAreas, `activeTiles
      ensures CountsVisited(b, id, n) && DirtyVisited(b, n, v, focus) && ActiveVisited(b, n, v)
      ensures forall t :: t in n <==> InRect(r, t) && covers(t)
    {
      n, v := {}, Visits([], [], []);
      WithoutAbsent(b.active, {});
      assert ActiveVisited(b, {}, v);
      hide CountsVisited, DirtyVisited, ActiveVisited;
      var tx := r.minX;
      while tx <= r.maxX
        invariant r.minX <= tx && (tx <= r.maxX + 1 || tx == r.minX)
        invariant CountsVisited(b, id, n) && DirtyVisited(b, n, v, focus) && ActiveVisited(b, n, v)
        invariant forall t :: t in n <==> InRect(r, t) && t.x < tx && covers(t)
      {
        n, v := VisitColumn(id, tx, r, covers, focus, b, n, v);
        tx := tx + 1;
      }
    }

    method VisitColumn(id: string, tx: int, r: Rect, covers: Tile -> bool, focus: Tile -> bool, ghost b: Snapshot,
                       n0: set<Tile>, ghost v0: Visits)
      returns (n: set<Tile>, ghost v: Visits)
      requires CountsVisited(b, id, n0) && DirtyVisited(b, n0, v0, focus) && ActiveVisited(b, n0, v0)
      requires r.minX <= tx <= r.maxX
      requires forall t :: t in n0 <==> InRect(r, t) && t.x < tx && covers(t)
      modifies `awareTiles, `dirtyUnaware, `dirtyAware, `dirtyAwareOrdered, `awareAreas, `activeTiles
      ensures CountsVisited(b, id, n) && DirtyVisited(b, n, v, focus) && ActiveVisited(b, n, v)
      ensures forall t :: t in n <==> InRect(r, t) && t.x < tx + 1 && covers(t)
    {
      hide CountsVisited, DirtyVisited, ActiveVisited;
      n, v := n0, v0;
      var tz := r.minZ;
      while tz <= r.maxZ
        invariant r.minZ <= tz && (tz <= r.maxZ + 1 || tz == r.minZ)
        invariant CountsVisited(b, id, n) && DirtyVisited(b, n, v, focus) && ActiveVisited(b, n, v)
        invariant forall t :: t in n <==> InRect(r, t) && Before(t, tx, tz) && covers(t)
      {
        var t := Tile(tx, tz);
        if covers(t) {
          v := VisitTile(id, t, focus, b, n, v);
          n := n + {t};
        }
        tz := tz + 1;
      }
    }

    /** returnAwareTiles: each tile loses one; a tile nobody holds any more is not aware, and if it was
        dirty it stays dirty as an unaware tile. */
    method ReturnAwareTiles(tiles: set<Tile>)
      requires tiles <= awareTiles.Keys && Mirrors(dirtyAwareOrdered, dirtyAware)
      requires forall t :: t in awareTiles ==> awareTiles[t] > 0
      modifies `awareTiles, `dirtyUnaware, `dirtyAware, `dirtyAwareOrdered
      ensures Returned(tiles)
      ensures old(DirtySetsOk()) ==> DirtySetsOk()
    {
      var rest := tiles;
      WithoutAbsent(dirtyAwareOrdered, {});
      assert old(awareTiles).Keys - awareTiles.Keys == {};
      hide Mirrors, Without, DirtySetsOk;
      while rest != {}
        invariant rest <= tiles && rest <= awareTiles.Keys
        invariant Returned(tiles - rest)
        decreases rest
      {
        var t := Pick(rest);
        ghost var aware, dirty, unaware := awareTiles, dirtyAware, dirtyUnaware;
        ReturnTile(t, old(awareTiles).Keys, old(dirtyAwareOrdered));
        ReturnedNext(old(awareTiles), old(dirtyAware), old(dirtyUnaware), tiles - rest, aware, dirty, unaware, t,
                     awareTiles, dirtyAware, dirtyUnaware);
        assert tiles - (rest - {t}) == tiles - rest + {t};
        rest := rest - {t};
      }
      assert tiles - rest == tiles;
    }

    /** `tiles` were counted down; those that are no longer aware left the dirty-aware ones. */
    twostate predicate Returned(tiles: set<Tile>)
      reads this`awareTiles, this`dirtyUnaware, this`dirtyAware, this`dirtyAwareOrdered
    {
      && CountedDown(old(awareTiles), old(dirtyAware), old(dirtyUnaware), tiles, awareTiles, dirtyAware, dirtyUnaware)
      && Mirrors(dirtyAwareOrdered, dirtyAware)
      && dirtyAwareOrdered == Without(old(dirtyAwareOrdered), old(awareTiles).Keys - awareTiles.Keys)
    }

    method ReturnTile(t: Tile, ghost aware0: set<Tile>, ghost ordered0: seq<Tile>)
      requires t in awareTiles && awareTiles[t] > 0 && awareTiles.Keys <= aware0
      requires Mirrors(dirtyAwareOrdered, dirtyAware)
      requires dirtyAwareOrdered == Without(ordered0, aware0 - awareTiles.Keys)
      modifies `awareTiles, `dirtyUnaware, `dirtyAware, `dirtyAwareOrdered
      ensures awareTiles == if old(awareTiles)[t] == 1
              then old(awareTiles) - {t} else old(awareTiles)[t := old(awareTiles)[t] - 1]
      ensures dirtyAware == old(dirtyAware) - (if t in awareTiles then {} else {t})
      ensures dirtyUnaware == old(dirtyUnaware) + (if t in awareTiles then {} else old(dirtyAware) * {t})
      ensures Mirrors(dirtyAwareOrdered, dirtyAware)
      ensures dirtyAwareOrdered == Without(ordered0, aware0 - awareTiles.Keys)
    {
      awareTiles := awareTiles[t := awareTiles[t] - 1];
      if awareTiles[t] == 0 {
        awareTiles := awareTiles - {t};
        assert awareTiles == old(awareTiles) - {t};
        assert aware0 - awareTiles.Keys == (aware0 - old(awareTiles).Keys) + {t};
        WithoutTwice(ordered0, aware0 - old(awareTiles).Keys, {t});
        if t in dirtyAware {
          dirtyAware := dirtyAware - {t};
          WithoutDistinct(dirtyAwareOrdered, {t});
          WithoutElements(dirtyAwareOrdered, {t});
          dirtyAwareOrdered := Without(dirtyAwareOrdered, {t});
          dirtyUnaware := dirtyUnaware + {t};
        } else {
          assert t !in Elements(dirtyAwareOrdered);
          WithoutAbsent(dirtyAwareOrdered, {t});
        }
      } else {
        assert awareTiles.Keys == old(awareTiles).Keys;
      }
    }

    /** Sets the awareness area of `id`; `area` is its bounding box, `covers` tells the tiles the area meets
        (with their border), `focus` the tiles the focus line meets.  Returns the new area's tiles.  Tiles on
        record for the id that are not in the new area are counted down, so they have to be aware. */
    method SetAwarenessArea(id: string, area: Box, covers: Tile -> bool, focus: Tile -> bool)
      returns (n: set<Tile>, ghost v: Visits)
      requires Valid()
      requires forall t :: t in AreaOf(awareAreas, id) ==>
                 t in awareTiles || (InRect(AffectedTiles(grid, area), t) && covers(t))
      modifies `awareTiles, `dirtyUnaware, `dirtyAware, `dirtyAwareOrdered, `awareAreas, `activeTiles, `dirtyEvents,
        `live
      ensures Valid() <==> StaleTilesBuilt(old(awareAreas), old(awareTiles), old(dirtyUnaware), built, id,
                                           AffectedTiles(grid, area), covers)
      ensures forall t :: t in n <==> InRect(AffectedTiles(grid, area), t) && covers(t)
      ensures awareAreas == old(awareAreas)[id := n] && live == old(live) + {id}
      ensures SetsArea(old(awareTiles), awareTiles, AreaOf(old(awareAreas), id), n)
      ensures forall t :: t in dirtyAware + dirtyUnaware <==>
                t in old(dirtyAware + dirtyUnaware) || (t in n && t !in built)
      ensures forall t :: t in n ==> t in built || t in dirtyAware
      ensures dirtyAwareOrdered ==
              Without(v.front + old(dirtyAwareOrdered) + v.back, old(awareTiles).Keys - awareTiles.Keys)
      ensures (forall t :: t in v.front ==> focus(t)) && (forall t :: t in v.back ==> !focus(t))
      ensures activeTiles == v.recent + Without(old(activeTiles), n) && Elements(v.recent) == n && Distinct(v.recent)
      ensures dirtyEvents == old(dirtyEvents) + One(old(dirtyAware) == {} && dirtyAware != {})
      ensures old(Counted(awareTiles, awareAreas, live)) && (id in old(live) || AreaOf(old(awareAreas), id) == {}) ==>
                Counted(awareTiles, awareAreas, live)
      ensures old(AwareBuiltOrDirty()) ==> AwareBuiltOrDirty()
      ensures live == {id} && Counted(awareTiles, awareAreas, live) ==> AwarePrefix()
    {
      hide Counted, SetsArea, Holders, DirtySetsOk, EntitiesOk, CacheOk, Mirrors, Without, StaleTilesBuilt;
      ghost var b := Snapshot(awareTiles, awareAreas, dirtyAware, dirtyAwareOrdered, dirtyUnaware, activeTiles);
      var wereDirtyTiles := dirtyAware != {};
      n, v := ReplaceArea(id, AffectedTiles(grid, area), covers, focus, b);
      live := live + {id};
      VisitedDistinct(b.active, n, v.recent);
      forall t | t in n
        ensures InGrid(grid, t)
      {
        AffectedTilesInGrid(grid, area, t);
      }
      CacheKept();
      if !wereDirtyTiles && dirtyAware != {} {
        dirtyEvents := dirtyEvents + 1;
      }
      CountsKept(b.areas, old(live), b.aware, awareTiles, id, n);
      PrefixAfterSet(id, v.recent, Without(b.active, n));
      AwareBuiltOrDirtyKept(n);
    }

    /** Visits the new area's tiles, then returns those of the old area that were not visited. */
    method ReplaceArea(id: string, r: Rect, covers: Tile -> bool, focus: Tile -> bool, ghost b: Snapshot)
      returns (n: set<Tile>, ghost v: Visits)
      requires DirtySetsOk()
      requires forall t :: t in AreaOf(awareAreas, id) ==> t in awareTiles || (InRect(r, t) && covers(t))
      requires b == Snapshot(awareTiles, awareAreas, dirtyAware, dirtyAwareOrdered, dirtyUnaware, activeTiles)
      modifies `awareTiles, `dirtyUnaware, `dirtyAware, `dirtyAwareOrdered, `awareAreas, `activeTiles
      ensures DirtySetsOk() <==> StaleTilesBuilt(b.areas, b.aware, b.dirtyUnaware, built, id, r, covers)
      ensures forall t :: t in n <==> InRect(r, t) && covers(t)
      ensures awareAreas == b.areas[id := n]
      ensures awareTiles.Keys <= b.aware.Keys + n && SetsArea(b.aware, awareTiles, AreaOf(b.areas, id), n)
      ensures old(dirtyAware) * awareTiles.Keys <= dirtyAware
      ensures forall t :: t in dirtyAware + dirtyUnaware <==>
              t in b.dirtyAware + b.dirtyUnaware || (t in n && t !in built)
      ensures dirtyAwareOrdered == Without(v.front + b.ordered + v.back, b.aware.Keys - awareTiles.Keys)
      ensures (forall t :: t in v.front ==> focus(t)) && (forall t :: t in v.back ==> !focus(t))
      ensures ActiveVisited(b, n, v)
      ensures forall t :: t in n ==> t in built || t in dirtyAware
    {
      awareAreas := awareAreas[id := AreaOf(awareAreas, id)];
      assert AreaOf(b.areas, id) - {} == AreaOf(b.areas, id);
      assert b.aware.Keys + ({} - AreaOf(b.areas, id)) == b.aware.Keys;
      assert dirtyUnaware - {} == dirtyUnaware && [] + b.ordered + [] == b.ordered;
      n, v := VisitTiles(id, r, covers, focus, b);
      VisitedOk(b, id, r, covers, n, v, focus);
      ReturnRest(id, b, n);
    }

    /** The visits lose no dirty tile; they keep the dirty sets in order exactly when no tile has to be built
        that the record of the id names although it is not aware. */
    lemma VisitedOk(b: Snapshot, id: string, r: Rect, covers: Tile -> bool, n: set<Tile>, v: Visits,
                    focus: Tile -> bool)
      requires forall t :: t in n <==> InRect(r, t) && covers(t)
      requires CountsVisited(b, id, n) && DirtyVisited(b, n, v, focus)
      requires b.dirtyAware <= b.aware.Keys && b.dirtyUnaware !! b.aware.Keys
      requires forall t :: t in b.aware ==> b.aware[t] > 0
      ensures forall t :: t in awareTiles ==> awareTiles[t] > 0
      ensures dirtyUnaware !! awareTiles.Keys
      ensures dirtyAware <= awareTiles.Keys <==> StaleTilesBuilt(b.areas, b.aware, b.dirtyUnaware, built, id, r, covers)
      ensures forall t :: t in dirtyAware + dirtyUnaware <==>
              t in b.dirtyAware + b.dirtyUnaware || (t in n && t !in built)
      ensures forall t :: t in n ==> t in built || t in dirtyAware
    {
      hide Mirrors;
    }

    /** After the visits: returns the tiles left of the old area and records the new one. */
    method ReturnRest(id: string, ghost b: Snapshot, n: set<Tile>)
      requires CountsVisited(b, id, n) && AreaOf(b.areas, id) <= b.aware.Keys + n
      requires Mirrors(dirtyAwareOrdered, dirtyAware) && dirtyUnaware !! awareTiles.Keys
      requires (forall t :: t in b.aware ==> b.aware[t] > 0) && (forall t :: t in awareTiles ==> awareTiles[t] > 0)
      modifies `awareTiles, `dirtyUnaware, `dirtyAware, `dirtyAwareOrdered, `awareAreas
      ensures DirtySetsOk() <==> old(dirtyAware <= awareTiles.Keys)
      ensures awareAreas == b.areas[id := n]
      ensures awareTiles.Keys <= b.aware.Keys + n && SetsArea(b.aware, awareTiles, AreaOf(b.areas, id), n)
      ensures dirtyAware == old(dirtyAware) - (b.aware.Keys - awareTiles.Keys)
      ensures dirtyAware + dirtyUnaware == old(dirtyAware + dirtyUnaware)
      ensures dirtyAwareOrdered == Without(old(dirtyAwareOrdered), b.aware.Keys - awareTiles.Keys)
      ensures n * (b.aware.Keys - awareTiles.Keys) == {}
    {
      hide Mirrors, Without, SetsArea, Elements, Distinct;
      ghost var counted := awareTiles;
      ReturnAwareTiles(awareAreas[id]);
      VisitedAndReturned(b, id, n, counted, awareTiles);
      awareAreas := awareAreas[id := n];
    }

    /** Removes an awareness area; its entry in the record of areas stays behind. */
    method RemoveAwarenessArea(id: string)
      requires Valid()
      requires AreaOf(awareAreas, id) <= awareTiles.Keys
      modifies `awareTiles, `dirtyUnaware, `dirtyAware, `dirtyAwareOrdered, `live
      ensures Valid() && live == old(live) - {id}
      ensures SetsArea(old(awareTiles), awareTiles, AreaOf(awareAreas, id), {})
      ensures dirtyAware + dirtyUnaware == old(dirtyAware + dirtyUnaware)
      ensures dirtyAwareOrdered == Without(old(dirtyAwareOrdered), old(awareTiles).Keys - awareTiles.Keys)
      ensures old(Counted(awareTiles, awareAreas, live)) && (id in old(live) || AreaOf(awareAreas, id) == {}) ==>
                Counted(awareTiles, awareAreas, live)
      ensures old(AwareBuiltOrDirty()) ==> AwareBuiltOrDirty()
      ensures live == {} && Counted(awareTiles, awareAreas, live) ==> AwarePrefix()
    {
      hide Counted, SetsArea, Holders, DirtySetsOk, EntitiesOk, CacheOk, AwareBuiltOrDirty, AwarePrefix, Mirrors,
        Without, Distinct;
      ReturnArea(id);
      live := live - {id};
      CacheKept();
      AwareBuiltOrDirtyKept({});
      CountsKept(awareAreas, old(live), old(awareTiles), awareTiles, id, {});
      PrefixWithoutAreas();
    }

    lemma PrefixWithoutAreas()
      ensures live == {} && Counted(awareTiles, awareAreas, live) ==> AwarePrefix()
    {
      if live == {} && Counted(awareTiles, awareAreas, live) {
        NoAreaAware(awareAreas, awareTiles);
        assert activeTiles[..0] == [];
      }
    }

    /** The lookup of removeAwarenessArea: an unknown id changes nothing. */
    method ReturnArea(id: string)
      requires DirtySetsOk() && AreaOf(awareAreas, id) <= awareTiles.Keys
      modifies `awareTiles, `dirtyUnaware, `dirtyAware, `dirtyAwareOrdered
      ensures DirtySetsOk() && awareTiles.Keys <= old(awareTiles).Keys
      ensures SetsArea(old(awareTiles), awareTiles, AreaOf(awareAreas, id), {})
      ensures dirtyAware == old(dirtyAware) * awareTiles.Keys
      ensures dirtyUnaware == old(dirtyUnaware) + (old(dirtyAware) - awareTiles.Keys)
      ensures dirtyAware + dirtyUnaware == old(dirtyAware + dirtyUnaware)
      ensures dirtyAwareOrdered == Without(old(dirtyAwareOrdered), old(awareTiles).Keys - awareTiles.Keys)
    {
      if id in awareAreas {
        ReturnAwareTiles(awareAreas[id]);
      } else {
        WithoutAbsent(dirtyAwareOrdered, {});
        assert awareTiles.Keys - awareTiles.Keys == {};
      }
    }
  }

  /** `tiles` were counted down from `aware0`; the dirty ones of those lost moved to the unaware ones. */
  ghost predicate CountedDown(aware0: map<Tile, nat>, dirty0: set<Tile>, unaware0: set<Tile>, tiles: set<Tile>,
                              aware: map<Tile, nat>, dirty: set<Tile>, unaware: set<Tile>) {
    var lost := aware0.Keys - aware.Keys;
    && aware.Keys <= aware0.Keys && SetsArea(aware0, aware, tiles, {})
    && dirty == dirty0 - lost && unaware == unaware0 + dirty0 * lost
  }

  /** Counting down one more tile. */
  lemma ReturnedNext(aware0: map<Tile, nat>, dirty0: set<Tile>, unaware0: set<Tile>, tiles: set<Tile>,
                     aware: map<Tile, nat>, dirty: set<Tile>, unaware: set<Tile>, t: Tile,
                     aware': map<Tile, nat>, dirty': set<Tile>, unaware': set<Tile>)
    requires CountedDown(aware0, dirty0, unaware0, tiles, aware, dirty, unaware) && t in aware && t !in tiles
    requires aware' == if aware[t] == 1 then aware - {t} else aware[t := aware[t] - 1]
    requires dirty' == dirty - (if t in aware' then {} else {t})
    requires unaware' == unaware + (if t in aware' then {} else dirty * {t})
    ensures CountedDown(aware0, dirty0, unaware0, tiles + {t}, aware', dirty', unaware')
  {
    var lost, lost' := aware0.Keys - aware.Keys, aware0.Keys - aware'.Keys;
    assert lost' == lost + (if t in aware' then {} else {t});
    forall x: Tile
      ensures CountOf(aware', x) == CountOf(aware, x) - One(x == t)
    {
    }
  }

  /** The counts after the visits and the return of what is left of the old area. */
  lemma VisitedAndReturned(b: Snapshot, id: string, n: set<Tile>, counted: map<Tile, nat>, counts': map<Tile, nat>)
    requires forall t :: t in b.aware ==> b.aware[t] > 0
    requires counted.Keys == b.aware.Keys + (n - AreaOf(b.areas, id))
    requires forall t :: t in counted ==> counted[t] == CountOf(b.aware, t) + One(t in n && t !in AreaOf(b.areas, id))
    requires SetsArea(counted, counts', AreaOf(b.areas, id) - n, {})
    ensures SetsArea(b.aware, counts', AreaOf(b.areas, id), n)
    ensures counted.Keys - counts'.Keys == b.aware.Keys - counts'.Keys && n * (b.aware.Keys - counts'.Keys) == {}
  {
    forall t: Tile
      ensures CountOf(counts', t) == CountOf(b.aware, t) + One(t in n) - One(t in AreaOf(b.areas, id))
      ensures t in counted && t !in counts' ==> t in b.aware && t !in n
    {
      assert CountOf(counts', t) == CountOf(counted, t) - One(t in AreaOf(b.areas, id) - n);
    }
  }

  /** No tile of the new area has to be built that the record of `id` names although it is not aware, as after
      a removal.  Such a tile is queued as a dirty aware tile without becoming aware. */
  ghost predicate StaleTilesBuilt(areas: Areas, aware: map<Tile, nat>, dirtyUnaware: set<Tile>,
                                  built: map<Tile, map<EntityId, EntityArea>>, id: string, r: Rect,
                                  covers: Tile -> bool) {
    forall t :: t in AreaOf(areas, id) && t !in aware && InRect(r, t) && covers(t) ==> t in built && t !in dirtyUnaware
  }

  lemma StaleTileUncounted(areas: Areas, t: Tile, counts: map<Tile, nat>)
    requires AreaOf(areas, "a") == {t} && SetsArea(map[], counts, {t}, {t})
    ensures t !in counts && !Counted(counts, areas, {"a"})
  {
    assert CountOf(counts, t) == 0;
    assert Holders(areas, {"a"}, t) == {"a"};
  }

  /** The plainest run that gets there: an area is set, removed, and set again under its id before its tile
      was built.  The tile is on record and queued, but not aware, and both invariants are broken. */
  method RemovedAreaSetAgain(grid: Grid, area: Box, t: Tile) returns (m: Awareness)
    requires grid.Valid() && InRect(AffectedTiles(grid, area), t)
    ensures fresh(m) && m.live == {"a"} && t in AreaOf(m.awareAreas, "a")
    ensures t !in m.awareTiles && t in m.dirtyAware
    ensures !m.Valid() && !Counted(m.awareTiles, m.awareAreas, m.live)
  {
    hide SetsArea, Counted, Awareness.Valid, Without, AffectedTiles, InRect, Elements, Distinct,
      Awareness.AwareBuiltOrDirty,
      Awareness.AwarePrefix;
    m := AreaSetAndRemoved(grid, area, t);
    ghost var v;
    var n;
    n, v := m.SetAwarenessArea("a", area, x => x == t, x => false);
    assert n == {t};
    StaleTileUncounted(m.awareAreas, t, m.awareTiles);
  }

  /** An area over one tile is set and removed: the record still names the tile. */
  method AreaSetAndRemoved(grid: Grid, area: Box, t: Tile) returns (m: Awareness)
    requires grid.Valid() && InRect(AffectedTiles(grid, area), t)
    ensures fresh(m) && m.Valid() && m.grid == grid && m.live == {}
    ensures AreaOf(m.awareAreas, "a") == {t} && m.awareTiles == map[] && m.built == map[]
  {
    hide SetsArea, Counted, Awareness.Valid, Without, AffectedTiles, InRect, Elements, Distinct,
      Awareness.AwareBuiltOrDirty,
      Awareness.AwarePrefix;
    m := new Awareness(grid, 0);
    ghost var v;
    var n;
    n, v := m.SetAwarenessArea("a", area, x => x == t, x => false);
    assert n == {t} && m.live == {"a"};
    SingleAreaAware(m.awareAreas, "a", m.awareTiles);
    m.RemoveAwarenessArea("a");
    assert m.live == {};
    NoAreaAware(m.awareAreas, m.awareTiles);
  }

  /** The list begins with the tiles that are counted. */
  ghost predicate BeginsWith(items: seq<Tile>, counts: map<Tile, nat>) {
    |counts| <= |items| && Elements(items[..|counts|]) == counts.Keys
  }

  /** The last of a list without repetition that is longer than that is not one of them. */
  lemma PruneKeepsPrefix(items: seq<Tile>, counts: map<Tile, nat>)
    requires Distinct(items) && |counts| < |items|
    ensures Distinct(items[..|items| - 1])
    ensures BeginsWith(items, counts) ==> BeginsWith(items[..|items| - 1], counts) && items[|items| - 1] !in counts
  {
    var n, k := |items| - 1, |counts|;
    assert items[..n][..k] == items[..k];
    assert items[n] !in items[..k];
    assert items[n] !in Elements(items[..k]);
  }

  lemma VisitedDistinct(active: seq<Tile>, n: set<Tile>, recent: seq<Tile>)
    requires Distinct(active) && Distinct(recent) && Elements(recent) == n
    ensures Distinct(recent + Without(active, n))
  {
    WithoutDistinct(active, n);
    WithoutElements(active, n);
    forall x | x in recent
      ensures x !in Without(active, n)
    {
      assert x in Elements(recent);
      assert x !in Elements(Without(active, n));
    }
    DistinctConcat(recent, Without(active, n));
  }

  /** In the order of the nested loops, `t` comes before the tile (x, z). */
  predicate Before(t: Tile, x: int, z: int) {
    t.x < x || (t.x == x && t.z < z)
  }

  lemma MruAfterVisit(recent: seq<Tile>, active: seq<Tile>, n: set<Tile>, t: Tile)
    requires Distinct(recent) && Elements(recent) == n && t !in n
    ensures MruInsert(recent + Without(active, n), t) == ([t] + recent) + Without(active, n + {t})
    ensures Distinct([t] + recent) && Elements([t] + recent) == n + {t}
  {
    assert forall x :: x in recent ==> x in Elements(recent);
    DistinctConcat([t], recent);
    WithoutConcat(recent, Without(active, n), {t});
    WithoutTwice(active, n, {t});
    WithoutAbsent(recent, {t});
    hide Without, Distinct;
    ConcatAssociates([t], recent, Without(active, n + {t}));
  }
}
