/** Reference counts of aware tiles: what one call of setAwarenessArea or removeAwarenessArea does to
    them, and when they stay right (src/navigation/Awareness.cpp, lines 944-1101). */
module AwareCounts {
  import opened TileGrid

  type Areas = map<string, set<Tile>>

  function AreaOf(areas: Areas, id: string): set<Tile> {
    if id in areas then areas[id] else {}
  }

  /** The live areas that contain `t`. */
  function Holders(areas: Areas, live: set<string>, t: Tile): set<string> {
    set id | id in live && t in AreaOf(areas, id)
  }

  function CountOf(counts: map<Tile, nat>, t: Tile): nat {
    if t in counts then counts[t] else 0
  }

  function One(b: bool): int {
    if b then 1 else 0
  }

  /** Every tile is counted once for each live area that contains it; counted tiles only are present. */
  ghost predicate Counted(counts: map<Tile, nat>, areas: Areas, live: set<string>) {
    && (forall t :: t in counts ==> counts[t] > 0)
    && forall t: Tile :: CountOf(counts, t) == |Holders(areas, live, t)|
  }

  /** setAwarenessArea: the new tiles gain one, the old tiles lose one, tiles in both keep their count. */
  ghost predicate SetsArea(counts: map<Tile, nat>, counts': map<Tile, nat>, old_: set<Tile>, new_: set<Tile>) {
    && (forall t :: t in counts' ==> counts'[t] > 0)
    && forall t: Tile :: CountOf(counts', t) == CountOf(counts, t) + One(t in new_) - One(t in old_)
  }

  lemma HoldersAfterSet(areas: Areas, live: set<string>, id: string, new_: set<Tile>, t: Tile)
    ensures |Holders(areas[id := new_], live + {id}, t)| ==
            |Holders(areas, live, t)| + One(t in new_) - One(id in live && t in AreaOf(areas, id))
  {
    HoldersAfterRemove(areas, live, id, t);
    var others, after := Holders(areas, live - {id}, t), Holders(areas[id := new_], live + {id}, t);
    assert id in after <==> t in new_;
    assert after - {id} == others;
  }

  lemma HoldersAfterRemove(areas: Areas, live: set<string>, id: string, t: Tile)
    ensures |Holders(areas, live - {id}, t)| ==
            |Holders(areas, live, t)| - One(id in live && t in AreaOf(areas, id))
  {
    var others := Holders(areas, live - {id}, t);
    assert Holders(areas, live, t) == if id in live && t in AreaOf(areas, id) then others + {id} else others;
  }

  /** Setting an area keeps the counts right exactly when the id is live or has no tiles left on record. */
  lemma SetKeepsCounts(areas: Areas, live: set<string>, counts: map<Tile, nat>, counts': map<Tile, nat>,
                       id: string, new_: set<Tile>)
    requires Counted(counts, areas, live) && SetsArea(counts, counts', AreaOf(areas, id), new_)
    ensures Counted(counts', areas[id := new_], live + {id}) <==> id in live || AreaOf(areas, id) == {}
  {
    forall t: Tile
      ensures CountOf(counts', t) == |Holders(areas[id := new_], live + {id}, t)|
              <==> (id in live || t !in AreaOf(areas, id))
    {
      HoldersAfterSet(areas, live, id, new_, t);
    }
    if id !in live && AreaOf(areas, id) != {} {
      var t :| t in AreaOf(areas, id);
      assert CountOf(counts', t) != |Holders(areas[id := new_], live + {id}, t)|;
    }
  }

  /** Removing an area keeps the counts right exactly when the id is live or has no tiles left on record:
      the entry survives its removal, so a second removal counts its tiles down again. */
  lemma RemoveKeepsCounts(areas: Areas, live: set<string>, counts: map<Tile, nat>, counts': map<Tile, nat>, id: string)
    requires Counted(counts, areas, live) && SetsArea(counts, counts', AreaOf(areas, id), {})
    ensures Counted(counts', areas, live - {id}) <==> id in live || AreaOf(areas, id) == {}
  {
    forall t: Tile
      ensures CountOf(counts', t) == |Holders(areas, live - {id}, t)|
              <==> (id in live || t !in AreaOf(areas, id))
    {
      HoldersAfterRemove(areas, live, id, t);
    }
    if id !in live && AreaOf(areas, id) != {} {
      var t :| t in AreaOf(areas, id);
      assert CountOf(counts', t) != |Holders(areas, live - {id}, t)|;
    }
  }

  /** Used correctly (a removed id is not used again), every call keeps the counts right. */
  lemma CountsKept(areas: Areas, live: set<string>, counts: map<Tile, nat>, counts': map<Tile, nat>,
                   id: string, new_: set<Tile>)
    ensures Counted(counts, areas, live) && (id in live || AreaOf(areas, id) == {}) ==>
              && (SetsArea(counts, counts', AreaOf(areas, id), new_) ==>
                  Counted(counts', areas[id := new_], live + {id}))
              && (SetsArea(counts, counts', AreaOf(areas, id), {}) ==> Counted(counts', areas, live - {id}))
  {
    if Counted(counts, areas, live) && SetsArea(counts, counts', AreaOf(areas, id), new_) {
      SetKeepsCounts(areas, live, counts, counts', id, new_);
    }
    if Counted(counts, areas, live) && SetsArea(counts, counts', AreaOf(areas, id), {}) {
      RemoveKeepsCounts(areas, live, counts, counts', id);
    }
    hide Counted, SetsArea;
  }

  /** A live area's tiles are all aware. */
  lemma LiveTilesAware(areas: Areas, live: set<string>, counts: map<Tile, nat>, id: string)
    requires Counted(counts, areas, live) && id in live
    ensures AreaOf(areas, id) <= counts.Keys
  {
    forall t | t in AreaOf(areas, id)
      ensures t in counts
    {
      assert id in Holders(areas, live, t);
    }
  }

  /** With a single live area the aware tiles are that area's tiles. */
  lemma SingleAreaAware(areas: Areas, id: string, counts: map<Tile, nat>)
    requires Counted(counts, areas, {id})
    ensures counts.Keys == AreaOf(areas, id)
  {
    forall t: Tile
      ensures t in counts <==> t in AreaOf(areas, id)
    {
      assert Holders(areas, {id}, t) == if t in AreaOf(areas, id) then {id} else {};
    }
  }

  lemma NoAreaAware(areas: Areas, counts: map<Tile, nat>)
    requires Counted(counts, areas, {})
    ensures counts == map[]
  {
    forall t: Tile
      ensures t !in counts
    {
      assert Holders(areas, {}, t) == {};
    }
  }

  /** A removed area's entry survives: removing it again takes the count that another live area needs. */
  lemma RemovedTwice(t: Tile)
    ensures var areas, counts := map["a" := {t}, "b" := {t}], map[t := 1];
            && Counted(counts, areas, {"b"})
            && SetsArea(counts, map[], AreaOf(areas, "a"), {})
            && !Counted(map[], areas, {"b"} - {"a"})
  {
    var areas, counts := map["a" := {t}, "b" := {t}], map[t := 1];
    forall x: Tile
      ensures Holders(areas, {"b"}, x) == if x == t then {"b"} else {}
    {
    }
    assert {"b"} - {"a"} == {"b"};
    assert CountOf(map[], t) != |Holders(areas, {"b"}, t)|;
  }
}
