/**
 * The entity manager: the unit catalog, the list of live units and the
 * per-id merge counters, the score-tiered auto pick with its "next unit"
 * preview, and the respawn watch that decides when the next unit appears.
 */
module Entities {
  import opened Wrappers
  import opened Units
  import opened Catalog
  import opened Registry
  import opened Watch
  import opened Game

  /** How many low-tier ids the auto pick draws from at a given score. */
  function TierWidth(score: int): (n: int)
    ensures 3 <= n <= 5
    ensures n == 3 <==> score <= 100
    ensures n == 5 <==> score > 500
  {
    if score <= 100 then 3 else if score <= 500 then 4 else 5
  }

  /** A higher score never narrows the auto-pick range. */
  lemma TierWidthMonotone(a: int, b: int)
    requires a <= b
    ensures TierWidth(a) <= TierWidth(b)
  {
  }

  /** The watch's "all in hole": at least one live unit, and every entry is a unit resting in the hole. */
  ghost predicate AllInHole(units: seq<Unit?>)
    reads units
  {
    |units| > 0 && forall i | 0 <= i < |units| :: units[i] != null && units[i].inHole
  }

  /** The spawn zone collider exists and the overlap query returned a collider that belongs to a unit. */
  predicate ZoneHoldsUnit(hasSpawnCol: bool, hits: seq<Hit>)
  {
    hasSpawnCol && exists i | 0 <= i < |hits| :: hits[i] == Body(true)
  }

  class EntityManager {
    /** The score source the auto pick reads. */
    const game: GameManager
    /** The serialized definitions, in the order the editor saved them; entries may be null. */
    const unitDatas: seq<UnitData?>
    const respawnDelay: real
    /** The default spawn position. */
    const spawnPoint: Vec2
    /** Whether the spawn zone collider is assigned. */
    const hasSpawnCol: bool
    /** Whether OnChangeNext has a subscriber. */
    const hasNextListener: bool

    var dataDic: map<int, UnitData>
    /** The preview: the id the next auto spawn will create. */
    var respawnID: int
    var respawnRoutine: Routine
    var respawnTime: real
    var unitCounts: seq<int>
    var spawned: seq<Unit?>
    /** The sprites passed to OnChangeNext, oldest first; stays empty when it has no subscriber (`hasNextListener` false). */
    var nextImages: seq<nat>
    /** The results of auto respawns handed to the aiming system (HandleManager.SetReady), oldest first. */
    var readyUnits: seq<Unit?>

    /** The catalog is the one Awake built, and no live unit is listed twice. */
    ghost predicate Valid()
      reads this
    {
      dataDic == CatalogOf(unitDatas) && DistinctExcept(spawned, null)
    }

    /** Awake, for the first manager: build the catalog, then size the counters. */
    constructor (g: GameManager, datas: seq<UnitData?>, firstID: int, delay: real, point: Vec2,
                 spawnCol: bool, nextListener: bool)
      ensures Valid()
      ensures game == g && unitDatas == datas && respawnDelay == delay && spawnPoint == point
      ensures hasSpawnCol == spawnCol && hasNextListener == nextListener
      ensures respawnID == firstID && respawnRoutine == NoRoutine && respawnTime == 0.0
      ensures spawned == [] && nextImages == [] && readyUnits == []
      ensures |unitCounts| == |datas| && forall id | 1 <= id <= |unitCounts| :: GetCount(id) == 0
    {
      var dic := BuildCatalog(datas);
      game := g;
      unitDatas := datas;
      respawnDelay := delay;
      spawnPoint := point;
      hasSpawnCol := spawnCol;
      hasNextListener := nextListener;
      respawnID := firstID;
      respawnRoutine := NoRoutine;
      respawnTime := 0.0;
      spawned := [];
      nextImages := [];
      readyUnits := [];
      unitCounts := [];
      dataDic := dic;
      new;
      ResetCount();
    }

    /** The catalog lookup: the first non-null definition with that id, or nothing. */
    function FindByID(id: int): (r: Option<UnitData>)
      reads this
      requires Valid()
      ensures r.Some? <==> Declares(unitDatas, id)
      ensures forall i | FirstWith(unitDatas, id, i) :: r == Some(unitDatas[i])
    {
      CatalogLookup(unitDatas, id);
      if id in dataDic then Some(dataDic[id]) else None
    }

    /**
     * What one Spawn call does. The definition is looked up by the preview id
     * read before an auto spawn re-picks it (or by `id` itself). An auto spawn
     * re-picks the preview within the score's tier and notifies the subscriber
     * of the new pick's sprite; that notification throws (fault) when the new
     * pick has no definition. A miss or a fault creates nothing; otherwise a new
     * unit holding its own copy of the definition is appended to the live list.
     */
    twostate predicate SpawnEffect(id: int, pos: Option<Vec2>, new u: Unit?, fault: bool)
      reads this, u, game
    {
      var key := if id == 0 then old(respawnID) else id;
      && dataDic == old(dataDic)
      && (id == 0 ==> 1 <= respawnID <= TierWidth(old(game.totalScore) as int))
      && (id != 0 ==> respawnID == old(respawnID))
      && (fault <==> id == 0 && hasNextListener && respawnID !in dataDic)
      && nextImages == (if id == 0 && hasNextListener && !fault
                        then old(nextImages) + [dataDic[respawnID].unitImage]
                        else old(nextImages))
      && (fault || key !in dataDic ==> u == null && spawned == old(spawned))
      && (!fault && key in dataDic ==>
            && u != null && fresh(u) && spawned == old(spawned) + [u]
            && u.data != null && fresh(u.data)
            && u.data.unitID == dataDic[key].unitID
            && u.data.unitName == dataDic[key].unitName
            && u.data.unitImage == dataDic[key].unitImage
            && u.pos == (if pos.Some? then pos.value else spawnPoint)
            && !u.inHole && !u.fired)
    }

    method Spawn(id: int, pos: Option<Vec2>) returns (u: Unit?, fault: bool)
      requires Valid()
      modifies this
      ensures Valid()
      ensures SpawnEffect(id, pos, u, fault)
      ensures unitCounts == old(unitCounts) && readyUnits == old(readyUnits)
      ensures respawnRoutine == old(respawnRoutine) && respawnTime == old(respawnTime)
    {
      var data := FindByID(if id == 0 then respawnID else id);
      fault := false;
      if id == 0 {
        var score := game.GetTotalScore();
        var n := TierWidth(score as int);
        var pick :| 1 <= pick <= n;
        respawnID := pick;
        if hasNextListener {
          var next := FindByID(respawnID);
          if next.None? {
            u, fault := null, true;
            return;
          }
          nextImages := nextImages + [next.value.unitImage];
        }
      }
      if data.None? {
        u := null;
        return;
      }
      var p := if pos.Some? then pos.value else spawnPoint;
      u := new Unit(p);
      var copy := data.value.Clone();
      u.SetData(copy);
      spawned := spawned + [u];
    }

    /** The first half of a watch pass: is every live unit in the hole? */
    method ScanAllInHole() returns (all: bool)
      ensures all == AllInHole(spawned)
    {
      all := false;
      if |spawned| > 0 {
        all := true;
        for i := 0 to |spawned|
          invariant all
          invariant forall k | 0 <= k < i :: spawned[k] != null && spawned[k].inHole
        {
          var u := spawned[i];
          if u == null || !u.inHole {
            all := false;
            break;
          }
        }
      }
    }

    /** The second half of a watch pass: does the overlap query report a unit in the spawn zone? */
    method ScanSpawnZone(hits: seq<Hit>) returns (unitInSpawn: bool)
      ensures unitInSpawn == ZoneHoldsUnit(hasSpawnCol, hits)
    {
      unitInSpawn := false;
      if hasSpawnCol {
        for i := 0 to |hits|
          invariant !unitInSpawn
          invariant forall k | 0 <= k < i :: hits[k] != Body(true)
        {
          var c := hits[i];
          if c.Body? && c.isUnit {
            unitInSpawn := true;
            break;
          }
        }
      }
    }

    /**
     * One pass of the coroutine's loop at time `now`, with `hits` the overlap
     * query's result: when the exit test holds, perform the auto spawn and hand
     * its result over. The routine field is left to the caller.
     */
    method Pass(now: real, hits: seq<Hit>) returns (step: Step, u: Unit?)
      requires Valid()
      modifies this
      ensures Valid()
      ensures step == Waiting <==> !Exits(old(AllInHole(spawned)), now >= respawnTime, ZoneHoldsUnit(hasSpawnCol, hits))
      ensures step == Waiting ==> u == null && unchanged(this)
      ensures step != Waiting ==> SpawnEffect(0, None, u, step == Faulted)
      ensures step != Waiting && ZoneHoldsUnit(hasSpawnCol, hits) ==> old(AllInHole(spawned))
      ensures unitCounts == old(unitCounts)
      ensures respawnRoutine == old(respawnRoutine) && respawnTime == old(respawnTime)
      ensures readyUnits == if step == Finished then old(readyUnits) + [u] else old(readyUnits)
    {
      var allInHole := ScanAllInHole();
      var exits := allInHole;
      if !allInHole {
        var timeReady := now >= respawnTime;
        var unitInSpawn := ScanSpawnZone(hits);
        exits := timeReady && !unitInSpawn;
      }
      if !exits {
        return Waiting, null;
      }
      var fault;
      u, fault := Spawn(0, None);
      if fault {
        return Faulted, u;
      }
      readyUnits := readyUnits + [u];
      step := Finished;
    }

    /**
     * Respawn, as written: start the watch unless a handle is held; the handle
     * is stored after the first pass. A call ignored because a handle is held
     * runs no pass and reports `Waiting` with nothing changed; the two cases are
     * told apart by `old(respawnRoutine)`.
     */
    method Respawn(now: real, hits: seq<Hit>) returns (step: Step, u: Unit?)
      requires Valid()
      modifies this
      ensures Valid()
      ensures old(respawnRoutine) != NoRoutine ==> step == Waiting && u == null && unchanged(this)
      ensures old(respawnRoutine) == NoRoutine ==>
        && respawnTime == now + respawnDelay
        && (step == Waiting <==> !Exits(old(AllInHole(spawned)), respawnDelay <= 0.0, ZoneHoldsUnit(hasSpawnCol, hits)))
        && (step == Waiting ==> u == null && spawned == old(spawned) && respawnID == old(respawnID)
                                && nextImages == old(nextImages))
        && (step != Waiting && ZoneHoldsUnit(hasSpawnCol, hits) ==> old(AllInHole(spawned)))
        && (step != Waiting ==> SpawnEffect(0, None, u, step == Faulted))
        && readyUnits == (if step == Finished then old(readyUnits) + [u] else old(readyUnits))
        && respawnRoutine == AfterStartAsWritten(step)
      ensures unitCounts == old(unitCounts)
    {
      if respawnRoutine != NoRoutine {
        return Waiting, null;
      }
      respawnTime := now + respawnDelay;
      step, u := Pass(now, hits);
      respawnRoutine := AfterStartAsWritten(step);
    }

    /**
     * Respawn with the handle stored before the first pass, so a first pass
     * that completes clears it, as a later pass does (`AfterResume`). An ignored
     * call reports `Waiting` with nothing changed, as in Respawn.
     */
    method RespawnIntended(now: real, hits: seq<Hit>) returns (step: Step, u: Unit?)
      requires Valid()
      modifies this
      ensures Valid()
      ensures old(respawnRoutine) != NoRoutine ==> step == Waiting && u == null && unchanged(this)
      ensures old(respawnRoutine) == NoRoutine ==>
        && respawnTime == now + respawnDelay
        && (step == Waiting <==> !Exits(old(AllInHole(spawned)), respawnDelay <= 0.0, ZoneHoldsUnit(hasSpawnCol, hits)))
        && (step == Waiting ==> u == null && spawned == old(spawned) && respawnID == old(respawnID)
                                && nextImages == old(nextImages))
        && (step != Waiting && ZoneHoldsUnit(hasSpawnCol, hits) ==> old(AllInHole(spawned)))
        && (step != Waiting ==> SpawnEffect(0, None, u, step == Faulted))
        && readyUnits == (if step == Finished then old(readyUnits) + [u] else old(readyUnits))
        && (respawnRoutine == Live <==> step == Waiting)
        && (respawnRoutine == Stale <==> step == Faulted)
      ensures unitCounts == old(unitCounts)
    {
      if respawnRoutine != NoRoutine {
        return Waiting, null;
      }
      respawnTime := now + respawnDelay;
      respawnRoutine := Live;
      step, u := Pass(now, hits);
      respawnRoutine := AfterResume(step);
    }

    /**
     * The engine resuming the watch coroutine for the frame at time `now`.
     * Without a live coroutine no pass runs, and the result is `Waiting` with
     * nothing changed.
     */
    method Tick(now: real, hits: seq<Hit>) returns (step: Step, u: Unit?)
      requires Valid()
      modifies this
      ensures Valid()
      ensures old(respawnRoutine) != Live ==> step == Waiting && u == null && unchanged(this)
      ensures old(respawnRoutine) == Live ==>
        && (step == Waiting <==> !Exits(old(AllInHole(spawned)), now >= respawnTime, ZoneHoldsUnit(hasSpawnCol, hits)))
        && (step == Waiting ==> u == null && unchanged(this))
        && (step != Waiting && ZoneHoldsUnit(hasSpawnCol, hits) ==> old(AllInHole(spawned)))
        && (step != Waiting ==> SpawnEffect(0, None, u, step == Faulted))
        && readyUnits == (if step == Finished then old(readyUnits) + [u] else old(readyUnits))
        && respawnRoutine == AfterResume(step)
        && respawnTime == old(respawnTime)
      ensures unitCounts == old(unitCounts)
    {
      if respawnRoutine != Live {
        return Waiting, null;
      }
      step, u := Pass(now, hits);
      respawnRoutine := AfterResume(step);
    }

    method CancelRespawn()
      modifies this`respawnRoutine, this`respawnTime
      ensures respawnRoutine == NoRoutine && respawnTime == 0.0
    {
      if respawnRoutine != NoRoutine {
        respawnRoutine := NoRoutine;
      }
      respawnTime := 0.0;
    }

    /** Despawn: null is ignored; otherwise the first occurrence of the unit leaves the live list. */
    method Despawn(u: Unit?)
      requires Valid()
      modifies this`spawned
      ensures Valid()
      ensures spawned == if u == null then old(spawned) else RemoveFirst(old(spawned), u)
    {
      if u == null { return; }
      RemoveFirstKeepsDistinct(spawned, u, null);
      spawned := RemoveFirst(spawned, u);
    }

    /** DespawnAll: despawn every entry from the back; only null entries, which Despawn ignores, stay. */
    method DespawnAll()
      requires Valid()
      modifies this`spawned
      ensures Valid()
      ensures spawned == Holes(old(spawned), null)
    {
      ghost var s := spawned;
      var i := |spawned| - 1;
      while i >= 0
        invariant -1 <= i < |s|
        invariant spawned == s[..i + 1] + Holes(s[i + 1..], null)
        invariant Valid()
      {
        var x := spawned[i];
        assert x == s[i];
        BackToFrontStep(s, i, null);
        Despawn(x);
        i := i - 1;
      }
      assert s[..0] == [] && s[0..] == s;
    }

    /** GetCount: the merge counter of id `id`, kept at index `id - 1`. */
    function GetCount(id: int): (c: int)
      reads this
      requires 1 <= id <= |unitCounts|
      ensures c == unitCounts[id - 1]
    {
      unitCounts[id - 1]
    }

    /** AddCount: the counter of the definition's id goes up by one; every other counter is untouched. */
    method AddCount(data: UnitData)
      requires 1 <= data.unitID <= |unitCounts|
      modifies this`unitCounts
      ensures |unitCounts| == old(|unitCounts|)
      ensures GetCount(data.unitID) == old(GetCount(data.unitID)) + 1
      ensures forall id | 1 <= id <= |unitCounts| && id != data.unitID :: GetCount(id) == old(GetCount(id))
    {
      unitCounts := unitCounts[data.unitID - 1 := unitCounts[data.unitID - 1] + 1];
    }

    /** ResetCount: one zero counter per serialized definition. */
    method ResetCount()
      modifies this`unitCounts
      ensures |unitCounts| == |unitDatas|
      ensures forall id | 1 <= id <= |unitCounts| :: GetCount(id) == 0
    {
      unitCounts := [];
      for i := 0 to |unitDatas|
        invariant |unitCounts| == i
        invariant forall k | 0 <= k < i :: unitCounts[k] == 0
      {
        unitCounts := unitCounts + [0];
      }
    }

    /** GetNextSR: the preview's sprite; nothing when the call would throw because the preview id has no definition. */
    function GetNextSR(): (r: Option<nat>)
      reads this
      requires Valid()
      ensures r.Some? <==> Declares(unitDatas, respawnID)
      ensures forall i | FirstWith(unitDatas, respawnID, i) :: r == Some(unitDatas[i].unitImage)
    {
      match FindByID(respawnID)
      case Some(d) => Some(d.unitImage)
      case None => None
    }

    /** GetFinal: the last definition's id; nothing when the call would throw (empty array or null last entry). */
    function GetFinal(): (r: Option<int>)
      ensures r.Some? <==> |unitDatas| > 0 && unitDatas[|unitDatas| - 1] != null
      ensures r.Some? ==> r.value in CatalogOf(unitDatas)
    {
      if |unitDatas| == 0 || unitDatas[|unitDatas| - 1] == null then None
      else
        CatalogLookup(unitDatas, unitDatas[|unitDatas| - 1].unitID);
        Some(unitDatas[|unitDatas| - 1].unitID)
    }
  }

  /** With the array as editor discovery orders it, GetFinal is the largest id in the catalog. */
  lemma FinalIsLargestId(m: EntityManager)
    requires SortedById(m.unitDatas) && |m.unitDatas| > 0
    ensures m.GetFinal().Some?
    ensures forall id | id in CatalogOf(m.unitDatas) :: id <= m.GetFinal().value
  {
    var ds := m.unitDatas;
    forall id | id in CatalogOf(ds) ensures id <= ds[|ds| - 1].unitID {
      CatalogLookup(ds, id);
      var i :| 0 <= i < |ds| && ds[i] != null && ds[i].unitID == id;
      if i < |ds| - 1 {
        assert ds[i].unitID <= ds[|ds| - 1].unitID;
      }
    }
  }

  /**
   * Two Respawn calls in the same frame start one watch; once the cooldown is
   * over and the zone is empty, one resumption spawns and hands over exactly
   * one unit, and a further resumption does nothing.
   */
  method RespawnTwiceSpawnsOnce(m: EntityManager, now: real)
    requires m.Valid() && m.respawnRoutine == NoRoutine && m.respawnDelay > 0.0
    requires !AllInHole(m.spawned)
    requires m.respawnID in m.dataDic && forall id | 1 <= id <= 5 :: id in m.dataDic
    modifies m
    ensures m.Valid() && m.respawnRoutine == NoRoutine
    ensures |m.readyUnits| == |old(m.readyUnits)| + 1
    ensures |m.spawned| == |old(m.spawned)| + 1
  {
    var first, _ := m.Respawn(now, []);
    assert first == Waiting;
    var second, _ := m.Respawn(now, []);
    assert second == Waiting;
    var resumed, u := m.Tick(now + m.respawnDelay, []);
    assert resumed == Finished;
    var again, _ := m.Tick(now + m.respawnDelay, []);
    assert again == Waiting;
  }

  /** A second Despawn of the same unit leaves the live list as the first one left it. */
  method DespawnTwiceIsNoOp(m: EntityManager, u: Unit)
    requires m.Valid()
    modifies m`spawned
    ensures m.Valid()
    ensures m.spawned == RemoveFirst(old(m.spawned), u)
  {
    ghost var s := m.spawned;
    m.Despawn(u);
    m.Despawn(u);
    RemoveFirstTwice(s, u, null);
  }

  /**
   * As written, a Respawn whose synchronous first pass already spawns (here:
   * every live unit is in the hole) keeps a stale handle, so the next Respawn
   * is ignored and no watch runs until CancelRespawn.
   */
  method StaleHandleBlocksRespawn(m: EntityManager, now: real, later: real)
    requires m.Valid() && m.respawnRoutine == NoRoutine && !m.hasNextListener
    requires AllInHole(m.spawned)
    modifies m
    ensures m.respawnRoutine == Stale
    ensures |m.readyUnits| == |old(m.readyUnits)| + 1
  {
    var first, _ := m.Respawn(now, []);
    assert first == Finished;
    var second, u := m.Respawn(later, []);
    assert second == Waiting && u == null;
  }

  /** With the handle stored before the first pass, the same calls leave no handle and the next Respawn starts a watch. */
  method IntendedRespawnRestarts(m: EntityManager, now: real, later: real)
    requires m.Valid() && m.respawnRoutine == NoRoutine && !m.hasNextListener
    requires AllInHole(m.spawned) && m.respawnID in m.dataDic && m.respawnDelay > 0.0
    modifies m
    ensures m.respawnTime == later + m.respawnDelay
    ensures m.respawnRoutine == Live
  {
    var first, _ := m.RespawnIntended(now, []);
    assert first == Finished && m.respawnRoutine == NoRoutine;
    assert !AllInHole(m.spawned) by { assert !m.spawned[|m.spawned| - 1].inHole; }
    var second, _ := m.RespawnIntended(later, []);
  }
}
