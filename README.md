# Entity lifecycle core of a merge-style physics game, in Dafny

This project models the part of the game that decides which units exist and
when a new one appears: the `EntityManager` (unit catalog, live-unit list,
per-id merge counters, score-tiered auto pick with its "next unit" preview,
and the respawn watch coroutine) and the `GameManager` state it reads (total
score, pause flag). The model is imperative where the source is: the managers
are classes whose methods update their fields, loops stay loops with
invariants, and every method states its new state. Specification functions
(`CatalogOf`, `RemoveFirst`, `Holes`, `Exits`, `AllInHole`, `ZoneHoldsUnit`)
carry the meaning, with lemmas about them.

Modules, one per component:

- `Wrappers` — `Option`, for lookups that return null in the source.
- `Units` — `UnitData` (a definition; its fields are constants, since the core
  never writes them, and `Clone` gives a new object), `Unit` (a live
  `UnitSystem`: definition copy, position, `inHole`, `fired`), `Vec2`, and
  `Hit` (one entry of the spawn-zone overlap query: a null collider, or a
  collider that does or does not belong to a unit).
- `Catalog` — the id-to-definition dictionary built on Awake: null entries are
  skipped and, for a repeated id, the first entry wins.
- `Registry` — `List<T>.Remove` (`RemoveFirst`), the distinctness the live list
  keeps, and the back-to-front sweep of `DespawnAll`.
- `Watch` — the respawn coroutine as a state machine: the exit test of one pass
  and the value of the `respawnRoutine` field after a pass.
- `Game` — `GameManager`: a 32-bit `totalScore` with unchecked wrap-around, the
  pause flag, and the values raised on `OnScoreChanged` / `OnPauseChanged`
  recorded as sequences.
- `Entities` — `EntityManager` and client scenarios.

Inputs from outside the core are parameters: the frame time `now`, the
overlap query's result `hits`, and the random pick, which is any value in
`[1, n]` (a `:|` choice). Events are recorded as the sequence of values raised
(`nextImages`, `scoreChanges`, `pauseChanges`), and the hand-over to the aiming
system (`HandleManager.SetReady`) as the sequence `readyUnits`. A Unity object
that has been destroyed compares equal to null; the live list is therefore a
`seq<Unit?>` whose null entries every operation handles, although no modelled
operation creates one. `GetCount` and `GetTotalScore` are plain reads of
`unitCounts[id - 1]` and `totalScore`; the counter and score contracts are
stated through them.

Behaviour of the code that is easy to misread, and that the model follows:

- When every live unit is in the hole, the watch loop exits at line 137 and
  still performs the auto spawn at line 157. It does not end without spawning.
- An auto spawn creates the unit named by the preview id read at line 92,
  before line 99 draws the new preview. It does not create the new pick.
- The preview notification at line 100 dereferences the new pick's definition,
  so with a subscriber and a pick missing from the catalog it throws after
  `respawnID` was updated and before anything is created (`fault` in `Spawn`).
  Inside the coroutine that exception ends the coroutine with the handle still
  set (`Stale`).
- `DespawnAll` calls `Despawn` on each entry, and `Despawn(null)` returns at
  once, so null entries stay in the list (`Holes`). With no null entry the list
  ends empty.

## Model

| member | source | states |
|---|---|---|
| `Catalog.CatalogOf` | Assets/Scripts/Managers/EntityManager.cs:75-81 | every key of the dictionary maps to a definition carrying that id |
| `Catalog.CatalogLookup` | Assets/Scripts/Managers/EntityManager.cs:75-81 | an id is a key iff some non-null entry carries it, and the key maps to the first such entry (null entries skipped, first duplicate wins) |
| `Catalog.BuildCatalog` | Assets/Scripts/Managers/EntityManager.cs:75-81 | the clear-then-add loop yields exactly that dictionary: keys are the declared ids, each mapped to its first entry |
| `Entities.EntityManager.constructor` | Assets/Scripts/Managers/EntityManager.cs:65-85 | Awake builds the catalog from `unitDatas`, then sizes the counters to `unitDatas.Length`, all zero; no unit is live and no watch runs |
| `Entities.EntityManager.FindByID` | Assets/Scripts/Managers/EntityManager.cs:88 | the lookup hits iff a non-null entry carries the id, and returns the first such entry |
| `Entities.TierWidth` | Assets/Scripts/Managers/EntityManager.cs:96-97 | the pick range width is between 3 and 5: 3 exactly when the score is at most 100, 5 exactly when it exceeds 500 |
| `Entities.TierWidthMonotone` | Assets/Scripts/Managers/EntityManager.cs:97 | a higher score never narrows the pick range |
| `Entities.EntityManager.Spawn` | Assets/Scripts/Managers/EntityManager.cs:90-114 | looks up the old preview id for an auto spawn (the given id otherwise); an auto spawn re-picks the preview in `[1, TierWidth(score)]` and notifies its sprite, faulting when the pick has no definition; a manual spawn keeps the preview; a miss or fault leaves the live list unchanged; success appends one fresh unit holding a fresh copy of the definition, at the given or the default position; counters, watch and catalog untouched |
| `Entities.EntityManager.ScanAllInHole` | Assets/Scripts/Managers/EntityManager.cs:127-136 | the scan is true iff the live list is non-empty and every entry is a non-null unit in the hole |
| `Entities.EntityManager.ScanSpawnZone` | Assets/Scripts/Managers/EntityManager.cs:141-151 | the scan is true iff the zone collider exists and the overlap result holds a collider belonging to a unit |
| `Entities.EntityManager.Pass` | Assets/Scripts/Managers/EntityManager.cs:125-157 | one pass exits iff all units are in the hole, or the cooldown is over and no unit is in the zone, so it never spawns while a unit is in the zone unless all units are in the hole; exiting performs exactly one auto spawn and hands its result over unless it faulted; otherwise nothing changes |
| `Entities.EntityManager.Tick` | Assets/Scripts/Managers/EntityManager.cs:123-159 | a resumption acts only on a live watch; it waits with nothing changed, or spawns once and clears the handle, or faults and leaves the handle stale; it spawns with a unit in the zone only when all units are in the hole |
| `Entities.EntityManager.Respawn` | Assets/Scripts/Managers/EntityManager.cs:116-121 | with a handle held it changes nothing; otherwise sets `respawnTime = now + respawnDelay`, runs the first pass at once (a waiting pass changes no unit, preview or event), and then stores the handle, which is live iff the pass waits |
| `Entities.EntityManager.RespawnIntended` | Assets/Scripts/Managers/EntityManager.cs:116-121 | the same start with the handle stored before the first pass: afterwards the handle is live iff the watch is waiting and stale iff the spawn faulted |
| `Entities.EntityManager.CancelRespawn` | Assets/Scripts/Managers/EntityManager.cs:161-169 | from any state, no handle is held and `respawnTime` is 0 |
| `Entities.EntityManager.Despawn` | Assets/Scripts/Managers/EntityManager.cs:173-181 | null is a no-op; otherwise only the first occurrence of the unit leaves the live list, which stays free of duplicates |
| `Entities.EntityManager.DespawnAll` | Assets/Scripts/Managers/EntityManager.cs:183-187 | the back-to-front loop leaves only the null entries of the old list (none when it had none); counters untouched |
| `Entities.EntityManager.GetCount` | Assets/Scripts/Managers/EntityManager.cs:227 | the counter of id `id` is the entry at index `id - 1` |
| `Entities.EntityManager.AddCount` | Assets/Scripts/Managers/EntityManager.cs:191 | the counter of the definition's id, `GetCount(id)`, goes up by one and every other counter keeps its value |
| `Entities.EntityManager.ResetCount` | Assets/Scripts/Managers/EntityManager.cs:193-197 | the counters number `unitDatas.Length`, each `GetCount(id)` is 0 |
| `Entities.EntityManager.GetNextSR` | Assets/Scripts/Managers/EntityManager.cs:224 | there is a preview sprite iff the preview id has a definition (the call throws otherwise), and it is the first such definition's sprite |
| `Entities.EntityManager.GetFinal` | Assets/Scripts/Managers/EntityManager.cs:221 | a result exists iff the array is non-empty with a non-null last entry (the call throws otherwise), and it is an id of the catalog |
| `Entities.FinalIsLargestId` | Assets/Scripts/Managers/EntityManager.cs:221 | with the array as editor discovery leaves it (no nulls, ids ascending, line 61), `GetFinal` is the largest id in the catalog |
| `Registry.RemoveFirst` | Assets/Scripts/Managers/EntityManager.cs:177 | `List.Remove` leaves the list alone when the unit is absent, otherwise removes exactly one copy of it |
| `Registry.RemoveFirstAt` | Assets/Scripts/Managers/EntityManager.cs:177 | the copy removed is the first one, and the rest keep their order |
| `Registry.RemoveFirstKeepsDistinct` | Assets/Scripts/Managers/EntityManager.cs:177 | removing a unit keeps the live list free of duplicates |
| `Registry.RemoveFirstTwice` | Assets/Scripts/Managers/EntityManager.cs:173-181 | despawning the same unit a second time changes nothing |
| `Registry.Holes` | Assets/Scripts/Managers/EntityManager.cs:183-187 | what the sweep leaves holds only null entries, no more than the list had, and nothing when the list had no null |
| `Registry.BackToFrontStep` | Assets/Scripts/Managers/EntityManager.cs:185-186 | despawning entry `i` after the entries behind it were swept leaves the entries before `i` intact |
| `Entities.RespawnTwiceSpawnsOnce` | Assets/Scripts/Managers/EntityManager.cs:116-159 | two Respawn calls start one watch, which hands over exactly one new unit and then stops |
| `Entities.DespawnTwiceIsNoOp` | Assets/Scripts/Managers/EntityManager.cs:173-181 | two Despawn calls of one unit leave the list the first call left |
| `Entities.StaleHandleBlocksRespawn` | Assets/Scripts/Managers/EntityManager.cs:116-158 | as written, Respawn while every unit is in the hole spawns at once and leaves a stale handle, so the next Respawn is ignored |
| `Entities.IntendedRespawnRestarts` | Assets/Scripts/Managers/EntityManager.cs:116-121 | with the corrected start, the next Respawn starts a live watch |
| `Game.Wrap32` | Assets/Scripts/Managers/GameManager.cs:43 | an unchecked `int` addition equals the mathematical sum when it fits and differs from it by a multiple of 2^32 |
| `Game.GameManager.constructor` | Assets/Scripts/Managers/GameManager.cs:9-12 | the score starts at 0 and the game unpaused |
| `Game.GameManager.ResetScore` | Assets/Scripts/Managers/GameManager.cs:31-37 | the score becomes 0 and 0 is raised on the score event |
| `Game.GameManager.AddScore` | Assets/Scripts/Managers/GameManager.cs:39-45 | the score becomes the wrapped old score plus the gain and the new total is raised; the pause flag is untouched |
| `Game.GameManager.Pause` | Assets/Scripts/Managers/GameManager.cs:49-59 | when paused already nothing changes; otherwise the game is paused and exactly one `true` is raised; the score is untouched |
| `Game.GameManager.Resume` | Assets/Scripts/Managers/GameManager.cs:61-71 | when not paused nothing changes; otherwise the game is unpaused and exactly one `false` is raised; the score is untouched |
| `Game.GameManager.Replay` | Assets/Scripts/Managers/GameManager.cs:73-75 | after the Resume step the game is unpaused whatever it was before |
| `Game.GameManager.GetTotalScore` | Assets/Scripts/Managers/GameManager.cs:98 | the score read by the auto pick is the stored total, with no side effect |
| `Game.PauseThenResume` | Assets/Scripts/Managers/GameManager.cs:49-71 | Pause then Resume leaves the game unpaused with score and score events untouched |

## Findings

| source | as written | input that shows it | evidently intended | confidence | as-written member | corrected member |
|---|---|---|---|---|---|---|
| Assets/Scripts/Managers/EntityManager.cs:120 | the handle returned by StartCoroutine is stored after the coroutine's first pass, which Unity runs inside StartCoroutine and which may already have reached line 158 | Respawn while the live list is non-empty and every unit is in the hole (or with `respawnDelay <= 0` and an empty zone): the unit spawns at once, then `respawnRoutine` holds a finished handle and every later Respawn returns at line 118 until CancelRespawn | `respawnRoutine` is non-null only while a watch is polling, unless the auto spawn throws at line 100 | medium; not executed (rests on two engine behaviours the source does not show: Unity runs a coroutine up to its first yield inside StartCoroutine, and StartCoroutine then returns a non-null handle even though that coroutine has already ended) | `Entities.StaleHandleBlocksRespawn` | `Entities.EntityManager.RespawnIntended` |

`Entities.EntityManager.Respawn` models line 120 as written; `RespawnIntended`
stores the handle before the first pass, and its contract states that the
handle is then live exactly while the watch is waiting, and stale only after a
faulted spawn.

## Left out

- Singleton guards, `DontDestroyOnLoad`, `SetEntity` (scene lookups and camera-dependent positions) and the editor-only `OnValidate`; its ordering of `unitDatas` appears only as the `SortedById` assumption of `FinalIsLargestId`.
- `Instantiate` under the `units` parent, `UnitSystem.SetOut` and `Destroy` in `Despawn`: engine object lifetime, outside the model. `UnitSystem.cs` and `UnitData.cs` are not part of this model; a unit starts with `inHole` and `fired` false, and a definition is modelled by its id, name and sprite.
- The reusable `cols` buffer and `Collider2D.Overlap`: the query's result is the `hits` parameter of each pass.
- `Time.time`, `respawnDelay` and positions are `real`; floating-point rounding is not modelled.
- Entities.EntityManager.Respawn: `AfterStartAsWritten` assumes that StartCoroutine returns a non-null handle for a coroutine that already ended or threw during its synchronous first pass, and that Unity catches and logs such an exception; if the engine returned null instead, line 120 would leave the field null and the source would behave as `RespawnIntended`, except that a first pass that throws would also leave the field null where `RespawnIntended` leaves it stale.
- Respawn, RespawnIntended and Tick report `Waiting` both for a pass that waits and for a call ignored without a pass; `old(respawnRoutine)` in their contracts tells the two apart.
- `Random.Range` is a nondeterministic choice in its range, not a generator; uniformity is not modelled.
- `AddCount`: counters are unbounded integers, because 2^31 merges of one unit id cannot occur in a round; an id outside `[1, unitCounts.Count]` throws in the source and is a precondition here, as for `GetCount`; so is a null definition, on which line 191 throws a NullReferenceException (the parameter is a non-null `UnitData`).
- `GetDatas`, `GetSpawnPos`, `GetUnits`: they return a field as it is (`unitDatas`, `spawnPoint`, `spawned`).
- `GameManager`: `Time.timeScale`, `AudioListener.pause`, the scene reload of `Replay`, `Quit`, `Debug.Log`, and `Start`'s call into the spawn manager, which is not part of this model.
- Subscribers of the events: a raised score or pause value is recorded whether or not anyone listens, while `nextImages` records a preview sprite only when `OnChangeNext` has a subscriber and stays empty otherwise, because line 100 computes the sprite only then; only the `OnChangeNext` subscriber's presence matters (it decides whether line 100 dereferences the new pick), and it is a constant of the manager.
- `HoleSystem` (floating-point gravity and motor speed), `AudioManager` and `TestManager`: outside the entity lifecycle core.
