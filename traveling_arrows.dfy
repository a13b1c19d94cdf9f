/** The traveling-arrow effects of `TravelingArrowsManager`
    (static/js/main.js): arrows spawned on random columns by a repeating
    spawner, the impact flash each one leaves at the top, and the sets of
    timers and elements the manager tracks so that `clearAllArrows` can
    cancel them. Timers and page elements are modelled as numeric handles. */
module TravelingArrows {

  import opened Tiles

  /** The manager's configuration. */
  const TravelDuration: nat := 900
  const ArrowSpawnInterval: nat := 300
  const Columns: nat := 4
  const Rows: nat := 4
  const Rotations: seq<int> := [90, 0, 180, 270]

  /** `Math.floor(travelDuration / arrowSpawnInterval)`: the number of ticks
      of a spawn sequence that create arrows. */
  const MaxSpawns: nat := TravelDuration / ArrowSpawnInterval

  /** The columns one spawner tick creates arrows for:
      `[0, 1, 2, 3].filter(() => Math.random() < 0.3)`, with the random
      outcome given as the set `chosen` of columns whose draw succeeded. */
  function ChosenColumns(chosen: set<nat>): (cs: seq<nat>)
    ensures |cs| <= Columns
    ensures forall i :: 0 <= i < |cs| ==> cs[i] < Columns && cs[i] in chosen
    ensures forall c :: c in chosen && c < Columns ==> c in cs
    ensures forall i, j :: 0 <= i < j < |cs| ==> cs[i] < cs[j]
  {
    ChosenFrom(chosen, 0)
  }

  function ChosenFrom(chosen: set<nat>, c: nat): (cs: seq<nat>)
    requires c <= Columns
    ensures |cs| <= Columns - c
    ensures forall i :: 0 <= i < |cs| ==> c <= cs[i] < Columns && cs[i] in chosen
    ensures forall d :: d in chosen && c <= d < Columns ==> d in cs
    ensures forall i, j :: 0 <= i < j < |cs| ==> cs[i] < cs[j]
    decreases Columns - c
  {
    if c == Columns then []
    else if c in chosen then [c] + ChosenFrom(chosen, c + 1)
    else ChosenFrom(chosen, c + 1)
  }

  /** The columns of every arrow a spawn sequence creates, given the sets
      chosen at its spawning ticks. */
  function SequenceColumns(ticks: seq<set<nat>>): seq<nat>
  {
    if ticks == [] then []
    else SequenceColumns(ticks[..|ticks| - 1]) + ChosenColumns(ticks[|ticks| - 1])
  }

  /** A sequence with `n` spawning ticks creates at most four arrows per tick,
      all on columns 0 to 3. */
  lemma {:induction false} SequenceColumnsBound(ticks: seq<set<nat>>)
    ensures |SequenceColumns(ticks)| <= Columns * |ticks|
    ensures forall i :: 0 <= i < |SequenceColumns(ticks)| ==> SequenceColumns(ticks)[i] < Columns
  {
    if ticks != [] {
      SequenceColumnsBound(ticks[..|ticks| - 1]);
    }
  }

  /** Every spawn sequence stops after three spawning ticks, so it creates at
      most twelve arrows. */
  lemma SpawnSequenceBound(ticks: seq<set<nat>>)
    requires |ticks| <= MaxSpawns
    ensures MaxSpawns == 3
    ensures |SequenceColumns(ticks)| <= 12
  {
    SequenceColumnsBound(ticks);
  }

  /** One traveling arrow: its element, column, rotation, the frame sequence
      its sprite animation cycles through, and the three timers
      `createTravelingArrow` starts for it. */
  datatype Arrow = Arrow(
    element: nat, column: nat, rotation: int, frames: seq<int>,
    impactTimer: nat, removeTimer: nat, frameTimer: nat)

  /** One impact flash and its two timers. */
  datatype Impact = Impact(element: nat, column: nat, fadeTimer: nat, removeTimer: nat)

  /** An arrow a spawner tick creates for `column`: the rotation configured
      for that column and the frames of sheet row `column`. */
  predicate IsSpawnedArrow(a: Arrow, column: nat)
  {
    && column < Columns
    && a.column == column
    && a.rotation == Rotations[column]
    && a.frames == ColumnFrames(column, Columns)
  }

  function ArrowElements(s: seq<Arrow>): set<nat>
  {
    set i | 0 <= i < |s| :: s[i].element
  }

  function ArrowTimers(s: seq<Arrow>): set<nat>
  {
    (set i | 0 <= i < |s| :: s[i].impactTimer) + (set i | 0 <= i < |s| :: s[i].removeTimer)
  }

  function FrameTimers(s: seq<Arrow>): set<nat>
  {
    set i | 0 <= i < |s| :: s[i].frameTimer
  }

  lemma ArrowSetsAppend(s: seq<Arrow>, a: Arrow)
    ensures ArrowElements(s + [a]) == ArrowElements(s) + {a.element}
    ensures ArrowTimers(s + [a]) == ArrowTimers(s) + {a.impactTimer, a.removeTimer}
    ensures FrameTimers(s + [a]) == FrameTimers(s) + {a.frameTimer}
  {
    var t := s + [a];
    assert t[|s|] == a;
    assert forall i :: 0 <= i < |s| ==> t[i] == s[i];
  }

  class Manager {
    /** `activeSpawners`: timers and intervals kept for cancellation. */
    var activeSpawners: set<nat>
    /** `activeArrows` and `activeImpacts`: elements on the page. */
    var activeArrows: set<nat>
    var activeImpacts: set<nat>
    /** Timers started but never tracked: each arrow's frame interval and each
        impact's fade-out timer. */
    var untrackedTimers: set<nat>
    /** Timers cancelled with `clearInterval`/`clearTimeout`. */
    var cancelled: set<nat>
    /** Every arrow and impact created, in creation order. */
    var arrows: seq<Arrow>
    var impacts: seq<Impact>
    /** The next unused handle. */
    var nextHandle: nat

    ghost predicate Valid()
      reads this
    {
      && (forall h :: h in activeSpawners ==> h < nextHandle)
      && (forall h :: h in activeArrows ==> h < nextHandle)
      && (forall h :: h in activeImpacts ==> h < nextHandle)
      && (forall h :: h in untrackedTimers ==> h < nextHandle)
      && (forall h :: h in cancelled ==> h < nextHandle)
      && untrackedTimers !! activeSpawners
      && untrackedTimers !! cancelled
      && activeSpawners !! cancelled
      && (forall i :: 0 <= i < |arrows| ==> arrows[i].frameTimer in untrackedTimers)
    }

    constructor ()
      ensures Valid()
      ensures activeSpawners == {} && activeArrows == {} && activeImpacts == {}
      ensures untrackedTimers == {} && cancelled == {}
      ensures arrows == [] && impacts == []
    {
      activeSpawners, activeArrows, activeImpacts := {}, {}, {};
      untrackedTimers, cancelled := {}, {};
      arrows, impacts := [], [];
      nextHandle := 0;
    }

    /** `createTravelingArrow(columnIndex, rotation)`: a new arrow element,
        its arrival and removal timeouts (tracked) and its sprite animation
        interval over the tiles of row `columnIndex` (not tracked). */
    method CreateTravelingArrow(columnIndex: nat, rotation: int) returns (arrow: Arrow)
      requires Valid()
      modifies this
      ensures Valid()
      ensures arrow.column == columnIndex && arrow.rotation == rotation
      ensures arrow.frames == ColumnFrames(columnIndex, Columns)
      ensures arrow.element == old(nextHandle) && arrow.impactTimer == old(nextHandle) + 1
      ensures arrow.removeTimer == old(nextHandle) + 2 && arrow.frameTimer == old(nextHandle) + 3
      ensures nextHandle == old(nextHandle) + 4
      ensures arrows == old(arrows) + [arrow] && impacts == old(impacts)
      ensures activeArrows == old(activeArrows) + {arrow.element}
      ensures activeSpawners == old(activeSpawners) + {arrow.impactTimer, arrow.removeTimer}
      ensures untrackedTimers == old(untrackedTimers) + {arrow.frameTimer}
      ensures activeImpacts == old(activeImpacts) && cancelled == old(cancelled)
    {
      var element, impactTimer, removeTimer, frameTimer :=
        nextHandle, nextHandle + 1, nextHandle + 2, nextHandle + 3;
      nextHandle := nextHandle + 4;
      arrow := Arrow(element, columnIndex, rotation, ColumnFrames(columnIndex, Columns),
                     impactTimer, removeTimer, frameTimer);
      activeArrows := activeArrows + {element};
      activeSpawners := activeSpawners + {impactTimer, removeTimer};
      untrackedTimers := untrackedTimers + {frameTimer};
      arrows := arrows + [arrow];
    }

    /** `createImpactEffect(columnIndex, rotation)`: a new impact element, its
        fade-out timeout (not tracked) and its removal timeout (tracked). */
    method CreateImpactEffect(columnIndex: nat) returns (impact: Impact)
      requires Valid()
      modifies this
      ensures Valid()
      ensures impact.column == columnIndex
      ensures impact.element == old(nextHandle) && impact.fadeTimer == old(nextHandle) + 1
      ensures impact.removeTimer == old(nextHandle) + 2 && nextHandle == old(nextHandle) + 3
      ensures impacts == old(impacts) + [impact] && arrows == old(arrows)
      ensures activeImpacts == old(activeImpacts) + {impact.element}
      ensures activeSpawners == old(activeSpawners) + {impact.removeTimer}
      ensures untrackedTimers == old(untrackedTimers) + {impact.fadeTimer}
      ensures activeArrows == old(activeArrows) && cancelled == old(cancelled)
    {
      impact := Impact(nextHandle, columnIndex, nextHandle + 1, nextHandle + 2);
      nextHandle := nextHandle + 3;
      activeImpacts := activeImpacts + {impact.element};
      activeSpawners := activeSpawners + {impact.removeTimer};
      untrackedTimers := untrackedTimers + {impact.fadeTimer};
      impacts := impacts + [impact];
    }

    /** The arrival timeout of arrow `i` fires (20 ms before it reaches the
        top) and creates the impact flash on its column. */
    method OnArrowImpactTimeout(i: nat) returns (impact: Impact)
      requires Valid() && i < |arrows| && arrows[i].impactTimer !in cancelled
      modifies this
      ensures Valid()
      ensures impact.column == old(arrows[i].column)
      ensures impacts == old(impacts) + [impact] && arrows == old(arrows)
      ensures activeImpacts == old(activeImpacts) + {impact.element}
      ensures activeSpawners == old(activeSpawners) + {impact.removeTimer}
      ensures untrackedTimers == old(untrackedTimers) + {impact.fadeTimer}
      ensures activeArrows == old(activeArrows) && cancelled == old(cancelled)
    {
      impact := CreateImpactEffect(arrows[i].column);
    }

    /** The removal timeout of arrow `i` fires: `activeArrows.delete(arrow)`. */
    method OnArrowRemoveTimeout(i: nat)
      requires Valid() && i < |arrows| && arrows[i].removeTimer !in cancelled
      modifies this
      ensures Valid()
      ensures arrows == old(arrows) && impacts == old(impacts) && nextHandle == old(nextHandle)
      ensures activeArrows == old(activeArrows) - {arrows[i].element}
      ensures activeSpawners == old(activeSpawners) && activeImpacts == old(activeImpacts)
      ensures untrackedTimers == old(untrackedTimers) && cancelled == old(cancelled)
    {
      activeArrows := activeArrows - {arrows[i].element};
    }

    /** The removal timeout of impact `j` fires: `activeImpacts.delete(impact)`. */
    method OnImpactRemoveTimeout(j: nat)
      requires Valid() && j < |impacts| && impacts[j].removeTimer !in cancelled
      modifies this
      ensures Valid()
      ensures arrows == old(arrows) && impacts == old(impacts) && nextHandle == old(nextHandle)
      ensures activeImpacts == old(activeImpacts) - {impacts[j].element}
      ensures activeSpawners == old(activeSpawners) && activeArrows == old(activeArrows)
      ensures untrackedTimers == old(untrackedTimers) && cancelled == old(cancelled)
    {
      activeImpacts := activeImpacts - {impacts[j].element};
    }

    /** The body of a spawning tick: `columnIndices.forEach(columnIndex =>
        this.createTravelingArrow(columnIndex, this.config.rotations[columnIndex]))`. */
    method SpawnColumns(columnIndices: seq<nat>) returns (ghost added: seq<Arrow>)
      requires Valid()
      requires forall k :: 0 <= k < |columnIndices| ==> columnIndices[k] < Columns
      modifies this
      ensures Valid()
      ensures arrows == old(arrows) + added && |added| == |columnIndices|
      ensures forall k :: 0 <= k < |columnIndices| ==> IsSpawnedArrow(added[k], columnIndices[k])
      ensures activeArrows == old(activeArrows) + ArrowElements(added)
      ensures activeSpawners == old(activeSpawners) + ArrowTimers(added)
      ensures untrackedTimers == old(untrackedTimers) + FrameTimers(added)
      ensures cancelled == old(cancelled)
      ensures activeImpacts == old(activeImpacts) && impacts == old(impacts)
    {
      added := [];
      for k := 0 to |columnIndices|
        invariant Valid()
        invariant arrows == old(arrows) + added && |added| == k
        invariant forall j :: 0 <= j < k ==> IsSpawnedArrow(added[j], columnIndices[j])
        invariant activeArrows == old(activeArrows) + ArrowElements(added)
        invariant activeSpawners == old(activeSpawners) + ArrowTimers(added)
        invariant untrackedTimers == old(untrackedTimers) + FrameTimers(added)
        invariant cancelled == old(cancelled)
        invariant activeImpacts == old(activeImpacts) && impacts == old(impacts)
      {
        var arrow := CreateTravelingArrow(columnIndices[k], Rotations[columnIndices[k]]);
        ArrowSetsAppend(added, arrow);
        added := added + [arrow];
      }
    }

    /** `clearAllArrows()`: cancels every tracked timer and detaches every
        tracked element. The frame intervals of the arrows are not tracked,
        so they survive the clear. */
    method ClearAllArrows()
      requires Valid()
      modifies this
      ensures Valid()
      ensures activeSpawners == {} && activeArrows == {} && activeImpacts == {}
      ensures cancelled == old(cancelled) + old(activeSpawners)
      ensures untrackedTimers == old(untrackedTimers)
      ensures forall i :: 0 <= i < |arrows| ==> arrows[i].frameTimer !in cancelled
      ensures arrows == old(arrows) && impacts == old(impacts) && nextHandle == old(nextHandle)
    {
      cancelled := cancelled + activeSpawners;
      activeSpawners := {};
      activeArrows := {};
      activeImpacts := {};
    }

    /** `spawnArrowSequence()`: starts the spawner interval and the timeout
        that resolves the returned promise, both tracked. */
    method SpawnArrowSequence() returns (s: ArrowSequence)
      requires Valid()
      modifies this
      ensures Valid() && fresh(s) && s.Valid()
      ensures s.spawnCount == 0 && s.running && s.ticks == [] && s.spawned == []
      ensures old(nextHandle) <= s.spawner < nextHandle && old(nextHandle) <= s.finalTimer < nextHandle
      ensures s.spawner != s.finalTimer
      ensures activeSpawners == old(activeSpawners) + {s.spawner, s.finalTimer}
      ensures activeArrows == old(activeArrows) && activeImpacts == old(activeImpacts)
      ensures untrackedTimers == old(untrackedTimers) && cancelled == old(cancelled)
      ensures arrows == old(arrows) && impacts == old(impacts)
    {
      s := new ArrowSequence(nextHandle, nextHandle + 1);
      activeSpawners := activeSpawners + {nextHandle, nextHandle + 1};
      nextHandle := nextHandle + 2;
    }
  }

  /** The closure of one `spawnArrowSequence` call: its interval handle, its
      final timeout and the `spawnCount` the interval callback increments. */
  class ArrowSequence {
    const spawner: nat
    const finalTimer: nat
    var spawnCount: nat
    /** False once the interval has cleared itself. */
    var running: bool
    /** The columns chosen at each spawning tick, and the columns of the
        arrows created, in order. */
    ghost var ticks: seq<set<nat>>
    ghost var spawned: seq<nat>

    ghost predicate Valid()
      reads this
    {
      && spawnCount == |ticks| <= MaxSpawns
      && spawned == SequenceColumns(ticks)
      && |spawned| <= Columns * spawnCount
    }

    constructor (spawnerHandle: nat, finalHandle: nat)
      ensures Valid()
      ensures spawner == spawnerHandle && finalTimer == finalHandle
      ensures spawnCount == 0 && running && ticks == [] && spawned == []
    {
      spawner, finalTimer := spawnerHandle, finalHandle;
      spawnCount, running := 0, true;
      ticks, spawned := [], [];
    }

    /** One call of the spawner's interval callback, `chosen` being the
        columns whose random draw succeeded. After `MaxSpawns` spawning ticks
        the next call clears the interval instead. */
    method Tick(m: Manager, chosen: set<nat>)
      requires Valid() && m.Valid() && running && spawner in m.activeSpawners
      modifies this, m
      ensures Valid() && m.Valid()
      ensures old(spawnCount) >= MaxSpawns ==>
                && !running && spawnCount == old(spawnCount) && spawned == old(spawned)
                && m.activeSpawners == old(m.activeSpawners) - {spawner}
                && m.cancelled == old(m.cancelled) + {spawner}
                && m.arrows == old(m.arrows)
                && m.activeArrows == old(m.activeArrows)
                && m.untrackedTimers == old(m.untrackedTimers)
      ensures old(spawnCount) < MaxSpawns ==>
                && running && spawnCount == old(spawnCount) + 1
                && spawned == old(spawned) + ChosenColumns(chosen)
                && |m.arrows| == |old(m.arrows)| + |ChosenColumns(chosen)|
                && m.arrows[..|old(m.arrows)|] == old(m.arrows)
                && (forall k :: 0 <= k < |ChosenColumns(chosen)| ==>
                      IsSpawnedArrow(m.arrows[|old(m.arrows)| + k], ChosenColumns(chosen)[k]))
                && m.activeArrows == old(m.activeArrows) + ArrowElements(m.arrows[|old(m.arrows)|..])
                && m.activeSpawners == old(m.activeSpawners) + ArrowTimers(m.arrows[|old(m.arrows)|..])
                && m.untrackedTimers == old(m.untrackedTimers) + FrameTimers(m.arrows[|old(m.arrows)|..])
                && m.cancelled == old(m.cancelled)
      ensures m.activeImpacts == old(m.activeImpacts) && m.impacts == old(m.impacts)
    {
      if spawnCount >= MaxSpawns {
        m.cancelled := m.cancelled + {spawner};
        m.activeSpawners := m.activeSpawners - {spawner};
        running := false;
        return;
      }
      var columnIndices := ChosenColumns(chosen);
      ghost var added := m.SpawnColumns(columnIndices);
      assert m.arrows[|old(m.arrows)|..] == added;
      spawnCount := spawnCount + 1;
      ticks := ticks + [chosen];
      spawned := spawned + columnIndices;
      assert ticks[..|ticks| - 1] == old(ticks);
      SequenceColumnsBound(ticks);
    }
  }
}
