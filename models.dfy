/**
 * The persisted habit record (habits/models.py) and the few facts about the
 * habit table that the rest of the model relies on: rows are kept in
 * primary-key order and are found by primary key.
 */
module Models {
  import opened Wrappers

  type HabitId = nat
  type UserId = nat
  type PlaceId = nat
  type ActionId = nat

  /** Column defaults of the habit table. */
  const DefaultPeriodicity: nat := 1
  const DefaultExecutionTime: nat := 60

  /**
   * One habit row. `owner`, `pleasureHabit` and `reward` are nullable columns;
   * `pleasureHabit` refers to another habit by primary key. The creation
   * timestamp is not part of the model.
   */
  datatype Habit = Habit(
    id: HabitId,
    owner: Option<UserId>,
    place: PlaceId,
    action: ActionId,
    isPleasure: bool,
    pleasureHabit: Option<HabitId>,
    periodicity: nat,
    reward: Option<string>,
    executionTime: nat,
    isPublic: bool)

  /**
   * The row with only its required fields given: no owner, not pleasurable,
   * no link, no reward, not public, and the default periodicity and execution time.
   */
  function DefaultHabit(id: HabitId, place: PlaceId, action: ActionId): Habit
  {
    Habit(id, None, place, action, false, None, DefaultPeriodicity, None, DefaultExecutionTime, false)
  }

  /** `habit.reward` is truthy: not null and not the empty string. */
  predicate HasReward(h: Habit)
  {
    h.reward.Some? && h.reward.value != ""
  }

  /** `habit.pleasure_habit` is truthy: the link is not null. */
  predicate HasLink(h: Habit)
  {
    h.pleasureHabit.Some?
  }

  /** The primary keys of a table. */
  function Ids(hs: seq<Habit>): set<HabitId>
  {
    set i | 0 <= i < |hs| :: hs[i].id
  }

  /** The table is in primary-key order (which also makes keys unique). */
  ghost predicate SortedById(hs: seq<Habit>)
  {
    forall i, j :: 0 <= i < j < |hs| ==> hs[i].id < hs[j].id
  }

  /** The position of the row with primary key `id`. */
  function IndexOf(hs: seq<Habit>, id: HabitId): (i: nat)
    requires id in Ids(hs)
    ensures i < |hs| && hs[i].id == id
    ensures forall k :: 0 <= k < i ==> hs[k].id != id
    decreases |hs|
  {
    if hs[0].id == id then 0
    else
      assert id in Ids(hs[1..]) by {
        var k :| 0 <= k < |hs| && hs[k].id == id;
        assert hs[1..][k - 1].id == id;
      }
      1 + IndexOf(hs[1..], id)
  }

  lemma {:induction false} IdsAppend(hs: seq<Habit>, h: Habit)
    ensures Ids(hs + [h]) == Ids(hs) + {h.id}
  {
    var t := hs + [h];
    forall x | x in Ids(t) ensures x in Ids(hs) + {h.id} {
      var i :| 0 <= i < |t| && t[i].id == x;
      if i < |hs| { assert hs[i] == t[i]; }
    }
    forall x | x in Ids(hs) ensures x in Ids(t) {
      var i :| 0 <= i < |hs| && hs[i].id == x;
      assert t[i] == hs[i];
    }
    assert t[|hs|] == h;
  }

  lemma {:induction false} IdsReplace(hs: seq<Habit>, i: nat, h: Habit)
    requires i < |hs| && h.id == hs[i].id
    ensures Ids(hs[i := h]) == Ids(hs)
  {
    var t := hs[i := h];
    forall x | x in Ids(t) ensures x in Ids(hs) {
      var k :| 0 <= k < |t| && t[k].id == x;
      assert hs[k].id == x;
    }
    forall x | x in Ids(hs) ensures x in Ids(t) {
      var k :| 0 <= k < |hs| && hs[k].id == x;
      assert t[k].id == x;
    }
  }

  /** Removing the row at `i` from a table in key order removes exactly its key. */
  lemma {:induction false} IdsRemove(hs: seq<Habit>, i: nat)
    requires SortedById(hs) && i < |hs|
    ensures Ids(hs[..i] + hs[i + 1..]) == Ids(hs) - {hs[i].id}
    ensures SortedById(hs[..i] + hs[i + 1..])
  {
    var t := hs[..i] + hs[i + 1..];
    assert forall k :: 0 <= k < |t| ==> t[k] == if k < i then hs[k] else hs[k + 1];
    forall x | x in Ids(t) ensures x in Ids(hs) - {hs[i].id} {
      var k :| 0 <= k < |t| && t[k].id == x;
      if k < i { assert hs[k].id == x; } else { assert hs[k + 1].id == x; }
    }
    forall x | x in Ids(hs) - {hs[i].id} ensures x in Ids(t) {
      var k :| 0 <= k < |hs| && hs[k].id == x;
      if k < i { assert t[k].id == x; } else { assert k != i; assert t[k - 1].id == x; }
    }
  }

  /**
   * Removing the row at `i` from a table in key order keeps every other row
   * and drops that one. Stated apart so that DeleteRow needs only this fact.
   */
  lemma RemoveMembers(hs: seq<Habit>, i: nat)
    requires SortedById(hs) && i < |hs|
    ensures forall h :: h in hs[..i] + hs[i + 1..] <==> h in hs && h.id != hs[i].id
  {
  }
}
