/**
 * The habit endpoints (habits/views.py): the owner-scoped and public lists,
 * which are filters over the habit table, and the create, update and destroy
 * handlers, which change the table and the registry of reminder jobs in a
 * fixed order.
 */
module Views {
  import opened Wrappers
  import opened Models
  import opened Validators
  import opened Serializers

  // ---------------------------------------------------------------------
  // Lists

  /** The rows of `hs` that satisfy `keep`, in table order. */
  function Select(hs: seq<Habit>, keep: Habit -> bool): (r: seq<Habit>)
    ensures forall h :: h in r <==> h in hs && keep(h)
    ensures SortedById(hs) ==> SortedById(r)
    decreases |hs|
  {
    if hs == [] then []
    else
      var rest := Select(hs[1..], keep);
      assert forall h :: h in hs <==> h == hs[0] || h in hs[1..];
      assert SortedById(hs) ==> forall k :: 0 <= k < |rest| ==> hs[0].id < rest[k].id by {
        if SortedById(hs) {
          forall k | 0 <= k < |rest| ensures hs[0].id < rest[k].id {
            assert rest[k] in hs[1..];
            var j :| 0 <= j < |hs[1..]| && hs[1..][j] == rest[k];
            assert hs[j + 1] == rest[k];
          }
        }
      }
      if keep(hs[0]) then [hs[0]] + rest else rest
  }

  /** The habit list of a user: exactly the habits that user owns, in primary-key order. */
  function OwnerHabits(hs: seq<Habit>, user: UserId): (r: seq<Habit>)
    ensures forall h :: h in r <==> h in hs && h.owner == Some(user)
    ensures SortedById(hs) ==> SortedById(r)
  {
    Select(hs, (h: Habit) => h.owner == Some(user))
  }

  /** The public habit list: exactly the habits marked public, in primary-key order. */
  function PublicHabits(hs: seq<Habit>): (r: seq<Habit>)
    ensures forall h :: h in r <==> h in hs && h.isPublic
    ensures SortedById(hs) ==> SortedById(r)
  {
    Select(hs, (h: Habit) => h.isPublic)
  }

  // ---------------------------------------------------------------------
  // The job registry

  /**
   * A reminder job, registered under the primary key of the habit it was
   * scheduled for. What the scheduler stores besides the key is not modelled.
   */
  datatype Job = Job(habit: Habit)

  /** set_schedule: a job for `h` is registered under `h.id`; every other entry stays. */
  function SetSchedule(jobs: map<HabitId, Job>, h: Habit): (r: map<HabitId, Job>)
    ensures r.Keys == jobs.Keys + {h.id}
    ensures r[h.id] == Job(h)
    ensures forall k :: k in jobs && k != h.id ==> r[k] == jobs[k]
  {
    jobs[h.id := Job(h)]
  }

  /** delete_schedule: the entry under `id` is removed; every other entry stays. */
  function DeleteSchedule(jobs: map<HabitId, Job>, id: HabitId): (r: map<HabitId, Job>)
    ensures r.Keys == jobs.Keys - {id}
    ensures forall k :: k in r ==> r[k] == jobs[k]
  {
    jobs - {id}
  }

  /**
   * Deleting and then setting the schedule of a habit leaves exactly its new
   * job under its key, whether or not a job was there before.
   */
  lemma ReplaceSchedule(jobs: map<HabitId, Job>, h: Habit)
    ensures var r := SetSchedule(DeleteSchedule(jobs, h.id), h);
            && r.Keys == jobs.Keys + {h.id}
            && r[h.id] == Job(h)
            && forall k :: k in jobs && k != h.id ==> r[k] == jobs[k]
  {
  }

  // ---------------------------------------------------------------------
  // Table lookups

  /**
   * What PleasureHabitValidator reads from the table: each habit's
   * pleasurable flag, by key (PleasureIndexKeys, PleasureIndexReadsRows).
   */
  function PleasureIndex(hs: seq<Habit>): map<HabitId, bool>
  {
    if hs == [] then map[]
    else PleasureIndex(hs[..|hs| - 1])[hs[|hs| - 1].id := hs[|hs| - 1].isPleasure]
  }

  /** The index has an entry for exactly the keys in the table. */
  lemma {:induction false} PleasureIndexKeys(hs: seq<Habit>)
    ensures PleasureIndex(hs).Keys == Ids(hs)
  {
    if hs != [] {
      var front, last := hs[..|hs| - 1], hs[|hs| - 1];
      PleasureIndexKeys(front);
      IdsAppend(front, last);
      assert hs == front + [last];
    }
  }

  /** In a table ordered by key, the index gives each row's own flag. */
  lemma {:induction false} PleasureIndexReadsRows(hs: seq<Habit>)
    requires SortedById(hs)
    ensures forall i :: 0 <= i < |hs| ==> hs[i].id in PleasureIndex(hs) && PleasureIndex(hs)[hs[i].id] == hs[i].isPleasure
  {
    if hs != [] {
      var front, last := hs[..|hs| - 1], hs[|hs| - 1];
      PleasureIndexReadsRows(front);
      PleasureIndexKeys(front);
      forall i | 0 <= i < |hs| ensures hs[i].id in PleasureIndex(hs) && PleasureIndex(hs)[hs[i].id] == hs[i].isPleasure {
        if i < |hs| - 1 {
          assert hs[i] == front[i];
          assert hs[i].id < last.id;
        }
      }
    }
  }

  /** Some habit links to `id` as its pleasurable habit, so deleting `id` is refused by the table. */
  predicate IsLinked(hs: seq<Habit>, id: HabitId)
  {
    exists i :: 0 <= i < |hs| && hs[i].pleasureHabit == Some(id)
  }

  // ---------------------------------------------------------------------
  // The invariant of the table and the registry

  /**
   * The rows are in key order below the next key, every link names a row
   * (links are protected against deletion), and every job belongs to an
   * existing habit and is filed under its key.
   */
  ghost predicate StoreInvariant(hs: seq<Habit>, jobs: map<HabitId, Job>, next: HabitId)
  {
    && SortedById(hs)
    && (forall i :: 0 <= i < |hs| ==> hs[i].id < next)
    && (forall i :: 0 <= i < |hs| && hs[i].pleasureHabit.Some? ==> hs[i].pleasureHabit.value in Ids(hs))
    && jobs.Keys <= Ids(hs)
    && (forall k :: k in jobs ==> jobs[k].habit.id == k)
  }

  /** Removing a job keeps the invariant. */
  lemma UnscheduleKeepsInvariant(hs: seq<Habit>, jobs: map<HabitId, Job>, next: HabitId, id: HabitId)
    requires StoreInvariant(hs, jobs, next)
    ensures StoreInvariant(hs, DeleteSchedule(jobs, id), next)
  {
  }

  /** Removing an unscheduled row that no habit links to keeps the invariant. */
  lemma RemoveKeepsInvariant(hs: seq<Habit>, jobs: map<HabitId, Job>, next: HabitId, i: nat)
    requires StoreInvariant(hs, jobs, next)
    requires i < |hs| && !IsLinked(hs, hs[i].id) && hs[i].id !in jobs
    ensures StoreInvariant(hs[..i] + hs[i + 1..], jobs, next)
  {
    var t := hs[..i] + hs[i + 1..];
    IdsRemove(hs, i);
    assert forall k :: 0 <= k < |t| ==> t[k] == if k < i then hs[k] else hs[k + 1];
    forall k | 0 <= k < |t| && t[k].pleasureHabit.Some? ensures t[k].pleasureHabit.value in Ids(t) {
      var j := if k < i then k else k + 1;
      assert t[k] == hs[j];
      assert hs[j].pleasureHabit != Some(hs[i].id);
    }
  }

  /**
   * Why the link is protected: removing a row that another row links to,
   * even with its job, would leave a link to no row.
   */
  lemma {:induction false} LinkedRemovalBreaksInvariant(hs: seq<Habit>, jobs: map<HabitId, Job>, next: HabitId, i: nat, j: nat)
    requires StoreInvariant(hs, jobs, next)
    requires i < |hs| && j < |hs| && j != i && hs[j].pleasureHabit == Some(hs[i].id)
    ensures IsLinked(hs, hs[i].id)
    ensures !StoreInvariant(hs[..i] + hs[i + 1..], DeleteSchedule(jobs, hs[i].id), next)
  {
    var t := hs[..i] + hs[i + 1..];
    IdsRemove(hs, i);
    var k := if j < i then j else j - 1;
    assert t[k] == hs[j];
    assert hs[i].id !in Ids(t);
  }

  /** Overwriting the last row of `hs + [a]` with `b` gives `hs + [b]`; stated apart so that Create needs only this fact. */
  lemma LastReplaced(hs: seq<Habit>, a: Habit, b: Habit)
    ensures (hs + [a])[|hs| := b] == hs + [b]
  {
  }

  // ---------------------------------------------------------------------
  // The service

  /**
   * The habit table and the job registry as the create, update and destroy
   * endpoints change them. InsertRow, SaveRow and DeleteRow are what the
   * table does on a model's save() and delete(); Schedule and Unschedule are
   * set_schedule and delete_schedule.
   */
  class HabitService {
    /** The habit table, in primary-key order. */
    var habits: seq<Habit>
    /** The reminder jobs, under the primary key of their habit. */
    var jobs: map<HabitId, Job>
    /** The primary key the table will give the next row it inserts. */
    var nextId: HabitId

    /** The table and the registry satisfy StoreInvariant. */
    ghost predicate Valid()
      reads this
    {
      StoreInvariant(habits, jobs, nextId)
    }

    /** An empty table with no jobs; the first key is 1. */
    constructor ()
      ensures Valid()
      ensures habits == [] && jobs == map[] && nextId == 1
    {
      habits, jobs, nextId := [], map[], 1;
    }

    /** The first save() of a new row: it is appended under the next key, which then advances. */
    method InsertRow(h: Habit)
      requires Valid()
      requires h.id == nextId && (h.pleasureHabit.Some? ==> h.pleasureHabit.value in Ids(habits))
      modifies this
      ensures Valid()
      ensures old(nextId) !in Ids(old(habits)) && Ids(habits) == Ids(old(habits)) + {h.id}
      ensures habits == old(habits) + [h] && jobs == old(jobs) && nextId == old(nextId) + 1
    {
      IdsAppend(habits, h);
      var t := habits + [h];
      assert forall i :: 0 <= i < |habits| ==> t[i] == habits[i];
      assert t[|habits|] == h;
      habits, nextId := t, nextId + 1;
    }

    /** A later save() of the row at `i`: the row is overwritten in place under its key. */
    method SaveRow(i: nat, h: Habit)
      requires Valid()
      requires i < |habits| && h.id == habits[i].id
      requires h.pleasureHabit.Some? ==> h.pleasureHabit.value in Ids(habits)
      modifies this
      ensures Valid()
      ensures Ids(habits) == Ids(old(habits))
      ensures habits == old(habits)[i := h] && jobs == old(jobs) && nextId == old(nextId)
    {
      IdsReplace(habits, i, h);
      habits := habits[i := h];
    }

    /**
     * delete() of the row with key `id`: refused, with nothing changed, while
     * any habit links to it (the link is protected); otherwise exactly that
     * row leaves the table.
     */
    method DeleteRow(id: HabitId) returns (deleted: bool)
      requires Valid()
      requires id in Ids(habits) && id !in jobs
      modifies this
      ensures Valid()
      ensures jobs == old(jobs) && nextId == old(nextId)
      ensures deleted == !IsLinked(old(habits), id)
      ensures deleted ==> Ids(habits) == Ids(old(habits)) - {id}
      ensures deleted ==> forall h :: h in habits <==> h in old(habits) && h.id != id
      ensures !deleted ==> habits == old(habits)
    {
      if IsLinked(habits, id) {
        return false;
      }
      var i := IndexOf(habits, id);
      IdsRemove(habits, i);
      RemoveMembers(habits, i);
      RemoveKeepsInvariant(habits, jobs, nextId, i);
      habits := habits[..i] + habits[i + 1..];
      deleted := true;
    }

    /** set_schedule: a job for `h` is registered under its key. */
    method Schedule(h: Habit)
      requires Valid()
      requires h.id in Ids(habits)
      modifies this
      ensures Valid()
      ensures jobs == SetSchedule(old(jobs), h) && habits == old(habits) && nextId == old(nextId)
    {
      jobs := SetSchedule(jobs, h);
    }

    /** delete_schedule: the job under `id`, if any, is removed. */
    method Unschedule(id: HabitId)
      requires Valid()
      modifies this
      ensures Valid()
      ensures jobs == DeleteSchedule(old(jobs), id) && habits == old(habits) && nextId == old(nextId)
    {
      UnscheduleKeepsInvariant(habits, jobs, nextId, id);
      jobs := DeleteSchedule(jobs, id);
    }

    /**
     * HabitCreateAPIView: the serializer's validators run first; on any
     * message nothing changes. Otherwise the row is inserted, its owner is
     * set to the requesting user and the row saved again, and a job is
     * scheduled for it, whether or not the habit is pleasurable.
     */
    method Create(user: UserId, fields: Fields) returns (result: Result<HabitId, seq<Message>>)
      requires Valid()
      requires fields.place.Some? && fields.action.Some?
      requires LinkResolves(fields, PleasureIndex(habits))
      modifies this
      ensures Valid()
      ensures MetaErrors(fields, PleasureIndex(old(habits))) != [] ==>
                && result == Failure(MetaErrors(fields, PleasureIndex(old(habits))))
                && habits == old(habits) && jobs == old(jobs) && nextId == old(nextId)
      ensures MetaErrors(fields, PleasureIndex(old(habits))) == [] ==>
                var h := NewHabit(old(nextId), fields).(owner := Some(user));
                && result == Success(old(nextId))
                && old(nextId) !in Ids(old(habits))
                && habits == old(habits) + [h]
                && jobs == SetSchedule(old(jobs), h)
                && nextId == old(nextId) + 1
                && Consistent(h, PleasureIndex(old(habits)))
    {
      var pleasure := PleasureIndex(habits);
      var errs := MetaErrors(fields, pleasure);
      if errs != [] {
        return Failure(errs);
      }
      ghost var hs0 := habits;
      // serializer.save(): the row is inserted under the next key
      var id := nextId;
      var h := NewHabit(id, fields);
      assert Consistent(h, pleasure) && (h.pleasureHabit.Some? ==> h.pleasureHabit.value in Ids(habits)) by {
        CreateValidationMatchesConsistency(id, fields, pleasure);
        PleasureIndexKeys(habits);
      }
      InsertRow(h);
      // the owner is set to the requesting user and the row saved again
      var owned := h.(owner := Some(user));
      SaveRow(|habits| - 1, owned);
      LastReplaced(hs0, h, owned);
      // set_schedule(habit=new_habit)
      Schedule(owned);
      result := Success(id);
    }

    /**
     * HabitUpdateAPIView: the serializer's validators run on the submitted
     * fields, then the serializer's update runs the patch check against the
     * stored habit and writes the supplied fields. On any message nothing
     * changes. Otherwise the row is saved, its job is deleted and a new one
     * is scheduled from the saved habit.
     */
    method Update(id: HabitId, patch: Fields) returns (result: Result<Habit, seq<Message>>)
      requires Valid()
      requires id in Ids(habits)
      requires LinkResolves(patch, PleasureIndex(habits))
      modifies this
      ensures Valid()
      ensures nextId == old(nextId)
      ensures MetaErrors(patch, PleasureIndex(old(habits))) != [] ==>
                && result == Failure(MetaErrors(patch, PleasureIndex(old(habits))))
                && habits == old(habits) && jobs == old(jobs)
      ensures MetaErrors(patch, PleasureIndex(old(habits))) == [] ==>
                var stored := old(habits)[IndexOf(old(habits), id)];
                PatchValidator(stored, patch).Some? ==>
                  && result == Failure([PatchValidator(stored, patch).value])
                  && habits == old(habits) && jobs == old(jobs)
      ensures MetaErrors(patch, PleasureIndex(old(habits))) == [] ==>
                var i := IndexOf(old(habits), id);
                PatchValidator(old(habits)[i], patch).None? ==>
                  && result == Success(Patched(old(habits)[i], patch))
                  && habits == old(habits)[i := result.value]
                  && jobs == SetSchedule(DeleteSchedule(old(jobs), id), result.value)
    {
      var i := IndexOf(habits, id);
      var pleasure := PleasureIndex(habits);
      var errs := MetaErrors(patch, pleasure);
      if errs != [] {
        return Failure(errs);
      }
      // serializer.save() calls the serializer's update on the stored instance
      var saved := Serializers.Update(habits[i], patch);
      if saved.Failure? {
        return Failure([saved.error]);
      }
      var h := saved.value;
      assert h.id == id && (h.pleasureHabit.Some? ==> h.pleasureHabit.value in Ids(habits)) by {
        PatchedOverwritesOnlySupplied(habits[i], patch);
        PleasureIndexKeys(habits);
      }
      // ... which ends with instance.save()
      SaveRow(i, h);
      // delete_schedule(habit_pk=habit.pk), then set_schedule(habit=habit)
      Unschedule(id);
      Schedule(h);
      result := Success(h);
    }

    /**
     * HabitDestroyAPIView: the habit's job is deleted first; then the row is
     * deleted, which the table refuses while any habit links to it. In that
     * case the job is gone and the row stays.
     */
    method Destroy(id: HabitId) returns (deleted: bool)
      requires Valid()
      requires id in Ids(habits)
      modifies this
      ensures Valid()
      ensures nextId == old(nextId)
      ensures jobs == DeleteSchedule(old(jobs), id)
      ensures deleted == !IsLinked(old(habits), id)
      ensures deleted ==> Ids(habits) == Ids(old(habits)) - {id}
      ensures deleted ==> forall h :: h in habits <==> h in old(habits) && h.id != id
      ensures !deleted ==> habits == old(habits)
    {
      // delete_schedule(habit_pk=instance.pk)
      Unschedule(id);
      // instance.delete()
      deleted := DeleteRow(id);
    }
  }
}
