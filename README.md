# Habit tracker: validation rules and schedule bookkeeping

This project models the core of the habit tracker service in Dafny. In that
service a user records useful habits and pleasurable habits. A useful habit is
rewarded either by a reward text or by a link to a pleasurable habit. Every
habit has a periodicity (in days) and an execution time (in seconds), and each
habit gets a recurring reminder job.

The model covers:

- **Validators** (`validators.dfy`): the five create-time validators and
  `patch_validator`. Each is a function over a field map that returns at most
  one message. The field map is a record of optional fields. An absent key
  (`None`) is kept apart from a present key with a falsy value, because the
  rules test both: `key in value` in some places and a truthy `value.get(key)`
  in others. The messages are a datatype; `Validators.Text` records the exact
  text of each one, as documentation. The stored-habit lookup becomes a
  read-only map from habit key to its pleasurable flag.
- **The serializer** (`serializers.dfy`). Its validator list is an ordered fold
  that runs every validator and collects every message. `update` is a method
  that runs the patch check against the stored habit and then writes exactly
  the supplied fields.
- **The views** (`views.dfy`). The owner list and the public list are filters
  over the habit table, which is kept in primary-key order. The create, update
  and destroy handlers are methods of a `HabitService` class. Its fields are the
  habit table (a `seq`), the job registry (a `map` from habit key to job) and
  the next primary key.
  - The methods change the state in the handlers' order. They go through the
    table's row operations (`InsertRow`, `SaveRow`, `DeleteRow`) and the
    schedule operations (`Schedule`, `Unschedule`).
  - Every method preserves an invariant: rows in key order, every link names
    an existing row, every job belongs to an existing habit under its key.
- **Reference definition** (`Validators.Consistent`): the habit rules as the
  validators' docstrings state them (`habits/validators.py:7-9`, `25`, `36`,
  `51`, `63`, `74-77`). A useful habit has exactly one of reward and link; a
  pleasurable habit has neither; a link names a pleasurable habit; both bounds
  hold.
  - `Serializers.CreateValidationMatchesConsistency` proves that whatever the
    create-time validators accept is consistent, and that the converse holds
    when presence and truthiness coincide.
  - `Serializers.PatchCanGiveRewardToPleasurableHabit` shows the patch rules do
    not keep the rules: a patch `{reward: "yes"}` to a pleasurable habit passes
    every check.

Where the source's docstrings and its code differ, or the code does something
its docstrings do not mention, the model follows the code:

- The reward/link mutual-exclusion check runs only for a habit that is not
  pleasurable, and it compares key presence, not truthiness
  (`habits/validators.py:17-21`).
- `perform_create` schedules a job for every new habit, including a pleasurable
  one. The docstring at `habits/views.py:30-33` says only useful habits get a
  job.
- The patch check refuses any patch that contains the key `is_pleasure`,
  whatever its value, once the stored habit has a reward or a link
  (`habits/validators.py:80-81`).
- The docstring at `habits/validators.py:7-9` speaks of creation only, but the
  serializer's validators (`habits/serializers.py:24-30`) run on every PATCH as
  well. So a patch of a useful habit that supplies no truthy reward, link or
  `is_pleasure`, such as `{periodicity: 3}` alone, is refused with the
  reward-or-link message (`Serializers.PatchWithoutExtrasRefused`).
- `pleasure_habit` is a protected self-reference (`habits/models.py:41`). So
  deleting a habit that some habit links to, itself included, is refused by the
  table.
  - `perform_destroy` has already deleted the job at that point
    (`habits/views.py:88-89`), so in that case the job is gone and the row
    stays.

## Model

| member | source | states |
|---|---|---|
| Validators.RewardValidator | habits/validators.py:15-21 | The reward-or-link message is reported iff is_pleasure is not truthy and neither link nor reward is truthy. The mutual-exclusion message is reported iff is_pleasure is not truthy, one of the two is truthy and both keys are present. Nothing else is reported, and nothing at all when is_pleasure is truthy. |
| Validators.TimeToCompleteValidator | habits/validators.py:30-32 | Refuses iff execution_time is present and above 120, and the message is the execution-time one. |
| Validators.PleasureHabitValidator | habits/validators.py:41-47 | Refuses iff a habit is linked and the stored flag of that habit is false, with the link message. |
| Validators.IsPleasureValidator | habits/validators.py:56-59 | Refuses iff is_pleasure is truthy and the key pleasure_habit or the key reward is present, whatever its value. |
| Validators.PeriodicityValidator | habits/validators.py:68-70 | Refuses iff periodicity is present and above 7, with the periodicity message. |
| Validators.PatchValidator | habits/validators.py:73-87 | The three checks in order, first failure wins. The is_pleasure key on a habit with a reward or link is refused first. Then a truthy link on a habit with a reward. Then a truthy reward on a habit with a link. At most one message, always one of these three. |
| Validators.RewardExactlyOne | habits/validators.py:17-21 | For a useful habit whose supplied link and reward are real values, RewardValidator accepts iff exactly one of them is given. |
| Validators.NullRewardCountsAsPresent | habits/validators.py:20-21 | An explicit null reward next to a real link still draws the mutual-exclusion message (presence, not truthiness). |
| Validators.ExecutionTimeBound | habits/validators.py:31-32 | 120 is accepted, 121 refused, an absent key accepted, and an accepted value stays accepted when lowered. |
| Validators.PeriodicityBound | habits/validators.py:69-70 | 7 is accepted, 8 refused, an absent key accepted, and an accepted value stays accepted when lowered. |
| Validators.PleasureHabitReadsOnlyLink | habits/validators.py:42-45 | The validator's verdict depends on the store only through the entry of the linked habit. |
| Validators.PatchRefusesPleasureKey | habits/validators.py:80-83 | A patch carrying is_pleasure, even false, is refused with the pleasurable-flag message once the stored habit has a reward or a link. |
| Serializers.RunValidators | habits/serializers.py:24-30 | The collected messages number at most the validators run, and are empty iff every validator accepts. |
| Serializers.MetaErrorsInOrder | habits/serializers.py:24-30 | The create-time errors are the messages of the reward, execution-time, link, pleasurable-flag and periodicity validators, concatenated in that order. |
| Serializers.CreateValidationMatchesConsistency | habits/serializers.py:24-30 | A field map with no errors creates a Consistent habit. A field map whose link and reward are real values and that would create a Consistent habit has no errors. |
| Serializers.PlaceAndActionOnly | habits/tests.py:150-154 | Place and action alone give exactly the reward-or-link message. |
| Serializers.FourErrorsAtOnce | habits/tests.py:156-164 | Reward plus a link to a useful habit, periodicity 8 and execution time 130 give exactly four messages, in validator order. |
| Serializers.PleasurableWithExtras | habits/tests.py:166-171 | is_pleasure true with a reward and a link to a pleasurable habit gives only the pleasurable-extras message. |
| Serializers.BoundsAreInclusive | habits/tests.py:173-176 | A link to a pleasurable habit with periodicity 7 and execution time 120 has no errors. |
| Serializers.NewHabitDefaults | habits/models.py:40-45 | In the row that creation inserts, an absent field gets its column default: no owner, not pleasurable, no link, periodicity 1, no reward, execution time 60, not public. A supplied field keeps its supplied value. |
| Serializers.NewHabitIsPatchedDefault | habits/models.py:40-45 | The inserted row is the default row for the given place and action with every supplied field written in, as a patch writes them. |
| Serializers.Update | habits/serializers.py:32-36 | Fails iff the patch check refuses, with that message and no write. Otherwise the result is the stored habit with exactly the supplied fields written. |
| Serializers.PatchedOverwritesOnlySupplied | habits/serializers.py:36 | After an update every supplied field equals the supplied value, every other field and the key are unchanged, and an empty patch changes nothing. |
| Serializers.PatchKeepsRewardAndLinkExclusive | habits/validators.py:84-87 | A patch accepted by the validators and the patch check never gives both a reward and a link to a habit that did not have both. |
| Serializers.PatchKeepsFlagOfHabitWithExtras | habits/validators.py:80-83 | A habit with a reward or a link keeps its pleasurable flag through every accepted patch. |
| Serializers.PatchCanGiveRewardToPleasurableHabit | habits/validators.py:56-59 | A consistent pleasurable habit patched with a reward passes the validators and the patch check, and is no longer Consistent. |
| Serializers.LinkOntoHabitWithRewardRefused | habits/tests.py:198-201 | Linking a pleasurable habit to a habit with a reward passes the validators and is refused with the link-while-reward message. |
| Serializers.PleasureFlagOntoHabitWithRewardRefused | habits/tests.py:203-207 | Setting is_pleasure on a habit with a reward passes the validators and is refused with the pleasurable-flag message. |
| Serializers.PatchWithoutExtrasRefused | habits/validators.py:17-19 | A patch with no truthy reward, link or is_pleasure draws the reward-or-link message first, and only that message when its bounds hold, because the create-time validators run on every patch. |
| Serializers.NewRewardAndBoundsAccepted | habits/tests.py:209-214 | A new reward with periodicity 3 and execution time 90 on a habit with a reward and no link is accepted and writes those values. |
| Views.Select | habits/models.py:53 | The filtered list holds exactly the rows that satisfy the condition, and stays in key order. |
| Views.OwnerHabits | habits/views.py:47-51 | The owner list holds exactly the stored habits owned by the requesting user, in key order. |
| Views.PublicHabits | habits/views.py:56 | The public list holds exactly the stored habits marked public, in key order. |
| Views.SetSchedule | habits/tests.py:229-233 | After set_schedule a job for the habit is filed under its key, and every other key keeps its job. |
| Views.DeleteSchedule | habits/tests.py:235-240 | After delete_schedule no job is filed under the key, and every other job stays. |
| Views.ReplaceSchedule | habits/views.py:75-77 | Delete then set leaves exactly the new job under the habit's key, whether or not a job was there, and the other jobs unchanged. |
| Views.PleasureIndexKeys | habits/validators.py:43-44 | The store the link validator reads has an entry for exactly the habits in the table. |
| Views.PleasureIndexReadsRows | habits/validators.py:44-45 | For each habit in the table, the store gives that habit's own pleasurable flag. |
| Views.RemoveKeepsInvariant | habits/models.py:41 | Removing an unscheduled row that no row links to keeps the table ordered, every link naming a row, and every job on a row. |
| Views.LinkedRemovalBreaksInvariant | habits/models.py:41 | When another row links to a row, that row is linked (IsLinked). Removing it, even together with its job, would leave a link that names no row. |
| Views.HabitService.InsertRow | habits/views.py:35 | The new row is appended under the next key, which was unused; the key counter advances and the jobs are unchanged. |
| Views.HabitService.SaveRow | habits/views.py:36-37 | The row is overwritten in place; the set of keys, the jobs and the counter are unchanged. |
| Views.HabitService.DeleteRow | habits/models.py:41 | The row is deleted iff no row links to it. Then exactly that row and its key leave the table; otherwise nothing changes. |
| Views.HabitService.Schedule | habits/views.py:39 | The registry becomes SetSchedule of the old one; the table is unchanged. |
| Views.HabitService.Unschedule | habits/views.py:88 | The registry becomes DeleteSchedule of the old one; the table is unchanged. |
| Views.HabitService.Create | habits/views.py:29-39 | On validation errors: all of them, and no change. Otherwise: the new key is returned; the table gains exactly the new habit with the requesting user as owner; a job is set for it whether pleasurable or not; other jobs are kept; and the habit is Consistent. |
| Views.HabitService.Update | habits/views.py:72-77 | On validation errors: all of them, and no change. On a patch-check refusal: that message, and no change. Otherwise: the row becomes the patched habit; the registry is delete-then-set for its key; other rows and jobs are kept. |
| Views.HabitService.Destroy | habits/views.py:85-89 | The job under the key is always removed. The row is removed iff no habit links to it, and then only that row; otherwise the table is unchanged. |

## Left out

- habits/tasks.py (the Telegram message sent by the reminder job) is network I/O, and nothing in the model calls it. The `print` calls in habits/validators.py:16 and habits/tasks.py:12 are output only.
- habits/services.py is not part of this model. `set_schedule` and `delete_schedule` are modelled only as inserting and removing the entry under the habit's key, as habits/tests.py:229-240 shows. A job holds a snapshot of the habit, and what the scheduler stores besides that is not modelled.
- Views.DeleteSchedule: removing an absent key leaves the registry as it is. habits/services.py is not shown, so this is inferred from the tests. In `setUp` the habit `useful_habit` is created with no job (habits/tests.py:40-45). `test_create_periodic_task` checks that it has none (habits/tests.py:231). Yet habits/tests.py:209-211 expects a PATCH of it to succeed, and that PATCH goes through `perform_update`, which calls `delete_schedule` first (habits/views.py:76). Views.ReplaceSchedule and Views.HabitService.Update rely on this: they cover a habit with no job. Such a state is reachable in the model as well, after a refused Views.HabitService.Destroy.
- Celery beat, the timing of reminders and time-zone conversion are framework and clock behaviour. They are left out, and so is the creation timestamp `time_to_perform`.
- Field-required errors and primary-key resolution are done by the framework before any validator runs.
  - Views.HabitService.Create therefore requires place and action to be present.
  - Create and Update require every submitted link to name a stored habit (`LinkResolves`).
  - No error path models a missing field or an unknown key.
- Views.HabitService.Update and Views.HabitService.Destroy require the key to be in the table. The 404 response for a missing habit is framework behaviour. The permission class `IsOwnerOrStaff` (habits/views.py:6) comes from habits/permissions.py, which is not part of this model.
- Deletion protection of places and actions, and the place and action tables themselves, are left out. Places and actions are plain keys.
- habits/paginators.py, habits/urls.py, habits/admin.py and the user app are configuration, routing, admin UI and password hashing.
- The framework turns an absent boolean in an HTML form submission into `false`. That is request parsing: the model takes the validated field map as given.
- The primary key is an increasing counter that starts at 1. Database sequence gaps and concurrent requests are not modelled.
- The upper bound of the small-integer columns (32767) is not modelled. Periodicity and execution time are unbounded naturals.
- Validators.Fields: the reward column holds at most 150 characters (habits/models.py:43). The framework refuses a longer reward with a field error before any validator runs. The model accepts a reward of any length, so Views.HabitService.Create and Views.HabitService.Update succeed where the service answers 400.
- Serializers.Update: the stored instance is modelled as a value. The method returns the updated habit, and the view writes it back with SaveRow. So the framework's in-place mutation of the shared instance object is modelled as a value update followed by a save; aliasing of that object is not modelled.
- Views.HabitService.Destroy: a refused delete is modelled as "row stays, job gone". Two things about it are not modelled:
  - The refusal is the database layer's `ProtectedError`. The REST framework does not turn that into a client error, so the response is a server error.
  - The job deletion survives only if each request is not wrapped in a database transaction. That is a setting in the config package, which is not part of this model.
