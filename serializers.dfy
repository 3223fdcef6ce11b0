/**
 * The habit serializer (habits/serializers.py): the ordered list of
 * create-time validators, whose messages are all collected, the row that
 * creation inserts, and `update`, which runs the patch check against the
 * stored habit and then overwrites exactly the supplied fields.
 */
module Serializers {
  import opened Wrappers
  import opened Models
  import opened Validators

  /** The validators of the serializer, by name. */
  datatype Rule = Reward | TimeToComplete | PleasureLink | IsPleasure | Periodicity

  /** The serializer's validator list, in its declared order. */
  const MetaRules: seq<Rule> := [Reward, TimeToComplete, PleasureLink, IsPleasure, Periodicity]

  /** Runs one validator. */
  function Check(rule: Rule, v: Fields, pleasure: map<HabitId, bool>): Option<Message>
    requires LinkResolves(v, pleasure)
  {
    match rule
    case Reward => RewardValidator(v)
    case TimeToComplete => TimeToCompleteValidator(v)
    case PleasureLink => PleasureHabitValidator(v, pleasure)
    case IsPleasure => IsPleasureValidator(v)
    case Periodicity => PeriodicityValidator(v)
  }

  /** The message of a validator that refused, as a list of zero or one element. */
  function Reported(o: Option<Message>): seq<Message>
  {
    match o
    case None => []
    case Some(m) => [m]
  }

  /**
   * Runs every validator of `rules` in order and collects the messages of
   * those that refuse: no validator stops the others.
   */
  function RunValidators(rules: seq<Rule>, v: Fields, pleasure: map<HabitId, bool>): (errs: seq<Message>)
    requires LinkResolves(v, pleasure)
    ensures |errs| <= |rules|
    ensures errs == [] <==> forall i :: 0 <= i < |rules| ==> Check(rules[i], v, pleasure).None?
    decreases |rules|
  {
    if rules == [] then []
    else
      var rest := RunValidators(rules[1..], v, pleasure);
      assert forall i :: 1 <= i < |rules| ==> rules[i] == rules[1..][i - 1];
      Reported(Check(rules[0], v, pleasure)) + rest
  }

  /** The create-time errors of a field map: the serializer's validators in order. */
  function MetaErrors(v: Fields, pleasure: map<HabitId, bool>): seq<Message>
    requires LinkResolves(v, pleasure)
  {
    RunValidators(MetaRules, v, pleasure)
  }

  /**
   * The errors are the messages of RewardValidator, TimeToCompleteValidator,
   * PleasureHabitValidator, IsPleasureValidator and PeriodicityValidator,
   * concatenated in that order.
   */
  lemma MetaErrorsInOrder(v: Fields, pleasure: map<HabitId, bool>)
    requires LinkResolves(v, pleasure)
    ensures MetaErrors(v, pleasure) ==
            Reported(RewardValidator(v)) + (Reported(TimeToCompleteValidator(v))
            + (Reported(PleasureHabitValidator(v, pleasure)) + (Reported(IsPleasureValidator(v))
            + Reported(PeriodicityValidator(v)))))
  {
    var rs := MetaRules;
    assert rs[1..] == [TimeToComplete, PleasureLink, IsPleasure, Periodicity];
    assert rs[1..][1..] == [PleasureLink, IsPleasure, Periodicity];
    assert rs[1..][1..][1..] == [IsPleasure, Periodicity];
    assert rs[1..][1..][1..][1..] == [Periodicity];
    assert rs[1..][1..][1..][1..][1..] == [];
    assert RunValidators([Periodicity], v, pleasure) == Reported(PeriodicityValidator(v));
    assert RunValidators([IsPleasure, Periodicity], v, pleasure)
        == Reported(IsPleasureValidator(v)) + Reported(PeriodicityValidator(v));
    assert RunValidators([PleasureLink, IsPleasure, Periodicity], v, pleasure)
        == Reported(PleasureHabitValidator(v, pleasure)) + (Reported(IsPleasureValidator(v)) + Reported(PeriodicityValidator(v)));
    assert RunValidators([TimeToComplete, PleasureLink, IsPleasure, Periodicity], v, pleasure)
        == Reported(TimeToCompleteValidator(v)) + (Reported(PleasureHabitValidator(v, pleasure)) + (Reported(IsPleasureValidator(v)) + Reported(PeriodicityValidator(v))));
    assert MetaErrors(v, pleasure)
        == Reported(RewardValidator(v)) + RunValidators([TimeToComplete, PleasureLink, IsPleasure, Periodicity], v, pleasure);
  }

  /**
   * The row that creation inserts: every supplied field, and the column
   * default for every other one. Place and action are required fields.
   */
  function NewHabit(id: HabitId, v: Fields): Habit
    requires v.place.Some? && v.action.Some?
  {
    Habit(
      id := id,
      owner := (if v.owner.Some? then v.owner.value else None),
      place := v.place.value,
      action := v.action.value,
      isPleasure := (if v.isPleasure.Some? then v.isPleasure.value else false),
      pleasureHabit := (if v.pleasureHabit.Some? then v.pleasureHabit.value else None),
      periodicity := (if v.periodicity.Some? then v.periodicity.value else DefaultPeriodicity),
      reward := (if v.reward.Some? then v.reward.value else None),
      executionTime := (if v.executionTime.Some? then v.executionTime.value else DefaultExecutionTime),
      isPublic := (if v.isPublic.Some? then v.isPublic.value else false))
  }

  /**
   * An absent field gets its column default in the inserted row, a supplied
   * field its supplied value.
   */
  lemma NewHabitDefaults(id: HabitId, v: Fields)
    requires v.place.Some? && v.action.Some?
    ensures NewHabit(id, v).id == id
    ensures NewHabit(id, v).place == v.place.value && NewHabit(id, v).action == v.action.value
    ensures v.owner.None? ==> NewHabit(id, v).owner.None?
    ensures v.isPleasure.None? ==> !NewHabit(id, v).isPleasure
    ensures v.pleasureHabit.None? ==> NewHabit(id, v).pleasureHabit.None?
    ensures v.periodicity.None? ==> NewHabit(id, v).periodicity == DefaultPeriodicity
    ensures v.reward.None? ==> NewHabit(id, v).reward.None?
    ensures v.executionTime.None? ==> NewHabit(id, v).executionTime == DefaultExecutionTime
    ensures v.isPublic.None? ==> !NewHabit(id, v).isPublic
    ensures v.periodicity.Some? ==> NewHabit(id, v).periodicity == v.periodicity.value
    ensures v.executionTime.Some? ==> NewHabit(id, v).executionTime == v.executionTime.value
    ensures v.reward.Some? ==> NewHabit(id, v).reward == v.reward.value
    ensures v.pleasureHabit.Some? ==> NewHabit(id, v).pleasureHabit == v.pleasureHabit.value
    ensures v.owner.Some? ==> NewHabit(id, v).owner == v.owner.value
    ensures v.isPleasure.Some? ==> NewHabit(id, v).isPleasure == v.isPleasure.value
    ensures v.isPublic.Some? ==> NewHabit(id, v).isPublic == v.isPublic.value
  {
  }

  /** The habit after the supplied fields of a patch have been written into it. */
  function Patched(h: Habit, p: Fields): Habit
  {
    h.(owner := (if p.owner.Some? then p.owner.value else h.owner),
       place := (if p.place.Some? then p.place.value else h.place),
       action := (if p.action.Some? then p.action.value else h.action),
       isPleasure := (if p.isPleasure.Some? then p.isPleasure.value else h.isPleasure),
       pleasureHabit := (if p.pleasureHabit.Some? then p.pleasureHabit.value else h.pleasureHabit),
       periodicity := (if p.periodicity.Some? then p.periodicity.value else h.periodicity),
       reward := (if p.reward.Some? then p.reward.value else h.reward),
       executionTime := (if p.executionTime.Some? then p.executionTime.value else h.executionTime),
       isPublic := (if p.isPublic.Some? then p.isPublic.value else h.isPublic))
  }

  /**
   * HabitSerializer.update: the patch check against the stored habit comes
   * first; only if it passes is each supplied field written, one after the
   * other, into the instance.
   */
  method Update(instance: Habit, patch: Fields) returns (result: Result<Habit, Message>)
    ensures result.Failure? <==> PatchValidator(instance, patch).Some?
    ensures result.Failure? ==> PatchValidator(instance, patch) == Some(result.error)
    ensures result.Success? ==> result.value == Patched(instance, patch)
  {
    var refusal := PatchValidator(instance, patch);
    if refusal.Some? {
      return Failure(refusal.value);
    }
    var owner := instance.owner;
    if patch.owner.Some? { owner := patch.owner.value; }
    var place := instance.place;
    if patch.place.Some? { place := patch.place.value; }
    var action := instance.action;
    if patch.action.Some? { action := patch.action.value; }
    var isPleasure := instance.isPleasure;
    if patch.isPleasure.Some? { isPleasure := patch.isPleasure.value; }
    var pleasureHabit := instance.pleasureHabit;
    if patch.pleasureHabit.Some? { pleasureHabit := patch.pleasureHabit.value; }
    var periodicity := instance.periodicity;
    if patch.periodicity.Some? { periodicity := patch.periodicity.value; }
    var reward := instance.reward;
    if patch.reward.Some? { reward := patch.reward.value; }
    var executionTime := instance.executionTime;
    if patch.executionTime.Some? { executionTime := patch.executionTime.value; }
    var isPublic := instance.isPublic;
    if patch.isPublic.Some? { isPublic := patch.isPublic.value; }
    var h := Habit(instance.id, owner, place, action, isPleasure, pleasureHabit, periodicity, reward, executionTime, isPublic);
    return Success(h);
  }

  /** Creation writes the supplied fields into the default row, as a patch does into a stored habit. */
  lemma NewHabitIsPatchedDefault(id: HabitId, v: Fields)
    requires v.place.Some? && v.action.Some?
    ensures NewHabit(id, v) == Patched(DefaultHabit(id, v.place.value, v.action.value), v)
  {
  }

  // ---------------------------------------------------------------------
  // Create-time validation against the consistency rules

  /**
   * Every field map the validators accept creates a consistent habit; and
   * when presence and truthiness coincide for the reward and the link, every
   * field map that would create a consistent habit is accepted.
   */
  lemma CreateValidationMatchesConsistency(id: HabitId, v: Fields, pleasure: map<HabitId, bool>)
    requires v.place.Some? && v.action.Some? && LinkResolves(v, pleasure)
    ensures MetaErrors(v, pleasure) == [] ==> Consistent(NewHabit(id, v), pleasure)
    ensures NoBlankExtras(v) && Consistent(NewHabit(id, v), pleasure) ==> MetaErrors(v, pleasure) == []
  {
    MetaErrorsInOrder(v, pleasure);
  }

  /** A submission with place and action and no other rule-relevant key is refused with the reward-or-link message only. */
  lemma PlaceAndActionOnly(v: Fields, pleasure: map<HabitId, bool>)
    requires v.pleasureHabit.None? && v.reward.None? && v.isPleasure != Some(true)
    requires v.executionTime.None? && v.periodicity.None?
    ensures MetaErrors(v, pleasure) == [RewardOrLinkRequired]
  {
    var r, t, l, i, p :=
      RewardValidator(v), TimeToCompleteValidator(v), PleasureHabitValidator(v, pleasure),
      IsPleasureValidator(v), PeriodicityValidator(v);
    assert r == Some(RewardOrLinkRequired) && t.None? && l.None? && i.None? && p.None?;
    MetaErrorsInOrder(v, pleasure);
    assert Reported(r) + (Reported(t) + (Reported(l) + (Reported(i) + Reported(p)))) == [RewardOrLinkRequired];
  }

  /** Four single messages and one empty list, concatenated as MetaErrorsInOrder nests them. */
  lemma FourReported(a: Message, b: Message, c: Message, d: Message)
    ensures [a] + ([b] + ([c] + ([] + [d]))) == [a, b, c, d]
  {
  }

  /**
   * A reward together with a link to a useful habit, periodicity 8 and
   * execution time 130 is refused with four messages at once, in validator order.
   */
  lemma FourErrorsAtOnce(v: Fields, useful: HabitId, pleasure: map<HabitId, bool>)
    requires v.reward == Some(Some("yes")) && v.pleasureHabit == Some(Some(useful)) && v.isPleasure != Some(true)
    requires v.periodicity == Some(8) && v.executionTime == Some(130)
    requires useful in pleasure && !pleasure[useful]
    ensures MetaErrors(v, pleasure)
            == [RewardAndLinkTogether, ExecutionTimeTooLong, LinkNotPleasurable, PeriodicityTooRare]
  {
    MetaErrorsInOrder(v, pleasure);
    var r, t, l, i, p :=
      Reported(RewardValidator(v)), Reported(TimeToCompleteValidator(v)), Reported(PleasureHabitValidator(v, pleasure)),
      Reported(IsPleasureValidator(v)), Reported(PeriodicityValidator(v));
    assert r == [RewardAndLinkTogether] && t == [ExecutionTimeTooLong] && l == [LinkNotPleasurable];
    assert i == [] && p == [PeriodicityTooRare];
    FourReported(RewardAndLinkTogether, ExecutionTimeTooLong, LinkNotPleasurable, PeriodicityTooRare);
  }

  /** A pleasurable habit with a reward and a link to a pleasurable habit gets only the pleasurable-extras message. */
  lemma PleasurableWithExtras(v: Fields, linked: HabitId, pleasure: map<HabitId, bool>)
    requires v.reward == Some(Some("yes")) && v.pleasureHabit == Some(Some(linked)) && v.isPleasure == Some(true)
    requires v.executionTime.None? && v.periodicity.None?
    requires linked in pleasure && pleasure[linked]
    ensures MetaErrors(v, pleasure) == [PleasureWithExtras]
  {
    var r, t, l, i, p :=
      RewardValidator(v), TimeToCompleteValidator(v), PleasureHabitValidator(v, pleasure),
      IsPleasureValidator(v), PeriodicityValidator(v);
    assert r.None? && t.None? && l.None? && i == Some(PleasureWithExtras) && p.None?;
    MetaErrorsInOrder(v, pleasure);
    assert Reported(r) + (Reported(t) + (Reported(l) + (Reported(i) + Reported(p)))) == [PleasureWithExtras];
  }

  /** A link to a pleasurable habit with periodicity 7 and execution time 120 is accepted: both bounds are inclusive. */
  lemma BoundsAreInclusive(v: Fields, linked: HabitId, pleasure: map<HabitId, bool>)
    requires v.pleasureHabit == Some(Some(linked)) && v.reward.None? && v.isPleasure != Some(true)
    requires v.periodicity == Some(MaxPeriodicity) && v.executionTime == Some(MaxExecutionTime)
    requires linked in pleasure && pleasure[linked]
    ensures MetaErrors(v, pleasure) == []
  {
    MetaErrorsInOrder(v, pleasure);
  }

  // ---------------------------------------------------------------------
  // Partial updates

  /** After an update every supplied field holds the supplied value and every other field, the key included, is unchanged. */
  lemma PatchedOverwritesOnlySupplied(h: Habit, p: Fields)
    ensures Patched(h, p).id == h.id
    ensures Patched(h, p).owner == (if p.owner.Some? then p.owner.value else h.owner)
    ensures Patched(h, p).place == (if p.place.Some? then p.place.value else h.place)
    ensures Patched(h, p).action == (if p.action.Some? then p.action.value else h.action)
    ensures Patched(h, p).isPleasure == (if p.isPleasure.Some? then p.isPleasure.value else h.isPleasure)
    ensures Patched(h, p).pleasureHabit == (if p.pleasureHabit.Some? then p.pleasureHabit.value else h.pleasureHabit)
    ensures Patched(h, p).periodicity == (if p.periodicity.Some? then p.periodicity.value else h.periodicity)
    ensures Patched(h, p).reward == (if p.reward.Some? then p.reward.value else h.reward)
    ensures Patched(h, p).executionTime == (if p.executionTime.Some? then p.executionTime.value else h.executionTime)
    ensures Patched(h, p).isPublic == (if p.isPublic.Some? then p.isPublic.value else h.isPublic)
    ensures p == NoFields ==> Patched(h, p) == h
  {
  }

  /**
   * A patch that passes the serializer's validators and the patch check never
   * leaves a habit with both a reward and a link, if it had not both before.
   */
  lemma PatchKeepsRewardAndLinkExclusive(h: Habit, p: Fields, pleasure: map<HabitId, bool>)
    requires LinkResolves(p, pleasure)
    requires MetaErrors(p, pleasure) == [] && PatchValidator(h, p).None?
    requires !(HasReward(h) && HasLink(h))
    ensures !(HasReward(Patched(h, p)) && HasLink(Patched(h, p)))
  {
    MetaErrorsInOrder(p, pleasure);
  }

  /** A habit with a reward or a link keeps its pleasurable flag through every accepted patch. */
  lemma PatchKeepsFlagOfHabitWithExtras(h: Habit, p: Fields)
    requires HasReward(h) || HasLink(h)
    requires PatchValidator(h, p).None?
    ensures Patched(h, p).isPleasure == h.isPleasure
  {
  }

  /**
   * The patch rules are weaker than the create rules: a consistent
   * pleasurable habit can be given a reward by a patch that every check
   * accepts, and is no longer consistent afterwards.
   */
  lemma PatchCanGiveRewardToPleasurableHabit(h: Habit, pleasure: map<HabitId, bool>)
    requires h.isPleasure && h.reward.None? && h.pleasureHabit.None?
    requires h.executionTime <= MaxExecutionTime && h.periodicity <= MaxPeriodicity
    ensures Consistent(h, pleasure)
    ensures var p := NoFields.(reward := Some(Some("yes")));
            && MetaErrors(p, pleasure) == []
            && PatchValidator(h, p).None?
            && !Consistent(Patched(h, p), pleasure)
  {
    MetaErrorsInOrder(NoFields.(reward := Some(Some("yes"))), pleasure);
  }

  /** A patch linking a pleasurable habit to a habit that has a reward passes the validators and is refused by the patch check. */
  lemma LinkOntoHabitWithRewardRefused(h: Habit, p: Fields, pleasure: map<HabitId, bool>)
    requires HasReward(h)
    requires LinkTruthy(p) && p.pleasureHabit.value.value in pleasure && pleasure[p.pleasureHabit.value.value]
    requires p.reward.None? && p.isPleasure.None? && p.periodicity.None? && p.executionTime.None?
    ensures MetaErrors(p, pleasure) == [] && PatchValidator(h, p) == Some(LinkWhileReward)
  {
    MetaErrorsInOrder(p, pleasure);
  }


  /** A patch turning a habit with a reward into a pleasurable one passes the validators and is refused by the patch check. */
  lemma PleasureFlagOntoHabitWithRewardRefused(h: Habit, p: Fields, pleasure: map<HabitId, bool>)
    requires HasReward(h)
    requires p.isPleasure == Some(true) && p.reward.None? && p.pleasureHabit.None?
    requires p.periodicity.None? && p.executionTime.None?
    ensures MetaErrors(p, pleasure) == [] && PatchValidator(h, p) == Some(PleasureWhileRewardOrLink)
  {
    MetaErrorsInOrder(p, pleasure);
  }


  /**
   * The create-time validators run on every patch as well: a patch that
   * supplies no truthy reward, link or is_pleasure is refused with the
   * reward-or-link message first, and with that message alone when its
   * bounds hold (a patch of only the periodicity, say).
   */
  lemma PatchWithoutExtrasRefused(p: Fields, pleasure: map<HabitId, bool>)
    requires !LinkTruthy(p) && !RewardTruthy(p) && !PleasureTruthy(p)
    ensures |MetaErrors(p, pleasure)| > 0 && MetaErrors(p, pleasure)[0] == RewardOrLinkRequired
    ensures TimeToCompleteValidator(p).None? && PeriodicityValidator(p).None? ==>
            MetaErrors(p, pleasure) == [RewardOrLinkRequired]
  {
    MetaErrorsInOrder(p, pleasure);
  }

  /**
   * A patch of a habit that has a reward and no link, with a new reward,
   * periodicity 3 and execution time 90, is accepted and writes those three values.
   */
  lemma NewRewardAndBoundsAccepted(h: Habit, p: Fields, pleasure: map<HabitId, bool>)
    requires HasReward(h) && !HasLink(h)
    requires p.reward == Some(Some("new_reward")) && p.periodicity == Some(3) && p.executionTime == Some(90)
    requires p.pleasureHabit.None? && p.isPleasure.None?
    ensures MetaErrors(p, pleasure) == [] && PatchValidator(h, p).None?
    ensures Patched(h, p).reward == Some("new_reward")
    ensures Patched(h, p).periodicity == 3 && Patched(h, p).executionTime == 90
  {
    MetaErrorsInOrder(p, pleasure);
  }

}
