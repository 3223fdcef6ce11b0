/**
 * The habit validation rules (habits/validators.py): five create-time
 * validators, each of which looks at the submitted field map and reports at
 * most one message, and the partial-update check `patch_validator`, which
 * compares a patch with the stored habit.
 *
 * The field map distinguishes a key that is absent from a key that is
 * present with a falsy value, because the rules test both: some ask whether
 * a key is in the map, others whether its value is truthy.
 */
module Validators {
  import opened Wrappers
  import opened Models

  /** Largest accepted execution time, in seconds. */
  const MaxExecutionTime: nat := 120
  /** Largest accepted periodicity, in days. */
  const MaxPeriodicity: nat := 7

  /**
   * The validated fields of one request. `None` means the key is absent; for
   * the nullable columns the inner `Option` is the submitted value, where
   * `None` is an explicit null.
   */
  datatype Fields = Fields(
    owner: Option<Option<UserId>>,
    place: Option<PlaceId>,
    action: Option<ActionId>,
    isPleasure: Option<bool>,
    pleasureHabit: Option<Option<HabitId>>,
    periodicity: Option<nat>,
    reward: Option<Option<string>>,
    executionTime: Option<nat>,
    isPublic: Option<bool>)

  /** The field map with no key at all. */
  const NoFields := Fields(None, None, None, None, None, None, None, None, None)

  /** The validation messages, one per rule. */
  datatype Message =
    | RewardOrLinkRequired
    | RewardAndLinkTogether
    | ExecutionTimeTooLong
    | LinkNotPleasurable
    | PleasureWithExtras
    | PeriodicityTooRare
    | PleasureWhileRewardOrLink
    | LinkWhileReward
    | RewardWhileLink

  /**
   * The exact text the service reports for each message. This is
   * documentation: the rules and every contract compare the Message values
   * themselves, which are distinct by construction.
   */
  function Text(m: Message): string
  {
    match m
    case RewardOrLinkRequired => "У привычки должно быть вознаграждение или связанная привычка!"
    case RewardAndLinkTogether => "у привычки не может быть одновременно вознаграждения и связанной привычки!"
    case ExecutionTimeTooLong => "Время выполнения должно быть не больше 120 секунд!"
    case LinkNotPleasurable => "В связанные привычки могут попадать только привычки с признаком приятной привычки!"
    case PleasureWithExtras => "У приятной привычки не может быть вознаграждения или связанной привычки!"
    case PeriodicityTooRare => "Нельзя выполнять привычку реже, чем 1 раз в 7 дней!"
    case PleasureWhileRewardOrLink => "У привычки есть вознаграждение или связанная привычка, поэтому она не может быть приятной!"
    case LinkWhileReward => "У привычки есть вознаграждение, у нее не может быть связанной привычки!"
    case RewardWhileLink => "У привычки есть связанная привычка, у нее не может быть вознаграждения!"
  }

  /** `value.get('is_pleasure')` is truthy. */
  predicate PleasureTruthy(v: Fields)
  {
    v.isPleasure == Some(true)
  }

  /** `value.get('pleasure_habit')` is truthy: a habit is linked. */
  predicate LinkTruthy(v: Fields)
  {
    v.pleasureHabit.Some? && v.pleasureHabit.value.Some?
  }

  /** `value.get('reward')` is truthy: a non-empty reward. */
  predicate RewardTruthy(v: Fields)
  {
    v.reward.Some? && v.reward.value.Some? && v.reward.value.value != ""
  }

  /**
   * Every supplied link or reward is a real value, as in a form submission:
   * for these two keys, presence and truthiness coincide.
   */
  predicate NoBlankExtras(v: Fields)
  {
    && (v.pleasureHabit.Some? ==> LinkTruthy(v))
    && (v.reward.Some? ==> RewardTruthy(v))
  }

  /**
   * The linked habit, if any, is in the store. The related field has already
   * turned the submitted key into a stored habit before any validator runs.
   */
  predicate LinkResolves(v: Fields, pleasure: map<HabitId, bool>)
  {
    LinkTruthy(v) ==> v.pleasureHabit.value.value in pleasure
  }

  /** RewardValidator: a useful habit needs a reward or a link, and not both keys. */
  function RewardValidator(v: Fields): (r: Option<Message>)
    ensures r == Some(RewardOrLinkRequired) <==>
              !PleasureTruthy(v) && !LinkTruthy(v) && !RewardTruthy(v)
    ensures r == Some(RewardAndLinkTogether) <==>
              && !PleasureTruthy(v) && (LinkTruthy(v) || RewardTruthy(v))
              && v.pleasureHabit.Some? && v.reward.Some?
    ensures r.Some? ==> r.value == RewardOrLinkRequired || r.value == RewardAndLinkTogether
    ensures PleasureTruthy(v) ==> r.None?
  {
    if !PleasureTruthy(v) then
      if !LinkTruthy(v) && !RewardTruthy(v) then Some(RewardOrLinkRequired)
      else if v.pleasureHabit.Some? && v.reward.Some? then Some(RewardAndLinkTogether)
      else None
    else None
  }

  /** TimeToCompleteValidator: a supplied execution time must not exceed 120 seconds. */
  function TimeToCompleteValidator(v: Fields): (r: Option<Message>)
    ensures r.Some? <==> v.executionTime.Some? && v.executionTime.value > MaxExecutionTime
    ensures r.Some? ==> r.value == ExecutionTimeTooLong
  {
    if v.executionTime.Some? && v.executionTime.value > MaxExecutionTime then Some(ExecutionTimeTooLong)
    else None
  }

  /** PleasureHabitValidator: a linked habit must be a pleasurable one. */
  function PleasureHabitValidator(v: Fields, pleasure: map<HabitId, bool>): (r: Option<Message>)
    requires LinkResolves(v, pleasure)
    ensures r.Some? <==> LinkTruthy(v) && !pleasure[v.pleasureHabit.value.value]
    ensures r.Some? ==> r.value == LinkNotPleasurable
  {
    if LinkTruthy(v) then
      if !pleasure[v.pleasureHabit.value.value] then Some(LinkNotPleasurable) else None
    else None
  }

  /** IsPleasureValidator: a pleasurable habit may not be given the key of a reward or a link. */
  function IsPleasureValidator(v: Fields): (r: Option<Message>)
    ensures r.Some? <==> PleasureTruthy(v) && (v.pleasureHabit.Some? || v.reward.Some?)
    ensures r.Some? ==> r.value == PleasureWithExtras
  {
    if PleasureTruthy(v) && (v.pleasureHabit.Some? || v.reward.Some?) then Some(PleasureWithExtras)
    else None
  }

  /** PeriodicityValidator: a supplied periodicity must not exceed 7 days. */
  function PeriodicityValidator(v: Fields): (r: Option<Message>)
    ensures r.Some? <==> v.periodicity.Some? && v.periodicity.value > MaxPeriodicity
    ensures r.Some? ==> r.value == PeriodicityTooRare
  {
    if v.periodicity.Some? && v.periodicity.value > MaxPeriodicity then Some(PeriodicityTooRare)
    else None
  }

  /**
   * patch_validator: the stored habit `h` against an incoming patch. The three
   * checks run in order and the first that fails is the only one reported.
   */
  function PatchValidator(h: Habit, p: Fields): (r: Option<Message>)
    ensures r == Some(PleasureWhileRewardOrLink) <==>
              p.isPleasure.Some? && (HasReward(h) || HasLink(h))
    ensures r == Some(LinkWhileReward) <==>
              !(p.isPleasure.Some? && (HasReward(h) || HasLink(h))) && HasReward(h) && LinkTruthy(p)
    ensures r == Some(RewardWhileLink) <==>
              && !(p.isPleasure.Some? && (HasReward(h) || HasLink(h)))
              && !(HasReward(h) && LinkTruthy(p))
              && HasLink(h) && RewardTruthy(p)
    ensures r.Some? ==> r.value in {PleasureWhileRewardOrLink, LinkWhileReward, RewardWhileLink}
  {
    if p.isPleasure.Some? && (HasReward(h) || HasLink(h)) then Some(PleasureWhileRewardOrLink)
    else if HasReward(h) && LinkTruthy(p) then Some(LinkWhileReward)
    else if HasLink(h) && RewardTruthy(p) then Some(RewardWhileLink)
    else None
  }

  /**
   * The rules the validators' docstrings state (habits/validators.py:7-9, 25,
   * 36, 51, 63, 74-77), as a reference definition independent of the
   * validators' code: a useful habit has exactly one of a reward and a link,
   * a pleasurable one has neither, a link names a pleasurable habit, the
   * execution time is at most 120 seconds and the periodicity at most 7 days.
   */
  predicate Consistent(h: Habit, pleasure: map<HabitId, bool>)
  {
    && (!h.isPleasure ==> HasReward(h) != HasLink(h))
    && (h.isPleasure ==> h.reward.None? && h.pleasureHabit.None?)
    && (HasLink(h) ==> h.pleasureHabit.value in pleasure && pleasure[h.pleasureHabit.value])
    && h.executionTime <= MaxExecutionTime
    && h.periodicity <= MaxPeriodicity
  }

  // ---------------------------------------------------------------------
  // Properties of the individual rules

  /**
   * With presence and truthiness coinciding, a useful habit passes
   * RewardValidator if and only if it carries exactly one of a reward and a link.
   */
  lemma RewardExactlyOne(v: Fields)
    requires NoBlankExtras(v) && !PleasureTruthy(v)
    ensures RewardValidator(v).None? <==> RewardTruthy(v) != LinkTruthy(v)
  {
  }

  /**
   * The mutual-exclusion rule tests key presence: an explicit null reward next
   * to a real link still counts as "both".
   */
  lemma NullRewardCountsAsPresent(v: Fields, link: HabitId)
    requires !PleasureTruthy(v)
    ensures RewardValidator(v.(pleasureHabit := Some(Some(link)), reward := Some(None)))
            == Some(RewardAndLinkTogether)
  {
  }

  /** The execution-time bound is inclusive, an absent key passes, and a passing value stays passing when lowered. */
  lemma ExecutionTimeBound(v: Fields, t: nat, t': nat)
    requires t' <= t
    ensures TimeToCompleteValidator(v.(executionTime := Some(MaxExecutionTime))).None?
    ensures TimeToCompleteValidator(v.(executionTime := Some(MaxExecutionTime + 1))).Some?
    ensures TimeToCompleteValidator(v.(executionTime := None)).None?
    ensures TimeToCompleteValidator(v.(executionTime := Some(t))).None? ==>
            TimeToCompleteValidator(v.(executionTime := Some(t'))).None?
  {
  }

  /** The periodicity bound is inclusive, an absent key passes, and a passing value stays passing when lowered. */
  lemma PeriodicityBound(v: Fields, d: nat, d': nat)
    requires d' <= d
    ensures PeriodicityValidator(v.(periodicity := Some(MaxPeriodicity))).None?
    ensures PeriodicityValidator(v.(periodicity := Some(MaxPeriodicity + 1))).Some?
    ensures PeriodicityValidator(v.(periodicity := None)).None?
    ensures PeriodicityValidator(v.(periodicity := Some(d))).None? ==>
            PeriodicityValidator(v.(periodicity := Some(d'))).None?
  {
  }

  /** PleasureHabitValidator reads only the store entry of the linked habit. */
  lemma PleasureHabitReadsOnlyLink(v: Fields, s1: map<HabitId, bool>, s2: map<HabitId, bool>)
    requires LinkResolves(v, s1) && LinkResolves(v, s2)
    requires LinkTruthy(v) ==> s1[v.pleasureHabit.value.value] == s2[v.pleasureHabit.value.value]
    ensures PleasureHabitValidator(v, s1) == PleasureHabitValidator(v, s2)
  {
  }

  /** Any patch with the key is_pleasure, even set to false, is refused once the habit has a reward or a link. */
  lemma PatchRefusesPleasureKey(h: Habit, p: Fields, b: bool)
    requires HasReward(h) || HasLink(h)
    ensures PatchValidator(h, p.(isPleasure := Some(b))) == Some(PleasureWhileRewardOrLink)
  {
  }
}
