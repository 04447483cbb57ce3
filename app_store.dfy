/** The app-wide store of `AppProvider`: the exam history, the achievements and
    the rule table that unlocks achievements after each result. */
module AppStore {
  import opened Wrappers
  import opened Records

  /** The five achievements the app starts with, all locked. */
  function DefaultAchievements(): seq<Achievement>
  {
    [ Achievement(1, "First Step", "Complete your first exam.", false),
      Achievement(2, "Ethics Virtuoso", "Score over 90% in an Ethics exam.", false),
      Achievement(3, "Quant Master", "Answer 50 Quants questions correctly.", false),
      Achievement(4, "Perfect Score", "Score 100% on any practice exam.", false),
      Achievement(5, "Dedicated Learner", "Complete 10 practice exams.", false) ]
  }

  /** The history at start-up: what storage held, or the empty list. */
  function InitialHistory(saved: Option<seq<ExamResult>>): seq<ExamResult>
  {
    if saved.Some? then saved.value else []
  }

  /** The achievements at start-up: what storage held, or the defaults. */
  function InitialAchievements(saved: Option<seq<Achievement>>): seq<Achievement>
  {
    if saved.Some? then saved.value else DefaultAchievements()
  }

  /** With nothing stored the history is empty and the achievements are the
      five defaults with ids 1 to 5 in order, all locked; what was stored is
      taken as it is. */
  lemma InitialStateFromStorage(savedHistory: Option<seq<ExamResult>>, savedAchievements: Option<seq<Achievement>>)
    ensures savedHistory.None? ==> InitialHistory(savedHistory) == []
    ensures savedHistory.Some? ==> InitialHistory(savedHistory) == savedHistory.value
    ensures savedAchievements.Some? ==> InitialAchievements(savedAchievements) == savedAchievements.value
    ensures savedAchievements.None? ==>
      var a := InitialAchievements(savedAchievements);
      |a| == 5 && (forall i :: 0 <= i < 5 ==> a[i].id == i + 1 && !a[i].unlocked)
  {
  }

  /** `Array.prototype.find` on the ids: the first achievement with id `id`. */
  function FindById(achievements: seq<Achievement>, id: int): (r: Option<Achievement>)
    ensures r.None? <==> forall i :: 0 <= i < |achievements| ==> achievements[i].id != id
    ensures r.Some? ==> exists i :: (0 <= i < |achievements| && achievements[i] == r.value
      && r.value.id == id && forall j :: 0 <= j < i ==> achievements[j].id != id)
  {
    if achievements == [] then None
    else if achievements[0].id == id then Some(achievements[0])
    else
      var r := FindById(achievements[1..], id);
      if r.Some? then
        ghost var i :| 0 <= i < |achievements[1..]| && achievements[1..][i] == r.value
          && r.value.id == id && forall j :: 0 <= j < i ==> achievements[1..][j].id != id;
        assert achievements[i + 1] == r.value;
        r
      else r
  }

  /** The `map` that sets `unlocked` on every achievement with id `id`. */
  function UnlockId(achievements: seq<Achievement>, id: int): seq<Achievement>
  {
    seq(|achievements|, i requires 0 <= i < |achievements| =>
      if achievements[i].id == id then achievements[i].(unlocked := true) else achievements[i])
  }

  /** One rule of the table: when `fires`, unlock every achievement with id `id`. */
  function UnlockIf(achievements: seq<Achievement>, id: int, fires: bool): seq<Achievement>
  {
    if fires then UnlockId(achievements, id) else achievements
  }

  lemma UnlockIfAt(achievements: seq<Achievement>, id: int, fires: bool, i: int)
    requires 0 <= i < |achievements|
    ensures |UnlockIf(achievements, id, fires)| == |achievements|
    ensures UnlockIf(achievements, id, fires)[i]
         == achievements[i].(unlocked := achievements[i].unlocked || (fires && achievements[i].id == id))
  {
  }

  /** Two achievement lists agree on everything but the `unlocked` flags. */
  ghost predicate SameShape(a: seq<Achievement>, b: seq<Achievement>) {
    && |a| == |b|
    && forall i :: 0 <= i < |a| ==>
         a[i].id == b[i].id && a[i].title == b[i].title && a[i].description == b[i].description
  }

  /** The rule table applied after `newResult`, where `allHistory` is the history
      including it. `None` stands for the `TypeError` the component raises when
      no achievement has id 1 (`find` yields `undefined`). */
  function CheckAchievements(newResult: ExamResult, allHistory: seq<ExamResult>, achievements: seq<Achievement>)
    : (r: Option<seq<Achievement>>)
    ensures r.None? <==> FindById(achievements, 1).None?
  {
    match FindById(achievements, 1)
    case None => None
    case Some(first) =>
      // First Step
      var a1 := UnlockIf(achievements, 1, !first.unlocked);
      // Ethics Virtuoso
      var a2 := UnlockIf(a1, 2, newResult.topic == "Ethics" && newResult.percentage >= 90.0);
      // Perfect Score
      var a4 := UnlockIf(a2, 4, newResult.percentage == 100.0);
      // Dedicated Learner
      var a5 := UnlockIf(a4, 5, |allHistory| >= 10);
      Some(a5)
  }

  /** The conditions of the rule table for achievements 2, 4 and 5. */
  predicate EthicsRule(newResult: ExamResult) {
    newResult.topic == "Ethics" && newResult.percentage >= 90.0
  }

  predicate PerfectRule(newResult: ExamResult) {
    newResult.percentage == 100.0
  }

  predicate VolumeRule(allHistory: seq<ExamResult>) {
    |allHistory| >= 10
  }

  /** What the rule table decides for the achievement at position `i`, given
      whether the first achievement with id 1 was already unlocked. */
  ghost predicate UnlockedAfter(a: Achievement, firstWasUnlocked: bool, newResult: ExamResult, allHistory: seq<ExamResult>) {
    || a.unlocked
    || (a.id == 1 && !firstWasUnlocked)
    || (a.id == 2 && EthicsRule(newResult))
    || (a.id == 4 && PerfectRule(newResult))
    || (a.id == 5 && VolumeRule(allHistory))
  }

  /** The rule table position by position: only `unlocked` changes, each flag
      ends up set exactly when it was set or its rule fires, and every
      achievement whose id has no rule (id 3 among them) is left as it was. */
  lemma CheckAchievementsEffect(newResult: ExamResult, allHistory: seq<ExamResult>, achievements: seq<Achievement>)
    requires CheckAchievements(newResult, allHistory, achievements).Some?
    ensures var r := CheckAchievements(newResult, allHistory, achievements).value;
      var firstWasUnlocked := FindById(achievements, 1).value.unlocked;
      && SameShape(achievements, r)
      && (forall i :: 0 <= i < |r| ==>
            r[i] == achievements[i].(unlocked := UnlockedAfter(achievements[i], firstWasUnlocked, newResult, allHistory)))
      && (forall i :: 0 <= i < |r| && achievements[i].id !in {1, 2, 4, 5} ==> r[i] == achievements[i])
  {
    var first := FindById(achievements, 1).value;
    var a1 := UnlockIf(achievements, 1, !first.unlocked);
    var a2 := UnlockIf(a1, 2, EthicsRule(newResult));
    var a4 := UnlockIf(a2, 4, PerfectRule(newResult));
    var a5 := UnlockIf(a4, 5, VolumeRule(allHistory));
    assert CheckAchievements(newResult, allHistory, achievements) == Some(a5);
    if |achievements| > 0 {
      UnlockIfAt(achievements, 1, !first.unlocked, 0);
      UnlockIfAt(a1, 2, EthicsRule(newResult), 0);
      UnlockIfAt(a2, 4, PerfectRule(newResult), 0);
      UnlockIfAt(a4, 5, VolumeRule(allHistory), 0);
    }
    forall i | 0 <= i < |achievements|
      ensures a5[i] == achievements[i].(unlocked := UnlockedAfter(achievements[i], first.unlocked, newResult, allHistory))
    {
      UnlockIfAt(achievements, 1, !first.unlocked, i);
      UnlockIfAt(a1, 2, EthicsRule(newResult), i);
      UnlockIfAt(a2, 4, PerfectRule(newResult), i);
      UnlockIfAt(a4, 5, VolumeRule(allHistory), i);
    }
  }

  /** After any result the first achievement with id 1 is unlocked (when ids
      are unique, that is the one achievement with id 1). */
  lemma FirstStepUnlocked(newResult: ExamResult, allHistory: seq<ExamResult>, achievements: seq<Achievement>, k: int)
    requires CheckAchievements(newResult, allHistory, achievements).Some?
    requires 0 <= k < |achievements| && achievements[k].id == 1
    requires forall j :: 0 <= j < k ==> achievements[j].id != 1
    ensures CheckAchievements(newResult, allHistory, achievements).value[k].unlocked
  {
    CheckAchievementsEffect(newResult, allHistory, achievements);
    var first := FindById(achievements, 1).value;
    var i :| 0 <= i < |achievements| && achievements[i] == first
      && first.id == 1 && forall j :: 0 <= j < i ==> achievements[j].id != 1;
    assert i == k;
  }

  /** Unlocking is monotonic: no rule ever locks an unlocked achievement. */
  lemma CheckAchievementsMonotone(newResult: ExamResult, allHistory: seq<ExamResult>, achievements: seq<Achievement>)
    requires CheckAchievements(newResult, allHistory, achievements).Some?
    ensures var r := CheckAchievements(newResult, allHistory, achievements).value;
      |r| == |achievements| && forall i :: 0 <= i < |r| && achievements[i].unlocked ==> r[i].unlocked
  {
    CheckAchievementsEffect(newResult, allHistory, achievements);
  }

  /** Achievement 3 ("Quant Master") has no rule and is never touched. */
  lemma QuantMasterUntouched(newResult: ExamResult, allHistory: seq<ExamResult>, achievements: seq<Achievement>)
    requires CheckAchievements(newResult, allHistory, achievements).Some?
    ensures var r := CheckAchievements(newResult, allHistory, achievements).value;
      |r| == |achievements| && forall i :: 0 <= i < |r| && achievements[i].id == 3 ==> r[i] == achievements[i]
  {
    CheckAchievementsEffect(newResult, allHistory, achievements);
  }

  /** Applying the rule table a second time with the same inputs changes nothing. */
  lemma CheckAchievementsIdempotent(newResult: ExamResult, allHistory: seq<ExamResult>, achievements: seq<Achievement>)
    requires CheckAchievements(newResult, allHistory, achievements).Some?
    ensures var r := CheckAchievements(newResult, allHistory, achievements).value;
      CheckAchievements(newResult, allHistory, r) == Some(r)
  {
    var r := CheckAchievements(newResult, allHistory, achievements).value;
    CheckAchievementsEffect(newResult, allHistory, achievements);
    var first := FindById(achievements, 1).value;
    var i :| 0 <= i < |achievements| && achievements[i] == first
      && first.id == 1 && forall j :: 0 <= j < i ==> achievements[j].id != 1;
    assert r[i].id == 1 && r[i].unlocked;
    assert forall j :: 0 <= j < i ==> r[j].id == achievements[j].id;
    FindFirstAt(r, 1, i);
    assert CheckAchievements(newResult, allHistory, r).Some?;
    CheckAchievementsEffect(newResult, allHistory, r);
    RuleTableStableList(achievements, r, CheckAchievements(newResult, allHistory, r).value,
                        first.unlocked, newResult, allHistory);
  }

  lemma RuleTableStableList(a: seq<Achievement>, once: seq<Achievement>, twice: seq<Achievement>,
                            firstWasUnlocked: bool, newResult: ExamResult, allHistory: seq<ExamResult>)
    requires |once| == |a| && |twice| == |once|
    requires forall i :: 0 <= i < |once| ==>
      once[i] == a[i].(unlocked := UnlockedAfter(a[i], firstWasUnlocked, newResult, allHistory))
    requires forall i :: 0 <= i < |once| ==>
      twice[i] == once[i].(unlocked := UnlockedAfter(once[i], true, newResult, allHistory))
    ensures twice == once
  {
    forall k | 0 <= k < |once| ensures twice[k] == once[k] {
      RuleTableStable(a[k], once[k], twice[k], firstWasUnlocked, newResult, allHistory);
    }
  }

  /** A flag the rule table has already decided is decided again the same way. */
  lemma RuleTableStable(a: Achievement, once: Achievement, twice: Achievement, firstWasUnlocked: bool,
                        newResult: ExamResult, allHistory: seq<ExamResult>)
    requires once == a.(unlocked := UnlockedAfter(a, firstWasUnlocked, newResult, allHistory))
    requires twice == once.(unlocked := UnlockedAfter(once, true, newResult, allHistory))
    ensures twice == once
  {
  }

  /** `find` returns the element at the first position with the id. */
  lemma FindFirstAt(achievements: seq<Achievement>, id: int, i: int)
    requires 0 <= i < |achievements| && achievements[i].id == id
    requires forall j :: 0 <= j < i ==> achievements[j].id != id
    ensures FindById(achievements, id) == Some(achievements[i])
  {
    var r := FindById(achievements, id);
    var k :| 0 <= k < |achievements| && achievements[k] == r.value
      && r.value.id == id && forall j :: 0 <= j < k ==> achievements[j].id != id;
    assert k == i;
  }

  /** The state of the `AppProvider`. */
  class AppProvider {
    var examHistory: seq<ExamResult>
    var achievements: seq<Achievement>

    /** Start from what storage held (`None` when a key is absent). */
    constructor (savedHistory: Option<seq<ExamResult>>, savedAchievements: Option<seq<Achievement>>)
      ensures examHistory == InitialHistory(savedHistory)
      ensures achievements == InitialAchievements(savedAchievements)
    {
      examHistory := InitialHistory(savedHistory);
      achievements := InitialAchievements(savedAchievements);
    }

    /** Append `result`, stamped with `now`, to the history and apply the rule
        table to the achievements with the history including the new result.
        `failed` reports the `TypeError` of a list without achievement 1; the
        history is still appended then and the achievements are left as they were. */
    method AddExamResult(result: ExamResult, now: string) returns (failed: bool)
      modifies this
      ensures examHistory == old(examHistory) + [result.(date := now)]
      ensures failed <==> FindById(old(achievements), 1).None?
      ensures var checked := CheckAchievements(result, old(examHistory) + [result], old(achievements));
        achievements == if checked.Some? then checked.value else old(achievements)
    {
      var allHistory := examHistory + [result];
      examHistory := examHistory + [result.(date := now)];
      var checked := CheckAchievements(result, allHistory, achievements);
      failed := checked.None?;
      if checked.Some? {
        achievements := checked.value;
      }
    }
  }
}
