/** The review screen of `ReviewMode`: the questions answered wrongly and the
    questions marked for review anywhere in the history, each question once. */
module Review {
  import opened Wrappers
  import opened Records
  import Exam

  /** The two review sessions on offer. */
  datatype ReviewKind = Incorrect | Marked

  /** Whether an answered question belongs to the review list of `kind`. */
  predicate Selects(kind: ReviewKind, q: AnsweredQuestion) {
    match kind
    case Incorrect => !q.isCorrect
    case Marked => q.markedForReview
  }

  /** Whether `q` belongs to `kind`'s list under the key `x`. */
  predicate Hit(kind: ReviewKind, q: AnsweredQuestion, x: int) {
    Selects(kind, q) && q.id == x
  }

  /** The keys of an insertion-ordered map of questions keyed by question id. */
  function Ids(entries: seq<AnsweredQuestion>): (ids: seq<int>)
    ensures |ids| == |entries|
    ensures forall p :: 0 <= p < |entries| ==> ids[p] == entries[p].id
  {
    seq(|entries|, p requires 0 <= p < |entries| => entries[p].id)
  }

  ghost predicate DistinctKeys(entries: seq<AnsweredQuestion>) {
    forall p1, p2 :: 0 <= p1 < p2 < |entries| ==> entries[p1].id != entries[p2].id
  }

  /** `Map.prototype.set(q.id, q)` on a map held as its values in insertion
      order: an existing key keeps its place and takes the new value, a new key
      goes at the end. */
  function MapSet(entries: seq<AnsweredQuestion>, q: AnsweredQuestion): seq<AnsweredQuestion>
  {
    if entries == [] then [q]
    else if entries[0].id == q.id then [q] + entries[1..]
    else [entries[0]] + MapSet(entries[1..], q)
  }

  lemma {:induction false} MapSetEffect(entries: seq<AnsweredQuestion>, q: AnsweredQuestion)
    requires DistinctKeys(entries)
    ensures q.id !in Ids(entries) ==> MapSet(entries, q) == entries + [q]
    ensures q.id in Ids(entries) ==>
      && |MapSet(entries, q)| == |entries|
      && forall p :: 0 <= p < |entries| ==>
           MapSet(entries, q)[p] == if entries[p].id == q.id then q else entries[p]
  {
    if entries != [] {
      var rest := entries[1..];
      assert forall p :: 1 <= p < |entries| ==> entries[p] == rest[p - 1];
      MapSetEffect(rest, q);
      if entries[0].id != q.id {
        assert q.id in Ids(entries) <==> q.id in Ids(rest);
      }
    }
  }

  /** Every answered question of the history, exam after exam. */
  function AllAnswered(history: seq<ExamResult>): seq<AnsweredQuestion>
  {
    if history == [] then []
    else AllAnswered(history[..|history| - 1]) + history[|history| - 1].answeredQuestions
  }

  /** The number of answered questions across the history. */
  function TotalAnswered(history: seq<ExamResult>): nat
  {
    if history == [] then 0
    else TotalAnswered(history[..|history| - 1]) + |history[|history| - 1].answeredQuestions|
  }

  lemma {:induction false} AllAnsweredLength(history: seq<ExamResult>)
    ensures |AllAnswered(history)| == TotalAnswered(history)
  {
    if history != [] {
      AllAnsweredLength(history[..|history| - 1]);
    }
  }

  /** The values of the map built by scanning `qs` in order and setting every
      question of `kind` under its id. */
  function Collect(kind: ReviewKind, qs: seq<AnsweredQuestion>): seq<AnsweredQuestion>
  {
    if qs == [] then []
    else
      var before := Collect(kind, qs[..|qs| - 1]);
      if Selects(kind, qs[|qs| - 1]) then MapSet(before, qs[|qs| - 1]) else before
  }

  /** The position of the first question of `kind` with id `x` in `qs`, or -1. */
  function FirstIndex(kind: ReviewKind, qs: seq<AnsweredQuestion>, x: int): (r: int)
    ensures -1 <= r < |qs|
  {
    if qs == [] then -1
    else
      var r := FirstIndex(kind, qs[..|qs| - 1], x);
      if r >= 0 then r
      else if Hit(kind, qs[|qs| - 1], x) then |qs| - 1
      else -1
  }

  /** The position of the last question of `kind` with id `x` in `qs`, or -1. */
  function LastIndex(kind: ReviewKind, qs: seq<AnsweredQuestion>, x: int): (r: int)
    ensures -1 <= r < |qs|
  {
    if qs == [] then -1
    else if Hit(kind, qs[|qs| - 1], x) then |qs| - 1
    else LastIndex(kind, qs[..|qs| - 1], x)
  }

  /** `FirstIndex` finds the first question of `kind` with id `x`, and -1 means there is none. */
  lemma {:induction false} FirstIndexMeaning(kind: ReviewKind, qs: seq<AnsweredQuestion>, x: int)
    ensures var r := FirstIndex(kind, qs, x);
      && (r >= 0 ==> Hit(kind, qs[r], x) && forall j :: 0 <= j < r ==> !Hit(kind, qs[j], x))
      && (r == -1 ==> forall j :: 0 <= j < |qs| ==> !Hit(kind, qs[j], x))
  {
    if qs != [] {
      var pre := qs[..|qs| - 1];
      FirstIndexMeaning(kind, pre, x);
      assert forall j :: 0 <= j < |pre| ==> qs[j] == pre[j];
    }
  }

  /** `LastIndex` finds the last question of `kind` with id `x`, and -1 means there is none. */
  lemma {:induction false} LastIndexMeaning(kind: ReviewKind, qs: seq<AnsweredQuestion>, x: int)
    ensures var r := LastIndex(kind, qs, x);
      && (r >= 0 ==> Hit(kind, qs[r], x) && forall j :: r < j < |qs| ==> !Hit(kind, qs[j], x))
      && (r == -1 ==> forall j :: 0 <= j < |qs| ==> !Hit(kind, qs[j], x))
  {
    if qs != [] {
      var pre := qs[..|qs| - 1];
      LastIndexMeaning(kind, pre, x);
      assert forall j :: 0 <= j < |pre| ==> qs[j] == pre[j];
    }
  }

  /** What the scan has built after reading `qs`: one entry per distinct id of
      a question of `kind`, the entries ordered by where their id first occurs,
      each entry the last question of `kind` read under that id, and never more
      entries than questions read. */
  ghost predicate ScanInvariant(kind: ReviewKind, qs: seq<AnsweredQuestion>, c: seq<AnsweredQuestion>) {
    ScanKeys(kind, qs, c) && ScanLast(kind, qs, c) && ScanOrder(kind, qs, c)
  }

  /** The keys: distinct, no more than the questions read, and exactly the ids
      of the questions of `kind` read so far. */
  ghost predicate ScanKeys(kind: ReviewKind, qs: seq<AnsweredQuestion>, c: seq<AnsweredQuestion>) {
    && |c| <= |qs|
    && DistinctKeys(c)
    && (forall x :: x in Ids(c) <==> FirstIndex(kind, qs, x) >= 0)
  }

  /** Each entry is the last question of `kind` read under its id. */
  ghost predicate ScanLast(kind: ReviewKind, qs: seq<AnsweredQuestion>, c: seq<AnsweredQuestion>) {
    forall p :: 0 <= p < |c| ==>
      LastIndex(kind, qs, c[p].id) >= 0 && c[p] == qs[LastIndex(kind, qs, c[p].id)]
  }

  /** The entries are ordered by where their id first occurs. */
  ghost predicate ScanOrder(kind: ReviewKind, qs: seq<AnsweredQuestion>, c: seq<AnsweredQuestion>) {
    forall p1, p2 :: 0 <= p1 < p2 < |c| ==>
      FirstIndex(kind, qs, c[p1].id) < FirstIndex(kind, qs, c[p2].id)
  }

  /** Reading one more question moves the first and last positions as expected. */
  lemma IndexStep(kind: ReviewKind, qs: seq<AnsweredQuestion>, x: int)
    requires qs != []
    ensures var n := |qs| - 1;
      var pre := qs[..n];
      && FirstIndex(kind, qs, x) == (if FirstIndex(kind, pre, x) >= 0 then FirstIndex(kind, pre, x)
                                     else if Hit(kind, qs[n], x) then n else -1)
      && LastIndex(kind, qs, x) == (if Hit(kind, qs[n], x) then n else LastIndex(kind, pre, x))
  {
  }

  /** A question not of `kind` leaves the map as it was. */
  lemma StepSkip(kind: ReviewKind, qs: seq<AnsweredQuestion>, c: seq<AnsweredQuestion>)
    requires qs != [] && !Selects(kind, qs[|qs| - 1])
    requires ScanInvariant(kind, qs[..|qs| - 1], c)
    ensures ScanInvariant(kind, qs, c)
  {
    var n := |qs| - 1;
    forall x ensures FirstIndex(kind, qs, x) == FirstIndex(kind, qs[..n], x)
      && LastIndex(kind, qs, x) == LastIndex(kind, qs[..n], x) {
      IndexStep(kind, qs, x);
    }
    assert forall j :: 0 <= j < n ==> qs[j] == qs[..n][j];
  }

  /** A question of `kind` whose id is already a key replaces that entry in place. */
  lemma StepUpdate(kind: ReviewKind, qs: seq<AnsweredQuestion>, c: seq<AnsweredQuestion>)
    requires qs != [] && Selects(kind, qs[|qs| - 1]) && qs[|qs| - 1].id in Ids(c)
    requires ScanInvariant(kind, qs[..|qs| - 1], c)
    ensures ScanInvariant(kind, qs, MapSet(c, qs[|qs| - 1]))
  {
    var n := |qs| - 1;
    var q := qs[n];
    MapSetEffect(c, q);
    var c' := MapSet(c, q);
    forall x ensures FirstIndex(kind, qs, x) == FirstIndex(kind, qs[..n], x)
      && LastIndex(kind, qs, x) == (if x == q.id then n else LastIndex(kind, qs[..n], x)) {
      IndexStep(kind, qs, x);
    }
    assert forall p :: 0 <= p < |c'| ==> c'[p].id == c[p].id;
    UpdateKeysOrder(kind, qs, c, c');
    UpdateLast(kind, qs, c, c');
  }

  lemma UpdateKeysOrder(kind: ReviewKind, qs: seq<AnsweredQuestion>, c: seq<AnsweredQuestion>, c': seq<AnsweredQuestion>)
    requires qs != [] && |c'| == |c|
    requires forall p :: 0 <= p < |c| ==> c'[p].id == c[p].id
    requires ScanKeys(kind, qs[..|qs| - 1], c) && ScanOrder(kind, qs[..|qs| - 1], c)
    requires forall x :: FirstIndex(kind, qs, x) == FirstIndex(kind, qs[..|qs| - 1], x)
    ensures ScanKeys(kind, qs, c') && ScanOrder(kind, qs, c')
  {
    assert Ids(c') == Ids(c);
  }

  lemma UpdateLast(kind: ReviewKind, qs: seq<AnsweredQuestion>, c: seq<AnsweredQuestion>, c': seq<AnsweredQuestion>)
    requires qs != [] && |c'| == |c|
    requires forall p :: 0 <= p < |c| ==> c'[p] == if c[p].id == qs[|qs| - 1].id then qs[|qs| - 1] else c[p]
    requires ScanLast(kind, qs[..|qs| - 1], c)
    requires (forall x :: LastIndex(kind, qs, x) == (if x == qs[|qs| - 1].id then |qs| - 1 else LastIndex(kind, qs[..|qs| - 1], x)))
    ensures ScanLast(kind, qs, c')
  {
    var n := |qs| - 1;
    assert forall j :: 0 <= j < n ==> qs[j] == qs[..n][j];
    forall p | 0 <= p < |c'|
      ensures LastIndex(kind, qs, c'[p].id) >= 0 && c'[p] == qs[LastIndex(kind, qs, c'[p].id)]
    {
      if c[p].id == qs[n].id {
        assert c'[p] == qs[n];
      } else {
        assert c'[p] == c[p];
      }
    }
  }

  /** A question of `kind` under a new id goes at the end. */
  lemma StepAppend(kind: ReviewKind, qs: seq<AnsweredQuestion>, c: seq<AnsweredQuestion>)
    requires qs != [] && Selects(kind, qs[|qs| - 1]) && qs[|qs| - 1].id !in Ids(c)
    requires ScanInvariant(kind, qs[..|qs| - 1], c)
    ensures ScanInvariant(kind, qs, MapSet(c, qs[|qs| - 1]))
  {
    var n := |qs| - 1;
    var q := qs[n];
    MapSetEffect(c, q);
    assert MapSet(c, q) == c + [q];
    forall x ensures FirstIndex(kind, qs, x) == (if x == q.id then n else FirstIndex(kind, qs[..n], x))
      && LastIndex(kind, qs, x) == (if x == q.id then n else LastIndex(kind, qs[..n], x)) {
      IndexStep(kind, qs, x);
    }
    AppendKeys(kind, qs, c);
    AppendLast(kind, qs, c);
    AppendOrder(kind, qs, c);
  }

  lemma AppendKeys(kind: ReviewKind, qs: seq<AnsweredQuestion>, c: seq<AnsweredQuestion>)
    requires qs != [] && qs[|qs| - 1].id !in Ids(c)
    requires ScanKeys(kind, qs[..|qs| - 1], c)
    requires (forall x :: FirstIndex(kind, qs, x) == (if x == qs[|qs| - 1].id then |qs| - 1 else FirstIndex(kind, qs[..|qs| - 1], x)))
    ensures ScanKeys(kind, qs, c + [qs[|qs| - 1]])
  {
    var q := qs[|qs| - 1];
    var c' := c + [q];
    assert Ids(c') == Ids(c) + [q.id];
    forall x ensures x in Ids(c') <==> FirstIndex(kind, qs, x) >= 0 {
      assert x in Ids(c') <==> x in Ids(c) || x == q.id;
    }
    forall p1, p2 | 0 <= p1 < p2 < |c'| ensures c'[p1].id != c'[p2].id {
      assert c'[p1] == c[p1] && c[p1].id in Ids(c);
    }
  }

  lemma AppendLast(kind: ReviewKind, qs: seq<AnsweredQuestion>, c: seq<AnsweredQuestion>)
    requires qs != [] && qs[|qs| - 1].id !in Ids(c)
    requires ScanLast(kind, qs[..|qs| - 1], c)
    requires (forall x :: LastIndex(kind, qs, x) == (if x == qs[|qs| - 1].id then |qs| - 1 else LastIndex(kind, qs[..|qs| - 1], x)))
    ensures ScanLast(kind, qs, c + [qs[|qs| - 1]])
  {
    var n := |qs| - 1;
    var q := qs[n];
    var c' := c + [q];
    assert forall j :: 0 <= j < n ==> qs[j] == qs[..n][j];
    forall p | 0 <= p < |c'|
      ensures LastIndex(kind, qs, c'[p].id) >= 0 && c'[p] == qs[LastIndex(kind, qs, c'[p].id)]
    {
      if p < |c| {
        assert c'[p] == c[p] && c[p].id != q.id;
      }
    }
  }

  lemma AppendOrder(kind: ReviewKind, qs: seq<AnsweredQuestion>, c: seq<AnsweredQuestion>)
    requires qs != [] && qs[|qs| - 1].id !in Ids(c)
    requires ScanKeys(kind, qs[..|qs| - 1], c) && ScanOrder(kind, qs[..|qs| - 1], c)
    requires (forall x :: FirstIndex(kind, qs, x) == (if x == qs[|qs| - 1].id then |qs| - 1 else FirstIndex(kind, qs[..|qs| - 1], x)))
    ensures ScanOrder(kind, qs, c + [qs[|qs| - 1]])
  {
    var n := |qs| - 1;
    var q := qs[n];
    var c' := c + [q];
    forall p1, p2 | 0 <= p1 < p2 < |c'|
      ensures FirstIndex(kind, qs, c'[p1].id) < FirstIndex(kind, qs, c'[p2].id)
    {
      assert c'[p1] == c[p1] && c[p1].id in Ids(c) && c[p1].id != q.id;
      if p2 < |c| {
        assert c'[p2] == c[p2] && c[p2].id != q.id;
      } else {
        assert c'[p2] == q;
      }
    }
  }

  /** The scan's result meets the scan invariant. */
  lemma {:induction false} CollectSpec(kind: ReviewKind, qs: seq<AnsweredQuestion>)
    ensures ScanInvariant(kind, qs, Collect(kind, qs))
  {
    if qs != [] {
      var n := |qs| - 1;
      CollectSpec(kind, qs[..n]);
      var c0 := Collect(kind, qs[..n]);
      if !Selects(kind, qs[n]) {
        StepSkip(kind, qs, c0);
      } else if qs[n].id in Ids(c0) {
        StepUpdate(kind, qs, c0);
      } else {
        StepAppend(kind, qs, c0);
      }
    }
  }

  /** An id is in the list of `kind` exactly when some answered question of
      `kind` in the history carries it; no id is there twice; the list is no
      longer than the number of answered questions in the history. */
  lemma ReviewListContents(kind: ReviewKind, history: seq<ExamResult>)
    ensures var qs := AllAnswered(history);
      var c := Collect(kind, qs);
      && DistinctKeys(c)
      && (forall x :: x in Ids(c) <==> exists j :: 0 <= j < |qs| && Selects(kind, qs[j]) && qs[j].id == x)
      && |c| <= TotalAnswered(history)
  {
    var qs := AllAnswered(history);
    CollectSpec(kind, qs);
    AllAnsweredLength(history);
    forall x ensures FirstIndex(kind, qs, x) >= 0 <==> exists j :: 0 <= j < |qs| && Selects(kind, qs[j]) && qs[j].id == x {
      FirstIndexMeaning(kind, qs, x);
      if FirstIndex(kind, qs, x) >= 0 {
        assert Hit(kind, qs[FirstIndex(kind, qs, x)], x);
      }
    }
  }

  /** Each entry is a question of `kind` from the history that no later
      question of `kind` with the same id follows: the last answer wins. */
  lemma ReviewListLastWins(kind: ReviewKind, history: seq<ExamResult>, p: int)
    requires 0 <= p < |Collect(kind, AllAnswered(history))|
    ensures var qs := AllAnswered(history);
      var e := Collect(kind, qs)[p];
      exists j :: 0 <= j < |qs| && qs[j] == e && Selects(kind, e)
        && forall k :: j < k < |qs| ==> !Hit(kind, qs[k], e.id)
  {
    var qs := AllAnswered(history);
    var e := Collect(kind, qs)[p];
    CollectSpec(kind, qs);
    LastIndexMeaning(kind, qs, e.id);
    var j := LastIndex(kind, qs, e.id);
    assert qs[j] == e && Hit(kind, qs[j], e.id);
  }

  /** The entries keep the order in which their ids first appear in the history. */
  lemma ReviewListOrder(kind: ReviewKind, history: seq<ExamResult>, p1: int, p2: int)
    requires 0 <= p1 < p2 < |Collect(kind, AllAnswered(history))|
    ensures var qs := AllAnswered(history);
      var c := Collect(kind, qs);
      exists j2 :: 0 <= j2 < |qs| && Hit(kind, qs[j2], c[p2].id)
        && (exists j1 :: 0 <= j1 < j2 && Hit(kind, qs[j1], c[p1].id))
        && forall k :: 0 <= k < j2 ==> !Hit(kind, qs[k], c[p2].id)
  {
    var qs := AllAnswered(history);
    var c := Collect(kind, qs);
    CollectSpec(kind, qs);
    FirstIndexMeaning(kind, qs, c[p1].id);
    FirstIndexMeaning(kind, qs, c[p2].id);
    assert c[p1].id in Ids(c) && c[p2].id in Ids(c);
    var j1 := FirstIndex(kind, qs, c[p1].id);
    var j2 := FirstIndex(kind, qs, c[p2].id);
    assert Hit(kind, qs[j1], c[p1].id) && j1 < j2;
  }

  /** The two lists are built independently: a question answered wrongly and
      marked for review is in both. */
  lemma InBothLists(history: seq<ExamResult>, j: int)
    requires 0 <= j < |AllAnswered(history)|
    requires !AllAnswered(history)[j].isCorrect && AllAnswered(history)[j].markedForReview
    ensures AllAnswered(history)[j].id in Ids(Collect(Incorrect, AllAnswered(history)))
    ensures AllAnswered(history)[j].id in Ids(Collect(Marked, AllAnswered(history)))
  {
    ReviewListContents(Incorrect, history);
    ReviewListContents(Marked, history);
    assert Selects(Incorrect, AllAnswered(history)[j]) && Selects(Marked, AllAnswered(history)[j]);
  }

  /** Scanning one more question. */
  lemma CollectSnoc(kind: ReviewKind, done: seq<AnsweredQuestion>, q: AnsweredQuestion)
    ensures Collect(kind, done + [q]) == if Selects(kind, q) then MapSet(Collect(kind, done), q) else Collect(kind, done)
  {
    var s := done + [q];
    assert s[..|s| - 1] == done && s[|s| - 1] == q;
  }

  /** Scanning one more exam. */
  lemma AllAnsweredSnoc(history: seq<ExamResult>, e: int)
    requires 0 <= e < |history|
    ensures AllAnswered(history[..e + 1]) == AllAnswered(history[..e]) + history[e].answeredQuestions
  {
    assert history[..e + 1][..e] == history[..e];
  }

  /** The inner `forEach` over one exam's answered questions, continuing the
      two maps built from the questions `done` scanned before it. */
  method ScanExam(done: seq<AnsweredQuestion>, qs: seq<AnsweredQuestion>,
                  incorrect0: seq<AnsweredQuestion>, marked0: seq<AnsweredQuestion>)
    returns (incorrect: seq<AnsweredQuestion>, marked: seq<AnsweredQuestion>)
    requires incorrect0 == Collect(Incorrect, done) && marked0 == Collect(Marked, done)
    ensures incorrect == Collect(Incorrect, done + qs)
    ensures marked == Collect(Marked, done + qs)
  {
    incorrect, marked := incorrect0, marked0;
    var k := 0;
    assert done + qs[..k] == done;
    while k < |qs|
      invariant 0 <= k <= |qs|
      invariant incorrect == Collect(Incorrect, done + qs[..k])
      invariant marked == Collect(Marked, done + qs[..k])
    {
      var q := qs[k];
      CollectSnoc(Incorrect, done + qs[..k], q);
      CollectSnoc(Marked, done + qs[..k], q);
      if !q.isCorrect {
        incorrect := MapSet(incorrect, q);
      }
      if q.markedForReview {
        marked := MapSet(marked, q);
      }
      assert done + qs[..k + 1] == (done + qs[..k]) + [q];
      k := k + 1;
    }
    assert qs[..k] == qs;
  }

  /** The `reviewableQuestions` scan: every exam, every answered question, each
      set into the "incorrect" map when answered wrongly and into the "marked"
      map when marked for review. */
  method ReviewableQuestions(history: seq<ExamResult>)
    returns (incorrect: seq<AnsweredQuestion>, marked: seq<AnsweredQuestion>)
    ensures incorrect == Collect(Incorrect, AllAnswered(history))
    ensures marked == Collect(Marked, AllAnswered(history))
  {
    incorrect, marked := [], [];
    var e := 0;
    while e < |history|
      invariant 0 <= e <= |history|
      invariant incorrect == Collect(Incorrect, AllAnswered(history[..e]))
      invariant marked == Collect(Marked, AllAnswered(history[..e]))
    {
      AllAnsweredSnoc(history, e);
      incorrect, marked := ScanExam(AllAnswered(history[..e]), history[e].answeredQuestions, incorrect, marked);
      e := e + 1;
    }
    assert history[..e] == history;
  }

  /** A review option is disabled when its list is empty. */
  function IsDisabled(list: seq<AnsweredQuestion>): bool
  {
    |list| == 0
  }

  /** An option is disabled exactly when no answered question in the history is of its kind. */
  lemma DisabledIffNoneOfKind(kind: ReviewKind, history: seq<ExamResult>)
    ensures IsDisabled(Collect(kind, AllAnswered(history))) <==>
      forall j :: 0 <= j < |AllAnswered(history)| ==> !Selects(kind, AllAnswered(history)[j])
  {
    var qs := AllAnswered(history);
    var c := Collect(kind, qs);
    ReviewListContents(kind, history);
    assert c != [] ==> c[0].id in Ids(c);

    assert forall j :: 0 <= j < |qs| && Selects(kind, qs[j]) ==> qs[j].id in Ids(c);
  }

  /** The state of the `ReviewMode` screen over the history it reads. */
  class ReviewMode {
    const examHistory: seq<ExamResult>
    var reviewType: Option<ReviewKind>
    var sessionQuestions: seq<AnsweredQuestion>

    constructor (history: seq<ExamResult>)
      ensures examHistory == history && reviewType == None && sessionQuestions == []
    {
      examHistory := history;
      reviewType := None;
      sessionQuestions := [];
    }

    /** Start a review of `kind`: the session holds exactly that list. */
    method StartReviewSession(kind: ReviewKind)
      modifies this
      ensures reviewType == Some(kind)
      ensures sessionQuestions == Collect(kind, AllAnswered(examHistory))
    {
      var incorrect, marked := ReviewableQuestions(examHistory);
      reviewType := Some(kind);
      sessionQuestions := if kind == Incorrect then incorrect else marked;
    }

    /** The screen hands over to the exam component once a review type is chosen. */
    function ShowsExam(): bool
      reads this
    {
      reviewType.Some?
    }

    /** The exam component the screen hands over to. It takes no review
        questions: it opens on its own setup screen over the whole pool, and
        the session questions play no part in it. */
    method OpenReviewExam(pool: seq<Exam.Question>) returns (exam: Exam.ExamInterface)
      requires ShowsExam()
      ensures fresh(exam) && exam.Valid()
      ensures exam.questionsData == pool && exam.filteredQuestions == []
      ensures exam.CurrentPhase() == Exam.Setup
    {
      exam := new Exam.ExamInterface(pool);
    }
  }
}
