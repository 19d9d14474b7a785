/** `clean_single_df` for one participant: the answers (sorted by time)
    joined with their window counts, scored against the key, given the
    elapsed time since the previous answer, then stripped of the SUS,
    background, pretest and tutorial rows. The participant-level values
    that the code broadcasts to every row (demographics, pretest ratio,
    the two SUS scores) are returned once beside the rows. */
module Cleaning {
  import opened Records
  import opened Tally
  import opened Scoring
  import opened Sus

  /** One row of the processed table. */
  datatype Row = Row(answer: Answer, counts: Counts, score: int, key: Option<string>, delta: int)

  /** The processed table and the values broadcast to all its rows. */
  datatype Cleaned = Cleaned(rows: seq<Row>, demographics: Demographics, pretest: real, staticSus: real, interSus: real)

  // ---------------------------------------------------------------------
  // `delta`

  /** The elapsed time since the previous answer, 0 for the first. */
  function Deltas(ts: seq<Time>): (d: seq<int>)
    ensures |d| == |ts|
    ensures Sorted(ts) ==> forall i :: 0 <= i < |d| ==> d[i] >= 0
  {
    seq(|ts|, i requires 0 <= i < |ts| => if i == 0 then 0 else ts[i] - ts[i - 1])
  }

  function Total(d: seq<int>): int
  {
    if d == [] then 0 else Total(d[..|d| - 1]) + d[|d| - 1]
  }

  /** The deltas give the answer times back: the first time plus the deltas
      up to and including row `i` is the time of row `i`. */
  lemma {:induction false} DeltasRebuildTimes(ts: seq<Time>, i: nat)
    requires i < |ts|
    ensures ts[0] + Total(Deltas(ts)[..i + 1]) == ts[i]
  {
    var d := Deltas(ts);
    if i > 0 {
      DeltasRebuildTimes(ts, i - 1);
      assert d[..i + 1][..i] == d[..i];
    } else {
      assert d[..1][..0] == [];
    }
  }

  // ---------------------------------------------------------------------
  // The final row filter

  const PretestPages: set<string> := {"P1", "P2", "P3", "P4", "P5", "P6", "P7"}
  const TutorialPages: set<string> := {"TutorialProof1", "TutorialProof2"}

  /** Every page the five `drop` calls remove. */
  const DroppedPages: set<string> := {StaticPage, InteractivePage, BackgroundPage} + PretestPages + TutorialPages

  /** `drop(rows on pages, inplace=True)`: the rows on other pages, in order. */
  function Without(rows: seq<Row>, pages: set<string>): (r: seq<Row>)
    ensures |r| <= |rows|
    ensures forall x :: x in r <==> x in rows && x.answer.pageName !in pages
  {
    if rows == [] then []
    else (if rows[0].answer.pageName in pages then [] else [rows[0]]) + Without(rows[1..], pages)
  }

  /** Dropping distributes over concatenation, so the kept rows keep their
      relative order. */
  lemma {:induction false} WithoutAppend(a: seq<Row>, b: seq<Row>, pages: set<string>)
    ensures Without(a + b, pages) == Without(a, pages) + Without(b, pages)
  {
    if a == [] {
      assert a + b == b;
    } else {
      assert (a + b)[0] == a[0];
      assert (a + b)[1..] == a[1..] + b;
      WithoutAppend(a[1..], b, pages);
    }
  }

  /** Two successive drops are one drop of both page sets. */
  lemma {:induction false} WithoutTwice(rows: seq<Row>, first: set<string>, second: set<string>)
    ensures Without(Without(rows, first), second) == Without(rows, first + second)
  {
    if rows != [] {
      WithoutTwice(rows[1..], first, second);
      var head := if rows[0].answer.pageName in first then [] else [rows[0]];
      WithoutAppend(head, Without(rows[1..], first), second);
    }
  }

  /** The five `drop` calls together drop exactly the listed pages. */
  lemma FiveDrops(rows: seq<Row>)
    ensures Without(Without(Without(Without(Without(rows, {StaticPage}), {InteractivePage}), {BackgroundPage}),
                            PretestPages), TutorialPages)
            == Without(rows, DroppedPages)
  {
    WithoutTwice(rows, {StaticPage}, {InteractivePage});
    WithoutTwice(rows, {StaticPage} + {InteractivePage}, {BackgroundPage});
    WithoutTwice(rows, {StaticPage} + {InteractivePage} + {BackgroundPage}, PretestPages);
    WithoutTwice(rows, {StaticPage} + {InteractivePage} + {BackgroundPage} + PretestPages, TutorialPages);
    assert {StaticPage} + {InteractivePage} + {BackgroundPage} + PretestPages + TutorialPages == DroppedPages;
  }

  // ---------------------------------------------------------------------
  // The whole of `clean_single_df`

  /** The table before the drops: one row per answer. */
  function Joined(answers: seq<Answer>, events: seq<Event>, key: seq<KeyRow>): (rows: seq<Row>)
    ensures |rows| == |answers|
  {
    var ts := Times(answers);
    var d := Deltas(ts);
    seq(|answers|, i requires 0 <= i < |answers| =>
      Row(answers[i], WindowCounts(ts, events, i), Grade(answers[i], key).score, Grade(answers[i], key).key, d[i]))
  }

  /** The counts joined to the answers on their time (`set_index('time')`). */
  function CountsColumn(ts: seq<Time>, tally: map<Time, Counts>): (counts: seq<Counts>)
    requires forall i :: 0 <= i < |ts| ==> ts[i] in tally
    ensures |counts| == |ts|
  {
    seq(|ts|, i requires 0 <= i < |ts| => tally[ts[i]])
  }

  /** The answer table with its added columns, row by row. */
  function Assemble(answers: seq<Answer>, counts: seq<Counts>, scores: seq<int>, keys: seq<Option<string>>, delta: seq<int>): (rows: seq<Row>)
    requires |counts| == |scores| == |keys| == |delta| == |answers|
    ensures |rows| == |answers|
  {
    seq(|answers|, i requires 0 <= i < |answers| => Row(answers[i], counts[i], scores[i], keys[i], delta[i]))
  }

  lemma AssembleIsJoined(answers: seq<Answer>, events: seq<Event>, key: seq<KeyRow>, tally: map<Time, Counts>,
                         scores: seq<int>, keys: seq<Option<string>>)
    requires forall t :: t in tally <==> t in Times(answers)
    requires forall i :: 0 <= i < |answers| ==> Times(answers)[i] in tally && tally[Times(answers)[i]] == WindowCounts(Times(answers), events, i)
    requires |scores| == |answers| && |keys| == |answers|
    requires forall i :: 0 <= i < |answers| ==> scores[i] == Grade(answers[i], key).score && keys[i] == Grade(answers[i], key).key
    ensures Assemble(answers, CountsColumn(Times(answers), tally), scores, keys, Deltas(Times(answers))) == Joined(answers, events, key)
  {
  }

  /** What `clean_single_df` produces, or the error that stops it: a missing
      background answer, then a pretest ratio with no pretest row, then a
      SUS answer that is not an integer. */
  function CleanSpec(answers: seq<Answer>, events: seq<Event>, rawKey: seq<KeyRow>): Result<Cleaned, CleanError>
  {
    var key := LoadAnswerKey(rawKey);
    match ReadDemographics(answers)
    case Err(e) => Err(e)
    case Ok(demo) =>
      match PretestRatio(PretestCorrect(answers, key), PretestMatched(answers, key))
      case Err(e) => Err(e)
      case Ok(ratio) =>
        match SusScores(answers)
        case Err(e) => Err(e)
        case Ok(sus) => Ok(Cleaned(Without(Joined(answers, events, key), DroppedPages), demo, ratio, sus.0, sus.1))
  }

  method CleanSingle(answers: seq<Answer>, events: seq<Event>, rawKey: seq<KeyRow>) returns (r: Result<Cleaned, CleanError>)
    requires StrictlyIncreasing(Times(answers))
    ensures r == CleanSpec(answers, events, rawKey)
  {
    var key := LoadAnswerKey(rawKey);
    var ts := Times(answers);
    var tally := TallyEvents(ts, events);

    var demo := ReadDemographics(answers);
    if demo.Err? {
      return Err(demo.error);
    }
    var scores, keys, pretest, pAnswer := ScoreRows(answers, key);
    var delta := Deltas(ts);
    var ratio := PretestRatio(pretest, pAnswer);
    if ratio.Err? {
      return Err(ratio.error);
    }
    var sus := SusScore(answers);
    if sus.Err? {
      return Err(sus.error);
    }

    var counts := CountsColumn(ts, tally);
    var rows := Assemble(answers, counts, scores, keys, delta);
    AssembleIsJoined(answers, events, key, tally, scores, keys);
    rows := Without(rows, {StaticPage});
    rows := Without(rows, {InteractivePage});
    rows := Without(rows, {BackgroundPage});
    rows := Without(rows, PretestPages);
    rows := Without(rows, TutorialPages);
    FiveDrops(Joined(answers, events, key));
    r := Ok(Cleaned(rows, demo.value, ratio.value, sus.value.0, sus.value.1));
  }

  /** The cleaning fails exactly when a background answer to question 0, 1
      or 2 is missing, when no pretest row was matched, or when a SUS answer
      is not an integer. */
  lemma CleanFails(answers: seq<Answer>, events: seq<Event>, rawKey: seq<KeyRow>)
    ensures CleanSpec(answers, events, rawKey).Err? <==>
              || ReadDemographics(answers).Err?
              || PretestMatched(answers, LoadAnswerKey(rawKey)) == 0
              || SusScores(answers).Err?
  {
  }

  /** Every row of the table before the drops holds one of the answers,
      its five count keys and its 0/1 score. */
  lemma JoinedRows(answers: seq<Answer>, events: seq<Event>, key: seq<KeyRow>)
    ensures forall row :: row in Joined(answers, events, key) ==>
              && row.answer in answers
              && row.counts.Keys == EventTypes
              && (row.score == 0 || row.score == 1)
              && (row.score == 1 <==> row.key == Some(row.answer.answer))
  {
    var all := Joined(answers, events, key);
    forall row | row in all
      ensures row.answer in answers && row.counts.Keys == EventTypes
              && (row.score == 0 || row.score == 1) && (row.score == 1 <==> row.key == Some(row.answer.answer))
    {
      var i :| 0 <= i < |all| && all[i] == row;
      assert row.counts == WindowCounts(Times(answers), events, i);
    }
  }

  /** Every row kept holds one of the participant's answers on a page that
      is not dropped, its five zero-filled counts, a 0/1 score that is 1
      exactly when the recorded key is the given answer, and the pretest
      ratio lies in 0..1. */
  lemma CleanedRows(answers: seq<Answer>, events: seq<Event>, rawKey: seq<KeyRow>)
    requires CleanSpec(answers, events, rawKey).Ok?
    ensures var c := CleanSpec(answers, events, rawKey).value;
            && 0.0 <= c.pretest <= 1.0
            && forall row :: row in c.rows ==>
                 && row.answer in answers
                 && row.answer.pageName !in DroppedPages
                 && row.counts.Keys == EventTypes
                 && (row.score == 0 || row.score == 1)
                 && (row.score == 1 <==> row.key == Some(row.answer.answer))
  {
    var key := LoadAnswerKey(rawKey);
    PretestBounded(answers, key);
    JoinedRows(answers, events, key);
  }
}
