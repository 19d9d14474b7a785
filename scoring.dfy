/** Answer scoring in `clean_single_df`: the answer key without the
    background page, the two-tier key lookup (by question id alone for the
    inserted questions, by page and question otherwise), the per-row score
    and expected answer, the running pretest tally, and the background
    answers broadcast as demographic columns. */
module Scoring {
  import opened Records

  const BackgroundPage: string := "Background Questions"

  /** Question ids inserted on several pretest pages and looked up by id alone. */
  const InsertedQuestions: set<string> := {"qID-11", "qID-12", "qID-13"}

  // ---------------------------------------------------------------------
  // The answer key

  /** `load_answer_key`: the key rows that are not on the background page. */
  function LoadAnswerKey(raw: seq<KeyRow>): (key: seq<KeyRow>)
    ensures |key| <= |raw|
    ensures forall r :: r in key <==> r in raw && r.pageName != BackgroundPage
  {
    if raw == [] then []
    else (if raw[0].pageName != BackgroundPage then [raw[0]] else []) + LoadAnswerKey(raw[1..])
  }

  /** Loading distributes over concatenation: the kept key rows keep
      their order, on which the first match depends, and their multiplicity. */
  lemma {:induction false} LoadAnswerKeyAppend(a: seq<KeyRow>, b: seq<KeyRow>)
    ensures LoadAnswerKey(a + b) == LoadAnswerKey(a) + LoadAnswerKey(b)
  {
    if a == [] {
      assert a + b == b;
    } else {
      assert (a + b)[0] == a[0];
      assert (a + b)[1..] == a[1..] + b;
      LoadAnswerKeyAppend(a[1..], b);
    }
  }

  /** `set(answer_key['pageName'])`. */
  function KeyPages(key: seq<KeyRow>): (pages: set<string>)
    ensures forall j :: 0 <= j < |key| ==> key[j].pageName in pages
  {
    set r | r in key :: r.pageName
  }

  /** Every key page is the page of some key row. */
  lemma KeyPagesFromRows(key: seq<KeyRow>, p: string)
    requires p in KeyPages(key)
    ensures exists j :: 0 <= j < |key| && key[j].pageName == p
  {
    var r :| r in key && r.pageName == p;
  }

  /** The key-row selection of the scoring loop: by question alone for an
      inserted question, by question and page otherwise. */
  predicate KeyMatches(k: KeyRow, page: string, question: string)
  {
    if question in InsertedQuestions then k.question == question
    else k.question == question && k.pageName == page
  }

  /** The index of the first key row from `from` on that matches. */
  function FirstMatch(key: seq<KeyRow>, page: string, question: string, from: nat): (r: Option<nat>)
    ensures r.Some? ==> from <= r.value < |key| && KeyMatches(key[r.value], page, question)
    ensures r.Some? ==> forall j :: from <= j < r.value ==> !KeyMatches(key[j], page, question)
    ensures r.None? ==> forall j :: from <= j < |key| ==> !KeyMatches(key[j], page, question)
    decreases |key| - from
  {
    if from >= |key| then None
    else if KeyMatches(key[from], page, question) then Some(from)
    else FirstMatch(key, page, question, from + 1)
  }

  /** The expected answer for a row, or none when its page is not in the
      key or no key row matches. */
  function Lookup(key: seq<KeyRow>, page: string, question: string): (r: Option<string>)
    ensures r.Some? <==> page in KeyPages(key) && exists j :: 0 <= j < |key| && KeyMatches(key[j], page, question)
    ensures r.Some? ==> exists j :: 0 <= j < |key| && KeyMatches(key[j], page, question) && key[j].answer == r.value
                                    && forall i :: 0 <= i < j ==> !KeyMatches(key[i], page, question)
  {
    if page !in KeyPages(key) then None
    else
      match FirstMatch(key, page, question, 0)
      case None => None
      case Some(j) => Some(key[j].answer)
  }

  /** An inserted question gets the same expected answer on every page of
      the key: the page it is answered on plays no part. */
  lemma InsertedIgnoresPage(key: seq<KeyRow>, page1: string, page2: string, question: string)
    requires question in InsertedQuestions
    requires page1 in KeyPages(key) && page2 in KeyPages(key)
    ensures Lookup(key, page1, question) == Lookup(key, page2, question)
  {
  }

  /** Any other question takes its expected answer from a key row of the
      row's own page. */
  lemma OtherQuestionsUseOwnPage(key: seq<KeyRow>, page: string, question: string)
    requires question !in InsertedQuestions
    requires Lookup(key, page, question).Some?
    ensures exists j :: 0 <= j < |key| && key[j].pageName == page && key[j].question == question
                        && key[j].answer == Lookup(key, page, question).value
  {
  }

  // ---------------------------------------------------------------------
  // Grading one row

  /** The score and the `key` column of one row. */
  datatype Graded = Graded(score: int, key: Option<string>)

  function Grade(row: Answer, key: seq<KeyRow>): (g: Graded)
    ensures g.score == 0 || g.score == 1
    ensures g.key == Lookup(key, row.pageName, row.question)
    ensures g.score == 1 <==> g.key == Some(row.answer)
    ensures g.key.None? ==> g.score == 0
  {
    match Lookup(key, row.pageName, row.question)
    case None => Graded(0, None)
    case Some(expected) => Graded(if expected == row.answer then 1 else 0, Some(expected))
  }

  /** Pretest and tutorial pages: names starting with `P` or `T`. */
  predicate IsPretestPage(page: string)
  {
    |page| > 0 && (page[0] == 'P' || page[0] == 'T')
  }

  /** A row that enters the pretest tally: matched in the key, on a pretest page. */
  predicate CountsForPretest(row: Answer, key: seq<KeyRow>)
  {
    Grade(row, key).key.Some? && IsPretestPage(row.pageName)
  }

  /** `p_answer` after the rows `rows`. */
  function PretestMatched(rows: seq<Answer>, key: seq<KeyRow>): nat
  {
    if rows == [] then 0
    else PretestMatched(rows[..|rows| - 1], key) + (if CountsForPretest(rows[|rows| - 1], key) then 1 else 0)
  }

  /** `pretest` after the rows `rows`. */
  function PretestCorrect(rows: seq<Answer>, key: seq<KeyRow>): nat
  {
    if rows == [] then 0
    else
      PretestCorrect(rows[..|rows| - 1], key)
      + (if CountsForPretest(rows[|rows| - 1], key) && Grade(rows[|rows| - 1], key).score == 1 then 1 else 0)
  }

  lemma {:induction false} PretestBounded(rows: seq<Answer>, key: seq<KeyRow>)
    ensures PretestCorrect(rows, key) <= PretestMatched(rows, key)
  {
    if rows != [] {
      PretestBounded(rows[..|rows| - 1], key);
    }
  }

  /** No pretest row was matched exactly when `p_answer` stays 0. */
  lemma {:induction false} PretestMatchedZero(rows: seq<Answer>, key: seq<KeyRow>)
    ensures PretestMatched(rows, key) == 0 <==> forall i :: 0 <= i < |rows| ==> !CountsForPretest(rows[i], key)
  {
    if rows != [] {
      var front := rows[..|rows| - 1];
      PretestMatchedZero(front, key);
      assert forall i :: 0 <= i < |front| ==> front[i] == rows[i];
    }
  }

  // ---------------------------------------------------------------------
  // The scoring loop

  /** Appends one score and one expected answer per row and keeps the
      pretest tally, as the loop over `final_df` does. */
  method ScoreRows(rows: seq<Answer>, key: seq<KeyRow>)
    returns (scores: seq<int>, keys: seq<Option<string>>, pretest: nat, pAnswer: nat)
    ensures |scores| == |rows| && |keys| == |rows|
    ensures forall i :: 0 <= i < |rows| ==> scores[i] == Grade(rows[i], key).score && keys[i] == Grade(rows[i], key).key
    ensures pretest == PretestCorrect(rows, key) && pAnswer == PretestMatched(rows, key)
    ensures pretest <= pAnswer
  {
    scores, keys := [], [];
    pretest, pAnswer := 0, 0;
    var pages := KeyPages(key);
    for n := 0 to |rows|
      invariant |scores| == n && |keys| == n
      invariant forall i :: 0 <= i < n ==> scores[i] == Grade(rows[i], key).score && keys[i] == Grade(rows[i], key).key
      invariant pretest == PretestCorrect(rows[..n], key) && pAnswer == PretestMatched(rows[..n], key)
      invariant pretest <= pAnswer
    {
      assert rows[..n + 1][..n] == rows[..n];
      var question, proof, a := rows[n].question, rows[n].pageName, rows[n].answer;
      if proof !in pages {
        assert Grade(rows[n], key) == Graded(0, None);
        scores, keys := scores + [0], keys + [None];
        continue;
      }
      var found := FirstMatch(key, proof, question, 0);
      if found.None? {
        assert Grade(rows[n], key) == Graded(0, None);
        scores, keys := scores + [0], keys + [None];
        continue;
      }
      var expected := key[found.value].answer;
      var correct := expected == a;
      assert Grade(rows[n], key) == Graded(if correct then 1 else 0, Some(expected));
      if IsPretestPage(proof) {
        pretest := pretest + (if correct then 1 else 0);
        pAnswer := pAnswer + 1;
      }
      scores, keys := scores + [if correct then 1 else 0], keys + [Some(expected)];
    }
    assert rows[..|rows|] == rows;
  }

  /** The broadcast `pretest` column, `pretest / p_answer`, which divides by
      zero when no pretest row was matched. */
  function PretestRatio(pretest: nat, pAnswer: nat): (r: Result<real, CleanError>)
    ensures r.Err? <==> pAnswer == 0
    ensures r.Err? ==> r.error == PretestDivisionByZero
    ensures r.Ok? ==> r.value * pAnswer as real == pretest as real
    ensures r.Ok? && pretest <= pAnswer ==> 0.0 <= r.value <= 1.0
  {
    if pAnswer == 0 then Err(PretestDivisionByZero)
    else Ok(pretest as real / pAnswer as real)
  }

  // ---------------------------------------------------------------------
  // Background answers

  datatype Demographics = Demographics(age: string, yearTaken: string, grade: string, track: string)

  predicate IsBackground(row: Answer, question: string)
  {
    row.pageName == BackgroundPage && row.question == question
  }

  /** The first background answer to `question` from row `from` on. */
  function BackgroundAnswer(rows: seq<Answer>, question: string, from: nat): (r: Option<string>)
    ensures r.None? <==> forall i :: from <= i < |rows| ==> !IsBackground(rows[i], question)
    ensures r.Some? ==> exists i :: from <= i < |rows| && IsBackground(rows[i], question) && rows[i].answer == r.value
                                    && forall j :: from <= j < i ==> !IsBackground(rows[j], question)
    decreases |rows| - from
  {
    if from >= |rows| then None
    else if IsBackground(rows[from], question) then Some(rows[from].answer)
    else BackgroundAnswer(rows, question, from + 1)
  }

  /** Age, year taken and grade must be present (`values[0]` fails
      otherwise, in that order); a missing track becomes "N/A". */
  function ReadDemographics(rows: seq<Answer>): (r: Result<Demographics, CleanError>)
    ensures r.Ok? <==> BackgroundAnswer(rows, "0", 0).Some? && BackgroundAnswer(rows, "1", 0).Some?
                       && BackgroundAnswer(rows, "2", 0).Some?
    ensures r.Err? ==> r.error == MissingBackground(
                         if BackgroundAnswer(rows, "0", 0).None? then "0"
                         else if BackgroundAnswer(rows, "1", 0).None? then "1" else "2")
    ensures r.Ok? && BackgroundAnswer(rows, "3", 0).None? ==> r.value.track == "N/A"
    ensures r.Ok? ==> r.value.age == BackgroundAnswer(rows, "0", 0).value
                      && r.value.yearTaken == BackgroundAnswer(rows, "1", 0).value
                      && r.value.grade == BackgroundAnswer(rows, "2", 0).value
    ensures r.Ok? && BackgroundAnswer(rows, "3", 0).Some? ==> r.value.track == BackgroundAnswer(rows, "3", 0).value
  {
    match (BackgroundAnswer(rows, "0", 0), BackgroundAnswer(rows, "1", 0), BackgroundAnswer(rows, "2", 0))
    case (None, _, _) => Err(MissingBackground("0"))
    case (Some(_), None, _) => Err(MissingBackground("1"))
    case (Some(_), Some(_), None) => Err(MissingBackground("2"))
    case (Some(age), Some(year), Some(grade)) =>
      var track := match BackgroundAnswer(rows, "3", 0) case Some(t) => t case None => "N/A";
      Ok(Demographics(age, year, grade, track))
  }
}
