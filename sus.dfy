/** The usability (SUS) score of `sus_score`: the rows of one SUS page,
    selected with their row index in the whole table, are summed with
    alternating polarity into `even` and `odd`, and the score is
    `2.5 * odd + even`. Beside the code as written, `StandardSus` is the
    conventional score (2.5 times the sum of contributions, polarity by the
    item's position on the page). */
module Sus {
  import opened Records

  const StaticPage: string := "Static SUS"
  const InteractivePage: string := "Interactive SUS"

  // ---------------------------------------------------------------------
  // `int(row['answer'])`

  predicate IsDigit(ch: char)
  {
    '0' <= ch <= '9'
  }

  predicate AllDigits(s: string)
  {
    |s| > 0 && forall i :: 0 <= i < |s| ==> IsDigit(s[i])
  }

  function DigitValue(ch: char): nat
    requires IsDigit(ch)
  {
    (ch as int) - ('0' as int)
  }

  function DigitsValue(s: string): nat
    requires forall i :: 0 <= i < |s| ==> IsDigit(s[i])
  {
    if s == [] then 0 else DigitsValue(s[..|s| - 1]) * 10 + DigitValue(s[|s| - 1])
  }

  /** A decimal integer with an optional sign, or none (a ValueError). */
  function ParseInt(s: string): (r: Option<int>)
    ensures r.Some? <==> AllDigits(s) || (|s| >= 2 && (s[0] == '+' || s[0] == '-') && AllDigits(s[1..]))
    ensures |s| == 1 && IsDigit(s[0]) ==> r == Some(DigitValue(s[0]))
  {
    if AllDigits(s) then
      assert |s| == 1 ==> s[..0] == [] && DigitsValue(s[..0]) == 0;
      Some(DigitsValue(s))
    else if |s| >= 2 && s[0] == '+' && AllDigits(s[1..]) then Some(DigitsValue(s[1..]))
    else if |s| >= 2 && s[0] == '-' && AllDigits(s[1..]) then
      var magnitude: int := DigitsValue(s[1..]);
      Some(-magnitude)
    else None
  }

  /** The decimal digits of `n`, the form in which a number is logged. */
  function ShowNat(n: nat): (s: string)
    ensures AllDigits(s)
  {
    if n < 10 then ['0' + n as char] else ShowNat(n / 10) + ['0' + (n % 10) as char]
  }

  lemma {:induction false} DigitsOfShowNat(n: nat)
    ensures DigitsValue(ShowNat(n)) == n
  {
    var s := ShowNat(n);
    if n >= 10 {
      DigitsOfShowNat(n / 10);
      assert s[..|s| - 1] == ShowNat(n / 10);
    }
  }

  /** A sign in front of a logged number is read as its sign. */
  lemma ParseSigned(n: nat)
    ensures ParseInt("+" + ShowNat(n)) == Some(n)
    ensures ParseInt("-" + ShowNat(n)) == Some(-(n as int))
  {
    DigitsOfShowNat(n);
    var plus, minus := "+" + ShowNat(n), "-" + ShowNat(n);
    assert plus[1..] == ShowNat(n) && !IsDigit(plus[0]);
    assert minus[1..] == ShowNat(n) && !IsDigit(minus[0]);
  }

  /** Parsing reads back every logged number. */
  lemma ParseShowNat(n: nat)
    ensures ParseInt(ShowNat(n)) == Some(n)
  {
    DigitsOfShowNat(n);
  }

  // ---------------------------------------------------------------------
  // `add_scores`

  /** A row of `df.loc[df['pageName'] == page]`: its index in the whole
      table and its answer. */
  datatype Item = Item(index: nat, answer: string)

  /** The rows of one page, with the index each has in the whole table. */
  function PageItems(rows: seq<Answer>, page: string): (items: seq<Item>)
    ensures |items| <= |rows|
    ensures forall k :: 0 <= k < |items| ==> items[k].index < |rows| && rows[items[k].index].pageName == page
                                              && rows[items[k].index].answer == items[k].answer
    ensures forall i :: 0 <= i < |rows| && rows[i].pageName == page ==> exists k :: 0 <= k < |items| && items[k].index == i
    ensures forall k, l :: 0 <= k < l < |items| ==> items[k].index < items[l].index
  {
    if rows == [] then []
    else
      var front := rows[..|rows| - 1];
      assert forall i :: 0 <= i < |front| ==> front[i] == rows[i];
      var prev := PageItems(front, page);
      var last := if rows[|rows| - 1].pageName == page then [Item(|rows| - 1, rows[|rows| - 1].answer)] else [];
      assert forall k :: 0 <= k < |prev| ==> (prev + last)[k] == prev[k];
      assert last != [] ==> (prev + last)[|prev|].index == |rows| - 1;
      prev + last
  }

  datatype Sums = Sums(even: int, odd: int)

  /** One row's contribution: a row with an odd index adds `5 - v` to
      `even`, a row with an even index adds `v - 1` to `odd`. */
  function Contribute(s: Sums, index: nat, v: int): Sums
  {
    if (index + 1) % 2 == 0 then Sums(s.even + 5 - v, s.odd) else Sums(s.even, s.odd + v - 1)
  }

  /** The `(even, odd)` sums of the items, or the error of the first item
      whose answer is not an integer. */
  function SumsOf(items: seq<Item>): Result<Sums, CleanError>
  {
    if items == [] then Ok(Sums(0, 0))
    else
      match SumsOf(items[..|items| - 1])
      case Err(e) => Err(e)
      case Ok(s) =>
        var last := items[|items| - 1];
        match ParseInt(last.answer)
        case None => Err(SusNotInteger(last.index))
        case Some(v) => Ok(Contribute(s, last.index, v))
  }

  lemma {:induction false} ErrorPersists(items: seq<Item>, n: nat)
    requires n <= |items| && SumsOf(items[..n]).Err?
    ensures SumsOf(items) == SumsOf(items[..n])
    decreases |items| - n
  {
    if n < |items| {
      assert items[..n + 1][..n] == items[..n];
      ErrorPersists(items, n + 1);
    } else {
      assert items[..n] == items;
    }
  }

  /** The loop of `add_scores`, stopping at the first answer that is not an integer. */
  method AddScores(items: seq<Item>) returns (r: Result<Sums, CleanError>)
    ensures r == SumsOf(items)
  {
    var even, odd := 0, 0;
    for k := 0 to |items|
      invariant SumsOf(items[..k]) == Ok(Sums(even, odd))
    {
      assert items[..k + 1][..k] == items[..k];
      var idx := items[k].index;
      var v := ParseInt(items[k].answer);
      if v.None? {
        ErrorPersists(items, k + 1);
        return Err(SusNotInteger(idx));
      }
      if (idx + 1) % 2 == 0 {
        even := even + 5 - v.value;
      } else {
        odd := odd + v.value - 1;
      }
    }
    assert items[..|items|] == items;
    r := Ok(Sums(even, odd));
  }

  /** `calculate_sus`: the factor 2.5 applies to `odd` only. */
  function CalculateSus(s: Sums): (score: real)
    ensures score == 2.5 * (s.odd + s.even) as real <==> s.even == 0
    ensures 0 <= s.odd && 0 <= s.even ==> 0.0 <= score
  {
    2.5 * s.odd as real + s.even as real
  }

  /** The static and the interactive score, static first. */
  function SusScores(rows: seq<Answer>): Result<(real, real), CleanError>
  {
    match SumsOf(PageItems(rows, StaticPage))
    case Err(e) => Err(e)
    case Ok(s) =>
      match SumsOf(PageItems(rows, InteractivePage))
      case Err(e) => Err(e)
      case Ok(t) => Ok((CalculateSus(s), CalculateSus(t)))
  }

  /** `sus_score`. */
  method SusScore(rows: seq<Answer>) returns (r: Result<(real, real), CleanError>)
    ensures r == SusScores(rows)
  {
    var staticSums := AddScores(PageItems(rows, StaticPage));
    if staticSums.Err? {
      return Err(staticSums.error);
    }
    var interSums := AddScores(PageItems(rows, InteractivePage));
    if interSums.Err? {
      return Err(interSums.error);
    }
    r := Ok((CalculateSus(staticSums.value), CalculateSus(interSums.value)));
  }

  // ---------------------------------------------------------------------
  // Bounds of the score as written

  predicate InScale(items: seq<Item>)
  {
    forall k :: 0 <= k < |items| ==> ParseInt(items[k].answer).Some? && 1 <= ParseInt(items[k].answer).value <= 5
  }

  /** Items whose table index is odd (they feed `even`). */
  function OddIndexed(items: seq<Item>): nat
  {
    if items == [] then 0
    else OddIndexed(items[..|items| - 1]) + (if items[|items| - 1].index % 2 == 1 then 1 else 0)
  }

  /** With every answer in 1..5, each contribution lies in 0..4, so `even`
      is at most 4 per odd-indexed row and `odd` at most 4 per even-indexed row. */
  lemma {:induction false} SumsBounded(items: seq<Item>)
    requires InScale(items)
    ensures SumsOf(items).Ok?
    ensures 0 <= SumsOf(items).value.even <= 4 * OddIndexed(items)
    ensures 0 <= SumsOf(items).value.odd <= 4 * (|items| - OddIndexed(items))
  {
    if items != [] {
      var front := items[..|items| - 1];
      assert forall k :: 0 <= k < |front| ==> front[k] == items[k];
      SumsBounded(front);
    }
  }

  /** The score as written lies between 0 and 10 per even-indexed row plus
      4 per odd-indexed row; `2 * score == 5 * odd + 2 * even`. */
  lemma SusScoreRange(items: seq<Item>)
    requires InScale(items)
    ensures SumsOf(items).Ok?
    ensures 2.0 * CalculateSus(SumsOf(items).value) == 5.0 * SumsOf(items).value.odd as real + 2.0 * SumsOf(items).value.even as real
    ensures 0.0 <= CalculateSus(SumsOf(items).value) <= (10 * (|items| - OddIndexed(items)) + 4 * OddIndexed(items)) as real
  {
    SumsBounded(items);
  }

  // ---------------------------------------------------------------------
  // The conventional score, and where the code departs from it

  /** The total of the conventional contributions: item 1, 3, 5, ... (page
      position 0, 2, 4, ...) adds `v - 1`, the others add `5 - v`. */
  function StandardTotal(vs: seq<int>): int
  {
    if vs == [] then 0
    else StandardTotal(vs[..|vs| - 1]) + (if (|vs| - 1) % 2 == 0 then vs[|vs| - 1] - 1 else 5 - vs[|vs| - 1])
  }

  /** The conventional score: 2.5 times the total. */
  function StandardSus(vs: seq<int>): real
  {
    2.5 * StandardTotal(vs) as real
  }

  lemma {:induction false} StandardTotalBounded(vs: seq<int>)
    requires forall k :: 0 <= k < |vs| ==> 1 <= vs[k] <= 5
    ensures 0 <= StandardTotal(vs) <= 4 * |vs|
  {
    if vs != [] {
      StandardTotalBounded(vs[..|vs| - 1]);
    }
  }

  /** On a ten-item questionnaire answered in 1..5 the conventional score
      lies in 0..100. */
  lemma StandardSusRange(vs: seq<int>)
    requires |vs| == 10 && forall k :: 0 <= k < |vs| ==> 1 <= vs[k] <= 5
    ensures 0.0 <= StandardSus(vs) <= 100.0
  {
    StandardTotalBounded(vs);
  }

  /** The answers of a respondent who agrees fully with every positive
      item and disagrees fully with every negative one. */
  function IdealItems(first: nat): seq<Item>
  {
    seq(10, k requires 0 <= k < 10 => Item(first + k, if k % 2 == 0 then "5" else "1"))
  }

  /** The conventional score of the ideal respondent is 100. */
  lemma StandardIdealIsHundred()
    ensures StandardSus([5, 1, 5, 1, 5, 1, 5, 1, 5, 1]) == 100.0
  {
    var vs := [5, 1, 5, 1, 5, 1, 5, 1, 5, 1];
    assert StandardTotal(vs[..0]) == 0;
    assert StandardTotal(vs[..2]) == 8 by { assert vs[..2][..1] == vs[..1]; assert vs[..1][..0] == vs[..0]; }
    assert StandardTotal(vs[..4]) == 16 by { assert vs[..4][..3] == vs[..3]; assert vs[..3][..2] == vs[..2]; }
    assert StandardTotal(vs[..6]) == 24 by { assert vs[..6][..5] == vs[..5]; assert vs[..5][..4] == vs[..4]; }
    assert StandardTotal(vs[..8]) == 32 by { assert vs[..8][..7] == vs[..7]; assert vs[..7][..6] == vs[..6]; }
    assert StandardTotal(vs[..10]) == 40 by { assert vs[..10][..9] == vs[..9]; assert vs[..9][..8] == vs[..8]; }
    assert vs[..10] == vs;
  }

  /** As written, the ideal respondent whose page starts at row 0 scores
      70: the factor 2.5 reaches `odd` only. */
  lemma IdealScoresSeventyAsWritten()
    ensures SumsOf(IdealItems(0)) == Ok(Sums(20, 20))
    ensures CalculateSus(Sums(20, 20)) == 70.0
  {
    IdealSums(0);
  }

  /** As written, the same answers on a page that starts at row 1 score 0:
      the polarity follows the row's index in the whole table. */
  lemma IdealScoresZeroFromOddRow()
    ensures SumsOf(IdealItems(1)) == Ok(Sums(0, 0))
    ensures CalculateSus(Sums(0, 0)) == 0.0
  {
    IdealSums(1);
  }

  lemma SumsOfSnoc(items: seq<Item>, n: nat, s: Sums, v: int)
    requires n < |items| && SumsOf(items[..n]) == Ok(s) && ParseInt(items[n].answer) == Some(v)
    ensures SumsOf(items[..n + 1]) == Ok(Contribute(s, items[n].index, v))
  {
    assert items[..n + 1][..n] == items[..n];
    assert items[..n + 1][n] == items[n];
  }

  lemma ParseScaleEnds()
    ensures ParseInt("5") == Some(5) && ParseInt("1") == Some(1)
  {
    assert |"5"| == 1 && "5"[0] == '5';
    assert |"1"| == 1 && "1"[0] == '1';
  }

  lemma ContributePair(s: Sums, i: nat, first: nat)
    requires i % 2 == 0 && first <= 1
    ensures Contribute(Contribute(s, first + i, 5), first + i + 1, 1)
            == if first == 0 then Sums(s.even + 4, s.odd + 4) else s
  {
  }

  /** Two items answered 5 then 1 move the sums by (4, 4) from an even
      table row and leave them unchanged from an odd one. */
  lemma {:induction false} PairStep(items: seq<Item>, first: nat, k: nat, s: Sums)
    requires first <= 1 && k % 2 == 0 && k + 2 <= |items|
    requires items[k] == Item(first + k, "5") && items[k + 1] == Item(first + k + 1, "1")
    requires SumsOf(items[..k]) == Ok(s)
    ensures SumsOf(items[..k + 2]) == Ok(if first == 0 then Sums(s.even + 4, s.odd + 4) else s)
  {
    ParseScaleEnds();
    SumsOfSnoc(items, k, s, 5);
    SumsOfSnoc(items, k + 1, Contribute(s, first + k, 5), 1);
    ContributePair(s, k, first);
  }

  lemma IdealSums(first: nat)
    requires first <= 1
    ensures SumsOf(IdealItems(first)) == if first == 0 then Ok(Sums(20, 20)) else Ok(Sums(0, 0))
  {
    var items := IdealItems(first);
    var d := if first == 0 then 4 else 0;
    assert items[..0] == [];
    PairStep(items, first, 0, Sums(0, 0));
    PairStep(items, first, 2, Sums(d, d));
    PairStep(items, first, 4, Sums(2 * d, 2 * d));
    PairStep(items, first, 6, Sums(3 * d, 3 * d));
    PairStep(items, first, 8, Sums(4 * d, 4 * d));
    assert items[..10] == items;
  }
}
