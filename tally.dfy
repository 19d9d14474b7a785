/** The interval tally of `tally_events`: every answer owns the half-open
    window from its own time to the next answer's time (the last window is
    unbounded), hovers that follow the previous event of the window by at
    most 10 ms are dropped, and the five event codes are counted with zero
    for the codes that do not occur. */
module Tally {
  import opened Records

  /** The debounce threshold, 0.01 s, in milliseconds. */
  const DebounceMs: int := 10

  /** The counted event codes, in the order of `event_types`. */
  const EventTypes: set<string> := {"n", "c", "h", "m", "p"}

  type Counts = map<string, nat>

  // ---------------------------------------------------------------------
  // Windows

  /** The `next_time` of answer `i`: the time of the following answer, or
      none (an unbounded window) for the last one. */
  function NextTime(ts: seq<Time>, i: nat): Option<Time>
    requires i < |ts|
  {
    if i + 1 < |ts| then Some(ts[i + 1]) else None
  }

  /** The whole `next_time` column, built as the column shifted up by one. */
  function NextTimes(ts: seq<Time>): (next: seq<Option<Time>>)
    ensures |next| == |ts|
    ensures forall i :: 0 <= i < |ts| ==> next[i] == NextTime(ts, i)
  {
    if ts == [] then [] else seq(|ts| - 1, k requires 0 <= k < |ts| - 1 => Some(ts[k + 1])) + [None]
  }

  predicate InRange(t: Time, lo: Time, hi: Option<Time>)
  {
    lo <= t && (hi.None? || t < hi.value)
  }

  /** Answer `i` owns time `t`. */
  predicate InWindow(t: Time, ts: seq<Time>, i: nat)
    requires i < |ts|
  {
    InRange(t, ts[i], NextTime(ts, i))
  }

  /** The events with `lo <= time < hi`, in log order. */
  function Window(ev: seq<Event>, lo: Time, hi: Option<Time>): (w: seq<Event>)
    ensures |w| <= |ev|
    ensures forall e :: e in w <==> e in ev && InRange(e.time, lo, hi)
  {
    if ev == [] then []
    else (if InRange(ev[0].time, lo, hi) then [ev[0]] else []) + Window(ev[1..], lo, hi)
  }

  /** Selecting a window distributes over concatenation: the selected
      events keep their log order and their multiplicity. */
  lemma {:induction false} WindowAppend(a: seq<Event>, b: seq<Event>, lo: Time, hi: Option<Time>)
    ensures Window(a + b, lo, hi) == Window(a, lo, hi) + Window(b, lo, hi)
  {
    if a == [] {
      assert a + b == b;
    } else {
      assert (a + b)[0] == a[0];
      assert (a + b)[1..] == a[1..] + b;
      WindowAppend(a[1..], b, lo, hi);
    }
  }

  function AnswerWindow(ev: seq<Event>, ts: seq<Time>, i: nat): seq<Event>
    requires i < |ts|
  {
    Window(ev, ts[i], NextTime(ts, i))
  }

  /** `merge_asof(..., direction='backward')`: the last answer at or before `t`. */
  function Asof(ts: seq<Time>, t: Time): (r: Option<nat>)
    ensures r.Some? ==> r.value < |ts| && ts[r.value] <= t
    ensures r.Some? ==> forall j :: r.value < j < |ts| ==> t < ts[j]
    ensures r.None? ==> forall j :: 0 <= j < |ts| ==> t < ts[j]
  {
    if ts == [] then None
    else if ts[|ts| - 1] <= t then Some(|ts| - 1)
    else Asof(ts[..|ts| - 1], t)
  }

  /** The window of answer `i` holds exactly the times that the backward
      as-of join attaches to answer `i`. */
  lemma WindowIsAsof(ts: seq<Time>, t: Time, i: nat)
    requires StrictlyIncreasing(ts) && i < |ts|
    ensures InWindow(t, ts, i) <==> Asof(ts, t) == Some(i)
  {
    if InWindow(t, ts, i) && i + 1 < |ts| {
      assert forall j :: i < j < |ts| ==> t < ts[i + 1] <= ts[j];
    }
  }

  /** The windows are pairwise disjoint and together cover exactly the
      times at or after the first answer; earlier events fall in none. */
  lemma WindowsPartition(ts: seq<Time>, t: Time)
    requires StrictlyIncreasing(ts) && |ts| > 0
    ensures (exists i :: 0 <= i < |ts| && InWindow(t, ts, i)) <==> ts[0] <= t
    ensures forall i, j :: 0 <= i < |ts| && 0 <= j < |ts| && InWindow(t, ts, i) && InWindow(t, ts, j) ==> i == j
  {
    forall i | 0 <= i < |ts|
      ensures InWindow(t, ts, i) <==> Asof(ts, t) == Some(i)
    {
      WindowIsAsof(ts, t, i);
    }
    var r := Asof(ts, t);
    if ts[0] <= t {
      assert r.Some?;
      assert InWindow(t, ts, r.value);
    }
  }

  // ---------------------------------------------------------------------
  // Debounce

  /** The debounce mask of the window `w` at position `k`: a hover that is
      not the window's first row and comes at most 10 ms after the row
      before it (`diff()` over the window, whatever that row's code). */
  predicate Dropped(w: seq<Event>, k: nat)
    requires k < |w|
  {
    w[k].code == "h" && k > 0 && w[k].time - w[k - 1].time <= DebounceMs
  }

  function KeepMask(w: seq<Event>): (m: seq<bool>)
    ensures |m| == |w|
  {
    seq(|w|, k requires 0 <= k < |w| => !Dropped(w, k))
  }

  function FalseCount(m: seq<bool>): (n: nat)
    ensures n <= |m|
  {
    if m == [] then 0 else (if m[0] then 0 else 1) + FalseCount(m[1..])
  }

  /** Boolean-mask selection, `frame[mask]`. */
  function Select(w: seq<Event>, m: seq<bool>): (r: seq<Event>)
    requires |m| == |w|
    ensures |r| + FalseCount(m) == |w|
    ensures forall e :: e in r ==> e in w
  {
    if w == [] then [] else (if m[0] then [w[0]] else []) + Select(w[1..], m[1..])
  }

  /** The debounced window: the rows of `w` that the mask keeps, as many
      fewer as there are masked hovers. */
  function Debounce(w: seq<Event>): (r: seq<Event>)
    ensures |r| + DroppedHovers(w) == |w|
    ensures forall e :: e in r ==> e in w
  {
    Select(w, KeepMask(w))
  }

  /** The number of hovers the debounce removes from `w`. */
  function DroppedHovers(w: seq<Event>): nat
  {
    FalseCount(KeepMask(w))
  }

  /** A reference reading of the debounce as one pass over the window that
      remembers the time of the previous raw event, kept or not. */
  function DebounceAfter(prev: Option<Time>, w: seq<Event>): seq<Event>
    decreases |w|
  {
    if w == [] then []
    else
      (if w[0].code == "h" && prev.Some? && w[0].time - prev.value <= DebounceMs then [] else [w[0]])
      + DebounceAfter(Some(w[0].time), w[1..])
  }

  lemma {:induction false} SelectSuffix(w: seq<Event>, k: nat)
    requires k <= |w|
    ensures Select(w[k..], KeepMask(w)[k..]) == DebounceAfter(if k == 0 then None else Some(w[k - 1].time), w[k..])
    decreases |w| - k
  {
    if k < |w| {
      SelectSuffix(w, k + 1);
      assert w[k..][1..] == w[k + 1..];
      assert KeepMask(w)[k..][1..] == KeepMask(w)[k + 1..];
    }
  }

  /** The mask selection of the source equals the one-pass reading: the
      gap is measured from the previous raw event, not the previous kept one. */
  lemma DebounceIsOnePass(w: seq<Event>)
    ensures Debounce(w) == DebounceAfter(None, w)
  {
    SelectSuffix(w, 0);
    assert w[0..] == w;
    assert KeepMask(w)[0..] == KeepMask(w);
  }

  /** Hovers at 0, 5 and 12 ms: the 12 ms hover is dropped although the
      5 ms hover before it was dropped too. */
  lemma DebounceMeasuresFromRawEvent()
    ensures Debounce([Event(0, "h"), Event(5, "h"), Event(12, "h")]) == [Event(0, "h")]
  {
    var w := [Event(0, "h"), Event(5, "h"), Event(12, "h")];
    DebounceIsOnePass(w);
    assert w[1..] == [Event(5, "h"), Event(12, "h")];
    assert w[1..][1..] == [Event(12, "h")];
    assert DebounceAfter(Some(5), w[1..][1..]) == [];
    assert DebounceAfter(Some(0), w[1..]) == [];
  }

  /** Hovers at 0, 5 and 20 ms: the 20 ms hover is 15 ms after the 5 ms one and is kept. */
  lemma DebounceKeepsLateHover()
    ensures Debounce([Event(0, "h"), Event(5, "h"), Event(20, "h")]) == [Event(0, "h"), Event(20, "h")]
  {
    var w := [Event(0, "h"), Event(5, "h"), Event(20, "h")];
    DebounceIsOnePass(w);
    assert w[1..] == [Event(5, "h"), Event(20, "h")];
    assert w[1..][1..] == [Event(20, "h")];
    assert DebounceAfter(Some(5), w[1..][1..]) == [Event(20, "h")];
    assert DebounceAfter(Some(0), w[1..]) == [Event(20, "h")];
  }

  /** The first event of a window is never dropped. */
  lemma DebounceKeepsFirst(w: seq<Event>)
    requires |w| > 0
    ensures |Debounce(w)| > 0 && Debounce(w)[0] == w[0]
  {
    assert KeepMask(w)[0];
  }

  // ---------------------------------------------------------------------
  // Counting

  /** `value_counts()` for one code. */
  function CountCode(s: seq<Event>, c: string): (n: nat)
    ensures n <= |s|
  {
    if s == [] then 0 else (if s[0].code == c then 1 else 0) + CountCode(s[1..], c)
  }

  lemma {:induction false} CountCodeAppend(a: seq<Event>, b: seq<Event>, c: string)
    ensures CountCode(a + b, c) == CountCode(a, c) + CountCode(b, c)
  {
    if a == [] {
      assert a + b == b;
    } else {
      assert (a + b)[0] == a[0];
      assert (a + b)[1..] == a[1..] + b;
      CountCodeAppend(a[1..], b, c);
    }
  }

  lemma {:induction false} SelectCount(w: seq<Event>, m: seq<bool>, c: string)
    requires |m| == |w|
    requires forall k :: 0 <= k < |w| && !m[k] ==> w[k].code == "h"
    ensures CountCode(Select(w, m), c) + (if c == "h" then FalseCount(m) else 0) == CountCode(w, c)
  {
    if w != [] {
      SelectCount(w[1..], m[1..], c);
      CountCodeAppend(if m[0] then [w[0]] else [], Select(w[1..], m[1..]), c);
    }
  }

  /** Debouncing removes only hovers: every other code keeps its count, and
      the hover count falls by exactly the number of dropped hovers. */
  lemma DebounceCounts(w: seq<Event>, c: string)
    ensures CountCode(Debounce(w), c) + (if c == "h" then DroppedHovers(w) else 0) == CountCode(w, c)
  {
    SelectCount(w, KeepMask(w), c);
  }

  /** The zero-filled counts dictionary of one window. */
  function ZeroFilled(d: seq<Event>): (r: Counts)
    ensures r.Keys == EventTypes
  {
    map c | c in EventTypes :: CountCode(d, c)
  }

  /** The counts recorded for answer `i`: every code but `h` counted over
      the raw window, `h` over the window less its masked hovers. */
  function WindowCounts(ts: seq<Time>, ev: seq<Event>, i: nat): (r: Counts)
    requires i < |ts|
    ensures r.Keys == EventTypes
    ensures forall c :: c in EventTypes && c != "h" ==> r[c] == CountCode(AnswerWindow(ev, ts, i), c)
    ensures r["h"] + DroppedHovers(AnswerWindow(ev, ts, i)) == CountCode(AnswerWindow(ev, ts, i), "h")
  {
    var w := AnswerWindow(ev, ts, i);
    forall c | c in EventTypes
      ensures CountCode(Debounce(w), c) + (if c == "h" then DroppedHovers(w) else 0) == CountCode(w, c)
    {
      DebounceCounts(w, c);
    }
    ZeroFilled(Debounce(w))
  }

  /** Events whose code is not one of the five. */
  function CountOther(s: seq<Event>): (n: nat)
  {
    if s == [] then 0 else (if s[0].code in EventTypes then 0 else 1) + CountOther(s[1..])
  }

  lemma {:induction false} FiveCodesPartition(s: seq<Event>)
    ensures CountCode(s, "n") + CountCode(s, "c") + CountCode(s, "h") + CountCode(s, "m") + CountCode(s, "p")
            + CountOther(s) == |s|
  {
    if s != [] {
      FiveCodesPartition(s[1..]);
    }
  }

  /** Each window's counts hold the five codes, a code that does not occur
      counts 0, and the five together count no more than the window's
      events (other codes are not counted). */
  lemma CountsOfWindow(w: seq<Event>)
    ensures ZeroFilled(Debounce(w)).Keys == EventTypes
    ensures forall c :: c in EventTypes && (forall e :: e in w ==> e.code != c) ==> ZeroFilled(Debounce(w))[c] == 0
    ensures var r := ZeroFilled(Debounce(w));
            r["n"] + r["c"] + r["h"] + r["m"] + r["p"] + CountOther(Debounce(w)) == |Debounce(w)| <= |w|
  {
    var d := Debounce(w);
    FiveCodesPartition(d);
    forall c | c in EventTypes && (forall e :: e in w ==> e.code != c)
      ensures ZeroFilled(d)[c] == 0
    {
      DebounceCounts(w, c);
      AbsentCodeCountsZero(w, c);
    }
  }

  lemma {:induction false} AbsentCodeCountsZero(s: seq<Event>, c: string)
    requires forall e :: e in s ==> e.code != c
    ensures CountCode(s, c) == 0
  {
    if s != [] {
      assert s[0] in s;
      AbsentCodeCountsZero(s[1..], c);
    }
  }

  // ---------------------------------------------------------------------
  // Conservation over all windows

  /** How many windows, from the `k`-th on, hold time `t`. */
  function Hits(t: Time, ts: seq<Time>, k: nat): nat
    decreases |ts| - k
  {
    if k >= |ts| then 0 else (if InWindow(t, ts, k) then 1 else 0) + Hits(t, ts, k + 1)
  }

  lemma {:induction false} HitsFrom(t: Time, ts: seq<Time>, k: nat)
    requires StrictlyIncreasing(ts) && k < |ts|
    ensures Hits(t, ts, k) == if ts[k] <= t then 1 else 0
    decreases |ts| - k
  {
    if k + 1 < |ts| {
      HitsFrom(t, ts, k + 1);
    }
  }

  /** The raw count of code `c` summed over windows `k` and later. */
  function RawSum(ev: seq<Event>, ts: seq<Time>, c: string, k: nat): nat
    decreases |ts| - k
  {
    if k >= |ts| then 0 else CountCode(AnswerWindow(ev, ts, k), c) + RawSum(ev, ts, c, k + 1)
  }

  /** The recorded count of code `c` summed over windows `k` and later. */
  function TallySum(ev: seq<Event>, ts: seq<Time>, c: string, k: nat): nat
    requires c in EventTypes
    decreases |ts| - k
  {
    if k >= |ts| then 0 else WindowCounts(ts, ev, k)[c] + TallySum(ev, ts, c, k + 1)
  }

  /** The dropped hovers summed over windows `k` and later. */
  function DroppedSum(ev: seq<Event>, ts: seq<Time>, k: nat): nat
    decreases |ts| - k
  {
    if k >= |ts| then 0 else DroppedHovers(AnswerWindow(ev, ts, k)) + DroppedSum(ev, ts, k + 1)
  }

  lemma {:induction false} RawSumCons(ev: seq<Event>, ts: seq<Time>, c: string, k: nat)
    requires ev != []
    ensures RawSum(ev, ts, c, k) == (if ev[0].code == c then Hits(ev[0].time, ts, k) else 0) + RawSum(ev[1..], ts, c, k)
    decreases |ts| - k
  {
    if k < |ts| {
      RawSumCons(ev, ts, c, k + 1);
      var head := if InWindow(ev[0].time, ts, k) then [ev[0]] else [];
      CountCodeAppend(head, AnswerWindow(ev[1..], ts, k), c);
    }
  }

  lemma {:induction false} RawSumOfNoEvents(ts: seq<Time>, c: string, k: nat)
    ensures RawSum([], ts, c, k) == 0
    decreases |ts| - k
  {
    if k < |ts| {
      RawSumOfNoEvents(ts, c, k + 1);
    }
  }

  lemma {:induction false} RawSumIsCount(ev: seq<Event>, ts: seq<Time>, c: string)
    requires StrictlyIncreasing(ts) && |ts| > 0
    ensures RawSum(ev, ts, c, 0) == CountCode(Window(ev, ts[0], None), c)
  {
    if ev == [] {
      RawSumOfNoEvents(ts, c, 0);
    } else {
      RawSumIsCount(ev[1..], ts, c);
      RawSumCons(ev, ts, c, 0);
      HitsFrom(ev[0].time, ts, 0);
      var head := if InRange(ev[0].time, ts[0], None) then [ev[0]] else [];
      assert Window(ev, ts[0], None) == head + Window(ev[1..], ts[0], None);
      CountCodeAppend(head, Window(ev[1..], ts[0], None), c);
      assert CountCode(head, c) == if ev[0].code == c then Hits(ev[0].time, ts, 0) else 0;
    }
  }

  lemma {:induction false} TallySumIsRawSum(ev: seq<Event>, ts: seq<Time>, c: string, k: nat)
    requires c in EventTypes
    ensures TallySum(ev, ts, c, k) + (if c == "h" then DroppedSum(ev, ts, k) else 0) == RawSum(ev, ts, c, k)
    decreases |ts| - k
  {
    if k < |ts| {
      TallySumIsRawSum(ev, ts, c, k + 1);
      DebounceCounts(AnswerWindow(ev, ts, k), c);
    }
  }

  /** Summed over all answers, each code's count equals the number of its
      events at or after the first answer, less the dropped hovers for `h`. */
  lemma Conservation(ev: seq<Event>, ts: seq<Time>, c: string)
    requires StrictlyIncreasing(ts) && |ts| > 0 && c in EventTypes
    ensures TallySum(ev, ts, c, 0) + (if c == "h" then DroppedSum(ev, ts, 0) else 0)
            == CountCode(Window(ev, ts[0], None), c)
  {
    TallySumIsRawSum(ev, ts, c, 0);
    RawSumIsCount(ev, ts, c);
  }

  // ---------------------------------------------------------------------
  // The loop of `tally_events`

  /** Fills the dictionary keyed by answer time with each window's counts. */
  method TallyEvents(ts: seq<Time>, ev: seq<Event>) returns (tally: map<Time, Counts>)
    requires StrictlyIncreasing(ts)
    ensures forall t :: t in tally <==> t in ts
    ensures forall i :: 0 <= i < |ts| ==> ts[i] in tally && tally[ts[i]] == WindowCounts(ts, ev, i)
  {
    var next := NextTimes(ts);
    tally := map[];
    var i := 0;
    while i < |ts|
      invariant 0 <= i <= |ts|
      invariant forall t :: t in tally <==> t in ts[..i]
      invariant forall j :: 0 <= j < i ==> ts[j] in tally && tally[ts[j]] == WindowCounts(ts, ev, j)
    {
      var filtered := Window(ev, ts[i], next[i]);
      var counts := ZeroFilled(Debounce(filtered));
      tally := tally[ts[i] := counts];
      assert ts[..i + 1] == ts[..i] + [ts[i]];
      i := i + 1;
    }
    assert ts[..i] == ts;
  }
}
