/** The pay-period generator `donem_listesi_olustur` (mobil_butce.py:56-94).

    A pay period runs from one month's payday (the anchor day, 00:00:00) to one
    second before the next month's payday. The generator finds the period
    containing "now" and the period containing the earliest parsed record
    timestamp, walks forward month by month between them, and returns the
    periods most recent first. */
module PayPeriods {
  import opened Wrappers
  import opened Calendar
  import Labels

  /** `MAAS_GUNU`, the payday used by the application. */
  const PayDay: int := 19

  /** An anchor day that exists in every month, so no clamping is ever needed. */
  type Anchor = a: int | 1 <= a <= 28 witness 19

  /** `d` is a period start: the anchor day of some month, at midnight. */
  predicate Aligned(d: DateTime, a: Anchor) {
    Valid(d) && d.day == a && d.hour == 0 && d.minute == 0 && d.second == 0
  }

  /** Months counted from year 0: consecutive calendar months have consecutive indices. */
  function MonthIndex(d: DateTime): int {
    d.year * 12 + d.month - 1
  }

  /** Between period starts, chronological order is the order of their month indices. */
  lemma AlignedOrder(s: DateTime, t: DateTime, a: Anchor)
    requires Aligned(s, a) && Aligned(t, a)
    ensures Less(s, t) <==> MonthIndex(s) < MonthIndex(t)
    ensures s == t <==> MonthIndex(s) == MonthIndex(t)
  {
  }

  /** The start of the following period: the anchor day of the next month,
      with December rolling over to January of the next year. */
  function NextStart(s: DateTime, a: Anchor): (r: DateTime)
    requires Aligned(s, a)
    ensures Aligned(r, a)
    ensures MonthIndex(r) == MonthIndex(s) + 1
  {
    if s.month == 12 then DateTime(s.year + 1, 1, a, 0, 0, 0)
    else DateTime(s.year, s.month + 1, a, 0, 0, 0)
  }

  /** The start of the period containing `d`: this month's anchor day if `d`
      is on or after it, else the previous month's (December of the previous
      year when `d` is in January). */
  function PeriodStart(d: DateTime, a: Anchor): (r: DateTime)
    requires Valid(d)
    ensures Aligned(r, a)
    ensures LessEq(r, d)
    ensures Less(d, NextStart(r, a))
  {
    if d.day >= a then DateTime(d.year, d.month, a, 0, 0, 0)
    else if d.month == 1 then DateTime(d.year - 1, 12, a, 0, 0, 0)
    else DateTime(d.year, d.month - 1, a, 0, 0, 0)
  }

  /** The period start containing `d` is the only period start `s` with
      `s <= d < next(s)`: it is the latest payday at or before `d`. */
  lemma PeriodStartUnique(d: DateTime, s: DateTime, a: Anchor)
    requires Valid(d) && Aligned(s, a)
    requires LessEq(s, d) && Less(d, NextStart(s, a))
    ensures s == PeriodStart(d, a)
  {
    var r := PeriodStart(d, a);
    AlignedOrder(s, r, a);
    AlignedOrder(NextStart(s, a), r, a);
    AlignedOrder(NextStart(r, a), s, a);
    if MonthIndex(s) < MonthIndex(r) {
      LessEqTransitive(NextStart(s, a), r, d);
      Trichotomy(d, NextStart(s, a));
    } else if MonthIndex(r) < MonthIndex(s) {
      LessEqTransitive(NextStart(r, a), s, d);
      Trichotomy(d, NextStart(r, a));
    }
  }

  /** A later instant never lies in an earlier period. */
  lemma PeriodStartMonotone(d1: DateTime, d2: DateTime, a: Anchor)
    requires Valid(d1) && Valid(d2) && LessEq(d1, d2)
    ensures LessEq(PeriodStart(d1, a), PeriodStart(d2, a))
  {
    var r1, r2 := PeriodStart(d1, a), PeriodStart(d2, a);
    AlignedOrder(r1, r2, a);
    AlignedOrder(NextStart(r2, a), r1, a);
    if MonthIndex(r2) < MonthIndex(r1) {
      LessEqTransitive(NextStart(r2, a), r1, d1);
      LessEqTransitive(NextStart(r2, a), d1, d2);
      Trichotomy(d2, NextStart(r2, a));
    }
  }

  /** One entry of the list: `{"label": etiket, "start": ..., "end": ...}`; the
      label is the `title` field. */
  datatype Period = Period(title: string, start: DateTime, end: DateTime)

  /** The period beginning at `s`: it ends one second before the next start,
      so it is never empty and its end is the last instant before that start. */
  function MakePeriod(s: DateTime, a: Anchor): (p: Period)
    requires Aligned(s, a)
    ensures p.start == s && Valid(p.end)
    ensures LessEq(s, p.end) && Less(p.end, NextStart(s, a))
  {
    var next := NextStart(s, a);
    var end := PrevSecond(next);
    AlignedOrder(s, next, a);
    PrevSecondIsPredecessor(s, next);
    Period(Labels.Label(s, end), s, end)
  }

  /** The range test of the period filter: both bounds inclusive. */
  predicate InPeriod(t: DateTime, p: Period) {
    LessEq(p.start, t) && LessEq(t, p.end)
  }

  /** An instant lies in the period beginning at `s` exactly when `s` is the
      period start containing it. */
  lemma InPeriodIff(t: DateTime, s: DateTime, a: Anchor)
    requires Valid(t) && Aligned(s, a)
    ensures InPeriod(t, MakePeriod(s, a)) <==> PeriodStart(t, a) == s
  {
    PrevSecondIsPredecessor(t, NextStart(s, a));
    if InPeriod(t, MakePeriod(s, a)) {
      PeriodStartUnique(t, s, a);
    }
  }

  /** The last second of a period (the eve of the next payday, 23:59:59)
      belongs to that period and not to the next one. With an anchor of 2 or
      more that second is on day `a - 1` of the next start's month. */
  lemma PeriodEnd(s: DateTime, a: Anchor)
    requires Aligned(s, a)
    ensures InPeriod(MakePeriod(s, a).end, MakePeriod(s, a))
    ensures !InPeriod(MakePeriod(s, a).end, MakePeriod(NextStart(s, a), a))
    ensures Less(MakePeriod(s, a).end, NextStart(s, a))
    ensures a >= 2 ==>
      var n := NextStart(s, a);
      MakePeriod(s, a).end == DateTime(n.year, n.month, a - 1, 23, 59, 59)
  {
    var e := MakePeriod(s, a).end;
    InPeriodIff(e, s, a);
    PrevSecondIsPredecessor(e, NextStart(s, a));
    PeriodStartUnique(e, s, a);
    InPeriodIff(e, NextStart(s, a), a);
    AlignedOrder(s, NextStart(s, a), a);
  }

  /** The `while iter_date <= mevcut_baslangic` loop: the periods from `s` up
      to and including `cur`, oldest first. */
  function Walk(s: DateTime, cur: DateTime, a: Anchor): (ps: seq<Period>)
    requires Aligned(s, a) && Aligned(cur, a)
    ensures |ps| == if LessEq(s, cur) then MonthIndex(cur) - MonthIndex(s) + 1 else 0
    ensures forall i :: 0 <= i < |ps| ==>
      && Aligned(ps[i].start, a)
      && MonthIndex(ps[i].start) == MonthIndex(s) + i
      && ps[i] == MakePeriod(ps[i].start, a)
    decreases MonthIndex(cur) - MonthIndex(s) + 1
  {
    AlignedOrder(s, cur, a);
    if LessEq(s, cur) then
      var next := NextStart(s, a);
      AlignedOrder(next, cur, a);
      [MakePeriod(s, a)] + Walk(next, cur, a)
    else
      []
  }

  /** `donemler[::-1]` */
  function Reverse<T>(s: seq<T>): (r: seq<T>)
    ensures |r| == |s|
    ensures forall i :: 0 <= i < |s| ==> r[i] == s[|s| - 1 - i]
  {
    if |s| == 0 then [] else Reverse(s[1..]) + [s[0]]
  }

  /** `ps` lists consecutive periods most recent first, the first one
      starting at `cur`. */
  predicate NewestFirst(ps: seq<Period>, cur: DateTime, a: Anchor) {
    forall i :: 0 <= i < |ps| ==>
      && Aligned(ps[i].start, a)
      && MonthIndex(ps[i].start) == MonthIndex(cur) - i
      && ps[i] == MakePeriod(ps[i].start, a)
  }

  /** The walk from `first` to `cur`, reversed. */
  function Periods(first: DateTime, cur: DateTime, a: Anchor): (ps: seq<Period>)
    requires Aligned(first, a) && Aligned(cur, a)
    ensures |ps| == if LessEq(first, cur) then MonthIndex(cur) - MonthIndex(first) + 1 else 0
    ensures NewestFirst(ps, cur, a)
  {
    Reverse(Walk(first, cur, a))
  }

  /** Each period starts strictly after the one listed after it. */
  lemma NewestFirstOrdered(ps: seq<Period>, cur: DateTime, a: Anchor)
    requires NewestFirst(ps, cur, a)
    ensures forall i, j :: 0 <= i < j < |ps| ==> Less(ps[j].start, ps[i].start)
  {
    forall i, j | 0 <= i < j < |ps|
      ensures Less(ps[j].start, ps[i].start)
    {
      AlignedOrder(ps[j].start, ps[i].start, a);
    }
  }

  /** Neighbouring periods touch: the older one's successor start is the newer
      one's start, and the older one ends exactly one second before it. */
  lemma NewestFirstContiguous(ps: seq<Period>, cur: DateTime, a: Anchor)
    requires NewestFirst(ps, cur, a)
    ensures forall i :: 0 < i < |ps| ==>
      && ps[i - 1].start == NextStart(ps[i].start, a)
      && ps[i].end == PrevSecond(ps[i - 1].start)
  {
    forall i | 0 < i < |ps|
      ensures ps[i - 1].start == NextStart(ps[i].start, a)
    {
      AlignedOrder(ps[i - 1].start, NextStart(ps[i].start, a), a);
    }
  }

  /** The listed periods partition the span from the oldest start to the
      newest end: an instant lies in some listed period exactly when it is in
      that span, and never in two. */
  lemma NewestFirstPartition(ps: seq<Period>, cur: DateTime, a: Anchor, t: DateTime)
    requires NewestFirst(ps, cur, a) && Valid(t)
    ensures (exists i :: 0 <= i < |ps| && InPeriod(t, ps[i])) <==>
            |ps| > 0 && LessEq(ps[|ps| - 1].start, t) && LessEq(t, ps[0].end)
    ensures forall i, j :: 0 <= i < |ps| && 0 <= j < |ps| && InPeriod(t, ps[i]) && InPeriod(t, ps[j]) ==> i == j
  {
    var st := PeriodStart(t, a);
    forall i | 0 <= i < |ps|
      ensures InPeriod(t, ps[i]) <==> MonthIndex(st) == MonthIndex(cur) - i
    {
      InPeriodIff(t, ps[i].start, a);
      AlignedOrder(st, ps[i].start, a);
    }
    if |ps| > 0 {
      var last := ps[|ps| - 1];
      var first := ps[0];
      if LessEq(last.start, t) && LessEq(t, first.end) {
        PeriodStartMonotone(last.start, t, a);
        PeriodStartUnique(last.start, last.start, a);
        AlignedOrder(last.start, st, a);
        PeriodEnd(first.start, a);
        PeriodStartMonotone(t, first.end, a);
        InPeriodIff(first.end, first.start, a);
        AlignedOrder(st, first.start, a);
        var k := MonthIndex(cur) - MonthIndex(st);
        assert InPeriod(t, ps[k]);
      }
      forall i | 0 <= i < |ps| && InPeriod(t, ps[i])
        ensures LessEq(last.start, t) && LessEq(t, first.end)
      {
        NewestFirstOrdered(ps, cur, a);
        LessEqTransitive(last.start, ps[i].start, t);
        PeriodEnd(ps[i].start, a);
        var n, n0 := NextStart(ps[i].start, a), NextStart(first.start, a);
        AlignedOrder(n, n0, a);
        assert Less(t, n) by {
          PrevSecondIsPredecessor(t, n);
        }
        assert Less(t, n0);
        PrevSecondIsPredecessor(t, n0);
      }
    }
  }

  /** Distinct listed periods have distinct labels, so the selector shows no
      two entries alike. */
  lemma NewestFirstLabelsDistinct(ps: seq<Period>, cur: DateTime, a: Anchor)
    requires NewestFirst(ps, cur, a)
    ensures forall i, j :: 0 <= i < |ps| && 0 <= j < |ps| && i != j ==> ps[i].title != ps[j].title
  {
    forall i, j | 0 <= i < |ps| && 0 <= j < |ps| && ps[i].title == ps[j].title
      ensures i == j
    {
      Labels.LabelDeterminesDays(ps[i].start, ps[i].end, ps[j].start, ps[j].end);
      AlignedOrder(ps[i].start, ps[j].start, a);
    }
  }

  /** Every present timestamp is a real date-time. */
  predicate AllValid(ts: seq<Option<DateTime>>) {
    forall i :: 0 <= i < |ts| && ts[i].Some? ==> Valid(ts[i].value)
  }

  /** `df['Tarih_Obj'].min()`: the earliest present timestamp, skipping
      unparsed ones; `None` (NaT) when there is none. */
  function Earliest(ts: seq<Option<DateTime>>): (r: Option<DateTime>)
    ensures r.None? <==> forall i :: 0 <= i < |ts| ==> ts[i].None?
    ensures r.Some? ==> r in ts
    ensures r.Some? ==> forall i :: 0 <= i < |ts| && ts[i].Some? ==> LessEq(r.value, ts[i].value)
  {
    if |ts| == 0 then None
    else
      var rest := Earliest(ts[1..]);
      assert forall i :: 1 <= i < |ts| ==> ts[i] == ts[1..][i - 1];
      match ts[0]
      case None => rest
      case Some(t) =>
        match rest
        case None => Some(t)
        case Some(m) =>
          Trichotomy(t, m);
          if LessEq(t, m) then
            assert forall i :: 1 <= i < |ts| && ts[i].Some? ==> LessEq(t, ts[i].value) by {
              forall i | 1 <= i < |ts| && ts[i].Some?
                ensures LessEq(t, ts[i].value)
              {
                LessEqTransitive(t, m, ts[i].value);
              }
            }
            Some(t)
          else
            rest
  }

  /** The first `iter_date`: the earliest period any parsed timestamp lies
      in, or the current period start when no timestamp parsed. */
  function WalkStart(ts: seq<Option<DateTime>>, now: DateTime, a: Anchor): (s: DateTime)
    requires Valid(now) && AllValid(ts)
    ensures Aligned(s, a)
    ensures forall i :: 0 <= i < |ts| && ts[i].Some? ==> LessEq(s, PeriodStart(ts[i].value, a))
    ensures Earliest(ts).None? ==> s == PeriodStart(now, a)
    ensures Earliest(ts).Some? ==>
      exists i :: 0 <= i < |ts| && ts[i].Some? && s == PeriodStart(ts[i].value, a)
  {
    match Earliest(ts)
    case None => PeriodStart(now, a)
    case Some(e) =>
      assert forall i :: 0 <= i < |ts| && ts[i].Some? ==> LessEq(PeriodStart(e, a), PeriodStart(ts[i].value, a)) by {
        forall i | 0 <= i < |ts| && ts[i].Some?
          ensures LessEq(PeriodStart(e, a), PeriodStart(ts[i].value, a))
        {
          PeriodStartMonotone(e, ts[i].value, a);
        }
      }
      var k :| 0 <= k < |ts| && ts[k] == Some(e);
      PeriodStart(e, a)
  }

  /** `donem_listesi_olustur` as written: it walks from the earliest record's
      period even when that period is after the current one, and then returns
      an empty list. */
  function GenerateAsWritten(ts: seq<Option<DateTime>>, now: DateTime, a: Anchor): (ps: seq<Period>)
    requires Valid(now) && AllValid(ts)
    ensures var first, cur := WalkStart(ts, now, a), PeriodStart(now, a);
      |ps| == if LessEq(first, cur) then MonthIndex(cur) - MonthIndex(first) + 1 else 0
    ensures NewestFirst(ps, PeriodStart(now, a), a)
    ensures |ps| > 0 ==> ps[0] == MakePeriod(PeriodStart(now, a), a)
  {
    var cur := PeriodStart(now, a);
    var ps := Periods(WalkStart(ts, now, a), cur, a);
    assert |ps| > 0 ==> ps[0] == MakePeriod(cur, a) by {
      if |ps| > 0 {
        AlignedOrder(ps[0].start, cur, a);
      }
    }
    ps
  }

  /** The generator with the walk's first start capped at the current period
      start, so the list always holds the current period at index 0. */
  function Generate(ts: seq<Option<DateTime>>, now: DateTime, a: Anchor): (ps: seq<Period>)
    requires Valid(now) && AllValid(ts)
    ensures |ps| >= 1
    ensures ps[0] == MakePeriod(PeriodStart(now, a), a)
    ensures NewestFirst(ps, PeriodStart(now, a), a)
    ensures var first, cur := WalkStart(ts, now, a), PeriodStart(now, a);
      ps[|ps| - 1].start == if LessEq(first, cur) then first else cur
    ensures var first, cur := WalkStart(ts, now, a), PeriodStart(now, a);
      |ps| == if LessEq(first, cur) then MonthIndex(cur) - MonthIndex(first) + 1 else 1
    ensures Earliest(ts).None? ==> |ps| == 1
  {
    var cur := PeriodStart(now, a);
    var first := WalkStart(ts, now, a);
    var start := if LessEq(first, cur) then first else cur;
    var ps := Periods(start, cur, a);
    AlignedOrder(ps[0].start, cur, a);
    AlignedOrder(ps[|ps| - 1].start, start, a);
    ps
  }

  /** When the earliest record is not in a later period than now, the two
      generators agree. */
  lemma AsWrittenAgrees(ts: seq<Option<DateTime>>, now: DateTime, a: Anchor)
    requires Valid(now) && AllValid(ts)
    requires LessEq(WalkStart(ts, now, a), PeriodStart(now, a))
    ensures GenerateAsWritten(ts, now, a) == Generate(ts, now, a)
  {
  }

  /** A single record dated in a later period than now leaves the list of the
      generator as written empty, so its selector has no entry to index. */
  lemma FutureRecordEmptiesList()
    ensures GenerateAsWritten([Some(DateTime(2030, 1, 5, 10, 0, 0))], DateTime(2024, 3, 10, 12, 0, 0), PayDay) == []
    ensures |Generate([Some(DateTime(2030, 1, 5, 10, 0, 0))], DateTime(2024, 3, 10, 12, 0, 0), PayDay)| == 1
  {
    var ts := [Some(DateTime(2030, 1, 5, 10, 0, 0))];
    assert Earliest(ts) == Some(DateTime(2030, 1, 5, 10, 0, 0));
  }

  /** With no records, or none whose timestamp parsed, the list is exactly
      the current period. */
  lemma NoTimestampsOnePeriod(ts: seq<Option<DateTime>>, now: DateTime, a: Anchor)
    requires Valid(now)
    requires forall i :: 0 <= i < |ts| ==> ts[i].None?
    ensures GenerateAsWritten(ts, now, a) == [MakePeriod(PeriodStart(now, a), a)]
    ensures Generate(ts, now, a) == [MakePeriod(PeriodStart(now, a), a)]
  {
  }

  /** Every record timestamp up to the end of the current period lies in
      exactly one generated period; later timestamps lie in none. */
  lemma RecordInExactlyOnePeriod(ts: seq<Option<DateTime>>, now: DateTime, a: Anchor, k: int)
    requires Valid(now) && AllValid(ts)
    requires 0 <= k < |ts| && ts[k].Some?
    ensures var ps, t := Generate(ts, now, a), ts[k].value;
      (exists i :: 0 <= i < |ps| && InPeriod(t, ps[i])) <==> LessEq(t, ps[0].end)
    ensures var ps, t := Generate(ts, now, a), ts[k].value;
      forall i, j :: 0 <= i < |ps| && 0 <= j < |ps| && InPeriod(t, ps[i]) && InPeriod(t, ps[j]) ==> i == j
  {
    var ps, t := Generate(ts, now, a), ts[k].value;
    var cur, first := PeriodStart(now, a), WalkStart(ts, now, a);
    var e := Earliest(ts).value;
    assert LessEq(e, t);
    LessEqTransitive(first, e, t);
    AlignedOrder(ps[|ps| - 1].start, cur, a);
    if !LessEq(first, cur) {
      Trichotomy(first, cur);
      LessEqTransitive(cur, first, t);
    }
    assert LessEq(ps[|ps| - 1].start, t);
    NewestFirstPartition(ps, cur, a, t);
  }

  /** The same for the generator as written: a record timestamp is covered
      only when the list is not empty, and then exactly as for `Generate`. */
  lemma RecordInExactlyOnePeriodAsWritten(ts: seq<Option<DateTime>>, now: DateTime, a: Anchor, k: int)
    requires Valid(now) && AllValid(ts)
    requires 0 <= k < |ts| && ts[k].Some?
    ensures var ps, t := GenerateAsWritten(ts, now, a), ts[k].value;
      (exists i :: 0 <= i < |ps| && InPeriod(t, ps[i])) <==>
        LessEq(WalkStart(ts, now, a), PeriodStart(now, a)) && LessEq(t, MakePeriod(PeriodStart(now, a), a).end)
    ensures var ps, t := GenerateAsWritten(ts, now, a), ts[k].value;
      forall i, j :: 0 <= i < |ps| && 0 <= j < |ps| && InPeriod(t, ps[i]) && InPeriod(t, ps[j]) ==> i == j
  {
    if LessEq(WalkStart(ts, now, a), PeriodStart(now, a)) {
      AsWrittenAgrees(ts, now, a);
      RecordInExactlyOnePeriod(ts, now, a, k);
    }
  }

  /** With payday 19: the 10th of March lies in the period begun on 19 February,
      the 25th of March in the one begun on 19 March, and 5 January in the one
      begun on 19 December of the previous year. */
  lemma PeriodStartExamples()
    ensures PeriodStart(DateTime(2024, 3, 10, 9, 30, 0), PayDay) == DateTime(2024, 2, 19, 0, 0, 0)
    ensures PeriodStart(DateTime(2024, 3, 25, 9, 30, 0), PayDay) == DateTime(2024, 3, 19, 0, 0, 0)
    ensures PeriodStart(DateTime(2024, 1, 5, 0, 0, 0), PayDay) == DateTime(2023, 12, 19, 0, 0, 0)
  {
  }

  /** A record of 5 November 2023 seen on 1 February 2024 gives four periods,
      newest first, from 19 January 2024 back to 19 October - 18 November 2023. */
  lemma GenerateExample()
    ensures var ps := Generate([Some(DateTime(2023, 11, 5, 12, 0, 0))], DateTime(2024, 2, 1, 8, 0, 0), PayDay);
      && |ps| == 4
      && ps[0].start == DateTime(2024, 1, 19, 0, 0, 0) && ps[0].end == DateTime(2024, 2, 18, 23, 59, 59)
      && ps[1].start == DateTime(2023, 12, 19, 0, 0, 0) && ps[1].end == DateTime(2024, 1, 18, 23, 59, 59)
      && ps[2].start == DateTime(2023, 11, 19, 0, 0, 0) && ps[2].end == DateTime(2023, 12, 18, 23, 59, 59)
      && ps[3].start == DateTime(2023, 10, 19, 0, 0, 0) && ps[3].end == DateTime(2023, 11, 18, 23, 59, 59)
  {
    var ts, now := [Some(DateTime(2023, 11, 5, 12, 0, 0))], DateTime(2024, 2, 1, 8, 0, 0);
    var ps := Generate(ts, now, PayDay);
    var cur := ExampleSpan(ts, now);
    ExampleEntry(ps, cur, 0, DateTime(2024, 1, 19, 0, 0, 0));
    ExampleEntry(ps, cur, 1, DateTime(2023, 12, 19, 0, 0, 0));
    ExampleEntry(ps, cur, 2, DateTime(2023, 11, 19, 0, 0, 0));
    ExampleEntry(ps, cur, 3, DateTime(2023, 10, 19, 0, 0, 0));
  }

  lemma ExampleSpan(ts: seq<Option<DateTime>>, now: DateTime) returns (cur: DateTime)
    requires ts == [Some(DateTime(2023, 11, 5, 12, 0, 0))] && now == DateTime(2024, 2, 1, 8, 0, 0)
    ensures cur == PeriodStart(now, PayDay) == DateTime(2024, 1, 19, 0, 0, 0)
    ensures NewestFirst(Generate(ts, now, PayDay), cur, PayDay)
    ensures |Generate(ts, now, PayDay)| == 4
  {
    assert Earliest(ts) == Some(DateTime(2023, 11, 5, 12, 0, 0));
    cur := PeriodStart(now, PayDay);
    assert WalkStart(ts, now, PayDay) == DateTime(2023, 10, 19, 0, 0, 0);
  }

  lemma ExampleEntry(ps: seq<Period>, cur: DateTime, i: int, s: DateTime)
    requires NewestFirst(ps, cur, PayDay) && 0 <= i < |ps|
    requires Aligned(s, PayDay) && MonthIndex(s) == MonthIndex(cur) - i
    ensures ps[i].start == s
    ensures var n := NextStart(s, PayDay); ps[i].end == DateTime(n.year, n.month, 18, 23, 59, 59)
  {
    AlignedOrder(ps[i].start, s, PayDay);
    PeriodEnd(s, PayDay);
  }

  /** The label of the period begun on 19 February 2024. */
  lemma LabelExample()
    ensures MakePeriod(DateTime(2024, 2, 19, 0, 0, 0), PayDay).title == "19 Şubat 2024 - 18 Mart 2024"
  {
    var p := MakePeriod(DateTime(2024, 2, 19, 0, 0, 0), PayDay);
    ExampleBounds();
    assert p.title == Labels.Label(DateTime(2024, 2, 19, 0, 0, 0), DateTime(2024, 3, 18, 23, 59, 59));
    ExampleDateTexts();
  }

  lemma ExampleBounds()
    ensures MakePeriod(DateTime(2024, 2, 19, 0, 0, 0), PayDay).end == DateTime(2024, 3, 18, 23, 59, 59)
  {
    assert NextStart(DateTime(2024, 2, 19, 0, 0, 0), PayDay) == DateTime(2024, 3, 19, 0, 0, 0);
  }

  lemma ExampleDateTexts()
    ensures Labels.DateText(DateTime(2024, 2, 19, 0, 0, 0)) == "19 Şubat 2024"
    ensures Labels.DateText(DateTime(2024, 3, 18, 23, 59, 59)) == "18 Mart 2024"
  {
    assert Labels.IntText(2024) == "2024" by {
      assert Labels.NatText(2) == "2";
      assert Labels.NatText(20) == "20";
      assert Labels.NatText(202) == "202";
    }
    assert Labels.IntText(19) == "19" && Labels.IntText(18) == "18" by {
      assert Labels.NatText(1) == "1";
    }
  }
}
