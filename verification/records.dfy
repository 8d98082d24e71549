/** The expense rows and the two row filters of mobil_butce.py: the per-user
    filter applied when the sheet is loaded (lines 44-45) and the period filter
    applied to the selected period (line 139). */
module Records {
  import opened Wrappers
  import opened Calendar
  import opened PayPeriods

  /** One sheet row after loading. `when` is the parsed `Tarih` column
      (`Tarih_Obj`), `None` where the text did not parse (NaT). */
  datatype Record = Record(owner: string, when: Option<DateTime>, category: string, note: string)

  /** The loaded sheet: whether it has a `Kullanici` column, and its rows. */
  datatype Sheet = Sheet(hasOwnerColumn: bool, rows: seq<Record>)

  /** `a` is `b` with some elements dropped and the rest in their original order. */
  ghost predicate Subsequence<T>(a: seq<T>, b: seq<T>)
    decreases |b|
  {
    && |a| <= |b|
    && (|a| == 0 || (a[0] == b[0] && Subsequence(a[1..], b[1..])) || Subsequence(a, b[1..]))
  }

  /** A pandas boolean-mask selection `df[mask]`: keeps the rows `keep`
      accepts, every copy of them, in their original order. */
  function Select<T(!new)>(s: seq<T>, keep: T -> bool): (r: seq<T>)
    ensures forall x :: multiset(r)[x] == if keep(x) then multiset(s)[x] else 0
    ensures Subsequence(r, s)
  {
    if |s| == 0 then []
    else
      var rest := Select(s[1..], keep);
      assert s == [s[0]] + s[1..];
      if keep(s[0]) then [s[0]] + rest else rest
  }

  /** The rows the session's user may see: only their own when the sheet has
      an owner column, all rows otherwise. */
  function OwnRows(sheet: Sheet, user: string): (r: seq<Record>)
    ensures !sheet.hasOwnerColumn ==> r == sheet.rows
    ensures sheet.hasOwnerColumn ==>
      forall x :: multiset(r)[x] == if x.owner == user then multiset(sheet.rows)[x] else 0
    ensures Subsequence(r, sheet.rows)
  {
    if sheet.hasOwnerColumn then Select(sheet.rows, (x: Record) => x.owner == user)
    else
      assert Subsequence(sheet.rows, sheet.rows) by {
        SubsequenceReflexive(sheet.rows);
      }
      sheet.rows
  }

  lemma {:induction false} SubsequenceReflexive<T>(s: seq<T>)
    ensures Subsequence(s, s)
    decreases |s|
  {
    if |s| > 0 {
      SubsequenceReflexive(s[1..]);
    }
  }

  /** The timestamp column of a set of rows. */
  function Stamps(rows: seq<Record>): (ts: seq<Option<DateTime>>)
    ensures |ts| == |rows|
    ensures forall i :: 0 <= i < |rows| ==> ts[i] == rows[i].when
  {
    seq(|rows|, i requires 0 <= i < |rows| => rows[i].when)
  }

  /** The row test of line 139: a parsed timestamp within `[start, end]`.
      A NaT timestamp compares false with both bounds. */
  predicate InSelected(x: Record, p: Period) {
    x.when.Some? && InPeriod(x.when.value, p)
  }

  /** `df_raw.loc[(Tarih_Obj >= start) & (Tarih_Obj <= end)]`: the rows dated
      within the selected period, in their original order. */
  function InPeriodRows(rows: seq<Record>, p: Period): (r: seq<Record>)
    ensures forall x :: multiset(r)[x] == if InSelected(x, p) then multiset(rows)[x] else 0
    ensures Subsequence(r, rows)
    ensures forall i :: 0 <= i < |r| ==> r[i].when.Some?
  {
    var r := Select(rows, (x: Record) => InSelected(x, p));
    assert forall i :: 0 <= i < |r| ==> r[i] in multiset(r);
    r
  }

  /** A row of the input is kept by the period filter exactly when its
      timestamp parsed and lies within the period. */
  lemma InPeriodRowsMember(rows: seq<Record>, p: Period, x: Record)
    requires x in rows
    ensures x in InPeriodRows(rows, p) <==> InSelected(x, p)
  {
    assert multiset(rows)[x] > 0;
    assert x in InPeriodRows(rows, p) <==> multiset(InPeriodRows(rows, p))[x] > 0;
  }

  /** Each row whose timestamp parsed and is not after the current period is
      shown in exactly one of the generated periods, and a row whose
      timestamp did not parse is shown in none. */
  lemma RowInExactlyOnePeriod(rows: seq<Record>, now: DateTime, a: Anchor, k: int)
    requires Valid(now) && AllValid(Stamps(rows))
    requires 0 <= k < |rows|
    ensures var ps := Generate(Stamps(rows), now, a);
      rows[k].when.Some? && LessEq(rows[k].when.value, ps[0].end) <==>
        exists i :: 0 <= i < |ps| && rows[k] in InPeriodRows(rows, ps[i])
    ensures var ps := Generate(Stamps(rows), now, a);
      forall i, j | 0 <= i < |ps| && 0 <= j < |ps| ::
        rows[k] in InPeriodRows(rows, ps[i]) && rows[k] in InPeriodRows(rows, ps[j]) ==> i == j
  {
    var ts, ps := Stamps(rows), Generate(Stamps(rows), now, a);
    var x := rows[k];
    forall i | 0 <= i < |ps|
      ensures x in InPeriodRows(rows, ps[i]) <==> InSelected(x, ps[i])
    {
      InPeriodRowsMember(rows, ps[i], x);
    }
    if x.when.Some? {
      RecordInExactlyOnePeriod(ts, now, a, k);
    }
  }

  /** The same for the generator as written: a row is shown only when the
      list is not empty, and then exactly as for `Generate`. */
  lemma RowInExactlyOnePeriodAsWritten(rows: seq<Record>, now: DateTime, a: Anchor, k: int)
    requires Valid(now) && AllValid(Stamps(rows))
    requires 0 <= k < |rows|
    ensures var ts := Stamps(rows);
      var ps := GenerateAsWritten(ts, now, a);
      rows[k].when.Some? && LessEq(WalkStart(ts, now, a), PeriodStart(now, a)) &&
        LessEq(rows[k].when.value, MakePeriod(PeriodStart(now, a), a).end) <==>
        exists i :: 0 <= i < |ps| && rows[k] in InPeriodRows(rows, ps[i])
    ensures var ps := GenerateAsWritten(Stamps(rows), now, a);
      forall i, j | 0 <= i < |ps| && 0 <= j < |ps| ::
        rows[k] in InPeriodRows(rows, ps[i]) && rows[k] in InPeriodRows(rows, ps[j]) ==> i == j
  {
    var ts := Stamps(rows);
    if LessEq(WalkStart(ts, now, a), PeriodStart(now, a)) {
      AsWrittenAgrees(ts, now, a);
      RowInExactlyOnePeriod(rows, now, a, k);
    }
  }
}
