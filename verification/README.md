# Pay-period budget tracker: a Dafny model

This project models the logic core of a small family expense tracker (`mobil_butce.py`).
Expenses are grouped into **pay periods**. A period runs from one month's payday
(`MAAS_GUNU = 19`, at 00:00:00) to one second before the next month's payday.

The core is the period generator `donem_listesi_olustur`. It:

- finds the period start containing "now";
- finds the period start containing the earliest parsed record timestamp, or uses the current start when no timestamp parsed;
- walks forward month by month, rolling December over to January;
- emits `{label, start, end}` for each month, with `end` = next start minus one second;
- returns the list most recent first.

Around it the model covers:

- the period filter that shows the records of the selected period;
- the per-user row filter applied when the sheet is loaded;
- the login check against the fixed credential table.

Modules:

- `Calendar` (`calendar.dfy`): date-times at one-second resolution. They are ordered lexicographically, as Python `datetime`s compare. It also defines "minus one second" (`PrevSecond`) with a Gregorian month-length table.
- `Labels` (`labels.dfy`): Python's `str` of an integer, the Turkish month-name table `aylar`, and the period label. It proves that a label determines the days it was built from.
- `PayPeriods` (`periods.dfy`): period starts, the month walk, the reversal, and the generator. It proves ordering, contiguity, partition and the empty-input case.
- `Records` (`records.dfy`): sheet rows, the per-user filter, and the period filter as an order-preserving selection.
- `Login` (`login.dfy`): the credential check.
- `Wrappers` (`wrappers.dfy`): `Option`. `None` stands for pandas `NaT` and for "no signed-in user".

The payday is a parameter `a: Anchor` with `1 <= a <= 28`, so the anchor day exists in every month. `PayPeriods.PayDay = 19` is the value the application uses.
"Now" is a parameter. A record's parsed timestamp is an `Option<DateTime>`.

Two points about the code shape the model:

- The selector at line 134 defaults to index 0 and line 135 indexes the list, so the page depends on the list never being empty. The code returns an empty list when the earliest record lies in a later period than now (see Findings).
- The code fixes the payday at 19 (line 21). The model proves its properties for any anchor from 1 to 28, the days that exist in every month.

## Model

| member | source | states |
|---|---|---|
| Calendar.PrevSecond | mobil_butce.py:81-84 | `d - timedelta(seconds=1)` is a valid date-time strictly before `d`, with borrowing across minute, hour, day, month (month lengths, leap years) and year |
| Calendar.PrevSecondIsPredecessor | mobil_butce.py:81-84 | one second before `d` is its immediate predecessor: for every valid `t`, `t <= d - 1s` exactly when `t < d` |
| PayPeriods.NextStart | mobil_butce.py:80-85 | the next period start is again a payday at midnight, exactly one calendar month later (December rolls over to January of the next year) |
| PayPeriods.PeriodStart | mobil_butce.py:57-64 | the period start containing `d` is on the payday at 00:00:00, is at or before `d`, and `d` is before the following period start |
| PayPeriods.PeriodStartUnique | mobil_butce.py:58-64 | it is the only period start `s` with `s <= d < next(s)`, i.e. the latest payday at or before `d` (same computation for the earliest record at lines 69-75) |
| PayPeriods.PeriodStartMonotone | mobil_butce.py:69-75 | a later instant never lies in an earlier period: `d1 <= d2` implies `start(d1) <= start(d2)` |
| PayPeriods.MakePeriod | mobil_butce.py:81-92 | the entry for start `s`: it starts at `s`, ends at `next(s) - 1s` (the `son_date`), which is at or after `s` and before the next start, and its `label` is built from both days |
| PayPeriods.InPeriod | mobil_butce.py:139 | an instant is in a period when it is at or after the start and at or before the end, both bounds inclusive |
| PayPeriods.InPeriodIff | mobil_butce.py:81-92 | an instant lies in the emitted period `[s, next(s) - 1s]` exactly when `s` is the period start containing it |
| PayPeriods.PeriodEnd | mobil_butce.py:81-84 | a period's last second belongs to it and not to the next period; for paydays of 2 or more it is day `payday - 1`, 23:59:59, of the next start's month |
| PayPeriods.Walk | mobil_butce.py:79-93 | the loop emits `cur - first + 1` months when `first <= cur` and nothing otherwise; entry `i` is the period starting `i` months after `first` |
| PayPeriods.Reverse | mobil_butce.py:94 | `donemler[::-1]` has the same length, with entry `i` taken from position `len - 1 - i` |
| PayPeriods.Periods | mobil_butce.py:79-94 | the reversed walk lists consecutive periods newest first: entry `i` starts `i` months before the current start, and there are `cur - first + 1` of them |
| PayPeriods.NewestFirstOrdered | mobil_butce.py:94 | starts are in strictly decreasing order along the returned list |
| PayPeriods.NewestFirstContiguous | mobil_butce.py:80-93 | neighbouring periods touch: the older one's next start is the newer one's start, and the older one ends exactly one second before it |
| PayPeriods.NewestFirstPartition | mobil_butce.py:79-93 | an instant lies in some listed period exactly when it is between the oldest start and the newest end (both inclusive), and it never lies in two |
| PayPeriods.NewestFirstLabelsDistinct | mobil_butce.py:87-92 | no two listed periods have the same label |
| PayPeriods.Earliest | mobil_butce.py:67-68 | `min()` over the timestamps skips NaT: it is NaT exactly when no timestamp parsed, and otherwise it is one of the timestamps and no later than any parsed one |
| PayPeriods.WalkStart | mobil_butce.py:67-77 | the first `iter_date` is a period start no later than the period of any parsed timestamp, and is itself the period of one of them; it is the current start when no timestamp parsed |
| PayPeriods.GenerateAsWritten | mobil_butce.py:56-94 | the generator as written: newest first, with `cur - first + 1` entries whose first is the current period, or no entries at all when the earliest record's period is after the current one |
| PayPeriods.Generate | mobil_butce.py:56-94 | the generator with the walk start capped at the current start: never empty, entry 0 is the current period, the last entry starts at the earlier of the earliest record's period and the current one, `cur - first + 1` entries (or one when `first` is later), and exactly one entry when no timestamp parsed |
| PayPeriods.AsWrittenAgrees | mobil_butce.py:67-79 | when the earliest record's period is not after the current one, both generators return the same list |
| PayPeriods.FutureRecordEmptiesList | mobil_butce.py:79-94 | a single record dated 5 January 2030, seen on 10 March 2024, makes the list of the generator as written empty, while the capped generator returns one period |
| PayPeriods.NoTimestampsOnePeriod | mobil_butce.py:76-77 | with no records, or none whose timestamp parsed, the result is exactly the current period |
| PayPeriods.RecordInExactlyOnePeriod | mobil_butce.py:79-93 | every parsed record timestamp up to the current period's end lies in exactly one generated period; later ones lie in none |
| PayPeriods.RecordInExactlyOnePeriodAsWritten | mobil_butce.py:67-94 | for the generator as written, a parsed timestamp is covered only when the walk start is not after the current start and the timestamp is not after the current period's end, and never twice |
| PayPeriods.PeriodStartExamples | mobil_butce.py:58-64 | with payday 19: 10 March 2024 gives 19 February, 25 March gives 19 March, and 5 January 2024 gives 19 December 2023 |
| PayPeriods.GenerateExample | mobil_butce.py:79-94 | a record of 5 November 2023 seen on 1 February 2024 gives four periods, from 19 January 2024 back to 19 October 2023 - 18 November 2023 |
| PayPeriods.LabelExample | mobil_butce.py:87-91 | the period begun on 19 February 2024 is labelled "19 Şubat 2024 - 18 Mart 2024" |
| Labels.MonthName | mobil_butce.py:87 | every month name is non-empty and contains no space or hyphen |
| Labels.MonthNameInjective | mobil_butce.py:87 | the twelve names in the table are pairwise different |
| Labels.NatTextRoundTrip | mobil_butce.py:88-89 | the decimal text of a day or year reads back as the same number |
| Labels.IntTextInjective | mobil_butce.py:88-89 | different integers get different texts (including negative ones with a minus sign) |
| Labels.IntText | mobil_butce.py:88-89 | Python's `str()` of an integer: non-empty, space-free, with a leading minus sign exactly for negative numbers |
| Labels.DateText | mobil_butce.py:88-89 | `f"{day} {month name} {year}"`: the day, the name from `aylar` and the year joined by single spaces |
| Labels.Label | mobil_butce.py:90-91 | `f"{bas_str} - {bit_str}"`: the start text, a hyphen and the end text joined by single spaces |
| Labels.LabelWords | mobil_butce.py:88-91 | a label is seven space-separated words: day, month name, year, "-", day, month name, year |
| Labels.LabelDeterminesDays | mobil_butce.py:88-91 | two labels are equal only if their starts are the same calendar day and so are their ends |
| Records.Select | mobil_butce.py:45 | a boolean-mask selection keeps every copy of each accepted row and no other row, in the original order |
| Records.OwnRows | mobil_butce.py:44-45 | with an owner column only the signed-in user's rows remain, each with its original multiplicity and order; without one the rows are unchanged |
| Records.InPeriodRows | mobil_butce.py:139 | the period filter keeps exactly the rows whose parsed timestamp is within `[start, end]`, in order; rows whose timestamp did not parse are never kept |
| Records.InSelected | mobil_butce.py:139 | a row passes the period filter when its timestamp parsed and lies in the period; a NaT timestamp fails both comparisons |
| Records.InPeriodRowsMember | mobil_butce.py:139 | a row is in the filtered result exactly when its timestamp parsed and lies within the period |
| Records.RowInExactlyOnePeriod | mobil_butce.py:133-139 | a row appears in some period's filtered rows exactly when its timestamp parsed and is not after the current period's end, and it never appears in two |
| Records.RowInExactlyOnePeriodAsWritten | mobil_butce.py:133-139 | for the generator as written, a row is shown in some period exactly when its timestamp parsed, the walk start is not after the current start, and the timestamp is not after the current period's end; never in two |
| Login.Lower | mobil_butce.py:104 | lower-casing keeps the length and maps each character on its own |
| Login.LowerIdempotent | mobil_butce.py:104 | lower-casing an already lower-cased name changes nothing |
| Login.SignIn | mobil_butce.py:104-110 | sign-in succeeds only with a name in `KULLANICILAR` (lines 14-18) whose password matches, and the session user is then the lower-cased name |
| Login.SignInIgnoresCase | mobil_butce.py:104-108 | typing the user name in any case gives the same outcome as typing it in lower case |
| Login.SignInOnlyListedPairs | mobil_butce.py:14-18 | sign-in succeeds exactly for the three listed name/password pairs (name compared after lower-casing) |
| Login.SignInExamples | mobil_butce.py:104-108 | "MUSTAFA" with "1234" signs in as "mustafa"; "kardes1" with "ABCD" is refused because passwords are case-sensitive |

## Left out

- The Streamlit interface: forms, tabs, session state, reruns, `time.sleep` and messages (mobil_butce.py:97-214 outside the lines above). This is framework plumbing.
- The Google Sheets connection and its reads and writes (`baglanti_kur`, `get_all_records`, `append_row`, `update_cell`, `delete_rows`). These are calls into an external service; the model takes the loaded rows as input.
- Pie charts and table display (lines 173-175). This is rendering.
- Amounts: the comma-to-dot parsing, the float conversion and the sums (lines 49-50, 144, 173). This is floating-point work, so `Record` has no amount field.
- Timestamp parsing with `pd.to_datetime(..., errors='coerce')` (line 48). Its result is taken as given: `Record.when` is `Some` for a parsed timestamp and `None` for NaT.
- `datetime.now()` (lines 57, 155). It is the `now` parameter.
- The descending sort by timestamp (line 51), including where pandas puts NaT rows. The filters are proved to keep whatever order they are given.
- The positional row mapping `idx + 2` used for edits and deletes (lines 187-192). It depends on the external sheet's layout.
- Python's `datetime` year range 1..9999 and its microseconds. Years are unbounded, so the `ValueError` for a period start before year 1 or after 9999 is not modelled. Record timestamps have minute precision, and only the date of `now` affects the generator.
- The `'Tarih_Obj' in df.columns` test (line 67). A non-empty frame always gets that column at line 48, so the condition reduces to "some timestamp parsed". The `KeyError` raised when the sheet has no `Tarih` column is not modelled.
- Login.Lower: lower-cases ASCII letters only. Python's `str.lower` is full Unicode; for example, the Kelvin sign lower-cases to `k`, so a non-ASCII spelling of a listed name can sign in under Python but not in the model.
- Records.OwnRows: treats the owner column as text. pandas compares non-text cells (a numeric user name, say) by value and type, and that is not modelled.

## Findings

| source | as written | input that shows it | evidently intended | confidence | as-written member | corrected member |
|---|---|---|---|---|---|---|
| mobil_butce.py:67-94 | the walk starts at the earliest record's period even when that period lies after the current one; the loop then never runs and the list is empty; the selector at line 134 has no option to return, the lookup `tum_donemler[secilen_donem_index]` at line 135 raises, and the page shows the error and stops | one record dated 2030-01-05 10:00, now = 2024-03-10 12:00, payday 19 | the list always contains the current period at index 0 (the selector's default), whatever the record dates | medium, not executed | PayPeriods.FutureRecordEmptiesList | PayPeriods.Generate |

`PayPeriods.GenerateAsWritten` is the code as written. `PayPeriods.Generate` caps the walk's first start at the current period start. `PayPeriods.AsWrittenAgrees` shows the two agree whenever no record lies in a later period than now. `Records.RowInExactlyOnePeriod` is stated for `Generate`.
