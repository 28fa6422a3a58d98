/**
 * The list of monthly archive labels ("2023-January", ...) that the build
 * report starts from: months(year, month) in status/builds.py, with the
 * current date passed in instead of read from the clock.
 */
module Months {
  import opened Wrappers
  import Text

  /** strftime('%B') in the C locale. */
  const MonthNames: seq<string> := [
    "January", "February", "March", "April", "May", "June",
    "July", "August", "September", "October", "November", "December"
  ]

  /** The date the program runs on (datetime.datetime.today()). */
  datatype Date = Date(year: int, month: int, day: int)

  predicate ValidDate(d: Date) {
    1 <= d.year <= 9999 && 1 <= d.month <= 12 && 1 <= d.day <= 31
  }

  /** A calendar month. */
  datatype MonthKey = MonthKey(year: int, month: int)

  predicate ValidKey(k: MonthKey) {
    1 <= k.year && 1 <= k.month <= 12
  }

  /** datetime.date(year, month, 1).strftime('%Y-%B'). */
  function Label(k: MonthKey): string
    requires ValidKey(k)
  {
    Text.Decimal(k.year) + "-" + MonthNames[k.month - 1]
  }

  function Labels(ks: seq<MonthKey>): (r: seq<string>)
    requires forall i :: 0 <= i < |ks| ==> ValidKey(ks[i])
    ensures |r| == |ks| && forall i :: 0 <= i < |ks| ==> r[i] == Label(ks[i])
  {
    seq(|ks|, i requires 0 <= i < |ks| => Label(ks[i]))
  }

  /** 1-based number of a month name, 0 for anything else. */
  function MonthNumber(name: string): (n: nat)
    ensures n <= 12 && (n > 0 ==> MonthNames[n - 1] == name)
  {
    if exists i :: 0 <= i < 12 && MonthNames[i] == name then
      var i :| 0 <= i < 12 && MonthNames[i] == name; i + 1
    else 0
  }

  /** Reads a label back into the month it names. */
  function ParseLabel(s: string): Option<MonthKey> {
    var parts := Text.Split(s, '-');
    if |parts| != 2 || parts[0] == [] || exists i :: 0 <= i < |parts[0]| && !Text.IsDigit(parts[0][i]) then None
    else
      var n := MonthNumber(parts[1]);
      if n == 0 then None else Some(MonthKey(Text.DecimalValue(parts[0]), n))
  }

  lemma MonthNamesDistinct(i: int, j: int)
    requires 0 <= i < 12 && 0 <= j < 12 && MonthNames[i] == MonthNames[j]
    ensures i == j
  {
  }

  lemma MonthNumberOf(month: int)
    requires 1 <= month <= 12
    ensures MonthNumber(MonthNames[month - 1]) == month
  {
    var n := MonthNumber(MonthNames[month - 1]);
    if n != month {
      MonthNamesDistinct(n - 1, month - 1);
    }
  }

  lemma SplitLabel(k: MonthKey)
    requires ValidKey(k)
    ensures Text.Split(Label(k), '-') == [Text.Decimal(k.year), MonthNames[k.month - 1]]
  {
    var d, name := Text.Decimal(k.year), MonthNames[k.month - 1];
    assert '-' !in d;
    assert '-' !in name;
    assert Text.Join([d, name], '-') == Label(k);
    Text.SplitJoin([d, name], '-');
  }

  /** The label of a month names that month and no other. */
  lemma LabelRoundTrip(k: MonthKey)
    requires ValidKey(k)
    ensures ParseLabel(Label(k)) == Some(k)
  {
    SplitLabel(k);
    MonthNumberOf(k.month);
    Text.DecimalRoundTrip(k.year);
  }

  // ------------------------------------------------------------ months() as written

  /** The guard of the loop in months(): year <= today.year and month < today.month + 1. */
  predicate InLoop(k: MonthKey, today: Date) {
    k.year <= today.year && k.month < today.month + 1
  }

  /** One step of the loop: month += 1, wrapping 13 to January of the next year. */
  function Next(k: MonthKey): MonthKey {
    if k.month + 1 > 12 then MonthKey(k.year + 1, 1) else MonthKey(k.year, k.month + 1)
  }

  /** The months the loop visits from k on. */
  function Walk(k: MonthKey, today: Date): (r: seq<MonthKey>)
    requires ValidDate(today) && 1 <= k.month
    ensures r == [] <==> !InLoop(k, today)
    ensures r != [] ==> r[0] == k
    ensures forall i :: 0 <= i < |r| ==> 1 <= r[i].month <= today.month && k.year <= r[i].year <= today.year
    ensures forall i :: 0 <= i < |r| - 1 ==> r[i + 1] == Next(r[i])
    decreases (today.year - k.year) * 12 + 13 - k.month
  {
    if !InLoop(k, today) then [] else [k] + Walk(Next(k), today)
  }

  /**
   * The exact length of the walk: the loop stops at the first month number
   * above today's, so it leaves k's year only when today is in December.
   */
  lemma {:induction false} WalkLength(k: MonthKey, today: Date)
    requires ValidDate(today) && 1 <= k.month && InLoop(k, today)
    ensures |Walk(k, today)| == if today.month == 12 then (today.year - k.year) * 12 + 13 - k.month
                                else today.month - k.month + 1
    decreases (today.year - k.year) * 12 + 13 - k.month
  {
    if InLoop(Next(k), today) {
      WalkLength(Next(k), today);
    }
  }

  function ValueError(k: MonthKey): string {
    if k.year < 1 then "year " + Text.IntToString(k.year) + " is out of range"
    else "month must be in 1..12"
  }

  /** What months(year, month) returns or raises. */
  function MonthsSpec(year: int, month: int, today: Date): Result<seq<string>>
    requires ValidDate(today)
  {
    var k := MonthKey(year, month);
    if !InLoop(k, today) then Ok([])
    else if year < 1 || month < 1 then Err(ValueError(k))
    else Ok(Labels(Walk(k, today)))
  }

  /** The labels the loop appends from the valid month k on. */
  function LoopLabels(k: MonthKey, today: Date): seq<string>
    requires ValidDate(today) && ValidKey(k)
    decreases (today.year - k.year) * 12 + 13 - k.month
  {
    if !InLoop(k, today) then [] else [Label(k)] + LoopLabels(Next(k), today)
  }

  lemma {:induction false} LoopLabelsOfWalk(k: MonthKey, today: Date)
    requires ValidDate(today) && ValidKey(k)
    ensures forall i :: 0 <= i < |Walk(k, today)| ==> ValidKey(Walk(k, today)[i])
    ensures LoopLabels(k, today) == Labels(Walk(k, today))
    decreases (today.year - k.year) * 12 + 13 - k.month
  {
    if InLoop(k, today) {
      LoopLabelsOfWalk(Next(k), today);
      var w := Walk(Next(k), today);
      assert Walk(k, today) == [k] + w;
      LabelsCons(k, w);
    }
  }

  lemma LabelsCons(k: MonthKey, ks: seq<MonthKey>)
    requires ValidKey(k) && forall i :: 0 <= i < |ks| ==> ValidKey(ks[i])
    ensures forall i :: 0 <= i < |[k] + ks| ==> ValidKey(([k] + ks)[i])
    ensures Labels([k] + ks) == [Label(k)] + Labels(ks)
  {
    var a, b := Labels([k] + ks), [Label(k)] + Labels(ks);
    forall i | 0 <= i < |a| ensures a[i] == b[i] {
      if i > 0 {
        assert ([k] + ks)[i] == ks[i - 1];
      }
    }
  }

  /** When the loop starts on a valid month, months() returns what the loop appends. */
  lemma MonthsOfLoop(year: int, month: int, today: Date)
    requires ValidDate(today) && ValidKey(MonthKey(year, month)) && InLoop(MonthKey(year, month), today)
    ensures MonthsSpec(year, month, today) == Ok(LoopLabels(MonthKey(year, month), today))
  {
    LoopLabelsOfWalk(MonthKey(year, month), today);
  }

  /** One pass of the loop: appending the month's label leaves the labels of the later months to append. */
  lemma LoopStep(done: seq<string>, k: MonthKey, today: Date, total: seq<string>)
    requires ValidDate(today) && ValidKey(k) && InLoop(k, today)
    requires done + LoopLabels(k, today) == total
    ensures ValidKey(Next(k))
    ensures (done + [Label(k)]) + LoopLabels(Next(k), today) == total
  {
    var rest := LoopLabels(Next(k), today);
    assert LoopLabels(k, today) == [Label(k)] + rest;
    assert done + [Label(k)] + rest == done + ([Label(k)] + rest);
  }

  /** months(year, month): the loop of status/builds.py. */
  method Months(year: int, month: int, today: Date) returns (r: Result<seq<string>>)
    requires ValidDate(today)
    ensures r == MonthsSpec(year, month, today)
  {
    var y, m := year, month;
    var mnths: seq<string> := [];
    while y <= today.year && m < today.month + 1
      invariant mnths == [] ==> y == year && m == month
      invariant mnths != [] ==> ValidKey(MonthKey(year, month)) && InLoop(MonthKey(year, month), today)
      invariant mnths != [] ==> ValidKey(MonthKey(y, m))
      invariant mnths != [] ==>
        mnths + LoopLabels(MonthKey(y, m), today) == LoopLabels(MonthKey(year, month), today)
      decreases (today.year - y) * 12 + 13 - m
    {
      if y < 1 || m < 1 {
        // datetime.date(y, m, 1) raises; only the first visit can get here
        return Err(ValueError(MonthKey(y, m)));
      }
      var k := MonthKey(y, m);
      LoopStep(mnths, k, today, LoopLabels(MonthKey(year, month), today));
      mnths := mnths + [Label(k)];
      m := m + 1;
      if m > 12 {
        y := y + 1;
        m := 1;
      }
      assert MonthKey(y, m) == Next(k);
    }
    if mnths != [] {
      assert LoopLabels(MonthKey(y, m), today) == [];
      assert mnths + [] == mnths;
      MonthsOfLoop(year, month, today);
    }
    return Ok(mnths);
  }

  // ------------------------------------------------------------ months() as intended

  /** (k.year, k.month) is not later than today's month. */
  predicate NotAfter(k: MonthKey, today: Date) {
    k.year < today.year || (k.year == today.year && k.month <= today.month)
  }

  /** Every month from k through today's month, in order. */
  function WalkThrough(k: MonthKey, today: Date): (r: seq<MonthKey>)
    requires ValidDate(today) && 1 <= k.month <= 12
    ensures r == [] <==> !NotAfter(k, today)
    ensures r != [] ==> r[0] == k && r[|r| - 1] == MonthKey(today.year, today.month)
    ensures NotAfter(k, today) ==> |r| == (today.year - k.year) * 12 + today.month - k.month + 1
    ensures forall i :: 0 <= i < |r| ==> 1 <= r[i].month <= 12 && NotAfter(r[i], today) && k.year <= r[i].year
    ensures forall i :: 0 <= i < |r| - 1 ==> r[i + 1] == Next(r[i])
    decreases (today.year - k.year) * 12 + today.month - k.month
  {
    if !NotAfter(k, today) then [] else [k] + WalkThrough(Next(k), today)
  }

  /** months(year, month) with the loop guard (year, month) <= (today.year, today.month). */
  function MonthsThrough(year: int, month: int, today: Date): (r: Result<seq<string>>)
    requires ValidDate(today)
    ensures 1 <= year && 1 <= month <= 12 && NotAfter(MonthKey(year, month), today) ==>
      r.Ok? && |r.value| == (today.year - year) * 12 + today.month - month + 1 &&
      r.value[0] == Label(MonthKey(year, month)) &&
      r.value[|r.value| - 1] == Label(MonthKey(today.year, today.month))
  {
    var k := MonthKey(year, month);
    if !NotAfter(k, today) || month > 12 then Ok([])
    else if year < 1 || month < 1 then Err(ValueError(k))
    else Ok(Labels(WalkThrough(k, today)))
  }

  /** Started in November 2022 on 15 January 2023, months() yields nothing instead of three months. */
  lemma MonthsMissesYearChange()
    ensures MonthsSpec(2022, 11, Date(2023, 1, 15)) == Ok([])
    ensures MonthsThrough(2022, 11, Date(2023, 1, 15)) ==
      Ok([Label(MonthKey(2022, 11)), Label(MonthKey(2022, 12)), Label(MonthKey(2023, 1))])
  {
    var today := Date(2023, 1, 15);
    var w := WalkThrough(MonthKey(2022, 11), today);
    assert w == [MonthKey(2022, 11)] + WalkThrough(MonthKey(2022, 12), today);
    assert WalkThrough(MonthKey(2022, 12), today) == [MonthKey(2022, 12)] + WalkThrough(MonthKey(2023, 1), today);
    assert WalkThrough(MonthKey(2023, 1), today) == [MonthKey(2023, 1)] + WalkThrough(MonthKey(2023, 2), today);
    assert WalkThrough(MonthKey(2023, 2), today) == [];
    assert w == [MonthKey(2022, 11), MonthKey(2022, 12), MonthKey(2023, 1)];
    var ls := Labels(w);
    assert ls == [Label(MonthKey(2022, 11)), Label(MonthKey(2022, 12)), Label(MonthKey(2023, 1))];
  }
}
