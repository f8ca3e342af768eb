/** The read-only analytics over the store (src/algorithms.py). Each source
    function is a method that loops over the rows its query returns,
    proved equal to a specification function; the properties the reports
    promise are lemmas about those functions. Hours are exact rationals
    (seconds / 3600); the final round(..., 2) is not modelled. */
module Algorithms {
  import opened Common
  import opened Dicts
  import opened Timestamps
  import opened Store
  import Models

  /** An exact quotient num / den. */
  datatype Ratio = Ratio(num: int, den: int)

  const Zero := Ratio(0, 1)

  /** statistics.mean of repair times in hours, given in whole seconds. */
  function MeanHours(seconds: seq<int>): Ratio
  {
    if seconds == [] then Zero else Ratio(Sum(seconds), 3600 * |seconds|)
  }

  function Sum(xs: seq<int>): int
  {
    if xs == [] then 0 else Sum(xs[..|xs| - 1]) + xs[|xs| - 1]
  }

  /** datetime.strptime(s, "%Y-%m-%d %H:%M:%S") on a nullable column: NULL
      (a TypeError in Python) fails like malformed text. */
  function ParseStamp(s: Option<string>): Option<DateTime>
  {
    match s case None => None case Some(t) => ParseDateTime(t)
  }

  /** (completed - created).total_seconds(), None where either strptime fails. */
  function RepairSeconds(created: string, completed: Option<string>): (r: Option<int>)
    ensures r.Some? <==> ParseDateTime(created).Some? && ParseStamp(completed).Some?
  {
    match (ParseDateTime(created), ParseStamp(completed))
    case (Some(a), Some(b)) => Some(ElapsedSeconds(a, b))
    case _ => None
  }

  // ---------------------------------------------------------------------
  // calculate_average_repair_time

  /** SELECT created_date, completion_date FROM requests WHERE completion_date IS NOT NULL. */
  function CompletedRows(rows: seq<Request>): seq<Request>
  {
    Select(rows, (r: Request) => r.completionDate.Some?)
  }

  /** The repair times of rs in seconds, in row order; None as soon as a
      date fails to parse (the exception ends the whole computation). */
  function RepairTimes(rs: seq<Request>): Option<seq<int>>
  {
    if rs == [] then Some([])
    else
      match (RepairTimes(rs[..|rs| - 1]), RepairSeconds(rs[|rs| - 1].createdDate, rs[|rs| - 1].completionDate))
      case (Some(ts), Some(t)) => Some(ts + [t])
      case _ => None
  }

  /** What calculate_average_repair_time returns, before rounding. */
  function AverageRepairTime(rows: seq<Request>): Ratio
  {
    var completed := CompletedRows(rows);
    if completed == [] then Zero
    else match RepairTimes(completed)
      case None => Zero
      case Some(ts) => MeanHours(ts)
  }

  lemma {:induction false} RepairTimesLength(rs: seq<Request>)
    ensures RepairTimes(rs).Some? ==> |RepairTimes(rs).value| == |rs|
  {
    if rs != [] { RepairTimesLength(rs[..|rs| - 1]); }
  }

  /** Once a prefix of the rows fails to parse, so do the rows. */
  lemma {:induction false} RepairTimesPrefixFails(rs: seq<Request>, i: nat)
    requires i <= |rs| && RepairTimes(rs[..i]).None?
    ensures RepairTimes(rs).None?
    decreases |rs| - i
  {
    if i < |rs| {
      assert rs[..i + 1][..i] == rs[..i];
      RepairTimesPrefixFails(rs, i + 1);
    } else {
      assert rs[..i] == rs;
    }
  }

  method CalculateAverageRepairTime(rows: seq<Request>) returns (hours: Ratio)
    ensures hours == AverageRepairTime(rows)
  {
    var completed := CompletedRows(rows);
    if completed == [] {
      return Zero;
    }
    var repairTimes: seq<int> := [];
    var i := 0;
    while i < |completed|
      invariant 0 <= i <= |completed|
      invariant RepairTimes(completed[..i]) == Some(repairTimes)
    {
      var r := completed[i];
      RepairTimesStep(completed, i, repairTimes);
      // both strptime calls; either failing raises and the method returns 0
      var seconds := RepairSeconds(r.createdDate, r.completionDate);
      if seconds.None? {
        RepairTimesPrefixFails(completed, i + 1);
        return Zero;
      }
      repairTimes := repairTimes + [seconds.value];
      i := i + 1;
      assert RepairTimes(completed[..i]) == Some(repairTimes);
    }
    assert completed[..i] == completed;
    hours := MeanHours(repairTimes);
  }

  lemma RepairTimesStep(rs: seq<Request>, i: nat, ts: seq<int>)
    requires i < |rs| && RepairTimes(rs[..i]) == Some(ts)
    ensures RepairTimes(rs[..i + 1]) ==
      match RepairSeconds(rs[i].createdDate, rs[i].completionDate)
      case None => None
      case Some(t) => Some(ts + [t])
  {
    assert rs[..i + 1][..i] == rs[..i];
  }

  /** No row with a completion date: the average is 0. */
  lemma AverageWithoutCompletedIsZero(rows: seq<Request>)
    requires forall i :: 0 <= i < |rows| ==> rows[i].completionDate.None?
    ensures AverageRepairTime(rows) == Zero
  {
    assert forall r :: r in rows ==> r.completionDate.None?;
  }

  /** One completed row whose dates do not parse makes the whole average 0,
      whatever the other rows hold. */
  lemma AverageAbortsOnBadDate(rows: seq<Request>, k: nat)
    requires k < |rows| && rows[k].completionDate.Some?
    requires RepairSeconds(rows[k].createdDate, rows[k].completionDate).None?
    ensures AverageRepairTime(rows) == Zero
  {
    var c := CompletedRows(rows);
    assert rows[k] in c;
    var j :| 0 <= j < |c| && c[j] == rows[k];
    if RepairTimes(c).Some? {
      RepairTimesGood(c, j);
    }
  }

  /** Every row of a parsed sequence parsed. */
  lemma {:induction false} RepairTimesGood(rs: seq<Request>, j: nat)
    requires j < |rs| && RepairTimes(rs).Some?
    ensures RepairSeconds(rs[j].createdDate, rs[j].completionDate).Some?
    ensures |RepairTimes(rs).value| == |rs|
    ensures RepairTimes(rs).value[j] == RepairSeconds(rs[j].createdDate, rs[j].completionDate).value
  {
    RepairTimesLength(rs);
    if j < |rs| - 1 {
      RepairTimesGood(rs[..|rs| - 1], j);
    }
  }

  /** The average lies between the shortest and the longest repair: when
      some completed row exists and all of them parse, lo <= every repair
      time (in hours) <= hi implies lo <= average <= hi; otherwise the
      average is the 0 of the early return or of the except branch. */
  lemma AverageBetweenBounds(rows: seq<Request>, lo: int, hi: int)
    requires forall j :: 0 <= j < |rows| && rows[j].completionDate.Some? ==>
      var t := RepairSeconds(rows[j].createdDate, rows[j].completionDate);
      t.Some? ==> lo * 3600 <= t.value <= hi * 3600
    ensures var c := CompletedRows(rows); var a := AverageRepairTime(rows);
      a.den > 0 &&
      (c == [] || RepairTimes(c).None? ==> a == Zero) &&
      (c != [] && RepairTimes(c).Some? ==> lo * a.den <= a.num <= hi * a.den)
  {
    var c := CompletedRows(rows);
    if c != [] && RepairTimes(c).Some? {
      var ts := RepairTimes(c).value;
      RepairTimesLength(c);
      forall j | 0 <= j < |ts| ensures lo * 3600 <= ts[j] <= hi * 3600 {
        RepairTimesGood(c, j);
        assert c[j] in rows;
      }
      MeanBounds(ts, lo, hi);
    }
  }

  lemma MeanBounds(ts: seq<int>, lo: int, hi: int)
    requires ts != []
    requires forall j :: 0 <= j < |ts| ==> lo * 3600 <= ts[j] <= hi * 3600
    ensures var a := MeanHours(ts); a.den > 0 && lo * a.den <= a.num <= hi * a.den
  {
    SumBounds(ts, lo * 3600, hi * 3600);
    var n := |ts|;
    assert lo * 3600 * n == lo * (3600 * n) && hi * 3600 * n == hi * (3600 * n);
  }

  lemma {:induction false} SumBounds(xs: seq<int>, lo: int, hi: int)
    requires forall j :: 0 <= j < |xs| ==> lo <= xs[j] <= hi
    ensures lo * |xs| <= Sum(xs) <= hi * |xs|
  {
    if xs != [] {
      SumBounds(xs[..|xs| - 1], lo, hi);
    }
  }

  /** The documented example: one repair from 2024-01-01 10:00:00 to
      2024-01-02 15:00:00 (the rows hold the printed forms of these
      timestamps) averages 29 hours. */
  lemma AverageTwentyNineHours(r: Request)
    requires r.createdDate == FormatDateTime(DateTime(Date(2024, 1, 1), 10, 0, 0))
    requires r.completionDate == Some(FormatDateTime(DateTime(Date(2024, 1, 2), 15, 0, 0)))
    ensures var a := AverageRepairTime([r]); a.num == 29 * a.den && a.den > 0
  {
    var created, completed := DateTime(Date(2024, 1, 1), 10, 0, 0), DateTime(Date(2024, 1, 2), 15, 0, 0);
    ParseFormatDateTime(created);
    ParseFormatDateTime(completed);
    assert ElapsedSeconds(created, completed) == 29 * 3600;
    AverageOfOne(r, 29 * 3600);
  }

  /** A single completed request averages its own repair time. */
  lemma AverageOfOne(r: Request, t: int)
    requires r.completionDate.Some?
    requires RepairSeconds(r.createdDate, r.completionDate) == Some(t)
    ensures AverageRepairTime([r]) == Ratio(t, 3600)
  {
    CompletedOne(r);
    RepairTimesOne(r, t);
    assert Sum([t]) == t by {
      assert [t][..0] == [];
    }
  }

  lemma CompletedOne(r: Request)
    requires r.completionDate.Some?
    ensures CompletedRows([r]) == [r]
  {
    assert r in CompletedRows([r]);
  }

  lemma RepairTimesOne(r: Request, t: int)
    requires RepairSeconds(r.createdDate, r.completionDate) == Some(t)
    ensures RepairTimes([r]) == Some([t])
  {
    assert [r][..0] == [];
    assert RepairTimes([r][..0]) == Some([]);
    assert [] + [t] == [t];
  }

  // ---------------------------------------------------------------------
  // calculate_status_distribution

  /** One (status, count, percentage) tuple. */
  datatype StatusShare = StatusShare(status: string, count: nat, percentage: Ratio)

  /** SELECT status, COUNT(*) FROM requests GROUP BY status ORDER BY COUNT(*) DESC. */
  function StatusGroups(rows: seq<Request>): Dict<nat>
  {
    SortByCountDesc(Tally(Statuses(rows)))
  }

  function Share(group: (string, nat), total: nat): StatusShare
  {
    StatusShare(group.0, group.1, Ratio(group.1 * 100, total))
  }

  function Shares(groups: Dict<nat>, total: nat): (r: seq<StatusShare>)
    ensures |r| == |groups| && forall i :: 0 <= i < |groups| ==> r[i] == Share(groups[i], total)
  {
    seq(|groups|, i requires 0 <= i < |groups| => Share(groups[i], total))
  }

  /** What calculate_status_distribution returns, before rounding. */
  function StatusDistribution(rows: seq<Request>): seq<StatusShare>
  {
    if |rows| == 0 then [] else Shares(StatusGroups(rows), |rows|)
  }

  method CalculateStatusDistribution(rows: seq<Request>) returns (result: seq<StatusShare>)
    ensures result == StatusDistribution(rows)
  {
    var total := |rows|;
    if total == 0 {
      return [];
    }
    var statusCounts := StatusGroups(rows);
    result := [];
    var i := 0;
    while i < |statusCounts|
      invariant 0 <= i <= |statusCounts|
      invariant result == Shares(statusCounts[..i], total)
    {
      var (status, count) := statusCounts[i];
      SharesSnoc(statusCounts, i, total);
      result := result + [StatusShare(status, count, Ratio(count * 100, total))];
      i := i + 1;
    }
    assert statusCounts[..i] == statusCounts;
  }

  lemma SharesSnoc(groups: Dict<nat>, i: nat, total: nat)
    requires i < |groups|
    ensures Shares(groups[..i + 1], total) == Shares(groups[..i], total) + [Share(groups[i], total)]
  {
    var a, b := Shares(groups[..i + 1], total), Shares(groups[..i], total) + [Share(groups[i], total)];
    assert |a| == |b|;
    forall k | 0 <= k < |a| ensures a[k] == b[k] {
      assert groups[..i + 1][k] == groups[k];
    }
  }

  function ShareCounts(shares: seq<StatusShare>): nat
  {
    if shares == [] then 0 else ShareCounts(shares[..|shares| - 1]) + shares[|shares| - 1].count
  }

  function SharePercentages(shares: seq<StatusShare>): int
  {
    if shares == [] then 0 else SharePercentages(shares[..|shares| - 1]) + shares[|shares| - 1].percentage.num
  }

  lemma {:induction false} TotalSnoc(d: Dict<nat>, e: (string, nat))
    ensures Total(d + [e]) == Total(d) + e.1
  {
    if d != [] {
      assert (d + [e])[1..] == d[1..] + [e];
      TotalSnoc(d[1..], e);
    }
  }

  lemma {:induction false} SharesSums(groups: Dict<nat>, total: nat)
    ensures ShareCounts(Shares(groups, total)) == Total(groups)
    ensures SharePercentages(Shares(groups, total)) == 100 * Total(groups)
  {
    if groups != [] {
      var init := groups[..|groups| - 1];
      SharesSums(init, total);
      assert Shares(groups, total)[..|groups| - 1] == Shares(init, total);
      assert groups == init + [groups[|groups| - 1]];
      TotalSnoc(init, groups[|groups| - 1]);
    }
  }

  /** The GROUP BY result: ordered by count, largest first; each status
      of the table exactly once, with its number of rows. */
  lemma StatusGroupsExact(rows: seq<Request>)
    ensures var g := StatusGroups(rows);
      (forall i :: 0 < i < |g| ==> g[i - 1].1 >= g[i].1) &&
      (forall i :: 0 <= i < |g| ==> g[i].1 == Count(Statuses(rows), g[i].0) > 0) &&
      (forall i, j :: 0 <= i < j < |g| ==> g[i].0 != g[j].0) &&
      (forall s :: s in Statuses(rows) ==> exists i :: 0 <= i < |g| && g[i].0 == s) &&
      Total(g) == |rows|
  {
    TallyCounts(Statuses(rows));
    StatusGroupsCount(rows);
    StatusGroupsDistinct(rows);
    StatusGroupsCover(rows);
  }

  lemma StatusGroupsCount(rows: seq<Request>)
    ensures var g := StatusGroups(rows);
      forall i :: 0 <= i < |g| ==> g[i].1 == Count(Statuses(rows), g[i].0) > 0
  {
    var ks := Statuses(rows);
    var tally := Tally(ks);
    var g := StatusGroups(rows);
    TallyCounts(ks);
    forall i | 0 <= i < |g| ensures g[i].1 == Count(ks, g[i].0) > 0 {
      assert g[i] in multiset(tally);
      var j :| 0 <= j < |tally| && tally[j] == g[i];
      GetEntry(tally, j);
      CountPositive(ks, g[i].0);
    }
  }

  lemma StatusGroupsDistinct(rows: seq<Request>)
    ensures var g := StatusGroups(rows);
      forall i, j :: 0 <= i < j < |g| ==> g[i].0 != g[j].0
  {
    var tally := Tally(Statuses(rows));
    var g := StatusGroups(rows);
    TallyCounts(Statuses(rows));
    forall i, j | 0 <= i < j < |g| ensures g[i].0 != g[j].0 {
      SortedKeysDistinct(tally, g, i, j);
    }
  }

  lemma StatusGroupsCover(rows: seq<Request>)
    ensures var g := StatusGroups(rows);
      forall s :: s in Statuses(rows) ==> exists i :: 0 <= i < |g| && g[i].0 == s
  {
    var ks := Statuses(rows);
    var tally := Tally(ks);
    var g := StatusGroups(rows);
    TallyCounts(ks);
    forall s | s in ks ensures exists i :: 0 <= i < |g| && g[i].0 == s {
      GetKeys(tally, s);
      var e := (s, Get(tally, s).value);
      assert e in multiset(g);
      var i :| 0 <= i < |g| && g[i] == e;
    }
  }

  /** No rows: an empty list. Otherwise the entries are ordered by count,
      largest first. */
  lemma StatusDistributionOrdered(rows: seq<Request>)
    ensures |rows| == 0 ==> StatusDistribution(rows) == []
    ensures forall i :: 0 < i < |StatusDistribution(rows)| ==>
      StatusDistribution(rows)[i - 1].count >= StatusDistribution(rows)[i].count
  {
    if |rows| > 0 {
      StatusGroupsExact(rows);
    }
  }

  /** Each entry counts the rows of its status, with percentage
      count / total * 100, and no status appears twice. */
  lemma StatusDistributionCounts(rows: seq<Request>)
    ensures forall i :: 0 <= i < |StatusDistribution(rows)| ==>
      var e := StatusDistribution(rows)[i];
      e.count == Count(Statuses(rows), e.status) > 0 && e.percentage == Ratio(e.count * 100, |rows|)
    ensures forall i, j :: 0 <= i < j < |StatusDistribution(rows)| ==>
      StatusDistribution(rows)[i].status != StatusDistribution(rows)[j].status
  {
    if |rows| > 0 {
      StatusGroupsExact(rows);
    }
  }

  /** Every status the table holds has an entry. */
  lemma StatusDistributionCovers(rows: seq<Request>, s: string)
    requires s in Statuses(rows)
    ensures exists i :: 0 <= i < |StatusDistribution(rows)| && StatusDistribution(rows)[i].status == s
  {
    StatusGroupsExact(rows);
    var g := StatusGroups(rows);
    var r := StatusDistribution(rows);
    var i :| 0 <= i < |g| && g[i].0 == s;
    assert r[i].status == s;
  }

  /** The counts add up to the number of rows; each percentage lies in
      [0, 100] and together they add up to exactly 100. */
  lemma StatusDistributionTotals(rows: seq<Request>)
    requires |rows| > 0
    ensures var r := StatusDistribution(rows);
      ShareCounts(r) == |rows| && SharePercentages(r) == 100 * |rows| &&
      forall i :: 0 <= i < |r| ==> 0 <= r[i].percentage.num <= 100 * r[i].percentage.den
  {
    StatusGroupsExact(rows);
    var g := StatusGroups(rows);
    SharesSums(g, |rows|);
    forall i | 0 <= i < |g| ensures g[i].1 <= |rows| {
      CountAtMost(Statuses(rows), g[i].0);
    }
  }

  lemma {:induction false} CountAtMost(ks: seq<string>, k: string)
    ensures Count(ks, k) <= |ks|
  {
    if ks != [] { CountAtMost(ks[..|ks| - 1], k); }
  }

  /** A permutation of a dictionary with distinct keys has distinct keys. */
  lemma SortedKeysDistinct(d: Dict<nat>, p: Dict<nat>, i: nat, j: nat)
    requires DistinctKeys(d) && multiset(p) == multiset(d)
    requires i < j < |p|
    ensures p[i].0 != p[j].0
  {
    assert p[i] in multiset(d) && p[j] in multiset(d);
    var a :| 0 <= a < |d| && d[a] == p[i];
    var b :| 0 <= b < |d| && d[b] == p[j];
    if p[i].0 == p[j].0 {
      assert a == b;
      assert p[i] == p[j];
      assert multiset(p)[p[i]] >= 2 by {
        assert p == p[..i] + [p[i]] + p[i + 1..j] + [p[j]] + p[j + 1..];
      }
      MultiplicityOne(d, a);
    }
  }

  /** In a dictionary with distinct keys every entry occurs once. */
  lemma {:induction false} MultiplicityOne(d: Dict<nat>, a: nat)
    requires DistinctKeys(d) && a < |d|
    ensures multiset(d)[d[a]] == 1
  {
    if |d| == 1 {
    } else {
      var init, last := d[..|d| - 1], d[|d| - 1];
      assert d == init + [last];
      if a < |d| - 1 {
        MultiplicityOne(init, a);
        assert last != d[a];
      } else {
        assert last !in init;
      }
    }
  }

  // ---------------------------------------------------------------------
  // calculate_request_statistics_by_device

  /** device_type never decreases along the rows (binary text order). */
  predicate ByDeviceType(rows: seq<Request>)
  {
    forall i :: 0 < i < |rows| ==> TextLe(rows[i - 1].deviceType, rows[i].deviceType)
  }

  lemma {:induction false} ByDeviceTypePairs(rows: seq<Request>, i: nat, j: nat)
    requires ByDeviceType(rows) && i <= j < |rows|
    ensures TextLe(rows[i].deviceType, rows[j].deviceType)
    decreases j - i
  {
    if i == j {
      TextLeReflexive(rows[i].deviceType);
    } else {
      ByDeviceTypePairs(rows, i + 1, j);
      TextLeTransitive(rows[i].deviceType, rows[i + 1].deviceType, rows[j].deviceType);
    }
  }

  function InsertByDeviceType(e: Request, rows: seq<Request>): (r: seq<Request>)
    requires ByDeviceType(rows)
    ensures ByDeviceType(r)
    ensures multiset(r) == multiset(rows) + multiset{e}
    ensures r != [] && (r[0] == e || (rows != [] && r[0] == rows[0]))
  {
    if rows == [] || TextLe(e.deviceType, rows[0].deviceType) then [e] + rows
    else
      TextLeTotal(rows[0].deviceType, e.deviceType);
      var rest := InsertByDeviceType(e, rows[1..]);
      assert rows == [rows[0]] + rows[1..];
      assert ([rows[0]] + rest)[1..] == rest;
      [rows[0]] + rest
  }

  /** ORDER BY device_type, as a stable sort of the scanned rows (SQL
      leaves the order of equal device types open). */
  function SortByDeviceType(rows: seq<Request>): (r: seq<Request>)
    ensures ByDeviceType(r)
    ensures multiset(r) == multiset(rows)
  {
    if rows == [] then []
    else
      assert rows == [rows[0]] + rows[1..];
      InsertByDeviceType(rows[0], SortByDeviceType(rows[1..]))
  }

  /** status == 'Завершена' and completed_str: the rows whose repair time counts. */
  predicate Finished(r: Request)
  {
    r.status == Models.Completed && Truthy(r.completionDate)
  }

  /** Both timestamps of the row parse. */
  predicate Parses(r: Request)
  {
    RepairSeconds(r.createdDate, r.completionDate).Some?
  }

  /** Every finished row parses: the loop raises for no row. */
  predicate FinishedParse(rows: seq<Request>)
  {
    forall i :: 0 <= i < |rows| && Finished(rows[i]) ==> Parses(rows[i])
  }

  function OfType(d: string): Request -> bool
  {
    (r: Request) => r.deviceType == d
  }

  function FinishedOfType(d: string): Request -> bool
  {
    (r: Request) => r.deviceType == d && Finished(r)
  }

  function ProblemsOf(rows: seq<Request>): (s: seq<string>)
    ensures |s| == |rows| && forall i :: 0 <= i < |rows| ==> s[i] == rows[i].problemDescription
  {
    seq(|rows|, i requires 0 <= i < |rows| => rows[i].problemDescription)
  }

  /** The per-type record of the grouping loop: 'total', 'completed',
      'repair_times' (kept in seconds) and 'problems'. */
  datatype DeviceGroup = DeviceGroup(total: nat, completed: nat, repairSeconds: seq<int>, problems: Dict<nat>)

  const NewGroup := DeviceGroup(0, 0, [], [])

  /** total += 1 and problems[problem] += 1 (or = 1). */
  function Tick(g: DeviceGroup, r: Request): DeviceGroup
  {
    g.(total := g.total + 1, problems := Bump(g.problems, r.problemDescription))
  }

  /** completed += 1 and repair_times.append(hours). */
  function Record(g: DeviceGroup, seconds: int): DeviceGroup
  {
    g.(completed := g.completed + 1, repairSeconds := g.repairSeconds + [seconds])
  }

  /** device_stats[device_type], created empty when missing. */
  function GroupFor(groups: Dict<DeviceGroup>, deviceType: string): DeviceGroup
  {
    match Get(groups, deviceType) case Some(g) => g case None => NewGroup
  }

  /** One iteration of the grouping loop; None where strptime raises. */
  function AddToGroups(groups: Dict<DeviceGroup>, r: Request): Option<Dict<DeviceGroup>>
  {
    var g := Tick(GroupFor(groups, r.deviceType), r);
    if !Finished(r) then Some(Put(groups, r.deviceType, g))
    else match RepairSeconds(r.createdDate, r.completionDate)
      case None => None
      case Some(t) => Some(Put(groups, r.deviceType, Record(g, t)))
  }

  /** device_stats after the grouping loop over rows, None once it raised. */
  function GroupRows(rows: seq<Request>): Option<Dict<DeviceGroup>>
  {
    if rows == [] then Some([])
    else match GroupRows(rows[..|rows| - 1])
      case None => None
      case Some(groups) => AddToGroups(groups, rows[|rows| - 1])
  }

  function TimesOf(rows: seq<Request>): seq<int>
  {
    match RepairTimes(rows) case Some(ts) => ts case None => []
  }

  /** The group of type d, defined directly from the rows of that type:
      how many there are, how many are finished, their repair times in row
      order and the counting dictionary of their problems. */
  function GroupOf(rows: seq<Request>, d: string): DeviceGroup
  {
    DeviceGroup(
      |Select(rows, OfType(d))|,
      |Select(rows, FinishedOfType(d))|,
      TimesOf(Select(rows, FinishedOfType(d))),
      Tally(ProblemsOf(Select(rows, OfType(d)))))
  }

  /** One entry of the result: the five keys of a device's statistics. */
  datatype DeviceStats = DeviceStats(
    totalRequests: nat,
    completedRequests: nat,
    averageRepairTimeHours: Ratio,
    mostCommonProblem: string,
    completionRate: Ratio)

  const NoData := "Нет данных"

  function MostCommon(problems: Dict<nat>): string
  {
    if problems == [] then NoData else problems[FirstMaxIndex(problems)].0
  }

  function Summarise(g: DeviceGroup): DeviceStats
  {
    DeviceStats(
      g.total,
      g.completed,
      MeanHours(g.repairSeconds),
      MostCommon(g.problems),
      if g.total > 0 then Ratio(g.completed * 100, g.total) else Zero)
  }

  function Summaries(groups: Dict<DeviceGroup>): (r: Dict<DeviceStats>)
    ensures |r| == |groups| && forall i :: 0 <= i < |groups| ==> r[i] == (groups[i].0, Summarise(groups[i].1))
  {
    seq(|groups|, i requires 0 <= i < |groups| => (groups[i].0, Summarise(groups[i].1)))
  }

  /** What calculate_request_statistics_by_device returns, before rounding:
      {} once a finished row's dates fail to parse. */
  function DeviceStatistics(rows: seq<Request>): Dict<DeviceStats>
  {
    match GroupRows(SortByDeviceType(rows))
    case None => []
    case Some(groups) => Summaries(groups)
  }

  method CalculateRequestStatisticsByDevice(rows: seq<Request>) returns (result: Dict<DeviceStats>)
    ensures result == DeviceStatistics(rows)
  {
    var allRequests := SortByDeviceType(rows);
    var grouped := GroupByDeviceType(allRequests);
    if grouped.None? {
      return [];
    }
    var deviceStats := grouped.value;
    // the keys of device_stats are distinct, so each assignment appends
    result := [];
    var j := 0;
    while j < |deviceStats|
      invariant 0 <= j <= |deviceStats|
      invariant result == Summaries(deviceStats[..j])
    {
      var (deviceType, stats) := deviceStats[j];
      var mostCommonProblem := if stats.problems != [] then stats.problems[FirstMaxIndex(stats.problems)].0 else NoData;
      var avgTime := Zero;
      if stats.repairSeconds != [] {
        avgTime := MeanHours(stats.repairSeconds);
      }
      var completionRate := if stats.total > 0 then Ratio(stats.completed * 100, stats.total) else Zero;
      assert DeviceStats(stats.total, stats.completed, avgTime, mostCommonProblem, completionRate) == Summarise(stats);
      SummariesSnoc(deviceStats, j);
      result := result + [(deviceType, DeviceStats(stats.total, stats.completed, avgTime, mostCommonProblem, completionRate))];
      j := j + 1;
    }
    assert deviceStats[..j] == deviceStats;
  }

  /** The grouping loop of calculate_request_statistics_by_device over the
      sorted rows: None where strptime raises. */
  method GroupByDeviceType(allRequests: seq<Request>) returns (grouped: Option<Dict<DeviceGroup>>)
    ensures grouped == GroupRows(allRequests)
  {
    var deviceStats: Dict<DeviceGroup> := [];
    var i := 0;
    assert allRequests[..0] == [];
    while i < |allRequests|
      invariant 0 <= i <= |allRequests|
      invariant GroupRows(allRequests[..i]) == Some(deviceStats)
    {
      GroupRowsStep(allRequests, i, deviceStats);
      var updated := CountRequest(deviceStats, allRequests[i]);
      if updated.None? {
        RepairTimesPrefixGroups(allRequests, i + 1);
        return None;
      }
      deviceStats := updated.value;
      i := i + 1;
    }
    assert allRequests[..i] == allRequests;
    return Some(deviceStats);
  }

  /** The body of the grouping loop for one request. */
  method CountRequest(deviceStats: Dict<DeviceGroup>, request: Request) returns (updated: Option<Dict<DeviceGroup>>)
    ensures updated == AddToGroups(deviceStats, request)
  {
    var stats := Tick(GroupFor(deviceStats, request.deviceType), request);
    if Finished(request) {
      var seconds := RepairSeconds(request.createdDate, request.completionDate);
      if seconds.None? {
        return None;
      }
      stats := Record(stats, seconds.value);
    }
    return Some(Put(deviceStats, request.deviceType, stats));
  }

  lemma SummariesSnoc(groups: Dict<DeviceGroup>, j: nat)
    requires j < |groups|
    ensures Summaries(groups[..j + 1]) == Summaries(groups[..j]) + [(groups[j].0, Summarise(groups[j].1))]
  {
    var a, b := Summaries(groups[..j + 1]), Summaries(groups[..j]) + [(groups[j].0, Summarise(groups[j].1))];
    assert |a| == |b|;
    forall k | 0 <= k < |a| ensures a[k] == b[k] {
      assert groups[..j + 1][k] == groups[k];
    }
  }

  lemma GroupRowsStep(rs: seq<Request>, i: nat, groups: Dict<DeviceGroup>)
    requires i < |rs| && GroupRows(rs[..i]) == Some(groups)
    ensures GroupRows(rs[..i + 1]) == AddToGroups(groups, rs[i])
  {
    assert rs[..i + 1][..i] == rs[..i];
  }

  /** Once the grouping of a prefix raised, the grouping of the rows did. */
  lemma {:induction false} RepairTimesPrefixGroups(rs: seq<Request>, i: nat)
    requires i <= |rs| && GroupRows(rs[..i]).None?
    ensures GroupRows(rs).None?
    decreases |rs| - i
  {
    if i < |rs| {
      assert rs[..i + 1][..i] == rs[..i];
      RepairTimesPrefixGroups(rs, i + 1);
    } else {
      assert rs[..i] == rs;
    }
  }

  // Properties of the grouping

  lemma SelectSnoc(rows: seq<Request>, r: Request, keep: Request -> bool)
    ensures Select(rows + [r], keep) == Select(rows, keep) + (if keep(r) then [r] else [])
  {
    assert (rows + [r])[..|rows|] == rows;
  }

  lemma RepairTimesSnoc(rs: seq<Request>, r: Request)
    ensures RepairTimes(rs + [r]) ==
      match (RepairTimes(rs), RepairSeconds(r.createdDate, r.completionDate))
      case (Some(ts), Some(t)) => Some(ts + [t])
      case _ => None
  {
    assert (rs + [r])[..|rs|] == rs;
  }

  /** The repair times exist exactly when every row parses. */
  lemma RepairTimesSomeStep(rs: seq<Request>)
    requires rs != []
    ensures RepairTimes(rs).Some? <==> RepairTimes(rs[..|rs| - 1]).Some? && Parses(rs[|rs| - 1])
  {
  }

  lemma {:induction false} RepairTimesSomeIff(rs: seq<Request>)
    ensures RepairTimes(rs).Some? <==> forall i :: 0 <= i < |rs| ==> Parses(rs[i])
  {
    if rs != [] {
      var init := rs[..|rs| - 1];
      RepairTimesSomeIff(init);
      RepairTimesSomeStep(rs);
      if RepairTimes(rs).Some? {
        forall i | 0 <= i < |rs| ensures Parses(rs[i]) {
          if i < |init| {
            assert rs[i] == init[i] && Parses(init[i]);
          } else {
            assert i == |rs| - 1;
          }
        }
      } else if RepairTimes(init).Some? {
        assert !Parses(rs[|init|]);
      } else {
        var i :| 0 <= i < |init| && !Parses(init[i]);
        assert !Parses(rs[i]);
      }
    }
  }

  lemma TallySnoc(ks: seq<string>, k: string)
    ensures Tally(ks + [k]) == Bump(Tally(ks), k)
  {
    assert (ks + [k])[..|ks|] == ks;
  }

  lemma ProblemsSnoc(rows: seq<Request>, r: Request)
    ensures ProblemsOf(rows + [r]) == ProblemsOf(rows) + [r.problemDescription]
  {
  }

  lemma FinishedParseSnoc(init: seq<Request>, r: Request)
    ensures FinishedParse(init + [r]) <==> FinishedParse(init) && (Finished(r) ==> Parses(r))
  {
    var rows := init + [r];
    assert forall i :: 0 <= i < |init| ==> rows[i] == init[i];
    assert rows[|init|] == r;
  }

  /** A type no row has: the group is still the fresh record. */
  lemma GroupOfAbsent(rows: seq<Request>, d: string)
    requires d !in DeviceTypesOf(rows)
    ensures GroupOf(rows, d) == NewGroup
  {
    assert ProblemsOf([]) == [];
  }

  /** The rows of a finished-parsing table that the repair times are
      taken from all parse. */
  lemma FinishedOfTypeParse(rows: seq<Request>, d: string)
    requires FinishedParse(rows)
    ensures RepairTimes(Select(rows, FinishedOfType(d))).Some?
  {
    var c := Select(rows, FinishedOfType(d));
    forall i | 0 <= i < |c| ensures Parses(c[i]) {
      var k :| 0 <= k < |rows| && rows[k] == c[i];
    }
    RepairTimesSomeIff(c);
  }

  /** One more row leaves the groups of the other types as they were. */
  lemma GroupOfOther(init: seq<Request>, r: Request, d: string)
    requires d != r.deviceType
    ensures GroupOf(init + [r], d) == GroupOf(init, d)
  {
    OfTypeSnoc(init, r, d);
    FinishedOfTypeSnoc(init, r, d);
  }

  /** The rows of a type after one more row. */
  lemma OfTypeSnoc(init: seq<Request>, r: Request, d: string)
    ensures r.deviceType == d ==> Select(init + [r], OfType(d)) == Select(init, OfType(d)) + [r]
    ensures r.deviceType != d ==> Select(init + [r], OfType(d)) == Select(init, OfType(d))
  {
    SelectSnoc(init, r, OfType(d));
    assert OfType(d)(r) <==> r.deviceType == d;
    assert Select(init, OfType(d)) + [] == Select(init, OfType(d));
  }

  /** The finished rows of a type after one more row. */
  lemma FinishedOfTypeSnoc(init: seq<Request>, r: Request, d: string)
    ensures r.deviceType == d && Finished(r) ==>
      Select(init + [r], FinishedOfType(d)) == Select(init, FinishedOfType(d)) + [r]
    ensures !(r.deviceType == d && Finished(r)) ==>
      Select(init + [r], FinishedOfType(d)) == Select(init, FinishedOfType(d))
  {
    SelectSnoc(init, r, FinishedOfType(d));
    assert FinishedOfType(d)(r) <==> r.deviceType == d && Finished(r);
    assert Select(init, FinishedOfType(d)) + [] == Select(init, FinishedOfType(d));
  }

  /** The problem counts of a type after one more row of that type. */
  lemma TallyOfType(init: seq<Request>, r: Request)
    ensures Tally(ProblemsOf(Select(init + [r], OfType(r.deviceType)))) ==
      Bump(Tally(ProblemsOf(Select(init, OfType(r.deviceType)))), r.problemDescription)
  {
    var a := Select(init, OfType(r.deviceType));
    OfTypeSnoc(init, r, r.deviceType);
    ProblemsSnoc(a, r);
    TallySnoc(ProblemsOf(a), r.problemDescription);
  }

  /** One more unfinished row of a type counts it and its problem, as
      one iteration of the loop does. */
  lemma GroupOfTicked(init: seq<Request>, r: Request)
    requires !Finished(r)
    ensures GroupOf(init + [r], r.deviceType) == Tick(GroupOf(init, r.deviceType), r)
  {
    OfTypeSnoc(init, r, r.deviceType);
    FinishedOfTypeSnoc(init, r, r.deviceType);
    TallyOfType(init, r);
  }

  /** The repair times of a type after one more finished row of it. */
  lemma TimesOfType(init: seq<Request>, r: Request)
    requires Finished(r) && FinishedParse(init + [r])
    ensures Parses(r)
    ensures TimesOf(Select(init + [r], FinishedOfType(r.deviceType))) ==
      TimesOf(Select(init, FinishedOfType(r.deviceType))) + [RepairSeconds(r.createdDate, r.completionDate).value]
  {
    var d := r.deviceType;
    var c := Select(init, FinishedOfType(d));
    FinishedParseSnoc(init, r);
    FinishedOfTypeParse(init, d);
    FinishedOfTypeSnoc(init, r, d);
    RepairTimesSnoc(c, r);
  }

  /** One more finished row of a type also counts it as completed and
      appends its repair time, as one iteration of the loop does. */
  lemma GroupOfRecorded(init: seq<Request>, r: Request)
    requires Finished(r) && FinishedParse(init + [r])
    ensures Parses(r)
    ensures GroupOf(init + [r], r.deviceType) ==
      Record(Tick(GroupOf(init, r.deviceType), r), RepairSeconds(r.createdDate, r.completionDate).value)
  {
    OfTypeSnoc(init, r, r.deviceType);
    FinishedOfTypeSnoc(init, r, r.deviceType);
    TallyOfType(init, r);
    TimesOfType(init, r);
  }

  /** The grouping loop raises exactly when a finished row does not parse;
      otherwise device_stats has one entry per device type of the rows,
      and that entry is the directly defined group of the type. */
  lemma {:induction false} GroupRowsExact(rows: seq<Request>)
    ensures GroupRows(rows).Some? <==> FinishedParse(rows)
    ensures GroupRows(rows).Some? ==> DistinctKeys(GroupRows(rows).value)
    ensures GroupRows(rows).Some? ==> forall d :: (Get(GroupRows(rows).value, d) ==
      if d in DeviceTypesOf(rows) then Some(GroupOf(rows, d)) else None)
  {
    if rows != [] {
      var init, r := rows[..|rows| - 1], rows[|rows| - 1];
      assert rows == init + [r];
      GroupRowsExact(init);
      FinishedParseSnoc(init, r);
      if FinishedParse(rows) {
        var gs, t := GroupRows(init).value, r.deviceType;
        GroupStep(init, r, gs);
        PutDistinct(gs, t, GroupOf(rows, t));
        GroupStepGet(init, r, gs);
      }
    }
  }

  /** One more row of a table whose grouping holds the directly defined
      groups puts the directly defined group of its type. */
  lemma GroupStep(init: seq<Request>, r: Request, gs: Dict<DeviceGroup>)
    requires FinishedParse(init + [r])
    requires forall d :: (Get(gs, d) == if d in DeviceTypesOf(init) then Some(GroupOf(init, d)) else None)
    ensures AddToGroups(gs, r) == Some(Put(gs, r.deviceType, GroupOf(init + [r], r.deviceType)))
  {
    var t := r.deviceType;
    assert GroupFor(gs, t) == GroupOf(init, t) by {
      if t !in DeviceTypesOf(init) {
        GroupOfAbsent(init, t);
      }
    }
    if Finished(r) {
      GroupOfRecorded(init, r);
    } else {
      GroupOfTicked(init, r);
    }
  }

  /** ... and then holds the directly defined groups of the longer table. */
  lemma GroupStepGet(init: seq<Request>, r: Request, gs: Dict<DeviceGroup>)
    requires forall d :: (Get(gs, d) == if d in DeviceTypesOf(init) then Some(GroupOf(init, d)) else None)
    ensures forall d :: (Get(Put(gs, r.deviceType, GroupOf(init + [r], r.deviceType)), d) ==
      if d in DeviceTypesOf(init + [r]) then Some(GroupOf(init + [r], d)) else None)
  {
    var t := r.deviceType;
    assert DeviceTypesOf(init + [r]) == DeviceTypesOf(init) + [t];
    forall d ensures Get(Put(gs, t, GroupOf(init + [r], t)), d) ==
      if d in DeviceTypesOf(init + [r]) then Some(GroupOf(init + [r], d)) else None
    {
      GetPut(gs, t, GroupOf(init + [r], t), d);
      if d != t {
        GroupOfOther(init, r, d);
      }
    }
  }


  lemma {:induction false} GetSummaries(groups: Dict<DeviceGroup>, d: string)
    ensures Get(Summaries(groups), d) == match Get(groups, d) case None => None case Some(g) => Some(Summarise(g))
  {
    if groups != [] {
      assert Summaries(groups)[1..] == Summaries(groups[1..]);
      GetSummaries(groups[1..], d);
    }
  }

  /** Rows in another order have the same selections. */
  lemma PermutedSelect(a: seq<Request>, b: seq<Request>, keep: Request -> bool)
    requires multiset(a) == multiset(b)
    ensures multiset(Select(a, keep)) == multiset(Select(b, keep))
    ensures |Select(a, keep)| == |Select(b, keep)|
  {
    SelectMultiset(a, keep);
    SelectMultiset(b, keep);
    assert forall x :: multiset(Select(a, keep))[x] == multiset(Select(b, keep))[x];
    assert multiset(Select(a, keep)) == multiset(Select(b, keep));
    assert |multiset(Select(a, keep))| == |Select(a, keep)|;
  }

  /** Rows in another order have the same device types. */
  lemma PermutedTypes(a: seq<Request>, b: seq<Request>, d: string)
    requires multiset(a) == multiset(b)
    ensures d in DeviceTypesOf(a) ==> d in DeviceTypesOf(b)
  {
    if d in DeviceTypesOf(a) {
      var i :| 0 <= i < |a| && DeviceTypesOf(a)[i] == d;
      assert a[i] in multiset(b);
      var j :| 0 <= j < |b| && b[j] == a[i];
      assert DeviceTypesOf(b)[j] == d;
    }
  }

  /** Rows in another order have the same finished rows. */
  lemma PermutedFinishedParse(a: seq<Request>, b: seq<Request>)
    requires multiset(a) == multiset(b)
    ensures FinishedParse(a) ==> FinishedParse(b)
  {
    if FinishedParse(a) {
      forall i | 0 <= i < |b| && Finished(b[i]) ensures Parses(b[i]) {
        assert b[i] in multiset(a);
        var j :| 0 <= j < |a| && a[j] == b[i];
      }
    }
  }

  lemma SortedRows(rows: seq<Request>, d: string)
    ensures FinishedParse(SortByDeviceType(rows)) <==> FinishedParse(rows)
    ensures d in DeviceTypesOf(SortByDeviceType(rows)) <==> d in DeviceTypesOf(rows)
    ensures |Select(SortByDeviceType(rows), OfType(d))| == |Select(rows, OfType(d))|
    ensures |Select(SortByDeviceType(rows), FinishedOfType(d))| == |Select(rows, FinishedOfType(d))|
  {
    var sorted := SortByDeviceType(rows);
    PermutedFinishedParse(sorted, rows);
    PermutedFinishedParse(rows, sorted);
    PermutedTypes(sorted, rows, d);
    PermutedTypes(rows, sorted, d);
    PermutedSelect(sorted, rows, OfType(d));
    PermutedSelect(sorted, rows, FinishedOfType(d));
  }

  /** A device type of the table has at least one row. */
  lemma TypePresent(rows: seq<Request>, d: string)
    requires d in DeviceTypesOf(rows)
    ensures |Select(rows, OfType(d))| > 0
  {
    var i :| 0 <= i < |rows| && DeviceTypesOf(rows)[i] == d;
    assert OfType(d)(rows[i]);
    assert rows[i] in Select(rows, OfType(d));
  }

  /** A finished row whose dates do not parse empties the whole result. */
  lemma DeviceStatisticsAborts(rows: seq<Request>, k: nat)
    requires k < |rows| && Finished(rows[k]) && !Parses(rows[k])
    ensures DeviceStatistics(rows) == []
  {
    var sorted := SortByDeviceType(rows);
    assert !FinishedParse(rows);
    SortedRows(rows, "");
    GroupRowsExact(sorted);
  }

  /** Otherwise the result has one entry per device type of the table,
      the summary of that type's group over the sorted rows. */
  lemma DeviceStatisticsEntry(rows: seq<Request>, d: string)
    requires FinishedParse(rows)
    ensures DistinctKeys(DeviceStatistics(rows))
    ensures Get(DeviceStatistics(rows), d) ==
      if d in DeviceTypesOf(rows) then Some(Summarise(GroupOf(SortByDeviceType(rows), d))) else None
  {
    var sorted := SortByDeviceType(rows);
    SortedRows(rows, d);
    GroupRowsExact(sorted);
    var gs := GroupRows(sorted).value;
    assert DeviceStatistics(rows) == Summaries(gs);
    GetSummaries(gs, d);
    assert Keys(Summaries(gs)) == Keys(gs);
  }

  /** That entry counts the type's rows and its finished rows ('Завершена'
      with a completion date), never more finished than in total, and its
      completion rate is finished / total * 100, within [0, 100]. */
  lemma DeviceStatisticsCounts(rows: seq<Request>, d: string)
    requires FinishedParse(rows) && d in DeviceTypesOf(rows)
    ensures Get(DeviceStatistics(rows), d).Some?
    ensures var e := Get(DeviceStatistics(rows), d).value;
      e.totalRequests == |Select(rows, OfType(d))| > 0 &&
      e.completedRequests == |Select(rows, FinishedOfType(d))| <= e.totalRequests &&
      e.completionRate == Ratio(e.completedRequests * 100, e.totalRequests) &&
      0 <= e.completionRate.num <= 100 * e.completionRate.den
  {
    var g := GroupOf(SortByDeviceType(rows), d);
    DeviceStatisticsEntry(rows, d);
    assert Get(DeviceStatistics(rows), d) == Some(Summarise(g));
    assert g.total == |Select(rows, OfType(d))| && g.completed == |Select(rows, FinishedOfType(d))| by {
      SortedRows(rows, d);
    }
    TypePresent(rows, d);
    SelectNarrower(rows, FinishedOfType(d), OfType(d));
  }

  /** Each entry's average repair time is the mean, in hours, of the
      repair times of that type's finished rows (0 when there are none). */
  lemma DeviceStatisticsAverage(rows: seq<Request>, d: string)
    requires FinishedParse(rows) && d in DeviceTypesOf(rows)
    ensures Get(DeviceStatistics(rows), d).Some?
    ensures var ts := RepairTimes(Select(SortByDeviceType(rows), FinishedOfType(d)));
      ts.Some? && |ts.value| == Get(DeviceStatistics(rows), d).value.completedRequests &&
      Get(DeviceStatistics(rows), d).value.averageRepairTimeHours == MeanHours(ts.value)
  {
    var sorted := SortByDeviceType(rows);
    DeviceStatisticsEntry(rows, d);
    SortedRows(rows, d);
    FinishedOfTypeParse(sorted, d);
    RepairTimesLength(Select(sorted, FinishedOfType(d)));
  }

  /** max(problems.items(), key=count)[0] over a tally: a problem of the
      rows with the highest count, the first one met in row order on ties. */
  lemma MostCommonFirst(ps: seq<string>)
    requires ps != []
    ensures var p := MostCommon(Tally(ps));
      p in ps &&
      (forall q :: q in ps ==> Count(ps, q) <= Count(ps, p)) &&
      (forall q :: q in ps && q != p && Count(ps, q) == Count(ps, p) ==> FirstIndex(ps, p) < FirstIndex(ps, q))
  {
    var t := Tally(ps);
    TallyCounts(ps);
    TallyFirstOccurrence(ps);
    assert t != [] by {
      assert Get(t, ps[0]).Some?;
    }
    var i := FirstMaxIndex(t);
    var p := t[i].0;
    assert Keys(t)[i] == p;
    GetEntry(t, i);
    forall q | q in ps
      ensures Count(ps, q) <= Count(ps, p)
      ensures q != p && Count(ps, q) == Count(ps, p) ==> FirstIndex(ps, p) < FirstIndex(ps, q)
    {
      GetKeys(t, q);
      var j :| 0 <= j < |t| && t[j] == (q, Count(ps, q));
      assert Keys(t)[j] == q;
      if q != p && Count(ps, q) == Count(ps, p) {
        assert j != i;
        assert !(j < i);
      }
    }
  }

  /** most_common_problem of a device type: a problem of its rows with the
      highest count, the first one met in the ORDER BY device_type scan on
      ties. */
  lemma MostCommonProblem(rows: seq<Request>, d: string)
    requires FinishedParse(rows) && d in DeviceTypesOf(rows)
    ensures Get(DeviceStatistics(rows), d).Some?
    ensures var ps := ProblemsOf(Select(SortByDeviceType(rows), OfType(d)));
      var p := Get(DeviceStatistics(rows), d).value.mostCommonProblem;
      p in ps &&
      (forall q :: q in ps ==> Count(ps, q) <= Count(ps, p)) &&
      (forall q :: q in ps && q != p && Count(ps, q) == Count(ps, p) ==> FirstIndex(ps, p) < FirstIndex(ps, q))
  {
    var sorted := SortByDeviceType(rows);
    DeviceStatisticsEntry(rows, d);
    SortedRows(rows, d);
    TypePresent(sorted, d);
    MostCommonFirst(ProblemsOf(Select(sorted, OfType(d))));
  }

  /** The sum of the groups' 'total' counters. */
  function GroupTotal(groups: Dict<DeviceGroup>): nat
  {
    if groups == [] then 0 else groups[0].1.total + GroupTotal(groups[1..])
  }

  /** The sum of the entries' total_requests. */
  function RequestTotal(stats: Dict<DeviceStats>): nat
  {
    if stats == [] then 0 else stats[0].1.totalRequests + RequestTotal(stats[1..])
  }

  /** Replacing the group of k (or adding it) trades its total for v's. */
  lemma {:induction false} GroupTotalPut(d: Dict<DeviceGroup>, k: string, v: DeviceGroup)
    ensures GroupTotal(Put(d, k, v)) + GroupFor(d, k).total == GroupTotal(d) + v.total
  {
    if d == [] {
    } else if d[0].0 == k {
      assert Put(d, k, v)[1..] == d[1..];
    } else {
      GroupTotalPut(d[1..], k, v);
      assert Put(d, k, v)[1..] == Put(d[1..], k, v);
    }
  }

  /** Every pass of the grouping loop adds exactly one to the totals. */
  lemma {:induction false} GroupRowsTotal(rows: seq<Request>)
    ensures GroupRows(rows).Some? ==> GroupTotal(GroupRows(rows).value) == |rows|
  {
    if rows != [] {
      var init, r := rows[..|rows| - 1], rows[|rows| - 1];
      GroupRowsTotal(init);
      if GroupRows(init).Some? {
        var gs := GroupRows(init).value;
        var g := Tick(GroupFor(gs, r.deviceType), r);
        GroupTotalPut(gs, r.deviceType, g);
        if Finished(r) && RepairSeconds(r.createdDate, r.completionDate).Some? {
          GroupTotalPut(gs, r.deviceType, Record(g, RepairSeconds(r.createdDate, r.completionDate).value));
        }
      }
    }
  }

  lemma {:induction false} SummariesTotal(groups: Dict<DeviceGroup>)
    ensures RequestTotal(Summaries(groups)) == GroupTotal(groups)
  {
    if groups != [] {
      SummariesTotal(groups[1..]);
      assert Summaries(groups)[1..] == Summaries(groups[1..]);
    }
  }

  /** The per-device totals add up to the number of requests: every row is
      counted under exactly one device type. */
  lemma DeviceStatisticsTotal(rows: seq<Request>)
    requires FinishedParse(rows)
    ensures RequestTotal(DeviceStatistics(rows)) == |rows|
  {
    var sorted := SortByDeviceType(rows);
    SortedRows(rows, "");
    GroupRowsExact(sorted);
    assert |multiset(sorted)| == |multiset(rows)|;
    GroupRowsTotal(sorted);
    SummariesTotal(GroupRows(sorted).value);
  }

  // ---------------------------------------------------------------------
  // get_performance_metrics

  /** The WHERE clause on created_date: BETWEEN start 00:00:00 AND end
      23:59:59 when both bounds are given (non-empty), one-sided when only
      one is, and no filter otherwise. */
  predicate InWindow(startDate: Option<string>, endDate: Option<string>, created: string)
  {
    if Truthy(startDate) && Truthy(endDate) then
      TextLe(startDate.value + " 00:00:00", created) && TextLe(created, endDate.value + " 23:59:59")
    else if Truthy(startDate) then TextLe(startDate.value + " 00:00:00", created)
    else if Truthy(endDate) then TextLe(created, endDate.value + " 23:59:59")
    else true
  }

  function Windowed(startDate: Option<string>, endDate: Option<string>): Request -> bool
  {
    (r: Request) => InWindow(startDate, endDate, r.createdDate)
  }

  /** The rows the metrics query returns, in table order. */
  function WindowRows(rows: seq<Request>, startDate: Option<string>, endDate: Option<string>): seq<Request>
  {
    Select(rows, Windowed(startDate, endDate))
  }

  /** requests_per_day: total / ((end - start).days + 1) when both bounds
      are given, the total itself otherwise. None where strptime raises on
      a bound or the day count is 0 (ZeroDivisionError). */
  function RequestsPerDay(total: nat, startDate: Option<string>, endDate: Option<string>): Option<Ratio>
  {
    if Truthy(startDate) && Truthy(endDate) then
      match (ParseDate(startDate.value), ParseDate(endDate.value))
      case (Some(start), Some(end)) =>
        var days := DaySpan(start, end);
        if days == 0 then None else Some(PerDay(total, days))
      case _ => None
    else Some(Ratio(total, 1))
  }

  /** (end - start).days + 1. */
  function DaySpan(start: Date, end: Date): int
    requires ValidDate(start) && ValidDate(end)
  {
    Ordinal(end) - Ordinal(start) + 1
  }

  /** total / days, with a positive denominator. */
  function PerDay(total: nat, days: int): (r: Ratio)
    requires days != 0
    ensures r.den > 0 && r.num * days == total * r.den
  {
    if days > 0 then Ratio(total, days) else Ratio(-(total as int), -days)
  }

  /** The processing times in seconds of the rows whose stamp column is
      non-empty, from created_date to that stamp; None once strptime raises. */
  function StampTimes(rows: seq<Request>, stampOf: Request -> Option<string>): Option<seq<int>>
  {
    if rows == [] then Some([])
    else
      var r := rows[|rows| - 1];
      match StampTimes(rows[..|rows| - 1], stampOf)
      case None => None
      case Some(ts) =>
        if !Truthy(stampOf(r)) then Some(ts)
        else match RepairSeconds(r.createdDate, stampOf(r))
          case None => None
          case Some(t) => Some(ts + [t])
  }

  /** {'completed': ..., 'total': ...} of one master. */
  datatype MasterCount = MasterCount(completed: nat, total: nat)

  /** The counts of a master so far, {'completed': 0, 'total': 0} when new. */
  function CountOf(counts: Dict<MasterCount>, master: string): MasterCount
  {
    match Get(counts, master) case Some(c) => c case None => MasterCount(0, 0)
  }

  /** One more request of the master, completed or not. */
  function Counted(c: MasterCount, completed: bool): MasterCount
  {
    MasterCount(if completed then c.completed + 1 else c.completed, c.total + 1)
  }

  /** master_efficiency after the counting loop: per non-empty master name,
      in order of first appearance, how many of its requests there are and
      how many of them isDone holds for. */
  function MasterCounts(rows: seq<Request>, isDone: Request -> bool): Dict<MasterCount>
  {
    if rows == [] then []
    else
      var counts, r := MasterCounts(rows[..|rows| - 1], isDone), rows[|rows| - 1];
      if !Truthy(r.masterName) then counts
      else Put(counts, r.masterName.value, Counted(CountOf(counts, r.masterName.value), isDone(r)))
  }

  /** A master's entry after the percentage loop. */
  datatype MasterStats = MasterStats(completed: nat, total: nat, efficiency: Option<Ratio>)

  function Rated(c: MasterCount): MasterStats
  {
    MasterStats(c.completed, c.total, if c.total > 0 then Some(Ratio(c.completed * 100, c.total)) else None)
  }

  function Efficiencies(counts: Dict<MasterCount>): (r: Dict<MasterStats>)
    ensures |r| == |counts| && forall i :: 0 <= i < |counts| ==> r[i] == (counts[i].0, Rated(counts[i].1))
  {
    seq(|counts|, i requires 0 <= i < |counts| => (counts[i].0, Rated(counts[i].1)))
  }

  /** SQLite's LENGTH of a text value: the characters before the first NUL. */
  function SqlLength(s: string): nat
  {
    if s == [] || s[0] == 0 as char then 0 else 1 + SqlLength(s[1..])
  }

  /** SELECT SUM(LENGTH(parts_ordered)) FROM comments, with NULL (no
      non-NULL value) read as 0. */
  function PartsLength(comments: seq<Comment>): nat
  {
    if comments == [] then 0
    else
      var c := comments[|comments| - 1];
      PartsLength(comments[..|comments| - 1]) + (match c.partsOrdered case None => 0 case Some(p) => SqlLength(p))
  }

  /** Each character of parts_ordered costs 10 units. */
  const PartUnitCost := 10

  /** What get_performance_metrics returns. */
  datatype Metrics =
    | MetricsFailed   // {} after an exception
    | NoRequests      // the zero dictionary, whose time key is 'average_processing_time'
    | Metrics(
        totalRequests: nat,
        requestsPerDay: Ratio,
        averageProcessingTimeHours: Ratio,
        masterEfficiency: Dict<MasterStats>,
        totalPartsCost: nat)

  /** The metrics with the processing time taken to stampOf and a request
      counted as completed for its master when isDone holds. */
  function MetricsOf(requests: seq<Request>, comments: seq<Comment>, startDate: Option<string>, endDate: Option<string>,
                     stampOf: Request -> Option<string>, isDone: Request -> bool): Metrics
  {
    var rows := WindowRows(requests, startDate, endDate);
    if rows == [] then NoRequests
    else match (RequestsPerDay(|rows|, startDate, endDate), StampTimes(rows, stampOf))
      case (Some(perDay), Some(ts)) =>
        Metrics(|rows|, perDay, MeanHours(ts), Efficiencies(MasterCounts(rows, isDone)),
                PartUnitCost * PartsLength(comments))
      case _ => MetricsFailed
  }

  /** Column 9 of SELECT *, which the source reads as the completion date. */
  function Deadline(r: Request): Option<string> { r.deadline }

  /** Column 5 of SELECT * compared with 'Завершена', which the source
      reads as the status. */
  predicate ClientNameCompleted(r: Request) { r.clientName == Models.Completed }

  /** get_performance_metrics as written. */
  function PerformanceMetrics(requests: seq<Request>, comments: seq<Comment>,
                              startDate: Option<string>, endDate: Option<string>): Metrics
  {
    MetricsOf(requests, comments, startDate, endDate, Deadline, ClientNameCompleted)
  }

  function CompletionDate(r: Request): Option<string> { r.completionDate }

  predicate StatusCompleted(r: Request) { r.status == Models.Completed }

  /** get_performance_metrics as its documentation describes it: the
      completion_date column (10) and the status column (7). */
  function IntendedPerformanceMetrics(requests: seq<Request>, comments: seq<Comment>,
                                      startDate: Option<string>, endDate: Option<string>): Metrics
  {
    MetricsOf(requests, comments, startDate, endDate, CompletionDate, StatusCompleted)
  }

  method GetPerformanceMetrics(allRequests: seq<Request>, comments: seq<Comment>,
                               startDate: Option<string>, endDate: Option<string>) returns (metrics: Metrics)
    ensures metrics == PerformanceMetrics(allRequests, comments, startDate, endDate)
  {
    var requests := WindowRows(allRequests, startDate, endDate);
    if requests == [] {
      return NoRequests;
    }
    var totalRequests := |requests|;
    var requestsPerDay := Ratio(totalRequests, 1);
    if Truthy(startDate) && Truthy(endDate) {
      var start, end := ParseDate(startDate.value), ParseDate(endDate.value);
      if start.None? || end.None? {
        return MetricsFailed;
      }
      var days := DaySpan(start.value, end.value);
      if days == 0 {
        return MetricsFailed;
      }
      requestsPerDay := PerDay(totalRequests, days);
    }
    var processingTimes := ProcessingTimes(requests);
    if processingTimes.None? {
      return MetricsFailed;
    }
    var avgProcessingTime := MeanHours(processingTimes.value);
    var counts := CountMasters(requests);
    var masterEfficiency := RateMasters(counts);
    metrics := Metrics(totalRequests, requestsPerDay, avgProcessingTime, masterEfficiency,
                       PartUnitCost * PartsLength(comments));
  }

  /** The processing-time loop: None where strptime raises. */
  method ProcessingTimes(requests: seq<Request>) returns (times: Option<seq<int>>)
    ensures times == StampTimes(requests, Deadline)
  {
    var processingTimes: seq<int> := [];
    var i := 0;
    while i < |requests|
      invariant 0 <= i <= |requests|
      invariant StampTimes(requests[..i], Deadline) == Some(processingTimes)
    {
      var req := requests[i];
      StampTimesStep(requests, i, Deadline, processingTimes);
      if Truthy(req.deadline) {
        var seconds := RepairSeconds(req.createdDate, req.deadline);
        if seconds.None? {
          StampTimesPrefixFails(requests, i + 1, Deadline);
          return None;
        }
        processingTimes := processingTimes + [seconds.value];
      }
      i := i + 1;
      assert StampTimes(requests[..i], Deadline) == Some(processingTimes);
    }
    assert requests[..i] == requests;
    return Some(processingTimes);
  }

  /** The master-counting loop. */
  method CountMasters(requests: seq<Request>) returns (counts: Dict<MasterCount>)
    ensures counts == MasterCounts(requests, ClientNameCompleted)
  {
    counts := [];
    var i := 0;
    while i < |requests|
      invariant 0 <= i <= |requests|
      invariant MasterCounts(requests[..i], ClientNameCompleted) == counts
    {
      var req := requests[i];
      MasterCountsStep(requests, i, ClientNameCompleted);
      var master := req.masterName;
      if Truthy(master) {
        var stats := Counted(CountOf(counts, master.value), req.clientName == Models.Completed);
        counts := Put(counts, master.value, stats);
      }
      i := i + 1;
    }
    assert requests[..i] == requests;
  }

  /** The loop adding each master's efficiency percentage. */
  method RateMasters(counts: Dict<MasterCount>) returns (rated: Dict<MasterStats>)
    ensures rated == Efficiencies(counts)
  {
    rated := [];
    var i := 0;
    while i < |counts|
      invariant 0 <= i <= |counts|
      invariant rated == Efficiencies(counts[..i])
    {
      var (master, stats) := counts[i];
      EfficienciesSnoc(counts, i);
      var efficiency := if stats.total > 0 then Some(Ratio(stats.completed * 100, stats.total)) else None;
      rated := rated + [(master, MasterStats(stats.completed, stats.total, efficiency))];
      i := i + 1;
    }
    assert counts[..i] == counts;
  }

  lemma StampTimesStep(rs: seq<Request>, i: nat, stampOf: Request -> Option<string>, ts: seq<int>)
    requires i < |rs| && StampTimes(rs[..i], stampOf) == Some(ts)
    ensures StampTimes(rs[..i + 1], stampOf) ==
      if !Truthy(stampOf(rs[i])) then Some(ts)
      else match RepairSeconds(rs[i].createdDate, stampOf(rs[i]))
        case None => None
        case Some(t) => Some(ts + [t])
  {
    assert rs[..i + 1][..i] == rs[..i];
  }

  lemma {:induction false} StampTimesPrefixFails(rs: seq<Request>, i: nat, stampOf: Request -> Option<string>)
    requires i <= |rs| && StampTimes(rs[..i], stampOf).None?
    ensures StampTimes(rs, stampOf).None?
    decreases |rs| - i
  {
    if i < |rs| {
      assert rs[..i + 1][..i] == rs[..i];
      StampTimesPrefixFails(rs, i + 1, stampOf);
    } else {
      assert rs[..i] == rs;
    }
  }

  lemma MasterCountsStep(rs: seq<Request>, i: nat, isDone: Request -> bool)
    requires i < |rs|
    ensures MasterCounts(rs[..i + 1], isDone) ==
      var counts := MasterCounts(rs[..i], isDone);
      if !Truthy(rs[i].masterName) then counts
      else Put(counts, rs[i].masterName.value, Counted(CountOf(counts, rs[i].masterName.value), isDone(rs[i])))
  {
    assert rs[..i + 1][..i] == rs[..i];
  }

  lemma EfficienciesSnoc(counts: Dict<MasterCount>, i: nat)
    requires i < |counts|
    ensures Efficiencies(counts[..i + 1]) == Efficiencies(counts[..i]) + [(counts[i].0, Rated(counts[i].1))]
  {
    var a, b := Efficiencies(counts[..i + 1]), Efficiencies(counts[..i]) + [(counts[i].0, Rated(counts[i].1))];
    assert |a| == |b|;
    forall k | 0 <= k < |a| ensures a[k] == b[k] {
      assert counts[..i + 1][k] == counts[k];
    }
  }

  // Properties of the metrics

  function HasCompletion(r: Request): bool { Truthy(r.completionDate) }

  /** Read from the completion_date column, the processing times are the
      repair times of calculate_average_repair_time over the rows with a
      non-empty completion date. */
  lemma {:induction false} StampTimesOfCompletion(rows: seq<Request>)
    ensures StampTimes(rows, CompletionDate) == RepairTimes(Select(rows, HasCompletion))
  {
    if rows != [] {
      var init, r := rows[..|rows| - 1], rows[|rows| - 1];
      assert rows == init + [r];
      StampTimesOfCompletion(init);
      var c := Select(init, HasCompletion);
      SelectSnoc(init, r, HasCompletion);
      StampTimesSnoc(init, r, CompletionDate);
      assert CompletionDate(r) == r.completionDate;
      if HasCompletion(r) {
        assert Select(rows, HasCompletion) == c + [r];
        RepairTimesSnoc(c, r);
      } else {
        assert Select(rows, HasCompletion) == c + [];
        assert c + [] == c;
      }
    }
  }

  lemma StampTimesSnoc(init: seq<Request>, r: Request, stampOf: Request -> Option<string>)
    ensures StampTimes(init + [r], stampOf) ==
      match StampTimes(init, stampOf)
      case None => None
      case Some(ts) =>
        if !Truthy(stampOf(r)) then Some(ts)
        else match RepairSeconds(r.createdDate, stampOf(r))
          case None => None
          case Some(t) => Some(ts + [t])
  {
    assert (init + [r])[..|init|] == init;
  }

  /** A row with a non-empty stamp that strptime rejects fails the whole loop. */
  lemma StampTimesAborts(rows: seq<Request>, stampOf: Request -> Option<string>, k: nat)
    requires k < |rows| && Truthy(stampOf(rows[k]))
    requires RepairSeconds(rows[k].createdDate, stampOf(rows[k])).None?
    ensures StampTimes(rows, stampOf).None?
  {
    if StampTimes(rows[..k], stampOf).Some? {
      StampTimesStep(rows, k, stampOf, StampTimes(rows[..k], stampOf).value);
    }
    StampTimesPrefixFails(rows, k + 1, stampOf);
  }

  /** Every row the stamp column leaves empty is skipped and every other
      row contributes its time: with all of them parsing, the times are
      as many as the rows with a stamp. */
  lemma {:induction false} StampTimesLength(rows: seq<Request>, stampOf: Request -> Option<string>)
    requires StampTimes(rows, stampOf).Some?
    ensures |StampTimes(rows, stampOf).value| == |Select(rows, (r: Request) => Truthy(stampOf(r)))|
  {
    if rows != [] {
      var init, r := rows[..|rows| - 1], rows[|rows| - 1];
      assert rows == init + [r];
      StampTimesLength(init, stampOf);
      SelectSnoc(init, r, (r: Request) => Truthy(stampOf(r)));
    }
  }

  function ByMaster(master: string): Request -> bool
  {
    (r: Request) => r.masterName == Some(master)
  }

  function DoneBy(master: string, isDone: Request -> bool): Request -> bool
  {
    (r: Request) => r.masterName == Some(master) && isDone(r)
  }

  /** The counting loop keeps one entry per non-empty master name of the
      rows; it counts that master's rows and those of them isDone holds for. */
  lemma {:induction false} MasterCountsExact(rows: seq<Request>, isDone: Request -> bool)
    ensures DistinctKeys(MasterCounts(rows, isDone))
    ensures forall m :: Get(MasterCounts(rows, isDone), m) == MasterEntry(rows, isDone, m)
  {
    if rows != [] {
      var init, r := rows[..|rows| - 1], rows[|rows| - 1];
      assert rows == init + [r];
      MasterCountsExact(init, isDone);
      var counts := MasterCounts(init, isDone);
      if Truthy(r.masterName) {
        var m0 := r.masterName.value;
        var c := Counted(CountOf(counts, m0), isDone(r));
        assert MasterCounts(rows, isDone) == Put(counts, m0, c);
        PutDistinct(counts, m0, c);
        assert CountOf(counts, m0) == MasterCount(CountWhere(init, DoneBy(m0, isDone)), CountWhere(init, ByMaster(m0))) by {
          CountWhereNarrower(init, DoneBy(m0, isDone), ByMaster(m0));
        }
        MasterEntryStep(init, r, isDone, m0);
        forall m ensures Get(MasterCounts(rows, isDone), m) == MasterEntry(rows, isDone, m) {
          GetPut(counts, m0, c, m);
          if m != m0 {
            MasterEntryOther(init, r, isDone, m);
          }
        }
      } else {
        forall m ensures Get(MasterCounts(rows, isDone), m) == MasterEntry(rows, isDone, m) {
          MasterEntryOther(init, r, isDone, m);
        }
      }
    }
  }

  /** The entry the counting loop keeps for master m. */
  function MasterEntry(rows: seq<Request>, isDone: Request -> bool, m: string): Option<MasterCount>
  {
    if m != "" && CountWhere(rows, ByMaster(m)) > 0
    then Some(MasterCount(CountWhere(rows, DoneBy(m, isDone)), CountWhere(rows, ByMaster(m))))
    else None
  }

  /** How many of the rows keep holds for. */
  function CountWhere(rows: seq<Request>, keep: Request -> bool): nat
  {
    if rows == [] then 0
    else CountWhere(rows[..|rows| - 1], keep) + (if keep(rows[|rows| - 1]) then 1 else 0)
  }

  lemma CountWhereSnoc(rows: seq<Request>, r: Request, keep: Request -> bool)
    ensures CountWhere(rows + [r], keep) == CountWhere(rows, keep) + (if keep(r) then 1 else 0)
  {
    assert (rows + [r])[..|rows|] == rows;
  }

  lemma {:induction false} CountWhereNarrower(rows: seq<Request>, narrow: Request -> bool, wide: Request -> bool)
    requires forall x :: narrow(x) ==> wide(x)
    ensures CountWhere(rows, narrow) <= CountWhere(rows, wide)
  {
    if rows != [] {
      CountWhereNarrower(rows[..|rows| - 1], narrow, wide);
    }
  }

  /** The count is the length of the selection. */
  lemma {:induction false} CountWhereSelect(rows: seq<Request>, keep: Request -> bool)
    ensures CountWhere(rows, keep) == |Select(rows, keep)|
  {
    if rows != [] {
      var init, r := rows[..|rows| - 1], rows[|rows| - 1];
      assert rows == init + [r];
      CountWhereSelect(init, keep);
      SelectSnoc(init, r, keep);
    }
  }

  /** One more row leaves the entries of the other names as they were. */
  lemma MasterEntryOther(init: seq<Request>, r: Request, isDone: Request -> bool, m: string)
    requires !(Truthy(r.masterName) && r.masterName.value == m)
    ensures MasterEntry(init + [r], isDone, m) == MasterEntry(init, isDone, m)
  {
    CountWhereSnoc(init, r, ByMaster(m));
    CountWhereSnoc(init, r, DoneBy(m, isDone));
  }

  /** One more row of a master counts it, and counts it as completed when
      isDone holds. */
  lemma MasterEntryStep(init: seq<Request>, r: Request, isDone: Request -> bool, m0: string)
    requires r.masterName == Some(m0) && m0 != ""
    ensures MasterEntry(init + [r], isDone, m0) ==
      Some(Counted(MasterCount(CountWhere(init, DoneBy(m0, isDone)), CountWhere(init, ByMaster(m0))), isDone(r)))
  {
    var total := CountWhere(init + [r], ByMaster(m0));
    var done := CountWhere(init + [r], DoneBy(m0, isDone));
    assert total == CountWhere(init, ByMaster(m0)) + 1 by {
      CountWhereSnoc(init, r, ByMaster(m0));
    }
    assert done == CountWhere(init, DoneBy(m0, isDone)) + (if isDone(r) then 1 else 0) by {
      CountWhereSnoc(init, r, DoneBy(m0, isDone));
    }
    assert MasterEntry(init + [r], isDone, m0) == Some(MasterCount(done, total));
  }

  /** Every master's entry: at least one request, no more completed than
      requests, and an efficiency of completed / total * 100 in [0, 100]. */
  lemma EfficienciesBounded(rows: seq<Request>, isDone: Request -> bool, i: nat)
    requires i < |MasterCounts(rows, isDone)|
    ensures var (m, e) := Efficiencies(MasterCounts(rows, isDone))[i];
      m != "" && 0 < e.total && e.completed <= e.total &&
      e.efficiency == Some(Ratio(e.completed * 100, e.total)) &&
      0 <= e.efficiency.value.num <= 100 * e.efficiency.value.den
  {
    var counts := MasterCounts(rows, isDone);
    var m := counts[i].0;
    MasterCountsExact(rows, isDone);
    GetEntry(counts, i);
    CountWhereNarrower(rows, DoneBy(m, isDone), ByMaster(m));
  }

  /** SQLite's LENGTH counts every character of a text without NUL. */
  lemma {:induction false} SqlLengthBounded(s: string)
    ensures SqlLength(s) <= |s|
    ensures SqlLength(s) == |s| <==> forall i :: 0 <= i < |s| ==> s[i] != 0 as char
  {
    if s != [] && s[0] != 0 as char {
      SqlLengthBounded(s[1..]);
      assert forall i :: 1 <= i < |s| ==> s[i] == s[1..][i - 1];
    }
  }

  /** SUM adds up over any split of the comments table. */
  lemma {:induction false} PartsLengthAppend(a: seq<Comment>, b: seq<Comment>)
    ensures PartsLength(a + b) == PartsLength(a) + PartsLength(b)
  {
    if b != [] {
      var init := b[..|b| - 1];
      assert (a + b)[..|a + b| - 1] == a + init;
      PartsLengthAppend(a, init);
    } else {
      assert a + b == a;
    }
  }

  /** The percentage loop keeps the names and their order and rates each
      master's counts. */
  lemma {:induction false} GetEfficiencies(counts: Dict<MasterCount>, m: string)
    ensures Keys(Efficiencies(counts)) == Keys(counts)
    ensures Get(Efficiencies(counts), m) == match Get(counts, m) case Some(c) => Some(Rated(c)) case None => None
  {
    if counts != [] {
      GetEfficiencies(counts[1..], m);
      assert Efficiencies(counts)[1..] == Efficiencies(counts[1..]);
    }
  }

  /** A non-empty window whose two bounds parse spans at least one day:
      the created_date of any row in it lies between the bounds, and the
      "%Y-%m-%d" texts sort as their dates. */
  lemma WindowSpansADay(startDate: string, endDate: string, created: string, start: Date, end: Date)
    requires ParseDate(startDate) == Some(start) && ParseDate(endDate) == Some(end)
    requires InWindow(Some(startDate), Some(endDate), created)
    ensures DaySpan(start, end) >= 1
  {
    var low, high := startDate + " 00:00:00", endDate + " 23:59:59";
    TextLeTransitive(low, created, high);
    TextLeConcat(startDate, " 00:00:00", endDate, " 23:59:59");
    FormatDateOrder(start, end);
  }

  /** requests_per_day over a window holding rows: the total per day of
      the window when both bounds are given, never a division by zero or
      by a negative day count; None exactly when a bound does not parse;
      the total itself without both bounds. */
  lemma RequestsPerDayInWindow(requests: seq<Request>, startDate: Option<string>, endDate: Option<string>)
    requires WindowRows(requests, startDate, endDate) != []
    ensures var n := |WindowRows(requests, startDate, endDate)|;
      var perDay := RequestsPerDay(n, startDate, endDate);
      (perDay.None? <==> Truthy(startDate) && Truthy(endDate) &&
                         (ParseDate(startDate.value).None? || ParseDate(endDate.value).None?)) &&
      (!(Truthy(startDate) && Truthy(endDate)) ==> perDay == Some(Ratio(n, 1))) &&
      (perDay.Some? && Truthy(startDate) && Truthy(endDate) ==>
        var days := DaySpan(ParseDate(startDate.value).value, ParseDate(endDate.value).value);
        days >= 1 && perDay == Some(Ratio(n, days)))
  {
    var rows := WindowRows(requests, startDate, endDate);
    if Truthy(startDate) && Truthy(endDate) {
      match (ParseDate(startDate.value), ParseDate(endDate.value))
      case (Some(start), Some(end)) =>
        assert Windowed(startDate, endDate)(rows[0]);
        WindowSpansADay(startDate.value, endDate.value, rows[0].createdDate, start, end);
      case _ =>
    }
  }

  /** The window rows are the table's rows whose created_date the WHERE
      clause admits. */
  lemma InWindowRows(requests: seq<Request>, startDate: Option<string>, endDate: Option<string>, k: nat)
    requires k < |requests| && InWindow(startDate, endDate, requests[k].createdDate)
    ensures requests[k] in WindowRows(requests, startDate, endDate)
  {
    assert Windowed(startDate, endDate)(requests[k]);
  }

  /** As written, the metrics read column 9, the deadline, as the
      completion date. A deadline in the "%Y-%m-%d" form the request form
      and the due-date calculation store does not parse as
      "%Y-%m-%d %H:%M:%S", so one such row in the window makes the
      function raise and return {}. */
  lemma DeadlineAbortsMetrics(requests: seq<Request>, comments: seq<Comment>,
                              startDate: Option<string>, endDate: Option<string>, k: nat, due: Date)
    requires k < |requests| && InWindow(startDate, endDate, requests[k].createdDate)
    requires ValidDate(due) && requests[k].deadline == Some(FormatDate(due))
    ensures PerformanceMetrics(requests, comments, startDate, endDate) == MetricsFailed
  {
    var rows := WindowRows(requests, startDate, endDate);
    InWindowRows(requests, startDate, endDate, k);
    var j :| 0 <= j < |rows| && rows[j] == requests[k];
    assert ParseDateTime(FormatDate(due)).None?;
    StampTimesAborts(rows, Deadline, j);
  }

  /** Per master, the rated entry of the rows: its counts and its
      completion percentage. */
  lemma MasterEfficiencyExact(rows: seq<Request>, isDone: Request -> bool)
    ensures DistinctKeys(Efficiencies(MasterCounts(rows, isDone)))
    ensures forall m ::
              Get(Efficiencies(MasterCounts(rows, isDone)), m) ==
              match MasterEntry(rows, isDone, m) case Some(c) => Some(Rated(c)) case None => None
  {
    var counts := MasterCounts(rows, isDone);
    MasterCountsExact(rows, isDone);
    forall m ensures Get(Efficiencies(counts), m) ==
        match MasterEntry(rows, isDone, m) case Some(c) => Some(Rated(c)) case None => None {
      GetEfficiencies(counts, m);
    }
    GetEfficiencies(counts, "");
    DistinctKeysOfKeys(counts, Efficiencies(counts));
  }

  /** The metrics of a one-row table without a window, whose stamp column
      is empty. */
  lemma OneRowMetrics(r: Request, comments: seq<Comment>, stampOf: Request -> Option<string>,
                      isDone: Request -> bool, m: string)
    requires !Truthy(stampOf(r)) && r.masterName == Some(m) && m != ""
    ensures MetricsOf([r], comments, None, None, stampOf, isDone) ==
      Metrics(1, Ratio(1, 1), Zero, [(m, Rated(Counted(MasterCount(0, 0), isDone(r))))],
              PartUnitCost * PartsLength(comments))
  {
    assert WindowRows([r], None, None) == [r] by {
      assert Windowed(None, None)(r);
    }
    assert [r][..0] == [];
    assert StampTimes([r], stampOf) == Some([]);
    assert MasterCounts([r], isDone) == [(m, Counted(MasterCount(0, 0), isDone(r)))];
    assert Efficiencies([(m, Counted(MasterCount(0, 0), isDone(r)))]) ==
      [(m, Rated(Counted(MasterCount(0, 0), isDone(r))))];
  }

  /** As written, a master's completed count is the number of their rows
      whose client_name (column 5) is 'Завершена'. A single completed
      request of a master M with no stamp columns and any real client name
      rates M at 0 completed of 1, where the status says 1 of 1. */
  lemma ClientNameMiscounts(r: Request, comments: seq<Comment>, m: string)
    requires r.status == Models.Completed && r.clientName != Models.Completed
    requires r.masterName == Some(m) && m != ""
    requires r.deadline == None && r.completionDate == None
    ensures PerformanceMetrics([r], comments, None, None).Metrics?
    ensures PerformanceMetrics([r], comments, None, None).masterEfficiency ==
      [(m, MasterStats(0, 1, Some(Ratio(0, 1))))]
    ensures IntendedPerformanceMetrics([r], comments, None, None).Metrics?
    ensures IntendedPerformanceMetrics([r], comments, None, None).masterEfficiency ==
      [(m, MasterStats(1, 1, Some(Ratio(100, 1))))]
  {
    OneRowMetrics(r, comments, Deadline, ClientNameCompleted, m);
    OneRowMetrics(r, comments, CompletionDate, StatusCompleted, m);
  }

  /** The corrected metrics over a window holding rows whose every
      non-empty completion date parses: as many requests as the window
      holds; the mean processing time is the mean of the repair times of
      the rows with a completion date, as calculate_average_repair_time
      computes them; one entry per non-empty master name, counting that
      master's requests and those whose status is 'Завершена'; and the
      parts cost of every comment. */
  lemma IntendedMetricsExact(requests: seq<Request>, comments: seq<Comment>,
                             startDate: Option<string>, endDate: Option<string>)
    requires WindowRows(requests, startDate, endDate) != []
    requires RequestsPerDay(|WindowRows(requests, startDate, endDate)|, startDate, endDate).Some?
    requires RepairTimes(Select(WindowRows(requests, startDate, endDate), HasCompletion)).Some?
    ensures var rows := WindowRows(requests, startDate, endDate);
      var metrics := IntendedPerformanceMetrics(requests, comments, startDate, endDate);
      metrics.Metrics? && metrics.totalRequests == |rows| &&
      metrics.averageProcessingTimeHours == MeanHours(RepairTimes(Select(rows, HasCompletion)).value) &&
      metrics.totalPartsCost == 10 * PartsLength(comments) &&
      DistinctKeys(metrics.masterEfficiency) &&
      forall m :: Get(metrics.masterEfficiency, m) ==
        match MasterEntry(rows, StatusCompleted, m) case Some(c) => Some(Rated(c)) case None => None
  {
    var rows := WindowRows(requests, startDate, endDate);
    StampTimesOfCompletion(rows);
    MasterEfficiencyExact(rows, StatusCompleted);
  }
}
