/**
 * The experience timeline's arithmetic: the statistics strip, the impact
 * metrics of one position, and the height of the progress line.
 */
module Experience {
  import opened JsText
  import opened ResumeText
  import opened Profile

  // ---------------------------------------------------------- statistics

  datatype Stats = Stats(totalYears: int, companies: nat, revenueImpact: Option<int>, teamSize: int)

  /** The per-position years, summed in timeline order. */
  function TotalYears(exps: seq<Position>, currentYear: int): (r: int)
    ensures (forall k :: 0 <= k < |exps| ==> YearsFromDuration(exps[k].duration, currentYear) >= 0) ==> r >= 0
  {
    if |exps| == 0 then 0
    else TotalYears(exps[..|exps| - 1], currentYear) + YearsFromDuration(exps[|exps| - 1].duration, currentYear)
  }

  /** `extractRevenueFromText` summed over a list of achievements, in thousands. */
  function AchievementRevenue(achievements: seq<string>): (r: Option<int>)
    ensures r.Some? ==> r.value >= 0
  {
    if |achievements| == 0 then Some(0)
    else AddNaN(AchievementRevenue(achievements[..|achievements| - 1]), RevenueSum(achievements[|achievements| - 1]))
  }

  /** The revenue of every achievement of every position, in thousands. */
  function ExperienceRevenue(exps: seq<Position>): (r: Option<int>)
    ensures r.Some? ==> r.value >= 0
    ensures |exps| == 1 ==> r == AchievementRevenue(exps[0].achievements)
  {
    if |exps| == 0 then Some(0)
    else AddNaN(ExperienceRevenue(exps[..|exps| - 1]), AchievementRevenue(exps[|exps| - 1].achievements))
  }

  /** Revenue adds up position by position: the positions of `a + b` give the sum of both parts, NaN if either is. */
  lemma {:induction false} ExperienceRevenueConcat(a: seq<Position>, b: seq<Position>)
    ensures ExperienceRevenue(a + b) == AddNaN(ExperienceRevenue(a), ExperienceRevenue(b))
    decreases |b|
  {
    if |b| == 0 {
      assert a + b == a;
    } else {
      var init := b[..|b| - 1];
      assert (a + b)[..|a + b| - 1] == a + init;
      assert (a + b)[|a + b| - 1] == b[|b| - 1];
      ExperienceRevenueConcat(a, init);
    }
  }

  function Times1000(a: Option<int>): (r: Option<int>)
    ensures r.Some? <==> a.Some?
    ensures r.Some? ==> r.value == 1000 * a.value
  {
    if a.Some? then Some(1000 * a.value) else None
  }

  /** The first case-insensitive `team of N` of a position's joined achievements, as a number. */
  function PositionTeam(p: Position): Option<nat> {
    match TeamOf(Join(p.achievements, " "), true)
    case Some(d) => Some(DecimalValue(d))
    case None => None
  }

  /** One more `$…K` match, multiplied by 1000 and added (`parseInt(...) * 1000`). */
  lemma AddOneAmount(before: Option<int>, sum: Option<int>, amount: Option<nat>)
    ensures AddNaN(AddNaN(before, Times1000(sum)), Times1000(AsInt(amount)))
         == AddNaN(before, Times1000(AddNaN(sum, AsInt(amount))))
  {
  }

  lemma SumAmountsStep(runs: seq<string>, m: nat)
    requires m < |runs|
    requires AmountTexts(runs)
    ensures SumAmounts(runs[..m + 1]) == AddNaN(SumAmounts(runs[..m]), AsInt(AmountValue(runs[m])))
  {
    assert runs[..m + 1][..m] == runs[..m];
    assert runs[..m + 1][m] == runs[m];
  }

  /** `revenueMatch.forEach(...)` over one achievement: every amount times 1000, added in turn. */
  method AddMatchRevenue(acc: Option<int>, achievement: string) returns (r: Option<int>)
    ensures r == AddNaN(acc, Times1000(RevenueSum(achievement)))
  {
    var runs := RevenueRuns(achievement);
    r := acc;
    for m := 0 to |runs|
      invariant r == AddNaN(acc, Times1000(SumAmounts(runs[..m])))
    {
      var amount := AmountValue(runs[m]);
      AddOneAmount(acc, SumAmounts(runs[..m]), amount);
      SumAmountsStep(runs, m);
      r := AddNaN(r, Times1000(AsInt(amount)));
    }
    assert runs[..|runs|] == runs;
  }

  lemma TimesAdd(a: Option<int>, b: Option<int>)
    ensures Times1000(AddNaN(a, b)) == AddNaN(Times1000(a), Times1000(b))
  {
  }

  /** `exp.achievements.forEach(...)`: the revenue of every achievement of one position. */
  method AddAchievementRevenue(acc: Option<int>, achievements: seq<string>) returns (r: Option<int>)
    ensures r == AddNaN(acc, Times1000(AchievementRevenue(achievements)))
  {
    r := acc;
    for j := 0 to |achievements|
      invariant r == AddNaN(acc, Times1000(AchievementRevenue(achievements[..j])))
    {
      var prefix := AchievementRevenue(achievements[..j]);
      assert achievements[..j + 1][..j] == achievements[..j];
      assert AchievementRevenue(achievements[..j + 1]) == AddNaN(prefix, RevenueSum(achievements[j]));
      TimesAdd(prefix, RevenueSum(achievements[j]));
      AddAssoc(acc, Times1000(prefix), Times1000(RevenueSum(achievements[j])));
      r := AddMatchRevenue(r, achievements[j]);
    }
    assert achievements[..|achievements|] == achievements;
  }

  /** Extending the prefix by one position adds that position's years and revenue. */
  lemma PrefixStep(experience: seq<Position>, i: nat, currentYear: int)
    requires i < |experience|
    ensures TotalYears(experience[..i + 1], currentYear)
      == TotalYears(experience[..i], currentYear) + YearsFromDuration(experience[i].duration, currentYear)
    ensures Times1000(ExperienceRevenue(experience[..i + 1]))
      == AddNaN(Times1000(ExperienceRevenue(experience[..i])), Times1000(AchievementRevenue(experience[i].achievements)))
  {
    var prefix := ExperienceRevenue(experience[..i]);
    assert experience[..i + 1][..i] == experience[..i];
    assert ExperienceRevenue(experience[..i + 1]) == AddNaN(prefix, AchievementRevenue(experience[i].achievements));
    TimesAdd(prefix, AchievementRevenue(experience[i].achievements));
  }

  /**
   * `calculateStats`: the summed per-position years (`Math.floor` of an integer
   * sum changes nothing), the number of positions, 1000 times the revenue every
   * achievement reports (NaN as soon as one amount is NaN), and the largest team,
   * with 20 standing in when no team or only teams of 0 are found.
   */
  method CalculateStats(experience: seq<Position>, currentYear: int) returns (stats: Stats)
    ensures stats.companies == |experience|
    ensures stats.totalYears == TotalYears(experience, currentYear)
    ensures stats.revenueImpact == Times1000(ExperienceRevenue(experience))
    ensures stats.teamSize > 0
    ensures forall k :: 0 <= k < |experience| && PositionTeam(experience[k]).Some? ==>
      PositionTeam(experience[k]).value <= stats.teamSize
    ensures (exists k :: 0 <= k < |experience| && NamesTeam(experience[k])) ==>
      exists k :: 0 <= k < |experience| && PositionTeam(experience[k]) == Some(stats.teamSize)
    ensures (forall k :: 0 <= k < |experience| ==> !NamesTeam(experience[k])) ==> stats.teamSize == 20
  {
    var totalYears := 0;
    var revenue: Option<int> := Some(0);
    for i := 0 to |experience|
      invariant totalYears == TotalYears(experience[..i], currentYear)
      invariant revenue == Times1000(ExperienceRevenue(experience[..i]))
    {
      var exp := experience[i];
      PrefixStep(experience, i, currentYear);
      totalYears := totalYears + YearsFromDuration(exp.duration, currentYear);
      revenue := AddAchievementRevenue(revenue, exp.achievements);
    }
    assert experience[..|experience|] == experience;
    var team := LargestTeam(experience);
    stats := Stats(totalYears, |experience|, revenue, if team == 0 then 20 else team);
  }

  /** The position names a team of more than 0. */
  predicate NamesTeam(p: Position) {
    PositionTeam(p).Some? && PositionTeam(p).value > 0
  }

  /** The largest `team of N` over the positions, 0 when none names a team above 0. */
  method LargestTeam(experience: seq<Position>) returns (team: nat)
    ensures forall k :: 0 <= k < |experience| && PositionTeam(experience[k]).Some? ==>
      PositionTeam(experience[k]).value <= team
    ensures team == 0 || exists k :: 0 <= k < |experience| && PositionTeam(experience[k]) == Some(team)
    ensures team == 0 <==> forall k :: 0 <= k < |experience| ==> !NamesTeam(experience[k])
  {
    team := 0;
    for i := 0 to |experience|
      invariant forall k :: 0 <= k < i && PositionTeam(experience[k]).Some? ==> PositionTeam(experience[k]).value <= team
      invariant team == 0 || exists k :: 0 <= k < i && PositionTeam(experience[k]) == Some(team)
    {
      var teamMatch := PositionTeam(experience[i]);
      if teamMatch.Some? {
        var n := teamMatch.value;
        if n > team {
          team := n;
        }
      }
    }
  }

  // -------------------------------------------------------------- metrics

  datatype Metric = Metric(icon: string, value: string, caption: string)

  const RevenueLabel := "Revenue Generated"
  const AverageLabel := "Avg Improvement"
  const UptimeLabel := "System Uptime"
  const TeamLabel := "Team Members"
  const MissionSuccess := Metric("fas fa-rocket", "100%", "Mission Success")

  /** How `${n}` prints a number that may be NaN. */
  function NumberText(v: Option<int>): string {
    match v
    case Some(n) => IntText(n)
    case None => "NaN"
  }

  predicate HasLabel(metrics: seq<Metric>, caption: string) {
    exists k :: 0 <= k < |metrics| && metrics[k].caption == caption
  }

  /** The position of a label in the fixed emission order. */
  function LabelRank(caption: string): nat {
    if caption == RevenueLabel then 0
    else if caption == AverageLabel then 1
    else if caption == UptimeLabel then 2
    else 3
  }

  function RevenueMetric(text: string): (r: seq<Metric>)
    ensures |r| <= 1
    ensures forall k :: 0 <= k < |r| ==> r[k].caption == RevenueLabel && r[k].value == NumberText(RevenueSum(text)) + "K+"
    ensures |r| == 1 <==> |RevenueRuns(text)| > 0
  {
    if |RevenueRuns(text)| > 0 then [Metric("fas fa-dollar-sign", NumberText(RevenueSum(text)) + "K+", RevenueLabel)] else []
  }

  function AverageMetric(text: string): (r: seq<Metric>)
    ensures |r| <= 1
    ensures |r| == 1 <==> |PercentRuns(text)| > 0
    ensures |r| == 1 ==>
      (r[0].caption == AverageLabel && r[0].value == Decimal(RoundedMean(SumValues(PercentRuns(text)), |PercentRuns(text)|)) + "%")
  {
    var runs := PercentRuns(text);
    if |runs| > 0 then [Metric("fas fa-chart-line", Decimal(RoundedMean(SumValues(runs), |runs|)) + "%", AverageLabel)] else []
  }

  function UptimeMetric(text: string): (r: seq<Metric>)
    ensures |r| <= 1
    ensures forall k :: 0 <= k < |r| ==> r[k].caption == UptimeLabel && Uptime(text).Some? && r[k].value == Uptime(text).value + "%"
    ensures |r| == 1 <==> Uptime(text).Some?
  {
    match Uptime(text)
    case Some(u) => [Metric("fas fa-shield-alt", u + "%", UptimeLabel)]
    case None => []
  }

  function TeamMetric(text: string): (r: seq<Metric>)
    ensures |r| <= 1
    ensures forall k :: 0 <= k < |r| ==> r[k].caption == TeamLabel && TeamOf(text, false).Some? && r[k].value == TeamOf(text, false).value
    ensures |r| == 1 <==> TeamOf(text, false).Some?
  {
    match TeamOf(text, false)
    case Some(d) => [Metric("fas fa-users", d, TeamLabel)]
    case None => []
  }

  /** At most one metric, carrying the caption `cap`. */
  predicate Captioned(x: seq<Metric>, cap: string) {
    |x| <= 1 && forall k :: 0 <= k < |x| ==> x[k].caption == cap
  }

  /** Captions strictly ordered by their rank. */
  predicate Ranked(m: seq<Metric>) {
    forall i, j :: 0 <= i < j < |m| ==> LabelRank(m[i].caption) < LabelRank(m[j].caption)
  }

  predicate RanksBelow(m: seq<Metric>, bound: nat) {
    forall k :: 0 <= k < |m| ==> LabelRank(m[k].caption) < bound
  }

  lemma HasLabelConcat(x: seq<Metric>, y: seq<Metric>, cap: string)
    ensures HasLabel(x + y, cap) <==> HasLabel(x, cap) || HasLabel(y, cap)
  {
    if HasLabel(x + y, cap) {
      var k :| 0 <= k < |x + y| && (x + y)[k].caption == cap;
      if k >= |x| {
        assert y[k - |x|].caption == cap;
      }
    }
    if HasLabel(y, cap) {
      var k :| 0 <= k < |y| && y[k].caption == cap;
      assert (x + y)[k + |x|] == y[k];
    }
    if HasLabel(x, cap) {
      var k :| 0 <= k < |x| && x[k].caption == cap;
      assert (x + y)[k] == x[k];
    }
  }

  lemma CaptionedLabel(x: seq<Metric>, cap: string, other: string)
    requires Captioned(x, cap)
    ensures HasLabel(x, other) <==> |x| == 1 && cap == other
  {
    if |x| == 1 {
      assert x[0].caption == cap;
    }
  }

  lemma RankedAppend(x: seq<Metric>, y: seq<Metric>, cap: string)
    requires Ranked(x) && RanksBelow(x, LabelRank(cap)) && Captioned(y, cap)
    ensures Ranked(x + y) && RanksBelow(x + y, LabelRank(cap) + 1)
  {
    var m := x + y;
    forall i, j | 0 <= i < j < |m| ensures LabelRank(m[i].caption) < LabelRank(m[j].caption) {
      if j >= |x| {
        assert m[j] == y[j - |x|];
        assert m[i] == x[i];
      } else {
        assert m[i] == x[i] && m[j] == x[j];
      }
    }
    forall k | 0 <= k < |m| ensures LabelRank(m[k].caption) < LabelRank(cap) + 1 {
      if k >= |x| {
        assert m[k] == y[k - |x|];
      } else {
        assert m[k] == x[k];
      }
    }
  }

  /** The labels of four parts of at most one metric each, by their captions. */
  lemma PartsLabel(a: seq<Metric>, b: seq<Metric>, c: seq<Metric>, d: seq<Metric>, cap: string)
    requires Captioned(a, RevenueLabel) && Captioned(b, AverageLabel)
    requires Captioned(c, UptimeLabel) && Captioned(d, TeamLabel)
    ensures HasLabel(a + b + c + d, cap) <==>
      (|a| == 1 && cap == RevenueLabel) || (|b| == 1 && cap == AverageLabel)
      || (|c| == 1 && cap == UptimeLabel) || (|d| == 1 && cap == TeamLabel)
  {
    HasLabelConcat(a + b + c, d, cap);
    HasLabelConcat(a + b, c, cap);
    HasLabelConcat(a, b, cap);
    CaptionedLabel(a, RevenueLabel, cap);
    CaptionedLabel(b, AverageLabel, cap);
    CaptionedLabel(c, UptimeLabel, cap);
    CaptionedLabel(d, TeamLabel, cap);
  }

  /** A metric list built from at most one metric per kind, in emission order. */
  lemma MetricParts(a: seq<Metric>, b: seq<Metric>, c: seq<Metric>, d: seq<Metric>)
    requires Captioned(a, RevenueLabel) && Captioned(b, AverageLabel)
    requires Captioned(c, UptimeLabel) && Captioned(d, TeamLabel)
    ensures var m := a + b + c + d;
      && (HasLabel(m, RevenueLabel) <==> |a| == 1)
      && (HasLabel(m, AverageLabel) <==> |b| == 1)
      && (HasLabel(m, UptimeLabel) <==> |c| == 1)
      && (HasLabel(m, TeamLabel) <==> |d| == 1)
      && Ranked(m)
      && !HasLabel(m, MissionSuccess.caption)
  {
    PartsLabel(a, b, c, d, RevenueLabel);
    PartsLabel(a, b, c, d, AverageLabel);
    PartsLabel(a, b, c, d, UptimeLabel);
    PartsLabel(a, b, c, d, TeamLabel);
    PartsLabel(a, b, c, d, MissionSuccess.caption);
    assert Ranked(a) && RanksBelow(a, 1);
    RankedAppend(a, b, AverageLabel);
    RankedAppend(a + b, c, UptimeLabel);
    RankedAppend(a + b + c, d, TeamLabel);
  }

  /**
   * `extractImpactMetrics`: over the achievements joined with spaces, at most one
   * revenue, average, uptime and team metric, in that order (the team match is
   * case-sensitive here); the single `Mission Success` metric when none applies.
   */
  function ExtractImpactMetrics(achievements: seq<string>): (r: seq<Metric>)
    ensures 1 <= |r| <= 4
    ensures var text := Join(achievements, " ");
      && (HasLabel(r, RevenueLabel) <==> |RevenueRuns(text)| > 0)
      && (HasLabel(r, AverageLabel) <==> |PercentRuns(text)| > 0)
      && (HasLabel(r, UptimeLabel) <==> Uptime(text).Some?)
      && (HasLabel(r, TeamLabel) <==> TeamOf(text, false).Some?)
      && (r == [MissionSuccess] <==>
            |RevenueRuns(text)| == 0 && |PercentRuns(text)| == 0 && Uptime(text).None? && TeamOf(text, false).None?)
    ensures r != [MissionSuccess] ==> Ranked(r)
    ensures var text := Join(achievements, " ");
      r != [MissionSuccess] ==> r == RevenueMetric(text) + AverageMetric(text) + UptimeMetric(text) + TeamMetric(text)
  {
    var text := Join(achievements, " ");
    var metrics := TextMetrics(text);
    TextMetricsLabels(text);
    if |metrics| > 0 then
      assert metrics[0].caption != MissionSuccess.caption by {
        assert !HasLabel(metrics, MissionSuccess.caption);
      }
      metrics
    else
      NoLabelOnFallback();
      [MissionSuccess]
  }

  /** The metrics found in a text, before the fallback. */
  function TextMetrics(text: string): seq<Metric> {
    RevenueMetric(text) + AverageMetric(text) + UptimeMetric(text) + TeamMetric(text)
  }

  lemma TextMetricsLabels(text: string)
    ensures var m := TextMetrics(text);
      && |m| <= 4
      && (HasLabel(m, RevenueLabel) <==> |RevenueRuns(text)| > 0)
      && (HasLabel(m, AverageLabel) <==> |PercentRuns(text)| > 0)
      && (HasLabel(m, UptimeLabel) <==> Uptime(text).Some?)
      && (HasLabel(m, TeamLabel) <==> TeamOf(text, false).Some?)
      && (|m| == 0 <==>
            |RevenueRuns(text)| == 0 && |PercentRuns(text)| == 0 && Uptime(text).None? && TeamOf(text, false).None?)
      && Ranked(m)
      && !HasLabel(m, MissionSuccess.caption)
  {
    var a, b, c, d := RevenueMetric(text), AverageMetric(text), UptimeMetric(text), TeamMetric(text);
    MetricParts(a, b, c, d);
    assert TextMetrics(text) == a + b + c + d;
    assert |a + b + c + d| == |a| + |b| + |c| + |d|;
  }

  lemma NoLabelOnFallback()
    ensures !HasLabel([MissionSuccess], RevenueLabel) && !HasLabel([MissionSuccess], AverageLabel)
    ensures !HasLabel([MissionSuccess], UptimeLabel) && !HasLabel([MissionSuccess], TeamLabel)
  {
  }

  /** The revenue metric's total is the sum of what `extractRevenueFromText` reads from each achievement. */
  lemma {:induction false} JoinedRevenue(achievements: seq<string>)
    ensures RevenueSum(Join(achievements, " ")) == AchievementRevenue(achievements)
    decreases |achievements|
  {
    if |achievements| == 1 {
      assert achievements[..0] == [];
    } else if |achievements| > 1 {
      var init := achievements[..|achievements| - 1];
      var last := achievements[|achievements| - 1];
      JoinSnoc(init, last);
      assert achievements == init + [last];
      JoinedRevenue(init);
      RevenueRunsSpaceJoin(Join(init, " "), last);
      SumAmountsConcat(RevenueRuns(Join(init, " ")), RevenueRuns(last));
    }
  }

  /** Joining one more part appends the separator and the part. */
  lemma {:induction false} JoinSnoc(parts: seq<string>, x: string)
    requires |parts| >= 1
    ensures Join(parts + [x], " ") == Join(parts, " ") + " " + x
    decreases |parts|
  {
    if |parts| == 1 {
      assert (parts + [x])[1..] == [x];
    } else {
      assert (parts + [x])[1..] == parts[1..] + [x];
      JoinSnoc(parts[1..], x);
    }
  }

  // ------------------------------------------------------------- progress

  function CountVisible(flags: seq<bool>): (n: nat)
    ensures n <= |flags|
  {
    if |flags| == 0 then 0 else CountVisible(flags[..|flags| - 1]) + (if flags[|flags| - 1] then 1 else 0)
  }

  /** `updateTimelineProgress`: the share of visible timeline items, as a percentage. */
  function TimelineProgress(visible: seq<bool>): (r: real)
    ensures 0.0 <= r <= 100.0
    ensures CountVisible(visible) == 0 ==> r == 0.0
    ensures |visible| > 0 && CountVisible(visible) == |visible| ==> r == 100.0
    ensures |visible| > 0 ==> r * (|visible| as real) == 100.0 * (CountVisible(visible) as real)
  {
    var total := |visible|;
    if total > 0 then
      var shown := CountVisible(visible);
      ShareBounds(shown, total);
      (shown as real / total as real) * 100.0
    else 0.0
  }

  lemma ShareBounds(shown: nat, total: nat)
    requires 0 < total && shown <= total
    ensures 0.0 <= shown as real / total as real <= 1.0
    ensures (shown as real / total as real) * 100.0 * (total as real) == 100.0 * (shown as real)
  {
    var q := shown as real / total as real;
    assert q * (total as real) == shown as real;
  }

  /** Revealing one more item raises the progress line. */
  lemma ProgressGrows(visible: seq<bool>, i: nat)
    requires i < |visible| && !visible[i]
    ensures TimelineProgress(visible[i := true]) > TimelineProgress(visible)
  {
    CountSet(visible, i);
    var t := |visible| as real;
    var c := CountVisible(visible) as real;
    assert CountVisible(visible[i := true]) as real == c + 1.0;
    DivGrows(c, c + 1.0, t);
  }

  lemma DivGrows(x: real, y: real, t: real)
    requires t > 0.0 && x < y
    ensures x / t * 100.0 < y / t * 100.0
  {
  }

  lemma {:induction false} CountSet(flags: seq<bool>, i: nat)
    requires i < |flags| && !flags[i]
    ensures CountVisible(flags[i := true]) == CountVisible(flags) + 1
    decreases |flags|
  {
    var g := flags[i := true];
    if i == |flags| - 1 {
      assert g[..|g| - 1] == flags[..|flags| - 1];
    } else {
      assert g[..|g| - 1] == flags[..|flags| - 1][i := true];
      CountSet(flags[..|flags| - 1], i);
    }
  }
}
