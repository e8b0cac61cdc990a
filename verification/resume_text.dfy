/**
 * The regular expressions the résumé components run over duration and
 * achievement text, written out as leftmost-match scanners:
 * `/\d{4}/g`, `/\$([0-9,]+)K/g`, `/(\d+)%/g`, `/(99\.9+)%/` and `/team of (\d+)/`
 * (with and without the `i` flag). `parseInt`'s NaN is `None`.
 */
module ResumeText {
  import opened JsText

  /** The length of the run of decimal digits at the front of `s`. */
  function DigitRun(s: string): (n: nat)
    ensures n <= |s|
    ensures AllDigits(s[..n])
    ensures n < |s| ==> !IsDigit(s[n])
    decreases |s|
  {
    if |s| > 0 && IsDigit(s[0]) then
      var m := DigitRun(s[1..]);
      assert s[..1 + m] == [s[0]] + s[1..][..m];
      1 + m
    else 0
  }

  /** A digit string keeps its whole length as its leading run when a non-digit follows. */
  lemma {:induction false} DigitRunOf(d: string, rest: string)
    requires AllDigits(d)
    requires |rest| == 0 || !IsDigit(rest[0])
    ensures DigitRun(d + rest) == |d|
    decreases |d|
  {
    if |d| > 0 {
      assert (d + rest)[1..] == d[1..] + rest;
      DigitRunOf(d[1..], rest);
    } else {
      assert d + rest == rest;
    }
  }

  // ---------------------------------------------------------------- years

  /** `s.match(/\d{4}/g)`: the values of the non-overlapping four-digit groups, leftmost first. */
  function Years(s: string): (ys: seq<nat>)
    ensures 4 * |ys| <= |s|
    decreases |s|
  {
    if |s| < 4 then []
    else if AllDigits(s[..4]) then [DecimalValue(s[..4])] + Years(s[4..])
    else Years(s[1..])
  }

  predicate NoDigits(s: string) {
    forall i :: 0 <= i < |s| ==> !IsDigit(s[i])
  }

  /** Text without digits in front of `b` adds no year and hides none. */
  lemma {:induction false} YearsSkipText(sep: string, b: string)
    requires NoDigits(sep)
    ensures Years(sep + b) == Years(b)
    decreases |sep|
  {
    if |sep| > 0 {
      var s := sep + b;
      if |s| >= 4 {
        assert !IsDigit(s[..4][0]);
      }
      assert s[1..] == sep[1..] + b;
      YearsSkipText(sep[1..], b);
    } else {
      assert sep + b == b;
    }
  }

  /** A four-digit group at the front is the first year found. */
  lemma YearsOfGroup(a: string, rest: string)
    requires |a| == 4 && AllDigits(a)
    ensures Years(a + rest) == [DecimalValue(a)] + Years(rest)
  {
    var s := a + rest;
    assert s[..4] == a;
    assert s[4..] == rest;
  }

  /** `"YYYY<sep>YYYY"` with a digit-free separator yields exactly its two years. */
  lemma YearsOfRange(a: string, sep: string, b: string)
    requires |a| == 4 && AllDigits(a) && |b| == 4 && AllDigits(b)
    requires NoDigits(sep) && |sep| > 0
    ensures Years(a + sep + b) == [DecimalValue(a), DecimalValue(b)]
  {
    var t := sep + b;
    assert a + sep + b == a + t;
    YearsOfGroup(a, t);
    assert Years(t) == Years(b) by {
      YearsSkipText(sep, b);
    }
    assert Years(b) == [DecimalValue(b)] by {
      assert b + "" == b;
      YearsOfGroup(b, "");
      assert Years("") == [];
    }
  }

  /**
   * `extractYearsFromDuration` / `calculateYearsFromDuration`: with `Present`,
   * the current year minus the first four-digit year (`parseInt(...) || currentYear`,
   * so a missing year or `0000` counts as the current year); otherwise the second
   * year minus the first, or 1 when fewer than two years are written.
   */
  function YearsFromDuration(duration: string, currentYear: int): (r: int)
    ensures (Contains(duration, "Present") && |Years(duration)| > 0 && Years(duration)[0] != 0) ==>
      r == currentYear - Years(duration)[0]
    ensures Contains(duration, "Present") && (|Years(duration)| == 0 || Years(duration)[0] == 0) ==> r == 0
    ensures !Contains(duration, "Present") && |Years(duration)| >= 2 ==> r == Years(duration)[1] as int - Years(duration)[0]
    ensures !Contains(duration, "Present") && |Years(duration)| < 2 ==> r == 1
  {
    var ys := Years(duration);
    if Contains(duration, "Present") then
      var start := if |ys| > 0 && ys[0] != 0 then ys[0] else currentYear;
      currentYear - start
    else if |ys| >= 2 then ys[1] as int - ys[0]
    else 1
  }

  /** `"2019 - 2023"` gives the difference of the two years. */
  lemma ClosedRangeYears(a: string, b: string, currentYear: int)
    requires |a| == 4 && AllDigits(a) && |b| == 4 && AllDigits(b)
    ensures YearsFromDuration(a + " - " + b, currentYear) == DecimalValue(b) - DecimalValue(a)
  {
    YearsOfRange(a, " - ", b);
    RangeNotPresent(a, b);
  }

  lemma RangeNotPresent(a: string, b: string)
    requires AllDigits(a) && AllDigits(b)
    ensures !Contains(a + " - " + b, "Present")
  {
    var d := a + " - " + b;
    assert forall j :: 0 <= j < |d| ==> d[j] != 'P';
    forall i | 0 <= i <= |d| - 7
      ensures !OccursAt(d, "Present", i)
    {
      assert d[i..i + 7][0] == d[i];
    }
  }

  // -------------------------------------------------------------- revenue

  predicate IsAmountChar(c: char) {
    IsDigit(c) || c == ','
  }

  /** Text made of `[0-9,]` only. */
  predicate IsAmountText(run: string) {
    forall j :: 0 <= j < |run| ==> IsAmountChar(run[j])
  }

  predicate AmountTexts(runs: seq<string>) {
    forall k :: 0 <= k < |runs| ==> IsAmountText(runs[k])
  }

  /** The length of the run of `[0-9,]` at the front of `s`. */
  function AmountRun(s: string): (n: nat)
    ensures n <= |s|
    ensures forall i :: 0 <= i < n ==> IsAmountChar(s[i])
    ensures n < |s| ==> !IsAmountChar(s[n])
    decreases |s|
  {
    if |s| > 0 && IsAmountChar(s[0]) then 1 + AmountRun(s[1..]) else 0
  }

  /**
   * `text.match(/\$([0-9,]+)K/g)`, each match given by its `[0-9,]+` part.
   * At a `$` the class run is greedy and backtracking cannot help (a shorter
   * run is followed by a class character, never by `K`), so the match is the
   * maximal run followed by `K`, or no match at that `$`.
   */
  function RevenueRuns(s: string): (runs: seq<string>)
    ensures forall k :: 0 <= k < |runs| ==>
      |runs[k]| >= 1 && IsAmountText(runs[k])
    decreases |s|
  {
    if |s| == 0 then []
    else if s[0] == '$' then
      var n := AmountRun(s[1..]);
      if n >= 1 && 1 + n < |s| && s[1 + n] == 'K' then [s[1..1 + n]] + RevenueRuns(s[2 + n..])
      else RevenueRuns(s[1..])
    else RevenueRuns(s[1..])
  }

  function DropCommas(s: string): (r: string)
    ensures |r| <= |s|
    ensures ',' !in r
  {
    if |s| == 0 then ""
    else (if s[0] == ',' then "" else [s[0]]) + DropCommas(s[1..])
  }

  /** `parseInt(match.replace(/\$|K|,/g, ''))`: a run of commas alone is NaN. */
  function AmountValue(run: string): (r: Option<nat>)
    requires IsAmountText(run)
    ensures r.None? <==> DropCommas(run) == ""
  {
    var d := DropCommas(run);
    DropCommasDigits(run);
    if |d| == 0 then None else Some(DecimalValue(d))
  }

  lemma {:induction false} DropCommasDigits(s: string)
    requires IsAmountText(s)
    ensures AllDigits(DropCommas(s))
    decreases |s|
  {
    if |s| > 0 {
      DropCommasDigits(s[1..]);
    }
  }

  /** Addition where NaN (`None`) absorbs everything. */
  function AddNaN(a: Option<int>, b: Option<int>): (r: Option<int>)
    ensures r.Some? <==> a.Some? && b.Some?
    ensures r.Some? ==> r.value == a.value + b.value
  {
    if a.Some? && b.Some? then Some(a.value + b.value) else None
  }

  function AsInt(v: Option<nat>): (r: Option<int>)
    ensures r.Some? <==> v.Some?
    ensures r.Some? ==> r.value == v.value
  {
    if v.Some? then Some(v.value as int) else None
  }

  /** `matches.reduce((total, m) => total + parseInt(...), 0)`, left to right. */
  function SumAmounts(runs: seq<string>): (r: Option<int>)
    requires AmountTexts(runs)
    ensures r.Some? ==> r.value >= 0
  {
    if |runs| == 0 then Some(0)
    else AddNaN(SumAmounts(runs[..|runs| - 1]), AsInt(AmountValue(runs[|runs| - 1])))
  }

  /** The sum is NaN exactly when some match is made of commas alone. */
  lemma {:induction false} SumAmountsNaN(runs: seq<string>)
    requires AmountTexts(runs)
    ensures SumAmounts(runs).None? <==> HasCommaRun(runs)
    decreases |runs|
  {
    if |runs| > 0 {
      SumAmountsNaN(runs[..|runs| - 1]);
      CommaRunLast(runs);
    }
  }

  /** Some match is made of commas alone. */
  predicate HasCommaRun(runs: seq<string>) {
    exists k :: 0 <= k < |runs| && DropCommas(runs[k]) == ""
  }

  lemma CommaRunLast(runs: seq<string>)
    requires |runs| > 0
    ensures HasCommaRun(runs) <==> HasCommaRun(runs[..|runs| - 1]) || DropCommas(runs[|runs| - 1]) == ""
  {
    if HasCommaRun(runs[..|runs| - 1]) {
      CommaRunGrows(runs);
    }
    if DropCommas(runs[|runs| - 1]) == "" {
      assert HasCommaRun(runs);
    }
    if HasCommaRun(runs) && DropCommas(runs[|runs| - 1]) != "" {
      CommaRunShrinks(runs);
    }
  }

  lemma CommaRunGrows(runs: seq<string>)
    requires |runs| > 0 && HasCommaRun(runs[..|runs| - 1])
    ensures HasCommaRun(runs)
  {
    var init := runs[..|runs| - 1];
    var k :| 0 <= k < |init| && DropCommas(init[k]) == "";
    assert runs[k] == init[k];
  }

  lemma CommaRunShrinks(runs: seq<string>)
    requires |runs| > 0 && HasCommaRun(runs) && DropCommas(runs[|runs| - 1]) != ""
    ensures HasCommaRun(runs[..|runs| - 1])
  {
    var init := runs[..|runs| - 1];
    var k :| 0 <= k < |runs| && DropCommas(runs[k]) == "";
    assert init[k] == runs[k];
  }

  /** `extractRevenueFromText`: the sum of every `$…K` amount, in thousands; 0 without any. */
  function RevenueSum(text: string): (r: Option<int>)
    ensures |RevenueRuns(text)| == 0 ==> r == Some(0)
    ensures r.Some? ==> r.value >= 0
  {
    SumAmounts(RevenueRuns(text))
  }

  lemma SumAmountsConcat(a: seq<string>, b: seq<string>)
    requires AmountTexts(a) && AmountTexts(b)
    ensures AmountTexts(a + b)
    ensures SumAmounts(a + b) == AddNaN(SumAmounts(a), SumAmounts(b))
    decreases |b|
  {
    assert forall k :: 0 <= k < |a + b| ==> (a + b)[k] == if k < |a| then a[k] else b[k - |a|];
    if |b| > 0 {
      var b' := b[..|b| - 1];
      var last := AsInt(AmountValue(b[|b| - 1]));
      assert (a + b)[..|a + b| - 1] == a + b';
      assert (a + b)[|a + b| - 1] == b[|b| - 1];
      assert AmountTexts(b');
      SumAmountsConcat(a, b');
      assert SumAmounts(a + b) == AddNaN(SumAmounts(a + b'), last);
      assert SumAmounts(b) == AddNaN(SumAmounts(b'), last);
      AddAssoc(SumAmounts(a), SumAmounts(b'), last);
    } else {
      assert a + b == a;
    }
  }

  lemma AddAssoc(a: Option<int>, b: Option<int>, c: Option<int>)
    ensures AddNaN(AddNaN(a, b), c) == AddNaN(a, AddNaN(b, c))
  {
  }

  /** Text without `$` holds no amount. */
  lemma {:induction false} NoDollarNoRevenue(s: string)
    requires '$' !in s
    ensures RevenueRuns(s) == []
    decreases |s|
  {
    if |s| > 0 {
      assert s[0] in s;
      NoDollarNoRevenue(s[1..]);
    }
  }

  /**
   * `$<amount>K` is read as that amount, commas included, and the scan resumes
   * after the `K`; a plain digit amount is worth its decimal value.
   */
  lemma AmountAtFront(d: string, rest: string)
    requires |d| >= 1 && IsAmountText(d)
    ensures RevenueRuns("$" + d + "K" + rest) == [d] + RevenueRuns(rest)
    ensures AllDigits(d) ==> AmountValue(d) == Some(DecimalValue(d))
  {
    var s := "$" + d + "K" + rest;
    AmountRunOf(d, "K" + rest);
    assert s[1..] == d + ("K" + rest);
    assert s[1..1 + |d|] == d;
    assert s[1 + |d|] == 'K';
    assert s[2 + |d|..] == rest;
    if AllDigits(d) {
      DropCommasOfDigits(d);
    }
  }

  lemma {:induction false} AmountRunOf(d: string, rest: string)
    requires forall j :: 0 <= j < |d| ==> IsAmountChar(d[j])
    requires |rest| == 0 || !IsAmountChar(rest[0])
    ensures AmountRun(d + rest) == |d|
    decreases |d|
  {
    if |d| > 0 {
      assert (d + rest)[1..] == d[1..] + rest;
      AmountRunOf(d[1..], rest);
    } else {
      assert d + rest == rest;
    }
  }

  lemma {:induction false} DropCommasOfDigits(d: string)
    requires AllDigits(d)
    ensures DropCommas(d) == d
    decreases |d|
  {
    if |d| > 0 {
      DropCommasOfDigits(d[1..]);
      assert d == [d[0]] + d[1..];
    }
  }

  /** The class run does not cross a space. */
  lemma AmountRunStopsAtSpace(x: string, y: string)
    ensures AmountRun(x + " " + y) == AmountRun(x)
  {
    var n := AmountRun(x);
    if n < |x| {
      AmountRunOf(x[..n], x[n..] + " " + y);
      assert x[..n] + (x[n..] + " " + y) == x + " " + y;
    } else {
      assert x[..n] == x;
      AmountRunOf(x, " " + y);
      assert x + (" " + y) == x + " " + y;
    }
  }

  /** No `$…K` match spans a space, so joining texts with spaces concatenates their matches. */
  lemma {:induction false} RevenueRunsSpaceJoin(a: string, b: string)
    ensures RevenueRuns(a + " " + b) == RevenueRuns(a) + RevenueRuns(b)
    decreases |a|
  {
    var s := a + " " + b;
    if |a| == 0 {
      assert s[1..] == b;
    } else if a[0] == '$' {
      DollarSpaceJoin(a, b);
    } else {
      assert s[1..] == a[1..] + " " + b;
      RevenueRunsSpaceJoin(a[1..], b);
    }
  }

  /** The step of `RevenueRunsSpaceJoin` at a `$`. */
  lemma {:induction false} DollarSpaceJoin(a: string, b: string)
    requires |a| > 0 && a[0] == '$'
    ensures RevenueRuns(a + " " + b) == RevenueRuns(a) + RevenueRuns(b)
    decreases |a|, 1
  {
    var n := AmountRun(a[1..]);
    if n >= 1 && 1 + n < |a| && a[1 + n] == 'K' {
      DollarKSpaceJoin(a, b, n);
    } else {
      DollarOnlySpaceJoin(a, b, n);
    }
  }

  /** A `$…K` match at the front of `a` is found at the front of the joined text too. */
  lemma {:induction false} DollarKSpaceJoin(a: string, b: string, n: nat)
    requires |a| > 0 && a[0] == '$' && n == AmountRun(a[1..])
    requires n >= 1 && 1 + n < |a| && a[1 + n] == 'K'
    ensures RevenueRuns(a + " " + b) == RevenueRuns(a) + RevenueRuns(b)
    decreases |a|, 0
  {
    var s := a + " " + b;
    JoinedFront(a, b, n);
    RevenueRunsSpaceJoin(a[2 + n..], b);
    RevenueRunsAtK(s, n);
    RevenueRunsAtK(a, n);
    ConsAppend(RevenueRuns(s), RevenueRuns(a), a[1..1 + n], RevenueRuns(a[2 + n..]), RevenueRuns(b));
  }

  lemma ConsAppend(joined: seq<string>, front: seq<string>, x: string, y: seq<string>, z: seq<string>)
    requires joined == [x] + (y + z) && front == [x] + y
    ensures joined == front + z
  {
  }

  /** The joined text starts with the same `$…K` match as `a`, and continues with the rest of `a` joined to `b`. */
  lemma JoinedFront(a: string, b: string, n: nat)
    requires |a| > 0 && a[0] == '$' && n == AmountRun(a[1..])
    requires 1 + n < |a| && a[1 + n] == 'K'
    ensures var s := a + " " + b;
      s[0] == '$' && AmountRun(s[1..]) == n && s[1 + n] == 'K' && 1 + n < |s|
      && s[1..1 + n] == a[1..1 + n] && s[2 + n..] == a[2 + n..] + " " + b
  {
    var s := a + " " + b;
    assert s[1..] == a[1..] + " " + b;
    AmountRunStopsAtSpace(a[1..], b);
  }

  /** At a `$` whose run is followed by `K`, the run is a match and the scan resumes after the `K`. */
  lemma RevenueRunsAtK(s: string, n: nat)
    requires |s| > 0 && s[0] == '$' && n == AmountRun(s[1..])
    requires n >= 1 && 1 + n < |s| && s[1 + n] == 'K'
    ensures RevenueRuns(s) == [s[1..1 + n]] + RevenueRuns(s[2 + n..])
  {
  }

  /** A `$` of `a` with no `K` after its run is skipped in the joined text too. */
  lemma {:induction false} DollarOnlySpaceJoin(a: string, b: string, n: nat)
    requires |a| > 0 && a[0] == '$' && n == AmountRun(a[1..])
    requires !(n >= 1 && 1 + n < |a| && a[1 + n] == 'K')
    ensures RevenueRuns(a + " " + b) == RevenueRuns(a) + RevenueRuns(b)
    decreases |a|, 0
  {
    var s := a + " " + b;
    assert s[1..] == a[1..] + " " + b;
    AmountRunStopsAtSpace(a[1..], b);
    assert !(n >= 1 && 1 + n < |s| && s[1 + n] == 'K');
    RevenueRunsSpaceJoin(a[1..], b);
    assert RevenueRuns(s) == RevenueRuns(s[1..]);
    assert RevenueRuns(a) == RevenueRuns(a[1..]);
  }

  /** The class run stops at a character outside `[0-9,]`. */
  lemma AmountRunStops(y: string, x: string)
    requires |x| > 0 && !IsAmountChar(x[0])
    ensures AmountRun(y + x) == AmountRun(y)
  {
    var n := AmountRun(y);
    if n < |y| {
      AmountRunOf(y[..n], y[n..] + x);
      assert y[..n] + (y[n..] + x) == y + x;
    } else {
      assert y[..n] == y;
      AmountRunOf(y, x);
    }
  }

  /**
   * No `$…K` match reaches past a `$`, so the matches of text placed before a
   * `$` are found on their own, whatever word they sit in.
   */
  lemma {:induction false} RevenueRunsBeforeDollar(a: string, x: string)
    requires |x| > 0 && x[0] == '$'
    ensures RevenueRuns(a + x) == RevenueRuns(a) + RevenueRuns(x)
    decreases |a|, 2
  {
    var s := a + x;
    if |a| == 0 {
      assert s == x;
    } else if a[0] == '$' {
      var n := AmountRun(a[1..]);
      if n >= 1 && 1 + n < |a| && a[1 + n] == 'K' {
        DollarKBeforeDollar(a, x, n);
      } else {
        DollarOnlyBeforeDollar(a, x, n);
      }
    } else {
      assert s[1..] == a[1..] + x;
      RevenueRunsBeforeDollar(a[1..], x);
    }
  }

  /** A `$…K` match at the front of `a` is found at the front of `a + x` too. */
  lemma {:induction false} DollarKBeforeDollar(a: string, x: string, n: nat)
    requires |x| > 0 && x[0] == '$'
    requires |a| > 0 && a[0] == '$' && n == AmountRun(a[1..])
    requires n >= 1 && 1 + n < |a| && a[1 + n] == 'K'
    ensures RevenueRuns(a + x) == RevenueRuns(a) + RevenueRuns(x)
    decreases |a|, 1
  {
    var s := a + x;
    assert s[1..] == a[1..] + x;
    AmountRunStops(a[1..], x);
    assert s[1 + n] == 'K' && s[1..1 + n] == a[1..1 + n];
    assert s[2 + n..] == a[2 + n..] + x;
    RevenueRunsBeforeDollar(a[2 + n..], x);
    RevenueRunsAtK(s, n);
    RevenueRunsAtK(a, n);
    ConsAppend(RevenueRuns(s), RevenueRuns(a), a[1..1 + n], RevenueRuns(a[2 + n..]), RevenueRuns(x));
  }

  /** A `$` of `a` with no `K` after its run is skipped in `a + x` too: the run cannot reach into `x`. */
  lemma {:induction false} DollarOnlyBeforeDollar(a: string, x: string, n: nat)
    requires |x| > 0 && x[0] == '$'
    requires |a| > 0 && a[0] == '$' && n == AmountRun(a[1..])
    requires !(n >= 1 && 1 + n < |a| && a[1 + n] == 'K')
    ensures RevenueRuns(a + x) == RevenueRuns(a) + RevenueRuns(x)
    decreases |a|, 1
  {
    var s := a + x;
    assert s[1..] == a[1..] + x;
    AmountRunStops(a[1..], x);
    assert n >= 1 && 1 + n < |s| ==> s[1 + n] != 'K' by {
      if 1 + n < |a| {
        assert s[1 + n] == a[1 + n];
      } else if 1 + n < |s| {
        assert s[1 + n] == x[0];
      }
    }
    RevenueRunsBeforeDollar(a[1..], x);
    assert RevenueRuns(s) == RevenueRuns(s[1..]);
    assert RevenueRuns(a) == RevenueRuns(a[1..]);
  }

  /** An amount after `$`-free text, inside a word or not (`(~$1,200K)`), is the first match. */
  lemma AmountInText(pre: string, d: string, rest: string)
    requires '$' !in pre && |d| >= 1 && IsAmountText(d)
    ensures RevenueRuns(pre + "$" + d + "K" + rest) == [d] + RevenueRuns(rest)
  {
    var x := "$" + d + "K" + rest;
    assert pre + "$" + d + "K" + rest == pre + x;
    RevenueRunsBeforeDollar(pre, x);
    NoDollarNoRevenue(pre);
    AmountAtFront(d, rest);
  }

  // -------------------------------------------------------------- percent

  /**
   * `text.match(/(\d+)%/g)`, each match given by its digits. At a digit the
   * run is greedy; a shorter run is followed by a digit, never by `%`.
   */
  function PercentRuns(s: string): (runs: seq<string>)
    ensures forall k :: 0 <= k < |runs| ==> |runs[k]| >= 1 && AllDigits(runs[k])
    decreases |s|
  {
    if |s| == 0 then []
    else if IsDigit(s[0]) then
      var n := DigitRun(s);
      if n < |s| && s[n] == '%' then [s[..n]] + PercentRuns(s[n + 1..])
      else PercentRuns(s[1..])
    else PercentRuns(s[1..])
  }

  /** Text without `%` holds no percentage. */
  lemma {:induction false} NoPercentSign(s: string)
    requires '%' !in s
    ensures PercentRuns(s) == []
    decreases |s|
  {
    if |s| > 0 {
      if IsDigit(s[0]) {
        var n := DigitRun(s);
        if n < |s| {
          assert s[n] in s;
        }
      }
      NoPercentSign(s[1..]);
    }
  }

  /** `N%` at the front is read as N, and the scan resumes after the `%`. */
  lemma PercentAtFront(d: string, rest: string)
    requires |d| >= 1 && AllDigits(d)
    ensures PercentRuns(d + "%" + rest) == [d] + PercentRuns(rest)
  {
    var s := d + "%" + rest;
    DigitRunOf(d, "%" + rest);
    assert s == d + ("%" + rest);
    assert s[..|d|] == d;
    assert s[|d| + 1..] == rest;
  }

  /** A digit run that ends inside `a` is not lengthened by what follows `a`. */
  lemma {:induction false} DigitRunStops(a: string, x: string)
    requires DigitRun(a) < |a|
    ensures DigitRun(a + x) == DigitRun(a)
    decreases |a|
  {
    if IsDigit(a[0]) {
      assert (a + x)[1..] == a[1..] + x;
      DigitRunStops(a[1..], x);
    }
  }

  /** A run as long as the text means the text is all digits. */
  lemma WholeDigitRun(a: string)
    ensures DigitRun(a) == |a| ==> AllDigits(a)
  {
    if DigitRun(a) == |a| {
      assert a[..|a|] == a;
    }
  }

  /** Text that is empty or ends in a non-digit. */
  predicate EndsOutsideRun(a: string) {
    |a| == 0 || !IsDigit(a[|a| - 1])
  }

  /**
   * No match spans the end of a text that ends outside a digit run: the
   * percentages of `a + x` are those of `a`, then those of `x`.
   */
  lemma {:induction false} PercentRunsConcat(a: string, x: string)
    requires EndsOutsideRun(a)
    ensures PercentRuns(a + x) == PercentRuns(a) + PercentRuns(x)
    decreases |a|
  {
    if |a| == 0 {
      assert a + x == x;
    } else {
      var s := a + x;
      assert s[0] == a[0];
      if IsDigit(a[0]) {
        var n := DigitRun(a);
        WholeDigitRun(a);
        DigitRunStops(a, x);
        assert s[n] == a[n];
        if a[n] == '%' {
          assert s[n + 1..] == a[n + 1..] + x;
          assert s[..n] == a[..n];
          PercentRunsConcat(a[n + 1..], x);
          Assoc([a[..n]], PercentRuns(a[n + 1..]), PercentRuns(x));
        } else {
          assert s[1..] == a[1..] + x;
          PercentRunsConcat(a[1..], x);
        }
      } else {
        assert s[1..] == a[1..] + x;
        PercentRunsConcat(a[1..], x);
      }
    }
  }

  /** A trailing space adds no percentage. */
  lemma {:induction false} PercentRunsSpace(a: string)
    ensures PercentRuns(a + " ") == PercentRuns(a)
    decreases |a|
  {
    var s := a + " ";
    if |a| == 0 {
      assert s[1..] == [];
    } else {
      assert s[0] == a[0] && s[1..] == a[1..] + " ";
      if IsDigit(a[0]) {
        var n := DigitRun(a);
        if n < |a| {
          DigitRunStops(a, " ");
          assert s[n] == a[n];
          if a[n] == '%' {
            assert s[n + 1..] == a[n + 1..] + " ";
            assert s[..n] == a[..n];
            PercentRunsSpace(a[n + 1..]);
          } else {
            PercentRunsSpace(a[1..]);
          }
        } else {
          WholeDigitRun(a);
          DigitRunOf(a, " ");
          assert s[n] == ' ';
          PercentRunsSpace(a[1..]);
        }
      } else {
        PercentRunsSpace(a[1..]);
      }
    }
  }

  /** Joining with a space, as the achievements are joined, concatenates the percentages. */
  lemma PercentRunsSpaceJoin(a: string, b: string)
    ensures PercentRuns(a + " " + b) == PercentRuns(a) + PercentRuns(b)
  {
    assert EndsOutsideRun(a + " ");
    PercentRunsConcat(a + " ", b);
    PercentRunsSpace(a);
  }

  /** Every `N%` after a text ending outside a digit run is found, in its place, with its digits. */
  lemma PercentFound(a: string, d: string, rest: string)
    requires EndsOutsideRun(a) && |d| >= 1 && AllDigits(d)
    ensures PercentRuns(a + d + "%" + rest) == PercentRuns(a) + [d] + PercentRuns(rest)
  {
    assert a + d + "%" + rest == a + (d + "%" + rest);
    PercentRunsConcat(a, d + "%" + rest);
    PercentAtFront(d, rest);
    Assoc(PercentRuns(a), [d], PercentRuns(rest));
  }

  function SumValues(runs: seq<string>): (r: nat)
    requires forall k :: 0 <= k < |runs| ==> AllDigits(runs[k])
  {
    if |runs| == 0 then 0 else SumValues(runs[..|runs| - 1]) + DecimalValue(runs[|runs| - 1])
  }

  /** `Math.round(sum / count)` for a non-negative sum: the nearest integer, halves rounded up. */
  function RoundedMean(sum: nat, count: nat): (r: nat)
    requires count > 0
    ensures 2 * count * r <= 2 * sum + count < 2 * count * r + 2 * count
  {
    (2 * sum + count) / (2 * count)
  }

  // --------------------------------------------------------------- uptime

  /** The length of the run of `9`s at the front of `s`. */
  function NineRun(s: string): (n: nat)
    ensures n <= |s|
    ensures forall i :: 0 <= i < n ==> s[i] == '9'
    ensures n < |s| ==> s[n] != '9'
    decreases |s|
  {
    if |s| > 0 && s[0] == '9' then 1 + NineRun(s[1..]) else 0
  }

  /** An uptime figure: `99.` followed by one or more `9`s. */
  predicate IsUptimeFigure(u: string) {
    |u| >= 4 && u[..3] == "99." && forall i :: 3 <= i < |u| ==> u[i] == '9'
  }

  /**
   * `(99\.9+)%` matches at `i`: `99.`, then the whole run of `9`s (at least one)
   * and `%`. Giving back a `9` leaves a `9`, not `%`, after the run, so the
   * backtracking of `9+` finds no other match.
   */
  predicate UptimeAt(s: string, i: int) {
    0 <= i && i + 3 < |s| && s[i..i + 3] == "99." &&
    var n := NineRun(s[i + 3..]);
    n >= 1 && i + 3 + n < |s| && s[i + 3 + n] == '%'
  }

  /** The figure a match at `i` captures. */
  function UptimeCapture(s: string, i: int): string
    requires UptimeAt(s, i)
  {
    s[i..i + 3 + NineRun(s[i + 3..])]
  }

  /** No position of `s` starts a match. */
  ghost predicate NoUptime(s: string) {
    forall i :: !UptimeAt(s, i)
  }

  /** `u` is captured by the match at `i`, and no match starts before `i`. */
  ghost predicate FirstUptime(s: string, i: int, u: string) {
    UptimeAt(s, i) && (forall j :: 0 <= j < i ==> !UptimeAt(s, j)) && u == UptimeCapture(s, i)
  }

  /** Dropping the first character moves every match one place to the left. */
  lemma UptimeShift(s: string, j: int)
    requires |s| > 0 && 1 <= j
    ensures UptimeAt(s, j) <==> UptimeAt(s[1..], j - 1)
    ensures UptimeAt(s, j) ==> UptimeCapture(s, j) == UptimeCapture(s[1..], j - 1)
  {
    if j + 3 < |s| {
      assert s[1..][j - 1..j + 2] == s[j..j + 3];
      assert s[1..][j + 2..] == s[j + 3..];
      assert s[1..][j - 1..j + 2 + NineRun(s[j + 3..])] == s[j..j + 3 + NineRun(s[j + 3..])];
    }
  }

  /**
   * `text.match(/(99\.9+)%/)`: the figure of the leftmost match, and `null`
   * (`None`) exactly when no position matches.
   */
  function Uptime(s: string): (r: Option<string>)
    ensures r.Some? ==> IsUptimeFigure(r.value) && Contains(s, r.value + "%")
    ensures r.None? <==> NoUptime(s)
    ensures r.Some? ==> exists i :: FirstUptime(s, i, r.value)
    decreases |s|
  {
    if |s| < 5 then
      assert NoUptime(s);
      None
    else if UptimeAt(s, 0) then
      var u := UptimeCapture(s, 0);
      assert FirstUptime(s, 0, u);
      UptimeFound(s, u);
      Some(u)
    else
      var r := Uptime(s[1..]);
      UptimeSkip(s, if r.Some? then r.value else "");
      if r.Some? then
        UptimeFound(s, r.value);
        r
      else r
  }

  /** The figure of a match is an uptime figure, and it occurs in the text followed by `%`. */
  lemma UptimeFound(s: string, u: string)
    requires exists i :: FirstUptime(s, i, u)
    ensures IsUptimeFigure(u) && Contains(s, u + "%")
  {
    var i :| FirstUptime(s, i, u);
    var n := NineRun(s[i + 3..]);
    assert u == s[i..i + 3 + n];
    assert u[..3] == s[i..i + 3];
    assert forall k :: 3 <= k < |u| ==> u[k] == s[i + 3..][k - 3];
    assert s[i..i + |u + "%"|] == u + "%";
    assert OccursAt(s, u + "%", i);
  }

  /** Without a match at the front, the matches of `s` are those of `s[1..]`, one place on. */
  lemma UptimeSkip(s: string, u: string)
    requires |s| > 0 && !UptimeAt(s, 0)
    ensures NoUptime(s) <==> NoUptime(s[1..])
    ensures (exists i :: FirstUptime(s[1..], i, u)) ==> exists i :: FirstUptime(s, i, u)
  {
    if NoUptime(s[1..]) {
      forall j ensures !UptimeAt(s, j) {
        if j >= 1 {
          UptimeShift(s, j);
        }
      }
    }
    if NoUptime(s) {
      forall j ensures !UptimeAt(s[1..], j) {
        if j >= 0 {
          UptimeShift(s, j + 1);
        }
      }
    }
    if exists i :: FirstUptime(s[1..], i, u) {
      var m :| FirstUptime(s[1..], m, u);
      UptimeFirstShift(s, m, u);
    }
  }

  /** The first match of `s[1..]` is, one place on, the first of `s` when `s` does not match at 0. */
  lemma UptimeFirstShift(s: string, m: int, u: string)
    requires |s| > 0 && !UptimeAt(s, 0) && FirstUptime(s[1..], m, u)
    ensures FirstUptime(s, m + 1, u)
  {
    UptimeShift(s, m + 1);
    forall j | 1 <= j < m + 1 ensures !UptimeAt(s, j) {
      UptimeShift(s, j);
    }
  }

  /** A figure followed by `%` at the front is the uptime read. */
  lemma UptimeAtFront(nines: string, rest: string)
    requires |nines| >= 1 && forall i :: 0 <= i < |nines| ==> nines[i] == '9'
    ensures Uptime("99." + nines + "%" + rest) == Some("99." + nines)
  {
    var s := "99." + nines + "%" + rest;
    NineRunOf(nines, "%" + rest);
    assert s[..3] == "99.";
    assert s[3..] == nines + ("%" + rest);
    assert s[3 + |nines|] == '%';
    assert s[..3 + |nines|] == "99." + nines;
  }

  lemma {:induction false} NineRunOf(d: string, rest: string)
    requires forall i :: 0 <= i < |d| ==> d[i] == '9'
    requires |rest| == 0 || rest[0] != '9'
    ensures NineRun(d + rest) == |d|
    decreases |d|
  {
    if |d| > 0 {
      assert (d + rest)[1..] == d[1..] + rest;
      NineRunOf(d[1..], rest);
    } else {
      assert d + rest == rest;
    }
  }

  // ----------------------------------------------------------------- team

  const TeamPhrase := "team of "

  /** `team of ` at the front of `s`, letters compared without case when `ignoreCase` (the `i` flag). */
  predicate PhraseAtFront(s: string, ignoreCase: bool) {
    |s| >= 8 && (if ignoreCase then ToLower(s[..8]) == TeamPhrase else s[..8] == TeamPhrase)
  }

  /**
   * `text.match(/team of (\d+)/)` (or `/team of (\d+)/i`): the captured digits
   * of the leftmost match. The `i` flag folds ASCII letters only: no character
   * outside ASCII canonicalises to one inside it.
   */
  function TeamOf(s: string, ignoreCase: bool): (r: Option<string>)
    ensures r.Some? ==> |r.value| >= 1 && AllDigits(r.value)
    decreases |s|
  {
    if |s| < 9 then None
    else if PhraseAtFront(s, ignoreCase) && IsDigit(s[8]) then
      var n := DigitRun(s[8..]);
      Some(s[8..][..n])
    else TeamOf(s[1..], ignoreCase)
  }

  /**
   * The scan finds the leftmost match: `null` (`None`) exactly when no position
   * matches, and otherwise the digits captured at the first position that does.
   */
  lemma {:induction false} TeamOfLeftmost(s: string, ignoreCase: bool)
    ensures TeamOf(s, ignoreCase).None? <==> NoTeam(s, ignoreCase)
    ensures TeamOf(s, ignoreCase).Some? ==> exists i :: FirstTeam(s, i, ignoreCase, TeamOf(s, ignoreCase).value)
    decreases |s|
  {
    if |s| < 9 {
      assert NoTeam(s, ignoreCase);
    } else if PhraseAtFront(s, ignoreCase) && IsDigit(s[8]) {
      assert s[0..] == s && s[0 + 8..] == s[8..];
      assert FirstTeam(s, 0, ignoreCase, TeamOf(s, ignoreCase).value);
    } else {
      assert s[0..] == s;
      TeamOfLeftmost(s[1..], ignoreCase);
      var r := TeamOf(s[1..], ignoreCase);
      TeamSkip(s, ignoreCase, if r.Some? then r.value else "");
    }
  }

  /** `team of (\d+)` matches at `i`: the phrase, then at least one digit. */
  predicate TeamAt(s: string, i: int, ignoreCase: bool) {
    0 <= i && i + 9 <= |s| && PhraseAtFront(s[i..], ignoreCase) && IsDigit(s[i + 8])
  }

  /** The digits a match at `i` captures: the whole run, as `\d+` is greedy. */
  function TeamCapture(s: string, i: int): string
    requires 0 <= i && i + 8 <= |s|
  {
    s[i + 8..][..DigitRun(s[i + 8..])]
  }

  /** No position of `s` starts a match. */
  ghost predicate NoTeam(s: string, ignoreCase: bool) {
    forall i :: !TeamAt(s, i, ignoreCase)
  }

  /** `d` is captured by the match at `i`, and no match starts before `i`. */
  ghost predicate FirstTeam(s: string, i: int, ignoreCase: bool, d: string) {
    TeamAt(s, i, ignoreCase) && (forall j :: 0 <= j < i ==> !TeamAt(s, j, ignoreCase)) && d == TeamCapture(s, i)
  }

  /** Dropping the first character moves every match one place to the left. */
  lemma TeamShift(s: string, j: int, ignoreCase: bool)
    requires |s| > 0 && 1 <= j
    ensures TeamAt(s, j, ignoreCase) <==> TeamAt(s[1..], j - 1, ignoreCase)
    ensures TeamAt(s, j, ignoreCase) ==> TeamCapture(s, j) == TeamCapture(s[1..], j - 1)
  {
    if j + 8 <= |s| {
      assert s[1..][j - 1..] == s[j..];
      assert s[1..][j + 7..] == s[j + 8..];
    }
  }

  /** Without a match at the front, the matches of `s` are those of `s[1..]`, one place on. */
  lemma TeamSkip(s: string, ignoreCase: bool, d: string)
    requires |s| > 0 && !TeamAt(s, 0, ignoreCase)
    ensures NoTeam(s, ignoreCase) <==> NoTeam(s[1..], ignoreCase)
    ensures (exists i :: FirstTeam(s[1..], i, ignoreCase, d)) ==> exists i :: FirstTeam(s, i, ignoreCase, d)
  {
    if NoTeam(s[1..], ignoreCase) {
      forall j ensures !TeamAt(s, j, ignoreCase) {
        if j >= 1 {
          TeamShift(s, j, ignoreCase);
        }
      }
    }
    if NoTeam(s, ignoreCase) {
      forall j ensures !TeamAt(s[1..], j, ignoreCase) {
        if j >= 0 {
          TeamShift(s, j + 1, ignoreCase);
        }
      }
    }
    if exists i :: FirstTeam(s[1..], i, ignoreCase, d) {
      var m :| FirstTeam(s[1..], m, ignoreCase, d);
      TeamFirstShift(s, ignoreCase, m, d);
    }
  }

  /** The first match of `s[1..]` is, one place on, the first of `s` when `s` does not match at 0. */
  lemma TeamFirstShift(s: string, ignoreCase: bool, m: int, d: string)
    requires |s| > 0 && !TeamAt(s, 0, ignoreCase) && FirstTeam(s[1..], m, ignoreCase, d)
    ensures FirstTeam(s, m + 1, ignoreCase, d)
  {
    TeamShift(s, m + 1, ignoreCase);
    forall j | 1 <= j < m + 1 ensures !TeamAt(s, j, ignoreCase) {
      TeamShift(s, j, ignoreCase);
    }
  }

  /** `team of N` at the front is read as N. */
  lemma TeamAtFront(d: string, rest: string, ignoreCase: bool)
    requires |d| >= 1 && AllDigits(d)
    requires |rest| == 0 || !IsDigit(rest[0])
    ensures TeamOf(TeamPhrase + d + rest, ignoreCase) == Some(d)
  {
    var s := TeamPhrase + d + rest;
    assert s[..8] == TeamPhrase;
    assert ToLower(TeamPhrase) == TeamPhrase;
    assert s[8..] == d + rest;
    DigitRunOf(d, rest);
    assert (d + rest)[..|d|] == d;
  }

  /** Matching with the `i` flag is matching the lower-cased text without it. */
  lemma {:induction false} IgnoreCaseIsLowerCase(s: string)
    ensures TeamOf(s, true) == TeamOf(ToLower(s), false)
    decreases |s|
  {
    var l := ToLower(s);
    if |s| >= 9 {
      assert l[..8] == ToLower(s[..8]);
      assert l[8..] == ToLower(s[8..]);
      LowerKeepsDigitRun(s[8..]);
      assert l[1..] == ToLower(s[1..]);
      IgnoreCaseIsLowerCase(s[1..]);
    }
  }

  /** Lower-casing leaves a leading digit run exactly as it was. */
  lemma {:induction false} LowerKeepsDigitRun(s: string)
    ensures DigitRun(ToLower(s)) == DigitRun(s)
    ensures ToLower(s)[..DigitRun(s)] == s[..DigitRun(s)]
    decreases |s|
  {
    if |s| > 0 {
      assert ToLower(s)[1..] == ToLower(s[1..]);
      LowerKeepsDigitRun(s[1..]);
      if IsDigit(s[0]) {
        var m := DigitRun(s[1..]);
        assert ToLower(s)[..1 + m] == [ToLower(s)[0]] + ToLower(s[1..])[..m];
        assert s[..1 + m] == [s[0]] + s[1..][..m];
      }
    }
  }

  /** A case-sensitive match is also found with the `i` flag. */
  lemma {:induction false} SensitiveMatchFoundIgnoringCase(s: string)
    ensures TeamOf(s, false).Some? ==> TeamOf(s, true).Some?
    decreases |s|
  {
    if |s| >= 9 {
      if PhraseAtFront(s, false) {
        assert ToLower(s[..8]) == ToLower(TeamPhrase) == TeamPhrase;
      }
      SensitiveMatchFoundIgnoringCase(s[1..]);
    }
  }
}
