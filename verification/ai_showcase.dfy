/**
 * The AI showcase's metric cards: each initiative metric string is read with
 * `/(\d+)%?\s*(.+)/`, and every `N%` of the impact text becomes an extra
 * card. The regular expression is written out as the backtracking search the
 * JavaScript engine performs, and proved equal to its declarative reading.
 */
module AiShowcase {
  import opened JsText
  import opened ResumeText

  // ------------------------------------------------- the metric expression

  /** The end of the run of white space starting at `p`. */
  function SpaceEnd(s: string, p: nat): (w: nat)
    requires p <= |s|
    ensures p <= w <= |s|
    ensures forall k :: p <= k < w ==> IsSpace(s[k])
    ensures w == |s| || !IsSpace(s[w])
    decreases |s| - p
  {
    if p < |s| && IsSpace(s[p]) then SpaceEnd(s, p + 1) else p
  }

  /** `(.+)` can start at `q`: a character other than a line terminator. */
  predicate LabelStart(s: string, q: int) {
    0 <= q < |s| && !IsLineTerminator(s[q])
  }

  /** `s[p..q]` is all white space. */
  predicate SpacesBetween(s: string, p: int, q: int)
    requires 0 <= p <= q <= |s|
  {
    forall k :: p <= k < q ==> IsSpace(s[k])
  }

  /** After digits ending at `d`: `%?` ends at `p`, `\s*` at `q`, and `(.+)` starts at `q`. */
  predicate ValidTail(s: string, d: int, p: int, q: int) {
    && 0 <= d <= p <= q < |s|
    && (p == d || (p == d + 1 && s[d] == '%'))
    && SpacesBetween(s, p, q)
    && LabelStart(s, q)
  }

  /** One way the expression can match at `i`: `(\d+)` is `s[i..d]`. */
  predicate Valid(s: string, i: int, d: int, p: int, q: int) {
    && 0 <= i < d <= |s|
    && (forall k :: i <= k < d ==> IsDigit(s[k]))
    && ValidTail(s, d, p, q)
  }

  /** The engine's preference between two ways at one start: longer `\d+`, then `%` taken, then longer `\s*`. */
  predicate Prefer(d: int, p: int, q: int, d2: int, p2: int, q2: int) {
    d > d2 || (d == d2 && (p > p2 || (p == p2 && q >= q2)))
  }

  /** `\s*` backtracking: the longest `q <= top` from which `(.+)` can start. */
  function SearchQ(s: string, p: nat, top: nat): (r: Option<nat>)
    requires p <= top <= |s|
    ensures r.Some? ==> p <= r.value <= top && LabelStart(s, r.value)
    ensures r.Some? ==> forall y :: r.value < y <= top ==> !LabelStart(s, y)
    ensures r.None? ==> forall y :: p <= y <= top ==> !LabelStart(s, y)
    decreases top
  {
    if LabelStart(s, top) then Some(top)
    else if top == p then None
    else SearchQ(s, p, top - 1)
  }

  /** Only a `q` within the white-space run after `p` can follow `\s*`. */
  lemma SpaceRunBound(s: string, p: nat, q: int)
    requires p <= q < |s| && SpacesBetween(s, p, q)
    ensures q <= SpaceEnd(s, p)
  {
  }

  /** The best `(p, q)` after `\s*` starting at `p`. */
  function TryP(s: string, p: nat): (r: Option<nat>)
    requires p <= |s|
    ensures r.Some? ==> p <= r.value < |s| && LabelStart(s, r.value) && SpacesBetween(s, p, r.value)
    ensures r.Some? ==> forall y :: p <= y < |s| && SpacesBetween(s, p, y) && LabelStart(s, y) ==> y <= r.value
    ensures r.None? ==> forall y :: p <= y < |s| && SpacesBetween(s, p, y) ==> !LabelStart(s, y)
  {
    var w := SpaceEnd(s, p);
    var r := SearchQ(s, p, w);
    forall y | p <= y < |s| && SpacesBetween(s, p, y) ensures y <= w {
      SpaceRunBound(s, p, y);
    }
    r
  }

  /** A way to finish after `\d+` ends at `d`. */
  datatype Tail = Tail(p: nat, q: nat)

  /** `%?` backtracking: with a `%` at `d`, first try taking it. */
  function TryD(s: string, d: nat): (r: Option<Tail>)
    requires d <= |s|
    ensures r.Some? ==> ValidTail(s, d, r.value.p, r.value.q)
    ensures r.Some? ==> forall p, q :: ValidTail(s, d, p, q) ==> Prefer(d, r.value.p, r.value.q, d, p, q)
    ensures r.None? ==> forall p, q :: !ValidTail(s, d, p, q)
  {
    var percent := d < |s| && s[d] == '%';
    var taken := if percent then TryP(s, d + 1) else None;
    if taken.Some? then Some(Tail(d + 1, taken.value))
    else
      match TryP(s, d)
      case Some(q) => Some(Tail(d, q))
      case None => None
  }

  /** A match found at one start. */
  datatype Match = Match(i: nat, d: nat, p: nat, q: nat)

  /** `\d+` backtracking from `top` down to one digit. */
  function SearchD(s: string, i: nat, top: nat): (r: Option<Match>)
    requires i < top <= |s| && forall k :: i <= k < top ==> IsDigit(s[k])
    ensures r.Some? ==> r.value.i == i && i < r.value.d <= top && Valid(s, i, r.value.d, r.value.p, r.value.q)
    ensures r.Some? ==> forall d, p, q :: i < d <= top && ValidTail(s, d, p, q) ==>
      Prefer(r.value.d, r.value.p, r.value.q, d, p, q)
    ensures r.None? ==> forall d, p, q :: i < d <= top ==> !ValidTail(s, d, p, q)
    decreases top
  {
    match TryD(s, top)
    case Some(t) => Some(Match(i, top, t.p, t.q))
    case None => if top == i + 1 then None else SearchD(s, i, top - 1)
  }

  /** The matches at `i`, with `\d+` first taking the whole digit run. */
  function MatchAt(s: string, i: nat): (r: Option<Match>)
    requires i < |s|
    ensures r.Some? ==> r.value.i == i && Valid(s, i, r.value.d, r.value.p, r.value.q)
    ensures r.Some? ==> forall d, p, q :: Valid(s, i, d, p, q) ==> Prefer(r.value.d, r.value.p, r.value.q, d, p, q)
    ensures r.None? ==> forall d, p, q :: !Valid(s, i, d, p, q)
  {
    if !IsDigit(s[i]) then None
    else
      var n := DigitRun(s[i..]);
      var top := i + n;
      assert forall k :: i <= k < top ==> s[k] == s[i..][k - i];
      forall d, p, q | Valid(s, i, d, p, q) ensures d <= top {
        assert top < |s| ==> s[top] == s[i..][n];
      }
      SearchD(s, i, top)
  }

  /** The unanchored search: the leftmost start with a match. */
  function SearchFrom(s: string, i: nat): (r: Option<Match>)
    requires i <= |s|
    ensures r.Some? ==> i <= r.value.i && Valid(s, r.value.i, r.value.d, r.value.p, r.value.q)
    ensures r.Some? ==> forall j, d, p, q :: i <= j < r.value.i ==> !Valid(s, j, d, p, q)
    ensures r.Some? ==> forall d, p, q :: Valid(s, r.value.i, d, p, q) ==> Prefer(r.value.d, r.value.p, r.value.q, d, p, q)
    ensures r.None? ==> forall j, d, p, q :: i <= j ==> !Valid(s, j, d, p, q)
    decreases |s| - i
  {
    if i == |s| then None
    else
      match MatchAt(s, i)
      case Some(m) => Some(m)
      case None => SearchFrom(s, i + 1)
  }

  /** The end of `(.+)`: the first line terminator at or after `q`, or the end. */
  function LineEnd(s: string, q: nat): (e: nat)
    requires q <= |s|
    ensures q <= e <= |s|
    ensures forall k :: q <= k < e ==> !IsLineTerminator(s[k])
    ensures e == |s| || IsLineTerminator(s[e])
    decreases |s| - q
  {
    if q < |s| && !IsLineTerminator(s[q]) then LineEnd(s, q + 1) else q
  }

  /** `(i, d, p, q)` is the match the engine reports: the leftmost start that matches, and there the preferred way. */
  ghost predicate Reported(s: string, i: int, d: int, p: int, q: int) {
    && Valid(s, i, d, p, q)
    && (forall j, d2, p2, q2 :: 0 <= j < i ==> !Valid(s, j, d2, p2, q2))
    && (forall d2, p2, q2 :: Valid(s, i, d2, p2, q2) ==> Prefer(d, p, q, d2, p2, q2))
  }

  /** `metric.match(/(\d+)%?\s*(.+)/)`: the digits and the label, or no match. */
  datatype Captures = Captures(digits: string, rest: string)

  /**
   * The leftmost start that matches, and there the way the engine prefers;
   * the label runs to the end of the line.
   */
  function MetricMatch(s: string): (r: Option<Captures>)
    ensures r.None? <==> forall i, d, p, q :: !Valid(s, i, d, p, q)
    ensures r.Some? ==> |r.value.digits| >= 1 && AllDigits(r.value.digits) && |r.value.rest| >= 1
    ensures r.Some? ==> forall k :: 0 <= k < |r.value.rest| ==> !IsLineTerminator(r.value.rest[k])
    ensures r.Some? ==> exists i, d, p, q :: Reported(s, i, d, p, q) && r.value.digits == s[i..d] && r.value.rest == s[q..LineEnd(s, q)]
  {
    match SearchFrom(s, 0)
    case None => None
    case Some(m) =>
      var e := LineEnd(s, m.q);
      assert Reported(s, m.i, m.d, m.p, m.q);
      Some(Captures(s[m.i..m.d], s[m.q..e]))
  }

  // ------------------------------------------------------------- the cards

  datatype AiMetric = AiMetric(value: nat, unit: string, caption: string, category: string)

  /** One initiative: its name and its `metrics`, which may be absent. */
  datatype Initiative = Initiative(name: string, metrics: Option<seq<string>>)

  /** The card of one initiative metric, when the expression matches. */
  function MetricCard(metric: string, category: string): (r: Option<AiMetric>)
    ensures r.Some? <==> MetricMatch(metric).Some?
    ensures r.Some? ==> r.value.category == category && (r.value.unit == "%" <==> '%' in metric)
    ensures r.Some? ==> r.value.value == DecimalValue(MetricMatch(metric).value.digits) && r.value.caption == MetricMatch(metric).value.rest
  {
    match MetricMatch(metric)
    case None => None
    case Some(c) => Some(AiMetric(DecimalValue(c.digits), if '%' in metric then "%" else "", c.rest, category))
  }

  /** The matching metrics of one list, in order. */
  function CardsOf(metrics: seq<string>, category: string): (r: seq<AiMetric>)
    ensures |r| <= |metrics|
    ensures forall k :: 0 <= k < |r| ==> r[k].category == category
    ensures (forall k :: 0 <= k < |metrics| ==> MetricMatch(metrics[k]).None?) ==> r == []
    ensures |metrics| == 1 ==> r == CardOrNone(metrics[0], category)
  {
    if |metrics| == 0 then []
    else
      CardOrNone(metrics[0], category) + CardsOf(metrics[1..], category)
  }

  /** The card of one metric as a list: empty when the expression does not match. */
  function CardOrNone(metric: string, category: string): (r: seq<AiMetric>)
    ensures |r| <= 1
    ensures r == [] <==> MetricCard(metric, category).None?
    ensures |r| == 1 ==> r[0] == MetricCard(metric, category).value
  {
    match MetricCard(metric, category) case Some(m) => [m] case None => []
  }

  /** When every metric matches, card `k` is the card of metric `k`. */
  lemma {:induction false} CardsOfAllMatch(metrics: seq<string>, category: string)
    requires forall k :: 0 <= k < |metrics| ==> MetricMatch(metrics[k]).Some?
    ensures |CardsOf(metrics, category)| == |metrics|
    ensures forall k :: 0 <= k < |metrics| ==> CardsOf(metrics, category)[k] == MetricCard(metrics[k], category).value
    decreases |metrics|
  {
    if |metrics| > 0 {
      CardsOfAllMatch(metrics[1..], category);
      var rest := CardsOf(metrics[1..], category);
      assert CardsOf(metrics, category) == [MetricCard(metrics[0], category).value] + rest;
      forall k | 0 < k < |metrics| ensures CardsOf(metrics, category)[k] == MetricCard(metrics[k], category).value {
        assert metrics[1..][k - 1] == metrics[k];
      }
    }
  }

  /** Matching is per metric: the cards of `a + b` are the cards of `a`, then those of `b`. */
  lemma {:induction false} CardsOfConcat(a: seq<string>, b: seq<string>, category: string)
    ensures CardsOf(a + b, category) == CardsOf(a, category) + CardsOf(b, category)
    decreases |a|
  {
    if |a| == 0 {
      assert a + b == b;
    } else {
      HeadTail(a, b);
      CardsOfConcat(a[1..], b, category);
      CardsOfConcatStep(a[0], a[1..], b, category);
      var head, x, y := CardOrNone(a[0], category), CardsOf(a[1..], category), CardsOf(b, category);
      assert CardsOf(a + b, category) == head + (x + y);
    }
  }

  lemma CardsOfConcatStep(m: string, tail: seq<string>, b: seq<string>, category: string)
    ensures CardsOf([m] + (tail + b), category) == CardOrNone(m, category) + CardsOf(tail + b, category)
    ensures CardsOf([m] + tail, category) + CardsOf(b, category)
            == CardOrNone(m, category) + (CardsOf(tail, category) + CardsOf(b, category))
  {
    CardsOfCons(m, tail + b, category);
    CardsOfCons(m, tail, category);
    var head, x, y := CardOrNone(m, category), CardsOf(tail, category), CardsOf(b, category);
    Assoc(head, x, y);
  }

  lemma CardsOfCons(m: string, ms: seq<string>, category: string)
    ensures CardsOf([m] + ms, category) == CardOrNone(m, category) + CardsOf(ms, category)
  {
    assert ([m] + ms)[0] == m && ([m] + ms)[1..] == ms;
  }

  /** The cards one initiative contributes: none when it has no `metrics`. */
  function OwnCards(initiative: Initiative): (r: seq<AiMetric>)
    ensures initiative.metrics.None? ==> r == []
    ensures forall k :: 0 <= k < |r| ==> r[k].category == initiative.name
  {
    match initiative.metrics
    case Some(ms) => CardsOf(ms, initiative.name)
    case None => []
  }

  /** The initiative metrics: initiative by initiative, metric by metric, named after their initiative. */
  function InitiativeCards(initiatives: seq<Initiative>): (r: seq<AiMetric>)
    ensures forall k :: 0 <= k < |r| ==> exists j :: 0 <= j < |initiatives| && r[k].category == initiatives[j].name
    ensures |initiatives| == 1 ==> r == OwnCards(initiatives[0])
  {
    if |initiatives| == 0 then []
    else
      var own := OwnCards(initiatives[0]);
      var rest := InitiativeCards(initiatives[1..]);
      var r := own + rest;
      forall k | 0 <= k < |r| ensures exists j :: 0 <= j < |initiatives| && r[k].category == initiatives[j].name {
        if k < |own| {
          assert r[k].category == initiatives[0].name;
        } else {
          assert r[k] == rest[k - |own|];
          var j :| 0 <= j < |initiatives[1..]| && rest[k - |own|].category == initiatives[1..][j].name;
          assert initiatives[1..][j] == initiatives[j + 1];
        }
      }
      r
  }

  /** The card list of a sequence of initiatives is the concatenation of each one's cards. */
  lemma {:induction false} InitiativeCardsConcat(a: seq<Initiative>, b: seq<Initiative>)
    ensures InitiativeCards(a + b) == InitiativeCards(a) + InitiativeCards(b)
    decreases |a|
  {
    if |a| == 0 {
      assert a + b == b;
    } else {
      assert (a + b)[0] == a[0];
      assert (a + b)[1..] == a[1..] + b;
      InitiativeCardsConcat(a[1..], b);
    }
  }

  /** The `forEach` pushes initiative by initiative: one more initiative appends its own cards. */
  lemma InitiativeCardsPush(initiatives: seq<Initiative>, next: Initiative)
    ensures InitiativeCards(initiatives + [next]) == InitiativeCards(initiatives) + OwnCards(next)
  {
    InitiativeCardsConcat(initiatives, [next]);
  }

  /** `labels[index] || 'improvement'`. */
  function ImpactLabel(k: nat): string {
    if k == 0 then "time-to-merge reduction"
    else if k == 1 then "build failure decrease"
    else "improvement"
  }

  /** The impact cards: one `%` card per `N%` of a non-empty impact text, labelled by position. */
  function ImpactCards(impact: Option<string>): (r: seq<AiMetric>)
    ensures impact.None? ==> r == []
    ensures impact.Some? ==> |r| == |PercentRuns(impact.value)|
    ensures forall k :: 0 <= k < |r| ==>
      && r[k].unit == "%" && r[k].category == "Overall Impact" && r[k].caption == ImpactLabel(k)
      && r[k].value == DecimalValue(PercentRuns(impact.value)[k])
  {
    match impact
    case None => []
    case Some(text) =>
      var runs := PercentRuns(text);
      seq(|runs|, k requires 0 <= k < |runs| =>
        AiMetric(DecimalValue(runs[k]), "%", ImpactLabel(k), "Overall Impact"))
  }

  /** `extractAndAnimateMetrics`: the initiative cards, then the impact cards. */
  function AllCards(initiatives: Option<seq<Initiative>>, impact: Option<string>): (r: seq<AiMetric>)
    ensures |r| >= |ImpactCards(impact)|
    ensures r[|r| - |ImpactCards(impact)|..] == ImpactCards(impact)
    ensures initiatives.Some? ==> r == InitiativeCards(initiatives.value) + ImpactCards(impact)
    ensures initiatives.None? ==> r == ImpactCards(impact)
    ensures forall k :: 0 <= k < |r| - |ImpactCards(impact)| ==>
      (r[k].category != "Overall Impact" ||
       (initiatives.Some? && exists j :: 0 <= j < |initiatives.value| && initiatives.value[j].name == "Overall Impact"))
  {
    var own := match initiatives case Some(xs) => InitiativeCards(xs) case None => [];
    own + ImpactCards(impact)
  }

  // ------------------------------------------------------------- partners

  /** In `N% text`, the engine matches at the front, takes all of `N` and the `%`, and one space. */
  lemma FrontMatch(digits: string, text: string)
    requires |digits| >= 1 && AllDigits(digits)
    requires |text| >= 1 && !IsSpace(text[0]) && !IsLineTerminator(text[0])
    ensures var n := |digits|;
      SearchFrom(digits + "% " + text, 0) == Some(Match(0, n, n + 1, n + 2))
  {
    var s := digits + "% " + text;
    var n := |digits|;
    assert s[n] == '%' && s[n + 1] == ' ' && s[n + 2] == text[0];
    assert forall k :: 0 <= k < n ==> s[k] == digits[k];
    SearchFront(s, n);
  }

  /** When `s` itself starts with `n` digits, `% ` and a label, the search stops at the front. */
  lemma SearchFront(s: string, n: nat)
    requires 1 <= n && n + 2 < |s| && (forall k :: 0 <= k < n ==> IsDigit(s[k]))
    requires s[n] == '%' && s[n + 1] == ' ' && !IsSpace(s[n + 2]) && !IsLineTerminator(s[n + 2])
    ensures SearchFrom(s, 0) == Some(Match(0, n, n + 1, n + 2))
  {
    assert Valid(s, 0, n, n + 1, n + 2);
    var r := SearchFrom(s, 0);
    assert r.Some?;
    var m := r.value;
    PinMatch(s, n, m);
  }

  /**
   * At a start where `n` digits are followed by `% ` and a label, the only way
   * the engine prefers to the one through `%` and a single space is that one.
   */
  lemma PinMatch(s: string, n: nat, m: Match)
    requires 1 <= n && n + 2 < |s| && (forall k :: 0 <= k < n ==> IsDigit(s[k]))
    requires s[n] == '%' && s[n + 1] == ' ' && !IsSpace(s[n + 2])
    requires m.i == 0 && Valid(s, 0, m.d, m.p, m.q) && Prefer(m.d, m.p, m.q, n, n + 1, n + 2)
    ensures m == Match(0, n, n + 1, n + 2)
  {
    assert !IsDigit(s[n]);
    assert m.d == n;
    assert m.p == n + 1;
    assert m.q == n + 2;
  }

  /** The captures of `N% text`: the digits, and the rest of the line after the space. */
  lemma FrontCaptures(digits: string, text: string)
    requires |digits| >= 1 && AllDigits(digits)
    requires |text| >= 1 && !IsSpace(text[0]) && forall k :: 0 <= k < |text| ==> !IsLineTerminator(text[k])
    ensures MetricMatch(digits + "% " + text) == Some(Captures(digits, text))
  {
    var s := digits + "% " + text;
    var n := |digits|;
    FrontMatch(digits, text);
    TextAfterPercent(digits, text);
    NoTerminatorLineEnd(s, n + 2);
    MatchCaptures(s, n);
  }

  /** The pieces of `N% text`: the digits before the sign, the text after the space. */
  lemma TextAfterPercent(digits: string, text: string)
    requires forall k :: 0 <= k < |text| ==> !IsLineTerminator(text[k])
    ensures var s := digits + "% " + text; var n := |digits|;
      s[0..n] == digits && s[n + 2..|s|] == text
      && forall k :: n + 2 <= k < |s| ==> !IsLineTerminator(s[k])
  {
    var s := digits + "% " + text;
    var n := |digits|;
    assert s[0..n] == digits;
    assert s[n + 2..|s|] == text;
    assert forall k :: n + 2 <= k < |s| ==> s[k] == text[k - (n + 2)];
  }

  /** A match at the front whose label runs to the end captures the digits and the rest of the text. */
  lemma MatchCaptures(s: string, n: nat)
    requires n + 2 <= |s|
    requires SearchFrom(s, 0) == Some(Match(0, n, n + 1, n + 2)) && LineEnd(s, n + 2) == |s|
    ensures MetricMatch(s) == Some(Captures(s[0..n], s[n + 2..|s|]))
  {
  }

  /** With no line terminator after `q`, `(.+)` runs to the end. */
  lemma {:induction false} NoTerminatorLineEnd(s: string, q: nat)
    requires q <= |s| && forall k :: q <= k < |s| ==> !IsLineTerminator(s[k])
    ensures LineEnd(s, q) == |s|
    decreases |s| - q
  {
    if q < |s| {
      NoTerminatorLineEnd(s, q + 1);
    }
  }

  /** `N% text` gives a `%` card worth N whose caption is the rest of the line. */
  lemma PercentMetric(digits: string, text: string, category: string)
    requires |digits| >= 1 && AllDigits(digits)
    requires |text| >= 1 && !IsSpace(text[0]) && forall k :: 0 <= k < |text| ==> !IsLineTerminator(text[k])
    ensures MetricCard(digits + "% " + text, category) == Some(AiMetric(DecimalValue(digits), "%", text, category))
  {
    var s := digits + "% " + text;
    FrontCaptures(digits, text);
    assert s[|digits|] == '%';
  }

  /** A metric without digits gives no card. */
  lemma NoDigitNoCard(metric: string, category: string)
    requires forall k :: 0 <= k < |metric| ==> !IsDigit(metric[k])
    ensures MetricCard(metric, category).None?
  {
    assert forall i, d, p, q :: Valid(metric, i, d, p, q) ==> IsDigit(metric[i]);
  }
}
