/**
 * The hero banner: the rotating list of titles with the index of the title
 * on show, the action buttons, the name of a downloaded résumé file and the
 * plain-text résumé. The typing animation's timers are not modelled: a step
 * of the rotation is the move the animation (or a click on the title) makes
 * to the next title once the current one has been erased.
 */
module Hero {
  import opened JsText
  import opened Profile

  const InitialTitles: seq<string> := [
    "Engineering Leader & AI Pioneer",
    "Neural Network Architect",
    "Cosmic Code Conductor",
    "Digital Universe Builder"
  ]

  /** The titles the banner cycles through and the index of the current one. */
  datatype Rotation = Rotation(titles: seq<string>, index: nat)

  /** The index always names a title, so the list is never empty. */
  predicate Valid(r: Rotation) {
    |r.titles| >= 1 && r.index < |r.titles|
  }

  function Initial(): (r: Rotation)
    ensures Valid(r) && |r.titles| == 4 && r.index == 0
  {
    Rotation(InitialTitles, 0)
  }

  /**
   * `updateTitle(baseTitle)`: without a title element nothing happens;
   * otherwise a non-empty profile title not yet in the list is put in front.
   * The index is left as it is.
   */
  function UpdateTitle(r: Rotation, base: Option<string>, shown: bool): (r2: Rotation)
    ensures r2.index == r.index
    ensures Valid(r) ==> Valid(r2)
    ensures !shown || base.None? || base.value == "" ==> r2 == r
    ensures shown && base.Some? && base.value != "" ==>
      && base.value in r2.titles
      && (base.value in r.titles ==> r2.titles == r.titles)
      && (base.value !in r.titles ==> r2.titles == [base.value] + r.titles)
  {
    match base
    case Some(b) =>
      if shown && b != "" && b !in r.titles then r.(titles := [b] + r.titles) else r
    case None => r
  }

  /** Offering the same profile title twice adds it at most once. */
  lemma UpdateTitleOnce(r: Rotation, base: Option<string>, shown: bool)
    ensures UpdateTitle(UpdateTitle(r, base, shown), base, shown) == UpdateTitle(r, base, shown)
  {
  }

  /** `currentTitleIndex = (currentTitleIndex + 1) % titles.length`. */
  function Advance(r: Rotation): (r2: Rotation)
    requires Valid(r)
    ensures Valid(r2) && r2.titles == r.titles
    ensures r.index + 1 < |r.titles| ==> r2.index == r.index + 1
    ensures r.index + 1 == |r.titles| ==> r2.index == 0
  {
    r.(index := (r.index + 1) % |r.titles|)
  }

  /** `n` consecutive advances. */
  function AdvanceN(r: Rotation, n: nat): (r2: Rotation)
    requires Valid(r)
    ensures Valid(r2) && r2.titles == r.titles
  {
    if n == 0 then r else Advance(AdvanceN(r, n - 1))
  }

  /** Within one round of the list, `n` advances move the index `n` places, wrapping once. */
  lemma {:induction false} AdvanceNIndex(r: Rotation, n: nat)
    requires Valid(r) && n <= |r.titles|
    ensures r.index + n < |r.titles| ==> AdvanceN(r, n).index == r.index + n
    ensures r.index + n >= |r.titles| ==> AdvanceN(r, n).index == r.index + n - |r.titles|
  {
    if n > 0 {
      AdvanceNIndex(r, n - 1);
    }
  }

  /** Advancing once per title brings the rotation back to where it started. */
  lemma FullCycle(r: Rotation)
    requires Valid(r)
    ensures AdvanceN(r, |r.titles|) == r
  {
    AdvanceNIndex(r, |r.titles|);
  }

  const NarrowWidth := 768
  const MaxTitleLength := 25

  /** A title longer than 25 characters becomes its first 22 followed by `...`. */
  function Shorten(title: string): (t: string)
    ensures |t| <= MaxTitleLength || t == title
    ensures |title| <= MaxTitleLength ==> t == title
    ensures |title| > MaxTitleLength ==> |t| == MaxTitleLength && t == title[..22] + "..."
  {
    if |title| > MaxTitleLength then title[..22] + "..." else title
  }

  /** A shortened title fits, so shortening it again changes nothing. */
  lemma ShortenIdempotent(title: string)
    ensures |Shorten(title)| <= MaxTitleLength || |title| <= MaxTitleLength
    ensures Shorten(Shorten(title)) == Shorten(title)
  {
  }

  /** `handleResize`: below 768 pixels every title is shortened; otherwise nothing changes. */
  function HandleResize(r: Rotation, width: int): (r2: Rotation)
    ensures r2.index == r.index && |r2.titles| == |r.titles|
    ensures Valid(r) ==> Valid(r2)
    ensures width >= NarrowWidth ==> r2 == r
    ensures width < NarrowWidth ==> forall k :: 0 <= k < |r.titles| ==> r2.titles[k] == Shorten(r.titles[k])
  {
    if width < NarrowWidth then
      r.(titles := seq(|r.titles|, k requires 0 <= k < |r.titles| => Shorten(r.titles[k])))
    else r
  }

  /** After a narrow resize every title fits in 25 characters, and resizing again changes nothing. */
  lemma ResizeIdempotent(r: Rotation, width: int)
    requires width < NarrowWidth
    ensures forall k :: 0 <= k < |HandleResize(r, width).titles| ==> |HandleResize(r, width).titles[k]| <= MaxTitleLength
    ensures HandleResize(HandleResize(r, width), width) == HandleResize(r, width)
  {
    var r1 := HandleResize(r, width);
    forall k | 0 <= k < |r1.titles| ensures Shorten(r1.titles[k]) == r1.titles[k] {
      ShortenIdempotent(r.titles[k]);
    }
  }

  /** What can happen to the rotation. */
  datatype Event = ProfileTitle(base: Option<string>, shown: bool) | NextTitle | Resize(width: int)

  function Step(r: Rotation, e: Event): (r2: Rotation)
    requires Valid(r)
    ensures Valid(r2) && |r2.titles| >= |r.titles|
  {
    match e
    case ProfileTitle(base, shown) => UpdateTitle(r, base, shown)
    case NextTitle => Advance(r)
    case Resize(width) => HandleResize(r, width)
  }

  /**
   * Any run of events from a valid rotation keeps it valid: titles are only
   * added or rewritten in place, so the list never shrinks below its start.
   */
  function Run(r: Rotation, es: seq<Event>): (r2: Rotation)
    requires Valid(r)
    ensures Valid(r2) && |r2.titles| >= |r.titles|
    decreases |es|
  {
    if |es| == 0 then r else Run(Step(r, es[0]), es[1..])
  }

  /** From the start the list always holds at least the four initial titles' worth of entries. */
  lemma RunFromStart(es: seq<Event>)
    ensures Valid(Run(Initial(), es)) && |Run(Initial(), es).titles| >= 4
  {
  }

  /** The buttons of `updateActionButtons`. */
  datatype Button = ExploreAi | Connect | DownloadResume

  function Rank(b: Button): nat {
    match b
    case ExploreAi => 0
    case Connect => 1
    case DownloadResume => 2
  }

  /**
   * The AI button when an AI product is present, the contact button when the
   * email is non-empty, and the download button always, in that order.
   */
  function ActionButtons(email: string, hasAiProduct: bool): (r: seq<Button>)
    ensures ExploreAi in r <==> hasAiProduct
    ensures Connect in r <==> email != ""
    ensures |r| >= 1 && r[|r| - 1] == DownloadResume
    ensures forall i, j :: 0 <= i < j < |r| ==> Rank(r[i]) < Rank(r[j])
  {
    (if hasAiProduct then [ExploreAi] else []) + (if email != "" then [Connect] else []) + [DownloadResume]
  }

  /** The download formats; anything else leaves the file name empty. */
  datatype Format = JsonFile | YamlFile | TextFile | OtherFormat(name: string)

  function Extension(f: Format): string {
    match f
    case JsonFile => "json"
    case YamlFile => "yaml"
    case TextFile => "txt"
    case OtherFormat(_) => ""
  }

  predicate NoSpace(s: string) {
    forall i :: 0 <= i < |s| ==> !IsSpace(s[i])
  }

  /** `name.replace(/\s+/g, '_')`. */
  function Underscored(name: string): string {
    ReplaceRuns(name, IsSpace, "_")
  }

  lemma {:induction false} UnderscoredNoSpace(name: string)
    ensures NoSpace(Underscored(name))
    decreases |name|
  {
    if |name| > 0 {
      if IsSpace(name[0]) {
        UnderscoredNoSpace(DropRun(name, IsSpace));
      } else {
        UnderscoredNoSpace(name[1..]);
      }
    }
  }

  /** `performDownload`'s file name for a format. */
  function DownloadFilename(name: string, f: Format): (r: string)
    ensures f.OtherFormat? ==> r == ""
    ensures !f.OtherFormat? ==> r == Underscored(name) + "_Resume." + Extension(f)
  {
    if f.OtherFormat? then "" else Underscored(name) + "_Resume." + Extension(f)
  }

  /** The file name offered for download never holds white space. */
  lemma FilenameNoSpace(name: string, f: Format)
    ensures NoSpace(DownloadFilename(name, f))
  {
    if !f.OtherFormat? {
      UnderscoredNoSpace(name);
      SuffixNoSpace(f);
      JoinNoSpace(DownloadFilename(name, f), Underscored(name), "_Resume." + Extension(f));
    }
  }

  lemma JoinNoSpace(r: string, a: string, b: string)
    requires r == a + b && NoSpace(a) && NoSpace(b)
    ensures NoSpace(r)
  {
    NoSpaceConcat(a, b);
  }

  lemma SuffixNoSpace(f: Format)
    ensures NoSpace("_Resume." + Extension(f))
  {
  }

  lemma NoSpaceConcat(a: string, b: string)
    requires NoSpace(a) && NoSpace(b)
    ensures NoSpace(a + b)
  {
    assert forall i :: |a| <= i < |a + b| ==> (a + b)[i] == b[i - |a|];
  }

  /** A run of white space followed by a non-space is dropped as a whole. */
  lemma {:induction false} DropWholeRun(ws: string, b: string)
    requires AllSpace(ws) && (b == [] || !IsSpace(b[0]))
    ensures DropRun(ws + b, IsSpace) == b
    decreases |ws|
  {
    if |ws| == 0 {
      assert ws + b == b;
    } else {
      assert (ws + b)[0] == ws[0];
      assert (ws + b)[1..] == ws[1..] + b;
      DropWholeRun(ws[1..], b);
    }
  }

  /**
   * A word without white space, a run of white space, then the rest: the
   * run becomes one `_` and the word is kept as it is.
   */
  lemma {:induction false} UnderscoreJoins(a: string, ws: string, b: string)
    requires NoSpace(a) && |ws| > 0 && AllSpace(ws) && (b == [] || !IsSpace(b[0]))
    ensures Underscored(a + ws + b) == a + "_" + Underscored(b)
    decreases |a|
  {
    if |a| == 0 {
      assert a + ws + b == ws + b;
      DropWholeRun(ws, b);
    } else {
      UnderscoreJoins(a[1..], ws, b);
      assert (a + ws + b)[1..] == a[1..] + ws + b;
    }
  }

  /** Names separated by single spaces come out joined by underscores. */
  lemma TwoWordFilename(first: string, last: string, f: Format)
    requires NoSpace(first) && NoSpace(last) && !f.OtherFormat?
    ensures DownloadFilename(first + " " + last, f) == first + "_" + last + "_Resume." + Extension(f)
  {
    UnderscoreJoins(first, " ", last);
    NothingToReplace(last, IsSpace, "_");
  }

  /** Each line followed by a newline. */
  function Unlines(lines: seq<string>): string {
    if |lines| == 0 then "" else lines[0] + "\n" + Unlines(lines[1..])
  }

  lemma {:induction false} UnlinesAppend(a: seq<string>, b: seq<string>)
    ensures Unlines(a + b) == Unlines(a) + Unlines(b)
    decreases |a|
  {
    if |a| == 0 {
      assert a + b == b;
    } else {
      UnlinesAppend(a[1..], b);
      assert (a + b)[0] == a[0];
      assert (a + b)[1..] == a[1..] + b;
    }
  }

  predicate SingleLine(s: string) {
    '\n' !in s
  }

  /** The first newline of `line + "\n" + rest` is the one after `line`. */
  lemma FirstNewline(line: string, rest: string)
    requires SingleLine(line)
    ensures IndexOf(line + "\n" + rest, "\n", 0) == Some(|line|)
  {
    var s := line + "\n" + rest;
    forall j | 0 <= j < |line| ensures !OccursAt(s, "\n", j) {
      assert line[j] in line;
      assert s[j..j + 1][0] == s[j] == line[j];
    }
    assert s[|line|..|line| + 1] == "\n";
    assert OccursAt(s, "\n", |line|);
  }

  /** Splitting the text on newlines gives back the lines, plus the empty text after the last newline. */
  lemma {:induction false} SplitUnlines(lines: seq<string>)
    requires forall k :: 0 <= k < |lines| ==> SingleLine(lines[k])
    ensures Split(Unlines(lines), "\n") == lines + [""]
    decreases |lines|
  {
    if |lines| == 0 {
      assert IndexOf("", "\n", 0) == None;
    } else {
      var s := Unlines(lines);
      var rest := Unlines(lines[1..]);
      FirstNewline(lines[0], rest);
      assert s[..|lines[0]|] == lines[0];
      assert s[|lines[0]| + 1..] == rest;
      SplitUnlines(lines[1..]);
      assert lines + [""] == [lines[0]] + (lines[1..] + [""]);
    }
  }

  lemma SplitLinesOfSingleLines(lines: seq<string>)
    ensures (forall k :: 0 <= k < |lines| ==> SingleLine(lines[k])) ==> Split(Unlines(lines), "\n") == lines + [""]
  {
    if forall k :: 0 <= k < |lines| ==> SingleLine(lines[k]) {
      SplitUnlines(lines);
    }
  }

  function Min(a: nat, b: nat): nat {
    if a < b then a else b
  }

  /** One experience entry: its header, its first three achievements as bullets, and a blank line. */
  function PositionLines(p: Position): (r: seq<string>)
    ensures |r| == 2 + Min(3, |p.achievements|) <= 5
    ensures r[0] == p.position + " | " + p.company + " (" + p.duration + ")"
    ensures r[|r| - 1] == ""
    ensures forall j :: 0 <= j < |r| - 2 ==> r[j + 1] == "• " + p.achievements[j]
  {
    var shown := p.achievements[..Min(3, |p.achievements|)];
    [p.position + " | " + p.company + " (" + p.duration + ")"]
      + seq(|shown|, j requires 0 <= j < |shown| => "• " + shown[j])
      + [""]
  }

  function ExperienceLines(exps: seq<Position>): (r: seq<string>)
    ensures |r| <= 5 * |exps|
  {
    if |exps| == 0 then [] else PositionLines(exps[0]) + ExperienceLines(exps[1..])
  }

  /** The entries before the `k`-th, the `k`-th, and the entries after it. */
  lemma {:induction false} ExperienceLinesAt(exps: seq<Position>, k: nat)
    requires k < |exps|
    ensures ExperienceLines(exps) ==
      ExperienceLines(exps[..k]) + PositionLines(exps[k]) + ExperienceLines(exps[k + 1..])
  {
    if k == 0 {
      assert exps[..0] == [];
    } else {
      ExperienceLinesAt(exps[1..], k - 1);
      assert exps[1..][..k - 1] == exps[1..k];
      assert exps[1..][k..] == exps[k + 1..];
      assert exps[1..][k - 1] == exps[k];
      ExperienceLinesStep(exps, k);
    }
  }

  lemma ExperienceLinesStep(exps: seq<Position>, k: nat)
    requires 0 < k < |exps|
    requires ExperienceLines(exps[1..]) ==
      ExperienceLines(exps[1..k]) + PositionLines(exps[k]) + ExperienceLines(exps[k + 1..])
    ensures ExperienceLines(exps) ==
      ExperienceLines(exps[..k]) + PositionLines(exps[k]) + ExperienceLines(exps[k + 1..])
  {
    var a, b := PositionLines(exps[0]), ExperienceLines(exps[1..k]);
    var c, d := PositionLines(exps[k]), ExperienceLines(exps[k + 1..]);
    var front := exps[..k];
    assert front[0] == exps[0] && front[1..] == exps[1..k];
    assert ExperienceLines(front) == a + b;
    assert ExperienceLines(exps) == a + (b + c + d);
    Regroup(a, b, c, d);
  }

  lemma Regroup(a: seq<string>, b: seq<string>, c: seq<string>, d: seq<string>)
    ensures a + (b + c + d) == a + b + c + d
  {
  }

  /** The personal-information block, the summary under its heading, and the experience heading. */
  function HeaderLines(info: PersonalInfo, summary: string): (r: seq<string>)
    ensures |r| == 11
    ensures r[0] == info.name && r[1] == info.title && r[2] == info.location
    ensures r[3] == info.email + " | " + info.phone
    ensures r[4] == "LinkedIn: " + Printed(info.linkedin) && r[5] == "GitHub: " + Printed(info.github)
    ensures r[6] == "" && r[7] == "SUMMARY" && r[8] == summary && r[9] == "" && r[10] == "EXPERIENCE"
  {
    [info.name, info.title, info.location, info.email + " | " + info.phone,
     "LinkedIn: " + Printed(info.linkedin), "GitHub: " + Printed(info.github), "",
     "SUMMARY", summary, "",
     "EXPERIENCE"]
  }

  function EducationLines(edu: seq<Education>): (r: seq<string>)
    ensures |r| == |edu|
    ensures forall k :: 0 <= k < |edu| ==>
      r[k] == edu[k].degree + " | " + edu[k].institution + " (" + edu[k].duration + ")"
  {
    seq(|edu|, k requires 0 <= k < |edu| => edu[k].degree + " | " + edu[k].institution + " (" + edu[k].duration + ")")
  }

  /** The lines of `generateTextSummary`, each of which the text ends with a newline. */
  function SummaryLines(resume: Resume): (r: seq<string>)
    ensures |r| <= 12 + 5 * |resume.experience| + |resume.education|
  {
    HeaderLines(resume.personalInfo, resume.summary)
      + ExperienceLines(resume.experience)
      + ["EDUCATION"]
      + EducationLines(resume.education)
  }

  /** `generateTextSummary`: every line followed by a newline, the name first. */
  function TextSummary(resume: Resume): (r: string)
    ensures var name := resume.personalInfo.name;
      |name| < |r| && r[..|name| + 1] == name + "\n"
    ensures (forall k :: 0 <= k < |SummaryLines(resume)| ==> SingleLine(SummaryLines(resume)[k])) ==>
      Split(r, "\n") == SummaryLines(resume) + [""]
  {
    var lines := SummaryLines(resume);
    SplitLinesOfSingleLines(lines);
    assert lines[0] == resume.personalInfo.name;
    Unlines(lines)
  }

  /**
   * The `k`-th experience entry sits in the summary right after the header and
   * the entries before it, as its header line, at most three bullets and a blank line.
   */
  lemma PositionInSummary(resume: Resume, k: nat)
    requires k < |resume.experience|
    ensures var at := 11 + |ExperienceLines(resume.experience[..k])|;
      var block := PositionLines(resume.experience[k]);
      && at + |block| <= |SummaryLines(resume)|
      && SummaryLines(resume)[at..at + |block|] == block
  {
    var exps := resume.experience;
    ExperienceLinesAt(exps, k);
    SummaryParts(resume);
    BlockInLines(SummaryLines(resume), HeaderLines(resume.personalInfo, resume.summary), ExperienceLines(exps),
      ["EDUCATION"] + EducationLines(resume.education),
      ExperienceLines(exps[..k]), PositionLines(exps[k]), ExperienceLines(exps[k + 1..]));
  }

  /** The summary is the header, the experience lines, then the education heading and lines. */
  lemma SummaryParts(resume: Resume)
    ensures SummaryLines(resume) == HeaderLines(resume.personalInfo, resume.summary)
      + ExperienceLines(resume.experience) + (["EDUCATION"] + EducationLines(resume.education))
  {
  }

  /** When the middle part `e` of `h + e + t` is `a + b + c`, the block `b` starts right after `h + a`. */
  lemma BlockInLines(all: seq<string>, h: seq<string>, e: seq<string>, t: seq<string>,
                     a: seq<string>, b: seq<string>, c: seq<string>)
    requires all == h + e + t && e == a + b + c
    ensures |h| + |a| + |b| <= |all| && all[|h| + |a|..|h| + |a| + |b|] == b
  {
    assert all == (h + a) + b + (c + t);
  }

  /** The education lines close the summary. */
  lemma EducationClosesSummary(resume: Resume)
    ensures var lines := SummaryLines(resume);
      lines[|lines| - |resume.education|..] == EducationLines(resume.education)
      && lines[|lines| - |resume.education| - 1] == "EDUCATION"
  {
  }
}
