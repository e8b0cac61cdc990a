/**
 * The home page's server loader: which profile file to fetch, the
 * schema.org `Person` record built from the résumé, and the result when
 * anything fails. The fetch (including `response.ok` and the JSON parse) is
 * a parameter; so is the timestamp `new Date().toISOString()`.
 */
module ProfilePage {
  import opened JsText
  import opened Profile

  const DefaultProfile := "default"

  /** `url.searchParams.get('profile') || 'default'`: an absent or empty parameter gives the default. */
  function ProfileName(param: Option<string>): (r: string)
    ensures r != ""
    ensures param.Some? && param.value != "" ==> r == param.value
    ensures param.None? || param.value == "" ==> r == DefaultProfile
  {
    match param
    case Some(p) => if p != "" then p else DefaultProfile
    case None => DefaultProfile
  }

  function ProfileUrl(profile: string): string {
    "/profiles/" + profile + ".json"
  }

  /** An `Organization` entry of `worksFor`; `endDate` is `None` where the code yields `undefined`. */
  datatype Organization = Organization(name: string, position: string, startDate: string, endDate: Option<string>)

  /** An `EducationalOrganization` entry of `alumniOf`. */
  datatype School = School(name: string, degree: string)

  /** The structured-data `Person` (before `JSON.stringify`); `sameAs` entries may be `undefined`. */
  datatype Person = Person(
    name: string, jobTitle: string, description: string, email: string, telephone: string,
    addressLocality: string, sameAs: seq<Option<string>>, worksFor: seq<Organization>, alumniOf: seq<School>)

  const DateSeparator := " - "

  /** `duration.split(' - ')[0]`. */
  function StartDate(duration: string): (r: string)
    ensures |r| <= |duration| && r == duration[..|r|] && !Contains(r, DateSeparator)
    ensures r == duration || OccursAt(duration, DateSeparator, |r|)
  {
    Before(duration, DateSeparator)
  }

  /**
   * `split(' - ')[1] === 'Present' ? now : split(' - ')[1]`: no second segment
   * (no separator) gives `undefined`.
   */
  function EndDate(duration: string, now: string): (r: Option<string>)
    ensures r.None? <==> !Contains(duration, DateSeparator)
    ensures r.Some? ==> r.value == now || (r.value != "Present" && !Contains(r.value, DateSeparator))
    ensures IndexOf(duration, DateSeparator, 0).Some? ==>
      var seg := StartDate(duration[IndexOf(duration, DateSeparator, 0).value + |DateSeparator|..]);
      r == Some(if seg == "Present" then now else seg)
  {
    ContainsIffIndexOf(duration, DateSeparator);
    var parts := Split(duration, DateSeparator);
    SecondSegment(duration, DateSeparator);
    if |parts| < 2 then None
    else if parts[1] == "Present" then Some(now)
    else Some(parts[1])
  }

  /** After the first separator, the second part of a split runs up to the next separator. */
  lemma SecondSegment(s: string, sep: string)
    requires |sep| > 0
    ensures IndexOf(s, sep, 0).Some? ==>
      |Split(s, sep)| >= 2 && Split(s, sep)[1] == Before(s[IndexOf(s, sep, 0).value + |sep|..], sep)
  {
  }

  function WorksFor(p: Position, now: string): (r: Organization)
    ensures r.name == p.company && r.position == p.position
  {
    Organization(p.company, p.position, StartDate(p.duration), EndDate(p.duration, now))
  }

  /** The record the page embeds: one organization per position and one school per education entry, in order. */
  function StructuredData(resume: Resume, now: string): (r: Person)
    ensures r.name == resume.personalInfo.name && r.jobTitle == resume.personalInfo.title
    ensures r.description == resume.summary && r.addressLocality == resume.personalInfo.location
    ensures r.email == resume.personalInfo.email && r.telephone == resume.personalInfo.phone
    ensures r.sameAs == [resume.personalInfo.linkedin, resume.personalInfo.github]
    ensures |r.worksFor| == |resume.experience|
    ensures forall k :: 0 <= k < |r.worksFor| ==>
      && r.worksFor[k].name == resume.experience[k].company
      && r.worksFor[k].position == resume.experience[k].position
      && r.worksFor[k].startDate == StartDate(resume.experience[k].duration)
      && r.worksFor[k].endDate == EndDate(resume.experience[k].duration, now)
    ensures |r.alumniOf| == |resume.education|
    ensures forall k :: 0 <= k < |r.alumniOf| ==>
      r.alumniOf[k] == School(resume.education[k].institution, resume.education[k].degree)
  {
    var info := resume.personalInfo;
    Person(info.name, info.title, resume.summary, info.email, info.phone, info.location,
           [info.linkedin, info.github],
           seq(|resume.experience|, k requires 0 <= k < |resume.experience| => WorksFor(resume.experience[k], now)),
           seq(|resume.education|, k requires 0 <= k < |resume.education| =>
             School(resume.education[k].institution, resume.education[k].degree)))
  }

  /** What `load` returns. */
  datatype PageData = PageData(resume: Option<Resume>, structuredData: Option<Person>, currentProfile: string)

  /**
   * `load`: fetch `/profiles/<profile>.json`; on success return the résumé, its
   * structured data and the profile name; on any failure both are `null` and
   * the profile reported is `'default'`.
   */
  function Load(param: Option<string>, fetch: string -> Result<Resume, string>, now: string): (r: PageData)
    ensures fetch(ProfileUrl(ProfileName(param))).Err? ==> r == PageData(None, None, DefaultProfile)
    ensures fetch(ProfileUrl(ProfileName(param))).Ok? ==>
      && r.resume == Some(fetch(ProfileUrl(ProfileName(param))).value)
      && r.structuredData == Some(StructuredData(r.resume.value, now))
      && r.currentProfile == ProfileName(param)
  {
    var profile := ProfileName(param);
    match fetch(ProfileUrl(profile))
    case Err(_) => PageData(None, None, DefaultProfile)
    case Ok(resume) => PageData(Some(resume), Some(StructuredData(resume, now)), profile)
  }

  /** The separator cannot start inside text that has no `-` when the separator follows it. */
  lemma NoSeparatorBefore(start: string, rest: string)
    requires '-' !in start
    ensures forall j :: 0 <= j < |start| ==> !OccursAt(start + DateSeparator + rest, DateSeparator, j)
  {
    var s := start + DateSeparator + rest;
    forall j | 0 <= j < |start| ensures !OccursAt(s, DateSeparator, j) {
      assert j + 1 < |start| ==> s[j + 1] == start[j + 1];
      assert s[j..j + 3][1] == s[j + 1] != '-';
    }
  }

  /**
   * A duration written `start - end` (a start without dashes, an end without
   * the separator) gives back `start` as start date and `end` as end date,
   * with `Present` standing for now.
   */
  lemma DurationRoundTrip(start: string, end: string, now: string)
    requires '-' !in start && !Contains(end, DateSeparator)
    ensures StartDate(start + DateSeparator + end) == start
    ensures EndDate(start + DateSeparator + end, now) == Some(if end == "Present" then now else end)
  {
    var s := start + DateSeparator + end;
    NoSeparatorBefore(start, end);
    assert OccursAt(s, DateSeparator, |start|) by {
      assert s[|start|..|start| + 3] == DateSeparator;
    }
    assert IndexOf(s, DateSeparator, 0) == Some(|start|);
    assert s[..|start|] == start;
    assert s[|start| + 3..] == end;
    ContainsIffIndexOf(end, DateSeparator);
    assert Split(end, DateSeparator) == [end];
    assert Split(s, DateSeparator) == [start, end];
  }

  /** A duration without the separator is all start date, with no end date. */
  lemma OpenDuration(duration: string, now: string)
    requires !Contains(duration, DateSeparator)
    ensures StartDate(duration) == duration
    ensures EndDate(duration, now).None?
  {
    ContainsIffIndexOf(duration, DateSeparator);
  }
}
