/**
 * The contact hub: the four communication channels it lists, the subject line
 * of the mail it prepares, the statistics strip, the colour of the message's
 * character counter and the easter egg on the hub's core. The page, the mail
 * client and the animations are not modelled.
 */
module Contact {
  import opened JsText
  import opened Profile

  // ---------------------------------------------------------------- channels

  datatype ChannelId = Email | LinkedIn | GitHub | Location

  /** A channel card: which channel, and the text it shows as its value. */
  datatype Channel = Channel(id: ChannelId, value: string)

  /** `createContactChannels`: email, LinkedIn, GitHub and location, in that order. */
  function ChannelsFor(info: PersonalInfo): (r: seq<Channel>)
    ensures |r| == 4
    ensures r[0] == Channel(Email, info.email) && r[3] == Channel(Location, info.location)
    ensures r[1].id == LinkedIn && r[2].id == GitHub
    ensures forall i, j :: 0 <= i < j < |r| ==> r[i].id != r[j].id
  {
    [Channel(Email, info.email),
     Channel(LinkedIn, "Connect on LinkedIn"),
     Channel(GitHub, "Explore Code Universe"),
     Channel(Location, info.location)]
  }

  /** The channels the component has collected so far. */
  datatype Hub = Hub(channels: seq<Channel>)

  /**
   * `render(data)`: nothing happens without personal information; otherwise the
   * four channels are appended to those already collected.
   */
  function Render(h: Hub, info: Option<PersonalInfo>): (r: Hub)
    ensures info.None? ==> r == h
    ensures info.Some? ==> |r.channels| == |h.channels| + 4
    ensures info.Some? ==> r.channels[..|h.channels|] == h.channels
    ensures info.Some? ==> r.channels[|h.channels|..] == ChannelsFor(info.value)
  {
    match info
    case None => h
    case Some(i) => Hub(h.channels + ChannelsFor(i))
  }

  /** `update(data)`: the collected channels are cleared before rendering. */
  function Update(h: Hub, info: Option<PersonalInfo>): (r: Hub)
    ensures info.None? ==> r.channels == []
    ensures info.Some? ==> r.channels == ChannelsFor(info.value)
  {
    Render(Hub([]), info)
  }

  /** However often the component is updated, it holds at most one card per channel. */
  lemma {:induction false} UpdateNeverAccumulates(h: Hub, infos: seq<Option<PersonalInfo>>)
    requires |infos| >= 1
    ensures |UpdateAll(h, infos).channels| <= 4
    ensures infos[|infos| - 1].Some? ==> UpdateAll(h, infos).channels == ChannelsFor(infos[|infos| - 1].value)
    decreases |infos|
  {
    var next := Update(h, infos[0]);
    assert UpdateAll(h, infos) == UpdateAll(next, infos[1..]);
    if |infos| > 1 {
      UpdateNeverAccumulates(next, infos[1..]);
      assert infos[1..][|infos| - 2] == infos[|infos| - 1];
    } else {
      assert UpdateAll(next, infos[1..]) == next;
    }
  }

  function UpdateAll(h: Hub, infos: seq<Option<PersonalInfo>>): Hub
    decreases |infos|
  {
    if |infos| == 0 then h else UpdateAll(Update(h, infos[0]), infos[1..])
  }

  /** Rendering without the clearing step lists every channel twice. */
  lemma RenderTwiceDuplicates(info: PersonalInfo)
    ensures Render(Render(Hub([]), Some(info)), Some(info)).channels == ChannelsFor(info) + ChannelsFor(info)
  {
  }

  // ----------------------------------------------------------------- subject

  /** The six emoji the subject line drops: 🤝 💼 🔧 🎤 🧠 💭. */
  predicate IsListedEmoji(c: char) {
    c in {'\U{1F91D}', '\U{1F4BC}', '\U{1F527}', '\U{1F3A4}', '\U{1F9E0}', '\U{1F4AD}'}
  }

  predicate NoListedEmoji(s: string) {
    forall i :: 0 <= i < |s| ==> !IsListedEmoji(s[i])
  }

  /** `s.replace(/🤝|💼|🔧|🎤|🧠|💭/g, '')`: every listed emoji removed, everything else kept in order. */
  function RemoveEmoji(s: string): (r: string)
    ensures |r| <= |s| && NoListedEmoji(r)
    ensures forall c :: c in r <==> c in s && !IsListedEmoji(c)
  {
    if |s| == 0 then ""
    else if IsListedEmoji(s[0]) then RemoveEmoji(s[1..])
    else [s[0]] + RemoveEmoji(s[1..])
  }

  /** Text without the listed emoji is left as it is. */
  lemma {:induction false} RemoveEmojiKeeps(s: string)
    requires NoListedEmoji(s)
    ensures RemoveEmoji(s) == s
  {
    if |s| > 0 {
      RemoveEmojiKeeps(s[1..]);
    }
  }

  lemma {:induction false} RemoveEmojiConcat(a: string, b: string)
    ensures RemoveEmoji(a + b) == RemoveEmoji(a) + RemoveEmoji(b)
  {
    if |a| == 0 {
      assert a + b == b;
    } else {
      var ab := a + b;
      assert ab[0] == a[0] && ab[1..] == a[1..] + b;
      RemoveEmojiConcat(a[1..], b);
      var x, y := RemoveEmoji(a[1..]), RemoveEmoji(b);
      if !IsListedEmoji(a[0]) {
        assert [a[0]] + (x + y) == ([a[0]] + x) + y;
      }
    }
  }

  const SubjectJoiner := " - Message from "

  /** The subject line of the prepared mail: the cleaned subject, then the joiner and the name. */
  function Subject(subject: string, name: string): (r: string)
    ensures SubjectShaped(r, name)
  {
    var front := Trim(RemoveEmoji(subject));
    TrimCleans(RemoveEmoji(subject));
    var r := front + (SubjectJoiner + name);
    assert r[..|front|] == front && r[|front|..] == SubjectJoiner + name;
    r
  }

  /** `r` is a trimmed, emoji-free front followed by the joiner and the name. */
  predicate SubjectShaped(r: string, name: string) {
    var tail := SubjectJoiner + name;
    |r| >= |tail| && r[|r| - |tail|..] == tail && NoListedEmoji(r[..|r| - |tail|]) && Trimmed(r[..|r| - |tail|])
  }

  /** Trimming leaves text that neither starts nor ends with white space, and adds no emoji. */
  lemma TrimCleans(s: string)
    ensures Trimmed(Trim(s))
    ensures NoListedEmoji(s) ==> NoListedEmoji(Trim(s))
  {
    var t := TrimStart(s);
    var r := TrimEnd(t);
    if r != [] {
      assert r[0] == t[0];
    }
    forall i | 0 <= i < |r| ensures r[i] == s[|s| - |t| + i] {
      assert r[i] == t[i];
    }
  }

  /** Text that neither starts nor ends with white space. */
  predicate Trimmed(s: string) {
    s == [] || (!IsSpace(s[0]) && !IsSpace(s[|s| - 1]))
  }

  lemma TrimmedUnchanged(s: string)
    requires Trimmed(s)
    ensures Trim(s) == s
  {
  }

  /**
   * The values the subject menu submits carry no emoji, so the subject line
   * is the value followed by the sender's name.
   */
  lemma PlainSubject(value: string, name: string)
    requires NoListedEmoji(value) && Trimmed(value)
    ensures Subject(value, name) == value + SubjectJoiner + name
  {
    RemoveEmojiKeeps(value);
    TrimmedUnchanged(value);
  }

  /** The six subject values of the form. */
  const SubjectValues: seq<string> :=
    ["collaboration", "job-opportunity", "consulting", "speaking", "mentorship", "general"]

  lemma MenuSubjects(k: nat, name: string)
    requires k < |SubjectValues|
    ensures Subject(SubjectValues[k], name) == SubjectValues[k] + SubjectJoiner + name
  {
    var v := SubjectValues[k];
    assert IsAsciiLower(v[0]) && IsAsciiLower(v[|v| - 1]);
    assert forall i :: 0 <= i < |v| ==> IsAsciiLower(v[i]) || v[i] == '-';
    LowerWordPlain(v);
    PlainSubject(v, name);
  }

  /** Lower-case letters and dashes carry no emoji, and a word that starts and ends with a letter is trimmed. */
  lemma LowerWordPlain(v: string)
    requires |v| > 0 && IsAsciiLower(v[0]) && IsAsciiLower(v[|v| - 1])
    requires forall i :: 0 <= i < |v| ==> IsAsciiLower(v[i]) || v[i] == '-'
    ensures NoListedEmoji(v) && Trimmed(v)
  {
  }

  /**
   * A menu label such as `🤝 Collaboration Opportunity` (an emoji, a space,
   * then the text) comes out as its text alone.
   */
  lemma LabelSubject(emoji: char, text: string, name: string)
    requires IsListedEmoji(emoji) && NoListedEmoji(text) && Trimmed(text)
    ensures Subject([emoji] + " " + text, name) == text + SubjectJoiner + name
  {
    LabelCleaned(emoji, text);
  }

  lemma LabelCleaned(emoji: char, text: string)
    requires IsListedEmoji(emoji) && NoListedEmoji(text) && Trimmed(text)
    ensures Trim(RemoveEmoji([emoji] + " " + text)) == text
  {
    var spaced := " " + text;
    assert [emoji] + " " + text == [emoji] + spaced;
    RemoveEmojiConcat([emoji], spaced);
    assert RemoveEmoji([emoji]) == "";
    assert NoListedEmoji(spaced) by {
      assert forall i :: 1 <= i < |spaced| ==> spaced[i] == text[i - 1];
    }
    RemoveEmojiKeeps(spaced);
    LeadingSpaceTrimmed(text);
  }

  lemma LeadingSpaceTrimmed(text: string)
    requires Trimmed(text)
    ensures Trim(" " + text) == text
  {
    assert (" " + text)[1..] == text;
    assert TrimStart(" " + text) == TrimStart(text);
    TrimmedUnchanged(text);
  }

  // ------------------------------------------------------------------ stats

  datatype ContactStats = ContactStats(connections: nat, projects: nat, companies: nat)

  /** `calculateContactStats`: fixed network figures; the number of positions, or 5 without an experience list. */
  function CalculateContactStats(experience: Option<seq<Position>>): (r: ContactStats)
    ensures r.connections == 500 && r.projects == 50
    ensures experience.Some? ==> r.companies == |experience.value|
    ensures experience.None? ==> r.companies == 5
  {
    ContactStats(500, 50, match experience case Some(exps) => |exps| case None => 5)
  }

  /** An empty experience list counts no companies; only a missing one falls back to 5. */
  lemma EmptyExperienceCountsZero()
    ensures CalculateContactStats(Some([])).companies == 0
    ensures CalculateContactStats(None).companies == 5
  {
  }

  // ---------------------------------------------------------------- counter

  const WarningColour := "#FF6B9D"
  const NormalColour := "#00F5FF"
  const WarningAbove := 900

  /** The colour of the character counter for a message of `count` characters. */
  function CounterColour(count: nat): (r: string)
    ensures r == WarningColour <==> count > WarningAbove
    ensures r == NormalColour <==> count <= WarningAbove
  {
    if count > WarningAbove then WarningColour else NormalColour
  }

  /** Once the message is long enough to warn, any longer message warns too. */
  lemma WarningPersists(a: nat, b: nat)
    requires a <= b && CounterColour(a) == WarningColour
    ensures CounterColour(b) == WarningColour
  {
  }

  // -------------------------------------------------------------- easter egg

  const ClicksToFire := 5

  /** The click counter of the hub's core and how many times the easter egg has fired. */
  datatype Tally = Tally(count: nat, fired: nat)

  /** One click: the counter goes up, and on reaching 5 the easter egg fires and the counter restarts. */
  function Click(t: Tally): (r: Tally)
    ensures t.count + 1 >= ClicksToFire ==> r == Tally(0, t.fired + 1)
    ensures t.count + 1 < ClicksToFire ==> r == Tally(t.count + 1, t.fired)
  {
    if t.count + 1 >= ClicksToFire then Tally(0, t.fired + 1) else Tally(t.count + 1, t.fired)
  }

  function Clicks(t: Tally, n: nat): (r: Tally)
    requires t.count < ClicksToFire
    ensures r.count < ClicksToFire && r.fired >= t.fired
  {
    if n == 0 then t else Click(Clicks(t, n - 1))
  }

  /** After `n` clicks from the start the counter is `n mod 5` and the easter egg has fired `n div 5` times. */
  lemma {:induction false} ClicksFromStart(n: nat)
    ensures Clicks(Tally(0, 0), n) == Tally(n % ClicksToFire, n / ClicksToFire)
  {
    if n > 0 {
      ClicksFromStart(n - 1);
      var m := n - 1;
      assert m == 5 * (m / 5) + m % 5;
      if m % 5 == 4 {
        assert n == 5 * (m / 5 + 1);
      } else {
        assert n == 5 * (m / 5) + (m % 5 + 1);
      }
    }
  }
}
