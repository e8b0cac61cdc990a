/**
 * The single-page app's section navigation: moving to a section by id, the
 * keyboard shortcuts that step through the fixed list of sections, and the
 * section the scroll position falls in. The document is reduced to the set of
 * element ids present and the sections' vertical boxes; scrolling itself and
 * the active-link highlighting are not modelled.
 */
module Navigation {
  import opened JsText

  const Sections: seq<string> := ["home", "ai", "skills", "experience", "contact"]
  const HomeSection := "home"
  const LastSection := "contact"

  /** The app's navigation state; `hash` is the URL fragment last written. */
  datatype Nav = Nav(currentSection: string, initialized: bool, hash: Option<string>)

  /**
   * `navigateToSection(id)`: when the document has no element with that id
   * nothing changes; otherwise the fragment becomes `#id` and the section current.
   */
  function NavigateTo(n: Nav, id: string, present: set<string>): (r: Nav)
    ensures r.initialized == n.initialized
    ensures id !in present ==> r == n
    ensures id in present ==> r.currentSection == id && r.hash == Some("#" + id)
  {
    if id in present then n.(currentSection := id, hash := Some("#" + id)) else n
  }

  /** `sections.indexOf(current)`: the position in the list, or -1. */
  function SectionIndex(s: string): (r: int)
    ensures -1 <= r < |Sections|
    ensures r == -1 <==> s !in Sections
    ensures r >= 0 ==> Sections[r] == s
  {
    if s == "home" then 0
    else if s == "ai" then 1
    else if s == "skills" then 2
    else if s == "experience" then 3
    else if s == "contact" then 4
    else -1
  }

  datatype Key = ArrowDown | PageDown | ArrowUp | PageUp | HomeKey | EndKey | OtherKey(name: string)

  /**
   * The section a key asks for: the next one (the first when the current
   * section is not in the list) unless at the last, the previous one unless at
   * the first or outside the list, the first, the last, or nothing.
   */
  function KeyTarget(current: string, key: Key): (r: Option<string>)
    ensures r.Some? ==> r.value in Sections
    ensures (key == HomeKey ==> r == Some(HomeSection)) && (key == EndKey ==> r == Some(LastSection))
    ensures key.OtherKey? ==> r.None?
    ensures (key == ArrowDown || key == PageDown) ==>
      (r.None? <==> current == LastSection)
      && (current !in Sections ==> r == Some(HomeSection))
      && (r.Some? && current in Sections ==> SectionIndex(r.value) == SectionIndex(current) + 1)
    ensures (key == ArrowUp || key == PageUp) ==>
      (r.None? <==> current !in Sections || current == HomeSection)
      && (r.Some? ==> SectionIndex(r.value) == SectionIndex(current) - 1)
  {
    var i := SectionIndex(current);
    match key
    case ArrowDown => if i < |Sections| - 1 then Some(Sections[i + 1]) else None
    case PageDown => if i < |Sections| - 1 then Some(Sections[i + 1]) else None
    case ArrowUp => if i > 0 then Some(Sections[i - 1]) else None
    case PageUp => if i > 0 then Some(Sections[i - 1]) else None
    case HomeKey => Some(HomeSection)
    case EndKey => Some(LastSection)
    case OtherKey(_) => None
  }

  /** The new state and whether the key's default action was prevented. */
  datatype Reaction = Reaction(nav: Nav, prevented: bool)

  /**
   * `handleKeyboardNavigation`: ignored before initialisation; a key with a
   * target has its default prevented and navigates there.
   */
  function HandleKey(n: Nav, key: Key, present: set<string>): (r: Reaction)
    ensures !n.initialized ==> r == Reaction(n, false)
    ensures r.nav.initialized == n.initialized
    ensures r.prevented <==> n.initialized && KeyTarget(n.currentSection, key).Some?
    ensures r.nav.currentSection == n.currentSection || r.nav.currentSection in Sections
    ensures r.prevented && KeyTarget(n.currentSection, key).value in present ==>
      r.nav.currentSection == KeyTarget(n.currentSection, key).value
    ensures !r.prevented || KeyTarget(n.currentSection, key).value !in present ==> r.nav == n
  {
    if !n.initialized then Reaction(n, false)
    else
      match KeyTarget(n.currentSection, key)
      case None => Reaction(n, false)
      case Some(t) => Reaction(NavigateTo(n, t, present), true)
  }

  /** Every section of the list has its element in the document. */
  predicate AllPresent(present: set<string>) {
    forall k :: 0 <= k < |Sections| ==> Sections[k] in present
  }

  /** Stepping down and then up returns to the section one started from, unless at the last one. */
  lemma DownThenUp(n: Nav, present: set<string>)
    requires n.initialized && AllPresent(present)
    requires n.currentSection in Sections && n.currentSection != LastSection
    ensures HandleKey(HandleKey(n, ArrowDown, present).nav, ArrowUp, present).nav.currentSection == n.currentSection
  {
    var i := SectionIndex(n.currentSection);
    assert Sections[i + 1] in present;
  }

  /** Stepping up and then down returns to the section one started from, unless at the first one. */
  lemma UpThenDown(n: Nav, present: set<string>)
    requires n.initialized && AllPresent(present)
    requires n.currentSection in Sections && n.currentSection != HomeSection
    ensures HandleKey(HandleKey(n, ArrowUp, present).nav, ArrowDown, present).nav.currentSection == n.currentSection
  {
    var i := SectionIndex(n.currentSection);
    assert Sections[i - 1] in present;
  }

  /** `n` presses of ArrowDown. */
  function PressDown(n: Nav, times: nat, present: set<string>): Nav
    decreases times
  {
    if times == 0 then n else PressDown(HandleKey(n, ArrowDown, present).nav, times - 1, present)
  }

  /**
   * From any section of the list, enough presses of
   * ArrowDown reach the last section, and further presses stay there.
   */
  lemma {:induction false} DownReachesLast(n: Nav, times: nat, present: set<string>)
    requires n.initialized && AllPresent(present) && n.currentSection in Sections
    requires times >= |Sections| - 1 - SectionIndex(n.currentSection)
    ensures PressDown(n, times, present).currentSection == LastSection
    decreases times
  {
    var i := SectionIndex(n.currentSection);
    if times > 0 {
      var next := HandleKey(n, ArrowDown, present).nav;
      if i < |Sections| - 1 {
        assert Sections[i + 1] in present;
      }
      DownReachesLast(next, times - 1, present);
    }
  }

  /** A section's vertical box: `offsetTop` and `offsetHeight`. */
  datatype SectionBox = SectionBox(id: string, top: int, height: int)

  predicate Covers(b: SectionBox, pos: int) {
    b.top <= pos < b.top + b.height
  }

  /** Box `k` holds `pos` and no earlier box does. */
  predicate FirstToCover(boxes: seq<SectionBox>, k: int, pos: int) {
    0 <= k < |boxes| && Covers(boxes[k], pos) && forall j :: 0 <= j < k ==> !Covers(boxes[j], pos)
  }

  /** The first box whose extent holds `pos`. */
  function FirstCovering(boxes: seq<SectionBox>, pos: int): (r: Option<nat>)
    ensures r.Some? ==> r.value < |boxes| && Covers(boxes[r.value], pos)
    ensures r.Some? ==> forall j :: 0 <= j < r.value ==> !Covers(boxes[j], pos)
    ensures r.None? ==> forall j :: 0 <= j < |boxes| ==> !Covers(boxes[j], pos)
  {
    if |boxes| == 0 then None
    else if Covers(boxes[0], pos) then Some(0)
    else match FirstCovering(boxes[1..], pos)
      case None => None
      case Some(k) => Some(k + 1)
  }

  const ScrollOffset := 100

  /**
   * `getCurrentSection`: the first section, in document order, whose box holds
   * the scroll position plus 100; `home` when none does.
   */
  function CurrentSection(boxes: seq<SectionBox>, scrollY: int): (r: string)
    ensures (forall j :: 0 <= j < |boxes| ==> !Covers(boxes[j], scrollY + ScrollOffset)) ==> r == HomeSection
    ensures forall k :: FirstToCover(boxes, k, scrollY + ScrollOffset) ==> r == boxes[k].id
  {
    match FirstCovering(boxes, scrollY + ScrollOffset)
    case None => HomeSection
    case Some(k) => boxes[k].id
  }

  /** Boxes that do not overlap, as laid-out sections are. */
  predicate Disjoint(boxes: seq<SectionBox>) {
    forall i, j :: 0 <= i < j < |boxes| ==> boxes[i].top + boxes[i].height <= boxes[j].top
  }

  /** With sections laid out one below the other, the section reported is the one the position falls in. */
  lemma LaidOutSections(boxes: seq<SectionBox>, k: nat, scrollY: int)
    requires Disjoint(boxes) && k < |boxes| && Covers(boxes[k], scrollY + ScrollOffset)
    ensures CurrentSection(boxes, scrollY) == boxes[k].id
  {
    var pos := scrollY + ScrollOffset;
    forall j | 0 <= j < k ensures !Covers(boxes[j], pos) {
      assert boxes[j].top + boxes[j].height <= boxes[k].top;
    }
  }
}
