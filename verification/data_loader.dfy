/**
 * The vanilla site's `DataLoader`: switching between the profile files with a
 * cache, the event registry components subscribe to, and URL slugs. `fetch`
 * (with `response.ok` and the JSON parse) is a parameter; the page URL is the
 * state's `urlProfile`, the value of its `profile` query parameter.
 */
module DataLoader {
  import opened JsText
  import opened Json

  // -------------------------------------------------------------- profiles

  const MainProfile := "resume"

  /** The `file` of each own entry of `availableProfiles`. */
  function ProfileFile(key: string): Option<string> {
    if key == "resume" then Some("data/resume.json")
    else if key == "frontend-lead" then Some("data/profiles/frontend-lead.json")
    else if key == "backend-architect" then Some("data/profiles/backend-architect.json")
    else if key == "ai-engineer" then Some("data/profiles/ai-engineer.json")
    else None
  }

  /**
   * `this.availableProfiles[key]` is truthy: an own entry, or a member every
   * object inherits (a function, whose `file` is `undefined`).
   */
  predicate IsAcceptedKey(key: string) {
    ProfileFile(key).Some? || IsInheritedMember(key)
  }

  /** The key actually loaded: an unknown one falls back to `'resume'`. */
  function ResolveKey(requested: string): (key: string)
    ensures IsAcceptedKey(key)
    ensures IsAcceptedKey(requested) <==> key == requested
    ensures !IsAcceptedKey(requested) ==> key == MainProfile
  {
    if IsAcceptedKey(requested) then requested else MainProfile
  }

  /** The URL handed to `fetch`: the entry's file, or `undefined` rendered as text. */
  function FetchPath(key: string): string {
    match ProfileFile(key)
    case Some(file) => file
    case None => "undefined"
  }

  type CallbackId = nat

  /** What `notifyObservers` is called with, by event name. */
  datatype Notice =
    | LoadingStart(profile: string)
    | ProfileLoaded(data: Json)
    | LoadingError(profile: string, error: string)

  function EventName(n: Notice): string {
    match n
    case LoadingStart(_) => "loadingStart"
    case ProfileLoaded(_) => "profileLoaded"
    case LoadingError(_, _) => "loadingError"
  }

  datatype Loader = Loader(
    currentProfile: string,
    profileData: Option<Json>,
    cache: map<string, Json>,
    observers: map<string, seq<CallbackId>>,
    urlProfile: Option<string>)

  /** The constructor's state, on a page whose `profile` parameter is `url`. */
  function Initial(url: Option<string>): (s: Loader)
    ensures Consistent(s) && s.cache == map[] && s.profileData.None?
  {
    Loader(MainProfile, None, map[], map[], url)
  }

  /**
   * The state's invariant: the cache only holds keys `loadProfile` resolved,
   * never a `null` document, and the current data is the cached entry of the
   * current profile.
   */
  predicate Consistent(s: Loader) {
    && (forall k :: k in s.cache ==> IsAcceptedKey(k) && s.cache[k] != JNull)
    && (s.profileData.Some? ==> s.currentProfile in s.cache && s.cache[s.currentProfile] == s.profileData.value)
  }

  /** The result of one `loadProfile` call: the new state, the notices sent in order, and the value or the error thrown. */
  datatype Outcome = Outcome(state: Loader, notices: seq<Notice>, result: Result<Json, string>)

  /**
   * `validateProfileData` only warns, except that reading a field of a `null`
   * document throws.
   */
  function Validate(data: Json): (r: Result<Json, string>)
    ensures r.Ok? <==> data != JNull
    ensures r.Ok? ==> r.value == data
  {
    if data.JNull? then Err("TypeError: Cannot read properties of null") else Ok(data)
  }

  /**
   * `loadProfile`: resolve the key; a cached profile becomes current with only
   * `profileLoaded` sent; otherwise `loadingStart` is sent, the file fetched and
   * validated, and on success cached, made current and written to the URL
   * (`resume` clears the parameter) before `profileLoaded`; on failure
   * `loadingError` is sent and nothing else changes.
   */
  function LoadProfile(s: Loader, requested: string, fetch: string -> Result<Json, string>): (o: Outcome)
    ensures o.state.observers == s.observers
    ensures var key := ResolveKey(requested);
      key in s.cache ==>
        && o.state == s.(currentProfile := key, profileData := Some(s.cache[key]))
        && o.notices == [ProfileLoaded(s.cache[key])] && o.result == Ok(s.cache[key])
    ensures var key := ResolveKey(requested);
      key !in s.cache ==>
        && |o.notices| == 2 && o.notices[0] == LoadingStart(key)
        && (o.result.Ok? <==> fetch(FetchPath(key)).Ok? && fetch(FetchPath(key)).value != JNull)
        && (o.result.Ok? ==>
              && o.state.cache == s.cache[key := o.result.value]
              && o.state.currentProfile == key && o.state.profileData == Some(o.result.value)
              && o.state.urlProfile == (if key == MainProfile then None else Some(key))
              && o.notices[1] == ProfileLoaded(o.result.value))
        && (o.result.Err? ==> o.state == s && o.notices[1] == LoadingError(key, o.result.error))
  {
    var key := ResolveKey(requested);
    if key in s.cache then
      var data := s.cache[key];
      Outcome(s.(currentProfile := key, profileData := Some(data)), [ProfileLoaded(data)], Ok(data))
    else
      var fetched := match fetch(FetchPath(key))
        case Ok(d) => Validate(d)
        case Err(e) => Err(e);
      match fetched
      case Err(e) => Outcome(s, [LoadingStart(key), LoadingError(key, e)], Err(e))
      case Ok(data) =>
        var url := if key == MainProfile then None else Some(key);
        var t := s.(cache := s.cache[key := data], currentProfile := key, profileData := Some(data), urlProfile := url);
        Outcome(t, [LoadingStart(key), ProfileLoaded(data)], Ok(data))
  }

  /** Every load keeps the invariant, whatever the fetch returns. */
  lemma LoadKeepsConsistent(s: Loader, requested: string, fetch: string -> Result<Json, string>)
    requires Consistent(s)
    ensures Consistent(LoadProfile(s, requested, fetch).state)
  {
    var o := LoadProfile(s, requested, fetch);
    var key := ResolveKey(requested);
    if key !in s.cache && o.result.Ok? {
      assert o.result.value != JNull;
      assert forall k :: k in o.state.cache ==> k == key || k in s.cache;
    }
  }

  /** An unknown key loads exactly what `'resume'` loads. */
  lemma UnknownKeyLoadsMain(s: Loader, requested: string, fetch: string -> Result<Json, string>)
    requires !IsAcceptedKey(requested)
    ensures LoadProfile(s, requested, fetch) == LoadProfile(s, MainProfile, fetch)
  {
  }

  /**
   * After a successful load the same request is served from the cache: no
   * fetch (any `fetch` gives the same outcome), the same data, one notice.
   */
  lemma SecondLoadHitsCache(s: Loader, requested: string, fetch: string -> Result<Json, string>,
                            again: string -> Result<Json, string>)
    requires LoadProfile(s, requested, fetch).result.Ok?
    ensures var o := LoadProfile(s, requested, fetch);
      var o2 := LoadProfile(o.state, requested, again);
      && o2.notices == [ProfileLoaded(o.result.value)]
      && o2.result == o.result
      && o2.state.cache == o.state.cache && o2.state.profileData == o.state.profileData
      && o2.state.currentProfile == o.state.currentProfile
  {
    var o := LoadProfile(s, requested, fetch);
    var key := ResolveKey(requested);
    assert key in o.state.cache && o.state.cache[key] == o.result.value;
  }

  // ------------------------------------------------------------- observers

  /** The callbacks registered for `event`, in subscription order. */
  function Listeners(obs: map<string, seq<CallbackId>>, event: string): seq<CallbackId> {
    if event in obs then obs[event] else []
  }

  /** `subscribe`: append the callback to the event's list (duplicates allowed). */
  function Subscribe(obs: map<string, seq<CallbackId>>, event: string, cb: CallbackId): (r: map<string, seq<CallbackId>>)
    ensures Listeners(r, event) == Listeners(obs, event) + [cb]
    ensures forall e :: e != event ==> Listeners(r, e) == Listeners(obs, e)
  {
    obs[event := Listeners(obs, event) + [cb]]
  }

  /** `callbacks.indexOf(cb)`, with `None` for -1. */
  function FirstIndex(xs: seq<CallbackId>, cb: CallbackId): (r: Option<nat>)
    ensures r.None? <==> cb !in xs
    ensures r.Some? ==> r.value < |xs| && xs[r.value] == cb && cb !in xs[..r.value]
  {
    if |xs| == 0 then None
    else if xs[0] == cb then Some(0)
    else
      match FirstIndex(xs[1..], cb)
      case None => None
      case Some(i) =>
        assert xs[..i + 1] == [xs[0]] + xs[1..][..i];
        Some(i + 1)
  }

  /** `r` is `xs` with the entry at `i`, the first occurrence of `cb`, cut out and the rest kept in order. */
  predicate FirstRemovedAt(xs: seq<CallbackId>, cb: CallbackId, i: int, r: seq<CallbackId>) {
    0 <= i < |xs| && xs[i] == cb && cb !in xs[..i] && r == xs[..i] + xs[i + 1..]
  }

  /** `callbacks.splice(index, 1)` when the callback was found: one registration fewer. */
  function RemoveFirst(xs: seq<CallbackId>, cb: CallbackId): (r: seq<CallbackId>)
    ensures cb !in xs ==> r == xs
    ensures cb in xs ==> exists i :: FirstRemovedAt(xs, cb, i, r)
    ensures multiset(r) == multiset(xs) - multiset{cb}
  {
    match FirstIndex(xs, cb)
    case None => xs
    case Some(i) =>
      assert xs == xs[..i] + [cb] + xs[i + 1..];
      assert FirstRemovedAt(xs, cb, i, xs[..i] + xs[i + 1..]);
      xs[..i] + xs[i + 1..]
  }

  /** Only the earliest registration goes: later ones of the same callback stay, in order. */
  lemma RemoveEarliest(xs: seq<CallbackId>, cb: CallbackId, ys: seq<CallbackId>)
    requires cb !in xs
    ensures RemoveFirst(xs + [cb] + ys, cb) == xs + ys
  {
    var zs := xs + [cb] + ys;
    assert zs[|xs|] == cb && zs[..|xs|] == xs;
    var i :| FirstRemovedAt(zs, cb, i, RemoveFirst(zs, cb));
    assert i == |xs|;
    assert zs[|xs| + 1..] == ys;
  }

  /** `unsubscribe`: drop the first registration of the callback; unknown events or callbacks change nothing. */
  function Unsubscribe(obs: map<string, seq<CallbackId>>, event: string, cb: CallbackId): (r: map<string, seq<CallbackId>>)
    ensures Listeners(r, event) == RemoveFirst(Listeners(obs, event), cb)
    ensures cb in Listeners(obs, event) ==> exists i :: FirstRemovedAt(Listeners(obs, event), cb, i, Listeners(r, event))
    ensures forall e :: e != event ==> Listeners(r, e) == Listeners(obs, e)
    ensures cb !in Listeners(obs, event) ==> forall e :: Listeners(r, e) == Listeners(obs, e)
  {
    if event in obs then obs[event := RemoveFirst(obs[event], cb)] else obs
  }

  /** Subscribing a new callback and unsubscribing it again leaves every event's list as it was. */
  lemma SubscribeThenUnsubscribe(obs: map<string, seq<CallbackId>>, event: string, cb: CallbackId, e: string)
    requires cb !in Listeners(obs, event)
    ensures Listeners(Unsubscribe(Subscribe(obs, event, cb), event, cb), e) == Listeners(obs, e)
  {
    var xs := Listeners(obs, event);
    var mid := Subscribe(obs, event, cb);
    assert Listeners(mid, event) == xs + [cb];
    RemoveAppended(xs, cb);
  }

  /** Removing a callback appended to a list that lacked it gives the list back. */
  lemma RemoveAppended(xs: seq<CallbackId>, cb: CallbackId)
    requires cb !in xs
    ensures RemoveFirst(xs + [cb], cb) == xs
  {
    var ys := xs + [cb];
    assert ys[..|xs|] == xs;
    assert FirstIndex(ys, cb) == Some(|xs|);
    assert ys[|xs| + 1..] == [];
  }

  /** What one `notifyObservers` call does: every callback called in order, and which of them threw (and were logged). */
  datatype Delivery = Delivery(called: seq<CallbackId>, logged: seq<CallbackId>)

  /**
   * The `forEach` with its `try`/`catch`: a callback that throws is logged and
   * the remaining callbacks are still called.
   */
  function Deliver(cbs: seq<CallbackId>, throws: CallbackId -> bool): (r: Delivery)
    ensures r.called == cbs
    ensures forall c :: c in r.logged <==> c in cbs && throws(c)
    ensures |r.logged| <= |r.called|
  {
    if |cbs| == 0 then Delivery([], [])
    else
      var rest := Deliver(cbs[1..], throws);
      assert cbs == [cbs[0]] + cbs[1..];
      Delivery([cbs[0]] + rest.called, (if throws(cbs[0]) then [cbs[0]] else []) + rest.logged)
  }

  /** `notifyObservers(event, …)`. */
  function Notify(obs: map<string, seq<CallbackId>>, n: Notice, throws: CallbackId -> bool): (r: Delivery)
    ensures r.called == Listeners(obs, EventName(n))
  {
    Deliver(Listeners(obs, EventName(n)), throws)
  }

  /** Who is called, and in what order, does not depend on which callbacks throw. */
  lemma ThrowingCallbacksDoNotStopOthers(obs: map<string, seq<CallbackId>>, n: Notice,
                                         throws: CallbackId -> bool, never: CallbackId -> bool)
    ensures Notify(obs, n, throws).called == Notify(obs, n, never).called
  {
  }

  // ----------------------------------------------------------------- slugs

  /** The characters a slug is made of: `[a-z0-9_-]`. */
  predicate IsSlugChar(c: char) {
    IsAsciiLower(c) || IsDigit(c) || c == '_' || c == '-'
  }

  predicate IsDash(c: char) {
    c == '-'
  }

  /** The class `[\w\s-]`, whose complement the slug removes. */
  predicate KeptBySlugClass(c: char) {
    IsWordChar(c) || IsSpace(c) || c == '-'
  }

  /** `.replace(/[^\w\s-]/g, '')`. */
  function KeepSlugClass(s: string): (r: string)
    ensures |r| <= |s|
    ensures forall i :: 0 <= i < |r| ==> IsWordChar(r[i]) || IsSpace(r[i]) || r[i] == '-'
    ensures (forall i :: 0 <= i < |s| ==> IsWordChar(s[i]) || IsSpace(s[i]) || s[i] == '-') ==> r == s
    ensures (forall i :: 0 <= i < |s| ==> !IsAsciiUpper(s[i])) ==> forall i :: 0 <= i < |r| ==> !IsAsciiUpper(r[i])
    ensures |s| == 1 ==> r == if KeptBySlugClass(s[0]) then s else ""
  {
    if |s| == 0 then ""
    else
      var rest := KeepSlugClass(s[1..]);
      var r := (if KeptBySlugClass(s[0]) then [s[0]] else []) + rest;
      assert s == [s[0]] + s[1..];
      r
  }

  /** The removal is character by character: the text kept from `a + b` is that of `a`, then that of `b`. */
  lemma {:induction false} KeepSlugClassConcat(a: string, b: string)
    ensures KeepSlugClass(a + b) == KeepSlugClass(a) + KeepSlugClass(b)
    decreases |a|
  {
    if |a| == 0 {
      assert a + b == b;
    } else {
      HeadTail(a, b);
      KeepSlugClassConcat(a[1..], b);
      var head := if KeptBySlugClass(a[0]) then [a[0]] else [];
      Assoc(head, KeepSlugClass(a[1..]), KeepSlugClass(b));
    }
  }

  /** A non-empty run of `\w` characters. */
  predicate IsWord(u: string) {
    |u| >= 1 && forall i :: 0 <= i < |u| ==> IsWordChar(u[i])
  }

  /** Lower-casing keeps a word a word and leaves the white space between words alone. */
  lemma LowerWords(u: string, sp: string, v: string)
    requires IsWord(u) && IsWord(v) && AllSpace(sp)
    ensures ToLower(u + sp + v) == ToLower(u) + sp + ToLower(v)
    ensures IsWord(ToLower(u)) && IsWord(ToLower(v))
  {
    var lu, lv := ToLower(u), ToLower(v);
    forall i | 0 <= i < |sp| ensures ToLowerChar(sp[i]) == sp[i] {
      assert !IsAsciiUpper(sp[i]);
    }
    assert forall i :: 0 <= i < |lu| ==> IsWordChar(lu[i]);
    assert forall i :: 0 <= i < |lv| ==> IsWordChar(lv[i]);
  }

  /** Lower-cased words and white space pass the slug's character filter unchanged. */
  lemma LowerWordsKept(u: string, sp: string, v: string)
    requires IsWord(u) && IsWord(v) && AllSpace(sp)
    ensures KeepSlugClass(ToLower(u + sp + v)) == ToLower(u) + sp + ToLower(v)
  {
    LowerWords(u, sp, v);
  }

  /** The white-space run between two words becomes one `-`. */
  lemma SpaceRunReplaced(lu: string, sp: string, lv: string)
    requires IsWord(lu) && IsWord(lv) && |sp| >= 1 && AllSpace(sp)
    ensures ReplaceRuns(lu + sp + lv, IsSpace, "-") == lu + "-" + lv
  {
    var tail := sp + lv;
    assert ReplaceRuns(tail, IsSpace, "-") == "-" + lv by {
      assert IsSpace(tail[0]) && !IsSpace(lv[0]);
      DropRunOf(sp, lv, IsSpace);
      NothingToReplace(lv, IsSpace, "-");
    }
    assert ReplaceRuns(lu + tail, IsSpace, "-") == lu + ("-" + lv) by {
      ReplaceRunsAfterPlain(lu, tail, IsSpace, "-");
    }
    Assoc(lu, sp, lv);
    Assoc(lu, "-", lv);
  }

  /** Two words separated by a white-space run become the lower-cased words joined by one `-`. */
  lemma SlugOfTwoWords(u: string, sp: string, v: string)
    requires IsWord(u) && IsWord(v) && |sp| >= 1 && AllSpace(sp)
    ensures Slug(u + sp + v) == ToLower(u) + "-" + ToLower(v)
  {
    var lu, lv := ToLower(u), ToLower(v);
    var a := lu + sp + lv;
    var b := lu + "-" + lv;
    assert KeepSlugClass(ToLower(u + sp + v)) == a by {
      LowerWordsKept(u, sp, v);
    }
    assert ReplaceRuns(a, IsSpace, "-") == b by {
      LowerWords(u, sp, v);
      SpaceRunReplaced(lu, sp, lv);
    }
    assert Trim(ReplaceRuns(b, IsDash, "-")) == b by {
      LowerWords(u, sp, v);
      DashJoinedKept(lu, lv);
    }
  }

  /** Two words joined by one `-` hold no `--` and no white space, so the last two steps keep them. */
  lemma DashJoinedKept(lu: string, lv: string)
    requires IsWord(lu) && IsWord(lv)
    ensures Trim(ReplaceRuns(lu + "-" + lv, IsDash, "-")) == lu + "-" + lv
  {
    var b := lu + "-" + lv;
    forall i | 0 <= i < |b| ensures !IsSpace(b[i]) && (b[i] == '-' <==> i == |lu|) {
      if i < |lu| {
        assert b[i] == lu[i];
      } else if i > |lu| {
        assert b[i] == lv[i - |lu| - 1];
      } else {
        assert b[i] == '-';
      }
    }
    SingleDashesKept(b);
    NoSpaceTrim(b);
  }

  /**
   * `generateSlug`: lower-case, drop everything but word characters, white
   * space and `-`, turn each white-space run into `-`, collapse `-` runs, trim.
   */
  function Slug(text: string): (r: string)
    ensures SlugChars(r)
    ensures NoDoubleDash(r)
  {
    var b := KeepSlugClass(ToLower(text));
    SpacesReplaced(b);
    var c := ReplaceRuns(b, IsSpace, "-");
    DashesCollapsed(c);
    var d := ReplaceRuns(c, IsDash, "-");
    NoSpaceTrim(d);
    Trim(d)
  }

  /** No two `-` in a row. */
  predicate NoDoubleDash(s: string) {
    forall i :: 0 <= i < |s| - 1 ==> !(s[i] == '-' && s[i + 1] == '-')
  }

  predicate SlugChars(s: string) {
    forall i :: 0 <= i < |s| ==> IsSlugChar(s[i])
  }

  /** Replacing the white-space runs of word/space/dash text leaves only word characters and `-`. */
  lemma {:induction false} SpacesReplaced(s: string)
    requires forall i :: 0 <= i < |s| ==> (IsWordChar(s[i]) || IsSpace(s[i]) || s[i] == '-') && !IsAsciiUpper(s[i])
    ensures SlugChars(ReplaceRuns(s, IsSpace, "-"))
    decreases |s|
  {
    if |s| > 0 {
      if IsSpace(s[0]) {
        var t := DropRun(s, IsSpace);
        assert forall i :: 0 <= i < |t| ==> t[i] == s[|s| - |t| + i];
        SpacesReplaced(t);
      } else {
        SpacesReplaced(s[1..]);
      }
    }
  }

  /** Collapsing `-` runs keeps the characters and leaves no `--`. */
  lemma {:induction false} DashesCollapsed(s: string)
    requires SlugChars(s)
    ensures SlugChars(ReplaceRuns(s, IsDash, "-"))
    ensures NoDoubleDash(ReplaceRuns(s, IsDash, "-"))
    ensures |s| > 0 ==> |ReplaceRuns(s, IsDash, "-")| > 0 && ReplaceRuns(s, IsDash, "-")[0] == s[0]
    decreases |s|
  {
    if |s| > 0 {
      var r := ReplaceRuns(s, IsDash, "-");
      if IsDash(s[0]) {
        var t := DropRun(s, IsDash);
        assert forall i :: 0 <= i < |t| ==> t[i] == s[|s| - |t| + i];
        DashesCollapsed(t);
        var rt := ReplaceRuns(t, IsDash, "-");
        assert r == "-" + rt;
        assert |t| > 0 ==> rt[0] == t[0] && t[0] != '-';
      } else {
        DashesCollapsed(s[1..]);
        var rt := ReplaceRuns(s[1..], IsDash, "-");
        assert r == [s[0]] + rt;
      }
    }
  }

  /** Single dashes are left alone. */
  lemma {:induction false} SingleDashesKept(s: string)
    requires NoDoubleDash(s)
    ensures ReplaceRuns(s, IsDash, "-") == s
    decreases |s|
  {
    if |s| > 0 {
      assert NoDoubleDash(s[1..]);
      SingleDashesKept(s[1..]);
      if IsDash(s[0]) {
        assert DropRun(s, IsDash) == s[1..];
      }
      assert s == [s[0]] + s[1..];
    }
  }

  /** Text without white space is its own trim. */
  lemma NoSpaceTrim(s: string)
    requires forall i :: 0 <= i < |s| ==> !IsSpace(s[i])
    ensures Trim(s) == s
  {
    assert TrimStart(s) == s;
  }

  /** A string of slug characters without `--` is its own slug. */
  lemma SlugFixed(s: string)
    requires SlugChars(s) && NoDoubleDash(s)
    ensures Slug(s) == s
  {
    SlugCharsKept(s);
    NothingToReplace(s, IsSpace, "-");
    SingleDashesKept(s);
    NoSpaceTrim(s);
  }

  /** Lower-casing and filtering leave slug characters alone. */
  lemma SlugCharsKept(s: string)
    requires SlugChars(s)
    ensures KeepSlugClass(ToLower(s)) == s
  {
    assert ToLower(s) == s;
    assert forall i :: 0 <= i < |s| ==> (!IsAsciiUpper(s[i]) && IsWordChar(s[i])) || s[i] == '-';
  }

  /** `generateSlug` is idempotent. */
  lemma SlugIdempotent(text: string)
    ensures Slug(Slug(text)) == Slug(text)
  {
    SlugFixed(Slug(text));
  }
}
