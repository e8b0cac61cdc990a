/**
 * The SvelteKit site's translation helper `t` and its initial-language choice.
 * The Svelte stores become parameters: the current language, the table of
 * loaded translations, the saved preference and the browser's language.
 */
module I18n {
  import opened JsText
  import opened Json

  /** The five own keys of the `languages` table. */
  predicate IsLanguage(code: string) {
    code in {"en", "zh", "hi", "fr", "es"}
  }

  /** `code in languages`: an own key, or a name every object inherits. */
  predicate InLanguages(code: string) {
    IsLanguage(code) || IsInheritedMember(code)
  }

  /** The primary subtag of a BCP 47 tag: `tag.split('-')[0]`. */
  function PrimarySubtag(tag: string): (r: string)
    ensures '-' !in r
    ensures |r| <= |tag| && r == tag[..|r|]
    ensures |r| < |tag| ==> tag[|r|] == '-'
  {
    var r := Before(tag, "-");
    assert forall i :: 0 <= i < |r| ==> r[i] != '-' by {
      forall i | 0 <= i < |r| ensures r[i] != '-' {
        assert r[i..i + 1] == [r[i]];
        assert !OccursAt(r, "-", i);
      }
    }
    if |r| < |tag| then
      JoinSplit(tag, "-");
      SplitHeadFollowedBySep(tag, "-");
      r
    else r
  }

  /** When the first part of a split is shorter than the string, the separator follows it. */
  lemma SplitHeadFollowedBySep(s: string, sep: string)
    requires |sep| > 0
    ensures |Split(s, sep)[0]| < |s| ==> OccursAt(s, sep, |Split(s, sep)[0]|)
  {
    match IndexOf(s, sep, 0)
    case None =>
    case Some(i) =>
      assert Split(s, sep)[0] == s[..i];
  }

  /**
   * `getInitialLanguage`: outside the browser always `'en'`; otherwise a
   * non-empty saved value that passes the `in languages` test, else the
   * browser language's primary subtag if it passes, else `'en'`.
   */
  function InitialLanguage(browser: bool, saved: Option<string>, navigatorLanguage: string): (r: string)
    ensures InLanguages(r)
    ensures !browser ==> r == "en"
    ensures browser && saved.Some? && saved.value != "" && InLanguages(saved.value) ==> r == saved.value
    ensures r != "en" ==> browser && ((saved.Some? && r == saved.value) || r == PrimarySubtag(navigatorLanguage))
    ensures browser && !(saved.Some? && saved.value != "" && InLanguages(saved.value)) ==>
      r == (if InLanguages(PrimarySubtag(navigatorLanguage)) then PrimarySubtag(navigatorLanguage) else "en")
  {
    if browser then
      if saved.Some? && saved.value != "" && InLanguages(saved.value) then saved.value
      else
        var primary := PrimarySubtag(navigatorLanguage);
        if InLanguages(primary) then primary else "en"
    else "en"
  }

  /** A usable saved preference wins whatever the browser reports. */
  lemma SavedPreferenceWins(saved: string, navA: string, navB: string)
    requires saved != "" && InLanguages(saved)
    ensures InitialLanguage(true, Some(saved), navA) == InitialLanguage(true, Some(saved), navB) == saved
  {
  }

  /** Unless a name inherited by every object slips through the `in` test, the choice is one of the five languages. */
  lemma InitialLanguageIsOwnKey(browser: bool, saved: Option<string>, navigatorLanguage: string)
    requires saved.Some? ==> !IsInheritedMember(saved.value)
    requires !IsInheritedMember(PrimarySubtag(navigatorLanguage))
    ensures IsLanguage(InitialLanguage(browser, saved, navigatorLanguage))
  {
  }

  /** The inherited-name quirk: a saved `'toString'` is accepted as a language. */
  lemma InheritedNameAccepted(navigatorLanguage: string)
    ensures InitialLanguage(true, Some("toString"), navigatorLanguage) == "toString"
    ensures !IsLanguage("toString")
  {
    assert IsInheritedMember("toString");
  }

  /** `Object.keys(v).length` for a truthy value. */
  function KeyCount(v: Json): nat {
    match v
    case JObj(fields) => |fields|
    case JArr(items) => |items|
    case JStr(s) => |s|
    case _ => 0
  }

  /**
   * One step of the lookup loop: the current value must be a truthy object
   * (`!value || typeof value !== 'object'` fails otherwise), and the segment
   * must name one of its own properties.  Inherited members are functions or
   * objects without string members, so every path through them ends on the key.
   */
  function Walk(v: Json, path: seq<string>): (r: Option<Json>)
    ensures |path| == 0 ==> r == Some(v)
    ensures |path| > 0 && r.Some? ==> v.JObj? || v.JArr?
    decreases |path|
  {
    if |path| == 0 then Some(v)
    else if !(v.JObj? || v.JArr?) then None
    else
      match OwnProperty(v, path[0])
      case None => None
      case Some(child) => Walk(child, path[1..])
  }

  /** Walking `p + q` is walking `p`, then `q` from where `p` ended. */
  lemma {:induction false} WalkConcat(v: Json, p: seq<string>, q: seq<string>)
    ensures Walk(v, p + q) == (match Walk(v, p) case None => None case Some(w) => Walk(w, q))
    decreases |p|
  {
    if |p| == 0 {
      assert p + q == q;
    } else {
      assert (p + q)[0] == p[0];
      assert (p + q)[1..] == p[1..] + q;
      if v.JObj? || v.JArr? {
        match OwnProperty(v, p[0])
        case None =>
        case Some(child) => WalkConcat(child, p[1..], q);
      }
    }
  }

  /** The stored string for a dotted key, or `None` when the walk fails or ends on a non-string. */
  function Resolve(table: Json, key: string): (r: Option<string>)
    ensures r.Some? <==> Walk(table, Split(key, ".")).Some? && Walk(table, Split(key, ".")).value.JStr?
    ensures r.Some? ==> Walk(table, Split(key, ".")) == Some(JStr(r.value))
  {
    match Walk(table, Split(key, "."))
    case Some(JStr(text)) => Some(text)
    case _ => None
  }

  /** The longest prefix of `s` made of `\w` characters. */
  function WordPrefix(s: string): (r: string)
    ensures |r| <= |s| && r == s[..|r|]
    ensures forall i :: 0 <= i < |r| ==> IsWordChar(r[i])
    ensures |r| < |s| ==> !IsWordChar(s[|r|])
  {
    if |s| > 0 && IsWordChar(s[0]) then [s[0]] + WordPrefix(s[1..]) else ""
  }

  predicate IsWordName(name: string) {
    |name| > 0 && forall i :: 0 <= i < |name| ==> IsWordChar(name[i])
  }

  /**
   * `String(v)` for the member `name` every object inherits: `Object.prototype`
   * itself for `__proto__`, otherwise a built-in function, printed the way the
   * major engines print native functions.
   */
  function InheritedText(name: string): (r: string)
    requires IsInheritedMember(name)
    ensures |r| > 0 && r[0] != '{'
  {
    if name == "__proto__" then "[object Object]"
    else if name == "constructor" then "function Object() { [native code] }"
    else "function " + name + "() { [native code] }"
  }

  /**
   * What the replacer returns for `{name}`: `params[name] || '{name}'`. The
   * lookup also finds the members `params` inherits, so `{toString}` is
   * filled even when no parameter of that name was passed.
   */
  function Replacement(name: string, params: map<string, string>): (r: string)
    ensures name in params && params[name] != "" ==> r == params[name]
    ensures name !in params && IsInheritedMember(name) ==> r == InheritedText(name) && r != "{" + name + "}"
    ensures (name in params ==> params[name] == "") && (name !in params ==> !IsInheritedMember(name)) ==>
      r == "{" + name + "}"
  {
    if name in params then
      if params[name] != "" then params[name] else "{" + name + "}"
    else if IsInheritedMember(name) then InheritedText(name)
    else "{" + name + "}"
  }

  /** `value.replace(/\{(\w+)\}/g, …)`: scan left to right, replacing each placeholder once. */
  function Substitute(s: string, params: map<string, string>): (r: string)
    ensures (forall i :: 0 <= i < |s| ==> s[i] != '{') ==> r == s
    decreases |s|
  {
    if |s| == 0 then ""
    else if s[0] == '{' then
      var name := WordPrefix(s[1..]);
      if |name| > 0 && |name| + 1 < |s| && s[|name| + 1] == '}' then
        Replacement(name, params) + Substitute(s[|name| + 2..], params)
      else [s[0]] + Substitute(s[1..], params)
    else [s[0]] + Substitute(s[1..], params)
  }

  /** A placeholder at the front is replaced, and the inserted text is not scanned again. */
  lemma PlaceholderReplacedOnce(name: string, rest: string, params: map<string, string>)
    requires IsWordName(name)
    ensures Substitute("{" + name + "}" + rest, params) == Replacement(name, params) + Substitute(rest, params)
  {
    var s := "{" + name + "}" + rest;
    assert s[0] == '{';
    assert s[1..] == name + ("}" + rest);
    WordPrefixOfName(name, "}" + rest);
    assert WordPrefix(s[1..]) == name;
    assert s[|name| + 1] == '}';
    assert s[|name| + 2..] == rest;
  }

  lemma {:induction false} WordPrefixOfName(name: string, tail: string)
    requires forall i :: 0 <= i < |name| ==> IsWordChar(name[i])
    requires |tail| > 0 && !IsWordChar(tail[0])
    ensures WordPrefix(name + tail) == name
    decreases |name|
  {
    if |name| > 0 {
      assert (name + tail)[1..] == name[1..] + tail;
      WordPrefixOfName(name[1..], tail);
    } else {
      assert name + tail == tail;
    }
  }

  /**
   * The inherited-member quirk: a placeholder such as `{toString}` that no
   * parameter fills prints the inherited member instead of staying verbatim.
   */
  lemma InheritedPlaceholderShown(name: string, rest: string, params: map<string, string>)
    requires IsWordName(name) && IsInheritedMember(name) && name !in params
    ensures Substitute("{" + name + "}" + rest, params) == InheritedText(name) + Substitute(rest, params)
    ensures InheritedText(name) != "{" + name + "}"
  {
    PlaceholderReplacedOnce(name, rest, params);
  }

  /** A character that does not open a placeholder is copied through. */
  lemma LiteralCopied(c: char, rest: string, params: map<string, string>)
    requires c != '{'
    ensures Substitute([c] + rest, params) == [c] + Substitute(rest, params)
  {
    assert ([c] + rest)[1..] == rest;
  }

  /** Does `s` start with a complete placeholder `{name}`? */
  predicate PlaceholderAtFront(s: string) {
    |s| > 0 && s[0] == '{' && var name := WordPrefix(s[1..]);
    |name| > 0 && |name| + 1 < |s| && s[|name| + 1] == '}'
  }

  /** When no placeholder starts at the front, the first character is copied through. */
  lemma FrontCopied(s: string, params: map<string, string>)
    requires |s| > 0 && !PlaceholderAtFront(s)
    ensures Substitute(s, params) == [s[0]] + Substitute(s[1..], params)
  {
  }

  /** `s` has a placeholder at `i` naming a member every object inherits, such as `{toString}`. */
  predicate InheritedPlaceholderAt(s: string, i: int) {
    0 <= i < |s| && PlaceholderAtFront(s[i..]) && IsInheritedMember(WordPrefix(s[i + 1..]))
  }

  predicate NoInheritedPlaceholder(s: string) {
    forall i :: 0 <= i < |s| ==> !InheritedPlaceholderAt(s, i)
  }

  /** A placeholder of a suffix is a placeholder of the whole text. */
  lemma SuffixPlaceholder(s: string, k: nat, j: int)
    requires k <= |s| && InheritedPlaceholderAt(s[k..], j)
    ensures InheritedPlaceholderAt(s, k + j)
  {
    assert s[k..][j..] == s[k + j..];
    assert s[k..][j + 1..] == s[k + j + 1..];
  }

  lemma SuffixNoInheritedPlaceholder(s: string, k: nat)
    requires k <= |s| && NoInheritedPlaceholder(s)
    ensures NoInheritedPlaceholder(s[k..])
  {
    forall j | 0 <= j < |s[k..]| ensures !InheritedPlaceholderAt(s[k..], j) {
      if InheritedPlaceholderAt(s[k..], j) {
        SuffixPlaceholder(s, k, j);
      }
    }
  }

  /**
   * Without parameters every placeholder other than an inherited member's
   * name is left verbatim, so such a stored string comes back unchanged.
   */
  lemma {:induction false} NoParamsIdentity(s: string)
    requires NoInheritedPlaceholder(s)
    ensures Substitute(s, map[]) == s
    decreases |s|
  {
    if PlaceholderAtFront(s) {
      var name := WordPrefix(s[1..]);
      var rest := s[|name| + 2..];
      assert s[0..] == s;
      assert !InheritedPlaceholderAt(s, 0);
      SuffixNoInheritedPlaceholder(s, |name| + 2);
      NoParamsIdentity(rest);
      PlaceholderFront(s, map[]);
    } else if |s| > 0 {
      SuffixNoInheritedPlaceholder(s, 1);
      NoParamsIdentity(s[1..]);
      FrontCopied(s, map[]);
      assert s == [s[0]] + s[1..];
    }
  }

  /** A placeholder at the front spans `{`, its name and `}`, and only it is replaced. */
  lemma PlaceholderFront(s: string, params: map<string, string>)
    requires PlaceholderAtFront(s)
    ensures var name := WordPrefix(s[1..]);
      s == "{" + name + "}" + s[|name| + 2..]
      && Substitute(s, params) == Replacement(name, params) + Substitute(s[|name| + 2..], params)
  {
    var name := WordPrefix(s[1..]);
    assert s[1..|name| + 1] == name;
    assert s == [s[0]] + s[1..|name| + 1] + [s[|name| + 1]] + s[|name| + 2..];
  }

  /** The current language's table is present and has at least one key. */
  predicate Loaded(tables: map<string, Json>, lang: string) {
    lang in tables && Truthy(tables[lang]) && KeyCount(tables[lang]) > 0
  }

  /**
   * `t(key, params)`: the key itself when the current language's table is
   * missing or has no keys, or when the walk does not end on a string;
   * otherwise the stored string with its placeholders filled.
   */
  function Translate(tables: map<string, Json>, lang: string, key: string, params: map<string, string>): (r: string)
    ensures !Loaded(tables, lang) ==> r == key
    ensures Loaded(tables, lang) ==>
      var w := Walk(tables[lang], Split(key, "."));
      && (w.Some? && w.value.JStr? ==> r == Substitute(w.value.s, params))
      && (!(w.Some? && w.value.JStr?) ==> r == key)
  {
    if !Loaded(tables, lang) then key
    else
      match Resolve(tables[lang], key)
      case None => key
      case Some(text) => Substitute(text, params)
  }

  /**
   * Without parameters, a key whose walk ends on a stored string gives that
   * string back, as long as it names no inherited member as a placeholder.
   */
  lemma TranslateStoredText(tables: map<string, Json>, lang: string, key: string, text: string)
    requires Loaded(tables, lang)
    requires Walk(tables[lang], Split(key, ".")) == Some(JStr(text))
    requires NoInheritedPlaceholder(text)
    ensures Translate(tables, lang, key, map[]) == text
  {
    NoParamsIdentity(text);
  }

  /** A dotted key reaches a nested string: `t('nav.home')` on `{nav: {home: 'Home'}}`. */
  lemma NestedKeyFound(segment: string, leaf: string, text: string, lang: string)
    requires '.' !in segment && '.' !in leaf
    requires NoInheritedPlaceholder(text)
    ensures Translate(map[lang := JObj([Field(segment, JObj([Field(leaf, JStr(text))]))])], lang,
                      segment + "." + leaf, map[]) == text
  {
    var key := segment + "." + leaf;
    var table := JObj([Field(segment, JObj([Field(leaf, JStr(text))]))]);
    SplitTwo(segment, leaf);
    assert Split(key, ".") == [segment, leaf];
    assert Walk(table, [segment, leaf]) == Some(JStr(text)) by {
      assert [segment, leaf][1..] == [leaf];
      assert [leaf][1..] == [];
    }
    NoParamsIdentity(text);
  }

  /** A key that ends on a sub-table, not a string, is returned unchanged. */
  lemma SubTableGivesKey(segment: string, lang: string, inner: seq<Field>, params: map<string, string>)
    requires '.' !in segment
    ensures Translate(map[lang := JObj([Field(segment, JObj(inner))])], lang, segment, params) == segment
  {
    var table := JObj([Field(segment, JObj(inner))]);
    SplitNone(segment);
    assert [segment][1..] == [];
    assert Walk(table, [segment]) == Some(JObj(inner));
  }

  /**
   * A walk that reaches a string before its last segment, or names a key the
   * table lacks, gives back the key.
   */
  lemma StrayPathGivesKey(segment: string, leaf: string, text: string, lang: string, params: map<string, string>)
    requires '.' !in segment && '.' !in leaf && segment != leaf
    ensures var tables := map[lang := JObj([Field(segment, JStr(text))])];
      && Translate(tables, lang, segment + "." + leaf, params) == segment + "." + leaf
      && Translate(tables, lang, leaf, params) == leaf
  {
    var table := JObj([Field(segment, JStr(text))]);
    SplitTwo(segment, leaf);
    assert [segment, leaf][1..] == [leaf];
    assert Walk(table, [segment, leaf]) == None;
    SplitNone(leaf);
    assert Keys([Field(segment, JStr(text))]) == [segment];
    assert Walk(table, [leaf]) == None;
  }

  lemma SplitNone(s: string)
    requires '.' !in s
    ensures Split(s, ".") == [s]
  {
    NoDotNoOccurrence(s);
  }

  lemma NoDotNoOccurrence(s: string)
    requires '.' !in s
    ensures IndexOf(s, ".", 0).None?
  {
    forall j | 0 <= j && j + 1 <= |s| ensures !OccursAt(s, ".", j) {
      assert s[j..j + 1][0] == s[j];
      assert s[j] in s;
    }
  }

  lemma SplitTwo(a: string, b: string)
    requires '.' !in a && '.' !in b
    ensures Split(a + "." + b, ".") == [a, b]
  {
    var s := a + "." + b;
    assert OccursAt(s, ".", |a|) by { assert s[|a|..|a| + 1] == "."; }
    forall j | 0 <= j < |a| ensures !OccursAt(s, ".", j) {
      assert s[j] == a[j];
      assert s[j..j + 1] == [a[j]];
    }
    assert IndexOf(s, ".", 0) == Some(|a|) by {
      IndexOfFirst(s, ".", |a|);
    }
    assert s[..|a|] == a;
    assert s[|a| + 1..] == b;
    SplitNone(b);
  }

  /** `IndexOf` from the start finds the first occurrence. */
  lemma IndexOfFirst(s: string, pat: string, i: nat)
    requires OccursAt(s, pat, i)
    requires forall j :: 0 <= j < i ==> !OccursAt(s, pat, j)
    ensures IndexOf(s, pat, 0) == Some(i)
  {
    var r := IndexOf(s, pat, 0);
    assert r.Some?;
    assert !(r.value < i);
    assert !(r.value > i);
  }
}
