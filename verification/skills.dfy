/**
 * The skills constellation's data rules: flattening a category of the
 * `technicalSkills` tree, counting skills, the fixed relation between
 * technologies, category display names and which node pairs get a line.
 */
module Skills {
  import opened JsText
  import opened Json

  // ----------------------------------------------------------- flattening

  /** `typeof skill === 'string' && skill.trim()`. */
  predicate IsKeptSkill(v: Json) {
    v.JStr? && Trim(v.s) != ""
  }

  /** `skills.filter(...)`: the kept strings, in order and untrimmed. */
  function KeepSkills(vs: seq<Json>): (r: seq<string>)
    ensures |r| <= |vs|
    ensures forall s :: s in r <==> JStr(s) in vs && Trim(s) != ""
    ensures forall k :: 0 <= k < |r| ==> !AllSpace(r[k])
    ensures |vs| == 1 ==> r == if IsKeptSkill(vs[0]) then [vs[0].s] else []
  {
    if |vs| == 0 then []
    else
      var rest := KeepSkills(vs[1..]);
      assert forall v :: v in vs <==> v == vs[0] || v in vs[1..];
      var r := (if IsKeptSkill(vs[0]) then [vs[0].s] else []) + rest;
      assert forall k :: 0 <= k < |r| ==> r[k] in r;
      forall k | 0 <= k < |r| ensures !AllSpace(r[k]) {
        TrimEmptyIff(r[k]);
      }
      r
  }

  /** Filtering a concatenation filters each part, keeping their order. */
  lemma {:induction false} KeepSkillsConcat(a: seq<Json>, b: seq<Json>)
    ensures KeepSkills(a + b) == KeepSkills(a) + KeepSkills(b)
    decreases |a|
  {
    if |a| == 0 {
      assert a + b == b;
    } else {
      assert (a + b)[0] == a[0];
      assert (a + b)[1..] == a[1..] + b;
      KeepSkillsConcat(a[1..], b);
    }
  }

  /** Value `k` contributes `v`: an array holding `v`, or the string `v` itself. */
  predicate Contributes(values: seq<Json>, k: int, v: Json)
    requires 0 <= k < |values|
  {
    (values[k].JArr? && v in values[k].items) || (values[k].JStr? && v == values[k])
  }

  /** A category value holding the skill `s`: an array listing it, or the string itself. */
  predicate HoldsSkill(v: Json, s: string) {
    (v.JArr? && JStr(s) in v.items) || v == JStr(s)
  }

  /** What one value adds in the `forEach`: an array's elements, a string itself, anything else nothing. */
  function ValueSkills(v: Json): seq<Json> {
    if v.JArr? then v.items else if v.JStr? then [v] else []
  }

  /** The `forEach` over `Object.values`: arrays are concatenated, strings pushed, anything else dropped. */
  function CollectValues(values: seq<Json>): (r: seq<Json>)
    ensures forall v :: v in r <==> exists k :: 0 <= k < |values| && Contributes(values, k, v)
    ensures |values| == 1 ==> r == ValueSkills(values[0])
  {
    if |values| == 0 then []
    else
      var head := values[0];
      var rest := CollectValues(values[1..]);
      var part := ValueSkills(head);
      assert |values| == 1 ==> rest == [] && part + rest == part;
      forall v ensures v in part + rest <==> exists k :: 0 <= k < |values| && Contributes(values, k, v)
      {
        if v in rest {
          var k :| 0 <= k < |values[1..]| && Contributes(values[1..], k, v);
          assert values[1..][k] == values[k + 1];
          assert Contributes(values, k + 1, v);
        }
        if v in part {
          assert Contributes(values, 0, v);
        }
        if exists k :: 0 <= k < |values| && Contributes(values, k, v) {
          var k :| 0 <= k < |values| && Contributes(values, k, v);
          if k > 0 {
            assert values[1..][k - 1] == values[k];
            assert Contributes(values[1..], k - 1, v);
          }
        }
      }
      part + rest
  }

  /** The values walk the values in order: those of `a + b` are those of `a`, then those of `b`. */
  lemma {:induction false} CollectValuesConcat(a: seq<Json>, b: seq<Json>)
    ensures CollectValues(a + b) == CollectValues(a) + CollectValues(b)
    decreases |a|
  {
    if |a| == 0 {
      assert a + b == b;
    } else {
      HeadTail(a, b);
      assert (a + b)[0] == a[0] && (a + b)[1..] == a[1..] + b;
      CollectValuesConcat(a[1..], b);
      Assoc(ValueSkills(a[0]), CollectValues(a[1..]), CollectValues(b));
    }
  }

  /** `Object.values` of an object: its field values, in key order. */
  function FieldValues(fields: seq<Field>): (r: seq<Json>)
    ensures |r| == |fields|
    ensures forall i :: 0 <= i < |fields| ==> r[i] == fields[i].value
  {
    seq(|fields|, i requires 0 <= i < |fields| => fields[i].value)
  }

  /**
   * `flattenSkills`: an array keeps its own elements; an object contributes the
   * elements of its array values and its string values, in key order; other
   * values give nothing. `Object.values(null)` throws. Only strings with a
   * non-white-space character survive, untrimmed.
   */
  function FlattenSkills(category: Json): (r: Result<seq<string>, string>)
    ensures r.Err? <==> category.JNull?
    ensures r.Ok? ==> forall k :: 0 <= k < |r.value| ==> !AllSpace(r.value[k])
    ensures category.JArr? ==> r.Ok? && forall s :: s in r.value <==> JStr(s) in category.items && Trim(s) != ""
    ensures category.JObj? ==> r.Ok? && forall s :: s in r.value <==>
      Trim(s) != "" && exists k :: 0 <= k < |category.fields| && HoldsSkill(category.fields[k].value, s)
    ensures !category.JArr? && !category.JObj? && !category.JNull? ==> r == Ok([])
    ensures category.JArr? ==> r == Ok(KeepSkills(category.items))
    ensures category.JObj? ==> r == Ok(KeepSkills(CollectValues(FieldValues(category.fields))))
  {
    match category
    case JArr(items) => Ok(KeepSkills(items))
    case JObj(fields) =>
      var values := FieldValues(fields);
      var collected := CollectValues(values);
      var r := KeepSkills(collected);
      forall s | s in r ensures exists k :: 0 <= k < |fields| && HoldsSkill(fields[k].value, s) {
        var k :| 0 <= k < |values| && Contributes(values, k, JStr(s));
        assert HoldsSkill(fields[k].value, s);
      }
      forall s, k | 0 <= k < |fields| && HoldsSkill(fields[k].value, s) ensures JStr(s) in collected {
        assert Contributes(values, k, JStr(s));
      }
      Ok(r)
    case JNull => Err("TypeError: Cannot convert undefined or null to object")
    case _ => Ok([])
  }

  /**
   * An object flattens key by key: the skills of the fields `a + b` are those
   * of `a`, then those of `b`, duplicates included.
   */
  lemma FlattenFieldsConcat(a: seq<Field>, b: seq<Field>)
    ensures FlattenSkills(JObj(a + b)).Ok? && FlattenSkills(JObj(a)).Ok? && FlattenSkills(JObj(b)).Ok?
    ensures FlattenSkills(JObj(a + b)).value == FlattenSkills(JObj(a)).value + FlattenSkills(JObj(b)).value
  {
    assert FieldValues(a + b) == FieldValues(a) + FieldValues(b);
    CollectValuesConcat(FieldValues(a), FieldValues(b));
    KeepSkillsConcat(CollectValues(FieldValues(a)), CollectValues(FieldValues(b)));
  }

  /** The reference total: the flattened lengths summed over the categories, or the first error. */
  function CountAll(categories: seq<Json>): Result<nat, string> {
    if |categories| == 0 then Ok(0)
    else
      match CountAll(categories[..|categories| - 1])
      case Err(e) => Err(e)
      case Ok(n) =>
        match FlattenSkills(categories[|categories| - 1])
        case Err(e) => Err(e)
        case Ok(skills) => Ok(n + |skills|)
  }

  /**
   * `getTotalSkillCount`: one pass over `Object.values(technicalSkills)`, adding the
   * length of each flattened category; a `null` tree or category throws.
   */
  method TotalSkillCount(technicalSkills: Json) returns (r: Result<nat, string>)
    ensures technicalSkills.JNull? ==> r.Err?
    ensures ObjectValues(technicalSkills).Ok? ==> r == CountAll(ObjectValues(technicalSkills).value)
  {
    var values := ObjectValues(technicalSkills);
    if values.Err? {
      return Err(values.error);
    }
    r := CountCategories(values.value);
  }

  /** The `forEach` over the categories: each flattened length added in turn, the first error thrown. */
  method CountCategories(categories: seq<Json>) returns (r: Result<nat, string>)
    ensures r == CountAll(categories)
  {
    var total := 0;
    for i := 0 to |categories|
      invariant CountAll(categories[..i]) == Ok(total)
    {
      CountAllStep(categories, i, total);
      var skills := FlattenSkills(categories[i]);
      if skills.Err? {
        r := Err(skills.error);
        CountAllError(categories, i + 1);
        return;
      }
      total := total + |skills.value|;
    }
    assert categories[..|categories|] == categories;
    r := Ok(total);
  }

  /** The count fails exactly when some category is `null`. */
  lemma {:induction false} CountAllErrIff(categories: seq<Json>)
    ensures CountAll(categories).Err? <==> exists k :: 0 <= k < |categories| && categories[k].JNull?
    decreases |categories|
  {
    if |categories| > 0 {
      var init := categories[..|categories| - 1];
      CountAllErrIff(init);
      CountAllLastErr(categories);
      assert forall k :: 0 <= k < |init| ==> init[k] == categories[k];
    }
  }

  /** The count fails when its front fails or its last category is `null`. */
  lemma CountAllLastErr(cs: seq<Json>)
    requires |cs| > 0
    ensures CountAll(cs).Err? <==> CountAll(cs[..|cs| - 1]).Err? || cs[|cs| - 1].JNull?
  {
    var f := FlattenSkills(cs[|cs| - 1]);
    assert f.Err? <==> cs[|cs| - 1].JNull?;
  }

  /** One more category adds its flattened length to the count, or fails with its error. */
  lemma CountAllStep(categories: seq<Json>, i: nat, total: nat)
    requires i < |categories| && CountAll(categories[..i]) == Ok(total)
    ensures var f := FlattenSkills(categories[i]);
      CountAll(categories[..i + 1]) == if f.Err? then Err(f.error) else Ok(total + |f.value|)
  {
    var front := categories[..i + 1];
    assert front[..|front| - 1] == categories[..i];
    assert front[|front| - 1] == categories[i];
    CountAllLast(front);
  }

  /** The count of a list whose front counts `n`: the last category's flattened length added, or its error. */
  lemma CountAllLast(cs: seq<Json>)
    requires |cs| > 0 && CountAll(cs[..|cs| - 1]).Ok?
    ensures var f := FlattenSkills(cs[|cs| - 1]);
      CountAll(cs) == if f.Err? then Err(f.error) else Ok(CountAll(cs[..|cs| - 1]).value + |f.value|)
  {
  }

  /** Once a prefix of the categories fails, every longer prefix fails with the same error. */
  lemma CountAllError(categories: seq<Json>, i: nat)
    requires 0 < i <= |categories| && CountAll(categories[..i]).Err?
    ensures CountAll(categories) == CountAll(categories[..i])
    decreases |categories| - i
  {
    if i < |categories| {
      assert categories[..i + 1][..i] == categories[..i];
      CountAllError(categories, i + 1);
    } else {
      assert categories[..i] == categories;
    }
  }

  // ------------------------------------------------------------- relation

  /** The fixed list in `areSkillsRelated`. */
  const RelatedPairs: seq<(string, string)> := [
    ("React", "JavaScript"), ("React", "TypeScript"), ("Node.js", "JavaScript"),
    ("Docker", "Kubernetes"), ("AWS", "Docker"), ("PostgreSQL", "SQL"),
    ("MongoDB", "NoSQL"), ("Jest", "JavaScript"), ("GraphQL", "API")]

  predicate InPair(p: (string, string), skill: string) {
    skill == p.0 || skill == p.1
  }

  /** `relatedPairs.some(pair => pair.includes(a) && pair.includes(b))`. */
  predicate AreSkillsRelated(a: string, b: string) {
    exists k :: 0 <= k < |RelatedPairs| && InPair(RelatedPairs[k], a) && InPair(RelatedPairs[k], b)
  }

  /** Every technology named in the list. */
  predicate IsListedSkill(s: string) {
    s in {"React", "JavaScript", "TypeScript", "Node.js", "Docker", "Kubernetes", "AWS",
          "PostgreSQL", "SQL", "MongoDB", "NoSQL", "Jest", "GraphQL", "API"}
  }

  lemma RelatedSymmetric(a: string, b: string)
    ensures AreSkillsRelated(a, b) <==> AreSkillsRelated(b, a)
  {
  }

  /** A skill is related to itself exactly when the list names it. */
  lemma RelatedToItself(s: string)
    ensures AreSkillsRelated(s, s) <==> IsListedSkill(s)
  {
    if IsListedSkill(s) {
      if s == "React" { assert InPair(RelatedPairs[0], s); }
      else if s == "JavaScript" { assert InPair(RelatedPairs[0], s); }
      else if s == "TypeScript" { assert InPair(RelatedPairs[1], s); }
      else if s == "Node.js" { assert InPair(RelatedPairs[2], s); }
      else if s == "Docker" { assert InPair(RelatedPairs[3], s); }
      else if s == "Kubernetes" { assert InPair(RelatedPairs[3], s); }
      else if s == "AWS" { assert InPair(RelatedPairs[4], s); }
      else if s == "PostgreSQL" { assert InPair(RelatedPairs[5], s); }
      else if s == "SQL" { assert InPair(RelatedPairs[5], s); }
      else if s == "MongoDB" { assert InPair(RelatedPairs[6], s); }
      else if s == "NoSQL" { assert InPair(RelatedPairs[6], s); }
      else if s == "Jest" { assert InPair(RelatedPairs[7], s); }
      else if s == "GraphQL" { assert InPair(RelatedPairs[8], s); }
      else { assert InPair(RelatedPairs[8], s); }
    }
  }

  /** Two different skills are related exactly when they form one of the listed pairs, in either order. */
  lemma RelatedDistinct(a: string, b: string)
    requires a != b
    ensures AreSkillsRelated(a, b) <==> (a, b) in RelatedPairs || (b, a) in RelatedPairs
  {
    SharedPair(RelatedPairs, a, b);
  }

  /** In any list of pairs, a pair holding two different skills is the pair of them in one order or the other. */
  lemma SharedPair(pairs: seq<(string, string)>, a: string, b: string)
    requires a != b
    ensures (exists k :: 0 <= k < |pairs| && InPair(pairs[k], a) && InPair(pairs[k], b))
      <==> (a, b) in pairs || (b, a) in pairs
  {
    if (a, b) in pairs {
      var k :| 0 <= k < |pairs| && pairs[k] == (a, b);
      assert InPair(pairs[k], a) && InPair(pairs[k], b);
    }
    if (b, a) in pairs {
      var k :| 0 <= k < |pairs| && pairs[k] == (b, a);
      assert InPair(pairs[k], a) && InPair(pairs[k], b);
    }
    if exists k :: 0 <= k < |pairs| && InPair(pairs[k], a) && InPair(pairs[k], b) {
      var k :| 0 <= k < |pairs| && InPair(pairs[k], a) && InPair(pairs[k], b);
      assert pairs[k] == (a, b) || pairs[k] == (b, a);
    }
  }

  // ---------------------------------------------------------- display name

  /** The display label of a category key, or a value that is not a string. */
  datatype CategoryName = Name(text: string) | NotAString

  /** `nameMap[key]` for the six own keys. */
  function KnownCategory(key: string): Option<string> {
    if key == "cloudDevOps" then Some("Cloud & DevOps")
    else if key == "backendApis" then Some("Backend & APIs")
    else if key == "frontend" then Some("Frontend")
    else if key == "testingObservability" then Some("Testing & Observability")
    else if key == "databases" then Some("Databases")
    else if key == "developmentTools" then Some("Development Tools")
    else None
  }

  /** Every capital after the first position has a space before it. */
  predicate SpacedCapitals(s: string) {
    forall i :: 0 < i < |s| && IsAsciiUpper(s[i]) ==> s[i - 1] == ' '
  }

  /** `key.replace(/([A-Z])/g, ' $1')`. */
  function SpaceBeforeCapitals(s: string): (r: string)
    ensures |r| >= |s|
    ensures forall i :: 0 <= i < |r| && IsAsciiUpper(r[i]) ==> i > 0 && r[i - 1] == ' '
    ensures |s| > 0 ==> r[|r| - 1] == s[|s| - 1]
    ensures |s| > 0 && !IsAsciiUpper(s[0]) ==> r[0] == s[0]
  {
    if |s| == 0 then ""
    else
      var rest := SpaceBeforeCapitals(s[1..]);
      var head := if IsAsciiUpper(s[0]) then [' ', s[0]] else [s[0]];
      var r := head + rest;
      assert forall i :: |head| <= i < |r| ==> r[i] == rest[i - |head|];
      r
  }

  /** Only spaces are inserted: removing every space gives the same text before and after. */
  lemma {:induction false} SpaceBeforeCapitalsUnspaced(s: string)
    ensures Unspaced(SpaceBeforeCapitals(s)) == Unspaced(s)
    decreases |s|
  {
    if |s| > 0 {
      var rest := SpaceBeforeCapitals(s[1..]);
      var head := if IsAsciiUpper(s[0]) then [' ', s[0]] else [s[0]];
      assert SpaceBeforeCapitals(s) == head + rest;
      SpaceBeforeCapitalsUnspaced(s[1..]);
      UnspacedConcat(head, rest);
      HeadUnspaced(s[0]);
    }
  }

  /** The one or two characters written for `c` lose only spaces. */
  lemma HeadUnspaced(c: char)
    ensures Unspaced(if IsAsciiUpper(c) then [' ', c] else [c]) == (if c == ' ' then "" else [c])
  {
    assert [' ', c][1..] == [c];
    assert [c][1..] == [];
    assert Unspaced([c]) == (if c == ' ' then "" else [c]) + Unspaced([]);
  }

  /** The text with every space removed. */
  function Unspaced(s: string): string {
    if |s| == 0 then "" else (if s[0] == ' ' then "" else [s[0]]) + Unspaced(s[1..])
  }

  lemma {:induction false} UnspacedConcat(a: string, b: string)
    ensures Unspaced(a + b) == Unspaced(a) + Unspaced(b)
    decreases |a|
  {
    if |a| == 0 {
      assert a + b == b;
    } else {
      assert (a + b)[1..] == a[1..] + b;
      UnspacedConcat(a[1..], b);
    }
  }

  /** Trimming keeps a space before each inner capital, and leaves no white space at either end. */
  lemma TrimKeepsSpacing(s: string)
    requires SpacedCapitals(s)
    ensures SpacedCapitals(Trim(s))
    ensures Trim(s) == [] || (!IsSpace(Trim(s)[0]) && !IsSpace(Trim(s)[|Trim(s)| - 1]))
  {
    var t := TrimStart(s);
    var u := TrimEnd(t);
    var off := |s| - |t|;
    forall i | 0 < i < |u| && IsAsciiUpper(u[i]) ensures u[i - 1] == ' ' {
      assert u[i] == s[off + i];
      assert u[i - 1] == s[off + i - 1];
    }
  }

  /** The display name of a key the fixed map does not know. */
  function SpacedName(key: string): (r: CategoryName)
    ensures r.Name? && SpacedCapitals(r.text)
    ensures r.text == [] || (!IsSpace(r.text[0]) && !IsSpace(r.text[|r.text| - 1]))
  {
    var spaced := SpaceBeforeCapitals(key);
    TrimKeepsSpacing(spaced);
    Name(Trim(spaced))
  }

  /**
   * `formatCategoryName`: the fixed label of the six known keys; a name every
   * object inherits (`toString`, …) finds a function, which is returned; any
   * other key gets a space before each capital, then is trimmed.
   */
  function FormatCategoryName(key: string): (r: CategoryName)
    ensures KnownCategory(key).Some? ==> r == Name(KnownCategory(key).value)
    ensures r.NotAString? <==> KnownCategory(key).None? && IsInheritedMember(key)
    ensures r.Name? ==> r.text == [] || (!IsSpace(r.text[0]) && !IsSpace(r.text[|r.text| - 1]))
    ensures KnownCategory(key).None? && !IsInheritedMember(key) ==> r.Name? && SpacedCapitals(r.text)
  {
    match KnownCategory(key)
    case Some(text) => KnownTrimmed(key); Name(text)
    case None => if IsInheritedMember(key) then NotAString else SpacedName(key)
  }

  /** The six fixed labels neither start nor end with white space. */
  lemma KnownTrimmed(key: string)
    requires KnownCategory(key).Some?
    ensures var t := KnownCategory(key).value; |t| > 0 && !IsSpace(t[0]) && !IsSpace(t[|t| - 1])
  {
    var t := KnownCategory(key).value;
    if key == "cloudDevOps" { assert t[0] == 'C' && t[|t| - 1] == 's'; }
    else if key == "backendApis" { assert t[0] == 'B' && t[|t| - 1] == 's'; }
    else if key == "frontend" { assert t[0] == 'F' && t[|t| - 1] == 'd'; }
    else if key == "testingObservability" { assert t[0] == 'T' && t[|t| - 1] == 'y'; }
    else if key == "databases" { assert t[0] == 'D' && t[|t| - 1] == 's'; }
    else { assert t[0] == 'D' && t[|t| - 1] == 's'; }
  }

  /** A camel-case key without spaces reads back as its words: dropping the inserted spaces restores it. */
  lemma CamelCaseKey(key: string)
    requires KnownCategory(key).None? && !IsInheritedMember(key)
    requires |key| > 0 && IsAsciiLower(key[0]) && forall i :: 0 <= i < |key| ==> !IsSpace(key[i])
    ensures FormatCategoryName(key) == Name(SpaceBeforeCapitals(key))
    ensures Unspaced(SpaceBeforeCapitals(key)) == key
  {
    assert !IsAsciiUpper(key[0]) && !IsSpace(key[0]) && !IsSpace(key[|key| - 1]);
    SpacedNameUntrimmed(key);
    NoSpaceUnspaced(key);
    SpaceBeforeCapitalsUnspaced(key);
  }

  /** Without white space at the ends (and no leading capital), the spaced key needs no trimming. */
  lemma SpacedNameUntrimmed(key: string)
    requires |key| > 0 && !IsAsciiUpper(key[0]) && !IsSpace(key[0]) && !IsSpace(key[|key| - 1])
    ensures SpacedName(key) == Name(SpaceBeforeCapitals(key))
  {
    var r := SpaceBeforeCapitals(key);
    assert r[0] == key[0];
    assert r[|r| - 1] == key[|key| - 1];
    TrimmedAlready(r);
  }

  lemma {:induction false} NoSpaceUnspaced(s: string)
    requires forall i :: 0 <= i < |s| ==> !IsSpace(s[i])
    ensures Unspaced(s) == s
    decreases |s|
  {
    if |s| > 0 {
      assert !IsSpace(s[0]);
      NoSpaceUnspaced(s[1..]);
      assert s == [s[0]] + s[1..];
    }
  }

  /** Text whose ends are not white space is its own trim. */
  lemma TrimmedAlready(s: string)
    requires |s| > 0 && !IsSpace(s[0]) && !IsSpace(s[|s| - 1])
    ensures Trim(s) == s
  {
    assert TrimStart(s) == s;
    assert TrimEnd(s) == s;
  }

  // ------------------------------------------------------------ connections

  datatype SkillNode = SkillNode(skill: string, category: string)

  /** A line between nodes `a < b`, with the opacity chosen for it. */
  datatype Connection = Connection(a: nat, b: nat, opacity: real)

  predicate Linked(x: SkillNode, y: SkillNode) {
    AreSkillsRelated(x.skill, y.skill) || x.category == y.category
  }

  function Opacity(x: SkillNode, y: SkillNode): real {
    if x.category == y.category then 0.6 else 0.3
  }

  /** A line drawn for the pair `(a, b)`, and the only kind drawn. */
  predicate IsLine(nodes: seq<SkillNode>, c: Connection) {
    c.a < c.b < |nodes| && Linked(nodes[c.a], nodes[c.b]) && c.opacity == Opacity(nodes[c.a], nodes[c.b])
  }

  /** The inner `forEach` from index `b` on, for a fixed `a`. */
  function RowFrom(nodes: seq<SkillNode>, a: nat, b: nat): (r: seq<Connection>)
    requires a < |nodes|
    ensures forall c :: c in r <==> c.a == a && b <= c.b && IsLine(nodes, c)
    ensures forall i, j :: 0 <= i < j < |r| ==> r[i].b < r[j].b
    ensures forall i :: 0 <= i < |r| ==> r[i].a == a && b <= r[i].b
    decreases |nodes| - b
  {
    if b >= |nodes| then []
    else
      var rest := RowFrom(nodes, a, b + 1);
      var here := if a < b && Linked(nodes[a], nodes[b]) then [Connection(a, b, Opacity(nodes[a], nodes[b]))] else [];
      assert forall c :: c in here <==> c.a == a && c.b == b && IsLine(nodes, c);
      assert forall i :: 0 <= i < |rest| ==> rest[i] in rest;
      here + rest
  }

  /** The outer `forEach` from index `a` on. */
  function ConnectionsFrom(nodes: seq<SkillNode>, a: nat): (r: seq<Connection>)
    ensures forall c :: c in r <==> a <= c.a && IsLine(nodes, c)
    ensures forall i :: 0 <= i < |r| ==> a <= r[i].a
    ensures forall i, j :: 0 <= i < j < |r| ==> r[i].a < r[j].a || (r[i].a == r[j].a && r[i].b < r[j].b)
    decreases |nodes| - a
  {
    if a >= |nodes| then []
    else
      var row := RowFrom(nodes, a, 0);
      var rest := ConnectionsFrom(nodes, a + 1);
      assert forall i :: 0 <= i < |row| ==> row[i] in row;
      assert forall i :: 0 <= i < |rest| ==> rest[i] in rest;
      row + rest
  }

  /**
   * `drawConnections`: each unordered pair of nodes is looked at once, as
   * `indexA < indexB`, and gets a line exactly when the skills are related or
   * share a category; the line is stronger (0.6) within a category, else 0.3.
   * Lines come out in `(indexA, indexB)` order, so no pair is drawn twice.
   */
  function Connections(nodes: seq<SkillNode>): (r: seq<Connection>)
    ensures forall c :: c in r <==> IsLine(nodes, c)
    ensures forall i, j :: 0 <= i < j < |r| ==> (r[i].a, r[i].b) != (r[j].a, r[j].b)
  {
    ConnectionsFrom(nodes, 0)
  }

  /** Every linked pair appears, with its opacity. */
  lemma EveryLinkedPairDrawn(nodes: seq<SkillNode>, a: nat, b: nat)
    requires a < b < |nodes| && Linked(nodes[a], nodes[b])
    ensures Connection(a, b, Opacity(nodes[a], nodes[b])) in Connections(nodes)
  {
  }
}
