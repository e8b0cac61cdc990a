/**
 * The helpers of the application configuration: `formatDuration` (with the
 * `parseInt` it relies on), `deepMerge` over JSON trees, and `validateEmail`.
 */
module ConfigUtils {
  import opened JsText
  import opened Json
  import opened ResumeText

  // --------------------------------------------------------------- parseInt

  predicate IsHexDigit(c: char) {
    IsDigit(c) || 'a' <= c <= 'f' || 'A' <= c <= 'F'
  }

  function HexDigitValue(c: char): (d: nat)
    requires IsHexDigit(c)
    ensures d < 16
  {
    if IsDigit(c) then DigitValue(c)
    else if 'a' <= c <= 'f' then c as int - 'a' as int + 10
    else c as int - 'A' as int + 10
  }

  predicate AllHexDigits(s: string) {
    forall i :: 0 <= i < |s| ==> IsHexDigit(s[i])
  }

  function HexValue(s: string): nat
    requires AllHexDigits(s)
  {
    if |s| == 0 then 0 else HexValue(s[..|s| - 1]) * 16 + HexDigitValue(s[|s| - 1])
  }

  /** The length of the run of hexadecimal digits at the front of `s`. */
  function HexRun(s: string): (n: nat)
    ensures n <= |s| && AllHexDigits(s[..n])
    ensures n < |s| ==> !IsHexDigit(s[n])
    decreases |s|
  {
    if |s| > 0 && IsHexDigit(s[0]) then
      var m := HexRun(s[1..]);
      assert s[..1 + m] == [s[0]] + s[1..][..m];
      1 + m
    else 0
  }

  predicate HexPrefix(s: string) {
    |s| >= 2 && s[0] == '0' && (s[1] == 'x' || s[1] == 'X')
  }

  /**
   * The digits after the sign: a `0x`/`0X` prefix switches to base 16; then
   * the longest run of digits is read, and no digit at all is NaN (`None`).
   */
  function Magnitude(body: string): (r: Option<nat>)
    ensures !HexPrefix(body) ==> (r.None? <==> DigitRun(body) == 0)
    ensures !HexPrefix(body) && r.Some? ==> r.value == DecimalValue(body[..DigitRun(body)])
  {
    if HexPrefix(body) then
      var n := HexRun(body[2..]);
      if n == 0 then None else Some(HexValue(body[2..][..n]))
    else
      var n := DigitRun(body);
      if n == 0 then None else Some(DecimalValue(body[..n]))
  }

  /** `parseInt(s)` without a radix: leading white space skipped, then an optional sign. */
  function ParseInt(s: string): (r: Option<int>)
    ensures TrimStart(s) == "" ==> r.None?
  {
    var t := TrimStart(s);
    var negative := |t| > 0 && t[0] == '-';
    var body := if |t| > 0 && (t[0] == '-' || t[0] == '+') then t[1..] else t;
    match Magnitude(body)
    case None => None
    case Some(m) =>
      var v: int := if negative then -(m as int) else m as int;
      Some(v)
  }

  /** A digit string with no hexadecimal prefix, followed by a non-digit, is read up to that character. */
  lemma ParseIntPrefix(d: string, rest: string)
    requires |d| > 0 && AllDigits(d) && (|rest| == 0 || !IsDigit(rest[0]))
    requires !HexPrefix(d + rest)
    ensures ParseInt(d + rest) == Some(DecimalValue(d))
  {
    var s := d + rest;
    assert IsDigit(s[0]);
    DigitsMagnitude(d, rest);
    ParseUnsigned(s);
  }

  /** Without leading white space or a sign, `parseInt` reads the magnitude. */
  lemma ParseUnsigned(s: string)
    requires |s| > 0 && IsDigit(s[0])
    ensures Magnitude(s).None? ==> ParseInt(s).None?
    ensures Magnitude(s).Some? ==> ParseInt(s) == Some(Magnitude(s).value)
  {
    assert !IsSpace(s[0]);
    assert TrimStart(s) == s;
  }

  lemma DigitsMagnitude(d: string, rest: string)
    requires |d| > 0 && AllDigits(d) && (|rest| == 0 || !IsDigit(rest[0]))
    requires !HexPrefix(d + rest)
    ensures Magnitude(d + rest) == Some(DecimalValue(d))
  {
    DigitRunOf(d, rest);
    assert (d + rest)[..|d|] == d;
  }

  /** `parseInt` reads back what `String(n)` writes for a natural number. */
  lemma ParseDecimal(n: nat)
    ensures ParseInt(Decimal(n)) == Some(n)
  {
    var d := Decimal(n);
    assert !HexPrefix(d) by {
      assert |d| >= 2 ==> IsDigit(d[1]);
    }
    assert d + "" == d;
    ParseIntPrefix(d, "");
  }

  // ---------------------------------------------------------- formatDuration

  function YearsText(years: Option<int>): string {
    match years
    case None => "NaN"
    case Some(y) => IntText(y)
  }

  /** `year` for exactly 1 (NaN included among the plurals). */
  function YearWord(years: Option<int>): (r: string)
    ensures r == "year" <==> years == Some(1)
    ensures r == "year" || r == "years"
  {
    if years == Some(1) then "year" else "years"
  }

  /** The year count: the current year (or the end year) minus the start year, NaN if either is unreadable. */
  function DurationYears(start: string, endText: string, currentYear: int): Option<int>
  {
    match ParseInt(start)
    case None => None
    case Some(a) =>
      if endText == "Present" then Some(currentYear - a)
      else match ParseInt(endText)
        case None => None
        case Some(b) => Some(b - a)
  }

  /** `formatDuration(start, end = 'Present')`; an `end` of `undefined` (`None`) takes the default. */
  function FormatDuration(start: string, end: Option<string>, currentYear: int): (r: string)
    ensures var front := start + " - " + EndText(end) + " (";
      |front| < |r| && r[..|front|] == front
    ensures ParseInt(start).None? ==> r == start + " - " + EndText(end) + " (NaN years)"
  {
    var endText := EndText(end);
    var years := DurationYears(start, endText, currentYear);
    RenderedFront(start, endText, years);
    UnreadableStartNaN(start, endText, currentYear);
    Rendered(start, endText, years)
  }

  function EndText(end: Option<string>): string {
    match end
    case None => "Present"
    case Some(e) => e
  }

  /** The template `${start} - ${end} (${years} year${years !== 1 ? 's' : ''})`. */
  function Rendered(start: string, endText: string, years: Option<int>): string {
    start + " - " + endText + " (" + YearsText(years) + " " + YearWord(years) + ")"
  }

  /** The rendered text opens with the start, the separator, the end and ` (`. */
  lemma RenderedFront(start: string, endText: string, years: Option<int>)
    ensures var front := start + " - " + endText + " (";
      var r := Rendered(start, endText, years);
      |front| < |r| && r[..|front|] == front
  {
    var front := start + " - " + endText + " (";
    var back := YearsText(years) + " " + YearWord(years) + ")";
    assert Rendered(start, endText, years) == front + back;
    PrefixOfConcat(front, back);
  }

  lemma UnreadableStartNaN(start: string, endText: string, currentYear: int)
    ensures ParseInt(start).None? ==>
      Rendered(start, endText, DurationYears(start, endText, currentYear)) == start + " - " + endText + " (NaN years)"
  {
    if ParseInt(start).None? {
      assert DurationYears(start, endText, currentYear) == None;
      RenderedNaN(start, endText);
    }
  }

  lemma PrefixOfConcat(a: string, b: string)
    ensures (a + b)[..|a|] == a
  {
  }

  lemma RenderedCount(start: string, endText: string, n: int)
    ensures Rendered(start, endText, Some(n)) ==
      start + " - " + endText + " (" + IntText(n) + (if n == 1 then " year)" else " years)")
  {
  }

  /** Two readable years give their difference, singular exactly for a one-year span. */
  lemma ClosedDuration(start: string, end: string, currentYear: int)
    requires ParseInt(start).Some? && ParseInt(end).Some? && end != "Present"
    ensures var n := ParseInt(end).value - ParseInt(start).value;
      FormatDuration(start, Some(end), currentYear) ==
      start + " - " + end + " (" + IntText(n) + (if n == 1 then " year)" else " years)")
  {
    ClosedSpan(start, end, ParseInt(start).value, ParseInt(end).value, currentYear);
  }

  lemma ClosedSpan(start: string, end: string, a: int, b: int, currentYear: int)
    requires ParseInt(start) == Some(a) && ParseInt(end) == Some(b) && end != "Present"
    ensures FormatDuration(start, Some(end), currentYear) ==
      start + " - " + end + " (" + IntText(b - a) + (if b - a == 1 then " year)" else " years)")
  {
    assert EndText(Some(end)) == end;
    assert DurationYears(start, end, currentYear) == Some(b - a);
    RenderedCount(start, end, b - a);
  }

  /** Without an end, or with `Present`, the span runs to the current year. */
  lemma OpenDuration(start: string, currentYear: int)
    requires ParseInt(start).Some?
    ensures FormatDuration(start, None, currentYear) == FormatDuration(start, Some("Present"), currentYear)
    ensures var n := currentYear - ParseInt(start).value;
      FormatDuration(start, None, currentYear) ==
      start + " - " + "Present" + " (" + IntText(n) + (if n == 1 then " year)" else " years)")
  {
    var n := currentYear - ParseInt(start).value;
    assert DurationYears(start, "Present", currentYear) == Some(n);
    RenderedCount(start, "Present", n);
  }

  /** Years written out in digits: `formatDuration(2019, 2023)` spans 4 years. */
  lemma WrittenYears(a: nat, b: nat, currentYear: int)
    ensures FormatDuration(Decimal(a), Some(Decimal(b)), currentYear) ==
      Decimal(a) + " - " + Decimal(b) + " (" + IntText(b - a) + (if b - a == 1 then " year)" else " years)")
  {
    ParseDecimal(a);
    ParseDecimal(b);
    DecimalIsNotPresent(b);
    ClosedSpan(Decimal(a), Decimal(b), a, b, currentYear);
  }

  lemma DecimalIsNotPresent(n: nat)
    ensures Decimal(n) != "Present"
  {
    assert IsDigit(Decimal(n)[0]);
  }

  lemma RenderedNaN(start: string, endText: string)
    ensures Rendered(start, endText, None) == start + " - " + endText + " (NaN years)"
  {
  }

  /** An unreadable start year prints as `NaN years`. */
  lemma UnreadableStart(start: string, end: Option<string>, currentYear: int)
    requires ParseInt(start).None?
    ensures FormatDuration(start, end, currentYear) == start + " - " + EndText(end) + " (NaN years)"
  {
    assert DurationYears(start, EndText(end), currentYear) == None;
    RenderedNaN(start, EndText(end));
  }

  /** A readable start with an unreadable end other than `Present` prints as `NaN years` too. */
  lemma UnreadableEnd(start: string, end: string, currentYear: int)
    requires ParseInt(start).Some? && end != "Present" && ParseInt(end).None?
    ensures FormatDuration(start, Some(end), currentYear) == start + " - " + end + " (NaN years)"
  {
    assert DurationYears(start, end, currentYear) == None;
    RenderedNaN(start, end);
  }

  // --------------------------------------------------------------- deepMerge

  /**
   * JSON trees as parsed: object keys are unique and none is `__proto__`
   * (assigning that key would replace an object's prototype instead of
   * storing a value).
   */
  predicate WellFormed(v: Json) {
    match v
    case JObj(fields) =>
      && UniqueKeys(fields)
      && (forall i :: 0 <= i < |fields| ==> fields[i].key != "__proto__")
      && (forall i :: 0 <= i < |fields| ==> WellFormed(fields[i].value))
    case JArr(items) => forall i :: 0 <= i < |items| ==> WellFormed(items[i])
    case _ => true
  }

  /** `Object.assign({}, v)`: the own enumerable properties of `v`, as fields of a new object. */
  function Copy(v: Json): (r: seq<Field>)
    ensures v.JObj? ==> r == v.fields
    ensures !v.JObj? && !v.JArr? && !v.JStr? ==> r == []
  {
    match v
    case JObj(fields) => fields
    case JArr(items) => seq(|items|, i requires 0 <= i < |items| => Field(Decimal(i), items[i]))
    case JStr(s) => seq(|s|, i requires 0 <= i < |s| => Field(Decimal(i), JStr([s[i]])))
    case _ => []
  }

  /** The names of `Array.prototype`'s properties (ES2023), which `in` finds on every array. */
  predicate IsArrayMember(name: string) {
    name in {"length", "constructor", "at", "concat", "copyWithin", "entries", "every", "fill",
             "filter", "find", "findIndex", "findLast", "findLastIndex", "flat", "flatMap",
             "forEach", "includes", "indexOf", "join", "keys", "lastIndexOf", "map", "pop",
             "push", "reduce", "reduceRight", "reverse", "shift", "slice", "some", "sort",
             "splice", "toLocaleString", "toReversed", "toSorted", "toSpliced", "toString",
             "unshift", "values", "with"}
  }

  /** `key in target` for a target whose `typeof` is `'object'`; `in null` throws. */
  function HasProperty(target: Json, key: string): (r: Result<bool, string>)
    ensures r.Err? <==> target.JNull?
    ensures target.JObj? ==> r == Ok(key in Keys(target.fields) || IsInheritedMember(key))
  {
    match target
    case JNull => Err("TypeError: Cannot use 'in' operator to search for '" + key + "' in null")
    case JObj(fields) => Ok(key in Keys(fields) || IsInheritedMember(key))
    case JArr(items) =>
      Ok((ArrayIndex(key).Some? && ArrayIndex(key).value < |items|) || IsArrayMember(key) || IsInheritedMember(key))
    case _ => Ok(false)
  }

  /** The value `target[key]`: an own value, an array's `length`, or an inherited method. */
  datatype Prop = Own(value: Json) | Method

  function Get(target: Json, key: string): (p: Prop)
    ensures WellFormed(target) && p.Own? ==> WellFormed(p.value)
    ensures target.JObj? && key in Keys(target.fields) ==> p == Own(Lookup(target.fields, key).value)
  {
    match target
    case JObj(fields) =>
      (match Lookup(fields, key)
       case Some(v) =>
         assert WellFormed(target) ==> WellFormed(v) by {
           if WellFormed(target) {
             var i :| 0 <= i < |fields| && fields[i] == Field(key, v);
           }
         }
         Own(v)
       case None => Method)
    case JArr(items) =>
      (match ArrayIndex(key)
       case Some(n) => if n < |items| then Own(items[n]) else if key == "length" then Own(JNum(|items|)) else Method
       case None => if key == "length" then Own(JNum(|items|)) else Method)
    case _ => Method
  }

  /** `Object.keys(source)` of an object or an array, in order. */
  function EntryKeys(source: Json): (ks: seq<string>)
    requires source.JObj? || source.JArr?
    ensures |ks| == if source.JObj? then |source.fields| else |source.items|
  {
    match source
    case JObj(fields) => Keys(fields)
    case JArr(items) => seq(|items|, i requires 0 <= i < |items| => Decimal(i))
  }

  lemma DecimalInjective(i: nat, j: nat)
    requires Decimal(i) == Decimal(j)
    ensures i == j
  {
    assert DecimalValue(Decimal(i)) == i && DecimalValue(Decimal(j)) == j;
  }

  predicate UniqueEntries(ks: seq<string>) {
    forall i, j :: 0 <= i < j < |ks| ==> ks[i] != ks[j]
  }

  lemma EntryKeysUnique(source: Json)
    requires (source.JObj? || source.JArr?) && WellFormed(source)
    ensures UniqueEntries(EntryKeys(source))
  {
    if source.JArr? {
      forall i, j | 0 <= i < j < |source.items| ensures EntryKeys(source)[i] != EntryKeys(source)[j] {
        if Decimal(i) == Decimal(j) {
          DecimalInjective(i, j);
        }
      }
    }
  }

  /** `output[key] = value` on an object: the value of an existing key is replaced in place, a new key goes last. */
  function Put(fs: seq<Field>, key: string, value: Json): (r: seq<Field>)
    ensures |r| == |fs| || r == fs + [Field(key, value)]
  {
    if |fs| == 0 then [Field(key, value)]
    else if fs[0].key == key then [Field(key, value)] + fs[1..]
    else [fs[0]] + Put(fs[1..], key, value)
  }

  /** Storing keeps the keys already there, in order, and adds the key at the end when it is new. */
  lemma {:induction false} PutKeys(fs: seq<Field>, key: string, value: Json)
    ensures key in Keys(fs) ==> Keys(Put(fs, key, value)) == Keys(fs)
    ensures key !in Keys(fs) ==> Put(fs, key, value) == fs + [Field(key, value)]
    ensures Keys(fs) <= Keys(Put(fs, key, value))
  {
    if |fs| > 0 {
      PutKeys(fs[1..], key, value);
      KeysCons(fs[0], fs[1..]);
      if fs[0].key == key {
        KeysCons(Field(key, value), fs[1..]);
      } else {
        KeysCons(fs[0], Put(fs[1..], key, value));
        assert [fs[0]] + (fs[1..] + [Field(key, value)]) == fs + [Field(key, value)];
      }
    }
  }

  /** After storing, the key holds the value and every other key what it held before. */
  lemma {:induction false} PutLookup(fs: seq<Field>, key: string, value: Json, k: string)
    ensures Lookup(Put(fs, key, value), k) == if k == key then Some(value) else Lookup(fs, k)
  {
    if |fs| > 0 {
      LookupCons(fs[0], fs[1..]);
      if fs[0].key == key {
        LookupCons(Field(key, value), fs[1..]);
      } else {
        PutLookup(fs[1..], key, value, k);
        LookupCons(fs[0], Put(fs[1..], key, value));
      }
    }
  }

  lemma KeysCons(f: Field, fs: seq<Field>)
    ensures Keys([f] + fs) == [f.key] + Keys(fs)
  {
  }

  lemma LookupCons(f: Field, fs: seq<Field>)
    ensures forall k :: Lookup([f] + fs, k) == if f.key == k then Some(f.value) else Lookup(fs, k)
  {
    assert ([f] + fs)[0] == f && ([f] + fs)[1..] == fs;
  }

  /**
   * What `deepMerge` stores under `key` for the source value `v`: a non-array
   * object (or `null`) is merged into `target[key]` when `key in target`, and
   * copied as it is otherwise; anything else is copied as it is.
   */
  function StoreValue(target: Json, key: string, v: Json): (r: Result<Json, string>)
    requires WellFormed(target) && WellFormed(v)
    ensures !(v.JObj? || v.JNull?) ==> r == Ok(v)
    ensures (v.JObj? || v.JNull?) && target.JNull? ==> r.Err?
    decreases v, 4
  {
    if v.JObj? || v.JNull? then
      match HasProperty(target, key)
      case Err(e) => Err(e)
      case Ok(found) =>
        if !found then Ok(v)
        else match Get(target, key)
          case Own(t) => DeepMerge(t, v)
          case Method => Ok(JObj([]))
    else Ok(v)
  }

  /**
   * The object cases of a store: copied for a key not `in` the target, merged
   * into the target's own value, and `{}` over an inherited method.
   */
  lemma StoreValueCases(target: Json, key: string, v: Json)
    requires WellFormed(target) && WellFormed(v) && (v.JObj? || v.JNull?)
    ensures HasProperty(target, key) == Ok(false) ==> StoreValue(target, key, v) == Ok(v)
    ensures HasProperty(target, key) == Ok(true) && Get(target, key).Own? ==>
      StoreValue(target, key, v) == DeepMerge(Get(target, key).value, v)
    ensures HasProperty(target, key) == Ok(true) && Get(target, key).Method? ==>
      StoreValue(target, key, v) == Ok(JObj([]))
  {
  }

  /** The `j`-th value of `source`, in `Object.keys` order. */
  function EntryValue(source: Json, j: nat): Json
    requires (source.JObj? && j < |source.fields|) || (source.JArr? && j < |source.items|)
  {
    if source.JObj? then source.fields[j].value else source.items[j]
  }

  /** The value stored for the `j`-th key of `source`. */
  function EntryResult(target: Json, source: Json, j: nat): Result<Json, string>
    requires WellFormed(target) && WellFormed(source)
    requires (source.JObj? && j < |source.fields|) || (source.JArr? && j < |source.items|)
    decreases source, 1
  {
    if source.JObj? then StoreValue(target, source.fields[j].key, source.fields[j].value)
    else StoreValue(target, Decimal(j), source.items[j])
  }

  /** A source key with the value, or the error, computed for it. */
  datatype Stored = Stored(key: string, value: Result<Json, string>)

  /** Every key of `source`, in `Object.keys` order, with what is stored for it. */
  function Entries(target: Json, source: Json): (es: seq<Stored>)
    requires WellFormed(target) && WellFormed(source) && (source.JObj? || source.JArr?)
    ensures |es| == |EntryKeys(source)|
    ensures forall j :: 0 <= j < |es| ==> es[j] == Stored(EntryKeys(source)[j], EntryResult(target, source, j))
    decreases source, 2
  {
    var ks := EntryKeys(source);
    seq(|ks|, j requires 0 <= j < |ks| => Stored(ks[j], EntryResult(target, source, j)))
  }

  /** The `forEach` over the keys: each value is stored in turn, and the first error stops the loop. */
  function StoreAll(output: seq<Field>, es: seq<Stored>): Result<seq<Field>, string>
    decreases |es|
  {
    if |es| == 0 then Ok(output)
    else match es[0].value
      case Err(e) => Err(e)
      case Ok(v) => StoreAll(Put(output, es[0].key, v), es[1..])
  }

  /**
   * `deepMerge(target, source)`: a copy of `target`; when both are of type
   * `'object'`, every key of `source` is stored in turn. `Object.keys(null)`
   * and `key in null` throw, which is the error result.
   */
  function DeepMerge(target: Json, source: Json): (r: Result<Json, string>)
    requires WellFormed(target) && WellFormed(source)
    ensures r.Ok? ==> r.value.JObj?
    ensures !IsObjectType(target) || !IsObjectType(source) ==> r == Ok(JObj(Copy(target)))
    ensures IsObjectType(target) && source.JNull? ==> r.Err?
    decreases source, 3
  {
    var output := Copy(target);
    if !IsObjectType(target) || !IsObjectType(source) then Ok(JObj(output))
    else if source.JNull? then Err("TypeError: Cannot convert undefined or null to object")
    else match StoreAll(output, Entries(target, source))
      case Ok(fs) => Ok(JObj(fs))
      case Err(e) => Err(e)
  }

  /** Some entry holds an error. */
  predicate SomeFailure(es: seq<Stored>) {
    exists j :: 0 <= j < |es| && es[j].value.Err?
  }

  /** The loop fails exactly when some entry does. */
  lemma {:induction false} StoreAllFails(output: seq<Field>, es: seq<Stored>)
    ensures StoreAll(output, es).Err? <==> SomeFailure(es)
    decreases |es|
  {
    if |es| > 0 && es[0].value.Ok? {
      StoreAllFails(Put(output, es[0].key, es[0].value.value), es[1..]);
      if SomeFailure(es) {
        var j :| 0 <= j < |es| && es[j].value.Err?;
        assert es[1..][j - 1] == es[j];
      }
      if SomeFailure(es[1..]) {
        var j :| 0 <= j < |es| - 1 && es[1..][j].value.Err?;
        assert es[j + 1] == es[1..][j];
      }
    }
  }

  /** The loop only adds keys, after those of `output`. */
  lemma {:induction false} StoreAllExtends(output: seq<Field>, es: seq<Stored>)
    ensures StoreAll(output, es).Ok? ==> Keys(output) <= Keys(StoreAll(output, es).value)
    decreases |es|
  {
    if |es| > 0 && es[0].value.Ok? {
      StoreAllExtends(Put(output, es[0].key, es[0].value.value), es[1..]);
      PutKeys(output, es[0].key, es[0].value.value);
    }
  }

  /** No entry is for the key `k`. */
  predicate Unnamed(es: seq<Stored>, k: string) {
    forall j :: 0 <= j < |es| ==> es[j].key != k
  }

  /** A key no entry names keeps its value. */
  lemma {:induction false} StoreAllKeeps(output: seq<Field>, es: seq<Stored>, k: string)
    requires Unnamed(es, k)
    ensures StoreAll(output, es).Ok? ==> Lookup(StoreAll(output, es).value, k) == Lookup(output, k)
    decreases |es|
  {
    if |es| > 0 && es[0].value.Ok? {
      assert Unnamed(es[1..], k) by {
        forall j | 0 <= j < |es| - 1 ensures es[1..][j].key != k {
          assert es[1..][j] == es[j + 1];
        }
      }
      StoreAllKeeps(Put(output, es[0].key, es[0].value.value), es[1..], k);
      PutLookup(output, es[0].key, es[0].value.value, k);
    }
  }

  /** No two entries are for the same key. */
  predicate DistinctKeys(es: seq<Stored>) {
    forall i, j :: 0 <= i < j < |es| ==> es[i].key != es[j].key
  }

  /** Every entry's key ends up holding the entry's value. */
  lemma {:induction false} StoreAllStores(output: seq<Field>, es: seq<Stored>, j: nat)
    requires DistinctKeys(es) && j < |es|
    ensures StoreAll(output, es).Ok? ==>
      es[j].value.Ok? && Lookup(StoreAll(output, es).value, es[j].key) == Some(es[j].value.value)
    decreases |es|
  {
    if es[0].value.Ok? {
      var next := Put(output, es[0].key, es[0].value.value);
      if j == 0 {
        assert Unnamed(es[1..], es[0].key) by {
          forall m | 0 <= m < |es| - 1 ensures es[1..][m].key != es[0].key {
            assert es[1..][m] == es[m + 1];
          }
        }
        StoreAllKeeps(next, es[1..], es[0].key);
        PutLookup(output, es[0].key, es[0].value.value, es[0].key);
      } else {
        assert DistinctKeys(es[1..]) by {
          forall a, b | 0 <= a < b < |es| - 1 ensures es[1..][a].key != es[1..][b].key {
            assert es[1..][a] == es[a + 1] && es[1..][b] == es[b + 1];
          }
        }
        StoreAllStores(next, es[1..], j - 1);
        assert es[1..][j - 1] == es[j];
      }
    }
  }

  /** Some key of the source stores an error. */
  predicate KeyFails(target: Json, source: Json)
    requires WellFormed(target) && WellFormed(source) && (source.JObj? || source.JArr?)
  {
    exists j :: 0 <= j < |EntryKeys(source)| && EntryResult(target, source, j).Err?
  }

  /** Both of type `'object'` with a non-null source: the merge fails exactly when some key's value does. */
  lemma DeepMergeFails(target: Json, source: Json)
    requires WellFormed(target) && WellFormed(source)
    requires IsObjectType(target) && (source.JObj? || source.JArr?)
    ensures DeepMerge(target, source).Err? <==> KeyFails(target, source)
  {
    StoreAllFails(Copy(target), Entries(target, source));
    EntriesFail(target, source);
  }

  lemma EntriesFail(target: Json, source: Json)
    requires WellFormed(target) && WellFormed(source) && (source.JObj? || source.JArr?)
    ensures SomeFailure(Entries(target, source)) <==> KeyFails(target, source)
  {
    var es := Entries(target, source);
    if KeyFails(target, source) {
      var j :| 0 <= j < |EntryKeys(source)| && EntryResult(target, source, j).Err?;
      assert es[j].value.Err?;
    }
    if SomeFailure(es) {
      var j :| 0 <= j < |es| && es[j].value.Err?;
      assert EntryResult(target, source, j).Err?;
    }
  }

  /**
   * The result starts with the keys of the copied target, in order, and a key
   * the source does not name keeps the target's value.
   */
  lemma DeepMergeKeepsTarget(target: Json, source: Json, k: string)
    requires WellFormed(target) && WellFormed(source) && DeepMerge(target, source).Ok?
    ensures Keys(Copy(target)) <= Keys(DeepMerge(target, source).value.fields)
    ensures (source.JObj? || source.JArr?) && k !in EntryKeys(source) ==>
      Lookup(DeepMerge(target, source).value.fields, k) == Lookup(Copy(target), k)
  {
    if IsObjectType(target) && (source.JObj? || source.JArr?) {
      var es := Entries(target, source);
      StoreAllExtends(Copy(target), es);
      if k !in EntryKeys(source) {
        assert Unnamed(es, k) by {
          forall j | 0 <= j < |es| ensures es[j].key != k {
            assert es[j].key == EntryKeys(source)[j];
          }
        }
        StoreAllKeeps(Copy(target), es, k);
      }
    }
  }

  /** Every key of the source holds the value stored for it: copied, or merged into the target's value. */
  lemma DeepMergeStores(target: Json, source: Json, j: nat)
    requires WellFormed(target) && WellFormed(source) && DeepMerge(target, source).Ok?
    requires IsObjectType(target) && (source.JObj? || source.JArr?) && j < |EntryKeys(source)|
    ensures EntryResult(target, source, j).Ok?
    ensures Lookup(DeepMerge(target, source).value.fields, EntryKeys(source)[j]) == Some(EntryResult(target, source, j).value)
    ensures var key, v := EntryKeys(source)[j], EntryValue(source, j);
      !(v.JObj? || v.JNull?) || HasProperty(target, key) == Ok(false) ==>
        Lookup(DeepMerge(target, source).value.fields, key) == Some(v)
    ensures var key, v := EntryKeys(source)[j], EntryValue(source, j);
      (v.JObj? || v.JNull?) && HasProperty(target, key) == Ok(true) && Get(target, key).Own? ==>
        DeepMerge(Get(target, key).value, v).Ok? &&
        Lookup(DeepMerge(target, source).value.fields, key) == Some(DeepMerge(Get(target, key).value, v).value)
  {
    assert EntryResult(target, source, j) == StoreValue(target, EntryKeys(source)[j], EntryValue(source, j));
    if EntryValue(source, j).JObj? || EntryValue(source, j).JNull? {
      StoreValueCases(target, EntryKeys(source)[j], EntryValue(source, j));
    }
    var es := Entries(target, source);
    EntryKeysUnique(source);
    assert DistinctKeys(es) by {
      forall a, b | 0 <= a < b < |es| ensures es[a].key != es[b].key {
        assert es[a].key == EntryKeys(source)[a] && es[b].key == EntryKeys(source)[b];
      }
    }
    StoreAllStores(Copy(target), es, j);
  }

  /** A tree with no `null` anywhere in it. */
  predicate NullFree(v: Json) {
    match v
    case JNull => false
    case JObj(fields) => forall i :: 0 <= i < |fields| ==> NullFree(fields[i].value)
    case JArr(items) => forall i :: 0 <= i < |items| ==> NullFree(items[i])
    case _ => true
  }

  lemma GetNullFree(target: Json, key: string)
    requires NullFree(target)
    ensures Get(target, key).Own? ==> NullFree(Get(target, key).value)
  {
    if target.JObj? && Lookup(target.fields, key).Some? {
      var v := Lookup(target.fields, key).value;
      var i :| 0 <= i < |target.fields| && target.fields[i] == Field(key, v);
    }
  }

  /** Merging two trees without `null` never throws. */
  lemma {:induction false} NullFreeMerges(target: Json, source: Json)
    requires WellFormed(target) && WellFormed(source) && NullFree(target) && NullFree(source)
    ensures DeepMerge(target, source).Ok?
    decreases source, 3
  {
    if IsObjectType(target) && IsObjectType(source) {
      var es := Entries(target, source);
      forall j | 0 <= j < |es| ensures es[j].value.Ok? {
        NullFreeEntry(target, source, j);
      }
      StoreAllFails(Copy(target), es);
    }
  }

  lemma {:induction false} NullFreeEntry(target: Json, source: Json, j: nat)
    requires WellFormed(target) && WellFormed(source) && NullFree(target) && NullFree(source)
    requires (source.JObj? && j < |source.fields|) || (source.JArr? && j < |source.items|)
    ensures EntryResult(target, source, j).Ok?
    decreases source, 1
  {
    if source.JObj? {
      NullFreeStore(target, source.fields[j].key, source.fields[j].value);
    } else {
      NullFreeStore(target, Decimal(j), source.items[j]);
    }
  }

  lemma {:induction false} NullFreeStore(target: Json, key: string, v: Json)
    requires WellFormed(target) && WellFormed(v) && NullFree(target) && NullFree(v)
    ensures StoreValue(target, key, v).Ok?
    decreases v, 4
  {
    if v.JObj? && HasProperty(target, key) == Ok(true) && Get(target, key).Own? {
      GetNullFree(target, key);
      NullFreeMerges(Get(target, key).value, v);
    }
  }

  /**
   * An object stored over a number loses its contents: the number is not of
   * type `'object'`, so merging into it yields an empty copy.
   */
  lemma ObjectOverScalar(n: int, inner: seq<Field>)
    requires WellFormed(JObj(inner))
    ensures DeepMerge(JObj([Field("a", JNum(n))]), JObj([Field("a", JObj(inner))]))
      == Ok(JObj([Field("a", JObj([]))]))
  {
    var target := JObj([Field("a", JNum(n))]);
    var source := JObj([Field("a", JObj(inner))]);
    assert Keys(target.fields) == ["a"];
    assert StoreValue(target, "a", JObj(inner)) == Ok(JObj([]));
    var es := Entries(target, source);
    assert es == [Stored("a", Ok(JObj([])))];
    var stored := Put(target.fields, "a", JObj([]));
    assert stored == [Field("a", JObj([]))];
    assert StoreAll(stored, es[1..]) == Ok(stored);
  }

  /**
   * A key every object inherits, such as `constructor`, counts as present, so
   * an object stored under it is merged into the inherited function and lost.
   */
  lemma InheritedKeyLosesObject(inner: seq<Field>)
    requires WellFormed(JObj(inner))
    ensures DeepMerge(JObj([]), JObj([Field("constructor", JObj(inner))]))
      == Ok(JObj([Field("constructor", JObj([]))]))
  {
    var source := JObj([Field("constructor", JObj(inner))]);
    assert IsInheritedMember("constructor");
    assert StoreValue(JObj([]), "constructor", JObj(inner)) == Ok(JObj([]));
    var es := Entries(JObj([]), source);
    assert es == [Stored("constructor", Ok(JObj([])))];
    var stored := Put([], "constructor", JObj([]));
    assert StoreAll(stored, es[1..]) == Ok(stored);
  }

  // ----------------------------------------------------------- validateEmail

  /** A character of the class `[^\s@]`. */
  predicate Plain(c: char) {
    !IsSpace(c) && c != '@'
  }

  predicate AllPlain(s: string) {
    forall i :: 0 <= i < |s| ==> Plain(s[i])
  }

  /**
   * What `/^[^\s@]+@[^\s@]+\.[^\s@]+$/` matches, with the `@` at `at` and the
   * dot the pattern's `\.` takes at `dot`: three non-empty runs of plain
   * characters around them.
   */
  predicate EmailShape(s: string, at: int, dot: int) {
    0 < at && at + 1 < dot && dot + 1 < |s| && s[at] == '@' && s[dot] == '.'
    && AllPlain(s[..at]) && AllPlain(s[at + 1..dot]) && AllPlain(s[dot + 1..])
  }

  /**
   * `validateEmail`: a non-empty local part before the first `@`, and after it
   * a domain of plain characters with a dot that is neither its first nor its
   * last character.
   */
  function ValidateEmail(s: string): (r: bool)
    ensures r ==> |s| >= 5 && IndexOf(s, "@", 0).Some? && IndexOf(s, "@", 0).value > 0
  {
    match IndexOf(s, "@", 0)
    case None => false
    case Some(at) =>
      var domain := s[at + 1..];
      0 < at && AllPlain(s[..at]) && AllPlain(domain) && |domain| >= 3 && '.' in domain[1..|domain| - 1]
  }

  /** `validateEmail` accepts exactly what the pattern matches. */
  lemma ValidateEmailMatches(s: string)
    ensures ValidateEmail(s) <==> exists at, dot :: EmailShape(s, at, dot)
  {
    if ValidateEmail(s) {
      var at := IndexOf(s, "@", 0).value;
      assert s[at..at + 1] == "@";
      var domain := s[at + 1..];
      var inner := domain[1..|domain| - 1];
      var k :| 0 <= k < |inner| && inner[k] == '.';
      var dot := at + 2 + k;
      assert s[dot] == '.';
      var host, tld := s[at + 1..dot], s[dot + 1..];
      assert AllPlain(host) by {
        forall i | 0 <= i < |host| ensures Plain(host[i]) {
          assert host[i] == domain[i];
        }
      }
      assert AllPlain(tld) by {
        forall i | 0 <= i < |tld| ensures Plain(tld[i]) {
          assert tld[i] == domain[i + k + 2];
        }
      }
      assert EmailShape(s, at, dot);
    }
    if exists at, dot :: EmailShape(s, at, dot) {
      var at, dot :| EmailShape(s, at, dot);
      ShapeValidates(s, at, dot);
    }
  }

  lemma ShapeValidates(s: string, at: int, dot: int)
    requires EmailShape(s, at, dot)
    ensures ValidateEmail(s)
  {
    assert OccursAt(s, "@", at);
    var first := IndexOf(s, "@", 0).value;
    assert s[first..first + 1] == "@";
    assert first == at by {
      assert forall j :: 0 <= j < at ==> s[..at][j] == s[j];
      assert !Plain(s[first]);
    }
    var domain := s[at + 1..];
    assert AllPlain(domain) by {
      forall i | 0 <= i < |domain| ensures Plain(domain[i]) {
        if i < dot - at - 1 {
          assert domain[i] == s[at + 1..dot][i];
        } else if i > dot - at - 1 {
          assert domain[i] == s[dot + 1..][i - (dot - at)];
        }
      }
    }
    assert domain[1..|domain| - 1][dot - at - 2] == '.';
  }

  /** The address the site lists passes. */
  lemma SiteAddressValid()
    ensures ValidateEmail("JatinderBhola@gmail.com")
  {
    var local, host, tld := "JatinderBhola", "gmail", "com";
    assert AllLetters(local) && AllLetters(host) && AllLetters(tld);
    LettersShape(local, host, tld);
    assert local + "@" + host + "." + tld == "JatinderBhola@gmail.com";
    ShapeValidates("JatinderBhola@gmail.com", 13, 19);
  }

  predicate AllLetters(s: string) {
    forall i :: 0 <= i < |s| ==> IsAsciiUpper(s[i]) || IsAsciiLower(s[i])
  }

  /** `local@host.tld` made of letters has the pattern's shape. */
  lemma LettersShape(local: string, host: string, tld: string)
    requires |local| > 0 && |host| > 0 && |tld| > 0
    requires AllLetters(local) && AllLetters(host) && AllLetters(tld)
    ensures EmailShape(local + "@" + host + "." + tld, |local|, |local| + 1 + |host|)
  {
    var s := local + "@" + host + "." + tld;
    var at, dot := |local|, |local| + 1 + |host|;
    assert s[..at] == local;
    assert s[at + 1..dot] == host;
    assert s[dot + 1..] == tld;
  }

  /** An address with a second `@` anywhere is refused. */
  lemma SecondAtRefused(s: string, i: nat, j: nat)
    requires i < j < |s| && s[i] == '@' && s[j] == '@'
    ensures !ValidateEmail(s)
  {
    assert OccursAt(s, "@", i);
    var r := IndexOf(s, "@", 0);
    if r.Some? {
      var first := r.value;
      assert s[first..first + 1] == "@";
      assert s[first + 1..][j - first - 1] == '@';
    }
  }

  /** A domain without an inner dot is refused. */
  lemma NoInnerDotRefused()
    ensures !ValidateEmail("a@b")
    ensures !ValidateEmail("a@b.")
    ensures !ValidateEmail("a@.b")
  {
  }
}
