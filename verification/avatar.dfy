/**
 * Avatar helpers of the SvelteKit site: initials, the DiceBear style choice
 * and the six-digit background colour.  The random colour value and
 * `encodeURIComponent` are parameters.
 */
module Avatar {
  import opened JsText

  /** `parts.map(part => part[0]).join('')`: an empty part has no first character and adds nothing. */
  function FirstChars(parts: seq<string>): (r: string)
    ensures |r| <= |parts|
  {
    if |parts| == 0 then ""
    else (if |parts[0]| > 0 then [parts[0][0]] else "") + FirstChars(parts[1..])
  }

  /** When no part is empty, character `k` is the first character of part `k`. */
  lemma {:induction false} FirstCharsOfWords(parts: seq<string>)
    requires forall k :: 0 <= k < |parts| ==> |parts[k]| > 0
    ensures |FirstChars(parts)| == |parts|
    ensures forall k :: 0 <= k < |parts| ==> FirstChars(parts)[k] == parts[k][0]
    decreases |parts|
  {
    if |parts| > 0 {
      FirstCharsOfWords(parts[1..]);
      assert FirstChars(parts) == [parts[0][0]] + FirstChars(parts[1..]);
      forall k | 1 <= k < |parts| ensures FirstChars(parts)[k] == parts[k][0] {
        assert parts[1..][k - 1] == parts[k];
      }
    }
  }

  function Min(a: int, b: int): int {
    if a < b then a else b
  }

  /** `getInitials`: split on `' '`, first characters, upper-cased, at most two. */
  function Initials(name: string): (r: string)
    ensures |r| <= 2
    ensures forall i :: 0 <= i < |r| ==> !IsAsciiLower(r[i])
    ensures name == "" ==> r == ""
  {
    var up := ToUpper(FirstChars(Split(name, " ")));
    up[..Min(2, |up|)]
  }

  /**
   * The characters that begin a word: a non-space character at the start of
   * the name or right after a space.  This is defined without splitting.
   */
  function WordStarts(s: string, afterSpace: bool): string
    decreases |s|
  {
    if |s| == 0 then ""
    else (if afterSpace && s[0] != ' ' then [s[0]] else "") + WordStarts(s[1..], s[0] == ' ')
  }

  /** Inside a part with no space, only its first character can start a word. */
  lemma {:induction false} WordStartsOfPart(part: string, rest: string, afterSpace: bool)
    requires ' ' !in part
    ensures WordStarts(part + " " + rest, afterSpace)
         == (if afterSpace && |part| > 0 then [part[0]] else "") + WordStarts(rest, true)
    decreases |part|
  {
    var s := part + " " + rest;
    if |part| == 0 {
      assert s == [' '] + rest;
      assert s[1..] == rest;
    } else {
      assert s[0] == part[0];
      assert s[1..] == part[1..] + " " + rest;
      WordStartsOfPart(part[1..], rest, false);
      assert WordStarts(s[1..], false) == WordStarts(rest, true);
    }
  }

  lemma {:induction false} WordStartsNoSpace(part: string, afterSpace: bool)
    requires ' ' !in part
    ensures WordStarts(part, afterSpace) == (if afterSpace && |part| > 0 then [part[0]] else "")
    decreases |part|
  {
    if |part| > 0 {
      assert part[0] in part;
      WordStartsNoSpace(part[1..], false);
    }
  }

  lemma NoSpaceWhenNotContained(part: string)
    requires !Contains(part, " ")
    ensures ' ' !in part
  {
    forall i | 0 <= i < |part| ensures part[i] != ' ' {
      assert part[i..i + 1] == [part[i]];
      assert !OccursAt(part, " ", i);
    }
  }

  /** Splitting on `' '` and taking first characters picks exactly the word starts. */
  lemma {:induction false} FirstCharsAreWordStarts(s: string)
    ensures FirstChars(Split(s, " ")) == WordStarts(s, true)
    decreases |s|
  {
    match IndexOf(s, " ", 0)
    case None =>
      assert Split(s, " ") == [s];
      NoSpaceWhenNotContained(s);
      WordStartsNoSpace(s, true);
    case Some(i) =>
      var part := s[..i];
      var rest := s[i + 1..];
      NoOccurrenceBefore(s, " ", i);
      NoSpaceWhenNotContained(part);
      FirstCharsAreWordStarts(rest);
      var parts := [part] + Split(rest, " ");
      assert Split(s, " ") == parts;
      assert parts[1..] == Split(rest, " ");
      assert s[i..i + 1] == " ";
      assert s == part + " " + rest;
      WordStartsOfPart(part, rest, true);
  }

  /** The initials are the first two word starts of the name, upper-cased. */
  lemma InitialsAreWordStarts(name: string)
    ensures var w := ToUpper(WordStarts(name, true)); Initials(name) == w[..Min(2, |w|)]
  {
    FirstCharsAreWordStarts(name);
  }

  /** Leading, trailing and repeated spaces contribute nothing. */
  lemma ExtraSpacesIgnored(name: string)
    ensures Initials(" " + name + " ") == Initials(name)
    ensures Initials(name + "  ") == Initials(name)
  {
    PaddedWordStarts(name);
    InitialsAreWordStarts(" " + name + " ");
    InitialsAreWordStarts(name);
    InitialsAreWordStarts(name + "  ");
  }

  lemma PaddedWordStarts(name: string)
    ensures WordStarts(" " + name + " ", true) == WordStarts(name, true)
    ensures WordStarts(name + "  ", true) == WordStarts(name, true)
  {
    assert (" " + name + " ")[1..] == name + " ";
    WordStartsTrailingSpaces(name, " ", true);
    WordStartsTrailingSpaces(name, "  ", true);
  }

  lemma {:induction false} WordStartsTrailingSpaces(s: string, spaces: string, afterSpace: bool)
    requires forall i :: 0 <= i < |spaces| ==> spaces[i] == ' '
    ensures WordStarts(s + spaces, afterSpace) == WordStarts(s, afterSpace)
    decreases |s| + |spaces|
  {
    if |s| > 0 {
      assert (s + spaces)[1..] == s[1..] + spaces;
      WordStartsTrailingSpaces(s[1..], spaces, s[0] == ' ');
    } else if |spaces| > 0 {
      assert s + spaces == spaces;
      WordStartsTrailingSpaces(s, spaces[1..], true);
      assert spaces[1..] == s + spaces[1..];
    }
  }

  /** The DiceBear style: robots for managers, pixel art for everyone else. */
  function Style(title: string): (r: string)
    ensures r == "bottts" <==> Contains(ToLower(title), "manager")
    ensures r == "bottts" || r == "pixel-art"
  {
    if Contains(ToLower(title), "manager") then "bottts" else "pixel-art"
  }

  /** Lower-casing first makes the style test case-insensitive: an upper-cased title gets the same style. */
  lemma StyleIgnoresCase(title: string)
    ensures Style(ToUpper(title)) == Style(title)
  {
    assert ToLower(ToUpper(title)) == ToLower(title);
  }

  function HexDigit(d: nat): (c: char)
    requires d < 16
  {
    if d < 10 then DigitChar(d) else ('a' as int + d - 10) as char
  }

  predicate IsHexDigit(c: char) {
    IsDigit(c) || ('a' <= c <= 'f')
  }

  function HexDigitValue(c: char): (d: nat)
    requires IsHexDigit(c)
    ensures d < 16
  {
    if IsDigit(c) then DigitValue(c) else c as int - 'a' as int + 10
  }

  /** `n.toString(16)`: lower-case hexadecimal without leading zeros. */
  function Hex(n: nat): (r: string)
    ensures |r| >= 1
    ensures forall i :: 0 <= i < |r| ==> IsHexDigit(r[i])
    decreases n
  {
    if n < 16 then [HexDigit(n)] else Hex(n / 16) + [HexDigit(n % 16)]
  }

  /** The value of a string of hexadecimal digits. */
  function HexValue(s: string): nat
    requires forall i :: 0 <= i < |s| ==> IsHexDigit(s[i])
  {
    if |s| == 0 then 0 else HexValue(s[..|s| - 1]) * 16 + HexDigitValue(s[|s| - 1])
  }

  function Power16(k: nat): nat {
    if k == 0 then 1 else 16 * Power16(k - 1)
  }

  lemma {:induction false} HexRoundTrip(n: nat)
    ensures HexValue(Hex(n)) == n
    ensures |Hex(n)| <= 6 ==> n < Power16(|Hex(n)|)
    ensures n < Power16(6) ==> |Hex(n)| <= 6
    decreases n
  {
    if n >= 16 {
      var r := Hex(n);
      HexRoundTrip(n / 16);
      assert r[..|r| - 1] == Hex(n / 16);
      if n < Power16(6) {
        assert n / 16 < Power16(5);
        HexShort(n / 16);
      }
    }
  }

  lemma HexShort(n: nat)
    requires n < Power16(5)
    ensures |Hex(n)| <= 5
    decreases n
  {
    if n >= 16 {
      assert Power16(5) == 16 * Power16(4);
      HexShorter(n / 16, 4);
    }
  }

  lemma {:induction false} HexShorter(n: nat, k: nat)
    requires n < Power16(k)
    ensures |Hex(n)| <= if k == 0 then 1 else k
    decreases n
  {
    if n >= 16 {
      assert Power16(0) == 1;
      assert Power16(1) == 16;
      HexShorter(n / 16, k - 1);
    }
  }

  /** `s.padStart(width, '0')`. */
  function PadStart(s: string, width: nat): (r: string)
    ensures |r| == if |s| >= width then |s| else width
    ensures r[|r| - |s|..] == s
    ensures forall i :: 0 <= i < |r| - |s| ==> r[i] == '0'
  {
    if |s| >= width then s else seq(width - |s|, _ => '0') + s
  }

  /** Leading zeros do not change a hexadecimal value. */
  lemma {:induction false} HexValueLeadingZeros(z: string, s: string)
    requires forall i :: 0 <= i < |z| ==> z[i] == '0'
    requires forall i :: 0 <= i < |s| ==> IsHexDigit(s[i])
    ensures forall i :: 0 <= i < |z + s| ==> IsHexDigit((z + s)[i])
    ensures HexValue(z + s) == HexValue(s)
    decreases |s|
  {
    if |s| == 0 {
      assert z + s == z;
      HexValueZeros(z);
    } else {
      assert (z + s)[..|z + s| - 1] == z + s[..|s| - 1];
      HexValueLeadingZeros(z, s[..|s| - 1]);
    }
  }

  lemma {:induction false} HexValueZeros(z: string)
    requires forall i :: 0 <= i < |z| ==> z[i] == '0'
    ensures HexValue(z) == 0
    decreases |z|
  {
    if |z| > 0 {
      HexValueZeros(z[..|z| - 1]);
    }
  }

  /**
   * The background colour `getRandomColor` writes for a random draw `value`
   * (`Math.floor(Math.random() * 16777215)`): six hexadecimal digits that
   * read back as the value.
   */
  function BackgroundColor(value: nat): (r: string)
    requires value < 16777215
    ensures |r| == 6
    ensures forall i :: 0 <= i < 6 ==> IsHexDigit(r[i])
    ensures HexValue(r) == value
  {
    var h := Hex(value);
    assert Power16(6) == 16777216;
    HexRoundTrip(value);
    var r := PadStart(h, 6);
    assert r == r[..6 - |h|] + h;
    HexValueLeadingZeros(r[..6 - |h|], h);
    r
  }

  const DiceBearBase := "https://api.dicebear.com/7.x/"

  function DiceBearUrl(style: string, seed: string, color: string): (r: string)
    ensures var prefix := DiceBearBase + style + "/svg?seed=";
            |prefix| + |color| <= |r| && r[..|prefix|] == prefix && r[|r| - |color|..] == color
  {
    var prefix := DiceBearBase + style + "/svg?seed=";
    var tail := seed + "&backgroundColor=" + color;
    var r := DiceBearBase + style + "/svg?seed=" + seed + "&backgroundColor=" + color;
    assert r == prefix + tail;
    assert r[..|prefix|] == prefix;
    assert r[|r| - |color|..] == tail[|tail| - |color|..] == color;
    r
  }

  /** `getAvatarUrl`: the URL-encoded full name is the seed. */
  function AvatarUrl(name: string, title: string, colorValue: nat, encode: string -> string): (r: string)
    requires colorValue < 16777215
    ensures var prefix := DiceBearBase + Style(title) + "/svg?seed=";
            |prefix| <= |r| && r[..|prefix|] == prefix
    ensures r[|r| - 6..] == BackgroundColor(colorValue)
  {
    DiceBearUrl(Style(title), encode(name), BackgroundColor(colorValue))
  }

  /** `getAvatarFallback`: the initials, not the full name, are the seed. */
  function AvatarFallback(name: string, title: string, colorValue: nat): (r: string)
    requires colorValue < 16777215
    ensures var prefix := DiceBearBase + Style(title) + "/svg?seed=" + Initials(name) + "&backgroundColor=";
            r == prefix + BackgroundColor(colorValue)
  {
    DiceBearUrl(Style(title), Initials(name), BackgroundColor(colorValue))
  }

  /** Both builders pick the same style for the same title. */
  lemma BuildersAgreeOnStyle(name: string, title: string, c1: nat, c2: nat, encode: string -> string)
    requires c1 < 16777215 && c2 < 16777215
    ensures var prefix := DiceBearBase + Style(title) + "/svg?seed=";
            AvatarUrl(name, title, c1, encode)[..|prefix|] == prefix
            && AvatarFallback(name, title, c2)[..|prefix|] == prefix
  {
  }
}
