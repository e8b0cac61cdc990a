/**
 * The gallery page's server loader: the directory listing (a parameter
 * standing for `readdir`) becomes a list of gallery items.
 */
module Gallery {
  import opened JsText

  predicate EndsWith(s: string, suffix: string) {
    |suffix| <= |s| && s[|s| - |suffix|..] == suffix
  }

  /** `/\.(jpg|jpeg|png|JPG|JPEG|PNG|webp|WEBP)$/i`: the extension, compared without case. */
  predicate IsImageFile(file: string) {
    var lower := ToLower(file);
    EndsWith(lower, ".jpg") || EndsWith(lower, ".jpeg") || EndsWith(lower, ".png") || EndsWith(lower, ".webp")
  }

  /** `files.filter(...)`: the image files, in directory order. */
  function ImageFiles(files: seq<string>): (r: seq<string>)
    ensures |r| <= |files|
    ensures forall f :: f in r <==> f in files && IsImageFile(f)
  {
    if |files| == 0 then []
    else (if IsImageFile(files[0]) then [files[0]] else []) + ImageFiles(files[1..])
  }

  /** Filtering a concatenation filters each part and keeps their order. */
  lemma {:induction false} ImageFilesConcat(a: seq<string>, b: seq<string>)
    ensures ImageFiles(a + b) == ImageFiles(a) + ImageFiles(b)
    decreases |a|
  {
    if |a| == 0 {
      assert a + b == b;
    } else {
      assert (a + b)[0] == a[0];
      assert (a + b)[1..] == a[1..] + b;
      ImageFilesConcat(a[1..], b);
    }
  }

  /** The position of the last `.` in `s`, if any. */
  function LastDot(s: string): (r: Option<nat>)
    ensures r.Some? ==> r.value < |s| && s[r.value] == '.' && '.' !in s[r.value + 1..]
    ensures r.None? ==> '.' !in s
  {
    if |s| == 0 then None
    else if s[|s| - 1] == '.' then Some(|s| - 1)
    else
      var r := LastDot(s[..|s| - 1]);
      assert s == s[..|s| - 1] + [s[|s| - 1]];
      if r.Some? then
        assert s[r.value + 1..] == s[..|s| - 1][r.value + 1..] + [s[|s| - 1]];
        r
      else r
  }

  /** `file.replace(/\.[^/.]+$/, '')`: drop a final `.ext` whose extension is non-empty and has no `/`. */
  function BaseName(file: string): (r: string)
    ensures |r| <= |file| && r == file[..|r|]
  {
    match LastDot(file)
    case Some(i) => if i + 1 < |file| && '/' !in file[i + 1..] then file[..i] else file
    case None => file
  }

  /** The last dot of `stem + "." + ext` is the one before `ext` when `ext` has none. */
  lemma {:induction false} LastDotBeforeExtension(stem: string, ext: string)
    requires '.' !in ext
    ensures LastDot(stem + "." + ext) == Some(|stem|)
    decreases |ext|
  {
    var file := stem + "." + ext;
    if |ext| > 0 {
      var last := ext[|ext| - 1];
      assert last in ext;
      assert file[..|file| - 1] == stem + "." + ext[..|ext| - 1];
      LastDotBeforeExtension(stem, ext[..|ext| - 1]);
    }
  }

  /** A stem followed by `.ext` gives back the stem: only the final suffix is dropped. */
  lemma BaseNameDropsExtension(stem: string, ext: string)
    requires |ext| > 0 && '.' !in ext && '/' !in ext
    ensures BaseName(stem + "." + ext) == stem
  {
    var file := stem + "." + ext;
    LastDotBeforeExtension(stem, ext);
    assert file[|stem| + 1..] == ext;
    assert file[..|stem|] == stem;
  }

  /** `.replace(/[-_]/g, ' ')`. */
  function DashesToSpaces(s: string): (r: string)
    ensures |r| == |s|
    ensures forall i :: 0 <= i < |s| ==> r[i] == if s[i] == '-' || s[i] == '_' then ' ' else s[i]
  {
    seq(|s|, i requires 0 <= i < |s| => if s[i] == '-' || s[i] == '_' then ' ' else s[i])
  }

  /** A `\b\w` match: a word character at the start or after a non-word character. */
  predicate AtWordStart(s: string, i: int)
    requires 0 <= i < |s|
  {
    IsWordChar(s[i]) && (i == 0 || !IsWordChar(s[i - 1]))
  }

  /** `.replace(/\b\w/g, c => c.toUpperCase())`, scanning with the class of the previous character. */
  function CapitalizeFrom(s: string, prevWord: bool): (r: string)
    ensures |r| == |s|
    decreases |s|
  {
    if |s| == 0 then ""
    else [if IsWordChar(s[0]) && !prevWord then ToUpperChar(s[0]) else s[0]]
         + CapitalizeFrom(s[1..], IsWordChar(s[0]))
  }

  /** What the scan writes at position `i`, given the class of the character before the text. */
  function CapChar(s: string, i: nat, prevWord: bool): char
    requires i < |s|
  {
    var before := if i == 0 then prevWord else IsWordChar(s[i - 1]);
    if IsWordChar(s[i]) && !before then ToUpperChar(s[i]) else s[i]
  }

  /** Character by character: word starts are upper-cased, everything else is kept. */
  lemma {:induction false} CapitalizePointwise(s: string, prevWord: bool)
    ensures forall i :: 0 <= i < |s| ==> CapitalizeFrom(s, prevWord)[i] == CapChar(s, i, prevWord)
    decreases |s|
  {
    if |s| > 0 {
      CapitalizePointwise(s[1..], IsWordChar(s[0]));
      var r := CapitalizeFrom(s, prevWord);
      var rest := CapitalizeFrom(s[1..], IsWordChar(s[0]));
      assert r == [r[0]] + rest;
      forall i | 1 <= i < |s| ensures r[i] == CapChar(s, i, prevWord) {
        assert r[i] == rest[i - 1];
        CapCharShift(s, i, prevWord);
      }
    }
  }

  lemma CapCharShift(s: string, i: nat, prevWord: bool)
    requires 1 <= i < |s|
    ensures CapChar(s[1..], i - 1, IsWordChar(s[0])) == CapChar(s, i, prevWord)
  {
    assert s[1..][i - 1] == s[i];
    if i >= 2 { assert s[1..][i - 2] == s[i - 1]; }
  }

  /** The gallery title of a base name. */
  function FormatTitle(base: string): (r: string)
    ensures |r| == |base|
    ensures forall i :: 0 <= i < |r| ==>
      var d := DashesToSpaces(base);
      r[i] == if AtWordStart(d, i) then ToUpperChar(d[i]) else d[i]
    ensures forall i :: 0 <= i < |r| ==> r[i] != '-' && r[i] != '_'
  {
    var d := DashesToSpaces(base);
    CapitalizeWordStarts(d);
    var r := CapitalizeFrom(d, false);
    assert forall i :: 0 <= i < |r| ==> r[i] != '-';
    r
  }

  /** From the start of a text, exactly the `\b\w` matches are upper-cased. */
  lemma CapitalizeWordStarts(d: string)
    ensures forall i :: 0 <= i < |d| ==>
      CapitalizeFrom(d, false)[i] == if AtWordStart(d, i) then ToUpperChar(d[i]) else d[i]
  {
    CapitalizePointwise(d, false);
  }

  /** Formatting a title twice changes nothing more. */
  lemma FormatTitleIdempotent(base: string)
    ensures FormatTitle(FormatTitle(base)) == FormatTitle(base)
  {
    var t := FormatTitle(base);
    var t2 := FormatTitle(t);
    var d := DashesToSpaces(base);
    assert DashesToSpaces(t) == t;
    forall i | 0 <= i < |t| ensures IsWordChar(t[i]) <==> IsWordChar(d[i]) {
    }
    forall i | 0 <= i < |t| ensures t2[i] == t[i] {
      if AtWordStart(t, i) {
        assert AtWordStart(d, i);
      }
    }
  }

  /** `getCategoryFromFilename`, first match wins. */
  function Category(fileName: string): (r: string)
    ensures r in ["Panel Discussions", "Achievements", "Speaker Sessions", "Projects", "Gallery"]
    ensures var lower := ToLower(fileName);
      && (r == "Panel Discussions" <==> Contains(lower, "panelist"))
      && (r == "Achievements" <==> !Contains(lower, "panelist") && (Contains(lower, "hackathon") || Contains(lower, "winner")))
      && (r == "Speaker Sessions" <==> !Contains(lower, "panelist") && !Contains(lower, "hackathon")
                                       && !Contains(lower, "winner") && Contains(lower, "speaker"))
      && (r == "Gallery" <==> !Contains(lower, "panelist") && !Contains(lower, "hackathon") && !Contains(lower, "winner")
                              && !Contains(lower, "speaker") && !Contains(lower, "project") && !Contains(lower, "portfolio"))
  {
    var lower := ToLower(fileName);
    if Contains(lower, "panelist") then "Panel Discussions"
    else if Contains(lower, "hackathon") || Contains(lower, "winner") then "Achievements"
    else if Contains(lower, "speaker") then "Speaker Sessions"
    else if Contains(lower, "project") || Contains(lower, "portfolio") then "Projects"
    else "Gallery"
  }

  /** Matching ignores case: an upper-cased name lands in the same category. */
  lemma CategoryIgnoresCase(fileName: string)
    ensures Category(ToUpper(fileName)) == Category(fileName)
  {
    assert ToLower(ToUpper(fileName)) == ToLower(fileName);
  }

  datatype GalleryItem = GalleryItem(
    id: string, kind: string, src: string, thumbnail: string,
    title: string, description: string, category: string)

  const ImageRoot := "/portfolio-images/"

  function MakeItem(file: string, index: nat): GalleryItem {
    var base := BaseName(file);
    GalleryItem("image-" + Decimal(index + 1), "image", ImageRoot + file, ImageRoot + file,
                FormatTitle(base), "", Category(base))
  }

  /**
   * The page data: one item per image file, numbered `image-1` … `image-n`
   * in directory order; a failed directory read yields no items.
   */
  function GalleryItems(listing: Result<seq<string>, string>): (r: seq<GalleryItem>)
    ensures listing.Err? ==> r == []
    ensures listing.Ok? ==> |r| == |ImageFiles(listing.value)|
    ensures listing.Ok? ==> forall k :: 0 <= k < |r| ==>
      var file := ImageFiles(listing.value)[k];
      && r[k].id == "image-" + Decimal(k + 1)
      && r[k].src == ImageRoot + file
      && r[k].thumbnail == r[k].src
      && r[k].title == FormatTitle(BaseName(file))
      && r[k].category == Category(BaseName(file))
      && r[k].description == ""
  {
    match listing
    case Err(_) => []
    case Ok(files) =>
      var images := ImageFiles(files);
      seq(|images|, k requires 0 <= k < |images| => MakeItem(images[k], k))
  }

  /** Item ids are pairwise distinct. */
  lemma ItemIdsDistinct(files: seq<string>, j: nat, k: nat)
    requires j < k < |GalleryItems(Ok(files))|
    ensures GalleryItems(Ok(files))[j].id != GalleryItems(Ok(files))[k].id
  {
    var r := GalleryItems(Ok(files));
    var a := Decimal(j + 1);
    var b := Decimal(k + 1);
    assert r[j].id[6..] == a && r[k].id[6..] == b;
    assert DecimalValue(a) != DecimalValue(b);
  }
}
