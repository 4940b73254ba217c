/** File names and paths as the watermarker manipulates them: `Path.name`,
    `.parent`, `.suffix`, `.stem`, `relative_to` and `/`; the image-type
    test (`is_image_file`, watermark.py lines 141-142); the output file
    name and the RGB-flattening decision (lines 127-135); and the output
    directory (`find_output_dir`, lines 24-29).

    A path is the sequence of its components; the empty sequence is the
    current directory `.`, whose name is empty. */
module Paths {
  import opened Wrappers

  type Path = seq<string>

  /** `p.parent`: all components but the last; `.` is its own parent. */
  function Parent(p: Path): (q: Path)
    ensures q <= p
    ensures |q| == if |p| == 0 then 0 else |p| - 1
  {
    if |p| == 0 then [] else p[..|p| - 1]
  }

  /** `p.name`: the last component, empty for `.`; the parent joined with
      the name gives the path back. */
  function Name(p: Path): (n: string)
    ensures |p| > 0 ==> Parent(p) + [n] == p
    ensures |p| == 0 ==> n == ""
  {
    if |p| == 0 then "" else p[|p| - 1]
  }

  /** Joining a component and taking the parent and name apart again gives
      back the two pieces. */
  lemma ParentNameJoin(base: Path, n: string)
    ensures Parent(base + [n]) == base && Name(base + [n]) == n
  {
    assert (base + [n])[..|base|] == base;
  }

  /** `p.relative_to(base)`: the components after `base`, or None where
      Python raises `ValueError` because `p` is not below `base`. */
  function RelativeTo(p: Path, base: Path): (r: Option<Path>)
    ensures r.Some? <==> base <= p
    ensures r.Some? ==> base + r.value == p
  {
    if base <= p then Some(p[|base|..]) else None
  }

  /** Joining and then taking the relative part gives back what was
      joined, which is how the walk recovers each directory's position
      below the input. */
  lemma RelativeToJoin(base: Path, rel: Path)
    ensures RelativeTo(base + rel, base) == Some(rel)
  {
    assert base <= base + rel;
    assert (base + rel)[|base|..] == rel;
  }

  /** The index of the last `.` in `s`, or -1. */
  function LastDot(s: string): (i: int)
    ensures -1 <= i < |s|
    ensures i >= 0 ==> s[i] == '.'
    ensures forall j :: i < j < |s| ==> s[j] != '.'
  {
    if |s| == 0 then -1
    else if s[|s| - 1] == '.' then |s| - 1
    else LastDot(s[..|s| - 1])
  }

  /** `name` has an extension starting at `k`: the dot at `k` is the last
      one, is not the first character (a leading-dot name such as
      `.jpg` has none) and is not the last character. */
  predicate ExtensionAt(name: string, k: int) {
    && 0 < k < |name| - 1
    && name[k] == '.'
    && forall j :: k < j < |name| ==> name[j] != '.'
  }

  /** `PurePath.suffix`: the extension including its dot, or empty. */
  function Suffix(name: string): (x: string)
    ensures x != "" <==> exists k :: ExtensionAt(name, k)
    ensures forall k :: ExtensionAt(name, k) ==> x == name[k..]
  {
    var i := LastDot(name);
    if 0 < i < |name| - 1 then assert ExtensionAt(name, i); name[i..] else ""
  }

  /** `PurePath.stem`: the name without its extension. */
  function Stem(name: string): (s: string)
    ensures (forall k :: !ExtensionAt(name, k)) ==> s == name
    ensures forall k :: ExtensionAt(name, k) ==> s == name[..k]
  {
    var i := LastDot(name);
    if 0 < i < |name| - 1 then assert ExtensionAt(name, i); name[..i] else name
  }

  /** Stem and suffix split the name, with nothing lost or added. */
  lemma StemSuffixSplit(name: string)
    ensures Stem(name) + Suffix(name) == name
  {
    if exists k :: ExtensionAt(name, k) {
      var k :| ExtensionAt(name, k);
      assert name[..k] + name[k..] == name;
    }
  }

  function LowerChar(c: char): char {
    if 'A' <= c <= 'Z' then (c as int + 32) as char else c
  }

  /** `str.lower()` on the ASCII letters.  For the comparisons made here,
      against ASCII extensions, no other character could lower to a match. */
  function Lower(s: string): (r: string)
    ensures |r| == |s|
    ensures forall i :: 0 <= i < |s| ==> r[i] == LowerChar(s[i])
  {
    seq(|s|, i requires 0 <= i < |s| => LowerChar(s[i]))
  }

  lemma LowerSlice(s: string, k: nat)
    requires k <= |s|
    ensures Lower(s[k..]) == Lower(s)[k..] && Lower(s[..k]) == Lower(s)[..k]
  {
  }

  predicate EndsWith(s: string, tail: string) {
    |tail| <= |s| && s[|s| - |tail|..] == tail
  }

  /** The extensions treated as images. */
  const ImageSuffixes: set<string> := {".jpg", ".jpeg", ".png", ".bmp", ".tiff", ".webp"}

  /** `name` ends, ignoring case, in the lower-case `e`, with at least one
      character in front of it. */
  predicate EndsInIgnoringCase(name: string, e: string) {
    |e| < |name| && Lower(name[|name| - |e|..]) == e
  }

  /** `is_image_file` on a name: its lower-cased suffix is one of the six
      extensions.  Read independently, the name ends, ignoring case, in one
      of the six extensions with at least one character in front of it. */
  predicate IsImageName(name: string)
    ensures IsImageName(name) <==> exists e :: e in ImageSuffixes && EndsInIgnoringCase(name, e)
  {
    SuffixMatchIffEnding(name);
    Lower(Suffix(name)) in ImageSuffixes
  }

  /** `is_image_file` on a path: `.`, which has no name, is never an image,
      and any other path is one when its last component is. */
  predicate IsImageFile(p: Path)
    ensures IsImageFile(p) <==> |p| > 0 && IsImageName(p[|p| - 1])
  {
    IsImageName(Name(p))
  }

  /** Every image extension is a dot followed by at least three dot-free
      characters. */
  lemma ImageSuffixesShape()
    ensures forall e :: e in ImageSuffixes ==>
      4 <= |e| && e[0] == '.' && forall i :: 1 <= i < |e| ==> e[i] != '.'
  {
  }

  /** The dots of a string are where they were before lowering. */
  lemma LowerKeepsDots(name: string)
    ensures forall k :: ExtensionAt(name, k) <==> ExtensionAt(Lower(name), k)
  {
  }

  /** The two readings of the image test agree. */
  lemma SuffixMatchIffEnding(name: string)
    ensures Lower(Suffix(name)) in ImageSuffixes <==>
      exists e :: e in ImageSuffixes && EndsInIgnoringCase(name, e)
  {
    if Lower(Suffix(name)) in ImageSuffixes {
      SuffixMatchHasEnding(name);
      assert EndsInIgnoringCase(name, Lower(Suffix(name)));
    }
    if exists e :: e in ImageSuffixes && EndsInIgnoringCase(name, e) {
      var e :| e in ImageSuffixes && EndsInIgnoringCase(name, e);
      EndingMakesSuffixMatch(name, e);
    }
  }

  lemma SuffixMatchHasEnding(name: string)
    requires Lower(Suffix(name)) in ImageSuffixes
    ensures var e := Lower(Suffix(name));
      e in ImageSuffixes && |e| < |name| && Lower(name[|name| - |e|..]) == e
  {
    var k :| ExtensionAt(name, k);
    var e := Lower(Suffix(name));
    assert |e| == |name| - k;
    assert name[|name| - |e|..] == name[k..];
  }

  lemma EndingMakesSuffixMatch(name: string, e: string)
    requires e in ImageSuffixes && |e| < |name| && Lower(name[|name| - |e|..]) == e
    ensures Lower(Suffix(name)) in ImageSuffixes
  {
    ImageSuffixesShape();
    var k := |name| - |e|;
    assert name[k] == '.' by {
      assert Lower(name[k..])[0] == e[0];
    }
    forall j | k < j < |name|
      ensures name[j] != '.'
    {
      assert Lower(name[k..])[j - k] == e[j - k];
    }
    assert ExtensionAt(name, k);
  }

  lemma LowerIdempotent(s: string)
    ensures Lower(Lower(s)) == Lower(s)
  {
  }

  /** Lowering a name and then taking its suffix is lowering its suffix. */
  lemma SuffixOfLower(name: string)
    ensures Suffix(Lower(name)) == Lower(Suffix(name))
  {
    LowerKeepsDots(name);
    if exists k :: ExtensionAt(name, k) {
      var k :| ExtensionAt(name, k);
      LowerSlice(name, k);
    } else {
      assert forall k :: !ExtensionAt(Lower(name), k);
    }
  }

  /** Matching ignores case: a name and its lower-case form are images
      together or not at all. */
  lemma ImageNameIgnoresCase(name: string)
    ensures IsImageName(name) <==> IsImageName(Lower(name))
  {
    SuffixOfLower(name);
    LowerIdempotent(Suffix(name));
  }

  /** The extension an output file gets: `.png` for a PNG input, `.jpg`
      for every other input. */
  function OutExtension(name: string): (x: string)
    ensures x == ".png" || x == ".jpg"
    ensures x == ".png" <==> Lower(Suffix(name)) == ".png"
  {
    if Lower(Suffix(name)) == ".png" then ".png" else ".jpg"
  }

  /** The name of the watermarked copy (watermark.py lines 127-128).  Read
      back as a name, its extension starts right after `_wm`, its stem is
      the input's stem with `_wm` appended, and its suffix is the output
      extension. */
  function OutName(name: string): (out: string)
    ensures Stem(name) + "_wm" <= out
    ensures |out| == |Stem(name)| + 7 && out[|out| - 4..] == OutExtension(name)
  {
    Stem(name) + "_wm" + OutExtension(name)
  }

  /** Whether the image is flattened to RGB before saving (line 130): the
      output name ends in `.jpg` or `.jpeg`, ignoring case.  For a name with
      a suffix this is the suffix being `.jpg` or `.jpeg`, ignoring case. */
  predicate FlattenToRgb(outName: string)
    ensures Suffix(outName) != "" ==>
      (FlattenToRgb(outName) <==> Lower(Suffix(outName)) == ".jpg" || Lower(Suffix(outName)) == ".jpeg")
  {
    JpgShape();
    JpegShape();
    SuffixEnding(outName, ".jpg");
    SuffixEnding(outName, ".jpeg");
    EndsWith(Lower(outName), ".jpg") || EndsWith(Lower(outName), ".jpeg")
  }

  /** For a name with a suffix, its lower-cased form ends in a lower-case
      extension exactly when that is its suffix, ignoring case: the dot
      that begins the ending must be the last dot of the name. */
  lemma SuffixEnding(name: string, ext: string)
    requires DotExtension(ext) && Lower(ext) == ext
    ensures Suffix(name) != "" ==> (EndsWith(Lower(name), ext) <==> Lower(Suffix(name)) == ext)
  {
    if Suffix(name) != "" {
      var k :| ExtensionAt(name, k);
      LowerSlice(name, k);
      if EndsWith(Lower(name), ext) {
        EndingDotIsLast(name, ext, k);
      }
    }
  }

  /** The dot that begins a lower-case extension ending a name is the name's
      last dot. */
  lemma EndingDotIsLast(name: string, ext: string, k: int)
    requires DotExtension(ext) && ExtensionAt(name, k) && EndsWith(Lower(name), ext)
    ensures |name| - |ext| == k
  {
    var low := Lower(name);
    var m := |name| - |ext|;
    assert low[m] == ext[0] by {
      assert low[m..][0] == ext[0];
    }
    assert name[m] == '.';
    forall j | m < j < |name|
      ensures name[j] != '.'
    {
      assert low[m..][j - m] == ext[j - m];
    }
  }

  /** The output name read back as a name: its stem is the input's stem
      with `_wm` appended, its suffix is `.png` or `.jpg`, it is flattened
      exactly when the input is not a PNG, the `.jpeg` test can never be
      the one that fires, and it is itself an image name. */
  lemma OutNameShape(name: string)
    ensures Stem(OutName(name)) == Stem(name) + "_wm"
    ensures Suffix(OutName(name)) == OutExtension(name)
    ensures FlattenToRgb(OutName(name)) <==> Lower(Suffix(name)) != ".png"
    ensures !EndsWith(Lower(OutName(name)), ".jpeg")
    ensures IsImageName(OutName(name))
  {
    OutNameEnding(name);
    OutNameSplit(name);
    OutNameIsImage(name);
  }

  /** `ext` has the shape of an extension: a dot followed by at least one
      character, none of them a dot. */
  predicate DotExtension(ext: string) {
    && |ext| >= 2
    && ext[0] == '.'
    && forall i :: 1 <= i < |ext| ==> ext[i] != '.'
  }

  /** A non-empty head followed by an extension splits back into the two. */
  lemma JoinExtension(head: string, ext: string)
    requires |head| > 0 && DotExtension(ext)
    ensures ExtensionAt(head + ext, |head|)
    ensures Suffix(head + ext) == ext && Stem(head + ext) == head
  {
    var out := head + ext;
    var k := |head|;
    forall j | k < j < |out|
      ensures out[j] != '.'
    {
      assert out[j] == ext[j - k];
    }
    assert out[k] == ext[0];
    assert ExtensionAt(out, k);
    assert out[k..] == ext && out[..k] == head;
  }

  lemma PngShape()
    ensures DotExtension(".png") && Lower(".png") == ".png"
  {
  }

  lemma JpgShape()
    ensures DotExtension(".jpg") && Lower(".jpg") == ".jpg"
  {
  }

  lemma JpegShape()
    ensures DotExtension(".jpeg") && Lower(".jpeg") == ".jpeg"
  {
  }

  /** Both output extensions are four lower-case characters in the shape
      of an extension. */
  lemma OutExtensionShape(name: string)
    ensures DotExtension(OutExtension(name)) && |OutExtension(name)| == 4
    ensures Lower(OutExtension(name)) == OutExtension(name)
  {
    PngShape();
    JpgShape();
  }

  /** The output name read back as a name: its extension starts right
      after `_wm`, its stem is the input's stem with `_wm` appended, and its
      suffix is the output extension. */
  lemma OutNameSplit(name: string)
    ensures ExtensionAt(OutName(name), |Stem(name)| + 3)
    ensures Stem(OutName(name)) == Stem(name) + "_wm"
    ensures Suffix(OutName(name)) == OutExtension(name)
  {
    OutExtensionShape(name);
    JoinExtension(Stem(name) + "_wm", OutExtension(name));
  }

  lemma OutNameIsImage(name: string)
    ensures IsImageName(OutName(name))
  {
    OutNameSplit(name);
    OutExtensionShape(name);
    assert ".png" in ImageSuffixes && ".jpg" in ImageSuffixes;
  }

  lemma LowerConcat(a: string, b: string)
    ensures Lower(a + b) == Lower(a) + Lower(b)
  {
  }

  /** A string ending in a four-character extension cannot end in `.jpeg`:
      the dot would have to sit one place earlier. */
  lemma EndingOfFour(low: string, ext: string)
    requires DotExtension(ext) && |ext| == 4 && EndsWith(low, ext)
    ensures !EndsWith(low, ".jpeg")
    ensures EndsWith(low, ".jpg") <==> ext == ".jpg"
  {
    if |low| >= 5 {
      assert low[|low| - 5..][1] == low[|low| - 4] == ext[0];
      assert low[|low| - 4..][..0] == [];
    }
    assert low[|low| - 4..] == ext;
  }

  /** Lowering a name whose tail is already lower case keeps that tail. */
  lemma LowerKeepsTail(head: string, ext: string)
    requires Lower(ext) == ext
    ensures EndsWith(Lower(head + ext), ext)
  {
    LowerConcat(head, ext);
    var low := Lower(head) + ext;
    assert low[|low| - |ext|..] == ext;
  }

  /** The lower-cased output name ends in its extension, which is already
      lower case; so it ends in `.jpg` exactly for a non-PNG input and
      never in `.jpeg`. */
  lemma OutNameEnding(name: string)
    ensures FlattenToRgb(OutName(name)) <==> OutExtension(name) == ".jpg"
    ensures !EndsWith(Lower(OutName(name)), ".jpeg")
  {
    var ext := OutExtension(name);
    var out := OutName(name);
    OutExtensionShape(name);
    LowerKeepsTail(Stem(name) + "_wm", ext);
    EndingOfFour(Lower(out), ext);
  }

  lemma JpgOutName()
    ensures OutName("photo.jpg") == "photo_wm.jpg"
  {
    JpgShape();
    JoinExtension("photo", ".jpg");
    assert "photo" + ".jpg" == "photo.jpg";
  }

  lemma JpegOutName()
    ensures OutName("photo.jpeg") == "photo_wm.jpg"
  {
    assert DotExtension(".jpeg");
    JoinExtension("photo", ".jpeg");
    assert "photo" + ".jpeg" == "photo.jpeg";
    assert Lower(".jpeg") == ".jpeg";
  }

  /** Two different inputs can share one output: `photo.jpg` and
      `photo.jpeg` (or `photo.bmp`) in one directory both become
      `photo_wm.jpg`, and the later write replaces the earlier one. */
  lemma OutputNamesCollide()
    ensures OutName("photo.jpg") == OutName("photo.jpeg") == "photo_wm.jpg"
  {
    JpgOutName();
    JpegOutName();
  }

  /** A non-empty head followed by an extension names an image exactly when
      the lower-cased extension is one of the six, and its copy is named by
      the head, `_wm` and the output extension. */
  lemma HeadAndExtension(head: string, ext: string)
    requires |head| > 0 && DotExtension(ext)
    ensures IsImageName(head + ext) <==> Lower(ext) in ImageSuffixes
    ensures OutName(head + ext) == head + "_wm" + (if Lower(ext) == ".png" then ".png" else ".jpg")
  {
    JoinExtension(head, ext);
  }

  /** `a.jpg` is an image and becomes `a_wm.jpg`. */
  lemma JpgExampleName()
    ensures OutName("a.jpg") == "a_wm.jpg" && IsImageName("a.jpg")
  {
    assert "a" + ".jpg" == "a.jpg";
    assert "a" + "_wm" + ".jpg" == "a_wm.jpg";
    JpgShape();
    HeadAndExtension("a", ".jpg");
  }

  /** `b.png` is an image and becomes `b_wm.png`. */
  lemma PngExampleName()
    ensures OutName("b.png") == "b_wm.png" && IsImageName("b.png")
  {
    assert "b" + ".png" == "b.png";
    assert "b" + "_wm" + ".png" == "b_wm.png";
    PngShape();
    HeadAndExtension("b", ".png");
  }

  lemma TxtShape()
    ensures DotExtension(".txt") && Lower(".txt") == ".txt" && ".txt" !in ImageSuffixes
    ensures DotExtension(".TXT") && Lower(".TXT") == ".txt"
  {
  }

  /** A text file is not an image, whatever its case: `notes.txt` and
      `NOTES.TXT` alike. */
  lemma NotesAreNotImages(head: string)
    requires |head| > 0
    ensures !IsImageName(head + ".txt") && !IsImageName(head + ".TXT")
  {
    TxtShape();
    HeadAndExtension(head, ".txt");
    HeadAndExtension(head, ".TXT");
  }

  /** An input with no proper extension (`README`, `.jpg`, `photo.`) is
      not an image. */
  lemma NoExtensionNotImage(name: string)
    requires forall k :: !ExtensionAt(name, k)
    ensures !IsImageName(name)
  {
  }

  /** `find_output_dir`: the base is the parent of a file input and the
      input itself otherwise, and the result is the base joined with the
      base's name plus `_watermark`. */
  function FindOutputDir(input: Path, isFile: bool): (r: Path)
    ensures var base := if isFile then Parent(input) else input;
      Parent(r) == base && |r| == |base| + 1 && Name(r) == Name(base) + "_watermark"
  {
    var base := if isFile then Parent(input) else input;
    base + [Name(base) + "_watermark"]
  }

  /** For a directory input the output directory lies inside the input
      directory (a child, not a sibling). */
  lemma DirectoryOutputInsideInput(input: Path)
    ensures input < FindOutputDir(input, false)
  {
  }

  /** For a file input the output directory sits beside the file. */
  lemma FileOutputBesideFile(input: Path)
    requires |input| > 0
    ensures Parent(FindOutputDir(input, true)) == Parent(input)
  {
  }

  /** The current directory `.` has an empty name, so its output directory
      is just `_watermark`. */
  lemma CurrentDirectoryOutput()
    ensures FindOutputDir([], false) == ["_watermark"]
  {
    assert Name([]) + "_watermark" == "_watermark";
  }
}
