# photo_watermark in Dafny

A model of `watermark.py`, a command-line tool that stamps the capture date
of a photograph onto the picture. For each image it does the following:

- reads the date from the image's metadata tags, or falls back to the file's
  modification time;
- writes the date as `YYYY-MM-DD`;
- places the text at one of five anchors, with a black shadow two pixels
  down and to the right;
- saves the result as `<stem>_wm.png` or `<stem>_wm.jpg` in an output
  directory.

Given a directory, it walks the tree, mirrors each file's relative directory
below the output directory, and counts the files it stamped.

The modules follow the program's structure:

| module | models |
|---|---|
| `Wrappers` | `Option`, and the "try in order, first success wins" loop shape used twice by `get_exif_datetime` |
| `Dates` | the calendar, the four `strptime` layouts the tool accepts, and the `%Y-%m-%d` rendering of `format_date`, with soundness, completeness and round-trip lemmas |
| `DateResolver` | `get_exif_datetime`: tag precedence, skipping unusable tags, and the modification-time fallback |
| `Position` | `compute_text_position` |
| `Compositor` | the non-raster decisions of `draw_watermark`: position, colour fallback, the two alphas and the shadow pass |
| `Paths` | `Path.name`, `.parent`, `.suffix`, `.stem` and `relative_to`; `is_image_file`; the output file name; the RGB-flattening test; `find_output_dir` |
| `Processor` | `process_image_file` |
| `Batch` | `main` after argument parsing: the missing-input abort, the single-file case, the directory walk and the count |

A path is the sequence of its components. The empty sequence stands for
the current directory `.`, whose name is empty.

Everything outside the program's own logic becomes a parameter:

- the decoded image (`Option<Decoded>`, None for an undecodable file);
- the text measurement (`measure`);
- the colour parser (`getrgb`, None where `ImageColor.getrgb` raises);
- the modification time (`mtime`);
- whether creating the output directory and writing the file succeed
  (`saved`, and `ok` in the batch);
- the list of files the walk reports (`entries`).

Two details of watermark.py shape the model:

- **Output directory.** `find_output_dir` returns
  `base / (base.name + "_watermark")`, a child of the base directory. For
  a directory input this is a child of the input, not a sibling of it
  (`Paths.DirectoryOutputInsideInput`); for a file input it sits beside the
  file (`Paths.FileOutputBesideFile`).
- **Shadow alpha.** The shadow pass gets `min(255, opacity)` and the text
  pass gets `max(0, min(255, opacity))`. The two differ for a negative
  opacity (`Compositor.AlphasAgreeIff`).

Two consequences of the code are stated as lemmas:

- **Outputs collide.** `photo.jpg` and `photo.jpeg` in one directory both
  become `photo_wm.jpg` (`Paths.OutputNamesCollide`).
- **Outputs look like inputs.** A watermarked copy is itself an image name
  (`Processor.OutputIsImageFile`). For a directory input, the output
  directory is inside the input (`Paths.DirectoryOutputInsideInput`), so a
  second run would stamp the first run's outputs again.

## Model

| member | source | states |
|---|---|---|
| Wrappers.FirstSome | watermark.py:44-59 | the ordered search returns None exactly when every attempt fails; otherwise it returns the result of an attempt that succeeds, and every earlier attempt failed |
| Wrappers.FirstSomeAt | watermark.py:55-59 | the first attempt that succeeds decides the result, whatever the later attempts would give |
| Wrappers.FirstSomeCongruent | watermark.py:44-59 | the search depends only on the attempts' results on the listed candidates |
| Dates.DaysInMonth | watermark.py:57 | the Gregorian month lengths: 29 exactly for February of a leap year, 28 for other Februaries, 30 for April, June, September and November |
| Dates.Midnight | watermark.py:32-33 | dropping the time of day keeps the calendar day and keeps a valid date valid |
| Dates.ReadPad | watermark.py:57 | reading back a zero-padded number gives the number whenever it fits the width |
| Dates.PadRead | watermark.py:57 | padding the value of a digit string to its own width gives back the string |
| Dates.Render | watermark.py:33 | a rendering is 19 characters with a time and 10 without |
| Dates.ParseFormat | watermark.py:55-59 | a parse succeeds only on text of the layout's exact shape and only to a valid calendar date; a date-only layout yields midnight |
| Dates.ParseSound | watermark.py:57 | whatever a layout accepts is exactly that layout's rendering of the parsed date |
| Dates.ParseComplete | watermark.py:57 | every valid date (at midnight for a date-only layout) is accepted in its own rendering and parsed back to itself |
| Dates.FormatsExclusive | watermark.py:55 | no text is accepted by two of the four layouts |
| Dates.ParseAny | watermark.py:55-59 | the four layouts are tried in order; None exactly when all reject, otherwise the result of an accepting layout |
| Dates.ParseAnyIsAnyLayout | watermark.py:55-59 | the ordered search yields a date exactly when some layout yields that date, so the order of the layouts never changes the outcome |
| Dates.FormatDate | watermark.py:32-33 | the stamp is 10 characters with dashes at positions 4 and 7, and the `%Y-%m-%d` layout reads it back as the same day at midnight |
| Dates.FormatDateRoundTrip | watermark.py:32-33 | the full ordered search reads a stamp back as the stamped day at midnight |
| Dates.ParseThenFormat | watermark.py:32-33 | any `%Y-%m-%d` text that parses is exactly the stamp of the date it parses to |
| DateResolver.TagDate | watermark.py:45-59 | a tag yields nothing exactly when it is absent, empty, or parses in no layout; otherwise it yields the parsed valid date |
| DateResolver.ExifDate | watermark.py:36-62 | there is no capture date exactly when none of the three tags yields one; otherwise the date is that of a tag all of whose predecessors yield nothing |
| DateResolver.NoMetadataNoDate | watermark.py:38-40 | an image without metadata has no capture date |
| DateResolver.FirstTagWins | watermark.py:44-59 | a tag that yields a date decides the result when the tags before it yield nothing |
| DateResolver.UnusableTagIsSkipped | watermark.py:45-59 | removing a tag that yields nothing does not change the result |
| DateResolver.WatermarkText | watermark.py:119-122 | the stamp reads back as the capture day when there is one and as the modification day otherwise |
| DateResolver.OriginalBeatsLaterTag | watermark.py:36-62 | an original capture time in the first layout decides the stamp, whatever a `DateTime` tag holds |
| DateResolver.OriginalRendering | watermark.py:55-57 | `2020:01:02 10:00:00` is the first layout's rendering of 2020-01-02 10:00:00 |
| DateResolver.PrecedenceExample | watermark.py:44-57 | with `DateTimeOriginal` `2020:01:02 10:00:00` and `DateTime` `2021:05:05 00:00:00` the stamp is `2020-01-02` |
| DateResolver.DayStampExample | watermark.py:32-33 | 2020-01-02 10:00:00 is stamped `2020-01-02` |
| DateResolver.FallbackExample | watermark.py:119-122 | an image without date tags modified on 2022-07-04 at noon is stamped `2022-07-04` |
| Position.FloorHalf | watermark.py:77 | Python's `// 2` rounds down, negative numbers included |
| Position.ComputeTextPosition | watermark.py:69-81 | each anchor keeps its named edges exactly `margin` away; `center` splits the free space with any odd pixel to the right or bottom; any other name behaves as bottom-right |
| Position.AdmittedAnchors | watermark.py:16-18 | among the five admitted names the fallback branch serves exactly `bottom-right`, and each of the four names with a branch of its own is admitted |
| Position.UnknownAnchorIsBottomRight | watermark.py:80-81 | any name outside the four with a branch of their own is placed exactly as `bottom-right` |
| Position.InsideWhenFits | watermark.py:69-81 | when the text and two margins fit, every anchor keeps the whole text box inside the image |
| Position.OffCanvasWhenTooWide | watermark.py:74-81 | positions are not clamped: a text wider than the image minus the margin starts left of the image for the right-aligned anchors |
| Compositor.FillAlpha | watermark.py:108 | the text alpha lies in [0,255], equals the opacity exactly when the opacity is in range, and is 0 or 255 beyond either end |
| Compositor.ShadowAlpha | watermark.py:111 | the shadow alpha is at most 255, equals the opacity exactly when the opacity is at most 255, and is 255 above it |
| Compositor.FillAlphaIdempotent | watermark.py:108-111 | clamping twice is clamping once, and clamping the shadow alpha gives the text alpha |
| Compositor.AlphasAgreeIff | watermark.py:108-111 | the two passes have the same alpha exactly when the opacity is not negative |
| Compositor.FillColour | watermark.py:104-107 | the fill is the parsed colour, or white when the parser rejects the string |
| Compositor.DrawWatermark | watermark.py:93-113 | the text is at the anchor position with the default margin, in the fill colour with the clamped alpha; the shadow is black, two pixels right and down, with the capped alpha; for a negative opacity the text alpha is 0 and the shadow alpha is the opacity itself, above 255 both are 255 |
| Paths.Parent | watermark.py:26 | the parent is a prefix of the path, one component shorter, and `.` is its own parent |
| Paths.Name | watermark.py:29 | the parent followed by the name is the path again, and `.` has the empty name |
| Paths.ParentNameJoin | watermark.py:166 | a directory joined with a name splits back into that directory and that name |
| Paths.RelativeTo | watermark.py:164 | a path has a relative part exactly when the base is a prefix of it, and joining the base to that part gives back the path |
| Paths.RelativeToJoin | watermark.py:164 | the relative part of a joined path is what was joined |
| Paths.Suffix | watermark.py:127 | the suffix is non-empty exactly when the name has a last dot that is neither its first nor its last character, and then it is the text from that dot on |
| Paths.Stem | watermark.py:128 | the stem is the name up to its extension's dot, or the whole name when there is no extension |
| Paths.StemSuffixSplit | watermark.py:127-128 | the stem followed by the suffix is the name |
| Paths.ImageSuffixesShape | watermark.py:142 | each image extension is a dot and at least three dot-free characters |
| Paths.Lower | watermark.py:142 | lowering keeps the length and maps each character by itself: ASCII capitals to their small letters, everything else unchanged |
| Paths.LowerIdempotent | watermark.py:142 | lowering twice is lowering once |
| Paths.SuffixMatchIffEnding | watermark.py:142 | the lower-cased suffix is one of the six extensions exactly when, ignoring case, the name ends in one of them with at least one character in front |
| Paths.IsImageName | watermark.py:141-142 | a name is an image exactly when, ignoring case, it ends in one of `.jpg`, `.jpeg`, `.png`, `.bmp`, `.tiff` and `.webp` with at least one character in front |
| Paths.IsImageFile | watermark.py:141-142 | `.` is never an image file; any other path is one exactly when its last component is an image name |
| Paths.SuffixOfLower | watermark.py:142 | lowering and then taking the suffix is taking the suffix and then lowering it |
| Paths.ImageNameIgnoresCase | watermark.py:141-142 | a name and its lower-case form are images together or not at all |
| Paths.HeadAndExtension | watermark.py:127-142 | a non-empty head followed by an extension is an image name exactly when the lower-cased extension is one of the six, and its copy is the head, `_wm` and `.png` for a PNG or `.jpg` otherwise |
| Paths.NotesAreNotImages | watermark.py:141-142 | a name ending in `.txt` or `.TXT` after a non-empty head, such as `notes.txt` or `NOTES.TXT`, is not an image |
| Paths.NoExtensionNotImage | watermark.py:141-142 | a name without an extension (`README`, `.jpg`, `photo.`) is not an image |
| Paths.OutExtension | watermark.py:127-128 | the output extension is `.png` exactly for an input whose lower-cased suffix is `.png`, and `.jpg` otherwise |
| Paths.OutName | watermark.py:128 | the output name starts with the input's stem and `_wm`, and ends in the four-character output extension |
| Paths.OutNameSplit | watermark.py:127-128 | read back as a name, the output name's extension starts right after `_wm`, its stem is the input's stem plus `_wm`, and its suffix is the output extension |
| Paths.FlattenToRgb | watermark.py:130 | for a name with a suffix, flattening happens exactly when that suffix is `.jpg` or `.jpeg`, ignoring case |
| Paths.SuffixEnding | watermark.py:130 | for a name with a suffix, ending in a lower-case extension after lowering is the same as having that suffix, ignoring case |
| Paths.OutNameShape | watermark.py:127-130 | the output name's stem is the input's stem plus `_wm` and its suffix is the output extension; it is flattened to RGB exactly when the input is not a PNG; the `.jpeg` test never fires; and the output name is itself an image name |
| Paths.OutNameEnding | watermark.py:128-130 | the lower-cased output name ends in `.jpg` exactly for a `.jpg` output and never ends in `.jpeg` |
| Paths.OutputNamesCollide | watermark.py:127-128 | `photo.jpg` and `photo.jpeg` both become `photo_wm.jpg` |
| Paths.JpgExampleName | watermark.py:127-128 | `a.jpg` is an image and becomes `a_wm.jpg` |
| Paths.PngExampleName | watermark.py:127-128 | `b.png` is an image and becomes `b_wm.png` |
| Paths.FindOutputDir | watermark.py:24-29 | the output directory is a child of the base (the parent of a file, the directory itself otherwise), named after the base with `_watermark` appended |
| Paths.DirectoryOutputInsideInput | watermark.py:24-29 | for a directory input the output directory lies strictly inside it |
| Paths.FileOutputBesideFile | watermark.py:25-26 | for a file input the output directory sits beside the file |
| Paths.CurrentDirectoryOutput | watermark.py:29 | the output directory for `.` is `_watermark` |
| Processor.ProcessImageFile | watermark.py:116-138 | the call succeeds exactly when the image decodes and the write succeeds; the output then lies in the output directory with the output name's stem and suffix, is flattened exactly for a non-PNG input, carries the capture or modification day, and its overlay is the one `draw_watermark` plans for that text from the image size and the configured colour, opacity and position |
| Processor.OutputIsImageFile | watermark.py:116-142 | the written copy's path is itself an image file |
| Processor.DefaultsStampBottomRight | watermark.py:14-19 | with the default options the text is 16 pixels from the right and bottom edges, both passes have alpha 220, and the fill is white unless `#FFFFFF` parses otherwise |
| Batch.Destination | watermark.py:164-169 | a copy's parent is the output directory joined with the file's relative directory, and its name is the output name of the file's name |
| Batch.ProcessedCopyIsDestination | watermark.py:116-135 | when stamping a reported file into its mirrored directory succeeds, the path `process_image_file` returns is that file's destination |
| Batch.DestinationMirrors | watermark.py:164-169 | a copy lies in its file's relative directory below the output directory, under the output name |
| Batch.Filter | watermark.py:165-170 | the kept entries are exactly the listed entries that pass the test, and there are no more of them than entries |
| Batch.WalkStep | watermark.py:165-170 | one more file of the walk adds its copy to the written list exactly when the file is stamped |
| Batch.WalkDirectory | watermark.py:161-170 | the walk writes, in order, the mirrored copy of each reported image file whose processing succeeds, and the count is the number written |
| Batch.Run | watermark.py:145-172 | a missing input aborts; otherwise the output directory comes from `find_output_dir`, a single file is counted once if it is an image that processes, a non-image file counts nothing, and a directory is walked |
| Batch.FilterPermutation | watermark.py:161-170 | any reordering of the reported files keeps the same files |
| Batch.CountOrderIndependent | watermark.py:161-170 | the count does not depend on the order the walk reports files in |
| Batch.FilterMonotone | watermark.py:167-170 | a stronger test keeps no more files |
| Batch.FilterStrict | watermark.py:167-170 | a stronger test keeps strictly fewer files when some file passes the weaker test only |
| Batch.CountBounds | watermark.py:153-170 | the count is at most the number of image files, which is at most the number of files; it equals the number of image files exactly when every image file processes |
| Batch.WrittenComesFromInput | watermark.py:161-169 | each written copy is that of a reported image file that processed, placed in the file's relative directory below the output directory |
| Batch.InputReachesWritten | watermark.py:161-169 | every reported image file that processes has its copy written |
| Batch.DirectoryExample | watermark.py:161-170 | `a.jpg` and `sub/b.png` below the input become `a_wm.jpg` and `sub/b_wm.png` below the output directory |

## Left out

- Pixels: the RGBA conversion, the transparent overlay, the glyph rendering
  and the alpha composite belong to the imaging library. Only the decisions
  made about them (position, colour, alpha, shadow offset) are modelled.
- Encoding: the JPEG quality of 92 and the PNG encoding are the imaging
  library's. The model keeps only the choice to flatten to RGB.
- Font handling (`load_font`, lines 84-90) and text measurement
  (`textbbox`): the measured size is the parameter `measure`. The font size
  and font path are carried in `Config` but not interpreted.
- `ImageColor.getrgb` is the parameter `getrgb`. A colour string with its
  own alpha component (a four-element result) is not modelled.
- `get_file_mtime` (lines 65-66) and the platform's timestamp conversion:
  the modification time is the parameter `mtime`.
- How tags reach the dictionary is not modelled: `getexif`, the
  `ExifTags.TAGS` id-to-name map and the decoding of `bytes` values. The
  metadata is a name-to-text map as the imaging library reports it. With
  Pillow's `getexif`, the capture-time tags often live in a sub-directory
  that this map does not contain; the model takes whatever map it is given.
- DateResolver.TagDate: of Python's falsy values, only a missing tag or the
  empty string is treated as absent, because tag values are modelled as
  text.
- Dates.ParseFormat: accepts only the canonical fixed-width text. Python's
  `strptime` also accepts one-digit months, days and time fields, a space
  before a one-digit day, any run of whitespace where the layout has a
  space, and non-ASCII digits. The model therefore rejects some strings
  that watermark.py accepts. Seconds 60 and 61 are rejected by the model
  just as the `datetime` constructor rejects them.
- Dates.FormatDate: always pads the year to four digits. On platforms whose
  `strftime` does not pad `%Y`, years below 1000 would be written shorter.
- Paths.FlattenToRgb: the contract describes only names that have a
  suffix. Every output name has one (`Paths.OutNameSplit`). For any other
  name the predicate is the plain `endswith` test and no further property
  is stated.
- Paths.Suffix: follows the rule that a name ending in a dot, or starting
  with its only dot, has no suffix. A Python version that treats the
  trailing-dot case differently is not modelled.
- `str.lower` is modelled on ASCII letters only. No non-ASCII character
  lowers to exactly one of the letters in the six extensions, so membership
  in the extension set is unaffected.
- Argument parsing, the usage messages, everything printed to stderr or
  stdout, and the exit status are not modelled. Of the exit, only the
  abort on a missing input is kept (`Batch.Run` returns `InputMissing`).
- `os.walk` is the parameter `entries`, one entry per reported file, in
  whatever order the file system gives. Not modelled: symbolic links, walk
  errors, and files created while the walk runs. The filesystem tests
  `exists` and `is_file` are the parameters `present` and `isFile`.
- Creating the output directory, any exception inside
  `process_image_file`, and the write itself are the booleans `saved` and
  `ok`. A failure yields None and is not counted.
