/** One file through the pipeline (`process_image_file`, watermark.py lines
    116-138): decode, pick the date, plan the overlay, name the output, and
    decide whether to flatten to RGB.

    Decoding, text measurement, colour parsing and the final write are the
    imaging library's and the file system's; they enter as parameters.
    watermark.py catches every exception in the function and returns None,
    so a failed decode or a failed write both give None here. */
module Processor {
  import opened Wrappers
  import opened Dates
  import opened DateResolver
  import opened Compositor
  import opened Paths
  import Position

  /** The command-line options that reach the pipeline. */
  datatype Config = Config(fontSize: int, colour: string, position: string,
                           opacity: int, fontPath: Option<string>)

  /** The option defaults (watermark.py lines 14-20). */
  const Defaults: Config := Config(32, "#FFFFFF", "bottom-right", 220, None)

  /** What decoding yields that the pipeline reads: the pixel size and the
      metadata tags. */
  datatype Decoded = Decoded(width: int, height: int, meta: Metadata)

  /** What a successful call produces: the written path, the stamped text,
      the overlay plan and whether the pixels were flattened to RGB. */
  datatype Output = Output(path: Path, text: string, overlay: Overlay, flattenToRgb: bool)

  /** `process_image_file(inputFile, outputDir, cfg)`.  `decoded` is None
      when the file cannot be decoded; `saved` says whether creating the
      directory and writing the file succeed; `measure` is the text's
      measured width and height; `mtime` is the file's modification time. */
  function ProcessImageFile(inputFile: Path, outputDir: Path, cfg: Config,
                            decoded: Option<Decoded>, mtime: DateTime,
                            measure: string -> (int, int),
                            getrgb: string -> Option<Rgb>,
                            saved: bool): (r: Option<Output>)
    requires Valid(mtime)
    ensures r.Some? <==> decoded.Some? && saved
    ensures r.Some? ==>
      var out := r.value;
      var img := decoded.value;
      && Parent(out.path) == outputDir
      && Stem(Name(out.path)) == Stem(Name(inputFile)) + "_wm"
      && Suffix(Name(out.path)) == (if Lower(Suffix(Name(inputFile))) == ".png" then ".png" else ".jpg")
      && (out.flattenToRgb <==> Lower(Suffix(Name(inputFile))) != ".png")
      && ParseFormat(out.text, IsoDate) == Some(Midnight(ExifDate(img.meta).GetOr(mtime)))
      && out.overlay.primary.text == out.text
      && (out.overlay.primary.x, out.overlay.primary.y)
         == Position.ComputeTextPosition(img.width, img.height, measure(out.text).0,
                                         measure(out.text).1, cfg.position,
                                         Position.DefaultMargin)
      && 0 <= out.overlay.primary.alpha <= 255
      && out.overlay == DrawWatermark(img.width, img.height, out.text, measure(out.text).0,
                                      measure(out.text).1, cfg.colour, cfg.opacity,
                                      cfg.position, getrgb)
  {
    if decoded.None? || !saved then None
    else
      var img := decoded.value;
      var text := WatermarkText(img.meta, mtime);
      var (textW, textH) := measure(text);
      var overlay := DrawWatermark(img.width, img.height, text, textW, textH,
                                   cfg.colour, cfg.opacity, cfg.position, getrgb);
      var outName := OutName(Name(inputFile));
      OutNameShape(Name(inputFile));
      Some(Output(outputDir + [outName], text, overlay, FlattenToRgb(outName)))
  }

  /** A watermarked copy is itself named like an image, so a later run over
      a directory holding earlier output would stamp those copies again. */
  lemma OutputIsImageFile(inputFile: Path, outputDir: Path, cfg: Config,
                          decoded: Option<Decoded>, mtime: DateTime,
                          measure: string -> (int, int),
                          getrgb: string -> Option<Rgb>, saved: bool)
    requires Valid(mtime) && decoded.Some? && saved
    ensures IsImageFile(ProcessImageFile(inputFile, outputDir, cfg, decoded, mtime,
                                         measure, getrgb, saved).value.path)
  {
    OutNameShape(Name(inputFile));
  }

  /** With the default options the text sits 16 pixels from the right and
      bottom edges, both passes have alpha 220, and the fill is white unless
      the colour parser reads `#FFFFFF` as something else. */
  lemma DefaultsStampBottomRight(inputFile: Path, outputDir: Path,
                                 decoded: Option<Decoded>, mtime: DateTime,
                                 measure: string -> (int, int),
                                 getrgb: string -> Option<Rgb>, saved: bool)
    requires Valid(mtime) && decoded.Some? && saved
    ensures var out := ProcessImageFile(inputFile, outputDir, Defaults, decoded, mtime,
                                        measure, getrgb, saved).value;
      var (w, h) := measure(out.text);
      && Position.RightGap(decoded.value.width, w, out.overlay.primary.x) == 16
      && Position.BottomGap(decoded.value.height, h, out.overlay.primary.y) == 16
      && out.overlay.primary.alpha == 220 && out.overlay.shadow.alpha == 220
      && (getrgb("#FFFFFF").None? ==> out.overlay.primary.colour == White)
  {
  }
}
