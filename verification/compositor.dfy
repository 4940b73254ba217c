/** The non-raster decisions of `draw_watermark` (watermark.py lines
    93-113): where the two text passes go, in which colour, and with which
    alpha.  The pixels themselves, the RGBA conversion and the final alpha
    composite belong to the imaging library and are not modelled; the text
    size is what the library measured, and the colour parser is a function
    parameter. */
module Compositor {
  import opened Wrappers
  import Position

  type Byte = x: int | 0 <= x <= 255

  datatype Rgb = Rgb(red: Byte, green: Byte, blue: Byte)

  const White: Rgb := Rgb(255, 255, 255)
  const Black: Rgb := Rgb(0, 0, 0)

  /** How far the shadow pass is shifted right and down. */
  const ShadowOffset: int := 2

  /** One `draw.text` call on the overlay. */
  datatype TextDraw = TextDraw(x: int, y: int, text: string, colour: Rgb, alpha: int)

  /** The two passes, drawn in this order, so the primary text lies on top
      of its shadow. */
  datatype Overlay = Overlay(shadow: TextDraw, primary: TextDraw)

  /** `max(0, min(255, opacity))`: the alpha of the primary text. */
  function FillAlpha(opacity: int): (a: int)
    ensures 0 <= a <= 255
    ensures a == opacity <==> 0 <= opacity <= 255
    ensures opacity < 0 ==> a == 0
    ensures opacity > 255 ==> a == 255
  {
    if opacity < 0 then 0 else if opacity > 255 then 255 else opacity
  }

  /** `min(255, opacity)`: the alpha of the shadow, capped from above only. */
  function ShadowAlpha(opacity: int): (a: int)
    ensures a <= 255
    ensures a == opacity <==> opacity <= 255
    ensures opacity > 255 ==> a == 255
  {
    if opacity > 255 then 255 else opacity
  }

  /** Clamping is idempotent and settles every opacity inside [0,255]. */
  lemma FillAlphaIdempotent(opacity: int)
    ensures FillAlpha(FillAlpha(opacity)) == FillAlpha(opacity)
    ensures FillAlpha(opacity) == FillAlpha(ShadowAlpha(opacity))
  {
  }

  /** The two passes share one alpha exactly when the opacity is not
      negative; a negative opacity gives the shadow a negative alpha while
      the text itself gets 0. */
  lemma AlphasAgreeIff(opacity: int)
    ensures FillAlpha(opacity) == ShadowAlpha(opacity) <==> opacity >= 0
  {
  }

  /** The fill colour: what the colour parser gives, or white when it
      rejects the string. */
  function FillColour(colour: string, getrgb: string -> Option<Rgb>): (c: Rgb)
    ensures getrgb(colour).Some? ==> c == getrgb(colour).value
    ensures getrgb(colour).None? ==> c == White
  {
    getrgb(colour).GetOr(White)
  }

  /** The overlay plan for a `textW` x `textH` text on an `imgW` x `imgH`
      image: the primary pass at the anchor position in the fill colour
      with the clamped alpha, the shadow pass in black two pixels right and
      down with the capped alpha, both with the same text. */
  function DrawWatermark(imgW: int, imgH: int, text: string, textW: int, textH: int,
                         colour: string, opacity: int, position: string,
                         getrgb: string -> Option<Rgb>): (o: Overlay)
    ensures (o.primary.x, o.primary.y)
         == Position.ComputeTextPosition(imgW, imgH, textW, textH, position, Position.DefaultMargin)
    ensures o.shadow.x == o.primary.x + ShadowOffset && o.shadow.y == o.primary.y + ShadowOffset
    ensures o.shadow.text == text && o.primary.text == text
    ensures o.shadow.colour == Black
    ensures getrgb(colour).None? ==> o.primary.colour == White
    ensures getrgb(colour).Some? ==> o.primary.colour == getrgb(colour).value
    ensures 0 <= o.primary.alpha <= 255 && o.shadow.alpha <= 255
    ensures 0 <= opacity <= 255 ==> o.primary.alpha == opacity && o.shadow.alpha == opacity
    ensures opacity < 0 ==> o.primary.alpha == 0 && o.shadow.alpha == opacity
    ensures opacity > 255 ==> o.primary.alpha == 255 && o.shadow.alpha == 255
    ensures o.primary.alpha == FillAlpha(opacity) && o.shadow.alpha == ShadowAlpha(opacity)
  {
    var (x, y) := Position.ComputeTextPosition(imgW, imgH, textW, textH, position, Position.DefaultMargin);
    var fill := FillColour(colour, getrgb);
    Overlay(TextDraw(x + ShadowOffset, y + ShadowOffset, text, Black, ShadowAlpha(opacity)),
            TextDraw(x, y, text, fill, FillAlpha(opacity)))
  }
}
