/** Placement of the watermark text: a pure map from image size, text size
    and an anchor name to the top-left corner of the text box
    (`compute_text_position`, watermark.py lines 69-81).  Coordinates are
    never clamped, so a text larger than the image lands partly outside it. */
module Position {

  /** The margin every caller uses (the parameter's default). */
  const DefaultMargin: int := 16

  /** The anchor names the command line admits, the last being its default. */
  const Anchors: seq<string> := ["top-left", "top-right", "center", "bottom-left", "bottom-right"]

  /** The four anchors `compute_text_position` compares against by name. */
  predicate IsExplicitAnchor(position: string) {
    position == "top-left" || position == "top-right" || position == "center" ||
    position == "bottom-left"
  }

  /** Python's `n // 2`: floor division, also for negative `n`. */
  function FloorHalf(n: int): (q: int)
    ensures 2 * q <= n < 2 * q + 2
  {
    n / 2
  }

  /** Distances from the text box to the four image edges. */
  function LeftGap(x: int): int { x }
  function TopGap(y: int): int { y }
  function RightGap(imgW: int, textW: int, x: int): int { imgW - (x + textW) }
  function BottomGap(imgH: int, textH: int, y: int): int { imgH - (y + textH) }

  /** Where the text box goes.  Each anchor is stated by the gaps it keeps:
      the named edges sit exactly `margin` away, and `center` splits the
      free space evenly, any odd pixel going to the right or bottom.  Any
      name other than the first four means bottom-right. */
  function ComputeTextPosition(imgW: int, imgH: int, textW: int, textH: int,
                               position: string, margin: int): (r: (int, int))
    ensures position == "top-left" ==>
      LeftGap(r.0) == margin && TopGap(r.1) == margin
    ensures position == "top-right" ==>
      RightGap(imgW, textW, r.0) == margin && TopGap(r.1) == margin
    ensures position == "center" ==>
      && 0 <= RightGap(imgW, textW, r.0) - LeftGap(r.0) <= 1
      && 0 <= BottomGap(imgH, textH, r.1) - TopGap(r.1) <= 1
    ensures position == "bottom-left" ==>
      LeftGap(r.0) == margin && BottomGap(imgH, textH, r.1) == margin
    ensures !IsExplicitAnchor(position) ==>
      RightGap(imgW, textW, r.0) == margin && BottomGap(imgH, textH, r.1) == margin
  {
    if position == "top-left" then (margin, margin)
    else if position == "top-right" then (imgW - textW - margin, margin)
    else if position == "center" then (FloorHalf(imgW - textW), FloorHalf(imgH - textH))
    else if position == "bottom-left" then (margin, imgH - textH - margin)
    else (imgW - textW - margin, imgH - textH - margin)
  }

  /** Among the names the command line admits, the fallback branch serves
      exactly `bottom-right`: every other admitted name has its own branch. */
  lemma AdmittedAnchors()
    ensures forall p :: p in Anchors ==> (IsExplicitAnchor(p) <==> p != "bottom-right")
    ensures forall p :: IsExplicitAnchor(p) ==> p in Anchors
  {
  }

  /** A name outside the four explicit anchors (a misspelt one included) is
      placed exactly like `bottom-right`. */
  lemma UnknownAnchorIsBottomRight(imgW: int, imgH: int, textW: int, textH: int,
                                   position: string, margin: int)
    requires !IsExplicitAnchor(position)
    ensures ComputeTextPosition(imgW, imgH, textW, textH, position, margin)
         == ComputeTextPosition(imgW, imgH, textW, textH, "bottom-right", margin)
  {
  }

  /** When the text plus both margins fits, every anchor keeps the whole
      text box inside the image. */
  lemma InsideWhenFits(imgW: int, imgH: int, textW: int, textH: int,
                       position: string, margin: int)
    requires 0 <= margin && 0 <= textW && 0 <= textH
    requires textW + 2 * margin <= imgW && textH + 2 * margin <= imgH
    ensures var r := ComputeTextPosition(imgW, imgH, textW, textH, position, margin);
      0 <= r.0 && r.0 + textW <= imgW && 0 <= r.1 && r.1 + textH <= imgH
  {
  }

  /** No clamping: a text wider than the image minus one margin starts left
      of the image for every right-aligned anchor. */
  lemma OffCanvasWhenTooWide(imgW: int, imgH: int, textW: int, textH: int,
                             position: string, margin: int)
    requires textW + margin > imgW
    requires position == "top-right" || !IsExplicitAnchor(position)
    ensures ComputeTextPosition(imgW, imgH, textW, textH, position, margin).0 < 0
  {
  }
}
