/**
 * What image_save decides before any pixel is touched: whether a composite
 * is drawn at all, its background matte, and the destination rectangle of
 * every image copied into it. The GD calls that do the drawing are not part
 * of this model; a Canvas is the list of what they would be asked to do.
 */
module Composite {
  import opened Wrappers
  import opened Text
  import opened Layout

  /** One colour component of a solid matte: a piece of the `--matte` text, or `array_pad`'s 255. */
  datatype Channel = Given(text: string) | Full

  datatype Matte = Transparent | Solid(red: Channel, green: Channel, blue: Channel)

  function ChannelAt(pieces: seq<string>, i: nat): Channel
  {
    if i < |pieces| then Given(pieces[i]) else Full
  }

  /**
   * Lines 183 and 192: the word `transparent`, or
   * `list($r, $g, $b) = array_pad(explode(',', $matte), 3, 255)`.
   */
  function ParseMatte(matte: string): Matte
  {
    if matte == "transparent" then Transparent
    else
      var pieces := Split(matte, ',');
      Solid(ChannelAt(pieces, 0), ChannelAt(pieces, 1), ChannelAt(pieces, 2))
  }

  /**
   * A comma-separated matte gives its first three pieces as the components;
   * missing ones are 255 and pieces past the third are ignored.
   */
  lemma MatteComponents(pieces: seq<string>)
    requires |pieces| > 0 && forall p :: p in pieces ==> ',' !in p
    requires Join(pieces, ',') != "transparent"
    ensures ParseMatte(Join(pieces, ',')) == Solid(ChannelAt(pieces, 0), ChannelAt(pieces, 1), ChannelAt(pieces, 2))
  {
    SplitJoin(pieces, ',');
  }

  /**
   * A matte option that was not given reaches image_save as NULL, which
   * reads as the empty string: it is not `transparent`, `explode` gives one
   * empty piece, and the other two components are 255.
   */
  lemma OmittedMatte()
    ensures ParseMatte("") == Solid(Given(""), Full, Full)
  {
  }

  /** `imagecopyresampled`'s rectangle arguments. */
  datatype Rect = Rect(x: int, y: int, w: int, h: int)

  /** One call of image_overlay: the file to open, its type, where it goes and what part of it is taken. */
  datatype Overlay = Overlay(file: string, extension: string, dst: Rect, src: Rect)

  /** A composite image_save draws: its file, size, background and the overlays in drawing order. */
  datatype Canvas = Canvas(file: string, width: nat, height: nat, matte: Matte, overlays: seq<Overlay>)

  /**
   * Lines 204-209: the destination of an image in the composite of type
   * `kind` and size `w` by `h`. In the `x` composite an image starts at the
   * left edge and is stretched to the full width, in the `y` composite it is
   * stretched to the full height; `dst_y` is tested against `'t'`, which
   * is no group's type.
   */
  function Destination(kind: char, img: Img, w: nat, h: nat): Rect
    requires img.pos.Some?
  {
    Rect(if kind == 'x' then 0 else img.pos.value.x,
         if kind == 't' then 0 else img.pos.value.y,
         if kind == 'x' then w else img.width,
         if kind == 'y' then h else img.height)
  }

  function OverlayOf(kind: char, img: Img, w: nat, h: nat): Overlay
    requires img.pos.Some?
  {
    Overlay(img.name, img.extension, Destination(kind, img, w, h), Rect(0, 0, img.width, img.height))
  }

  /**
   * The overlays of a group, in group order, skipping images that fail the
   * `isset` test of line 199 (here: that carry no placement).
   */
  function Overlays(imgs: seq<Img>, kind: char, w: nat, h: nat): (r: seq<Overlay>)
    ensures |r| <= |imgs|
    ensures (forall i :: 0 <= i < |imgs| ==> imgs[i].pos.Some?) ==>
      |r| == |imgs| && forall i :: 0 <= i < |imgs| ==> r[i] == OverlayOf(kind, imgs[i], w, h)
    decreases |imgs|
  {
    if imgs == [] then []
    else
      var init := Overlays(imgs[..|imgs| - 1], kind, w, h);
      var last := imgs[|imgs| - 1];
      if last.pos.Some? then init + [OverlayOf(kind, last, w, h)] else init
  }

  /** What image_save does with a group: nothing when either side of the canvas is 0. */
  function Sheet(imgs: seq<Img>, file: string, w: nat, h: nat, kind: char, matte: string): Option<Canvas>
  {
    if w == 0 || h == 0 then None
    else Some(Canvas(file, w, h, ParseMatte(matte), Overlays(imgs, kind, w, h)))
  }

  /** Lines 176-219 of css-sprite.php, the drawing left out: the loop collects the overlays. */
  method ImageSave(imgs: seq<Img>, file: string, w: nat, h: nat, kind: char, matte: string) returns (canvas: Option<Canvas>)
    ensures canvas.None? <==> w == 0 || h == 0
    ensures canvas.Some? ==> canvas.value == Canvas(file, w, h, ParseMatte(matte), Overlays(imgs, kind, w, h))
  {
    if w == 0 || h == 0 {
      return None;
    }
    var background := ParseMatte(matte);
    var drawn := [];
    for i := 0 to |imgs|
      invariant drawn == Overlays(imgs[..i], kind, w, h)
    {
      if imgs[i].pos.Some? {
        drawn := drawn + [OverlayOf(kind, imgs[i], w, h)];
      }
      assert imgs[..i + 1][..i] == imgs[..i];
    }
    assert imgs[..|imgs|] == imgs;
    canvas := Some(Canvas(file, w, h, background, drawn));
  }

  // ---------------------------------------------------------------------
  // Where the overlays land

  /**
   * The `n` composite: every image is copied at its native size to its
   * placement, inside the canvas, and each one ends before the next begins.
   */
  lemma NoRepeatOverlays(s: seq<Img>, matte: string, file: string)
    requires RowWidth(s) > 0 && MaxHeight(s) > 0
    ensures var c := Sheet(RowPlaced(s), file, RowWidth(s), MaxHeight(s), 'n', matte);
      && c.Some? && |c.value.overlays| == |s|
      && (forall i :: 0 <= i < |s| ==>
            var d := c.value.overlays[i].dst;
            d == Rect(RowPlacement(s, i).x, 0, s[i].width, s[i].height)
            && 0 <= d.x && d.x + d.w <= c.value.width && d.y + d.h <= c.value.height)
      && (forall i, j :: 0 <= i < j < |s| ==> c.value.overlays[i].dst.x + c.value.overlays[i].dst.w <= c.value.overlays[j].dst.x)
  {
    var placed := RowPlaced(s);
    var c := Sheet(placed, file, RowWidth(s), MaxHeight(s), 'n', matte);
    forall i | 0 <= i < |s|
      ensures var d := c.value.overlays[i].dst; d.x + d.w <= c.value.width && d.y + d.h <= c.value.height
    {
      RowInside(s, i);
    }
    forall i, j | 0 <= i < j < |s|
      ensures c.value.overlays[i].dst.x + c.value.overlays[i].dst.w <= c.value.overlays[j].dst.x
    {
      RowOrdered(s, i, j);
    }
  }

  /**
   * The `y` composite: every image is stretched to the full canvas height
   * in its own column, inside the canvas, each column ending before the
   * next begins.
   */
  lemma RepeatYOverlays(s: seq<Img>, matte: string, file: string)
    requires RowWidth(s) > 0 && MaxHeight(s) > 0
    ensures var c := Sheet(RowPlaced(s), file, RowWidth(s), MaxHeight(s), 'y', matte);
      && c.Some? && |c.value.overlays| == |s|
      && (forall i :: 0 <= i < |s| ==>
            var d := c.value.overlays[i].dst;
            d == Rect(RowPlacement(s, i).x, 0, s[i].width, c.value.height)
            && 0 <= d.x && d.x + d.w <= c.value.width)
      && (forall i, j :: 0 <= i < j < |s| ==> c.value.overlays[i].dst.x + c.value.overlays[i].dst.w <= c.value.overlays[j].dst.x)
  {
    var placed := RowPlaced(s);
    var c := Sheet(placed, file, RowWidth(s), MaxHeight(s), 'y', matte);
    forall i | 0 <= i < |s|
      ensures var d := c.value.overlays[i].dst; d.x + d.w <= c.value.width
    {
      RowInside(s, i);
    }
    forall i, j | 0 <= i < j < |s|
      ensures c.value.overlays[i].dst.x + c.value.overlays[i].dst.w <= c.value.overlays[j].dst.x
    {
      RowOrdered(s, i, j);
    }
  }

  /**
   * The `x` composite: every image is stretched to the full canvas width
   * from the left edge, stacked inside the canvas, each ending before the
   * next begins.
   */
  lemma RepeatXOverlays(s: seq<Img>, matte: string, file: string)
    requires MaxWidth(s) > 0 && ColumnHeight(s) > 0
    ensures var c := Sheet(ColumnPlaced(s), file, MaxWidth(s), ColumnHeight(s), 'x', matte);
      && c.Some? && |c.value.overlays| == |s|
      && (forall i :: 0 <= i < |s| ==>
            var d := c.value.overlays[i].dst;
            d == Rect(0, ColumnPlacement(s, i).y, c.value.width, s[i].height)
            && 0 <= d.y && d.y + d.h <= c.value.height)
      && (forall i, j :: 0 <= i < j < |s| ==> c.value.overlays[i].dst.y + c.value.overlays[i].dst.h <= c.value.overlays[j].dst.y)
  {
    var placed := ColumnPlaced(s);
    var c := Sheet(placed, file, MaxWidth(s), ColumnHeight(s), 'x', matte);
    forall i | 0 <= i < |s|
      ensures var d := c.value.overlays[i].dst; d.y + d.h <= c.value.height
    {
      ColumnInside(s, i);
    }
    forall i, j | 0 <= i < j < |s|
      ensures c.value.overlays[i].dst.y + c.value.overlays[i].dst.h <= c.value.overlays[j].dst.y
    {
      ColumnOrdered(s, i, j);
    }
  }
}
