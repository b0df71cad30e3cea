/**
 * The stylesheet text css-sprite.php writes: per group a header comment
 * naming the composite, then one rule per image giving its background
 * image, repeat keyword, negated offsets (`px`) and native size.
 */
module Css {
  import opened Wrappers
  import opened Text
  import opened Layout

  /** The three groups the passes read: `n` no-repeat, `y` repeat-y, `x` repeat-x. */
  datatype Group = NoRepeat | RepeatY | RepeatX

  /** The key of the group in `$imgs` and the `$type` passed to image_save. */
  function Tag(g: Group): char
  {
    match g
    case NoRepeat => 'n'
    case RepeatY => 'y'
    case RepeatX => 'x'
  }

  /** The composite file of a group, named from `--prefix`. */
  function SheetName(g: Group, prefix: string): string
  {
    match g
    case NoRepeat => prefix + ".png"
    case RepeatY => prefix + "-y.png"
    case RepeatX => prefix + "-x.png"
  }

  function RepeatKeyword(g: Group): string
  {
    match g
    case NoRepeat => "no-repeat"
    case RepeatY => "repeat-y"
    case RepeatX => "repeat-x"
  }

  /** The comment that opens a group's section; the `y` and `x` sections start with two blank lines. */
  function Header(g: Group, prefix: string): string
  {
    (if g == NoRepeat then "" else "\n\n") + "/* " + SheetName(g, prefix) + " */\n"
  }

  // ---------------------------------------------------------------------
  // px

  /** Reads a length as `px` writes it: the bare `0`, or an integer followed by `px`. */
  function ParsePx(s: string): Option<int>
  {
    if s == "0" then Some(0)
    else if 3 <= |s| && s[|s| - 2..] == "px" then
      var number := s[..|s| - 2];
      if number[0] == '-' && Canonical(number[1..]) then Some(-(DecimalValue(number[1..]) as int))
      else if Canonical(number) then Some(DecimalValue(number))
      else None
    else None
  }

  /** `px($n)`: the bare `0` for zero, otherwise the integer followed by `px`. */
  function Px(n: int): string
  {
    if n == 0 then "0" else IntToDecimal(n) + "px"
  }

  /** A positive length is its digits followed by `px`, and reads back. */
  lemma PxPositive(n: nat)
    requires n > 0
    ensures ParsePx(Px(n)) == Some(n as int)
  {
    var digits := NatToDecimal(n);
    DecimalOfPrinted(n);
    var s := Px(n);
    assert s == digits + "px";
    assert s[|s| - 2..] == "px";
    assert s[..|s| - 2] == digits;
    assert IsDigit(digits[0]);
  }

  /** A negative length is `-`, its digits and `px`, and reads back. */
  lemma PxNegative(n: nat)
    requires n > 0
    ensures ParsePx(Px(-(n as int))) == Some(-(n as int))
  {
    var digits := NatToDecimal(n);
    DecimalOfPrinted(n);
    var s := Px(-(n as int));
    var number := "-" + digits;
    assert s == number + "px";
    assert s[|s| - 2..] == "px";
    assert s[..|s| - 2] == number;
    assert number[1..] == digits;
  }

  /** The shape of what `px` writes: the bare `0` exactly for zero, otherwise a length ending in `px`, never a space. */
  lemma PxText(n: int)
    ensures (Px(n) == "0") <==> (n == 0)
    ensures n != 0 ==> EndsWith(Px(n), "px")
    ensures ' ' !in Px(n)
  {
    if n != 0 {
      var digits := NatToDecimal(if n < 0 then -n else n);
      assert forall i :: 0 <= i < |digits| ==> digits[i] != ' ';
      var s := Px(n);
      assert s[|s| - 2..] == "px";
      assert s[|s| - 1] == 'x';
    }
  }

  /** What `px` writes reads back as the number. */
  lemma PxReadsBack(n: int)
    ensures ParsePx(Px(n)) == Some(n)
  {
    if n > 0 {
      PxPositive(n);
    } else if n < 0 {
      PxNegative(-n);
    }
  }

  /** Reads a `background-position` pair back: two lengths separated by one space. */
  function ParsePosition(s: string): Option<(int, int)>
  {
    var parts := Split(s, ' ');
    if |parts| == 2 && ParsePx(parts[0]).Some? && ParsePx(parts[1]).Some? then
      Some((ParsePx(parts[0]).value, ParsePx(parts[1]).value))
    else None
  }

  /** `px($img['x'] * -1) . ' ' . px($img['y'] * -1)`. */
  function Position(p: Pos): string
  {
    Px(-(p.x as int)) + " " + Px(-(p.y as int))
  }

  /** The position text reads back as the negated offsets. */
  lemma PositionReadsBack(p: Pos)
    ensures ParsePosition(Position(p)) == Some((-(p.x as int), -(p.y as int)))
  {
    OffsetsReadBack(p);
    TwoPieces(Px(-(p.x as int)), Px(-(p.y as int)), ' ');
  }

  /** Both negated offsets, as `px` writes them, have no space and read back. */
  lemma OffsetsReadBack(p: Pos)
    ensures ' ' !in Px(-(p.x as int)) && ParsePx(Px(-(p.x as int))) == Some(-(p.x as int))
    ensures ' ' !in Px(-(p.y as int)) && ParsePx(Px(-(p.y as int))) == Some(-(p.y as int))
  {
    OffsetReadsBack(p.x);
    OffsetReadsBack(p.y);
  }

  /** A negated offset, as `px` writes it, has no space and reads back. */
  lemma OffsetReadsBack(v: nat)
    ensures ' ' !in Px(-(v as int)) && ParsePx(Px(-(v as int))) == Some(-(v as int))
  {
    var n := -(v as int);
    PxText(n);
    PxReadsBack(n);
  }

  // ---------------------------------------------------------------------
  // Rules

  /** `str_replace('.', '-', $k)`: the file name with every dot turned into a hyphen. */
  function Selector(name: string): (r: string)
    ensures |r| == |name| && '.' !in r
    ensures forall i :: 0 <= i < |name| && name[i] == '.' ==> r[i] == '-'
    ensures forall i :: 0 <= i < |name| && name[i] != '.' ==> r[i] == name[i]
  {
    seq(|name|, i requires 0 <= i < |name| => if name[i] == '.' then '-' else name[i])
  }

  /** `str_replace('.', '-', $k)` is `implode('-', explode('.', $k))`: the pieces between the dots, joined by hyphens. */
  lemma {:induction false} SelectorIsImplode(name: string)
    ensures Selector(name) == Join(Split(name, '.'), '-')
    decreases |name|
  {
    if name != [] {
      SelectorIsImplode(name[1..]);
      var rest := Split(name[1..], '.');
      var first := if name[0] == '.' then '-' else name[0];
      assert Selector(name) == [first] + Selector(name[1..]);
      if name[0] == '.' {
        assert ([[]] + rest)[1..] == rest;
      } else {
        JoinCons(name[0], rest, '-');
      }
    }
  }

  datatype Declaration = Declaration(property: string, value: string)

  predicate Declares(ds: seq<Declaration>, property: string)
  {
    exists i :: 0 <= i < |ds| && ds[i].property == property
  }

  /**
   * The declarations of an image's rule: the background (composite, repeat
   * keyword, negated offsets), then the native sizes the group declares.
   */
  function Declarations(g: Group, prefix: string, img: Img): (ds: seq<Declaration>)
    requires img.pos.Some?
    ensures |ds| >= 2
  {
    var background := Declaration("background", "url(" + SheetName(g, prefix) + ") " + RepeatKeyword(g) + " " + Position(img.pos.value));
    var width := Declaration("width", Px(img.width));
    var height := Declaration("height", Px(img.height));
    match g
    case NoRepeat => [background, width, height]
    case RepeatY => [background, width]
    case RepeatX => [background, height]
  }

  /** Every rule opens with the background, whose value ends in the position text. */
  lemma BackgroundFirst(g: Group, prefix: string, img: Img)
    requires img.pos.Some?
    ensures Declarations(g, prefix, img)[0].property == "background"
    ensures EndsWith(Declarations(g, prefix, img)[0].value, Position(img.pos.value))
  {
    var position := Position(img.pos.value);
    var head := "url(" + SheetName(g, prefix) + ") " + RepeatKeyword(g) + " ";
    assert Declarations(g, prefix, img)[0].value == head + position;
    assert (head + position)[|head|..] == position;
  }

  /**
   * After the background a rule gives native sizes only: `n` rules the
   * width and the height, `y` rules the width alone, `x` rules the height
   * alone.
   */
  lemma SizesDeclared(g: Group, prefix: string, img: Img)
    requires img.pos.Some?
    ensures var ds := Declarations(g, prefix, img);
      && (Declares(ds, "width") <==> g != RepeatX)
      && (Declares(ds, "height") <==> g != RepeatY)
      && forall i :: 1 <= i < |ds| ==> ds[i] == Declaration("width", Px(img.width)) || ds[i] == Declaration("height", Px(img.height))
  {
    var ds := Declarations(g, prefix, img);
    assert ds[0].property == "background";
    assert "width" != "background" && "height" != "background" && "width" != "height";
    match g
    case NoRepeat =>
      assert ds[1].property == "width" && ds[2].property == "height";
    case RepeatY =>
      assert ds[1].property == "width";
    case RepeatX =>
      assert ds[1].property == "height";
  }

  /** `property:value` pairs separated by `; `. */
  function DeclarationsText(ds: seq<Declaration>): string
    requires |ds| > 0
    decreases |ds|
  {
    ds[0].property + ":" + ds[0].value + (if |ds| == 1 then "" else "; " + DeclarationsText(ds[1..]))
  }

  /** One image's rule, as the loops of lines 131-133, 144-146 and 156-158 build it. */
  function Rule(g: Group, prefix: string, img: Img): string
    requires img.pos.Some?
  {
    "." + Selector(img.name) + "  {\n" + "  " + DeclarationsText(Declarations(g, prefix, img)) + ";\n" + "}\n"
  }

  predicate AllPlaced(s: seq<Img>)
  {
    forall i :: 0 <= i < |s| ==> s[i].pos.Some?
  }

  /** The rules of a placed group, in group order. */
  function Rules(g: Group, prefix: string, s: seq<Img>): string
    requires AllPlaced(s)
    decreases |s|
  {
    if s == [] then "" else Rules(g, prefix, s[..|s| - 1]) + Rule(g, prefix, s[|s| - 1])
  }

  /** `$css[$type]` after its loop: the header, then the rules. */
  function Section(g: Group, prefix: string, s: seq<Img>): string
    requires AllPlaced(s)
  {
    Header(g, prefix) + Rules(g, prefix, s)
  }

  /** One more image in the group appends its rule to the section. */
  lemma SectionAppend(g: Group, prefix: string, s: seq<Img>, img: Img)
    requires AllPlaced(s) && img.pos.Some?
    ensures AllPlaced(s + [img])
    ensures Section(g, prefix, s + [img]) == Section(g, prefix, s) + Rule(g, prefix, img)
  {
    var t := s + [img];
    AllPlacedAppend(s, img);
    assert t[..|t| - 1] == s;
    assert Rules(g, prefix, t) == Rules(g, prefix, s) + Rule(g, prefix, img);
    ConcatAssoc(Header(g, prefix), Rules(g, prefix, s), Rule(g, prefix, img));
  }

  lemma AllPlacedAppend(s: seq<Img>, img: Img)
    requires AllPlaced(s) && img.pos.Some?
    ensures AllPlaced(s + [img])
  {
    assert forall i :: 0 <= i < |s| ==> (s + [img])[i] == s[i];
  }
}
