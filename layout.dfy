/**
 * The layout arithmetic of css-sprite.php's three passes, stated in closed
 * form. The `n` and `y` passes lay a group out left to right along a row
 * with a running cursor `$x` and the padding parsed from the names; the `x`
 * pass stacks a group top to bottom with a running cursor `$y` and ignores
 * padding. The passes themselves are the methods Sprite.PlaceRow and
 * Sprite.PlaceColumn; this module says what they compute and proves that
 * the placements are ordered, disjoint and inside the canvas.
 */
module Layout {
  import opened Wrappers

  /** An image's top-left corner inside its composite (`$img['x']`, `$img['y']`). */
  datatype Pos = Pos(x: nat, y: nat)

  /**
   * One entry of a group: its file name (the key in `$imgs[$type]`), what
   * image_get_info reported, the paddings parsed from the name, and the
   * placement, which its group's pass sets.
   */
  datatype Img = Img(name: string, width: nat, height: nat, extension: string, padLeft: nat, padRight: nat, pos: Option<Pos>)

  function Max(a: nat, b: nat): nat { if a < b then b else a }

  /** The room an image takes in a row: left padding, width, right padding. */
  function Span(img: Img): nat { img.padLeft + img.width + img.padRight }

  /** The sum of the spans: where the row cursor `$x` stands after these images. */
  function RowWidth(s: seq<Img>): nat
    decreases |s|
  {
    if s == [] then 0 else RowWidth(s[..|s| - 1]) + Span(s[|s| - 1])
  }

  /** The sum of the heights: where the column cursor `$y` stands after these images. */
  function ColumnHeight(s: seq<Img>): nat
    decreases |s|
  {
    if s == [] then 0 else ColumnHeight(s[..|s| - 1]) + s[|s| - 1].height
  }

  /** `$y = max($y, $img['height'])` over a row: the tallest image, or 0 for none. */
  function MaxHeight(s: seq<Img>): (r: nat)
    ensures forall i :: 0 <= i < |s| ==> s[i].height <= r
    ensures s == [] ==> r == 0
    decreases |s|
  {
    if s == [] then 0 else Max(MaxHeight(s[..|s| - 1]), s[|s| - 1].height)
  }

  /** `$x = max($x, $img['width'])` over a column: the widest image, or 0 for none. */
  function MaxWidth(s: seq<Img>): (r: nat)
    ensures forall i :: 0 <= i < |s| ==> s[i].width <= r
    ensures s == [] ==> r == 0
    decreases |s|
  {
    if s == [] then 0 else Max(MaxWidth(s[..|s| - 1]), s[|s| - 1].width)
  }

  /** The row height is the height of some image of the row. */
  lemma {:induction false} MaxHeightAttained(s: seq<Img>)
    requires s != []
    ensures exists i :: 0 <= i < |s| && s[i].height == MaxHeight(s)
    decreases |s|
  {
    var n := |s| - 1;
    if n > 0 && MaxHeight(s[..n]) >= s[n].height {
      MaxHeightAttained(s[..n]);
      var i :| 0 <= i < n && s[..n][i].height == MaxHeight(s[..n]);
      assert s[i].height == MaxHeight(s);
    } else {
      assert s[n].height == MaxHeight(s);
    }
  }

  /** The column width is the width of some image of the column. */
  lemma {:induction false} MaxWidthAttained(s: seq<Img>)
    requires s != []
    ensures exists i :: 0 <= i < |s| && s[i].width == MaxWidth(s)
    decreases |s|
  {
    var n := |s| - 1;
    if n > 0 && MaxWidth(s[..n]) >= s[n].width {
      MaxWidthAttained(s[..n]);
      var i :| 0 <= i < n && s[..n][i].width == MaxWidth(s[..n]);
      assert s[i].width == MaxWidth(s);
    } else {
      assert s[n].width == MaxWidth(s);
    }
  }

  /** Where a row pass puts image i: past the spans of the images before it and its own left padding, on the top edge. */
  function RowPlacement(s: seq<Img>, i: nat): Pos
    requires i < |s|
  {
    Pos(RowWidth(s[..i]) + s[i].padLeft, 0)
  }

  /** Where the column pass puts image i: on the left edge, below the images before it. */
  function ColumnPlacement(s: seq<Img>, i: nat): Pos
    requires i < |s|
  {
    Pos(0, ColumnHeight(s[..i]))
  }

  /** A group after a row pass: every image carries its row placement, nothing else changes. */
  function RowPlaced(s: seq<Img>): (r: seq<Img>)
    ensures |r| == |s|
    ensures forall i {:trigger r[i]} :: 0 <= i < |s| ==> r[i] == s[i].(pos := Some(RowPlacement(s, i)))
  {
    seq(|s|, i requires 0 <= i < |s| => s[i].(pos := Some(RowPlacement(s, i))))
  }

  /** A group after the column pass. */
  function ColumnPlaced(s: seq<Img>): (r: seq<Img>)
    ensures |r| == |s|
    ensures forall i {:trigger r[i]} :: 0 <= i < |s| ==> r[i] == s[i].(pos := Some(ColumnPlacement(s, i)))
  {
    seq(|s|, i requires 0 <= i < |s| => s[i].(pos := Some(ColumnPlacement(s, i))))
  }

  // ---------------------------------------------------------------------
  // Row passes (`n` and `y`)

  /** Widths add up over concatenation. */
  lemma {:induction false} RowWidthAppend(a: seq<Img>, b: seq<Img>)
    ensures RowWidth(a + b) == RowWidth(a) + RowWidth(b)
    decreases |b|
  {
    if b == [] {
      assert a + b == a;
    } else {
      var init := b[..|b| - 1];
      RowWidthAppend(a, init);
      assert (a + b)[..|a + b| - 1] == a + init;
    }
  }

  /** One step of the cursor: the prefix through image i is the prefix before it plus its span. */
  lemma RowWidthStep(s: seq<Img>, i: nat)
    requires i < |s|
    ensures RowWidth(s[..i + 1]) == RowWidth(s[..i]) + Span(s[i])
  {
    assert s[..i + 1][..i] == s[..i];
  }

  lemma RowWidthMonotone(s: seq<Img>, i: nat, j: nat)
    requires i <= j <= |s|
    ensures RowWidth(s[..i]) <= RowWidth(s[..j])
  {
    assert s[..j] == s[..i] + s[i..j];
    RowWidthAppend(s[..i], s[i..j]);
  }

  /**
   * Consecutive row placements: the first image starts at its left padding,
   * and each next one starts past the previous image, its right padding and
   * its own left padding.
   */
  lemma RowSteps(s: seq<Img>, i: nat)
    requires i + 1 < |s|
    ensures RowPlacement(s, 0).x == s[0].padLeft
    ensures RowPlacement(s, i + 1).x == RowPlacement(s, i).x + s[i].width + s[i].padRight + s[i + 1].padLeft
  {
    RowWidthStep(s, i);
  }

  /**
   * Row placements are ordered and disjoint: an earlier image, with its
   * right padding, ends before a later one's left padding begins.
   */
  lemma RowOrdered(s: seq<Img>, i: nat, j: nat)
    requires i < j < |s|
    ensures RowPlacement(s, i).x + s[i].width + s[i].padRight <= RowPlacement(s, j).x - s[j].padLeft
  {
    RowWidthStep(s, i);
    RowWidthMonotone(s, i + 1, j);
  }

  /** Every row placement, with its paddings, lies inside the canvas `($x, $y)` the pass ends with. */
  lemma RowInside(s: seq<Img>, i: nat)
    requires i < |s|
    ensures s[i].padLeft <= RowPlacement(s, i).x
    ensures RowPlacement(s, i).x + s[i].width + s[i].padRight <= RowWidth(s)
    ensures RowPlacement(s, i).y + s[i].height <= MaxHeight(s)
  {
    RowWidthStep(s, i);
    RowWidthMonotone(s, i + 1, |s|);
    assert s[..|s|] == s;
  }

  /** The tallest image so far, one image further. */
  lemma MaxHeightStep(s: seq<Img>, i: nat)
    requires i < |s|
    ensures MaxHeight(s[..i + 1]) == Max(MaxHeight(s[..i]), s[i].height)
  {
    assert s[..i + 1][..i] == s[..i];
  }

  /** Image i after a row pass, in closed form. */
  lemma RowPlacedAt(s: seq<Img>, i: nat)
    requires i < |s|
    ensures RowPlaced(s)[i] == s[i].(pos := Some(Pos(RowWidth(s[..i]) + s[i].padLeft, 0)))
  {
    assert RowPlaced(s)[i] == s[i].(pos := Some(RowPlacement(s, i)));
  }

  /** The canvas width is tight: the last image's right padding ends exactly at it. */
  lemma RowTight(s: seq<Img>)
    requires s != []
    ensures RowPlacement(s, |s| - 1).x + s[|s| - 1].width + s[|s| - 1].padRight == RowWidth(s)
  {
    RowWidthStep(s, |s| - 1);
    assert s[..|s|] == s;
  }

  // ---------------------------------------------------------------------
  // The column pass (`x`)

  lemma {:induction false} ColumnHeightAppend(a: seq<Img>, b: seq<Img>)
    ensures ColumnHeight(a + b) == ColumnHeight(a) + ColumnHeight(b)
    decreases |b|
  {
    if b == [] {
      assert a + b == a;
    } else {
      var init := b[..|b| - 1];
      ColumnHeightAppend(a, init);
      assert (a + b)[..|a + b| - 1] == a + init;
    }
  }

  lemma ColumnHeightStep(s: seq<Img>, i: nat)
    requires i < |s|
    ensures ColumnHeight(s[..i + 1]) == ColumnHeight(s[..i]) + s[i].height
  {
    assert s[..i + 1][..i] == s[..i];
  }

  lemma ColumnHeightMonotone(s: seq<Img>, i: nat, j: nat)
    requires i <= j <= |s|
    ensures ColumnHeight(s[..i]) <= ColumnHeight(s[..j])
  {
    assert s[..j] == s[..i] + s[i..j];
    ColumnHeightAppend(s[..i], s[i..j]);
  }

  /** The first image is at the top; each next one starts where the previous one ends. */
  lemma ColumnSteps(s: seq<Img>, i: nat)
    requires i + 1 < |s|
    ensures ColumnPlacement(s, 0).y == 0
    ensures ColumnPlacement(s, i + 1).y == ColumnPlacement(s, i).y + s[i].height
  {
    ColumnHeightStep(s, i);
  }

  /** Column placements are ordered and disjoint: an earlier image ends before a later one begins. */
  lemma ColumnOrdered(s: seq<Img>, i: nat, j: nat)
    requires i < j < |s|
    ensures ColumnPlacement(s, i).y + s[i].height <= ColumnPlacement(s, j).y
  {
    ColumnHeightStep(s, i);
    ColumnHeightMonotone(s, i + 1, j);
  }

  /** Every column placement lies inside the canvas `($x, $y)` the pass ends with. */
  lemma ColumnInside(s: seq<Img>, i: nat)
    requires i < |s|
    ensures ColumnPlacement(s, i).x + s[i].width <= MaxWidth(s)
    ensures ColumnPlacement(s, i).y + s[i].height <= ColumnHeight(s)
  {
    ColumnHeightStep(s, i);
    ColumnHeightMonotone(s, i + 1, |s|);
    assert s[..|s|] == s;
  }

  /** The widest image so far, one image further. */
  lemma MaxWidthStep(s: seq<Img>, i: nat)
    requires i < |s|
    ensures MaxWidth(s[..i + 1]) == Max(MaxWidth(s[..i]), s[i].width)
  {
    assert s[..i + 1][..i] == s[..i];
  }

  /** Image i after the column pass, in closed form. */
  lemma ColumnPlacedAt(s: seq<Img>, i: nat)
    requires i < |s|
    ensures ColumnPlaced(s)[i] == s[i].(pos := Some(Pos(0, ColumnHeight(s[..i]))))
  {
    assert ColumnPlaced(s)[i] == s[i].(pos := Some(ColumnPlacement(s, i)));
  }

  /** The canvas height is tight: the last image ends exactly at it. */
  lemma ColumnTight(s: seq<Img>)
    requires s != []
    ensures ColumnPlacement(s, |s| - 1).y + s[|s| - 1].height == ColumnHeight(s)
  {
    ColumnHeightStep(s, |s| - 1);
    assert s[..|s|] == s;
  }

  /** Two groups that agree on every image's width and height. */
  predicate SameSizes(s: seq<Img>, t: seq<Img>)
  {
    |s| == |t| && forall i :: 0 <= i < |s| ==> s[i].width == t[i].width && s[i].height == t[i].height
  }

  /** The column pass reads no padding: groups of the same sizes get the same canvas and placements. */
  lemma {:induction false} ColumnIgnoresPadding(s: seq<Img>, t: seq<Img>)
    requires SameSizes(s, t)
    ensures ColumnHeight(s) == ColumnHeight(t) && MaxWidth(s) == MaxWidth(t)
    ensures forall i :: 0 <= i < |s| ==> ColumnPlacement(s, i) == ColumnPlacement(t, i)
    decreases |s|
  {
    if s != [] {
      var n := |s| - 1;
      assert SameSizes(s[..n], t[..n]);
      ColumnIgnoresPadding(s[..n], t[..n]);
      forall i | 0 <= i < |s|
        ensures ColumnPlacement(s, i) == ColumnPlacement(t, i)
      {
        if i < n {
          assert s[..n][..i] == s[..i] && t[..n][..i] == t[..i];
          assert ColumnPlacement(s[..n], i) == ColumnPlacement(t[..n], i);
        }
      }
    }
  }
}
