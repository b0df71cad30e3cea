/**
 * The script itself, from the directory loop to the stylesheet text: the
 * loop that sorts directory entries into the groups `$imgs`, the three
 * passes that place each group's images in place and write its section of
 * the stylesheet, and the composites image_save is asked to draw.
 *
 * Reading the directory, image_get_info and every file written are not part
 * of this model: the directory is a sequence of entries in the order
 * `readdir` returns them, each carrying what image_get_info would report.
 */
module Sprite {
  import opened Wrappers
  import opened Classifier
  import opened Layout
  import opened Css
  import opened Composite

  /** What image_get_info reports about a file. */
  datatype ImageInfo = ImageInfo(width: nat, height: nat, extension: string)

  /** A directory entry: its name and what image_get_info would report for it. */
  datatype DirEntry = DirEntry(name: string, info: ImageInfo)

  /** The group entry line 108 stores: the image's information plus the two paddings, not yet placed. */
  function MakeImg(e: DirEntry, f: Fragment): Img
  {
    Img(e.name, e.info.width, e.info.height, e.info.extension, f.padLeft, f.padRight, None)
  }

  /** `$imgs`: the groups, keyed by the captured tag; each group is kept in insertion order. */
  type Groups = map<char, seq<Img>>

  /** Line 101: the four groups the script starts with. */
  const Initial: Groups := map['n' := [], 'y' := [], 'x' := [], 'r' := []]

  /** `$imgs[$t]`, where a missing key reads as an empty group. */
  function Group(imgs: Groups, t: char): seq<Img>
  {
    if t in imgs then imgs[t] else []
  }

  function Names(s: seq<Img>): (ns: seq<string>)
    ensures |ns| == |s| && forall i :: 0 <= i < |s| ==> ns[i] == s[i].name
  {
    seq(|s|, i requires 0 <= i < |s| => s[i].name)
  }

  predicate Distinct(ns: seq<string>)
  {
    forall i, j :: 0 <= i < j < |ns| ==> ns[i] != ns[j]
  }

  /** The position of the entry keyed `name`, if there is one. */
  function IndexOfName(s: seq<Img>, name: string): (r: Option<nat>)
    ensures r.None? <==> name !in Names(s)
    ensures r.Some? ==> r.value < |s| && s[r.value].name == name
    decreases |s|
  {
    if s == [] then None
    else if s[|s| - 1].name == name then Some(|s| - 1)
    else
      var r := IndexOfName(s[..|s| - 1], name);
      assert Names(s) == Names(s[..|s| - 1]) + [s[|s| - 1].name];
      r
  }

  /**
   * `$group[$file] = $img` on a PHP array: an existing key keeps its place
   * and takes the new value, a new key goes to the end.
   */
  function Put(s: seq<Img>, img: Img): (r: seq<Img>)
    ensures img in r
    ensures forall x :: x in r ==> x == img || x in s
    ensures Names(r) == if img.name in Names(s) then Names(s) else Names(s) + [img.name]
  {
    match IndexOfName(s, img.name)
    case Some(i) =>
      var r := s[i := img];
      assert r[i] == img;
      assert Names(r) == Names(s);
      r
    case None =>
      var r := s + [img];
      assert r[|s|] == img;
      assert Names(r) == Names(s) + [img.name];
      r
  }

  /** One turn of the directory loop (lines 103-110). */
  function Add(imgs: Groups, e: DirEntry): Groups
  {
    match Classify(e.name)
    case None => imgs
    case Some(f) => imgs[f.tag := Put(Group(imgs, f.tag), MakeImg(e, f))]
  }

  /** `$imgs` after the directory loop has read the entries of `listing`. */
  function Collected(listing: seq<DirEntry>): Groups
    decreases |listing|
  {
    if listing == [] then Initial
    else Add(Collected(listing[..|listing| - 1]), listing[|listing| - 1])
  }

  /** The groups after one more entry. */
  lemma CollectedStep(listing: seq<DirEntry>, i: nat)
    requires i < |listing|
    ensures Collected(listing[..i + 1]) == Add(Collected(listing[..i]), listing[i])
  {
    assert listing[..i + 1][..i] == listing[..i];
  }

  /** Lines 101-112: the directory loop. */
  method Collect(listing: seq<DirEntry>) returns (imgs: Groups)
    ensures imgs == Collected(listing)
  {
    imgs := Initial;
    for i := 0 to |listing|
      invariant imgs == Collected(listing[..i])
    {
      CollectedStep(listing, i);
      var e := listing[i];
      var kind := Classify(e.name);
      if kind.Some? {
        var t := kind.value.tag;
        imgs := imgs[t := Put(Group(imgs, t), MakeImg(e, kind.value))];
      }
    }
    assert listing[..|listing|] == listing;
  }

  // ---------------------------------------------------------------------
  // What the directory loop collects

  /** The tag a fragment carries is one of `n`, `x`, `y` in either case. */
  lemma ClassifyTag(file: string)
    requires Classify(file).Some?
    ensures IsTag(Classify(file).value.tag)
  {
    ClassifySound(file);
  }

  /** Every entry of group `t` is a fragment of kind `t`, with the paddings its name carries, not yet placed. */
  predicate Classified(imgs: Groups)
  {
    forall t, img :: t in imgs && img in imgs[t] ==> Belongs(t, img)
  }

  /**
   * Whatever the directory holds, `$imgs` keeps its four initial keys, so
   * `count($imgs)` is never 0 and the "No images found!" exit at line 119
   * cannot be taken.
   */
  lemma {:induction false} NoImagesGuardNeverFires(listing: seq<DirEntry>)
    ensures Initial.Keys <= Collected(listing).Keys
    ensures |Collected(listing)| > 0
    decreases |listing|
  {
    if listing != [] {
      NoImagesGuardNeverFires(listing[..|listing| - 1]);
    }
    assert 'n' in Collected(listing);
  }

  /** The entry line 108 stores for a fragment, and where: classified. */
  predicate Belongs(t: char, img: Img)
  {
    img.pos.None? && Classify(img.name) == Some(Fragment(t, img.padLeft, img.padRight))
  }

  /** Storing a classified entry in its own group keeps every group classified. */
  lemma PutClassified(imgs: Groups, t: char, img: Img)
    requires Classified(imgs) && Belongs(t, img)
    ensures Classified(imgs[t := Put(Group(imgs, t), img)])
  {
    var after := imgs[t := Put(Group(imgs, t), img)];
    forall u: char, x: Img | u in after && x in after[u]
      ensures Belongs(u, x)
    {
      if u != t || x != img {
        assert x in imgs[u];
      }
    }
  }

  /** One more entry keeps every group classified. */
  lemma AddClassified(imgs: Groups, e: DirEntry)
    requires Classified(imgs)
    ensures Classified(Add(imgs, e))
  {
    match Classify(e.name)
    case None =>
    case Some(f) =>
      assert Belongs(f.tag, MakeImg(e, f));
      PutClassified(imgs, f.tag, MakeImg(e, f));
  }

  /** Every group holds fragments of its own kind, not yet placed, with the paddings their names carry. */
  lemma {:induction false} CollectedClassified(listing: seq<DirEntry>)
    ensures Classified(Collected(listing))
    decreases |listing|
  {
    if listing != [] {
      CollectedClassified(listing[..|listing| - 1]);
      AddClassified(Collected(listing[..|listing| - 1]), listing[|listing| - 1]);
    }
  }

  /** No pattern captures `r`: the group the script sets up under that key stays empty. */
  lemma ReservedGroupEmpty(listing: seq<DirEntry>)
    ensures Group(Collected(listing), 'r') == []
  {
    CollectedClassified(listing);
    var imgs := Collected(listing);
    if Group(imgs, 'r') != [] {
      var x := imgs['r'][0];
      assert x in imgs['r'];
      ClassifyTag(x.name);
      assert false;
    }
  }

  lemma PutDistinct(s: seq<Img>, img: Img)
    requires Distinct(Names(s))
    ensures Distinct(Names(Put(s, img)))
  {
  }

  /** A file is keyed once in its group. */
  lemma {:induction false} CollectedDistinct(listing: seq<DirEntry>)
    ensures forall t :: t in Collected(listing) ==> Distinct(Names(Collected(listing)[t]))
    decreases |listing|
  {
    if listing != [] {
      var imgs := Collected(listing[..|listing| - 1]);
      CollectedDistinct(listing[..|listing| - 1]);
      var e := listing[|listing| - 1];
      var kind := Classify(e.name);
      if kind.Some? {
        PutDistinct(Group(imgs, kind.value.tag), MakeImg(e, kind.value));
      }
    }
  }

  /**
   * The pattern is case-insensitive but its capture is the group key: an
   * entry tagged `-N`, `-X` or `-Y` goes to a group no pass reads, and the
   * groups that are read do not change.
   */
  lemma UpperCaseTagUnread(listing: seq<DirEntry>, e: DirEntry)
    requires Classify(e.name).Some? && Classify(e.name).value.tag in "NXY"
    ensures forall t :: t in "nyx" ==> Group(Collected(listing + [e]), t) == Group(Collected(listing), t)
  {
    assert (listing + [e])[..|listing|] == listing;
  }

  /** What one entry contributes to group `t`: itself when it is a fragment of kind `t`, nothing otherwise. */
  function Piece(e: DirEntry, t: char): (r: seq<Img>)
    ensures forall i :: 0 <= i < |r| ==> r[i].name == e.name
  {
    match Classify(e.name)
    case Some(f) => if f.tag == t then [MakeImg(e, f)] else []
    case None => []
  }

  /** The fragments of kind `t` in `listing`, in directory order. */
  function Fragments(listing: seq<DirEntry>, t: char): seq<Img>
    decreases |listing|
  {
    if listing == [] then []
    else Fragments(listing[..|listing| - 1], t) + Piece(listing[|listing| - 1], t)
  }

  predicate DistinctEntries(listing: seq<DirEntry>)
  {
    forall i, j :: 0 <= i < j < |listing| ==> listing[i].name != listing[j].name
  }

  lemma NamesAppend(a: seq<Img>, b: seq<Img>)
    ensures Names(a + b) == Names(a) + Names(b)
  {
  }

  /** A name the directory does not list is in no group of fragments. */
  lemma {:induction false} NotInFragments(listing: seq<DirEntry>, t: char, name: string)
    requires forall i :: 0 <= i < |listing| ==> listing[i].name != name
    ensures name !in Names(Fragments(listing, t))
    decreases |listing|
  {
    if listing != [] {
      var init := listing[..|listing| - 1];
      var e := listing[|listing| - 1];
      assert forall i :: 0 <= i < |init| ==> init[i] == listing[i];
      NotInFragments(init, t, name);
      NamesAppend(Fragments(init, t), Piece(e, t));
      assert forall i :: 0 <= i < |Piece(e, t)| ==> Names(Piece(e, t))[i] != name;
    }
  }

  /** The entry the directory loop reads last is new to its group when the directory lists each name once. */
  lemma LastIsNew(listing: seq<DirEntry>, t: char)
    requires listing != [] && DistinctEntries(listing)
    ensures listing[|listing| - 1].name !in Names(Fragments(listing[..|listing| - 1], t))
  {
    var init := listing[..|listing| - 1];
    var e := listing[|listing| - 1];
    assert forall i :: 0 <= i < |init| ==> init[i].name == listing[i].name != e.name;
    NotInFragments(init, t, e.name);
  }

  /** A group grows by the piece of the entry read. */
  lemma AddNew(imgs: Groups, e: DirEntry, t: char)
    requires e.name !in Names(Group(imgs, t))
    ensures Group(Add(imgs, e), t) == Group(imgs, t) + Piece(e, t)
  {
    match Classify(e.name)
    case None =>
      assert Group(imgs, t) + [] == Group(imgs, t);
    case Some(f) =>
      if f.tag == t {
        assert IndexOfName(Group(imgs, t), e.name).None?;
      } else {
        assert Group(imgs, t) + [] == Group(imgs, t);
      }
  }

  /**
   * A directory lists each name once, and then a group is exactly the
   * fragments of its kind in the order the directory listed them: nothing
   * sorts them.
   */
  lemma {:induction false} CollectedOrder(listing: seq<DirEntry>, t: char)
    requires DistinctEntries(listing)
    ensures Group(Collected(listing), t) == Fragments(listing, t)
    decreases |listing|
  {
    if listing != [] {
      var init := listing[..|listing| - 1];
      assert DistinctEntries(init);
      CollectedOrder(init, t);
      LastIsNew(listing, t);
      AddNew(Collected(init), listing[|listing| - 1], t);
    }
  }

  // ---------------------------------------------------------------------
  // The passes, in place

  /**
   * The `n` or `y` pass (lines 124-135, 137-148): walks the group with the
   * cursor `$x`, writing each image's offsets into its entry, and keeps the
   * tallest height in `$y`. Returns the canvas size `($x, $y)` and the
   * section of the stylesheet written for the group.
   */
  method PlaceRow(imgs: array<Img>, g: Group, prefix: string) returns (width: nat, height: nat, css: string)
    requires g != RepeatX
    modifies imgs
    ensures imgs[..] == RowPlaced(old(imgs[..]))
    ensures width == RowWidth(old(imgs[..])) && height == MaxHeight(old(imgs[..]))
    ensures AllPlaced(imgs[..]) && css == Section(g, prefix, imgs[..])
  {
    ghost var orig := imgs[..];
    var x: nat, y: nat := 0, 0;
    for i := 0 to imgs.Length
      invariant forall j :: 0 <= j < i ==> imgs[j] == orig[j].(pos := Some(RowPlacement(orig, j)))
      invariant forall j :: i <= j < imgs.Length ==> imgs[j] == orig[j]
      invariant x == RowWidth(orig[..i]) && y == MaxHeight(orig[..i])
    {
      RowWidthStep(orig, i);
      MaxHeightStep(orig, i);
      var img := imgs[i];
      x := x + img.padLeft;
      img := img.(pos := Some(Pos(x, 0)));
      x := x + img.width + img.padRight;
      y := Max(y, img.height);
      assert img == orig[i].(pos := Some(RowPlacement(orig, i)));
      imgs[i] := img;
    }
    assert orig[..|orig|] == orig;
    assert imgs[..] == RowPlaced(orig);
    width, height := x, y;
    css := Section(g, prefix, imgs[..]);
  }

  /**
   * The `x` pass (lines 150-161): stacks the group with the cursor `$y`,
   * reading no padding, and keeps the widest width in `$x`. Returns the
   * canvas size `($x, $y)` and the section of the stylesheet written for
   * the group.
   */
  method PlaceColumn(imgs: array<Img>, prefix: string) returns (width: nat, height: nat, css: string)
    modifies imgs
    ensures imgs[..] == ColumnPlaced(old(imgs[..]))
    ensures width == MaxWidth(old(imgs[..])) && height == ColumnHeight(old(imgs[..]))
    ensures AllPlaced(imgs[..]) && css == Section(RepeatX, prefix, imgs[..])
  {
    ghost var orig := imgs[..];
    var x: nat, y: nat := 0, 0;
    for i := 0 to imgs.Length
      invariant forall j :: 0 <= j < i ==> imgs[j] == orig[j].(pos := Some(ColumnPlacement(orig, j)))
      invariant forall j :: i <= j < imgs.Length ==> imgs[j] == orig[j]
      invariant x == MaxWidth(orig[..i]) && y == ColumnHeight(orig[..i])
    {
      ColumnHeightStep(orig, i);
      MaxWidthStep(orig, i);
      var img := imgs[i];
      x := Max(x, img.width);
      img := img.(pos := Some(Pos(0, y)));
      y := y + img.height;
      assert img == orig[i].(pos := Some(ColumnPlacement(orig, i)));
      imgs[i] := img;
    }
    assert orig[..|orig|] == orig;
    assert imgs[..] == ColumnPlaced(orig);
    width, height := x, y;
    css := Section(RepeatX, prefix, imgs[..]);
  }

  // ---------------------------------------------------------------------
  // The whole run

  /** The stylesheet the script writes (line 162): the `n`, `y` and `x` sections, in that order. */
  function StylesheetText(listing: seq<DirEntry>, prefix: string): string
  {
    var imgs := Collected(listing);
    Section(NoRepeat, prefix, RowPlaced(Group(imgs, 'n')))
      + Section(RepeatY, prefix, RowPlaced(Group(imgs, 'y')))
      + Section(RepeatX, prefix, ColumnPlaced(Group(imgs, 'x')))
  }

  /** The three composites image_save is asked for (lines 135, 148, 160), `None` where it returns early. */
  function Sheets(listing: seq<DirEntry>, prefix: string, matte: string): seq<Option<Canvas>>
  {
    var imgs := Collected(listing);
    var n, y, x := Group(imgs, 'n'), Group(imgs, 'y'), Group(imgs, 'x');
    [ Sheet(RowPlaced(n), SheetName(NoRepeat, prefix), RowWidth(n), MaxHeight(n), 'n', matte),
      Sheet(RowPlaced(y), SheetName(RepeatY, prefix), RowWidth(y), MaxHeight(y), 'y', matte),
      Sheet(ColumnPlaced(x), SheetName(RepeatX, prefix), MaxWidth(x), ColumnHeight(x), 'x', matte) ]
  }

  method ToArray(s: seq<Img>) returns (a: array<Img>)
    ensures fresh(a) && a[..] == s
  {
    a := new Img[|s|](i requires 0 <= i < |s| => s[i]);
  }

  /** The `n` or `y` pass over a group, then image_save on the placed group. */
  method RowGroup(group: seq<Img>, g: Group, prefix: string, matte: string) returns (css: string, sheet: Option<Canvas>)
    requires g != RepeatX
    ensures css == Section(g, prefix, RowPlaced(group))
    ensures sheet == Sheet(RowPlaced(group), SheetName(g, prefix), RowWidth(group), MaxHeight(group), Tag(g), matte)
  {
    var a := ToArray(group);
    var width, height, section := PlaceRow(a, g, prefix);
    sheet := ImageSave(a[..], SheetName(g, prefix), width, height, Tag(g), matte);
    css := section;
  }

  /** The `x` pass over a group, then image_save on the placed group. */
  method ColumnGroup(group: seq<Img>, prefix: string, matte: string) returns (css: string, sheet: Option<Canvas>)
    ensures css == Section(RepeatX, prefix, ColumnPlaced(group))
    ensures sheet == Sheet(ColumnPlaced(group), SheetName(RepeatX, prefix), MaxWidth(group), ColumnHeight(group), 'x', matte)
  {
    var a := ToArray(group);
    var width, height, section := PlaceColumn(a, prefix);
    sheet := ImageSave(a[..], SheetName(RepeatX, prefix), width, height, 'x', matte);
    css := section;
  }

  /** Lines 101-162: collect the fragments, run the three passes, draw the composites, write the stylesheet. */
  method Generate(listing: seq<DirEntry>, prefix: string, matte: string) returns (css: string, sheets: seq<Option<Canvas>>)
    ensures css == StylesheetText(listing, prefix)
    ensures sheets == Sheets(listing, prefix, matte)
  {
    var imgs := Collect(listing);
    var cssN, sheetN := RowGroup(Group(imgs, 'n'), NoRepeat, prefix, matte);
    var cssY, sheetY := RowGroup(Group(imgs, 'y'), RepeatY, prefix, matte);
    var cssX, sheetX := ColumnGroup(Group(imgs, 'x'), prefix, matte);
    css := cssN + cssY + cssX;
    sheets := [sheetN, sheetY, sheetX];
  }

  /** An empty group's section is its header alone. */
  lemma SectionOfEmpty(g: Group, prefix: string)
    ensures Section(g, prefix, []) == Header(g, prefix)
  {
    assert Header(g, prefix) + "" == Header(g, prefix);
  }

  /** The groups the script starts with give three bare headers and no composite. */
  lemma InitialOutputs(prefix: string, matte: string)
    ensures StylesheetText([], prefix) == Header(NoRepeat, prefix) + Header(RepeatY, prefix) + Header(RepeatX, prefix)
    ensures Sheets([], prefix, matte) == [None, None, None]
  {
    assert Group(Initial, 'n') == [] && Group(Initial, 'y') == [] && Group(Initial, 'x') == [];
    assert RowPlaced([]) == [] && ColumnPlaced([]) == [];
    SectionOfEmpty(NoRepeat, prefix);
    SectionOfEmpty(RepeatY, prefix);
    SectionOfEmpty(RepeatX, prefix);
  }

  /**
   * A directory with no fragment at all still produces a stylesheet: the
   * three section headers, and no composite.
   */
  lemma NoFragments(listing: seq<DirEntry>, prefix: string, matte: string)
    requires forall e :: e in listing ==> Classify(e.name).None?
    ensures StylesheetText(listing, prefix) == Header(NoRepeat, prefix) + Header(RepeatY, prefix) + Header(RepeatX, prefix)
    ensures Sheets(listing, prefix, matte) == [None, None, None]
  {
    NothingCollected(listing);
    InitialOutputs(prefix, matte);
    assert Collected([]) == Initial;
  }

  lemma {:induction false} NothingCollected(listing: seq<DirEntry>)
    requires forall e :: e in listing ==> Classify(e.name).None?
    ensures Collected(listing) == Initial
    decreases |listing|
  {
    if listing != [] {
      var init := listing[..|listing| - 1];
      assert forall e :: e in init ==> e in listing;
      NothingCollected(init);
      assert listing[|listing| - 1] in listing;
    }
  }
}
