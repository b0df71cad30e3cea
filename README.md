# css-sprite.php, modelled in Dafny

css-sprite.php is a PHP script that combines the sliced images of a directory
into three composite "sprite" images and writes a stylesheet pointing into them.
The suffix of a file name decides its group:

- `-n` images do not repeat;
- `-y` images repeat vertically;
- `-x` images repeat horizontally.

An optional `-pl<digits>` and an optional `-pr<digits>` after the tag add left and right padding.

The model covers the script from the directory loop to the stylesheet text:

- **Classifier** (`classifier.dfy`): from an entry name to "not a fragment" or
  (tag, left padding, right padding). The extension test, the reserved names,
  `basename` and the regular expression `/-([nxy])(-pl(\d+))?(-pr(\d+))?$/i`
  are each written out. The pattern is a hand-written suffix parser,
  `ParseSuffix`. The parser is proved sound and complete against `Render`,
  the grammar read as a printer.
- **Layout** (`layout.dfy`): where each pass puts each image, in closed form.
  - The `n` and `y` passes lay a row out with the cursor `$x` and use the padding.
  - The `x` pass stacks a column with the cursor `$y` and ignores the padding.
  - The canvas is the final cursor by the largest cross dimension.
  - Placements are proved ordered, disjoint, inside the canvas and tight.
- **Stylesheet** (`stylesheet.dfy`): `px`, the selector, the declarations of
  each rule, and the sections with their header comments. What `px` writes is
  proved to read back.
- **Composite** (`composite.dfy`): what `image_save` decides before any pixel is drawn:
  - whether a composite is drawn at all;
  - its matte;
  - the destination and source rectangles of every image copied into it.
- **css_safe_class** (`csssafe.dfy`): proved to produce lower-case words joined
  by single hyphens, to equal the lower-cased letter runs of its input joined
  by `-`, and to be idempotent.
- **The script** (`sprite.dfy`):
  - the directory loop `Collect` over a listing;
  - the in-place passes `PlaceRow` and `PlaceColumn` over an array of group entries;
  - `Generate`, which strings them together as lines 101-162 do.

The model follows what the script does, also where that differs from its
help text (lines 30-69) or from what it evidently sets out to do:

- Only the order `-pl` then `-pr` is recognised; a name with `-pr` before `-pl` is no fragment.
- Once `opendir` succeeds, the "No images found!" exit at line 119 can never be taken.
- Groups keep directory order; nothing sorts them.
- Lines 75-77 are reference assignments, `$x =& $_GET[...] ? ... : ...`.
  PHP allows only a variable on the right of `=&`, so each line reads as
  `($x =& $_GET[...]) ? ... : ...` and the value of `?:` is discarded.
  An option that is not given leaves its variable NULL, not the default
  written there or in the help text. The model takes prefix and matte as
  given and leaves the path out; Composite.OmittedMatte states what a NULL
  matte gives.
- Selectors are the file name with `.` replaced by `-` (line 131), not `css_safe_class`.
  The script defines `css_safe_class` but never calls it.
- `image_save` skips a composite when either side is 0, also for a non-empty
  group of zero-sized images.
- The `dst_y` argument tests `$type == 't'`, which no group has. So `dst_y` is
  always the placement's y.

## Model

| member | source | states |
|---|---|---|
| Classifier.Extension | css-sprite.php:103 | The extension is the lower-cased text after the last dot, or the name without its first character when there is no dot (strrpos FALSE + 1); it never contains a dot |
| Classifier.ExtensionAfterLastDot | css-sprite.php:103 | For any stem, the extension of `stem.e` (e dot-free) is `e` lower-cased |
| Classifier.BaseNameSplits | css-sprite.php:104 | basename cuts the suffix exactly when it is a proper, case-sensitive suffix, and what remains plus the suffix is the name; otherwise the name is unchanged |
| Classifier.TakePadding | css-sprite.php:106 | An optional `-pl`/`-pr` group taken off the end is a case-insensitive key followed by at least one digit |
| Classifier.TakePaddingSplits | css-sprite.php:106 | What is left plus the group taken off is the text it was given |
| Classifier.ParseCore | css-sprite.php:106 | A match of the pattern before `$` has a tag in `[nxyNXY]` and well-formed padding groups |
| Classifier.ParseSuffix | css-sprite.php:106 | Every match found is well-formed under the grammar, including a `$` that matched before a final newline |
| Classifier.ParseSuffixSound | css-sprite.php:106 | Soundness: a match found renders back to exactly the base name |
| Classifier.ParseRendered | css-sprite.php:106 | Completeness: every well-formed match, with or without a final newline, is found again in its rendering |
| Classifier.ClassifySound | css-sprite.php:103-108 | A classified entry has an admitted extension, is not a reserved name, and is a well-formed match followed by `.` and the lower-cased extension, classified as that match says |
| Classifier.ClassifyComplete | css-sprite.php:103-108 | Conversely, every well-formed match followed by an admitted extension and not a reserved name is classified with that match's tag and paddings |
| Classifier.RenderedNotAdmitted | css-sprite.php:104-106 | No name the pattern matches ends in an admitted extension, so a matching base name always had its extension cut |
| Classifier.UpperCaseExtensionExcluded | css-sprite.php:103-106 | An admitted extension spelled with an upper-case letter (`a-n.PNG`) is not cut by the case-sensitive basename, and the entry is no fragment |
| Layout.MaxHeight | css-sprite.php:130 | The row height bounds every image's height and is 0 for an empty row |
| Layout.MaxHeightAttained | css-sprite.php:130 | The row height is the height of some image of a non-empty row |
| Layout.MaxWidth | css-sprite.php:154 | The column width bounds every image's width and is 0 for an empty column |
| Layout.MaxWidthAttained | css-sprite.php:154 | The column width is the width of some image of a non-empty column |
| Layout.RowPlaced | css-sprite.php:127-130 | A row pass changes only the placements: image i sits past the spans of the images before it plus its own left padding, on the top edge |
| Layout.ColumnPlaced | css-sprite.php:153-155 | The column pass changes only the placements: image i sits on the left edge below the heights of the images before it |
| Layout.RowSteps | css-sprite.php:128-129 | The first image starts at its left padding; each next one starts after the previous image's width and right padding plus its own left padding |
| Layout.RowOrdered | css-sprite.php:128-129 | Row placements are in group order and disjoint even with padding: an earlier image with its right padding ends before a later one's left padding begins |
| Layout.RowInside | css-sprite.php:128-130 | Every image of a row, with its paddings, lies inside the canvas ($x, $y) the pass ends with |
| Layout.RowTight | css-sprite.php:129 | The canvas width is tight: the last image's right padding ends exactly at it |
| Layout.ColumnSteps | css-sprite.php:155 | The first image is at the top; each next one starts where the previous one ends |
| Layout.ColumnOrdered | css-sprite.php:155 | Column placements are in group order and do not overlap |
| Layout.ColumnInside | css-sprite.php:154-155 | Every image of a column lies inside the canvas ($x, $y) the pass ends with |
| Layout.ColumnTight | css-sprite.php:155 | The canvas height is tight: the last image ends exactly at it |
| Layout.ColumnIgnoresPadding | css-sprite.php:152-155 | Groups that agree on sizes get the same canvas and placements whatever their paddings |
| Css.PxText | css-sprite.php:166 | px writes the bare `0` exactly for zero, a length ending in `px` otherwise, and never a space |
| Css.PxReadsBack | css-sprite.php:166 | What px writes reads back as the same integer, negative lengths included |
| Css.PositionReadsBack | css-sprite.php:132 | The background position reads back as the negated offsets, two lengths separated by one space |
| Css.Selector | css-sprite.php:131 | The selector has the file name's length, every `.` becomes `-`, every other character stays in place, and no `.` remains |
| Css.SelectorIsImplode | css-sprite.php:131 | Replacing each `.` by `-` equals splitting the name at its dots and joining the pieces with `-` |
| Css.BackgroundFirst | css-sprite.php:132 | Every rule opens with the background declaration, whose value ends with the negated position |
| Css.SizesDeclared | css-sprite.php:131-158 | After the background, a rule declares native sizes only: `n` rules give width and height, `y` rules width alone, `x` rules height alone |
| Css.SectionAppend | css-sprite.php:131-133 | One more image in a group appends exactly its rule to the group's section |
| Composite.MatteComponents | css-sprite.php:192 | A comma-separated matte gives its first three pieces as the red, green and blue components; missing ones are 255; later ones are ignored |
| Composite.OmittedMatte | css-sprite.php:183-192 | A matte option left out at line 77 (NULL, read as the empty string) is not `transparent`: it gives a solid matte whose red component is the empty text and whose green and blue are 255 |
| Composite.Overlays | css-sprite.php:198-214 | The overlays follow the group order, one per placed image, and never outnumber the images |
| Composite.ImageSave | css-sprite.php:176-219 | No composite exactly when a side is 0; otherwise a canvas of that size and matte with the overlays of the group in order |
| Composite.NoRepeatOverlays | css-sprite.php:199-211 | In the `n` composite every image is copied at native size to its placement, inside the canvas, and each ends before the next begins |
| Composite.RepeatYOverlays | css-sprite.php:199-211 | In the `y` composite every image is stretched to the full canvas height in its own column, inside the canvas, and each ends before the next begins |
| Composite.RepeatXOverlays | css-sprite.php:199-211 | In the `x` composite every image is stretched to the full canvas width from the left edge, stacked inside the canvas, and each ends before the next begins |
| CssSafe.Collapse | css-sprite.php:239 | After the replacement only letters and single hyphens remain; the result is empty exactly when the input is, and starts with a letter exactly when the input does |
| CssSafe.TrimStart | css-sprite.php:239 | Left trimming removes only leading hyphens and leaves no leading hyphen |
| CssSafe.TrimEnd | css-sprite.php:239 | Right trimming removes only trailing hyphens and leaves no trailing hyphen |
| CssSafe.CssSafeClass | css-sprite.php:238-240 | The result is lower-case letters separated by single hyphens, with no hyphen at either end |
| CssSafe.CssSafeClassWords | css-sprite.php:238-240 | The result is the input's maximal runs of ASCII letters, lower-cased and joined by single hyphens |
| CssSafe.CssSafeClassOfSafe | css-sprite.php:238-240 | A name that is already CSS-safe is returned unchanged |
| CssSafe.CssSafeClassIdempotent | css-sprite.php:238-240 | Applying css_safe_class twice is the same as applying it once |
| Sprite.Put | css-sprite.php:108 | Storing under a file key holds the new entry and otherwise only entries already there; an existing key keeps its place in the key order, a new key goes last |
| Sprite.Collect | css-sprite.php:101-112 | The directory loop yields the groups Collected, one entry of the listing at a time |
| Sprite.NoImagesGuardNeverFires | css-sprite.php:101-121 | Once `opendir` succeeds and line 101 has run, `$imgs` always keeps its four initial keys, so `count($imgs)` is never 0 and the "No images found!" exit is not taken |
| Sprite.ClassifyTag | css-sprite.php:106-108 | The key a fragment is stored under is one of `n`, `x`, `y` in either case |
| Sprite.CollectedClassified | css-sprite.php:105-108 | Every entry of group t is an unplaced fragment of kind t with the paddings its name carries |
| Sprite.ReservedGroupEmpty | css-sprite.php:101-108 | The group set up under `r` always stays empty, since no match captures `r` |
| Sprite.CollectedDistinct | css-sprite.php:108 | Each file is keyed once in its group |
| Sprite.UpperCaseTagUnread | css-sprite.php:106-108 | An entry tagged `-N`, `-X` or `-Y` leaves the groups the passes read unchanged |
| Sprite.CollectedOrder | css-sprite.php:102-108 | When the directory lists each name once, a group is exactly the fragments of its kind in directory order; nothing sorts them |
| Sprite.PlaceRow | css-sprite.php:124-135 | The `n`/`y` pass writes each image's row placement into the array in place and changes nothing else; it returns the canvas (row width, tallest height) and the group's stylesheet section |
| Sprite.PlaceColumn | css-sprite.php:150-160 | The `x` pass writes each image's column placement into the array in place; it returns the canvas (widest width, column height) and the section |
| Sprite.RowGroup | css-sprite.php:124-148 | A row pass followed by image_save gives the section and the composite of the placed group |
| Sprite.ColumnGroup | css-sprite.php:150-160 | The column pass followed by image_save gives the section and the composite of the placed group |
| Sprite.Generate | css-sprite.php:101-162 | The whole run writes the `n`, `y` and `x` sections in that order and asks for the three composites of the collected groups |
| Sprite.InitialOutputs | css-sprite.php:124-162 | The initial groups give three bare section headers and no composite |
| Sprite.NoFragments | css-sprite.php:119-162 | A directory without any fragment still writes a stylesheet of three bare headers and draws no composite |

The definitions these rows are about carry no contract of their own; the rows of their lemmas cover them:
Classifier.Classify (lines 103-108), Classifier.BaseName (104), Css.Px (166),
Css.Header (125, 138, 151), Css.Declarations and Css.Rule (131-133, 144-146, 156-158),
Css.Section (125-158), Composite.ParseMatte (183, 192), Composite.Destination (204-209),
Composite.Sheet (177-212), Sprite.Add (103-110), Sprite.Collected (101-112),
Sprite.StylesheetText (162) and Sprite.Sheets (135, 148, 160).

## Left out

- The command line and `$_GET` options, the help text, `exit`, `error_reporting` and `ini_set` (lines 30-77) are not modelled. Prefix and matte are parameters.
- The directory path is left out. Composite and overlay file names are relative to it: the model's `Canvas.file` is the sheet name without the `$path.'/'` that line 217 puts in front, and `Overlay.file` is the entry name without the `$path.'/'` of line 202.
- `is_dir`, `opendir`, `readdir` and `closedir` (lines 98-114) are not modelled. The directory is a sequence of entries in `readdir` order.
- A failing `opendir` (line 100) is not modelled: `$imgs` is then never assigned, `count` of it is 0, and line 120 ends the run. The model starts where `opendir` has succeeded.
- The option handling of lines 75-77 is not modelled beyond the note above: prefix and matte are parameters, and a NULL option is the empty string.
- `image_get_info` (lines 252-272) is not modelled. Each entry carries the width, height and extension it would report, so the case where it returns FALSE is not modelled either.
- The GD calls are not modelled: creating the canvas, the transparent or solid fill, `imagecopyresampled`, `image_gd_open`, `image_gd_close` and `imagedestroy` (lines 180-195, 217-228, 277-301). A Canvas lists the calls they would receive, with file names relative to the directory path. The matte channels are kept as text, as `imagecolorallocate` would receive them.
- `file_put_contents` and the final `die` (lines 162, 164) are not modelled. The stylesheet is returned as text.
- Integer widths are unbounded. PHP's integer overflow is not modelled.
- Sprite.PlaceRow and Sprite.PlaceColumn build each section after the loop, from the placed array; the script appends each rule inside it. Css.SectionAppend proves the two agree.
- The `isset` test of line 199 is modelled as "the entry carries a placement". Every entry the passes write passes it.
- The character classes are ASCII. `strtolower` is modelled as ASCII lower-casing, and locale-dependent case mapping is not modelled.
