/**
 * The fragment classifier of css-sprite.php: from a directory entry's name
 * to "not a fragment" or (tag, left padding, right padding).
 *
 * The regular expression `/-([nxy])(-pl(\d+))?(-pr(\d+))?$/i` is written
 * out by hand as ParseSuffix, a parser that works from the end of the name,
 * and is tied to the grammar by Render: ParseSuffix returns exactly the
 * matches whose rendering is the input, and finds every one of them.
 */
module Classifier {
  import opened Wrappers
  import opened Text

  /** The extensions the directory loop admits (compared after `strtolower`). */
  const ImageExtensions: set<string> := {"png", "gif", "jpg", "jpeg"}

  /** The composite names the loop refuses, literally: the `--prefix` option does not change them. */
  const ReservedNames: set<string> := {"sprites.png", "sprites-x.png", "sprites-y.png"}

  /**
   * `strtolower(substr($file, strrpos($file, '.') + 1))`. Without a dot,
   * `strrpos` gives FALSE, FALSE + 1 is 1, and the extension is the name
   * without its first character.
   */
  function Extension(file: string): (ext: string)
    ensures '.' !in ext
    ensures '.' !in file && file != [] ==> ext == Lower(file[1..])
  {
    match LastIndexOf(file, '.')
    case Some(i) => Lower(file[i + 1..])
    case None => Lower(if file == [] then [] else file[1..])
  }

  /** `basename($name, $suffix)` for a directory entry: the suffix is cut only when it is a proper suffix. */
  function BaseName(name: string, suffix: string): string
  {
    if |suffix| < |name| && EndsWith(name, suffix) then name[..|name| - |suffix|] else name
  }

  /** The suffix is cut exactly when it is a proper suffix, and what is left is the rest of the name. */
  lemma BaseNameSplits(name: string, suffix: string)
    ensures |suffix| < |name| && EndsWith(name, suffix) ==> BaseName(name, suffix) + suffix == name
    ensures !(|suffix| < |name| && EndsWith(name, suffix)) ==> BaseName(name, suffix) == name
  {
    if |suffix| < |name| && EndsWith(name, suffix) {
      assert name == name[..|name| - |suffix|] + name[|name| - |suffix|..];
    }
  }

  lemma ExtensionAfterLastDot(stem: string, e: string)
    requires '.' !in e
    ensures Extension(stem + "." + e) == Lower(e)
  {
    var f := stem + "." + e;
    assert f[|stem|] == '.';
    var i := LastIndexOf(f, '.').value;
    assert f[|stem| + 1..] == e;
    assert i == |stem|;
  }

  // ---------------------------------------------------------------------
  // The suffix grammar

  /** The tag class `[nxy]` under the `i` flag. */
  predicate IsTag(c: char) { c in "nxyNXY" }

  /** A spelling of `-pl` (letter 'l') or `-pr` (letter 'r') under the `i` flag. */
  predicate IsKey(k: string, letter: char)
  {
    |k| == 3 && k[0] == '-' && LowerChar(k[1]) == 'p' && LowerChar(k[2]) == letter
  }

  /** A padding directive as it stands in the name: the key as spelled, then the captured digits. */
  datatype Padding = Padding(key: string, digits: string)

  /**
   * One match of the pattern: what precedes it, the captured tag, the two
   * optional directives, and whether `$` matched before a final newline.
   */
  datatype SuffixMatch = SuffixMatch(head: string, tag: char, left: Option<Padding>, right: Option<Padding>, newline: bool)

  predicate WellFormedPadding(p: Option<Padding>, letter: char)
  {
    p.Some? ==> IsKey(p.value.key, letter) && |p.value.digits| > 0 && AllDigits(p.value.digits)
  }

  predicate WellFormed(m: SuffixMatch)
  {
    IsTag(m.tag) && WellFormedPadding(m.left, 'l') && WellFormedPadding(m.right, 'r')
  }

  function PaddingText(p: Option<Padding>): string
  {
    match p
    case None => ""
    case Some(q) => q.key + q.digits
  }

  /** The text a match covers, without the optional final newline. */
  function Core(m: SuffixMatch): string
  {
    m.head + ['-', m.tag] + PaddingText(m.left) + PaddingText(m.right)
  }

  /** The whole name a match stands for. */
  function Render(m: SuffixMatch): string
  {
    Core(m) + (if m.newline then "\n" else "")
  }

  /** The length of the run of digits that ends `s`. */
  function TrailingDigits(s: string): (k: nat)
    ensures k <= |s|
    ensures forall i :: |s| - k <= i < |s| ==> IsDigit(s[i])
    ensures k < |s| ==> !IsDigit(s[|s| - k - 1])
    decreases |s|
  {
    if s != [] && IsDigit(s[|s| - 1]) then TrailingDigits(s[..|s| - 1]) + 1 else 0
  }

  /** The optional group `(-p<letter>(\d+))?` taken off the end of `t`. */
  function TakePadding(t: string, letter: char): (r: (string, Option<Padding>))
    ensures WellFormedPadding(r.1, letter)
  {
    var k := TrailingDigits(t);
    if 0 < k && 3 <= |t| - k && IsKey(t[|t| - k - 3..|t| - k], letter) then
      (t[..|t| - k - 3], Some(Padding(t[|t| - k - 3..|t| - k], t[|t| - k..])))
    else (t, None)
  }

  /** What TakePadding takes off, put back, is the text it was given. */
  lemma TakePaddingSplits(t: string, letter: char)
    ensures TakePadding(t, letter).0 + PaddingText(TakePadding(t, letter).1) == t
  {
    var k := TrailingDigits(t);
    if 0 < k && 3 <= |t| - k && IsKey(t[|t| - k - 3..|t| - k], letter) {
      Slices(t, |t| - k - 3, |t| - k);
    }
  }

  /** The pattern up to `$`, matched against the end of `t`: the groups are taken off right to left. */
  function ParseCore(t: string): (r: Option<SuffixMatch>)
    ensures r.Some? ==> WellFormed(r.value) && !r.value.newline
  {
    var right := TakePadding(t, 'r');
    var left := TakePadding(right.0, 'l');
    var u := left.0;
    if 2 <= |u| && u[|u| - 2] == '-' && IsTag(u[|u| - 1]) then
      Some(SuffixMatch(u[..|u| - 2], u[|u| - 1], left.1, right.1, false))
    else None
  }

  /** A match ParseCore finds covers the whole text it was given. */
  lemma ParseCoreParts(t: string)
    ensures ParseCore(t).Some? ==>
      var right := TakePadding(t, 'r');
      var left := TakePadding(right.0, 'l');
      && ParseCore(t).value.head + ['-', ParseCore(t).value.tag] == left.0
      && ParseCore(t).value.left == left.1 && ParseCore(t).value.right == right.1
  {
  }

  lemma ParseCoreCovers(t: string)
    ensures ParseCore(t).Some? ==> Core(ParseCore(t).value) == t
  {
    if ParseCore(t).Some? {
      var m := ParseCore(t).value;
      var right := TakePadding(t, 'r');
      var left := TakePadding(right.0, 'l');
      ParseCoreParts(t);
      TakePaddingSplits(t, 'r');
      TakePaddingSplits(right.0, 'l');
      CoreOfPieces(m, left.0, right.0, t);
    }
  }

  lemma CoreOfPieces(m: SuffixMatch, u: string, v: string, t: string)
    requires m.head + ['-', m.tag] == u
    requires u + PaddingText(m.left) == v
    requires v + PaddingText(m.right) == t
    ensures Core(m) == t
  {
  }

  /**
   * `preg_match('/-([nxy])(-pl(\d+))?(-pr(\d+))?$/i', s)`: without the `D`
   * modifier, `$` also matches before a newline that ends the subject.
   */
  function ParseSuffix(s: string): (r: Option<SuffixMatch>)
    ensures r.Some? ==> WellFormed(r.value)
  {
    if |s| > 0 && s[|s| - 1] == '\n' then
      match ParseCore(s[..|s| - 1])
      case Some(m) => Some(m.(newline := true))
      case None => None
    else ParseCore(s)
  }

  /** A match ParseSuffix finds renders back as the text it was given: the parser is sound for the grammar. */
  lemma ParseSuffixSound(s: string)
    ensures ParseSuffix(s).Some? ==> Render(ParseSuffix(s).value) == s
  {
    if |s| > 0 && s[|s| - 1] == '\n' {
      ParseCoreCovers(s[..|s| - 1]);
      assert s == s[..|s| - 1] + "\n";
    } else {
      ParseCoreCovers(s);
      assert ParseCore(s).Some? ==> Render(ParseCore(s).value) == Core(ParseCore(s).value) + "";
    }
  }

  lemma TrailingDigitsOf(u: string, d: string)
    requires AllDigits(d)
    requires u != [] ==> !IsDigit(u[|u| - 1])
    ensures TrailingDigits(u + d) == |d|
    decreases |d|
  {
    if d != [] {
      var init := d[..|d| - 1];
      assert (u + d)[..|u + d| - 1] == u + init;
      TrailingDigitsOf(u, init);
    } else {
      assert u + d == u;
    }
  }

  lemma TakePaddingOf(u: string, p: Padding, letter: char)
    requires letter == 'l' || letter == 'r'
    requires IsKey(p.key, letter) && |p.digits| > 0 && AllDigits(p.digits)
    ensures TakePadding(u + p.key + p.digits, letter) == (u, Some(p))
  {
    var t := u + p.key + p.digits;
    TrailingDigitsOf(u + p.key, p.digits);
    var k := |p.digits|;
    assert t[|t| - k - 3..|t| - k] == p.key;
    assert t[..|t| - k - 3] == u;
    assert t[|t| - k..] == p.digits;
  }

  lemma TakePaddingOther(u: string, p: Padding, letter: char)
    requires IsKey(p.key, 'l') && |p.digits| > 0 && AllDigits(p.digits) && letter != 'l'
    ensures TakePadding(u + p.key + p.digits, letter) == (u + p.key + p.digits, None)
  {
    var t := u + p.key + p.digits;
    TrailingDigitsOf(u + p.key, p.digits);
    var k := |p.digits|;
    assert t[|t| - k - 3..|t| - k] == p.key;
  }

  lemma TakePaddingAfterTag(t: string, letter: char)
    requires |t| > 0 && IsTag(t[|t| - 1])
    ensures TakePadding(t, letter) == (t, None)
  {
  }

  /** The optional `-pr` group is taken off a core text as it was put on. */
  lemma TakeRightOfCore(m: SuffixMatch)
    requires WellFormed(m)
    ensures TakePadding(Core(m), 'r') == (m.head + ['-', m.tag] + PaddingText(m.left), m.right)
  {
    var withTag := m.head + ['-', m.tag];
    var withLeft := withTag + PaddingText(m.left);
    var t := withLeft + PaddingText(m.right);
    assert t == Core(m);
    if m.right.Some? {
      assert t == withLeft + m.right.value.key + m.right.value.digits;
      TakePaddingOf(withLeft, m.right.value, 'r');
    } else if m.left.Some? {
      assert t == withLeft == withTag + m.left.value.key + m.left.value.digits;
      TakePaddingOther(withTag, m.left.value, 'r');
    } else {
      assert t == withLeft == withTag;
      TakePaddingAfterTag(t, 'r');
    }
  }

  /** The optional `-pl` group is taken off what precedes the `-pr` group as it was put on. */
  lemma TakeLeftOfCore(m: SuffixMatch)
    requires WellFormed(m)
    ensures TakePadding(m.head + ['-', m.tag] + PaddingText(m.left), 'l') == (m.head + ['-', m.tag], m.left)
  {
    var withTag := m.head + ['-', m.tag];
    if m.left.Some? {
      assert withTag + PaddingText(m.left) == withTag + m.left.value.key + m.left.value.digits;
      TakePaddingOf(withTag, m.left.value, 'l');
    } else {
      assert withTag + PaddingText(m.left) == withTag;
      TakePaddingAfterTag(withTag, 'l');
    }
  }

  /** The groups of a well-formed match are taken off its core text as they were put on. */
  lemma ParseCoreOfCore(m: SuffixMatch)
    requires WellFormed(m)
    ensures ParseCore(Core(m)) == Some(m.(newline := false))
  {
    TakeRightOfCore(m);
    TakeLeftOfCore(m);
    var withTag := m.head + ['-', m.tag];
    assert withTag[..|withTag| - 2] == m.head;
  }

  /** With a final newline, ParseSuffix matches the core before it and notes the newline. */
  lemma ParseSuffixNewline(t: string)
    ensures ParseSuffix(t + "\n") == match ParseCore(t) case Some(c) => Some(c.(newline := true)) case None => None
  {
    assert (t + "\n")[..|t|] == t;
  }

  /** Without a final newline, ParseSuffix is ParseCore. */
  lemma ParseSuffixPlain(t: string)
    requires |t| > 0 && t[|t| - 1] != '\n'
    ensures ParseSuffix(t) == ParseCore(t)
  {
  }

  /** Every well-formed match is found: the parser is complete for the grammar. */
  lemma ParseRendered(m: SuffixMatch)
    requires WellFormed(m)
    ensures ParseSuffix(Render(m)) == Some(m)
  {
    var t := Core(m);
    ParseCoreOfCore(m);
    if m.newline {
      assert Render(m) == t + "\n";
      ParseSuffixNewline(t);
    } else {
      assert Render(m) == t;
      CoreLast(m);
      ParseSuffixPlain(t);
    }
  }

  /** The last character of a match's core text: a digit or the tag. */
  lemma CoreLast(m: SuffixMatch)
    requires WellFormed(m)
    ensures var c := Core(m); |c| > 0 && (IsDigit(c[|c| - 1]) || IsTag(c[|c| - 1]))
  {
    var c := Core(m);
    if m.right.Some? {
      assert c[|c| - 1] == m.right.value.digits[|m.right.value.digits| - 1];
    } else if m.left.Some? {
      assert c[|c| - 1] == m.left.value.digits[|m.left.value.digits| - 1];
    } else {
      assert c[|c| - 1] == m.tag;
    }
  }

  /** The last character of a rendered match: a newline, a digit or the tag. */
  lemma RenderLast(m: SuffixMatch)
    requires WellFormed(m)
    ensures var s := Render(m); |s| > 0 && (s[|s| - 1] == '\n' || IsDigit(s[|s| - 1]) || IsTag(s[|s| - 1]))
  {
    if !m.newline {
      CoreLast(m);
      assert Render(m) == Core(m);
    }
  }

  // ---------------------------------------------------------------------
  // Classification

  /** What the loop keeps of a fragment: the captured tag and the two paddings. */
  datatype Fragment = Fragment(tag: char, padLeft: nat, padRight: nat)

  /** `(int)` of a captured padding; an absent group (`0` from `array_pad`, or `""`) gives 0. */
  function PaddingValue(p: Option<Padding>): nat
    requires p.Some? ==> AllDigits(p.value.digits)
  {
    match p
    case None => 0
    case Some(q) => DecimalValue(q.digits)
  }

  function FragmentOf(m: SuffixMatch): Fragment
    requires WellFormed(m)
  {
    Fragment(m.tag, PaddingValue(m.left), PaddingValue(m.right))
  }

  /** Lines 103-107 of css-sprite.php: is this directory entry a fragment, and of what kind. */
  function Classify(file: string): Option<Fragment>
  {
    var ext := Extension(file);
    if ext in ImageExtensions && file !in ReservedNames then
      match ParseSuffix(BaseName(file, "." + ext))
      case Some(m) => Some(FragmentOf(m))
      case None => None
    else None
  }

  /** Every admitted extension is lower-case, has no dot, and ends with `g` or `f`. */
  lemma AdmittedLast(e: string)
    requires e in ImageExtensions
    ensures '.' !in e && Lower(e) == e
    ensures |e| >= 3 && (e[|e| - 1] == 'g' || e[|e| - 1] == 'f')
  {
    if e == "png" {
      assert e[2] == 'g';
    } else if e == "gif" {
      assert e[2] == 'f';
    } else if e == "jpg" {
      assert e[2] == 'g';
    } else {
      assert e == "jpeg" && e[3] == 'g';
    }
  }

  /** No rendered match ends with a letter that lower-cases to `g` or `f`. */
  lemma RenderNotExtensionLetter(m: SuffixMatch)
    requires WellFormed(m)
    ensures var s := Render(m); |s| > 0 && LowerChar(s[|s| - 1]) != 'g' && LowerChar(s[|s| - 1]) != 'f'
  {
    RenderLast(m);
  }

  /** The last character of a name, lower-cased, is the last character of its extension. */
  lemma ExtensionLast(file: string)
    requires |Extension(file)| > 0
    ensures |file| > 0 && LowerChar(file[|file| - 1]) == Extension(file)[|Extension(file)| - 1]
  {
    var ext := Extension(file);
    match LastIndexOf(file, '.')
    case Some(i) =>
      var tail := file[i + 1..];
      assert ext == Lower(tail) && tail[|tail| - 1] == file[|file| - 1];
    case None =>
      var tail := file[1..];
      assert ext == Lower(tail) && tail[|tail| - 1] == file[|file| - 1];
  }

  /** A rendered match never ends with an admitted extension: its last character is no `g` or `f`. */
  lemma RenderedNotAdmitted(m: SuffixMatch)
    requires WellFormed(m)
    ensures Extension(Render(m)) !in ImageExtensions
  {
    RenderNotExtensionLetter(m);
    LastLetterExcludes(Render(m));
  }

  /** A name whose last letter lower-cases to neither `g` nor `f` has no admitted extension. */
  lemma LastLetterExcludes(s: string)
    requires |s| > 0 && LowerChar(s[|s| - 1]) != 'g' && LowerChar(s[|s| - 1]) != 'f'
    ensures Extension(s) !in ImageExtensions
  {
    var ext := Extension(s);
    if ext in ImageExtensions {
      AdmittedLast(ext);
      ExtensionLast(s);
      assert false;
    }
  }

  /** When the pattern matches the base name, `.` and the extension were a proper suffix of the name. */
  lemma SuffixWasProper(file: string, ext: string, base: string)
    requires ext == Extension(file) && ext in ImageExtensions
    requires base == BaseName(file, "." + ext) && ParseSuffix(base).Some?
    ensures |"." + ext| < |file| && EndsWith(file, "." + ext)
  {
    if !(|"." + ext| < |file| && EndsWith(file, "." + ext)) {
      // uncut, the name would end with the extension's last letter
      BaseNameSplits(file, "." + ext);
      ParseSuffixSound(base);
      RenderedNotAdmitted(ParseSuffix(base).value);
      assert false;
    }
  }

  /** When the pattern matches the base name, `basename` did cut `.` and the extension. */
  lemma BaseNameCut(file: string)
    requires Extension(file) in ImageExtensions
    requires ParseSuffix(BaseName(file, "." + Extension(file))).Some?
    ensures BaseName(file, "." + Extension(file)) + "." + Extension(file) == file
  {
    var ext := Extension(file);
    var suffix := "." + ext;
    var base := BaseName(file, suffix);
    SuffixWasProper(file, ext, base);
    BaseNameSplits(file, suffix);
    ConcatAssoc(base, ".", ext);
  }

  /**
   * A name is classified only if its extension is admitted, it is not a
   * reserved name, and it is a well-formed match followed by `.` and the
   * lower-case extension.
   */
  lemma ClassifySound(file: string)
    requires Classify(file).Some?
    ensures Extension(file) in ImageExtensions && file !in ReservedNames
    ensures exists m :: WellFormed(m) && file == Render(m) + "." + Extension(file) && Classify(file) == Some(FragmentOf(m))
  {
    var ext := Extension(file);
    var base := BaseName(file, "." + ext);
    var m := ParseSuffix(base).value;
    BaseNameCut(file);
    ParseSuffixSound(base);
    assert file == Render(m) + "." + ext;
  }

  lemma BaseNameOfJoin(stem: string, suffix: string)
    requires |stem| > 0
    ensures BaseName(stem + suffix, suffix) == stem
  {
    var name := stem + suffix;
    assert name[|name| - |suffix|..] == suffix;
    assert name[..|name| - |suffix|] == stem;
  }

  /** Classify, once its three tests are decided. */
  lemma ClassifyOfParts(file: string, ext: string, base: string, m: SuffixMatch)
    requires Extension(file) == ext && ext in ImageExtensions && file !in ReservedNames
    requires BaseName(file, "." + ext) == base && ParseSuffix(base) == Some(m)
    ensures Classify(file) == Some(FragmentOf(m))
  {
  }

  /** Every well-formed match followed by an admitted extension is classified, as the match says. */
  lemma ClassifyComplete(m: SuffixMatch, ext: string)
    requires WellFormed(m) && ext in ImageExtensions
    requires Render(m) + "." + ext !in ReservedNames
    ensures Classify(Render(m) + "." + ext) == Some(FragmentOf(m))
  {
    var stem := Render(m);
    var file := stem + "." + ext;
    RenderLast(m);
    AdmittedLast(ext);
    ExtensionAfterLastDot(stem, ext);
    assert file == stem + ("." + ext);
    BaseNameOfJoin(stem, "." + ext);
    ParseRendered(m);
    ClassifyOfParts(file, ext, stem, m);
  }

  /**
   * `basename` cuts the lower-cased extension case-sensitively, so a name
   * whose admitted extension is written with an upper-case letter keeps it,
   * fails the `$`-anchored pattern and is no fragment.
   */
  lemma UpperCaseExtensionExcluded(stem: string, e: string)
    requires '.' !in e && Lower(e) in ImageExtensions && Lower(e) != e
    ensures Classify(stem + "." + e) == None
  {
    var file := stem + "." + e;
    ExtensionAfterLastDot(stem, e);
    if Classify(file).Some? {
      ClassifySound(file);
      assert false;
    }
  }
}
