/**
 * Documents made only of images and blank characters, and what cleaning
 * leaves of them.
 */
module ImageOnlyDocuments {
  import opened SeqFacts
  import opened SourcesSplit
  import opened ImageStrip
  import opened NewlineCollapse
  import opened PhpTrim
  import opened Cleaner

  /** One piece of such a document: a blank character or one image. */
  datatype Segment = Blank(c: char) | Image(alt: string, target: string, form: ImageForm)

  function SegmentText(g: Segment): string
  {
    match g
    case Blank(c) => [c]
    case Image(alt, target, form) => ImageMarkup(alt, target, form)
  }

  function Join(segs: seq<Segment>): string
  {
    if segs == [] then [] else SegmentText(segs[0]) + Join(segs[1..])
  }

  /** Blanks are trim characters; images have plain alt text and target. */
  predicate Simple(g: Segment)
  {
    match g
    case Blank(c) => IsTrimChar(c)
    case Image(alt, target, _) => PlainText(alt) && PlainText(target)
  }

  predicate AllSimple(segs: seq<Segment>)
  {
    forall k :: 0 <= k < |segs| ==> Simple(segs[k])
  }

  /** The segments left once every image of `form` is taken out. */
  function Without(segs: seq<Segment>, form: ImageForm): seq<Segment>
  {
    if segs == [] then []
    else if segs[0].Image? && segs[0].form == form then Without(segs[1..], form)
    else [segs[0]] + Without(segs[1..], form)
  }

  /** A document of simple segments starts with a trim character or `!`. */
  lemma JoinStart(segs: seq<Segment>)
    requires AllSimple(segs) && Join(segs) != []
    ensures IsTrimChar(Join(segs)[0]) || Join(segs)[0] == '!'
  {
    if segs[0].Blank? {
      assert Simple(segs[0]);
    }
  }

  /** Every line break is followed by a trim character or `!`, or ends the text. */
  predicate BreaksFollowedByBlankOrBang(s: string)
  {
    forall i :: 0 <= i < |s| - 1 && IsLineBreak(s[i]) ==> IsTrimChar(s[i + 1]) || s[i + 1] == '!'
  }

  /** The property holds across a seam where the left part cannot end in a break that the right part spoils. */
  lemma BreaksFollowedConcat(h: string, t: string)
    requires BreaksFollowedByBlankOrBang(h) && BreaksFollowedByBlankOrBang(t)
    requires h != [] && IsLineBreak(h[|h| - 1]) && t != [] ==> IsTrimChar(t[0]) || t[0] == '!'
    ensures BreaksFollowedByBlankOrBang(h + t)
  {
    var s := h + t;
    forall i | 0 <= i < |s| - 1 && IsLineBreak(s[i]) ensures IsTrimChar(s[i + 1]) || s[i + 1] == '!' {
      if i >= |h| {
        assert s[i] == t[i - |h|] && s[i + 1] == t[i - |h| + 1];
      } else if i + 1 < |h| {
        assert s[i] == h[i] && s[i + 1] == h[i + 1];
      } else {
        assert s[i] == h[|h| - 1] && s[i + 1] == t[0];
      }
    }
  }

  /** The text of a simple segment keeps the property, and only a blank can end in a break. */
  lemma SegmentBreaksFollowed(g: Segment)
    requires Simple(g)
    ensures BreaksFollowedByBlankOrBang(SegmentText(g))
    ensures g.Image? ==> NoLineBreaks(SegmentText(g))
  {
    if g.Image? {
      PlainHasNoLineBreaks(g.alt);
      PlainHasNoLineBreaks(g.target);
      NoLineBreaksInMarkup(g.alt, g.target, g.form);
    }
  }

  /** In a document of simple segments, a line break is followed only by a blank or by an image. */
  lemma {:induction false} JoinBreaksFollowed(segs: seq<Segment>)
    requires AllSimple(segs)
    ensures BreaksFollowedByBlankOrBang(Join(segs))
    decreases |segs|
  {
    if segs != [] {
      var h := SegmentText(segs[0]);
      var t := Join(segs[1..]);
      TailSimple(segs);
      JoinBreaksFollowed(segs[1..]);
      SegmentBreaksFollowed(segs[0]);
      if t != [] {
        JoinStart(segs[1..]);
      }
      if segs[0].Image? {
        assert h != [] ==> !IsLineBreak(h[|h| - 1]);
      }
      BreaksFollowedConcat(h, t);
    }
  }

  /** A document of simple segments holds no `Sources` delimiter. */
  lemma JoinHasNoDelimiter(segs: seq<Segment>)
    requires AllSimple(segs)
    ensures forall i :: 0 <= i <= |Join(segs)| ==> !OccursAt(Join(segs), Delimiter, i)
  {
    var s := Join(segs);
    JoinBreaksFollowed(segs);
    forall i | 0 <= i <= |s| ensures !OccursAt(s, Delimiter, i) {
      if OccursAt(s, Delimiter, i) {
        DelimiterShape(s, i);
      }
    }
  }

  lemma TailSimple(segs: seq<Segment>)
    requires AllSimple(segs) && segs != []
    ensures Simple(segs[0]) && AllSimple(segs[1..])
  {
    forall k | 0 <= k < |segs[1..]| ensures Simple(segs[1..][k]) {
      assert segs[1..][k] == segs[k + 1];
    }
  }

  /**
   * Over simple segments, the scanner for one form deletes exactly the
   * images of that form and copies the blanks and the other images.
   */
  lemma {:induction false} StripSegments(segs: seq<Segment>, form: ImageForm)
    requires AllSimple(segs)
    ensures Strip(Join(segs), form) == Join(Without(segs, form))
    ensures AllSimple(Without(segs, form))
    decreases |segs|
  {
    if segs != [] {
      var g := segs[0];
      var rest := segs[1..];
      TailSimple(segs);
      StripSegments(rest, form);
      var kept := Without(rest, form);
      assert Join(segs) == SegmentText(g) + Join(rest);
      if g.Image? && g.form == form {
        PlainHasNoLineBreaks(g.alt);
        PlainHasNoLineBreaks(g.target);
        TokenFromParts(g.alt, g.target, form);
        StripTokenPrefix(SegmentText(g), Join(rest), form);
      } else {
        var out := [g] + kept;
        assert Without(segs, form) == out;
        assert out[0] == g && out[1..] == kept;
        assert Join(out) == SegmentText(g) + Join(kept);
        assert AllSimple(out) by {
          forall k | 0 <= k < |out| ensures Simple(out[k]) {
            if k > 0 {
              assert out[k] == kept[k - 1];
            }
          }
        }
        match g
        case Blank(c) =>
          assert '!' !in [c];
          StripNoBangPrefix([c], Join(rest), form);
        case Image(alt, target, other) =>
          PlainHasNoLineBreaks(alt);
          PlainHasNoLineBreaks(target);
          assert other == OtherForm(form);
          StripOtherImage(alt, target, form, Join(rest));
      }
    }
  }

  /** With the images of both forms taken out, only blank characters are left. */
  lemma {:induction false} OnlyBlanksLeft(segs: seq<Segment>)
    requires AllSimple(segs)
    requires forall k :: 0 <= k < |segs| ==> segs[k].Blank?
    ensures TrimCharsBetween(Join(segs), 0, |Join(segs)|)
    decreases |segs|
  {
    if segs != [] {
      TailSimple(segs);
      OnlyBlanksLeft(segs[1..]);
      var t := Join(segs[1..]);
      var s := Join(segs);
      assert s == [segs[0].c] + t;
      forall k | 0 <= k < |s| ensures IsTrimChar(s[k]) {
        if k > 0 {
          assert s[k] == t[k - 1];
        }
      }
    }
  }

  /** Taking out both forms leaves no image. */
  lemma {:induction false} WithoutBothForms(segs: seq<Segment>)
    ensures forall k :: 0 <= k < |Without(Without(segs, Reference), Inline)| ==>
      Without(Without(segs, Reference), Inline)[k].Blank?
    decreases |segs|
  {
    if segs != [] {
      WithoutBothForms(segs[1..]);
      var g := segs[0];
      var r1 := Without(segs[1..], Reference);
      var left1 := Without(r1, Inline);
      match g
      case Blank(_) =>
        var r := [g] + r1;
        assert Without(segs, Reference) == r;
        assert r[0] == g && r[1..] == r1;
        var left := [g] + left1;
        assert Without(r, Inline) == left;
        forall k | 0 <= k < |left| ensures left[k].Blank? {
          if k > 0 {
            assert left[k] == left1[k - 1];
          }
        }
      case Image(_, _, form) =>
        if form == Inline {
          var r := [g] + r1;
          assert Without(segs, Reference) == r;
          assert r[0] == g && r[1..] == r1;
        }
    }
  }

  /**
   * A document made only of simple images and blank characters cleans to
   * the empty string.
   */
  lemma CleanImagesAndBlanks(segs: seq<Segment>)
    requires AllSimple(segs)
    ensures Clean(Join(segs)) == []
  {
    var s := Join(segs);
    JoinHasNoDelimiter(segs);
    KeptWholeIffNoDelimiter(s);
    StripSegments(segs, Reference);
    var noRef := Without(segs, Reference);
    StripSegments(noRef, Inline);
    var left := Without(noRef, Inline);
    WithoutBothForms(segs);
    OnlyBlanksLeft(left);
    CollapseKeepsTrimChars(Join(left));
    TrimEmptyIff(Collapse(Join(left)));
  }

  /** The two images and the space, read as a broken image head and one reference token. */
  lemma OverlapShape(a: string, x: string, b: string, c: string)
    ensures ImageMarkup(a, "![" + x, Inline) + " " + ImageMarkup(b, c, Reference)
         == "![" + a + "](" + ImageMarkup(x + ") ![" + b, c, Reference)
  {
  }

  /** `![a](` followed by `y`, regrouped as the head `![a]` before the rest. */
  lemma OverlapHead(a: string, y: string)
    ensures "![" + a + "](" + y == "![" + a + "]" + ("(" + y)
  {
  }

  /** The pieces of the overlap example hold no line break, and the inner label holds no `]`. */
  lemma OverlapPieces(a: string, x: string, b: string)
    requires PlainText(a) && PlainText(x) && PlainText(b)
    ensures ']' !in x + ") ![" + b && NoLineBreaks(x + ") ![" + b)
    ensures NoLineBreaks("![" + a + "](") && ')' !in "![" + a + "]("
  {
    PlainHasNoLineBreaks(a);
    PlainHasNoLineBreaks(x);
    PlainHasNoLineBreaks(b);
    NoLineBreaksConcat(x, ") ![");
    NoLineBreaksConcat(x + ") ![", b);
    NoLineBreaksConcat("![", a);
    NoLineBreaksConcat("![" + a, "](");
  }

  /** The reference pass keeps the broken head and deletes the token after it. */
  lemma StripOverlap(a: string, inner: string, c: string)
    requires ']' !in a && ']' !in inner && ']' !in c
    ensures Strip("![" + a + "](" + ImageMarkup(inner, c, Reference), Reference) == "![" + a + "]("
  {
    var token := ImageMarkup(inner, c, Reference);
    OverlapHead(a, token);
    OverlapHead(a, []);
    BrokenHead(a, "(" + token, Reference);
    StripNoBangPrefix("(", token, Reference);
    StripLoneImage(inner, c, Reference);
  }

  /**
   * An image whose target holds a second image's opening is not removed
   * whole: the reference pass deletes from the inner `![` up to the end of
   * the following reference image first, and the inline image is then left
   * without its closing parenthesis. Cleaning `"![a](![x) ![b][c]"`, made
   * only of two images and a space, gives `"![a]("`.
   */
  lemma OverlappingImagesLeaveMarkup(a: string, x: string, b: string, c: string)
    requires PlainText(a) && PlainText(x) && PlainText(b) && PlainText(c)
    ensures Clean(ImageMarkup(a, "![" + x, Inline) + " " + ImageMarkup(b, c, Reference)) == "![" + a + "]("
  {
    var inner := x + ") ![" + b;
    var token := ImageMarkup(inner, c, Reference);
    var head := "![" + a + "](";
    PlainHasNoLineBreaks(a);
    PlainHasNoLineBreaks(c);
    OverlapPieces(a, x, b);
    OverlapShape(a, x, b, c);
    NoLineBreaksInMarkup(inner, c, Reference);
    NoLineBreaksConcat(head, token);
    OneLineKeptWhole(head + token);
    StripOverlap(a, inner, c);
    StripWithoutCloser(head, Inline);
    CollapseWithoutBreaks(head);
    TrimmedUnchanged(head);
  }
}
