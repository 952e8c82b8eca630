/**
 * `GDocsMarkdown::clean_markdown`: the four stages in the order the source
 * applies them, and what the composition guarantees.
 */
module Cleaner {
  import opened SeqFacts
  import opened SourcesSplit
  import opened ImageStrip
  import opened NewlineCollapse
  import opened PhpTrim

  /** `clean_markdown($markdown)`. */
  function Clean(markdown: string): (r: string)
  {
    Trim(Collapse(Strip(Strip(BeforeSources(markdown), Reference), Inline)))
  }

  /** The output starts and ends with a character outside the trim list. */
  lemma CleanHasNoOuterBlanks(markdown: string)
    ensures var r := Clean(markdown); r == [] || (!IsTrimChar(r[0]) && !IsTrimChar(r[|r| - 1]))
  {
    var c := Collapse(Strip(Strip(BeforeSources(markdown), Reference), Inline));
    assert Clean(markdown) == Trim(c);
  }

  /** Text with no line break and none of the characters `!`, `[`, `]`, `(`, `)`. */
  predicate PlainText(s: string)
  {
    forall k :: 0 <= k < |s| ==> !IsLineBreak(s[k]) && s[k] !in "![]()"
  }

  /** The delimiter starts with two line feeds and has the letter `S` third. */
  lemma DelimiterShape(s: string, i: nat)
    requires OccursAt(s, Delimiter, i)
    ensures IsLineBreak(s[i]) && IsLineBreak(s[i + 1]) && s[i + 2] == 'S' && IsLineBreak(s[i + 10])
  {
    assert s[i..i + |Delimiter|][0] == s[i];
    assert s[i..i + |Delimiter|][1] == s[i + 1];
    assert s[i..i + |Delimiter|][2] == s[i + 2];
    assert s[i..i + |Delimiter|][10] == s[i + 10];
  }

  /** Text whose line breaks never come two in a row holds no delimiter. */
  lemma NoDelimiterWithoutBlankLine(s: string)
    requires forall k :: 0 <= k < |s| - 1 ==> !(IsLineBreak(s[k]) && IsLineBreak(s[k + 1]))
    ensures forall i :: 0 <= i <= |s| ==> !OccursAt(s, Delimiter, i)
  {
    forall i | 0 <= i <= |s| ensures !OccursAt(s, Delimiter, i) {
      if OccursAt(s, Delimiter, i) {
        DelimiterShape(s, i);
      }
    }
  }

  /** Text whose line breaks all stand in one run holds no delimiter. */
  lemma NoDelimiterInOneRun(s: string, lo: nat, hi: nat)
    requires lo <= hi <= |s|
    requires forall k :: 0 <= k < |s| ==> (IsLineBreak(s[k]) <==> lo <= k < hi)
    ensures forall i :: 0 <= i <= |s| ==> !OccursAt(s, Delimiter, i)
  {
    forall i | 0 <= i <= |s| ensures !OccursAt(s, Delimiter, i) {
      if OccursAt(s, Delimiter, i) {
        DelimiterShape(s, i);
      }
    }
  }

  /** Plain text goes through the image and newline stages unchanged. */
  lemma PlainTextUnchanged(s: string)
    requires PlainText(s)
    ensures Strip(s, Reference) == s && Strip(s, Inline) == s && Collapse(s) == s
  {
    assert '!' !in s by {
      forall k | 0 <= k < |s| ensures s[k] != '!' {
        assert s[k] !in "![]()";
      }
    }
    StripNoBangPrefix(s, [], Reference);
    StripNoBangPrefix(s, [], Inline);
    assert s + [] == s;
    CollapseWithoutBreaks(s);
  }

  /** Concatenations of plain text are plain. */
  lemma PlainConcat(a: string, b: string)
    requires PlainText(a) && PlainText(b)
    ensures PlainText(a + b)
  {
    assert forall k :: |a| <= k < |a + b| ==> (a + b)[k] == b[k - |a|];
  }

  /** Text that is already trimmed at both ends is left alone by `trim`. */
  lemma TrimmedUnchanged(s: string)
    requires s == [] || (!IsTrimChar(s[0]) && !IsTrimChar(s[|s| - 1]))
    ensures Trim(s) == s
  {
    TrimIsMaximal(s, 0, |s|);
  }

  /** Empty input gives empty output. */
  lemma CleanEmpty()
    ensures Clean([]) == []
  {
    assert BeforeSources([]) == [];
  }

  /** Input made only of trim characters (spaces, tabs, line breaks, NUL, VT) gives empty output. */
  lemma CleanWhitespaceOnly(s: string)
    requires TrimCharsBetween(s, 0, |s|)
    ensures Clean(s) == []
  {
    var kept := BeforeSources(s);
    assert TrimCharsBetween(kept, 0, |kept|);
    assert !HasImageOpener(kept);
    StripWithoutOpener(kept, Reference);
    StripWithoutOpener(kept, Inline);
    CollapseKeepsTrimChars(kept);
    TrimEmptyIff(Collapse(kept));
  }

  /** Collapsing text made of trim characters leaves only trim characters. */
  lemma {:induction false} CollapseKeepsTrimChars(s: string)
    requires TrimCharsBetween(s, 0, |s|)
    ensures TrimCharsBetween(Collapse(s), 0, |Collapse(s)|)
    decreases |s|
  {
    if s != [] {
      if IsLineBreak(s[0]) {
        var u := DropBreaks(s);
        TrimCharsSuffix(s, |s| - |u|);
        CollapseKeepsTrimChars(u);
        assert Collapse(s) == "\n\n" + Collapse(u);
        TrimCharsConcat("\n\n", Collapse(u));
      } else {
        TrimCharsSuffix(s, 1);
        CollapseKeepsTrimChars(s[1..]);
        assert Collapse(s) == [s[0]] + Collapse(s[1..]);
        TrimCharsConcat([s[0]], Collapse(s[1..]));
      }
    }
  }

  lemma TrimCharsSuffix(s: string, n: nat)
    requires n <= |s| && TrimCharsBetween(s, 0, |s|)
    ensures TrimCharsBetween(s[n..], 0, |s| - n)
  {
    forall k | 0 <= k < |s| - n ensures IsTrimChar(s[n..][k]) {
      assert s[n..][k] == s[n + k];
    }
  }

  lemma TrimCharsConcat(a: string, b: string)
    requires TrimCharsBetween(a, 0, |a|) && TrimCharsBetween(b, 0, |b|)
    ensures TrimCharsBetween(a + b, 0, |a + b|)
  {
    forall k | 0 <= k < |a + b| ensures IsTrimChar((a + b)[k]) {
      if k >= |a| {
        assert (a + b)[k] == b[k - |a|];
      }
    }
  }

  /** Trimming keeps a middle part of its input, so it keeps the blank-line shape the collapse gave. */
  lemma TrimKeepsBlankLines(s: string)
    requires BlankLinesNormalized(s)
    ensures BlankLinesNormalized(Trim(s))
  {
    var t := TrimStart(s);
    var r := TrimEnd(t);
    var lo := |s| - |t|;
    NormalizedFrom(s, lo);
    NormalizedUpTo(t, |r|);
  }

  /** No `\r` is left, and every run of line feeds inside the result is exactly one blank line. */
  lemma CleanBlankLines(markdown: string)
    ensures BlankLinesNormalized(Clean(markdown))
  {
    var noImages := Strip(Strip(BeforeSources(markdown), Reference), Inline);
    CollapseNormalizes(noImages);
    TrimKeepsBlankLines(Collapse(noImages));
  }

  /**
   * Everything from the first Sources delimiter on is dropped: cleaning
   * `a + delimiter + b` is cleaning `a` alone, whatever `b` holds.
   */
  lemma CleanDropsSources(a: string, b: string)
    requires forall i :: 0 <= i < |a| ==> !OccursAt(a + Delimiter + b, Delimiter, i)
    ensures Clean(a + Delimiter + b) == Clean(a)
  {
    SplitAtFirstDelimiter(a, b);
    SplitPrefixKeptWhole(a, b);
  }

  /** A single line with no `!` is only trimmed: it holds no delimiter, no image and no run of breaks. */
  lemma CleanOneLine(a: string)
    requires NoLineBreaks(a) && '!' !in a
    ensures Clean(a) == Trim(a)
  {
    OneLineKeptWhole(a);
    StripNoBangPrefix(a, [], Reference);
    StripNoBangPrefix(a, [], Inline);
    assert a + [] == a;
    CollapseWithoutBreaks(a);
  }

  /** The instance `"Hello\n\nSources\n\nImage credits here"`, which gives `"Hello"`. */
  lemma CleanDropsSourcesAfterLine(a: string, b: string)
    requires NoLineBreaks(a) && '!' !in a
    ensures Clean(a + Delimiter + b) == Trim(a)
  {
    var s := a + Delimiter + b;
    forall i | 0 <= i < |a| ensures !OccursAt(s, Delimiter, i) {
      if OccursAt(s, Delimiter, i) {
        DelimiterShape(s, i);
      }
    }
    CleanDropsSources(a, b);
    CleanOneLine(a);
  }

  /** Text without `\r` or `\n`. */
  predicate NoLineBreaks(s: string)
  {
    forall k :: 0 <= k < |s| ==> !IsLineBreak(s[k])
  }

  lemma NoLineBreaksConcat(a: string, b: string)
    requires NoLineBreaks(a) && NoLineBreaks(b)
    ensures NoLineBreaks(a + b)
  {
    assert forall k :: |a| <= k < |a + b| ==> (a + b)[k] == b[k - |a|];
  }

  lemma NoLineBreaksInMarkup(alt: string, target: string, form: ImageForm)
    requires NoLineBreaks(alt) && NoLineBreaks(target)
    ensures NoLineBreaks(ImageMarkup(alt, target, form))
  {
    NoLineBreaksConcat("![", alt);
    NoLineBreaksConcat("![" + alt, "]");
    NoLineBreaksConcat("![" + alt + "]", [LabelOpen(form)]);
    NoLineBreaksConcat("![" + alt + "]" + [LabelOpen(form)], target);
    NoLineBreaksConcat("![" + alt + "]" + [LabelOpen(form)] + target, [LabelClose(form)]);
  }

  /** Text on a single line holds no Sources delimiter, so the first stage keeps all of it. */
  lemma OneLineKeptWhole(s: string)
    requires NoLineBreaks(s)
    ensures BeforeSources(s) == s
  {
    NoDelimiterWithoutBlankLine(s);
    KeptWholeIffNoDelimiter(s);
  }

  lemma PlainHasNoLineBreaks(s: string)
    requires PlainText(s)
    ensures NoLineBreaks(s) && '!' !in s && ']' !in s && ')' !in s
  {
    forall k | 0 <= k < |s| ensures s[k] != '!' && s[k] != ']' && s[k] != ')' {
      assert s[k] !in "![]()";
    }
  }

  /**
   * Only the image token is removed; the text around it keeps its order and
   * spacing: `"A ![alt][1] B"` gives `"A  B"`, with both spaces.
   */
  lemma CleanRemovesOnlyTheImage(p: string, alt: string, target: string, q: string, form: ImageForm)
    requires PlainText(p) && PlainText(alt) && PlainText(target) && PlainText(q)
    ensures Clean(p + ImageMarkup(alt, target, form) + q) == Trim(p + q)
  {
    var m := ImageMarkup(alt, target, form);
    var s := p + m + q;
    PlainHasNoLineBreaks(p);
    PlainHasNoLineBreaks(alt);
    PlainHasNoLineBreaks(target);
    PlainHasNoLineBreaks(q);
    assert ']' !in alt && LabelClose(form) !in target by {
      forall k | 0 <= k < |alt| ensures alt[k] != ']' {
        assert alt[k] !in "![]()";
      }
      forall k | 0 <= k < |target| ensures target[k] != LabelClose(form) {
        assert target[k] !in "![]()";
      }
    }
    NoLineBreaksInMarkup(alt, target, form);
    NoLineBreaksConcat(p, m);
    NoLineBreaksConcat(p + m, q);
    OneLineKeptWhole(s);
    AppendAssoc(p, m, q);
    StripNoBangPrefix(p, m + q, Reference);
    TokenFromParts(alt, target, form);
    PlainTextUnchanged(q);
    PlainConcat(p, q);
    PlainTextUnchanged(p + q);
    match form
    case Reference =>
      StripTokenPrefix(m, q, Reference);
      assert Strip(s, Reference) == p + q;
    case Inline =>
      assert OtherForm(Reference) == Inline;
      StripOtherImage(alt, target, Reference, q);
      assert Strip(s, Reference) == p + (m + q);
      StripNoBangPrefix(p, m + q, Inline);
      StripTokenPrefix(m, q, Inline);
      assert Strip(p + (m + q), Inline) == p + q;
  }

  /**
   * A run of line breaks between two lines of text, whatever its length,
   * becomes one blank line: `"Para1\n\n\n\n\nPara2"` gives `"Para1\n\nPara2"`.
   */
  lemma CleanCollapsesRun(x: string, run: string, y: string)
    requires NoLineBreaks(x) && NoLineBreaks(y) && '!' !in x && '!' !in y && x != [] && y != []
    requires !IsTrimChar(x[0]) && !IsTrimChar(y[|y| - 1])
    requires run != [] && forall k :: 0 <= k < |run| ==> IsLineBreak(run[k])
    ensures Clean(x + run + y) == x + "\n\n" + y
  {
    RunSurvivesCut(x, run, y);
    CollapseOneRun(x, run, y);
    var r := x + "\n\n" + y;
    assert r[0] == x[0] && r[|r| - 1] == y[|y| - 1];
    TrimmedUnchanged(r);
  }

  /** One run of line breaks between `!`-free lines is no delimiter and holds no image. */
  lemma RunSurvivesCut(x: string, run: string, y: string)
    requires NoLineBreaks(x) && NoLineBreaks(y) && '!' !in x && '!' !in y
    requires forall k :: 0 <= k < |run| ==> IsLineBreak(run[k])
    ensures Strip(Strip(BeforeSources(x + run + y), Reference), Inline) == x + run + y
  {
    var s := x + run + y;
    OneRunFacts(x, run, y);
    NoDelimiterInOneRun(s, |x|, |x| + |run|);
    KeptWholeIffNoDelimiter(s);
    StripNoBangPrefix(s, [], Reference);
    StripNoBangPrefix(s, [], Inline);
    assert s + [] == s;
  }

  /** The run between two lines becomes exactly one blank line. */
  lemma CollapseOneRun(x: string, run: string, y: string)
    requires NoLineBreaks(x) && NoLineBreaks(y) && x != [] && y != []
    requires run != [] && forall k :: 0 <= k < |run| ==> IsLineBreak(run[k])
    ensures Collapse(x + run + y) == x + "\n\n" + y
  {
    RunBecomesBlankLine(x, run, y);
    CollapseWithoutBreaks(x);
    CollapseWithoutBreaks(y);
  }

  /** Where the line breaks of `x + run + y` are, and that it holds no `!`. */
  lemma OneRunFacts(x: string, run: string, y: string)
    requires NoLineBreaks(x) && NoLineBreaks(y) && '!' !in x && '!' !in y
    requires forall k :: 0 <= k < |run| ==> IsLineBreak(run[k])
    ensures forall k :: 0 <= k < |x + run + y| ==> (IsLineBreak((x + run + y)[k]) <==> |x| <= k < |x| + |run|)
    ensures '!' !in x + run + y
  {
    var s := x + run + y;
    assert forall k :: 0 <= k < |x| ==> s[k] == x[k];
    assert forall k :: |x| <= k < |x| + |run| ==> s[k] == run[k - |x|];
    assert forall k :: |x| + |run| <= k < |s| ==> s[k] == y[k - |x| - |run|];
    assert '!' !in run by {
      assert forall k :: 0 <= k < |run| ==> run[k] != '!';
    }
  }

  /** A line of text between single line feeds becomes a paragraph of its own. */
  lemma CollapseLoneLine(a: string, w: string, b: string)
    requires NoLineBreaks(a) && NoLineBreaks(w) && NoLineBreaks(b) && w != []
    ensures Collapse(a + "\n" + w + "\n" + b) == a + "\n\n" + w + "\n\n" + b
  {
    CollapseWithoutBreaks(w);
    CollapseWithoutBreaks(a);
    CollapseWithoutBreaks(b);
    var nl := "\n";
    var tail := w + nl + b;
    assert tail[0] == w[0];
    RunBecomesBlankLine(w, nl, b);
    assert Collapse(tail) == w + "\n\n" + b;
    RunBecomesBlankLine(a, nl, tail);
    AppendAssoc(a + nl, w + nl, b);
    AppendAssoc(a + nl, w, nl);
    AppendAssoc(a + "\n\n", w + "\n\n", b);
    AppendAssoc(a + "\n\n", w, "\n\n");
  }

  /** The word of the delimiter holds no line break. */
  lemma SourcesIsOneLine()
    ensures NoLineBreaks("Sources")
  {
  }

  /** The `Sources` line and the delimiter, regrouped around the word. */
  lemma SourcesLineShape(a: string, b: string)
    ensures a + "\nSources\n" + b == a + "\n" + "Sources" + "\n" + b
    ensures a + "\n\n" + "Sources" + "\n\n" + b == a + Delimiter + b
  {
  }

  /** Collapsing turns a line holding only `Sources` into the delimiter. */
  lemma CollapseSourcesLine(a: string, b: string)
    requires NoLineBreaks(a) && NoLineBreaks(b)
    ensures Collapse(a + "\nSources\n" + b) == a + Delimiter + b
  {
    SourcesIsOneLine();
    SourcesLineShape(a, b);
    CollapseLoneLine(a, "Sources", b);
  }

  /** `a + "\nSources\n" + b` has no two line breaks in a row and no `!`. */
  lemma SourcesLineFacts(a: string, b: string)
    requires NoLineBreaks(a) && NoLineBreaks(b) && '!' !in a && '!' !in b
    ensures forall k :: 0 <= k < |a + "\nSources\n" + b| - 1 ==>
      !(IsLineBreak((a + "\nSources\n" + b)[k]) && IsLineBreak((a + "\nSources\n" + b)[k + 1]))
    ensures '!' !in a + "\nSources\n" + b
  {
    var s := a + "\nSources\n" + b;
    assert forall k :: 0 <= k < |a| ==> s[k] == a[k];
    assert forall k :: |a| <= k < |a| + 9 ==> s[k] == "\nSources\n"[k - |a|];
    assert forall k :: |a| + 9 <= k < |s| ==> s[k] == b[k - |a| - 9];
  }

  /** Before collapsing, a single `\n` on each side is not a delimiter and there are no images. */
  lemma SourcesLineSurvivesCut(a: string, b: string)
    requires NoLineBreaks(a) && NoLineBreaks(b) && '!' !in a && '!' !in b
    ensures Strip(Strip(BeforeSources(a + "\nSources\n" + b), Reference), Inline) == a + "\nSources\n" + b
  {
    var s := a + "\nSources\n" + b;
    SourcesLineFacts(a, b);
    NoDelimiterWithoutBlankLine(s);
    KeptWholeIffNoDelimiter(s);
    StripNoBangPrefix(s, [], Reference);
    StripNoBangPrefix(s, [], Inline);
    assert s + [] == s;
  }

  /**
   * Cleaning is not idempotent: collapsing `"\nSources\n"` creates the
   * delimiter, which a second pass then cuts at.
   */
  lemma CleanNotIdempotent(a: string, b: string)
    requires NoLineBreaks(a) && NoLineBreaks(b) && '!' !in a && '!' !in b && a != [] && b != []
    requires !IsTrimChar(a[0]) && !IsTrimChar(a[|a| - 1]) && !IsTrimChar(b[|b| - 1])
    ensures Clean(a + "\nSources\n" + b) == a + Delimiter + b
    ensures Clean(Clean(a + "\nSources\n" + b)) == a
  {
    SourcesLineSurvivesCut(a, b);
    CollapseSourcesLine(a, b);
    var r := a + Delimiter + b;
    assert r[0] == a[0] && r[|r| - 1] == b[|b| - 1];
    TrimmedUnchanged(r);
    CleanDropsSourcesAfterLine(a, b);
    TrimmedUnchanged(a);
  }
}
