/**
 * Third stage of clean_markdown: `preg_replace("/[\r\n]+/", "\n\n", $content)`.
 * The greedy class run matches each maximal run of carriage returns and
 * line feeds, and each run becomes exactly one blank line.
 */
module NewlineCollapse {
  import opened SeqFacts

  /** A member of the class `[\r\n]`. */
  predicate IsLineBreak(c: char)
  {
    c == '\r' || c == '\n'
  }

  /** `s` with its leading run of line breaks removed. */
  function DropBreaks(s: string): (r: string)
    ensures |r| <= |s| && r == s[|s| - |r|..]
    ensures r == [] || !IsLineBreak(r[0])
    ensures forall k :: 0 <= k < |s| - |r| ==> IsLineBreak(s[k])
  {
    if s != [] && IsLineBreak(s[0]) then DropBreaks(s[1..]) else s
  }

  /** Replace every maximal run of `\r`/`\n` by `"\n\n"`. */
  function Collapse(s: string): (r: string)
    ensures s == [] ==> r == []
    ensures s != [] && IsLineBreak(s[0]) ==> |r| >= 2 && r[0] == '\n' && r[1] == '\n'
    ensures s != [] && !IsLineBreak(s[0]) ==> r != [] && r[0] == s[0]
    decreases |s|
  {
    if s == [] then []
    else if IsLineBreak(s[0]) then "\n\n" + Collapse(DropBreaks(s))
    else [s[0]] + Collapse(s[1..])
  }

  /** The text without its line breaks: what the collapse must not touch. */
  function Words(s: string): (r: string)
    ensures |r| <= |s|
  {
    if s == [] then []
    else if IsLineBreak(s[0]) then Words(s[1..])
    else [s[0]] + Words(s[1..])
  }

  /**
   * Read left to right, every line break in `r` is a `\n` that opens a pair
   * `"\n\n"` followed by something other than a break: each run of line
   * breaks is exactly one blank line and no `\r` is left.
   */
  ghost predicate BlankLinesNormalized(r: string)
    decreases |r|
  {
    if r == [] then true
    else if r[0] == '\r' then false
    else if r[0] == '\n' then
      |r| >= 2 && r[1] == '\n' && (|r| == 2 || !IsLineBreak(r[2])) && BlankLinesNormalized(r[2..])
    else BlankLinesNormalized(r[1..])
  }

  /** What normalized text looks like index by index: no `\r`, no three line feeds in a row, no lone line feed. */
  lemma {:induction false} NormalizedMeans(r: string)
    requires BlankLinesNormalized(r)
    ensures '\r' !in r
    ensures forall i :: 0 <= i < |r| - 2 ==> !(r[i] == '\n' && r[i + 1] == '\n' && r[i + 2] == '\n')
    ensures forall i {:trigger r[i]} :: 0 <= i < |r| && r[i] == '\n' ==>
              (0 < i && r[i - 1] == '\n') || (i + 1 < |r| && r[i + 1] == '\n')
    decreases |r|
  {
    if r != [] {
      var n := if r[0] == '\n' then 2 else 1;
      var x := r[n..];
      NormalizedMeans(x);
      assert forall i :: n <= i < |r| ==> r[i] == x[i - n];
      assert '\r' !in r by {
        forall i | 0 <= i < |r| ensures r[i] != '\r' {
          if i >= n {
            assert r[i] == x[i - n];
          }
        }
      }
      forall i | 0 <= i < |r| - 2 ensures !(r[i] == '\n' && r[i + 1] == '\n' && r[i + 2] == '\n') {
        if i >= n {
          assert r[i] == x[i - n] && r[i + 1] == x[i + 1 - n] && r[i + 2] == x[i + 2 - n];
        }
      }
      forall i | 0 <= i < |r| && r[i] == '\n'
        ensures (0 < i && r[i - 1] == '\n') || (i + 1 < |r| && r[i + 1] == '\n')
      {
        if i > n {
          assert r[i] == x[i - n];
          assert (0 < i - n && x[i - n - 1] == '\n') || (i - n + 1 < |x| && x[i - n + 1] == '\n');
          assert r[i - 1] == x[i - 1 - n];
          assert i + 1 < |r| ==> r[i + 1] == x[i + 1 - n];
        } else if i == n {
          assert r[i] == x[0];
          assert 1 < |x| && x[1] == '\n';
          assert r[i + 1] == x[1];
        } else if n == 2 {
          assert r[0] == '\n' && r[1] == '\n';
        }
      }
    }
  }

  /** A suffix that starts at a character other than a break is still normalized. */
  lemma {:induction false} NormalizedFrom(s: string, lo: nat)
    requires BlankLinesNormalized(s) && lo <= |s|
    requires lo < |s| ==> !IsLineBreak(s[lo])
    ensures BlankLinesNormalized(s[lo..])
    decreases |s|
  {
    if lo > 0 {
      var n := if s[0] == '\n' then 2 else 1;
      var u := s[n..];
      assert n <= lo && BlankLinesNormalized(u);
      assert lo - n < |u| ==> u[lo - n] == s[lo];
      assert s[lo..] == u[lo - n..];
      NormalizedFrom(u, lo - n);
    }
  }

  /** A prefix that ends at a character other than a break is still normalized. */
  lemma {:induction false} NormalizedUpTo(s: string, hi: nat)
    requires BlankLinesNormalized(s) && hi <= |s|
    requires hi > 0 ==> !IsLineBreak(s[hi - 1])
    ensures BlankLinesNormalized(s[..hi])
    decreases |s|
  {
    if hi > 0 {
      var n := if s[0] == '\n' then 2 else 1;
      var u := s[n..];
      assert n <= hi && BlankLinesNormalized(u);
      assert hi > n ==> u[hi - n - 1] == s[hi - 1];
      NormalizedUpTo(u, hi - n);
      var p := s[..hi];
      assert p[0] == s[0] && p[n..] == u[..hi - n];
      assert n == 2 ==> p[1] == s[1] && p[2] == s[2];
    }
  }

  lemma {:induction false} WordsOfBreaks(s: string)
    ensures Words(s) == Words(DropBreaks(s))
    decreases |s|
  {
    if s != [] && IsLineBreak(s[0]) {
      WordsOfBreaks(s[1..]);
    }
  }

  /** A blank line contributes nothing to the words. */
  lemma WordsAfterBlankLine(x: string)
    ensures Words("\n\n" + x) == Words(x)
  {
    var r := "\n\n" + x;
    assert r[1..] == "\n" + x;
    assert r[1..][1..] == x;
  }

  /** A character other than a break is a word character. */
  lemma WordsOfChar(c: char, x: string)
    requires !IsLineBreak(c)
    ensures Words([c] + x) == [c] + Words(x)
  {
    AppendTail(c, x);
  }

  /** Collapsing keeps every other character, in order. */
  lemma {:induction false} CollapseKeepsWords(s: string)
    ensures Words(Collapse(s)) == Words(s)
    decreases |s|
  {
    if s != [] {
      if IsLineBreak(s[0]) {
        var u := DropBreaks(s);
        CollapseKeepsWords(u);
        WordsOfBreaks(s);
        WordsAfterBlankLine(Collapse(u));
      } else {
        CollapseKeepsWords(s[1..]);
        WordsOfChar(s[0], Collapse(s[1..]));
      }
    }
  }

  /** After the collapse no `\r` is left and every run of line feeds is exactly one blank line. */
  lemma {:induction false} CollapseNormalizes(s: string)
    ensures BlankLinesNormalized(Collapse(s))
    decreases |s|
  {
    if s != [] {
      if IsLineBreak(s[0]) {
        var u := DropBreaks(s);
        CollapseNormalizes(u);
        assert ("\n\n" + Collapse(u))[2..] == Collapse(u);
      } else {
        CollapseNormalizes(s[1..]);
        assert ([s[0]] + Collapse(s[1..]))[1..] == Collapse(s[1..]);
      }
    }
  }

  /** Two line feeds followed by text that does not start with a break collapse to themselves. */
  lemma DropBlankLine(x: string)
    requires x == [] || !IsLineBreak(x[0])
    ensures DropBreaks("\n\n" + x) == x
  {
    var r := "\n\n" + x;
    assert r[1..] == "\n" + x;
    assert r[1..][1..] == x;
  }

  /** Collapsing twice is collapsing once. */
  lemma {:induction false} CollapseIdempotent(s: string)
    ensures Collapse(Collapse(s)) == Collapse(s)
    decreases |s|
  {
    if s != [] {
      if IsLineBreak(s[0]) {
        var u := DropBreaks(s);
        var x := Collapse(u);
        DropBlankLine(x);
        CollapseIdempotent(u);
      } else {
        var x := Collapse(s[1..]);
        CollapseIdempotent(s[1..]);
        assert ([s[0]] + x)[1..] == x;
      }
    }
  }

  /** Text without line breaks is left alone. */
  lemma {:induction false} CollapseWithoutBreaks(s: string)
    requires forall k :: 0 <= k < |s| ==> !IsLineBreak(s[k])
    ensures Collapse(s) == s
    decreases |s|
  {
    if s != [] {
      CollapseWithoutBreaks(s[1..]);
      assert s == [s[0]] + s[1..];
    }
  }

  /** Text that ends with a character other than a break is collapsed independently of what follows. */
  lemma {:induction false} CollapseAppend(x: string, y: string)
    requires x == [] || !IsLineBreak(x[|x| - 1])
    ensures Collapse(x + y) == Collapse(x) + Collapse(y)
    decreases |x|
  {
    if x == [] {
      assert x + y == y;
    } else if IsLineBreak(x[0]) {
      var u := DropBreaks(x);
      DropBreaksAppend(x, y);
      DropBreaksKeepsLast(x);
      assert (x + y)[0] == x[0];
      assert Collapse(x + y) == "\n\n" + Collapse(u + y);
      CollapseAppend(u, y);
      AppendAssoc("\n\n", Collapse(u), Collapse(y));
    } else {
      assert (x + y)[0] == x[0];
      assert (x + y)[1..] == x[1..] + y;
      assert Collapse(x + y) == [x[0]] + Collapse(x[1..] + y);
      CollapseAppend(x[1..], y);
      AppendAssoc([x[0]], Collapse(x[1..]), Collapse(y));
    }
  }

  /** Dropping the leading breaks of text that ends in a non-break does not reach what follows it. */
  lemma {:induction false} DropBreaksAppend(x: string, y: string)
    requires x != [] && !IsLineBreak(x[|x| - 1])
    ensures DropBreaks(x + y) == DropBreaks(x) + y
    decreases |x|
  {
    TailOfAppend(x, y);
    if IsLineBreak(x[0]) {
      assert x[1..][|x| - 2] == x[|x| - 1];
      DropBreaksAppend(x[1..], y);
    }
  }

  /** Dropping the leading breaks keeps a last character that is not a break. */
  lemma {:induction false} DropBreaksKeepsLast(x: string)
    requires x != [] && !IsLineBreak(x[|x| - 1])
    ensures DropBreaks(x) != [] && DropBreaks(x)[|DropBreaks(x)| - 1] == x[|x| - 1]
    decreases |x|
  {
    if IsLineBreak(x[0]) {
      assert x[1..][|x| - 2] == x[|x| - 1];
      DropBreaksKeepsLast(x[1..]);
    }
  }

  /**
   * Every maximal run of breaks, between text that ends and text that starts
   * with something else, becomes exactly `"\n\n"`, whatever its length and
   * mix of `\r` and `\n`.
   */
  lemma RunBecomesBlankLine(x: string, run: string, y: string)
    requires x == [] || !IsLineBreak(x[|x| - 1])
    requires run != [] && forall k :: 0 <= k < |run| ==> IsLineBreak(run[k])
    requires y == [] || !IsLineBreak(y[0])
    ensures Collapse(x + run + y) == Collapse(x) + "\n\n" + Collapse(y)
  {
    AppendAssoc(x, run, y);
    CollapseAppend(x, run + y);
    RunCollapses(run, y);
    AppendAssoc(Collapse(x), "\n\n", Collapse(y));
  }

  lemma {:induction false} RunDropped(run: string, y: string)
    requires forall k :: 0 <= k < |run| ==> IsLineBreak(run[k])
    requires y == [] || !IsLineBreak(y[0])
    ensures DropBreaks(run + y) == y
    decreases |run|
  {
    if run == [] {
      AppendEmpty(y);
    } else {
      TailOfAppend(run, y);
      RunDropped(run[1..], y);
    }
  }

  /** A whole run of breaks in front of `y` becomes one blank line. */
  lemma RunCollapses(run: string, y: string)
    requires run != [] && forall k :: 0 <= k < |run| ==> IsLineBreak(run[k])
    requires y == [] || !IsLineBreak(y[0])
    ensures Collapse(run + y) == "\n\n" + Collapse(y)
  {
    TailOfAppend(run, y);
    RunDropped(run, y);
  }
}
