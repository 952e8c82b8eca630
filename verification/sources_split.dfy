/**
 * First stage of clean_markdown: `explode("\n\nSources\n\n", $markdown)[0]`,
 * i.e. the text before the first occurrence of the Sources delimiter.
 */
module SourcesSplit {
  import opened Wrappers

  /** The literal delimiter passed to `explode`. */
  const Delimiter: string := "\n\nSources\n\n"

  /** `d` occurs in `s` starting at index `i`. */
  predicate OccursAt(s: string, d: string, i: nat)
  {
    i + |d| <= |s| && s[i..i + |d|] == d
  }

  /** The first index at or after `from` where `d` occurs in `s`. */
  function FindFrom(s: string, d: string, from: nat): (r: Option<nat>)
    requires from <= |s|
    ensures r.Some? ==> from <= r.value <= |s| && OccursAt(s, d, r.value)
    ensures r.Some? ==> forall i :: from <= i < r.value ==> !OccursAt(s, d, i)
    ensures r.None? ==> forall i :: from <= i <= |s| ==> !OccursAt(s, d, i)
    decreases |s| - from
  {
    if OccursAt(s, d, from) then Some(from)
    else if from == |s| then None
    else FindFrom(s, d, from + 1)
  }

  /**
   * `explode($delimiter, $s)[0]`: the prefix of `s` before the first
   * occurrence of the delimiter, or all of `s` when there is none.
   */
  function BeforeSources(s: string): (r: string)
    ensures |r| <= |s| && r == s[..|r|]
    ensures |r| < |s| ==> OccursAt(s, Delimiter, |r|)
    ensures forall i :: 0 <= i < |r| ==> !OccursAt(s, Delimiter, i)
  {
    match FindFrom(s, Delimiter, 0)
    case Some(k) => s[..k]
    case None => s
  }

  /** The whole input is kept exactly when it has no delimiter in it. */
  lemma KeptWholeIffNoDelimiter(s: string)
    ensures BeforeSources(s) == s <==> forall i :: 0 <= i <= |s| ==> !OccursAt(s, Delimiter, i)
  {
    var r := BeforeSources(s);
    if r == s {
      forall i | 0 <= i <= |s| ensures !OccursAt(s, Delimiter, i) {
        if i == |s| {
          assert |Delimiter| > 0;
        }
      }
    }
  }

  /** The kept text never contains the delimiter itself: everything from it on is dropped. */
  lemma {:induction false} KeptHasNoDelimiter(s: string)
    ensures forall i :: 0 <= i <= |BeforeSources(s)| ==> !OccursAt(BeforeSources(s), Delimiter, i)
  {
    var r := BeforeSources(s);
    forall i | 0 <= i <= |r| ensures !OccursAt(r, Delimiter, i) {
      if OccursAt(r, Delimiter, i) {
        assert r[i..i + |Delimiter|] == s[i..i + |Delimiter|];
        assert OccursAt(s, Delimiter, i);
        assert false;
      }
    }
  }

  /** Splitting after a prefix that is already free of the delimiter keeps exactly that prefix. */
  lemma {:induction false} SplitAtFirstDelimiter(a: string, b: string)
    requires forall i :: 0 <= i < |a| ==> !OccursAt(a + Delimiter + b, Delimiter, i)
    ensures BeforeSources(a + Delimiter + b) == a
  {
    var s := a + Delimiter + b;
    var r := BeforeSources(s);
    assert OccursAt(s, Delimiter, |a|) by {
      assert s[|a|..|a| + |Delimiter|] == Delimiter;
    }
    if |r| < |a| {
      assert false;
    } else if |r| > |a| {
      assert false;
    }
    assert r == s[..|a|] == a;
  }

  /** A prefix that holds no delimiter start is itself free of the delimiter, so it is kept whole. */
  lemma SplitPrefixKeptWhole(a: string, b: string)
    requires forall i :: 0 <= i < |a| ==> !OccursAt(a + Delimiter + b, Delimiter, i)
    ensures BeforeSources(a) == a
  {
    var s := a + Delimiter + b;
    forall i | 0 <= i <= |a| ensures !OccursAt(a, Delimiter, i) {
      if OccursAt(a, Delimiter, i) {
        assert i < |a| by {
          assert |Delimiter| > 0;
        }
        assert s[i..i + |Delimiter|] == a[i..i + |Delimiter|];
        assert OccursAt(s, Delimiter, i);
      }
    }
    KeptWholeIffNoDelimiter(a);
  }
}
