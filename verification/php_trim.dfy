/**
 * Last stage of clean_markdown: PHP `trim` with its default character list
 * `" \t\n\r\0\x0B"`, stripped from both ends.
 */
module PhpTrim {

  /** The default character list of PHP `trim`. */
  predicate IsTrimChar(c: char)
  {
    c == ' ' || c == '\t' || c == '\n' || c == '\r' || c == '\0' || c == '\U{0B}'
  }

  /** Every character of `s` between `lo` and `hi` is in the trim list. */
  predicate TrimCharsBetween(s: string, lo: nat, hi: nat)
    requires lo <= hi <= |s|
  {
    forall k :: lo <= k < hi ==> IsTrimChar(s[k])
  }

  /** `ltrim`: the suffix left after dropping the leading trim characters. */
  function TrimStart(s: string): (r: string)
    ensures |r| <= |s| && r == s[|s| - |r|..]
    ensures TrimCharsBetween(s, 0, |s| - |r|)
    ensures r == [] || !IsTrimChar(r[0])
    decreases |s|
  {
    if s != [] && IsTrimChar(s[0]) then TrimStart(s[1..]) else s
  }

  /** `rtrim`: the prefix left after dropping the trailing trim characters. */
  function TrimEnd(s: string): (r: string)
    ensures |r| <= |s| && r == s[..|r|]
    ensures TrimCharsBetween(s, |r|, |s|)
    ensures r == [] || !IsTrimChar(r[|r| - 1])
    decreases |s|
  {
    if s != [] && IsTrimChar(s[|s| - 1]) then TrimEnd(s[..|s| - 1]) else s
  }

  /** `trim`: both ends. */
  function Trim(s: string): (r: string)
    ensures r == [] || (!IsTrimChar(r[0]) && !IsTrimChar(r[|r| - 1]))
  {
    var t := TrimStart(s);
    var r := TrimEnd(t);
    assert r != [] ==> r[0] == t[0];
    r
  }

  /** Trim characters of a suffix are trim characters of the whole, shifted by where the suffix starts. */
  lemma TrimCharsShift(s: string, lo: nat, a: nat, b: nat)
    requires lo <= |s| && a <= b <= |s| - lo
    requires TrimCharsBetween(s[lo..], a, b)
    ensures TrimCharsBetween(s, lo + a, lo + b)
  {
    forall k | lo + a <= k < lo + b ensures IsTrimChar(s[k]) {
      assert s[k] == s[lo..][k - lo];
    }
  }

  /** A prefix of a suffix is a slice of the whole. */
  lemma PrefixOfSuffix(s: string, lo: nat, t: string, r: string)
    requires lo <= |s| && t == s[lo..] && |r| <= |t| && r == t[..|r|]
    ensures r == s[lo..lo + |r|]
  {
  }

  /** The converse shift: trim characters of the whole are trim characters of a suffix. */
  lemma TrimCharsOfSuffix(s: string, lo: nat, a: nat, b: nat)
    requires lo <= |s| && a <= b <= |s| - lo
    requires TrimCharsBetween(s, lo + a, lo + b)
    ensures TrimCharsBetween(s[lo..], a, b)
  {
    forall k | a <= k < b ensures IsTrimChar(s[lo..][k]) {
      assert s[lo..][k] == s[lo + k];
    }
  }

  /**
   * The result is the middle of `s` left after removing a prefix and a
   * suffix made only of trim characters.
   */
  lemma TrimKeepsMiddle(s: string)
    ensures exists lo :: (0 <= lo <= |s| - |Trim(s)| && Trim(s) == s[lo..lo + |Trim(s)|]
      && TrimCharsBetween(s, 0, lo) && TrimCharsBetween(s, lo + |Trim(s)|, |s|))
  {
    var t := TrimStart(s);
    var r := TrimEnd(t);
    var lo := |s| - |t|;
    PrefixOfSuffix(s, lo, t, r);
    TrimCharsShift(s, lo, |r|, |t|);
    assert Trim(s) == r;
  }

  /** The result is empty exactly when `s` holds only trim characters. */
  lemma TrimEmptyIff(s: string)
    ensures Trim(s) == [] <==> TrimCharsBetween(s, 0, |s|)
  {
    var t := TrimStart(s);
    var r := TrimEnd(t);
    var lo := |s| - |t|;
    assert Trim(s) == r;
    if r == [] {
      TrimCharsShift(s, lo, 0, |t|);
    }
    if TrimCharsBetween(s, 0, |s|) {
      TrimStartAt(s, |s|);
    }
  }

  /** `ltrim` stops at the first character that is not a trim character. */
  lemma {:induction false} TrimStartAt(s: string, lo: nat)
    requires lo <= |s| && TrimCharsBetween(s, 0, lo)
    requires lo < |s| ==> !IsTrimChar(s[lo])
    ensures TrimStart(s) == s[lo..]
    decreases lo
  {
    if lo > 0 {
      var u := s[1..];
      assert forall k :: 0 <= k < lo - 1 ==> u[k] == s[k + 1];
      assert lo < |s| ==> u[lo - 1] == s[lo];
      TrimStartAt(u, lo - 1);
      assert u[lo - 1..] == s[lo..];
    }
  }

  /** `rtrim` stops at the last character that is not a trim character. */
  lemma {:induction false} TrimEndAt(s: string, hi: nat)
    requires hi <= |s| && TrimCharsBetween(s, hi, |s|)
    requires hi > 0 ==> !IsTrimChar(s[hi - 1])
    ensures TrimEnd(s) == s[..hi]
    decreases |s| - hi
  {
    if hi < |s| {
      var p := s[..|s| - 1];
      assert forall k :: hi <= k < |p| ==> p[k] == s[k];
      assert hi > 0 ==> p[hi - 1] == s[hi - 1];
      TrimEndAt(p, hi);
      assert p[..hi] == s[..hi];
    }
  }

  /** Uniqueness: cutting any trim-only prefix and suffix that leave non-trim ends gives `Trim`. */
  lemma TrimIsMaximal(s: string, lo: nat, hi: nat)
    requires lo <= hi <= |s|
    requires TrimCharsBetween(s, 0, lo) && TrimCharsBetween(s, hi, |s|)
    requires lo < hi ==> !IsTrimChar(s[lo]) && !IsTrimChar(s[hi - 1])
    ensures Trim(s) == s[lo..hi]
  {
    if lo < hi {
      TrimMiddleAt(s, lo, hi);
    } else {
      assert TrimCharsBetween(s, 0, |s|);
      TrimEmptyIff(s);
    }
  }

  /** The non-empty case of `TrimIsMaximal`. */
  lemma TrimMiddleAt(s: string, lo: nat, hi: nat)
    requires lo < hi <= |s|
    requires TrimCharsBetween(s, 0, lo) && TrimCharsBetween(s, hi, |s|)
    requires !IsTrimChar(s[lo]) && !IsTrimChar(s[hi - 1])
    ensures TrimEnd(TrimStart(s)) == s[lo..hi]
  {
    TrimStartAt(s, lo);
    TrimEndOfSuffix(s, lo, hi);
  }

  /** `rtrim` of a suffix stops at the same place as in the whole. */
  lemma TrimEndOfSuffix(s: string, lo: nat, hi: nat)
    requires lo < hi <= |s|
    requires TrimCharsBetween(s, hi, |s|) && !IsTrimChar(s[hi - 1])
    ensures TrimEnd(s[lo..]) == s[lo..hi]
  {
    var t := s[lo..];
    TrimCharsOfSuffix(s, lo, hi - lo, |t|);
    assert t[hi - lo - 1] == s[hi - 1];
    TrimEndAt(t, hi - lo);
    assert t[..hi - lo] == s[lo..hi];
  }

  /** Trimming twice is trimming once. */
  lemma TrimIdempotent(s: string)
    ensures Trim(Trim(s)) == Trim(s)
  {
    var r := Trim(s);
    TrimIsMaximal(r, 0, |r|);
  }
}
