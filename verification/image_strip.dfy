/**
 * The two `preg_replace` calls of clean_markdown that delete image markup:
 *   reference form  `!\[([^\]]*)\]\[([^\]]*)\]`   e.g. `![alt][ref]`
 *   inline form     `!\[([^\]]*)\]\(([^)]*)\)`    e.g. `![alt](url)`
 * Each is modelled as a left-to-right scanner that deletes leftmost,
 * non-overlapping, complete matches and copies every other character.
 * The negated classes match any character (newlines included) except the
 * one that closes them, so a match starting at a given index is unique.
 */
module ImageStrip {
  import opened Wrappers
  import opened SeqFacts

  datatype ImageForm = Reference | Inline

  /** The bracket that opens the second group: `[` or `(`. */
  function LabelOpen(form: ImageForm): char
  {
    match form
    case Reference => '['
    case Inline => '('
  }

  /** The bracket that closes the second group: `]` or `)`. */
  function LabelClose(form: ImageForm): char
  {
    match form
    case Reference => ']'
    case Inline => ')'
  }

  /**
   * Declarative reading of the pattern: `t` as a whole is one image token,
   * `![` alt `]` open label close, where alt holds no `]` and label holds
   * no closing bracket.
   */
  ghost predicate IsToken(t: string, form: ImageForm)
  {
    && |t| >= 5
    && t[0] == '!' && t[1] == '['
    && t[|t| - 1] == LabelClose(form)
    && exists j :: 2 <= j < |t| - 2 && t[j] == ']' && t[j + 1] == LabelOpen(form)
         && ']' !in t[2..j] && LabelClose(form) !in t[j + 2..|t| - 1]
  }

  /** No prefix of `s` is a token: the pattern does not match at the start of `s`. */
  ghost predicate NoTokenAtStart(s: string, form: ImageForm)
  {
    forall n :: 0 <= n <= |s| ==> !IsToken(s[..n], form)
  }

  /** The first index at or after `from` holding `c`. */
  function IndexOf(s: string, c: char, from: nat): (r: Option<nat>)
    requires from <= |s|
    ensures r.Some? ==> from <= r.value < |s| && s[r.value] == c
    decreases |s| - from
  {
    if from == |s| then None
    else if s[from] == c then Some(from)
    else IndexOf(s, c, from + 1)
  }

  /** `IndexOf` skips no occurrence: none lies between `from` and the index found (or the end). */
  lemma {:induction false} IndexOfIsFirst(s: string, c: char, from: nat)
    requires from <= |s|
    ensures IndexOf(s, c, from).Some? ==> forall k :: from <= k < IndexOf(s, c, from).value ==> s[k] != c
    ensures IndexOf(s, c, from).None? ==> forall k :: from <= k < |s| ==> s[k] != c
    decreases |s| - from
  {
    if from < |s| && s[from] != c {
      IndexOfIsFirst(s, c, from + 1);
    }
  }

  /** `IndexOf` finds the first occurrence, whichever it is. */
  lemma IndexOfFirst(s: string, c: char, from: nat, k: nat)
    requires from <= k < |s| && s[k] == c
    requires forall x :: from <= x < k ==> s[x] != c
    ensures IndexOf(s, c, from) == Some(k)
  {
    IndexOfIsFirst(s, c, from);
  }

  /** The length of the match anchored at the start of `s`, if the pattern matches there. */
  function MatchLength(s: string, form: ImageForm): (r: Option<nat>)
    ensures r.Some? ==> 5 <= r.value <= |s|
  {
    if |s| < 2 || s[0] != '!' || s[1] != '[' then None
    else
      match IndexOf(s, ']', 2)
      case None => None
      case Some(j) =>
        if j + 1 == |s| || s[j + 1] != LabelOpen(form) then None
        else
          match IndexOf(s, LabelClose(form), j + 2)
          case None => None
          case Some(k) => Some(k + 1)
  }

  /** What the scanner finds at the start of `s` is a complete token. */
  lemma MatchLengthSound(s: string, form: ImageForm)
    ensures MatchLength(s, form).Some? ==> IsToken(s[..MatchLength(s, form).value], form)
  {
    if MatchLength(s, form).Some? {
      var j := IndexOf(s, ']', 2).value;
      var k := IndexOf(s, LabelClose(form), j + 2).value;
      IndexOfIsFirst(s, ']', 2);
      IndexOfIsFirst(s, LabelClose(form), j + 2);
      var t := s[..k + 1];
      assert ']' !in t[2..j] by {
        assert forall x :: 2 <= x < j ==> t[x] == s[x];
      }
      assert LabelClose(form) !in t[j + 2..|t| - 1] by {
        assert forall x :: j + 2 <= x < k ==> t[x] == s[x];
      }
      assert t[j] == ']' && t[j + 1] == LabelOpen(form);
    }
  }

  /** The parts of a token: the index of the `]` that closes its alt text. */
  lemma TokenParts(t: string, form: ImageForm) returns (j: nat)
    requires IsToken(t, form)
    ensures 2 <= j < |t| - 2 && t[j] == ']' && t[j + 1] == LabelOpen(form)
    ensures forall k :: 2 <= k < j ==> t[k] != ']'
    ensures forall k :: j + 2 <= k < |t| - 1 ==> t[k] != LabelClose(form)
  {
    j :| 2 <= j < |t| - 2 && t[j] == ']' && t[j + 1] == LabelOpen(form)
         && ']' !in t[2..j] && LabelClose(form) !in t[j + 2..|t| - 1];
    forall k | 2 <= k < j ensures t[k] != ']' {
      assert t[k] == t[2..j][k - 2];
    }
    forall k | j + 2 <= k < |t| - 1 ensures t[k] != LabelClose(form) {
      assert t[k] == t[j + 2..|t| - 1][k - j - 2];
    }
  }

  /** The parts of a token that starts `s`, read off `s` itself. */
  lemma PrefixTokenParts(s: string, form: ImageForm, n: nat) returns (j: nat)
    requires n <= |s| && IsToken(s[..n], form)
    ensures 5 <= n && 2 <= j < n - 2 && s[0] == '!' && s[1] == '[' && s[n - 1] == LabelClose(form)
    ensures s[j] == ']' && s[j + 1] == LabelOpen(form)
    ensures forall k :: 2 <= k < j ==> s[k] != ']'
    ensures forall k :: j + 2 <= k < n - 1 ==> s[k] != LabelClose(form)
  {
    var t := s[..n];
    j := TokenParts(t, form);
    assert forall k :: 0 <= k < n ==> t[k] == s[k];
  }

  /** A token at the start of `s` is the match the scanner finds there: matches are unique. */
  lemma MatchLengthComplete(s: string, form: ImageForm, n: nat)
    requires n <= |s| && IsToken(s[..n], form)
    ensures MatchLength(s, form) == Some(n)
  {
    var j := PrefixTokenParts(s, form, n);
    IndexOfFirst(s, ']', 2, j);
    IndexOfFirst(s, LabelClose(form), j + 2, n - 1);
  }

  /** When the pattern does not match at the start, no prefix of `s` is a token. */
  lemma NoMatchMeansNoToken(s: string, form: ImageForm)
    requires MatchLength(s, form).None?
    ensures NoTokenAtStart(s, form)
  {
    forall n | 0 <= n <= |s| ensures !IsToken(s[..n], form) {
      if IsToken(s[..n], form) {
        MatchLengthComplete(s, form, n);
      }
    }
  }

  /** `preg_replace(pattern, '', s)`: delete leftmost non-overlapping matches. */
  function Strip(s: string, form: ImageForm): (r: string)
    ensures |r| <= |s|
    decreases |s|
  {
    if s == [] then []
    else
      match MatchLength(s, form)
      case Some(n) => Strip(s[n..], form)
      case None => [s[0]] + Strip(s[1..], form)
  }

  /** One step of the scan: a character copied or a token deleted. */
  datatype Piece = Kept(c: char) | Removed(token: string)

  /** The text the pieces were cut from. */
  function Text(ps: seq<Piece>): string
  {
    if ps == [] then []
    else
      match ps[0]
      case Kept(c) => [c] + Text(ps[1..])
      case Removed(t) => t + Text(ps[1..])
  }

  /** The characters that survive: the kept pieces, in order. */
  function KeptText(ps: seq<Piece>): string
  {
    if ps == [] then []
    else
      match ps[0]
      case Kept(c) => [c] + KeptText(ps[1..])
      case Removed(_) => KeptText(ps[1..])
  }

  /**
   * A cut of `Text(ps)` as a leftmost scan makes it: every removed piece is a
   * complete token, and no token starts where a character was kept.
   */
  ghost predicate LeftmostScan(ps: seq<Piece>, form: ImageForm)
  {
    ps == [] ||
    (&& (match ps[0]
         case Removed(t) => IsToken(t, form)
         case Kept(_) => NoTokenAtStart(Text(ps), form))
     && LeftmostScan(ps[1..], form))
  }

  /** The cut the scanner performs on `s`. */
  ghost function Scan(s: string, form: ImageForm): seq<Piece>
    decreases |s|
  {
    if s == [] then []
    else
      match MatchLength(s, form)
      case Some(n) => MatchLengthSound(s, form); [Removed(s[..n])] + Scan(s[n..], form)
      case None => [Kept(s[0])] + Scan(s[1..], form)
  }

  /** The characters one piece stands for. */
  function PieceText(p: Piece): string
  {
    if p.Kept? then [p.c] else p.token
  }

  /** One piece in front of a cut adds its text, its kept text, and its own condition. */
  lemma PrependPiece(p: Piece, ps: seq<Piece>, form: ImageForm)
    ensures Text([p] + ps) == PieceText(p) + Text(ps)
    ensures KeptText([p] + ps) == (if p.Kept? then [p.c] else []) + KeptText(ps)
    ensures LeftmostScan([p] + ps, form) <==>
      (if p.Removed? then IsToken(p.token, form) else NoTokenAtStart(Text([p] + ps), form)) && LeftmostScan(ps, form)
  {
    assert ([p] + ps)[0] == p && ([p] + ps)[1..] == ps;
  }

  /** The three facts `ScanIsLeftmostCut` states about the scan of `s`. */
  ghost predicate ScanFacts(s: string, form: ImageForm)
  {
    && Text(Scan(s, form)) == s
    && LeftmostScan(Scan(s, form), form)
    && KeptText(Scan(s, form)) == Strip(s, form)
  }

  /** A deleted token in front of a correct scan. */
  lemma ScanRemovedStep(s: string, form: ImageForm, n: nat)
    requires s != [] && MatchLength(s, form) == Some(n)
    requires ScanFacts(s[n..], form)
    ensures ScanFacts(s, form)
  {
    var t := s[..n];
    var rest := Scan(s[n..], form);
    MatchLengthSound(s, form);
    assert Scan(s, form) == [Removed(t)] + rest;
    PrependPiece(Removed(t), rest, form);
    TakeDrop(s, n);
    AppendEmpty(KeptText(rest));
  }

  /** A copied character in front of a correct scan. */
  lemma ScanKeptStep(s: string, form: ImageForm)
    requires s != [] && MatchLength(s, form).None?
    requires ScanFacts(s[1..], form)
    ensures ScanFacts(s, form)
  {
    NoMatchMeansNoToken(s, form);
    assert Scan(s, form) == [Kept(s[0])] + Scan(s[1..], form);
    assert Strip(s, form) == [s[0]] + Strip(s[1..], form);
    PrependPiece(Kept(s[0]), Scan(s[1..], form), form);
    HeadTail(s);
  }

  /**
   * Existence: the scanner's own cut of `s` is a leftmost cut whose kept
   * characters are exactly `Strip(s)`.
   */
  lemma {:induction false} ScanIsLeftmostCut(s: string, form: ImageForm)
    ensures Text(Scan(s, form)) == s
    ensures LeftmostScan(Scan(s, form), form)
    ensures KeptText(Scan(s, form)) == Strip(s, form)
    decreases |s|
  {
    if s != [] {
      match MatchLength(s, form)
      case Some(n) =>
        MatchLengthSound(s, form);
        ScanIsLeftmostCut(s[n..], form);
        ScanRemovedStep(s, form, n);
      case None =>
        ScanIsLeftmostCut(s[1..], form);
        ScanKeptStep(s, form);
    }
  }

  /**
   * Uniqueness: whatever leftmost cut of `s` one takes, deleting its removed
   * pieces gives exactly `Strip(s)`. With `Scan`, this says that Strip
   * deletes complete tokens only and keeps everything else in order.
   */
  lemma {:induction false} StripIsLeftmostDeletion(s: string, ps: seq<Piece>, form: ImageForm)
    requires Text(ps) == s && LeftmostScan(ps, form)
    ensures Strip(s, form) == KeptText(ps)
    decreases |ps|
  {
    if ps != [] {
      var rest := Text(ps[1..]);
      match ps[0]
      case Removed(t) =>
        assert s == t + rest;
        assert s[..|t|] == t;
        MatchLengthComplete(s, form, |t|);
        assert s[|t|..] == rest;
        StripIsLeftmostDeletion(rest, ps[1..], form);
      case Kept(c) =>
        assert s == [c] + rest;
        MatchLengthSound(s, form);
        assert MatchLength(s, form).None?;
        assert s[1..] == rest;
        StripIsLeftmostDeletion(rest, ps[1..], form);
    }
  }

  /** No token starts anywhere in `s`. */
  ghost predicate NoTokenInside(s: string, form: ImageForm)
  {
    forall i :: 0 <= i <= |s| ==> NoTokenAtStart(s[i..], form)
  }

  /** Text in which no token occurs anywhere passes through unchanged. */
  lemma {:induction false} StripWithoutTokens(s: string, form: ImageForm)
    requires NoTokenInside(s, form)
    ensures Strip(s, form) == s
    decreases |s|
  {
    if s != [] {
      assert s[0..] == s;
      MatchLengthSound(s, form);
      assert MatchLength(s, form).None?;
      forall i | 0 <= i <= |s[1..]| ensures NoTokenAtStart(s[1..][i..], form) {
        assert s[1..][i..] == s[i + 1..];
      }
      StripWithoutTokens(s[1..], form);
      assert s == [s[0]] + s[1..];
    }
  }

  /** `s` contains the two-character opener `![` somewhere. */
  predicate HasImageOpener(s: string)
  {
    exists i :: 0 <= i < |s| - 1 && s[i] == '!' && s[i + 1] == '['
  }

  /** Text without any `![` is left unchanged by either stage. */
  lemma StripWithoutOpener(s: string, form: ImageForm)
    requires !HasImageOpener(s)
    ensures Strip(s, form) == s
  {
    forall i, n | 0 <= i <= |s| && 0 <= n <= |s[i..]| ensures !IsToken(s[i..][..n], form) {
      assert n >= 2 ==> s[i..][..n][0] == s[i] && s[i..][..n][1] == s[i + 1];
    }
    StripWithoutTokens(s, form);
  }

  /** Unbalanced markup: with no closing bracket of the form, nothing is deleted. */
  lemma StripWithoutCloser(s: string, form: ImageForm)
    requires LabelClose(form) !in s
    ensures Strip(s, form) == s
  {
    forall i, n | 0 <= i <= |s| && 0 <= n <= |s[i..]| ensures !IsToken(s[i..][..n], form) {
      assert n >= 1 ==> s[i..][..n][n - 1] == s[i + n - 1];
    }
    StripWithoutTokens(s, form);
  }

  /** Where the pattern does not match, the scanner copies one character and moves on. */
  lemma StripCopies(s: string, form: ImageForm)
    requires s != [] && MatchLength(s, form).None?
    ensures Strip(s, form) == [s[0]] + Strip(s[1..], form)
  {
  }

  /** A character other than `!` never starts a match, so it is copied. */
  lemma StripCopiesNonBang(s: string, form: ImageForm)
    requires s != [] && s[0] != '!'
    ensures Strip(s, form) == [s[0]] + Strip(s[1..], form)
  {
    StripCopies(s, form);
  }

  /** Text with no `!` at all is copied character for character. */
  lemma {:induction false} StripNoBangPrefix(x: string, y: string, form: ImageForm)
    requires '!' !in x
    ensures Strip(x + y, form) == x + Strip(y, form)
    decreases |x|
  {
    if x == [] {
      AppendEmpty(y);
    } else {
      TailOfAppend(x, y);
      StripCopiesNonBang(x + y, form);
      NotInTail('!', x);
      StripNoBangPrefix(x[1..], y, form);
      HeadTail(x);
      AppendAssoc([x[0]], x[1..], Strip(y, form));
    }
  }

  /** A token at the front is deleted and the scan resumes right after it. */
  lemma StripTokenPrefix(t: string, y: string, form: ImageForm)
    requires IsToken(t, form)
    ensures Strip(t + y, form) == Strip(y, form)
  {
    var s := t + y;
    assert s[..|t|] == t;
    MatchLengthComplete(s, form, |t|);
    assert s[|t|..] == y;
  }

  /** The markup of one image of the given form: `![alt][target]` or `![alt](target)`. */
  function ImageMarkup(alt: string, target: string, form: ImageForm): (t: string)
    ensures |t| == |alt| + |target| + 5
  {
    "![" + alt + "]" + [LabelOpen(form)] + target + [LabelClose(form)]
  }

  /** Image markup whose alt text and target hold no closing bracket is a token. */
  lemma TokenFromParts(alt: string, target: string, form: ImageForm)
    requires ']' !in alt && LabelClose(form) !in target
    ensures IsToken(ImageMarkup(alt, target, form), form)
  {
    var t := ImageMarkup(alt, target, form);
    var j := |alt| + 2;
    assert t[2..j] == alt;
    assert t[j + 2..|t| - 1] == target;
    assert t[j] == ']' && t[j + 1] == LabelOpen(form);
  }

  /** One image on its own is deleted entirely. */
  lemma StripLoneImage(alt: string, target: string, form: ImageForm)
    requires ']' !in alt && LabelClose(form) !in target
    ensures Strip(ImageMarkup(alt, target, form), form) == []
  {
    var t := ImageMarkup(alt, target, form);
    TokenFromParts(alt, target, form);
    StripTokenPrefix(t, [], form);
    assert t + [] == t;
  }

  /**
   * Text `h` whose only `]` is its last character, followed by `rest` that
   * does not start with the opener, matches nowhere inside `h`: any `![` in
   * `h` reaches that final `]` and then misses the opener.
   */
  predicate ClosedHead(h: string, rest: string, form: ImageForm)
  {
    && h != [] && h[|h| - 1] == ']'
    && (forall k :: 0 <= k < |h| - 1 ==> h[k] != ']')
    && (rest == [] || rest[0] != LabelOpen(form))
  }

  /** No match starts at index `p` of such a head. */
  lemma ClosedHeadNoMatch(h: string, rest: string, form: ImageForm, p: nat)
    requires ClosedHead(h, rest, form) && p < |h|
    ensures MatchLength(h[p..] + rest, form).None?
  {
    var u := h[p..] + rest;
    var e := |h| - 1 - p;
    if |u| >= 2 && u[0] == '!' && u[1] == '[' {
      assert u[0] == h[p];
      assert p + 1 < |h| - 1 by {
        assert u[1] == h[p + 1];
      }
      assert u[e] == ']';
      forall x | 2 <= x < e ensures u[x] != ']' {
        assert u[x] == h[p + x];
      }
      IndexOfFirst(u, ']', 2, e);
      assert e + 1 < |u| ==> u[e + 1] == rest[0];
    }
  }

  /** Every suffix of such a head is copied as is, and the scan resumes at `rest`. */
  lemma {:induction false} ClosedHeadFrom(h: string, rest: string, form: ImageForm, p: nat)
    requires ClosedHead(h, rest, form) && p <= |h|
    ensures Strip(h[p..] + rest, form) == h[p..] + Strip(rest, form)
    decreases |h| - p
  {
    if p == |h| {
      assert h[p..] == [];
      AppendEmpty(rest);
      AppendEmpty(Strip(rest, form));
    } else {
      var u := h[p..] + rest;
      ClosedHeadNoMatch(h, rest, form, p);
      StripCopies(u, form);
      assert u[1..] == h[p + 1..] + rest;
      ClosedHeadFrom(h, rest, form, p + 1);
      assert h[p..] == [h[p]] + h[p + 1..];
      AppendAssoc([h[p]], h[p + 1..], Strip(rest, form));
    }
  }

  /** A head `![x]` not followed by the opener is copied as is. */
  lemma BrokenHead(x: string, rest: string, form: ImageForm)
    requires ']' !in x && (rest == [] || rest[0] != LabelOpen(form))
    ensures Strip("![" + x + "]" + rest, form) == "![" + x + "]" + Strip(rest, form)
  {
    var h := "![" + x + "]";
    forall k | 0 <= k < |h| - 1 ensures h[k] != ']' {
      if 2 <= k {
        assert h[k] == x[k - 2];
      }
    }
    ClosedHeadFrom(h, rest, form, 0);
    assert h[0..] == h;
  }

  /** The form whose images the other stage deletes. */
  function OtherForm(form: ImageForm): ImageForm
  {
    match form
    case Reference => Inline
    case Inline => Reference
  }

  /** Image markup followed by `y`, regrouped as its head `![alt]` before the rest. */
  lemma MarkupSplit(alt: string, target: string, form: ImageForm, y: string)
    ensures ImageMarkup(alt, target, form) + y
         == "![" + alt + "]" + (([LabelOpen(form)] + target + [LabelClose(form)]) + y)
  {
  }

  /**
   * An image of the other form is copied whole by this stage, provided its
   * target holds no `!` (a token of this stage's form inside the target
   * would be deleted).
   */
  lemma StripOtherImage(alt: string, target: string, form: ImageForm, rest: string)
    requires ']' !in alt && '!' !in target
    ensures Strip(ImageMarkup(alt, target, OtherForm(form)) + rest, form)
         == ImageMarkup(alt, target, OtherForm(form)) + Strip(rest, form)
  {
    var other := OtherForm(form);
    var tail := [LabelOpen(other)] + target + [LabelClose(other)];
    MarkupSplit(alt, target, other, rest);
    MarkupSplit(alt, target, other, Strip(rest, form));
    assert (tail + rest)[0] != LabelOpen(form);
    BrokenHead(alt, tail + rest, form);
    assert '!' !in tail;
    StripNoBangPrefix(tail, rest, form);
  }

  /** A bracketed label `[y]` with no `]` inside is copied by either stage. */
  lemma LabelKept(y: string, form: ImageForm)
    requires ']' !in y
    ensures Strip("[" + y + "]", form) == "[" + y + "]"
  {
    var t := "[" + y + "]";
    forall k | 0 <= k < |t| - 1 ensures t[k] != ']' {
      if 1 <= k {
        assert t[k] == y[k - 1];
      }
    }
    ClosedHeadFrom(t, [], form, 0);
    assert t[0..] == t;
    AppendEmpty(t);
    AppendEmpty(Strip([], form));
  }

  /** A reference image followed by a bracketed label: the image goes, the label stays. */
  lemma StripTokenBeforeLabel(a: string, b: string, y: string)
    requires ']' !in a && ']' !in b && ']' !in y
    ensures Strip(ImageMarkup(a, b, Reference) + ("[" + y + "]"), Reference) == "[" + y + "]"
  {
    var m := ImageMarkup(a, b, Reference);
    var t := "[" + y + "]";
    TokenFromParts(a, b, Reference);
    StripTokenPrefix(m, t, Reference);
    LabelKept(y, Reference);
  }

  /** `![x]` followed by `[y]` is the reference image `![x][y]`. */
  lemma JoinedMarkup(x: string, y: string)
    ensures "![" + x + "]" + ("[" + y + "]") == ImageMarkup(x, y, Reference)
  {
  }

  /**
   * A deletion can create a new token from its neighbours: `![x]![a][b][y]`
   * leaves `![x][y]`, which a second pass would delete. So the stage is not
   * idempotent and its output need not be free of image markup.
   */
  lemma {:induction false} ReferenceStripJoinsNeighbours(x: string, a: string, b: string, y: string)
    requires ']' !in x && ']' !in a && ']' !in b && ']' !in y
    ensures Strip("![" + x + "]" + (ImageMarkup(a, b, Reference) + ("[" + y + "]")), Reference)
         == ImageMarkup(x, y, Reference)
    ensures Strip(ImageMarkup(x, y, Reference), Reference) == []
  {
    var m := ImageMarkup(a, b, Reference);
    var t := "[" + y + "]";
    assert (m + t)[0] == '!';
    BrokenHead(x, m + t, Reference);
    StripTokenBeforeLabel(a, b, y);
    JoinedMarkup(x, y);
    StripLoneImage(x, y, Reference);
  }
}
