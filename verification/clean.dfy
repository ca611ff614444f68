/**
 `cleanText`: the fixed sequence of rewrites applied to every text before the
 dictionary lookup. Lower-casing, stripping, then five `re.sub` calls, each
 replacing what it matches with one space.
 */
module Clean {
  import opened Chars
  import opened Rewrite

  /** `'\n'` */
  const Newline: Pattern := [Exactly('\n')]
  /** `'user'` and `'rt'`, the two alternatives of `'user|rt'` */
  const User: Pattern := [Exactly('u'), Exactly('s'), Exactly('e'), Exactly('r')]
  const Rt: Pattern := [Exactly('r'), Exactly('t')]
  /** `'x[a-z0-9]{2}'` */
  const XCode: Pattern := [Exactly('x'), LowerOrDigit, LowerOrDigit]

  /** The literal `w` occurs in `s` starting at index `i`. */
  predicate OccursAt(s: string, w: string, i: int) {
    0 <= i && i + |w| <= |s| && s[i..i + |w|] == w
  }

  lemma PatternsSpaceFree()
    ensures SpaceFree(Newline) && SpaceFree(User) && SpaceFree(Rt) && SpaceFree(XCode)
  {
  }

  /** No ASCII upper-case letter occurs in `s`. */
  predicate NoUpper(s: string) {
    forall i :: 0 <= i < |s| ==> !IsUpper(s[i])
  }

  /** Every character of `s` is a digit, a lower-case ASCII letter or a space. */
  predicate AllClean(s: string) {
    forall i :: 0 <= i < |s| ==> IsCleanChar(s[i])
  }

  /** A rewrite that only keeps characters or inserts spaces keeps text clean. */
  lemma KeepsClean(s: string, r: string)
    requires forall c :: c in r ==> c == ' ' || c in s
    ensures AllClean(s) ==> AllClean(r)
  {
    if AllClean(s) {
      forall i | 0 <= i < |r|
        ensures IsCleanChar(r[i])
      {
        assert r[i] in r;
        if r[i] != ' ' {
          var j :| 0 <= j < |s| && s[j] == r[i];
        }
      }
    }
  }

  /** `text.lower()`, restricted to ASCII letters. */
  function Lower(s: string): (r: string)
    ensures |r| == |s|
    ensures NoUpper(r)
    ensures forall i :: 0 <= i < |s| && !IsUpper(s[i]) ==> r[i] == s[i]
    ensures forall i :: 0 <= i < |s| && IsUpper(s[i]) ==>
              IsLower(r[i]) && r[i] as int - 'a' as int == s[i] as int - 'A' as int
    ensures NoUpper(s) ==> r == s
  {
    seq(|s|, i requires 0 <= i < |s| => ToLower(s[i]))
  }

  /** Every character of `s[lo..hi]` is whitespace. */
  predicate WhitespaceBetween(s: string, lo: int, hi: int) {
    forall i :: lo <= i < hi && 0 <= i < |s| ==> IsWhitespace(s[i])
  }

  /** The index of the first non-whitespace character of `s` at or after `i`. */
  function SkipLeading(s: string, i: nat): (j: nat)
    requires i <= |s|
    ensures i <= j <= |s|
    ensures WhitespaceBetween(s, i, j)
    ensures j < |s| ==> !IsWhitespace(s[j])
    decreases |s| - i
  {
    if i < |s| && IsWhitespace(s[i]) then SkipLeading(s, i + 1) else i
  }

  /** The index just past the last non-whitespace character of `s[lo..hi]`. */
  function SkipTrailing(s: string, lo: nat, hi: nat): (j: nat)
    requires lo <= hi <= |s|
    ensures lo <= j <= hi
    ensures WhitespaceBetween(s, j, hi)
    ensures lo < j ==> !IsWhitespace(s[j - 1])
    decreases hi
  {
    if lo < hi && IsWhitespace(s[hi - 1]) then SkipTrailing(s, lo, hi - 1) else hi
  }

  /** `text.strip()`: the slice of `s` left when whitespace is removed from both ends. */
  function Strip(s: string): (r: string)
    ensures |r| > 0 ==> !IsWhitespace(r[0]) && !IsWhitespace(r[|r| - 1])
    ensures exists lo :: 0 <= lo <= |s| - |r| && r == s[lo..lo + |r|]
              && WhitespaceBetween(s, 0, lo) && WhitespaceBetween(s, lo + |r|, |s|)
    ensures |s| > 0 && !IsWhitespace(s[0]) && !IsWhitespace(s[|s| - 1]) ==> r == s
    ensures NoUpper(s) ==> NoUpper(r)
  {
    var lo := SkipLeading(s, 0);
    var hi := SkipTrailing(s, lo, |s|);
    assert s[lo..hi] == s[lo..lo + (hi - lo)];
    s[lo..hi]
  }

  /** Line 81, `re.sub('\n', ' ', text)`: every line break becomes a space. */
  function JoinLines(s: string): (r: string)
    ensures |r| == |s|
    ensures forall i :: 0 <= i < |r| ==> r[i] != '\n'
    ensures forall i :: 0 <= i < |s| && s[i] != '\n' ==> r[i] == s[i]
    ensures forall i :: 0 <= i < |s| && s[i] == '\n' ==> r[i] == ' '
    ensures (forall i :: 0 <= i < |s| ==> s[i] != '\n') ==> r == s
    ensures NoUpper(s) ==> NoUpper(r)
  {
    JoinLinesSpec(s);
    ReplaceEach(s, [Newline])
  }

  lemma {:induction false} JoinLinesSpec(s: string)
    ensures var r := ReplaceEach(s, [Newline]);
      && |r| == |s|
      && (forall i :: 0 <= i < |r| ==> r[i] != '\n')
      && (forall i :: 0 <= i < |s| && s[i] != '\n' ==> r[i] == s[i])
      && (forall i :: 0 <= i < |s| && s[i] == '\n' ==> r[i] == ' ')
    decreases |s|
  {
    if |s| > 0 {
      JoinLinesSpec(s[1..]);
      var r := ReplaceEach(s, [Newline]);
      var t := ReplaceEach(s[1..], [Newline]);
      assert MatchesAt(s, Newline) <==> s[0] == '\n';
      assert r == [if s[0] == '\n' then ' ' else s[0]] + t;
    }
  }

  lemma KeepAlnumIsClean(s: string)
    ensures NoUpper(s) ==> AllClean(ReplaceRuns(s, NotAlnum))
  {
    var r := ReplaceRuns(s, NotAlnum);
    ReplaceRunsChars(s, NotAlnum);
    if NoUpper(s) {
      forall i | 0 <= i < |r|
        ensures IsCleanChar(r[i])
      {
        assert r[i] in r;
        if r[i] != ' ' {
          var j :| 0 <= j < |s| && s[j] == r[i];
        }
      }
    }
  }

  /** Line 82, `re.sub('[^0-9a-zA-Z]+', ' ', text)`: each run of characters other
      than ASCII letters and digits becomes one space. The letters and digits
      are kept, in order. */
  function KeepAlnum(s: string): (r: string)
    ensures |r| <= |s|
    ensures NoUpper(s) ==> AllClean(r)
    ensures NoDoubleSpace(r)
    ensures Outside(r, NotAlnum) == Outside(s, NotAlnum)
    ensures LoneSpaces(s, NotAlnum) ==> r == s
    ensures exists ps :: Source(ps) == s && RunScan(ps, NotAlnum) && Render(ps) == r
    ensures forall ps :: Source(ps) == s && RunScan(ps, NotAlnum) ==> Render(ps) == r
  {
    ReplaceRunsByPieces(s, NotAlnum);
    KeepAlnumIsClean(s);
    ReplaceRunsIdentity(s, NotAlnum);
    ReplaceRunsNoDoubleSpace(s, NotAlnum);
    ReplaceRunsKeepsContent(s, NotAlnum);
    ReplaceRuns(s, NotAlnum)
  }

  /** Line 83, `re.sub('user|rt', ' ', text)`: matched as substrings, not as words. */
  function DropUserRt(s: string): (r: string)
    ensures |r| <= |s|
    ensures AllClean(s) ==> AllClean(r)
    ensures FreeOf(r, User) && FreeOf(r, Rt)
    ensures FreeOf(s, User) && FreeOf(s, Rt) ==> r == s
    ensures exists ps :: Source(ps) == s && EachScan(ps, [User, Rt]) && Render(ps) == r
    ensures forall ps :: Source(ps) == s && EachScan(ps, [User, Rt]) ==> Render(ps) == r
  {
    ReplaceEachByPieces(s, [User, Rt]);
    PatternsSpaceFree();
    ReplaceEachChars(s, [User, Rt]);
    KeepsClean(s, ReplaceEach(s, [User, Rt]));
    ReplaceEachRemovesAll(s, [User, Rt]);
    assert [User, Rt][0] == User && [User, Rt][1] == Rt;
    ReplaceEachIdentity(s, [User, Rt]);
    ReplaceEach(s, [User, Rt])
  }

  /** Line 84, `re.sub('x[a-z0-9]{2}', ' ', text)`. It cannot rebuild `user` or `rt`. */
  function DropXCodes(s: string): (r: string)
    ensures |r| <= |s|
    ensures AllClean(s) ==> AllClean(r)
    ensures FreeOf(r, XCode)
    ensures FreeOf(s, User) ==> FreeOf(r, User)
    ensures FreeOf(s, Rt) ==> FreeOf(r, Rt)
    ensures FreeOf(s, XCode) ==> r == s
    ensures exists ps :: Source(ps) == s && EachScan(ps, [XCode]) && Render(ps) == r
    ensures forall ps :: Source(ps) == s && EachScan(ps, [XCode]) ==> Render(ps) == r
  {
    ReplaceEachByPieces(s, [XCode]);
    PatternsSpaceFree();
    ReplaceEachChars(s, [XCode]);
    KeepsClean(s, ReplaceEach(s, [XCode]));
    ReplaceEachRemovesAll(s, [XCode]);
    assert [XCode][0] == XCode;
    ReplaceEachKeepsFree(s, [XCode], User);
    ReplaceEachKeepsFree(s, [XCode], Rt);
    ReplaceEachIdentity(s, [XCode]);
    ReplaceEach(s, [XCode])
  }

  /** Line 85, `re.sub(' +', ' ', text)`: runs of spaces shrink to one space.
      The other characters are kept in order, so no pattern is rebuilt. */
  function SqueezeSpaces(s: string): (r: string)
    ensures |r| <= |s|
    ensures AllClean(s) ==> AllClean(r)
    ensures NoDoubleSpace(r)
    ensures Outside(r, Exactly(' ')) == Outside(s, Exactly(' '))
    ensures FreeOf(s, User) ==> FreeOf(r, User)
    ensures FreeOf(s, Rt) ==> FreeOf(r, Rt)
    ensures FreeOf(s, XCode) ==> FreeOf(r, XCode)
    ensures NoDoubleSpace(s) ==> r == s
    ensures exists ps :: Source(ps) == s && RunScan(ps, Exactly(' ')) && Render(ps) == r
    ensures forall ps :: Source(ps) == s && RunScan(ps, Exactly(' ')) ==> Render(ps) == r
  {
    ReplaceRunsByPieces(s, Exactly(' '));
    PatternsSpaceFree();
    ReplaceRunsChars(s, Exactly(' '));
    KeepsClean(s, ReplaceRuns(s, Exactly(' ')));
    ReplaceRunsIdentity(s, Exactly(' '));
    ReplaceRunsNoDoubleSpace(s, Exactly(' '));
    ReplaceRunsKeepsContent(s, Exactly(' '));
    ReplaceRunsKeepsFree(s, Exactly(' '), User);
    ReplaceRunsKeepsFree(s, Exactly(' '), Rt);
    ReplaceRunsKeepsFree(s, Exactly(' '), XCode);
    ReplaceRuns(s, Exactly(' '))
  }

  /** `cleanText(text)`: the seven rewrites of lines 79-85, in order. The result
      holds only digits, lower-case ASCII letters and single spaces, and none
      of the removed patterns. */
  function CleanText(text: string): (r: string)
    ensures AllClean(r)
    ensures NoDoubleSpace(r)
    ensures FreeOf(r, User) && FreeOf(r, Rt) && FreeOf(r, XCode)
  {
    SqueezeSpaces(DropXCodes(DropUserRt(KeepAlnum(JoinLines(Strip(Lower(text)))))))
  }

  // ---------------------------------------------------------------------------
  // Properties of the composition

  lemma MatchesUser(s: string)
    ensures MatchesAt(s, User) <==> 4 <= |s| && s[..4] == "user"
  {
    if 4 <= |s| && s[..4] == "user" {
      assert s[0] == 'u' && s[1] == 's' && s[2] == 'e' && s[3] == 'r';
    }
  }

  lemma MatchesRt(s: string)
    ensures MatchesAt(s, Rt) <==> 2 <= |s| && s[..2] == "rt"
  {
    if 2 <= |s| && s[..2] == "rt" {
      assert s[0] == 'r' && s[1] == 't';
    }
  }

  lemma NoUserOccurs(r: string)
    requires FreeOf(r, User)
    ensures forall i :: !OccursAt(r, "user", i)
  {
    FreeOfEverywhere(r, User);
    forall i | 0 <= i <= |r|
      ensures !OccursAt(r, "user", i)
    {
      assert !MatchesAt(r[i..], User);
      MatchesUser(r[i..]);
      if i + 4 <= |r| {
        assert r[i..][..4] == r[i..i + 4];
      }
    }
  }

  lemma NoRtOccurs(r: string)
    requires FreeOf(r, Rt)
    ensures forall i :: !OccursAt(r, "rt", i)
  {
    FreeOfEverywhere(r, Rt);
    forall i | 0 <= i <= |r|
      ensures !OccursAt(r, "rt", i)
    {
      assert !MatchesAt(r[i..], Rt);
      MatchesRt(r[i..]);
      if i + 2 <= |r| {
        assert r[i..][..2] == r[i..i + 2];
      }
    }
  }

  lemma NoXCodeOccurs(r: string)
    requires FreeOf(r, XCode)
    ensures forall i :: 0 <= i && i + 3 <= |r| ==>
      !(r[i] == 'x' && IsLowerOrDigit(r[i + 1]) && IsLowerOrDigit(r[i + 2]))
  {
    FreeOfEverywhere(r, XCode);
    forall i | 0 <= i && i + 3 <= |r|
      ensures !(r[i] == 'x' && IsLowerOrDigit(r[i + 1]) && IsLowerOrDigit(r[i + 2]))
    {
      assert !MatchesAt(r[i..], XCode);
      assert r[i..][0] == r[i] && r[i..][1] == r[i + 1] && r[i..][2] == r[i + 2];
    }
  }

  /** None of `user`, `rt` and `x[a-z0-9]{2}` occurs anywhere in the output. */
  lemma CleanTextRemovesPatterns(text: string)
    ensures forall i :: !OccursAt(CleanText(text), "user", i)
    ensures forall i :: !OccursAt(CleanText(text), "rt", i)
    ensures var r := CleanText(text);
      forall i :: 0 <= i && i + 3 <= |r| ==>
        !(r[i] == 'x' && IsLowerOrDigit(r[i + 1]) && IsLowerOrDigit(r[i + 2]))
  {
    var r := CleanText(text);
    NoUserOccurs(r);
    NoRtOccurs(r);
    NoXCodeOccurs(r);
  }

  lemma CleanCharIsNotWhitespace(c: char)
    requires IsCleanChar(c) && c != ' '
    ensures !IsWhitespace(c)
  {
  }

  /** Lines 79-82 leave clean, trimmed text unchanged. */
  lemma FirstStagesFixCleanText(t: string)
    requires AllClean(t)
    requires NoDoubleSpace(t)
    requires |t| > 0 ==> t[0] != ' ' && t[|t| - 1] != ' '
    ensures KeepAlnum(JoinLines(Strip(Lower(t)))) == t
  {
    assert Lower(t) == t;
    if |t| > 0 {
      CleanCharIsNotWhitespace(t[0]);
      CleanCharIsNotWhitespace(t[|t| - 1]);
    }
    assert Strip(t) == t;
    assert JoinLines(t) == t;
    assert LoneSpaces(t, NotAlnum);
  }

  /** Text that is already clean (only digits, lower-case letters and single
      spaces, no space at either end, none of the removed patterns) is left
      unchanged. */
  lemma CleanTextFixesCleanText(t: string)
    requires AllClean(t)
    requires NoDoubleSpace(t)
    requires |t| > 0 ==> t[0] != ' ' && t[|t| - 1] != ' '
    requires FreeOf(t, User) && FreeOf(t, Rt) && FreeOf(t, XCode)
    ensures CleanText(t) == t
  {
    FirstStagesFixCleanText(t);
    var a := KeepAlnum(JoinLines(Strip(Lower(t))));
    assert DropUserRt(a) == t;
    assert DropXCodes(t) == t;
    assert SqueezeSpaces(t) == t;
  }

  /** Stripping shortens a text that starts or ends with whitespace. */
  lemma StripShortens(s: string)
    requires |s| > 0 && (IsWhitespace(s[0]) || IsWhitespace(s[|s| - 1]))
    ensures |Strip(s)| < |s|
  {
    var lo := SkipLeading(s, 0);
    var hi := SkipTrailing(s, lo, |s|);
    assert Strip(s) == s[lo..hi];
  }

  /** Cleaning shortens a text that starts or ends with a space. */
  lemma CleanTextShortensUntrimmed(t: string)
    requires |t| > 0 && (t[0] == ' ' || t[|t| - 1] == ' ')
    ensures |CleanText(t)| < |t|
  {
    var l := Lower(t);
    assert !IsUpper(' ') && IsWhitespace(' ');
    assert t[0] == ' ' ==> l[0] == ' ';
    assert t[|t| - 1] == ' ' ==> l[|l| - 1] == ' ';
    StripShortens(l);
  }

  /** Cleaning twice gives the same text as cleaning once, exactly when the
      first result neither starts nor ends with a space. */
  lemma CleanTextIdempotentWhenTrimmed(text: string)
    ensures var r := CleanText(text);
      (|r| > 0 ==> r[0] != ' ' && r[|r| - 1] != ' ') <==> CleanText(r) == r
  {
    var r := CleanText(text);
    if |r| > 0 ==> r[0] != ' ' && r[|r| - 1] != ' ' {
      CleanTextFixesCleanText(r);
    } else {
      CleanTextShortensUntrimmed(r);
    }
  }
}
