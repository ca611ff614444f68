/**
 The two shapes of `re.sub(pattern, ' ', text)` that the normaliser uses.

 - ReplaceEach: a fixed-width pattern, or an alternation of such patterns,
   as in `'\n'`, `'user|rt'` and `'x[a-z0-9]{2}'`. The text is scanned left to
   right. At each position the alternatives are tried in order, and the first
   one that matches is replaced by a single space; scanning resumes after it.
 - ReplaceRuns: a one-or-more repetition of a character class, as in
   `'[^0-9a-zA-Z]+'` and `' +'`. Every maximal run of the class becomes a
   single space.

 Both functions only ever insert spaces and never join two characters that
 were apart, so a pattern that cannot match a space survives neither of them.
 */
module Rewrite {
  import opened Chars

  /** One position of a pattern. */
  datatype CharClass =
    | Exactly(c: char)    // a literal character
    | LowerOrDigit        // [a-z0-9]
    | NotAlnum            // [^0-9a-zA-Z]

  predicate Accepts(k: CharClass, c: char) {
    match k
    case Exactly(d) => c == d
    case LowerOrDigit => IsLowerOrDigit(c)
    case NotAlnum => !IsAlnum(c)
  }

  /** A fixed-width pattern: one character class per position. */
  type Pattern = seq<CharClass>

  /** The pattern matches the text at its first position. */
  predicate MatchesAt(s: string, p: Pattern) {
    |p| <= |s| && forall j :: 0 <= j < |p| ==> Accepts(p[j], s[j])
  }

  /** No position of the pattern accepts a space. */
  predicate SpaceFree(p: Pattern) {
    forall j :: 0 <= j < |p| ==> !Accepts(p[j], ' ')
  }

  /** The patterns of a `re.sub` call: none of them matches the empty string. */
  predicate NonEmpty(alts: seq<Pattern>) {
    forall i :: 0 <= i < |alts| ==> |alts[i]| > 0
  }

  /** The pattern matches nowhere in the text. */
  predicate FreeOf(s: string, p: Pattern)
    decreases |s|
  {
    !MatchesAt(s, p) && (|s| == 0 || FreeOf(s[1..], p))
  }

  /** The index of the first alternative that matches at the start of `s`,
      or `|alts|` when none does. */
  function FirstMatching(s: string, alts: seq<Pattern>): (i: nat)
    ensures i <= |alts|
    ensures i < |alts| ==> MatchesAt(s, alts[i])
    ensures forall j :: 0 <= j < i ==> !MatchesAt(s, alts[j])
  {
    if |alts| == 0 then 0
    else if MatchesAt(s, alts[0]) then 0
    else 1 + FirstMatching(s, alts[1..])
  }

  /** `re.sub(alts[0] | alts[1] | ..., ' ', s)` for fixed-width alternatives. */
  function ReplaceEach(s: string, alts: seq<Pattern>): (r: string)
    requires NonEmpty(alts)
    ensures |r| <= |s|
    decreases |s|
  {
    if |s| == 0 then []
    else
      var i := FirstMatching(s, alts);
      if i < |alts| then " " + ReplaceEach(s[|alts[i]|..], alts)
      else [s[0]] + ReplaceEach(s[1..], alts)
  }

  /** The longest suffix of `s` that does not start with a character of `k`. */
  function SkipRun(s: string, k: CharClass): (r: string)
    ensures |r| <= |s| && r == s[|s| - |r|..]
    ensures |r| > 0 ==> !Accepts(k, r[0])
    ensures forall j :: 0 <= j < |s| - |r| ==> Accepts(k, s[j])
    decreases |s|
  {
    if |s| > 0 && Accepts(k, s[0]) then SkipRun(s[1..], k) else s
  }

  /** `re.sub('k+', ' ', s)`: every maximal run of characters of `k` becomes one space. */
  function ReplaceRuns(s: string, k: CharClass): (r: string)
    ensures |r| <= |s|
    decreases |s|
  {
    if |s| == 0 then []
    else if Accepts(k, s[0]) then " " + ReplaceRuns(SkipRun(s[1..], k), k)
    else [s[0]] + ReplaceRuns(s[1..], k)
  }

  /** The characters of `s` outside `k`, in order. */
  function Outside(s: string, k: CharClass): string
    decreases |s|
  {
    if |s| == 0 then []
    else if Accepts(k, s[0]) then Outside(s[1..], k)
    else [s[0]] + Outside(s[1..], k)
  }

  /** No two adjacent spaces. */
  predicate NoDoubleSpace(s: string) {
    forall i :: 0 <= i < |s| - 1 ==> !(s[i] == ' ' && s[i + 1] == ' ')
  }

  /** The length of the text's leading run of non-space characters. */
  function Word(s: string): (n: nat)
    ensures n <= |s|
    ensures forall j :: 0 <= j < n ==> s[j] != ' '
    ensures n < |s| ==> s[n] == ' '
    decreases |s|
  {
    if |s| == 0 || s[0] == ' ' then 0 else 1 + Word(s[1..])
  }

  // ---------------------------------------------------------------------------
  // FreeOf

  /** FreeOf stated by position: no suffix of the text starts with a match. */
  lemma {:induction false} FreeOfEverywhere(s: string, p: Pattern)
    ensures FreeOf(s, p) <==> forall i :: 0 <= i <= |s| ==> !MatchesAt(s[i..], p)
    decreases |s|
  {
    assert s[0..] == s;
    if |s| > 0 {
      FreeOfEverywhere(s[1..], p);
      assert forall i :: 1 <= i <= |s| ==> s[1..][i - 1..] == s[i..];
      if FreeOf(s, p) {
        forall i | 0 <= i <= |s|
          ensures !MatchesAt(s[i..], p)
        {
          if i > 0 {
            assert s[1..][i - 1..] == s[i..];
          }
        }
      }
      if forall i :: 0 <= i <= |s| ==> !MatchesAt(s[i..], p) {
        forall i | 0 <= i <= |s| - 1
          ensures !MatchesAt(s[1..][i..], p)
        {
          assert s[1..][i..] == s[i + 1..];
        }
      }
    }
  }

  lemma {:induction false} FreeOfSuffix(s: string, p: Pattern, n: nat)
    requires n <= |s|
    requires FreeOf(s, p)
    ensures FreeOf(s[n..], p)
    decreases n
  {
    if n > 0 {
      FreeOfSuffix(s[1..], p, n - 1);
      assert s[1..][n - 1..] == s[n..];
    }
  }

  /** A space-free pattern matching `r` lies inside its leading word, so if that
      word was copied from `s`, the pattern matches `s` as well. */
  lemma MatchWithinWord(s: string, r: string, p: Pattern)
    requires SpaceFree(p)
    requires Word(r) <= |s| && forall j :: 0 <= j < Word(r) ==> r[j] == s[j]
    ensures MatchesAt(r, p) ==> MatchesAt(s, p)
  {
    if MatchesAt(r, p) {
      forall j | 0 <= j < |p|
        ensures r[j] != ' '
      {
        assert Accepts(p[j], r[j]);
      }
      assert |p| <= Word(r);
      forall j | 0 <= j < |p|
        ensures Accepts(p[j], s[j])
      {
        assert Accepts(p[j], r[j]);
      }
    }
  }

  // ---------------------------------------------------------------------------
  // ReplaceEach

  /** Every character of the output is a space or a character of the input. */
  lemma {:induction false} ReplaceEachChars(s: string, alts: seq<Pattern>)
    requires NonEmpty(alts)
    ensures forall c :: c in ReplaceEach(s, alts) ==> c == ' ' || c in s
    decreases |s|
  {
    if |s| > 0 {
      var m := FirstMatching(s, alts);
      var n := if m < |alts| then |alts[m]| else 1;
      ReplaceEachChars(s[n..], alts);
      assert forall c :: c in s[n..] ==> c in s;
    }
  }

  /** The output's leading word is copied from the input. */
  lemma {:induction false} ReplaceEachPrefix(s: string, alts: seq<Pattern>)
    requires NonEmpty(alts)
    ensures var r := ReplaceEach(s, alts);
      Word(r) <= |s| && forall j :: 0 <= j < Word(r) ==> r[j] == s[j]
    decreases |s|
  {
    var r := ReplaceEach(s, alts);
    if |s| > 0 && FirstMatching(s, alts) == |alts| && s[0] != ' ' {
      var t := ReplaceEach(s[1..], alts);
      ReplaceEachPrefix(s[1..], alts);
      assert r == [s[0]] + t;
      assert Word(r) == 1 + Word(t);
      forall j | 1 <= j < Word(r)
        ensures r[j] == s[j]
      {
        assert r[j] == t[j - 1];
      }
    }
  }

  /** After the substitution no alternative matches anywhere. */
  lemma {:induction false} ReplaceEachRemovesAll(s: string, alts: seq<Pattern>)
    requires NonEmpty(alts)
    requires forall i :: 0 <= i < |alts| ==> SpaceFree(alts[i])
    ensures forall i :: 0 <= i < |alts| ==> FreeOf(ReplaceEach(s, alts), alts[i])
    decreases |s|
  {
    var r := ReplaceEach(s, alts);
    if |s| == 0 {
      forall i | 0 <= i < |alts|
        ensures FreeOf(r, alts[i])
      {
        assert |alts[i]| > 0;
      }
    } else {
      var m := FirstMatching(s, alts);
      var rest := if m < |alts| then s[|alts[m]|..] else s[1..];
      ReplaceEachRemovesAll(rest, alts);
      ReplaceEachPrefix(s, alts);
      assert r[1..] == ReplaceEach(rest, alts);
      forall i | 0 <= i < |alts|
        ensures FreeOf(r, alts[i])
      {
        MatchWithinWord(s, r, alts[i]);
        if m < |alts| {
          assert r[0] == ' ' && !Accepts(alts[i][0], ' ');
        }
      }
    }
  }

  /** A space-free pattern absent from the input stays absent. */
  lemma {:induction false} ReplaceEachKeepsFree(s: string, alts: seq<Pattern>, p: Pattern)
    requires NonEmpty(alts) && SpaceFree(p)
    ensures FreeOf(s, p) ==> FreeOf(ReplaceEach(s, alts), p)
    decreases |s|
  {
    if FreeOf(s, p) {
      var r := ReplaceEach(s, alts);
      ReplaceEachPrefix(s, alts);
      MatchWithinWord(s, r, p);
      if |s| > 0 {
        var m := FirstMatching(s, alts);
        var n := if m < |alts| then |alts[m]| else 1;
        FreeOfSuffix(s, p, n);
        ReplaceEachKeepsFree(s[n..], alts, p);
        assert r[1..] == ReplaceEach(s[n..], alts);
      }
    }
  }

  /** Where no alternative matches anywhere, the substitution changes nothing. */
  lemma {:induction false} ReplaceEachIdentity(s: string, alts: seq<Pattern>)
    requires NonEmpty(alts)
    ensures (forall i :: 0 <= i < |alts| ==> FreeOf(s, alts[i])) ==> ReplaceEach(s, alts) == s
    decreases |s|
  {
    if |s| > 0 && forall i :: 0 <= i < |alts| ==> FreeOf(s, alts[i]) {
      ReplaceEachIdentity(s[1..], alts);
    }
  }

  // ---------------------------------------------------------------------------
  // ReplaceRuns

  /** Every character of the output is a space or a character of the input
      outside the class. */
  lemma {:induction false} ReplaceRunsChars(s: string, k: CharClass)
    ensures forall c :: c in ReplaceRuns(s, k) ==> c == ' ' || (c in s && !Accepts(k, c))
    decreases |s|
  {
    if |s| > 0 {
      var rest := if Accepts(k, s[0]) then SkipRun(s[1..], k) else s[1..];
      ReplaceRunsChars(rest, k);
      assert rest == s[|s| - |rest|..];
      assert forall c :: c in rest ==> c in s;
    }
  }

  /** The output's leading word is copied from the input. */
  lemma {:induction false} ReplaceRunsPrefix(s: string, k: CharClass)
    ensures var r := ReplaceRuns(s, k);
      Word(r) <= |s| && forall j :: 0 <= j < Word(r) ==> r[j] == s[j]
    decreases |s|
  {
    var r := ReplaceRuns(s, k);
    if |s| > 0 && !Accepts(k, s[0]) && s[0] != ' ' {
      var t := ReplaceRuns(s[1..], k);
      ReplaceRunsPrefix(s[1..], k);
      assert r == [s[0]] + t;
      assert Word(r) == 1 + Word(t);
      forall j | 1 <= j < Word(r)
        ensures r[j] == s[j]
      {
        assert r[j] == t[j - 1];
      }
    }
  }

  /** A space-free pattern absent from the input stays absent. */
  lemma {:induction false} ReplaceRunsKeepsFree(s: string, k: CharClass, p: Pattern)
    requires SpaceFree(p)
    ensures FreeOf(s, p) ==> FreeOf(ReplaceRuns(s, k), p)
    decreases |s|
  {
    if FreeOf(s, p) {
      var r := ReplaceRuns(s, k);
      ReplaceRunsPrefix(s, k);
      MatchWithinWord(s, r, p);
      if |s| > 0 {
        var rest := if Accepts(k, s[0]) then SkipRun(s[1..], k) else s[1..];
        FreeOfSuffix(s, p, |s| - |rest|);
        ReplaceRunsKeepsFree(rest, k, p);
        assert r[1..] == ReplaceRuns(rest, k);
      }
    }
  }

  /** When the class holds the space, the output has no two adjacent spaces. */
  lemma {:induction false} ReplaceRunsNoDoubleSpace(s: string, k: CharClass)
    requires Accepts(k, ' ')
    ensures NoDoubleSpace(ReplaceRuns(s, k))
    decreases |s|
  {
    var r := ReplaceRuns(s, k);
    if |s| > 0 {
      var rest := if Accepts(k, s[0]) then SkipRun(s[1..], k) else s[1..];
      var t := ReplaceRuns(rest, k);
      ReplaceRunsNoDoubleSpace(rest, k);
      assert r == [r[0]] + t;
      if Accepts(k, s[0]) && |t| > 0 {
        assert !Accepts(k, rest[0]);
        assert t[0] == rest[0];
      }
      forall i | 0 <= i < |r| - 1
        ensures !(r[i] == ' ' && r[i + 1] == ' ')
      {
        if i > 0 {
          assert r[i] == t[i - 1] && r[i + 1] == t[i];
        }
      }
    }
  }

  /** Skipping a run of the class drops nothing outside the class. */
  lemma {:induction false} OutsideSkipRun(s: string, k: CharClass)
    ensures Outside(SkipRun(s, k), k) == Outside(s, k)
    decreases |s|
  {
    if |s| > 0 && Accepts(k, s[0]) {
      OutsideSkipRun(s[1..], k);
    }
  }

  /** When the class holds the space, the characters outside the class are
      kept, in order, and none is added. */
  lemma {:induction false} ReplaceRunsKeepsContent(s: string, k: CharClass)
    requires Accepts(k, ' ')
    ensures Outside(ReplaceRuns(s, k), k) == Outside(s, k)
    decreases |s|
  {
    if |s| > 0 {
      var r := ReplaceRuns(s, k);
      if Accepts(k, s[0]) {
        var rest := SkipRun(s[1..], k);
        ReplaceRunsKeepsContent(rest, k);
        OutsideSkipRun(s[1..], k);
        assert r == " " + ReplaceRuns(rest, k);
        assert r[1..] == ReplaceRuns(rest, k);
      } else {
        ReplaceRunsKeepsContent(s[1..], k);
        assert r[1..] == ReplaceRuns(s[1..], k);
      }
    }
  }

  /** A text whose every character of the class is a lone space. */
  predicate LoneSpaces(s: string, k: CharClass) {
    && (forall j :: 0 <= j < |s| && Accepts(k, s[j]) ==> s[j] == ' ')
    && (forall j :: 0 <= j < |s| - 1 ==> !(Accepts(k, s[j]) && Accepts(k, s[j + 1])))
  }

  /** Where every character of the class is a lone space, the substitution
      changes nothing. */
  lemma {:induction false} ReplaceRunsIdentity(s: string, k: CharClass)
    ensures LoneSpaces(s, k) ==> ReplaceRuns(s, k) == s
    decreases |s|
  {
    if |s| > 0 && LoneSpaces(s, k) {
      assert LoneSpaces(s[1..], k) by {
        assert forall j :: 0 <= j < |s| - 1 ==> s[1..][j] == s[j + 1];
      }
      ReplaceRunsIdentity(s[1..], k);
      if Accepts(k, s[0]) {
        assert SkipRun(s[1..], k) == s[1..];
      }
    }
  }

  // ---------------------------------------------------------------------------
  // Reference definitions by decomposition

  /** A piece of a text cut up by a substitution: a character that is copied,
      or a stretch that is replaced by one space. */
  datatype Piece = Keep(c: char) | Cut(m: string)

  /** The characters a piece was cut from. */
  function Text(p: Piece): string {
    match p
    case Keep(c) => [c]
    case Cut(m) => m
  }

  /** What a piece becomes: the kept character, or one space. */
  function Out(p: Piece): string {
    match p
    case Keep(c) => [c]
    case Cut(_) => " "
  }

  /** The text the pieces were cut from. */
  function Source(ps: seq<Piece>): string
    decreases |ps|
  {
    if |ps| == 0 then [] else Text(ps[0]) + Source(ps[1..])
  }

  /** The text the pieces become. */
  function Render(ps: seq<Piece>): string
    decreases |ps|
  {
    if |ps| == 0 then [] else Out(ps[0]) + Render(ps[1..])
  }

  lemma Cons(p: Piece, ps: seq<Piece>)
    ensures ([p] + ps)[0] == p && ([p] + ps)[1..] == ps
    ensures Source([p] + ps) == Text(p) + Source(ps)
    ensures Render([p] + ps) == Out(p) + Render(ps)
  {
    assert ([p] + ps)[1..] == ps;
  }

  /** Alternative `k` is the first of `alts` that matches at the start of `s`. */
  predicate FirstAt(s: string, alts: seq<Pattern>, k: int) {
    && 0 <= k < |alts|
    && MatchesAt(s, alts[k])
    && forall j :: 0 <= j < k ==> !MatchesAt(s, alts[j])
  }

  lemma {:induction false} FirstAtIsFirstMatching(s: string, alts: seq<Pattern>, k: int)
    requires FirstAt(s, alts, k)
    ensures FirstMatching(s, alts) == k
    decreases |alts|
  {
    if k > 0 {
      assert !MatchesAt(s, alts[0]);
      assert FirstAt(s, alts[1..], k - 1) by {
        assert forall j :: 0 <= j < |alts| - 1 ==> alts[1..][j] == alts[j + 1];
      }
      FirstAtIsFirstMatching(s, alts[1..], k - 1);
    }
  }

  /** One step of a scan for fixed-width alternatives over the text `s` that
      starts at the piece: a character is kept only where no alternative
      matches, and a cut is the first alternative that matches there. */
  predicate EachStep(p: Piece, s: string, alts: seq<Pattern>) {
    match p
    case Keep(_) => forall k :: 0 <= k < |alts| ==> !MatchesAt(s, alts[k])
    case Cut(m) => exists k | 0 <= k < |alts| :: FirstAt(s, alts, k) && |m| == |alts[k]|
  }

  /** The pieces follow a left-to-right scan for fixed-width alternatives. */
  predicate EachScan(ps: seq<Piece>, alts: seq<Pattern>)
    decreases |ps|
  {
    |ps| == 0 || (EachStep(ps[0], Source(ps), alts) && EachScan(ps[1..], alts))
  }

  /** A scan step renders the piece and leaves the text after it. */
  lemma EachStepRenders(p: Piece, t: string, alts: seq<Pattern>)
    requires NonEmpty(alts) && EachStep(p, Text(p) + t, alts)
    ensures ReplaceEach(Text(p) + t, alts) == Out(p) + ReplaceEach(t, alts)
  {
    var s := Text(p) + t;
    match p
    case Keep(c) =>
      assert FirstMatching(s, alts) == |alts|;
      assert s[1..] == t;
    case Cut(m) =>
      var k :| 0 <= k < |alts| && FirstAt(s, alts, k) && |m| == |alts[k]|;
      FirstAtIsFirstMatching(s, alts, k);
      assert s[|m|..] == t;
  }

  lemma EachScanCons(p: Piece, rest: seq<Piece>, alts: seq<Pattern>)
    requires EachStep(p, Text(p) + Source(rest), alts) && EachScan(rest, alts)
    ensures EachScan([p] + rest, alts)
  {
    Cons(p, rest);
  }

  /** Every scan of a text renders to what ReplaceEach computes. */
  lemma {:induction false} EachScanRenders(ps: seq<Piece>, alts: seq<Pattern>)
    requires NonEmpty(alts) && EachScan(ps, alts)
    ensures ReplaceEach(Source(ps), alts) == Render(ps)
    decreases |ps|
  {
    if |ps| > 0 {
      EachScanRenders(ps[1..], alts);
      EachStepRenders(ps[0], Source(ps[1..]), alts);
    }
  }

  /** The piece ReplaceEach cuts from the front of a non-empty text. */
  function NextPiece(s: string, alts: seq<Pattern>): (p: Piece)
    requires NonEmpty(alts) && |s| > 0
    ensures 0 < |Text(p)| <= |s| && Text(p) == s[..|Text(p)|]
    ensures EachStep(p, s, alts)
  {
    var i := FirstMatching(s, alts);
    if i < |alts| then
      assert FirstAt(s, alts, i);
      Cut(s[..|alts[i]|])
    else
      assert s[..1] == [s[0]];
      Keep(s[0])
  }

  /** The scan ReplaceEach performs, as pieces. */
  function EachPieces(s: string, alts: seq<Pattern>): (ps: seq<Piece>)
    requires NonEmpty(alts)
    ensures Source(ps) == s
    ensures EachScan(ps, alts)
    decreases |s|
  {
    if |s| == 0 then []
    else
      var p := NextPiece(s, alts);
      var rest := EachPieces(s[|Text(p)|..], alts);
      assert Text(p) + Source(rest) == s;
      EachScanCons(p, rest, alts);
      Cons(p, rest);
      [p] + rest
  }

  /** `re.sub` over fixed-width alternatives, by decomposition: the text is
      cut into kept characters and first-alternative matches, scanning left
      to right; such a cut exists, and every one renders to the result. */
  lemma ReplaceEachByPieces(s: string, alts: seq<Pattern>)
    requires NonEmpty(alts)
    ensures exists ps :: Source(ps) == s && EachScan(ps, alts) && Render(ps) == ReplaceEach(s, alts)
    ensures forall ps :: Source(ps) == s && EachScan(ps, alts) ==> Render(ps) == ReplaceEach(s, alts)
  {
    var ps := EachPieces(s, alts);
    EachScanRenders(ps, alts);
    forall qs | Source(qs) == s && EachScan(qs, alts)
      ensures Render(qs) == ReplaceEach(s, alts)
    {
      EachScanRenders(qs, alts);
    }
  }

  /** One step of a cut into maximal runs of `k`, followed by the text `t`:
      a kept character is outside `k`, and a cut is a non-empty run of `k`
      that `t` does not continue. */
  predicate RunStep(p: Piece, t: string, k: CharClass) {
    match p
    case Keep(c) => !Accepts(k, c)
    case Cut(m) =>
      && |m| > 0
      && (forall j :: 0 <= j < |m| ==> Accepts(k, m[j]))
      && (|t| > 0 ==> !Accepts(k, t[0]))
  }

  /** The pieces cut maximal runs of `k` and keep the characters outside `k`. */
  predicate RunScan(ps: seq<Piece>, k: CharClass)
    decreases |ps|
  {
    |ps| == 0 || (RunStep(ps[0], Source(ps[1..]), k) && RunScan(ps[1..], k))
  }

  /** Skipping a run of `k` stops exactly where the run ends. */
  lemma {:induction false} SkipRunOver(m: string, t: string, k: CharClass)
    requires forall j :: 0 <= j < |m| ==> Accepts(k, m[j])
    requires |t| > 0 ==> !Accepts(k, t[0])
    ensures SkipRun(m + t, k) == t
    decreases |m|
  {
    if |m| == 0 {
      assert m + t == t;
    } else {
      SkipRunOver(m[1..], t, k);
      assert (m + t)[1..] == m[1..] + t;
    }
  }

  /** Past the first character of a run of `k`, skipping stops where `t` starts. */
  lemma SkipRestOfRun(m: string, t: string, k: CharClass)
    requires |m| > 0 && forall j :: 0 <= j < |m| ==> Accepts(k, m[j])
    requires |t| > 0 ==> !Accepts(k, t[0])
    ensures SkipRun((m + t)[1..], k) == t
  {
    assert (m + t)[1..] == m[1..] + t;
    assert forall j :: 0 <= j < |m| - 1 ==> m[1..][j] == m[j + 1];
    SkipRunOver(m[1..], t, k);
  }

  /** A run of `k` that `t` does not continue becomes one space. */
  lemma RunRenders(m: string, t: string, k: CharClass)
    requires |m| > 0 && forall j :: 0 <= j < |m| ==> Accepts(k, m[j])
    requires |t| > 0 ==> !Accepts(k, t[0])
    ensures ReplaceRuns(m + t, k) == " " + ReplaceRuns(t, k)
  {
    assert (m + t)[0] == m[0];
    SkipRestOfRun(m, t, k);
  }

  /** A run step renders the piece and leaves the text after it. */
  lemma RunStepRenders(p: Piece, t: string, k: CharClass)
    requires RunStep(p, t, k)
    ensures ReplaceRuns(Text(p) + t, k) == Out(p) + ReplaceRuns(t, k)
  {
    match p
    case Keep(c) =>
      assert ([c] + t)[1..] == t;
    case Cut(m) =>
      RunRenders(m, t, k);
  }

  /** Every cut into maximal runs renders to what ReplaceRuns computes. */
  lemma {:induction false} RunScanRenders(ps: seq<Piece>, k: CharClass)
    requires RunScan(ps, k)
    ensures ReplaceRuns(Source(ps), k) == Render(ps)
    decreases |ps|
  {
    if |ps| > 0 {
      RunScanRenders(ps[1..], k);
      RunStepRenders(ps[0], Source(ps[1..]), k);
    }
  }

  lemma RunScanCons(p: Piece, rest: seq<Piece>, k: CharClass)
    requires RunStep(p, Source(rest), k) && RunScan(rest, k)
    ensures RunScan([p] + rest, k)
  {
    Cons(p, rest);
  }

  /** The piece ReplaceRuns cuts from the front of a non-empty text: the
      whole leading run of `k`, or the first character. */
  function NextRun(s: string, k: CharClass): (p: Piece)
    requires |s| > 0
    ensures 0 < |Text(p)| <= |s| && Text(p) == s[..|Text(p)|]
    ensures RunStep(p, s[|Text(p)|..], k)
  {
    if Accepts(k, s[0]) then
      var t := SkipRun(s[1..], k);
      var m := s[..|s| - |t|];
      assert forall j :: 1 <= j < |m| ==> m[j] == s[1..][j - 1];
      assert s[|m|..] == t;
      Cut(m)
    else
      assert s[..1] == [s[0]];
      Keep(s[0])
  }

  /** The cut ReplaceRuns performs, as pieces. */
  function RunPieces(s: string, k: CharClass): (ps: seq<Piece>)
    ensures Source(ps) == s
    ensures RunScan(ps, k)
    decreases |s|
  {
    if |s| == 0 then []
    else
      var p := NextRun(s, k);
      var rest := RunPieces(s[|Text(p)|..], k);
      assert Text(p) + Source(rest) == s;
      RunScanCons(p, rest, k);
      Cons(p, rest);
      [p] + rest
  }

  /** `re.sub('k+', ' ', s)` by decomposition: the text is cut into maximal
      runs of `k` and the characters between them; such a cut exists, and
      every one renders, with one space per run, to the result. */
  lemma ReplaceRunsByPieces(s: string, k: CharClass)
    ensures exists ps :: Source(ps) == s && RunScan(ps, k) && Render(ps) == ReplaceRuns(s, k)
    ensures forall ps :: Source(ps) == s && RunScan(ps, k) ==> Render(ps) == ReplaceRuns(s, k)
  {
    var ps := RunPieces(s, k);
    RunScanRenders(ps, k);
    forall qs | Source(qs) == s && RunScan(qs, k)
      ensures Render(qs) == ReplaceRuns(s, k)
    {
      RunScanRenders(qs, k);
    }
  }
}
