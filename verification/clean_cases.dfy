/**
 Worked inputs of `cleanText`, computed one rewrite at a time. They show the
 consequences of the order of lines 79-85: matching is by substring, and
 because stripping happens before the substitutions, the result can begin or
 end with a space, so the function is not idempotent.
 */
module CleanCases {
  import opened Chars
  import opened Rewrite
  import opened Clean

  lemma CleanTextOfEmpty()
    ensures CleanText("") == ""
  {
  }

  lemma CleanTextOfSpace()
    ensures CleanText(" ") == ""
  {
    assert Lower(" ") == " ";
    assert SkipLeading(" ", 0) == 1;
  }

  // "@user" -> " "

  lemma MentionFirstStages()
    ensures JoinLines(Strip(Lower("@user"))) == "@user"
  {
    var s := "@user";
    assert Lower(s) == s;
    assert SkipLeading(s, 0) == 0;
    assert SkipTrailing(s, 0, 5) == 5;
  }

  lemma MentionWordKept()
    ensures ReplaceRuns("user", NotAlnum) == "user"
  {
    ReplaceRunsIdentity("user", NotAlnum);
  }

  lemma MentionSignSkipped()
    ensures SkipRun("@user"[1..], NotAlnum) == "user"
  {
    assert "@user"[1..] == "user";
  }

  lemma MentionKeepAlnum()
    ensures ReplaceRuns("@user", NotAlnum) == " user"
  {
    MentionWordKept();
    MentionSignSkipped();
    assert Accepts(NotAlnum, "@user"[0]);
  }

  lemma MentionDropUserRt()
    ensures DropUserRt(" user") == "  "
  {
    assert MatchesAt("user", User);
    assert !Accepts(User[0], " user"[0]) && !Accepts(Rt[0], " user"[0]);
    assert [User, Rt][1..] == [Rt];
    assert FirstMatching(" user", [User, Rt]) == 2;
    assert FirstMatching("user", [User, Rt]) == 0;
    assert " user"[1..] == "user";
    assert "user"[4..] == "";
  }

  lemma MentionLastStages()
    ensures SqueezeSpaces(DropXCodes("  ")) == " "
  {
    assert FirstMatching("  ", [XCode]) == 1;
    assert FirstMatching(" ", [XCode]) == 1;
    assert DropXCodes("  ") == "  ";
    assert SkipRun(" ", Exactly(' ')) == "";
  }

  /** A bare mention leaves a single space behind. */
  lemma CleanTextOfMention()
    ensures CleanText("@user") == " "
  {
    MentionFirstStages();
    MentionKeepAlnum();
    assert KeepAlnum("@user") == " user";
    MentionDropUserRt();
    MentionLastStages();
  }

  // "start" -> "sta "

  lemma StartLowerStrip()
    ensures Strip(Lower("start")) == "start"
  {
    var s := "start";
    assert Lower(s) == s;
    assert SkipLeading(s, 0) == 0;
    assert SkipTrailing(s, 0, 5) == 5;
  }

  lemma StartJoinLines()
    ensures JoinLines("start") == "start"
  {
  }

  lemma StartKeepAlnum()
    ensures KeepAlnum("start") == "start"
  {
    assert LoneSpaces("start", NotAlnum);
  }

  lemma StartFirstStages()
    ensures KeepAlnum(JoinLines(Strip(Lower("start")))) == "start"
  {
    StartLowerStrip();
    StartJoinLines();
    StartKeepAlnum();
  }

  /** Copying one character that starts no match. */
  lemma CopiesFirst(s: string, c: char)
    requires !Accepts(User[0], c) && !Accepts(Rt[0], c)
    ensures ReplaceEach([c] + s, [User, Rt]) == [c] + ReplaceEach(s, [User, Rt])
  {
    assert ([c] + s)[1..] == s;
    assert [User, Rt][1..] == [Rt];
    assert FirstMatching([c] + s, [User, Rt]) == 2;
  }

  lemma StartTail()
    ensures ReplaceEach("rt", [User, Rt]) == " "
  {
    assert MatchesAt("rt", Rt);
    assert !MatchesAt("rt", User);
    assert [User, Rt][1..] == [Rt];
    assert FirstMatching("rt", [User, Rt]) == 1;
    assert "rt"[2..] == "";
  }

  lemma StartDropArt()
    ensures ReplaceEach("art", [User, Rt]) == "a "
  {
    StartTail();
    CopiesFirst("rt", 'a');
    assert "a" + "rt" == "art";
  }

  lemma StartDropTart()
    ensures ReplaceEach("tart", [User, Rt]) == "ta "
  {
    StartDropArt();
    CopiesFirst("art", 't');
    assert "t" + "art" == "tart";
  }

  lemma StartDropUserRt()
    ensures ReplaceEach("start", [User, Rt]) == "sta "
  {
    StartDropTart();
    CopiesFirst("tart", 's');
    assert "s" + "tart" == "start";
  }

  lemma StartLastStages()
    ensures SqueezeSpaces(DropXCodes("sta ")) == "sta "
  {
    var s := "sta ";
    assert !Accepts(XCode[0], 's') && !Accepts(XCode[0], 't');
    assert !Accepts(XCode[0], 'a') && !Accepts(XCode[0], ' ');
    assert FreeOf(s[3..], XCode);
    assert FreeOf(s[2..], XCode);
    assert FreeOf(s[1..], XCode);
    assert FreeOf(s, XCode);
    assert NoDoubleSpace(s);
  }

  /** `rt` is removed from inside a word: matching is by substring. */
  lemma CleanTextMatchesInsideWords()
    ensures CleanText("start") == "sta "
  {
    StartFirstStages();
    StartDropUserRt();
    assert DropUserRt("start") == "sta ";
    StartLastStages();
  }

  /** Cleaning a cleaned text can change it again. */
  lemma CleanTextNotIdempotent()
    ensures CleanText(CleanText("@user")) != CleanText("@user")
  {
    CleanTextOfMention();
    CleanTextOfSpace();
  }

  // "a@b" -> "a b"

  /** The run `@` between two letters becomes one space in its place: the
      contract of KeepAlnum alone fixes this result. */
  lemma KeepAlnumPlacesSpace()
    ensures KeepAlnum("a@b") == "a b"
  {
    var tail := [Keep('b')];
    assert tail == [Keep('b')] + [];
    Cons(Keep('b'), []);
    RunScanCons(Keep('b'), [], NotAlnum);
    var mid := [Cut("@")] + tail;
    Cons(Cut("@"), tail);
    RunScanCons(Cut("@"), tail, NotAlnum);
    var ps := [Keep('a')] + mid;
    Cons(Keep('a'), mid);
    RunScanCons(Keep('a'), mid, NotAlnum);
    assert Source(ps) == "a@b";
    assert Render(ps) == "a b";
    var r := KeepAlnum("a@b");
  }

  // "a  b" -> "a b"

  /** Two spaces between letters shrink to one space in their place: the
      contract of SqueezeSpaces alone fixes this result. */
  lemma SqueezeSpacesKeepsOneSpace()
    ensures SqueezeSpaces("a  b") == "a b"
  {
    var tail := [Keep('b')];
    assert tail == [Keep('b')] + [];
    Cons(Keep('b'), []);
    RunScanCons(Keep('b'), [], Exactly(' '));
    var mid := [Cut("  ")] + tail;
    Cons(Cut("  "), tail);
    RunScanCons(Cut("  "), tail, Exactly(' '));
    var ps := [Keep('a')] + mid;
    Cons(Keep('a'), mid);
    RunScanCons(Keep('a'), mid, Exactly(' '));
    assert Source(ps) == "a  b";
    assert Render(ps) == "a b";
    var r := SqueezeSpaces("a  b");
  }

  // "rt ab" -> "  ab"

  /** `" ab"` holds no match of `user` or `rt`: it is scanned as kept
      characters. */
  lemma ScanOfRest() returns (p1: seq<Piece>)
    ensures Source(p1) == " ab" && Render(p1) == " ab"
    ensures EachScan(p1, [User, Rt])
  {
    var alts := [User, Rt];
    var p3 := [Keep('b')];
    assert p3 == [Keep('b')] + [];
    Cons(Keep('b'), []);
    assert !Accepts(User[0], 'b') && !Accepts(Rt[0], 'b');
    EachScanCons(Keep('b'), [], alts);
    var p2 := [Keep('a')] + p3;
    Cons(Keep('a'), p3);
    assert !Accepts(User[0], 'a') && !Accepts(Rt[0], 'a');
    EachScanCons(Keep('a'), p3, alts);
    p1 := [Keep(' ')] + p2;
    Cons(Keep(' '), p2);
    assert !Accepts(User[0], ' ') && !Accepts(Rt[0], ' ');
    EachScanCons(Keep(' '), p2, alts);
  }

  /** `"rt ab"` is scanned as a match of `rt` followed by kept characters. */
  lemma ScanOfRtAb() returns (ps: seq<Piece>)
    ensures Source(ps) == "rt ab" && Render(ps) == "  ab"
    ensures EachScan(ps, [User, Rt])
  {
    var p1 := ScanOfRest();
    ps := [Cut("rt")] + p1;
    Cons(Cut("rt"), p1);
    assert !Accepts(User[0], 'r');
    assert MatchesAt("rt ab", Rt);
    assert FirstAt("rt ab", [User, Rt], 1);
    EachScanCons(Cut("rt"), p1, [User, Rt]);
  }

  /** `rt` becomes one space and the rest of the text, its space included, is
      kept: the contract of DropUserRt alone fixes this result. */
  lemma DropUserRtKeepsRest()
    ensures DropUserRt("rt ab") == "  ab"
  {
    var ps := ScanOfRtAb();
    var r := DropUserRt("rt ab");
  }
}
