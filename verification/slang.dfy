/**
 `clean_text`: the text is cleaned, split on single spaces, each piece that is
 a key of the slang dictionary is replaced by its formal word in one pass, and
 the pieces are joined again with single spaces. The dictionary is the table
 `KamusAlay(slang, formal)`, passed in as its rows and turned into a map as
 `dict(zip(slang, formal))` does.
 */
module Slang {
  import opened Chars
  import opened Rewrite
  import opened Clean

  /** One row of the dictionary table: (slang, formal). */
  type Row = (string, string)

  // ---------------------------------------------------------------------------
  // Splitting and joining on single spaces

  /** `s.split(' ')`: the pieces between single spaces, empty pieces included. */
  function Split(s: string): (ws: seq<string>)
    ensures |ws| >= 1
    ensures forall i :: 0 <= i < |ws| ==> ' ' !in ws[i]
    decreases |s|
  {
    if |s| == 0 then [""]
    else
      var rest := Split(s[1..]);
      if s[0] == ' ' then [""] + rest
      else [[s[0]] + rest[0]] + rest[1..]
  }

  /** `' '.join(ws)` */
  function Join(ws: seq<string>): string
    decreases |ws|
  {
    if |ws| == 0 then ""
    else if |ws| == 1 then ws[0]
    else ws[0] + " " + Join(ws[1..])
  }

  /** Joining the pieces of a split gives the text back. */
  lemma {:induction false} JoinSplit(s: string)
    ensures Join(Split(s)) == s
    decreases |s|
  {
    if |s| > 0 {
      var rest := Split(s[1..]);
      JoinSplit(s[1..]);
      if s[0] == ' ' {
        assert Split(s) == [""] + rest;
        assert Join(Split(s)) == "" + " " + Join(rest);
      } else {
        var ws := Split(s);
        assert ws == [[s[0]] + rest[0]] + rest[1..];
        if |rest| == 1 {
          assert Join(ws) == [s[0]] + rest[0];
        } else {
          assert ws[1..] == rest[1..];
          assert Join(rest) == rest[0] + " " + Join(rest[1..]);
          assert Join(ws) == [s[0]] + rest[0] + " " + Join(rest[1..]);
        }
      }
    }
  }

  /** A leading piece without spaces is glued to the first piece of the rest. */
  lemma {:induction false} SplitAfterWord(w: string, t: string)
    requires ' ' !in w
    ensures Split(w + t) == [w + Split(t)[0]] + Split(t)[1..]
    decreases |w|
  {
    if |w| > 0 {
      SplitAfterWord(w[1..], t);
      assert (w + t)[1..] == w[1..] + t;
      assert (w + t)[0] == w[0];
      assert [w[0]] + (w[1..] + Split(t)[0]) == w + Split(t)[0];
    } else {
      assert w + t == t;
      assert w + Split(t)[0] == Split(t)[0];
      assert Split(t) == [Split(t)[0]] + Split(t)[1..];
    }
  }

  /** Splitting the join of space-free pieces gives the pieces back. */
  lemma {:induction false} SplitJoin(ws: seq<string>)
    requires |ws| >= 1
    requires forall i :: 0 <= i < |ws| ==> ' ' !in ws[i]
    ensures Split(Join(ws)) == ws
    decreases |ws|
  {
    if |ws| == 1 {
      SplitAfterWord(ws[0], "");
      assert ws[0] + "" == ws[0];
      assert Split("") == [""];
      assert ws == [ws[0]];
    } else {
      var tail := Join(ws[1..]);
      SplitJoin(ws[1..]);
      SplitAfterWord(ws[0], " " + tail);
      assert Join(ws) == ws[0] + (" " + tail);
      assert (" " + tail)[1..] == tail;
      assert Split(" " + tail) == [""] + ws[1..];
      assert ([""] + ws[1..])[1..] == ws[1..];
      assert ws[0] + "" == ws[0];
      assert ws == [ws[0]] + ws[1..];
    }
  }

  // ---------------------------------------------------------------------------
  // The dictionary

  /** Row `i` is the last row whose slang is `rows[i].0`. */
  predicate LastFor(rows: seq<Row>, i: int)
    requires 0 <= i < |rows|
  {
    forall j :: i < j < |rows| ==> rows[j].0 != rows[i].0
  }

  /** The slang words of the rows. */
  function Slangs(rows: seq<Row>): set<string> {
    set i | 0 <= i < |rows| :: rows[i].0
  }

  lemma SlangsOfTail(rows: seq<Row>)
    requires |rows| > 0
    ensures Slangs(rows) == {rows[0].0} + Slangs(rows[1..])
  {
    forall w | w in Slangs(rows) && w != rows[0].0
      ensures w in Slangs(rows[1..])
    {
      var i :| 0 <= i < |rows| && rows[i].0 == w;
      assert rows[1..][i - 1] == rows[i];
    }
  }

  /** `dict(zip(slang, formal))`: later rows overwrite earlier ones. The keys
      are exactly the slang words, and each maps to the formal word of the
      last row that holds it. */
  function Dictionary(rows: seq<Row>): (d: map<string, string>)
    ensures d.Keys == Slangs(rows)
    ensures forall i :: 0 <= i < |rows| && LastFor(rows, i) ==> d[rows[i].0] == rows[i].1
    decreases |rows|
  {
    if |rows| == 0 then map[]
    else
      var rest := Dictionary(rows[1..]);
      SlangsOfTail(rows);
      LastForOfTail(rows);
      if rows[0].0 in rest then rest else rest[rows[0].0 := rows[0].1]
  }

  /** Being the last row is unaffected by dropping an earlier row; the first
      row is the last one for its slang exactly when no later row has it. */
  lemma LastForOfTail(rows: seq<Row>)
    requires |rows| > 0
    ensures forall i :: 1 <= i < |rows| ==> (LastFor(rows, i) <==> LastFor(rows[1..], i - 1))
    ensures LastFor(rows, 0) <==> rows[0].0 !in Slangs(rows[1..])
  {
    var tail := rows[1..];
    assert forall j :: 1 <= j < |rows| ==> tail[j - 1] == rows[j];
    if !LastFor(rows, 0) {
      var j :| 0 < j < |rows| && rows[j].0 == rows[0].0;
      assert tail[j - 1].0 == rows[0].0;
    }
  }

  // ---------------------------------------------------------------------------
  // Normalisation

  /** The loop of lines 95-98: each piece found among the keys is replaced by
      its value; the values themselves are not looked up again. */
  function Translate(ws: seq<string>, d: map<string, string>): (r: seq<string>)
    ensures |r| == |ws|
    ensures forall i :: 0 <= i < |ws| ==> r[i] == (if ws[i] in d then d[ws[i]] else ws[i])
    decreases |ws|
  {
    if |ws| == 0 then []
    else [if ws[0] in d then d[ws[0]] else ws[0]] + Translate(ws[1..], d)
  }

  /** Lines 94-99: split on single spaces, translate, join with single spaces. */
  function Normalize(c: string, d: map<string, string>): string
  {
    Join(Translate(Split(c), d))
  }

  /** `clean_text(text)` with the dictionary table given as `rows`. */
  function NormalizeText(text: string, rows: seq<Row>): (r: string)
    ensures rows == [] ==> r == CleanText(text)
    ensures (forall i :: 0 <= i < |rows| ==> ' ' !in rows[i].1) ==>
      var ws := Split(CleanText(text));
      var out := Split(r);
      && |out| == |ws|
      && forall i :: 0 <= i < |ws| ==>
           out[i] == (if ws[i] in Slangs(rows) then Dictionary(rows)[ws[i]] else ws[i])
  {
    var c := CleanText(text);
    NormalizeUnknownWords(c, map[]);
    NormalizeRowsPieces(c, rows);
    Normalize(c, Dictionary(rows))
  }

  /** When no piece is a key, the text comes back unchanged; in particular
      with an empty dictionary. */
  lemma NormalizeUnknownWords(c: string, d: map<string, string>)
    ensures (forall w :: w in Split(c) ==> w !in d) ==> Normalize(c, d) == c
    ensures Normalize(c, map[]) == c
  {
    var ws := Split(c);
    JoinSplit(c);
    assert Translate(ws, map[]) == ws;
    if forall w :: w in ws ==> w !in d {
      assert Translate(ws, d) == ws;
    }
  }

  /** No value of the dictionary holds a space. */
  predicate SpaceFreeMap(d: map<string, string>) {
    forall w :: w in d ==> ' ' !in d[w]
  }

  /** When no value holds a space, the pieces of the result are the pieces of
      the input, each replaced by its value when it is a key. */
  lemma NormalizePieces(c: string, d: map<string, string>)
    requires SpaceFreeMap(d)
    ensures var ws := Split(c);
            var out := Split(Normalize(c, d));
      && |out| == |ws|
      && forall i :: 0 <= i < |ws| ==> out[i] == (if ws[i] in d then d[ws[i]] else ws[i])
  {
    SplitJoin(Translate(Split(c), d));
  }

  /** Every entry of the dictionary is a row of the table. */
  lemma DictionaryValues(rows: seq<Row>)
    ensures var d := Dictionary(rows);
      forall w :: w in d ==> exists i :: 0 <= i < |rows| && rows[i] == (w, d[w])
  {
    var d := Dictionary(rows);
    forall w | w in d
      ensures exists i :: 0 <= i < |rows| && rows[i] == (w, d[w])
    {
      var j :| 0 <= j < |rows| && rows[j].0 == w;
      LastRowExists(rows, j);
      var i :| 0 <= i < |rows| && rows[i].0 == w && LastFor(rows, i);
      assert rows[i] == (w, d[w]);
    }
  }

  /** Formal words without spaces give dictionary values without spaces. */
  lemma SpaceFreeValues(rows: seq<Row>)
    requires forall i :: 0 <= i < |rows| ==> ' ' !in rows[i].1
    ensures SpaceFreeMap(Dictionary(rows))
  {
    var d := Dictionary(rows);
    forall w | w in d
      ensures ' ' !in d[w]
    {
      var j :| 0 <= j < |rows| && rows[j].0 == w;
      LastRowExists(rows, j);
      var i :| 0 <= i < |rows| && rows[i].0 == w && LastFor(rows, i);
      assert d[w] == rows[i].1;
    }
    assert SpaceFreeMap(d);
  }

  /** With a table whose formal words hold no spaces, the pieces of the result
      are the pieces of the input, each replaced by its dictionary value when
      it is a slang word of the table. */
  lemma NormalizeRowsPieces(c: string, rows: seq<Row>)
    ensures (forall i :: 0 <= i < |rows| ==> ' ' !in rows[i].1) ==>
      var d := Dictionary(rows);
      var ws := Split(c);
      var out := Split(Normalize(c, d));
      && |out| == |ws|
      && forall i :: 0 <= i < |ws| ==> out[i] == (if ws[i] in Slangs(rows) then d[ws[i]] else ws[i])
  {
    if forall i :: 0 <= i < |rows| ==> ' ' !in rows[i].1 {
      var d := Dictionary(rows);
      SpaceFreeValues(rows);
      NormalizePieces(c, d);
      var ws := Split(c);
      var out := Split(Normalize(c, d));
      forall i | 0 <= i < |ws|
        ensures out[i] == (if ws[i] in Slangs(rows) then d[ws[i]] else ws[i])
      {
        assert ws[i] in d <==> ws[i] in Slangs(rows);
      }
    }
  }

  /** Every slang word has a last row holding it. */
  lemma {:induction false} LastRowExists(rows: seq<Row>, j: int)
    requires 0 <= j < |rows|
    ensures exists i :: 0 <= i < |rows| && rows[i].0 == rows[j].0 && LastFor(rows, i)
    decreases |rows| - j
  {
    if !LastFor(rows, j) {
      var k :| j < k < |rows| && rows[k].0 == rows[j].0;
      LastRowExists(rows, k);
    }
  }

  /** With an empty table, `clean_text` is `cleanText`. */
  lemma NormalizeWithoutDictionary(text: string)
    ensures NormalizeText(text, []) == CleanText(text)
  {
    NormalizeUnknownWords(CleanText(text), map[]);
  }

  /** With rows `(w, v)` then `(v, u)`, the word `w` maps to `v`. */
  lemma ChainedRows(w: string, v: string, u: string)
    requires w != v
    ensures var d := Dictionary([(w, v), (v, u)]); w in d && d[w] == v
  {
    var rows := [(w, v), (v, u)];
    assert LastFor(rows, 0);
    assert rows[0].0 in Slangs(rows);
  }

  /** A word that is a key is replaced once: its formal word is not looked up
      again, even when that formal word is itself a key. */
  lemma TranslateOnce(w: string, v: string, u: string)
    requires ' ' !in w && w != v
    ensures Normalize(w, Dictionary([(w, v), (v, u)])) == v
  {
    SplitJoin([w]);
    ChainedRows(w, v, u);
    assert Translate([w], Dictionary([(w, v), (v, u)])) == [v];
  }

  /** The same through `clean_text`, for a word that cleaning leaves alone. */
  lemma NormalizeSinglePass(w: string, v: string, u: string)
    requires AllClean(w) && ' ' !in w && |w| > 0
    requires FreeOf(w, User) && FreeOf(w, Rt) && FreeOf(w, XCode)
    requires w != v
    ensures NormalizeText(w, [(w, v), (v, u)]) == v
  {
    assert NoDoubleSpace(w);
    CleanTextFixesCleanText(w);
    TranslateOnce(w, v, u);
  }
}
