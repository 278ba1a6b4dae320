/**
 The query scenarios of the evaluator's tests, stated for every index that
 has the properties the tests rely on (which terms are indexed), so that no
 particular index is assumed.
 */
module QueryExamples {
  import opened Chars
  import opened Tokenizer
  import opened Text
  import opened Indexing
  import opened Query

  /** A lower-case word of letters is its own term. */
  lemma LetterWord(w: string)
    requires w != [] && forall i :: 0 <= i < |w| ==> 'a' <= w[i] <= 'z'
    ensures IsWord(w) && Clean(w) == w
  {
    assert IsAlpha(w[0]);
    CleanWrapped("", w, "", w);
  }

  /** A modifier in front of a word keeps it a word with the same term. */
  lemma ModifiedWord(c: char, w: string)
    requires c == '+' || c == '-'
    requires IsWord(w)
    ensures IsWord([c] + w) && Clean([c] + w) == Clean(w)
  {
    CleanIgnoresLeadingPunct(c, w);
    forall i | 1 <= i < |w| + 1 ensures !IsSpace(([c] + w)[i]) {
      assert ([c] + w)[i] == w[i - 1];
    }
  }

  /** The words of a two-word query. */
  lemma TwoWords(a: string, b: string)
    requires IsWord(a) && IsWord(b)
    ensures Words(a + " " + b) == [a, b]
  {
    WordsCons(a, ' ', b);
    WordsSingle(b);
  }

  lemma FoldTwo(index: Index, a: string, b: string)
    ensures Fold(index, [a, b]) == Step(index, Step(index, {}, a), b)
  {
    assert [a][..0] == [];
    assert Fold(index, [a]) == Step(index, {}, a);
    assert [a, b][..1] == [a];
    assert Fold(index, [a, b]) == Step(index, Fold(index, [a]), b);
  }

  /** An unknown single word finds nothing. */
  lemma UnknownSingleWord(index: Index)
    requires "mohammad" !in index
    ensures Matches(index, "mohammad") == {}
  {
    LetterWord("mohammad");
    WordsSingle("mohammad");
  }

  /** A query none of whose terms is indexed finds nothing (the query "nusairat mohammad"). */
  lemma {:induction false} NoKnownWord(index: Index, ws: seq<string>)
    requires forall k :: 0 <= k < |ws| ==> Clean(ws[k]) !in index
    ensures Fold(index, ws) == {}
    decreases |ws|
  {
    if ws != [] {
      NoKnownWord(index, ws[..|ws| - 1]);
    }
  }

  /** An unknown first word does not stop a later plain word (the query "nusairat hello"). */
  lemma UnknownFirstThenPlain(index: Index, u: string, w: string)
    requires IsWord(u) && IsWord(w) && w[0] != '+' && w[0] != '-'
    requires Clean(u) !in index && Clean(w) in index
    ensures Matches(index, u + " " + w) == index[Clean(w)]
  {
    TwoWords(u, w);
    FoldTwo(index, u, w);
    assert Step(index, {}, u) == {};
  }

  /**
   An unknown first word leaves nothing for a '+' or '-' word to act on
   (the queries "nusairat +hello" and "nusairat -hello").
   */
  lemma UnknownFirstThenModified(index: Index, u: string, c: char, w: string)
    requires c == '+' || c == '-'
    requires IsWord(u) && IsWord(w) && Clean(u) !in index
    ensures Matches(index, u + " " + ([c] + w)) == {}
  {
    ModifiedWord(c, w);
    TwoWords(u, [c] + w);
    FoldTwo(index, u, [c] + w);
    assert Step(index, {}, u) == {};
    assert IsPlus([c] + w) || IsMinus([c] + w);
  }

  /** An unmodified word: its own term, not a '+' or '-' word. */
  predicate Plain(w: string)
  {
    IsWord(w) && w[0] != '+' && w[0] != '-'
  }

  /** Every word of a short literal query is a word, position by position. */
  lemma AllWords(ws: seq<string>)
    requires |ws| <= 6
    requires 0 < |ws| ==> IsWord(ws[0])
    requires 1 < |ws| ==> IsWord(ws[1])
    requires 2 < |ws| ==> IsWord(ws[2])
    requires 3 < |ws| ==> IsWord(ws[3])
    requires 4 < |ws| ==> IsWord(ws[4])
    requires 5 < |ws| ==> IsWord(ws[5])
    ensures forall k :: 0 <= k < |ws| ==> IsWord(ws[k])
  {
    forall k | 0 <= k < |ws| ensures IsWord(ws[k]) {
      if k == 0 {} else if k == 1 {} else if k == 2 {} else if k == 3 {} else if k == 4 {} else {}
    }
  }

  /** A four-word query, word by word. */
  lemma FoldFour(index: Index, ws: seq<string>)
    requires |ws| == 4
    ensures Fold(index, ws) == Step(index, Step(index, Step(index, Step(index, {}, ws[0]), ws[1]), ws[2]), ws[3])
  {
    assert Fold(index, ws[..1]) == Step(index, {}, ws[0]) by {
      assert ws[..1][..0] == [];
    }
    assert Fold(index, ws[..2]) == Step(index, Fold(index, ws[..1]), ws[1]) by {
      assert ws[..2][..1] == ws[..1];
    }
    assert Fold(index, ws[..3]) == Step(index, Fold(index, ws[..2]), ws[2]) by {
      assert ws[..3][..2] == ws[..2];
    }
  }

  /** A query of six words, applied as its first four and then the last two. */
  lemma FoldSix(index: Index, ws: seq<string>)
    requires |ws| == 6
    ensures Fold(index, ws) == Step(index, Step(index, Fold(index, ws[..4]), ws[4]), ws[5])
  {
    assert ws[..5][..4] == ws[..4];
  }

  /** A five-word query, applied as its first four and then the last one. */
  lemma FoldFive(index: Index, ws: seq<string>)
    requires |ws| == 5
    ensures Fold(index, ws) == Step(index, Fold(index, ws[..4]), ws[4])
  {
  }

  /** The plain words of "there mohammad laws aviation", with the unknown second one skipped. */
  lemma FoldPlainSkipUnknown(index: Index, a: string, u: string, b: string, c: string)
    requires Plain(a) && Plain(b) && Plain(c) && Clean(u) !in index
    ensures Fold(index, [a, u, b, c]) == Posting(index, Clean(a)) + Posting(index, Clean(b)) + Posting(index, Clean(c))
  {
    FoldFour(index, [a, u, b, c]);
  }

  /**
   Unknown words in the middle are skipped, and the '-' and '+' words act on
   what the plain words before them gathered (the shape of the query
   "there mohammad laws aviation -to +hello" with "mohammad" not indexed).
   */
  lemma UnknownLaterWord(index: Index, a: string, u: string, b: string, c: string, m: string, p: string)
    requires Plain(a) && Plain(u) && Plain(b) && Plain(c) && IsWord(m) && IsWord(p)
    requires Clean(u) !in index && Clean(m) in index && Clean(p) in index
    ensures Matches(index, Join([a, u, b, c, ['-'] + m, ['+'] + p])) ==
            ((Posting(index, Clean(a)) + Posting(index, Clean(b)) + Posting(index, Clean(c))) - index[Clean(m)]) * index[Clean(p)]
  {
    ModifiedWord('-', m);
    ModifiedWord('+', p);
    var ws := [a, u, b, c, ['-'] + m, ['+'] + p];
    AllWords(ws);
    WordsJoin(ws);
    assert ws[..4] == [a, u, b, c];
    FoldPlainSkipUnknown(index, a, u, b, c);
    FoldSix(index, ws);
    assert IsMinus(['-'] + m) && !IsPlus(['-'] + m) && IsPlus(['+'] + p);
  }

  /**
   '-' empties the result, a '+' on the empty result is skipped, and a later
   plain word fills it again (the query "all -all +mohammad +all all").
   */
  lemma EmptiedThenRefilled(index: Index, a: string, u: string)
    requires Plain(a) && IsWord(u)
    requires Clean(a) in index && Clean(u) !in index
    ensures Matches(index, Join([a, ['-'] + a, ['+'] + u, ['+'] + a, a])) == index[Clean(a)]
  {
    ModifiedWord('-', a);
    ModifiedWord('+', u);
    ModifiedWord('+', a);
    var ws := [a, ['-'] + a, ['+'] + u, ['+'] + a, a];
    AllWords(ws);
    WordsJoin(ws);
    FoldFive(index, ws);
    FoldFour(index, ws[..4]);
  }

  /**
   Once a '-' has emptied the result, '+' and '-' words keep it empty (the
   query "all -mohammad -all +all").
   */
  lemma EmptiedStaysEmpty(index: Index, a: string, u: string)
    requires Plain(a) && IsWord(u)
    requires Clean(a) in index && Clean(u) !in index
    ensures Matches(index, Join([a, ['-'] + u, ['-'] + a, ['+'] + a])) == {}
  {
    ModifiedWord('-', u);
    ModifiedWord('-', a);
    ModifiedWord('+', a);
    var ws := [a, ['-'] + u, ['-'] + a, ['+'] + a];
    AllWords(ws);
    WordsJoin(ws);
    FoldFour(index, ws);
  }
}
