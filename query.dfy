/**
 The query evaluator `findQueryMatches`: the words of a query are read left
 to right and their posting sets combined with the running result, by union
 for a plain word, intersection for a word starting with '+', and difference
 for a word starting with '-'; a word whose term is not indexed is skipped.
 */
module Query {
  import opened Chars
  import opened Tokenizer
  import opened Text
  import opened Indexing

  /** The posting set of a term, {} when the term is not indexed. */
  function Posting(index: Index, term: string): set<string>
  {
    if term in index then index[term] else {}
  }

  /** The word carries the '+' (must also match) modifier. */
  predicate IsPlus(w: string)
  {
    |w| > 0 && w[0] == '+'
  }

  /** The word carries the '-' (must not match) modifier. */
  predicate IsMinus(w: string)
  {
    |w| > 0 && w[0] == '-'
  }

  /** One word of the query applied to the running result. */
  function Step(index: Index, acc: set<string>, w: string): set<string>
  {
    var term := Clean(w);
    if term !in index then acc
    else if IsPlus(w) then acc * index[term]
    else if IsMinus(w) then acc - index[term]
    else acc + index[term]
  }

  /** Reference definition: the words applied left to right, starting from {}. */
  function Fold(index: Index, ws: seq<string>): set<string>
    decreases |ws|
  {
    if ws == [] then {} else Step(index, Fold(index, ws[..|ws| - 1]), ws[|ws| - 1])
  }

  /** One more word of the query, applied last. */
  lemma FoldSnoc(index: Index, ws: seq<string>, w: string)
    ensures Fold(index, ws + [w]) == Step(index, Fold(index, ws), w)
  {
    assert (ws + [w])[..|ws|] == ws;
  }

  /** A word whose term is not indexed can be dropped from the query, wherever it stands. */
  lemma {:induction false} UnknownWordSkipped(index: Index, a: seq<string>, w: string, b: seq<string>)
    requires Clean(w) !in index
    ensures Fold(index, a + [w] + b) == Fold(index, a + b)
    decreases |b|
  {
    if b == [] {
      assert a + [w] + b == a + [w] && a + b == a;
      FoldSnoc(index, a, w);
    } else {
      var init, x := b[..|b| - 1], b[|b| - 1];
      UnknownWordSkipped(index, a, w, init);
      assert a + [w] + b == (a + [w] + init) + [x];
      assert a + b == (a + init) + [x];
      FoldSnoc(index, a + [w] + init, x);
      FoldSnoc(index, a + init, x);
    }
  }

  /** What the evaluator returns: a one-word query is a plain lookup, a longer one the fold. */
  function Matches(index: Index, sentence: string): set<string>
  {
    var ws := Words(sentence);
    if |ws| == 1 then Posting(index, Clean(ws[0])) else Fold(index, ws)
  }

  /** Word w is unmodified, indexed, and its posting set holds d. */
  predicate PlainHit(index: Index, w: string, d: string)
  {
    !IsPlus(w) && !IsMinus(w) && Clean(w) in index && d in index[Clean(w)]
  }

  /** Word w leaves d in the result: it is not indexed, or it is not a '+' without d nor a '-' with d. */
  predicate Keeps(index: Index, w: string, d: string)
  {
    Clean(w) !in index ||
    ((IsPlus(w) ==> d in index[Clean(w)]) && (!IsPlus(w) && IsMinus(w) ==> d !in index[Clean(w)]))
  }

  /** Word k brings d in and no later word takes it out. */
  predicate Survives(index: Index, ws: seq<string>, k: nat, d: string)
    requires k < |ws|
  {
    PlainHit(index, ws[k], d) && forall j :: k < j < |ws| ==> Keeps(index, ws[j], d)
  }

  /** Survival after one more word: a plain hit by the new word, or survival so far and the new word keeps d. */
  lemma SurvivesSnoc(index: Index, ws: seq<string>, w: string, k: nat, d: string)
    requires k < |ws|
    ensures Survives(index, ws + [w], k, d) <==> Survives(index, ws, k, d) && Keeps(index, w, d)
  {
    var ws' := ws + [w];
    assert ws'[k] == ws[k] && ws'[|ws|] == w;
    if Survives(index, ws, k, d) && Keeps(index, w, d) {
      forall j | k < j < |ws'| ensures Keeps(index, ws'[j], d) {
        if j < |ws| {
          assert ws'[j] == ws[j];
        }
      }
    }
    if Survives(index, ws', k, d) {
      forall j | k < j < |ws| ensures Keeps(index, ws[j], d) {
        assert ws'[j] == ws[j];
      }
    }
  }

  /**
   The meaning of a query: d is in the result exactly when some unmodified,
   indexed word has d in its posting set and every later indexed '+' word
   has d and no later indexed '-' word has it.
   */
  lemma {:induction false} FoldMembers(index: Index, ws: seq<string>, d: string)
    ensures d in Fold(index, ws) <==> exists k :: 0 <= k < |ws| && Survives(index, ws, k, d)
    decreases |ws|
  {
    if ws != [] {
      var init, w := ws[..|ws| - 1], ws[|ws| - 1];
      assert ws == init + [w];
      FoldMembers(index, init, d);
      forall k | 0 <= k < |init|
        ensures Survives(index, ws, k, d) <==> Survives(index, init, k, d) && Keeps(index, w, d)
      {
        SurvivesSnoc(index, init, w, k, d);
      }
      if d in Fold(index, ws) {
        if PlainHit(index, w, d) {
          assert Survives(index, ws, |ws| - 1, d);
        } else {
          var k :| 0 <= k < |init| && Survives(index, init, k, d);
          assert Survives(index, ws, k, d);
        }
      }
      if exists k :: 0 <= k < |ws| && Survives(index, ws, k, d) {
        var k :| 0 <= k < |ws| && Survives(index, ws, k, d);
        if k < |init| {
          assert Survives(index, init, k, d);
        }
      }
    }
  }

  /** A query without '+' or '-' words is the union of its words' posting sets. */
  lemma PlainQueryIsUnion(index: Index, ws: seq<string>, d: string)
    requires forall k :: 0 <= k < |ws| ==> !IsPlus(ws[k]) && !IsMinus(ws[k])
    ensures d in Fold(index, ws) <==> exists k :: 0 <= k < |ws| && PlainHit(index, ws[k], d)
  {
    FoldMembers(index, ws, d);
    if exists k :: 0 <= k < |ws| && PlainHit(index, ws[k], d) {
      var k :| 0 <= k < |ws| && PlainHit(index, ws[k], d);
      assert Survives(index, ws, k, d);
    }
  }

  /** Every match is in the posting set of some unmodified query word. */
  lemma MatchesComeFromPlainWords(index: Index, ws: seq<string>, d: string)
    requires d in Fold(index, ws)
    ensures exists k :: 0 <= k < |ws| && PlainHit(index, ws[k], d)
  {
    FoldMembers(index, ws, d);
  }

  /**
   A one-word query is a plain lookup; when the word is unmodified, as the
   evaluator assumes of the first word, that is also what the fold gives.
   */
  lemma OneWordIsFold(index: Index, sentence: string)
    requires |Words(sentence)| == 1
    requires !IsPlus(Words(sentence)[0]) && !IsMinus(Words(sentence)[0])
    ensures Matches(index, sentence) == Fold(index, Words(sentence))
  {
    var ws := Words(sentence);
    assert ws[..0] == [];
  }

  /**
   `findQueryMatches`. A one-word query looks its term up; a longer one is
   read word by word (QueryWords), which is the fold.
   */
  method FindQueryMatches(index: Index, sentence: string) returns (results: set<string>)
    requires |Words(sentence)| == 1 ==> HasLetter(Words(sentence)[0])
    ensures results == Matches(index, sentence)
  {
    var tokens := GatherTokens(sentence);
    var numWords := FindNumWordsInString(sentence);

    results := {};
    if numWords == 1 {
      ghost var w := Words(sentence)[0];
      OneWordTokens(sentence);
      var first :| first in tokens;
      if first !in index {
        return results;
      }
      results := index[first];
      return results;
    }

    results := QueryWords(index, sentence);
  }

  /**
   The multi-word branch of `findQueryMatches`: the loop over the words of
   the query, keeping `results`, `tempResults` and the count `ct` of seeds.
   The first indexed unmodified word seeds both sets, later words combine
   with `tempResults`, and a '+' or '-' word meeting an empty `tempResults`
   is skipped. Both sets always agree, and are empty until the seed, so the
   loop computes the fold.
   */
  method QueryWords(index: Index, sentence: string) returns (results: set<string>)
    ensures results == Fold(index, Words(sentence))
  {
    results := {};
    var tempResults: set<string> := {};
    var ct := 0;
    ghost var read: seq<string> := [];
    var pos := 0;
    while true
      invariant pos <= |sentence|
      invariant Words(sentence) == read + Words(sentence[pos..])
      invariant results == tempResults == Fold(index, read)
      invariant ct == 0 ==> tempResults == {}
      decreases |sentence| - pos
    {
      var found, word, next := NextWord(sentence, pos);
      if !found {
        break;
      }
      assert Words(sentence) == (read + [word]) + Words(sentence[next..]) by {
        assert read + ([word] + Words(sentence[next..])) == (read + [word]) + Words(sentence[next..]);
      }
      FoldSnoc(index, read, word);
      read := read + [word];
      pos := next;

      results, tempResults, ct := QueryWord(index, word, results, tempResults, ct);
    }
    assert read + [] == read;
  }

  /**
   One pass of the evaluator's loop for a multi-word query: `word` is
   cleaned, skipped when its term is not indexed, seeds both sets when it is
   the first indexed unmodified word, and is otherwise combined with
   `tempResults`; a '+' or '-' word meeting an empty `tempResults` is skipped.
   Given the two sets agree, with both empty until the seed, they agree
   afterwards and hold the running result with `word` applied.
   */
  method QueryWord(index: Index, word: string, results: set<string>, tempResults: set<string>, ct: int)
    returns (results': set<string>, tempResults': set<string>, ct': int)
    requires word != []
    requires results == tempResults
    requires ct == 0 ==> tempResults == {}
    ensures results' == tempResults' == Step(index, tempResults, word)
    ensures ct' == 0 ==> tempResults' == {}
  {
    results', tempResults', ct' := results, tempResults, ct;
    var cleanWord := CleanToken(word);
    if cleanWord !in index {
      return;
    }

    if word[0] != '+' && word[0] != '-' {
      if ct == 0 {
        tempResults' := index[cleanWord];
        results' := index[cleanWord];
        ct' := ct + 1;
        return;
      }
    }
    results' := {};

    if word[0] == '+' {
      if tempResults == {} {
        return;
      }
      results' := tempResults * index[cleanWord];
    } else if word[0] == '-' {
      if tempResults == {} {
        return;
      }
      results' := tempResults - index[cleanWord];
    } else {
      results' := tempResults + index[cleanWord];
    }
    tempResults' := results';
  }
}
