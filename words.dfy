/**
 Splitting text into whitespace-separated words, as `istringstream >> word`
 does, and the two functions built on it: `gatherTokens` (the set of terms
 of a text) and `findNumWordsInString` (the number of raw words).
 */
module Text {
  import opened Chars
  import opened Tokenizer

  /** A word as the stream extraction delivers it: non-empty, no white space. */
  predicate IsWord(w: string)
  {
    w != [] && forall i :: 0 <= i < |w| ==> !IsSpace(w[i])
  }

  /** The end of the run of non-space characters that starts at i. */
  function WordEnd(s: string, i: nat): (j: nat)
    requires i <= |s|
    ensures i <= j <= |s|
    decreases |s| - i
  {
    if i == |s| || IsSpace(s[i]) then i else WordEnd(s, i + 1)
  }

  /** WordEnd stops at the first white space at or after i, or at the end. */
  lemma {:induction false} WordEndShape(s: string, i: nat)
    requires i <= |s|
    ensures forall k :: i <= k < WordEnd(s, i) ==> !IsSpace(s[k])
    ensures WordEnd(s, i) == |s| || IsSpace(s[WordEnd(s, i)])
    decreases |s| - i
  {
    if i < |s| && !IsSpace(s[i]) {
      WordEndShape(s, i + 1);
    }
  }

  /** Reference definition of the words of a text, left to right. */
  function Words(s: string): seq<string>
    decreases |s|
  {
    if s == [] then []
    else if IsSpace(s[0]) then Words(s[1..])
    else
      var n := WordEnd(s, 0);
      [s[..n]] + Words(s[n..])
  }

  /** Every word of a text is non-empty and holds no white space. */
  lemma {:induction false} WordsAreWords(s: string)
    ensures forall k :: 0 <= k < |Words(s)| ==> IsWord(Words(s)[k])
    decreases |s|
  {
    if s == [] {
    } else if IsSpace(s[0]) {
      WordsAreWords(s[1..]);
    } else {
      var n := WordEnd(s, 0);
      WordEndShape(s, 0);
      WordsAreWords(s[n..]);
      assert IsWord(s[..n]);
    }
  }

  /** WordEnd is the first white space (or the end) at or after i. */
  lemma {:induction false} WordEndUnique(s: string, i: nat, j: nat)
    requires i <= j <= |s|
    requires forall k :: i <= k < j ==> !IsSpace(s[k])
    requires j == |s| || IsSpace(s[j])
    ensures WordEnd(s, i) == j
    decreases j - i
  {
    if i < j {
      WordEndUnique(s, i + 1, j);
    }
  }

  /** A maximal non-space prefix is the first word. */
  lemma {:induction false} WordsSplit(s: string, n: nat)
    requires 0 < n <= |s|
    requires forall k :: 0 <= k < n ==> !IsSpace(s[k])
    requires n == |s| || IsSpace(s[n])
    ensures Words(s) == [s[..n]] + Words(s[n..])
  {
    WordEndUnique(s, 0, n);
  }

  /** Leading white space does not change the words. */
  lemma {:induction false} WordsLeadingSpace(pad: string, s: string)
    requires forall k :: 0 <= k < |pad| ==> IsSpace(pad[k])
    ensures Words(pad + s) == Words(s)
    decreases |pad|
  {
    if pad != [] {
      var t := pad + s;
      assert t[0] == pad[0];
      assert t[1..] == pad[1..] + s;
      assert Words(t) == Words(t[1..]);
      WordsLeadingSpace(pad[1..], s);
    } else {
      assert pad + s == s;
    }
  }

  /** Appending a run that starts with white space does not move the end of a word inside s. */
  lemma {:induction false} WordEndAppend(s: string, t: string, i: nat)
    requires i <= |s|
    requires t == [] || IsSpace(t[0])
    ensures WordEnd(s + t, i) == WordEnd(s, i)
  {
    var j := WordEnd(s, i);
    WordEndShape(s, i);
    WordEndUnique(s + t, i, j);
  }

  /** A white-space first character is skipped. */
  lemma WordsSkipSpace(s: string)
    requires s != [] && IsSpace(s[0])
    ensures Words(s) == Words(s[1..])
  {
  }

  /** The text a + t, where a starts with a word of length n and t starts with white space. */
  lemma {:induction false} WordsFirstWord(a: string, t: string)
    requires a != [] && !IsSpace(a[0])
    requires t == [] || IsSpace(t[0])
    ensures WordEnd(a, 0) > 0
    ensures Words(a + t) == [a[..WordEnd(a, 0)]] + Words(a[WordEnd(a, 0)..] + t)
  {
    var n := WordEnd(a, 0);
    WordEndAppend(a, t, 0);
    assert (a + t)[0] == a[0];
    assert (a + t)[..n] == a[..n];
    assert (a + t)[n..] == a[n..] + t;
  }

  /** Only white space left: there are no words. */
  lemma AllSpace(pad: string)
    requires forall k :: 0 <= k < |pad| ==> IsSpace(pad[k])
    ensures Words(pad) == []
  {
    WordsLeadingSpace(pad, []);
    assert pad + [] == pad;
  }

  /** The step of WordsSpaceRun past a first word of a. */
  lemma WordsSpaceRunStep(a: string, t: string, t': string)
    requires a != [] && !IsSpace(a[0])
    requires t == [] || IsSpace(t[0])
    requires t' == [] || IsSpace(t'[0])
    requires Words(a[WordEnd(a, 0)..] + t) == Words(a[WordEnd(a, 0)..] + t')
    ensures Words(a + t) == Words(a + t')
  {
    WordsFirstWord(a, t);
    WordsFirstWord(a, t');
  }

  /**
   Replacing one non-empty run of white space by another, anywhere, or
   dropping white space at the end does not change the words: the words of
   a + pad + b are those of a + pad' + b whenever pad and pad' are white space
   and either both are non-empty or b is empty.
   */
  lemma {:induction false} WordsSpaceRun(a: string, pad: string, pad': string, b: string)
    requires forall k :: 0 <= k < |pad| ==> IsSpace(pad[k])
    requires forall k :: 0 <= k < |pad'| ==> IsSpace(pad'[k])
    requires (pad != [] && pad' != []) || b == []
    ensures Words(a + (pad + b)) == Words(a + (pad' + b))
    decreases |a|
  {
    var t, t' := pad + b, pad' + b;
    if a == [] {
      assert a + t == t && a + t' == t';
      if b == [] {
        assert t == pad && t' == pad';
        AllSpace(pad);
        AllSpace(pad');
      } else {
        WordsLeadingSpace(pad, b);
        WordsLeadingSpace(pad', b);
      }
    } else if IsSpace(a[0]) {
      WordsSpaceRun(a[1..], pad, pad', b);
      WordsSkipSpace(a + t);
      WordsSkipSpace(a + t');
      assert (a + t)[1..] == a[1..] + t;
      assert (a + t')[1..] == a[1..] + t';
    } else {
      assert t == [] || IsSpace(t[0]);
      assert t' == [] || IsSpace(t'[0]);
      WordsSpaceRun(a[WordEnd(a, 0)..], pad, pad', b);
      WordsSpaceRunStep(a, t, t');
    }
  }

  /** Trailing white space does not change the words. */
  lemma WordsTrailingSpace(s: string, pad: string)
    requires forall k :: 0 <= k < |pad| ==> IsSpace(pad[k])
    ensures Words(s + pad) == Words(s)
  {
    WordsSpaceRun(s, pad, [], []);
    assert s + (pad + []) == s + pad && s + ([] + []) == s;
  }

  /** The words of a word, a white space and more text. */
  lemma WordsCons(w: string, c: char, rest: string)
    requires IsWord(w) && IsSpace(c)
    ensures Words(w + [c] + rest) == [w] + Words(rest)
  {
    var s := w + [c] + rest;
    WordsSplit(s, |w|);
    assert s[..|w|] == w;
    assert s[|w|..] == [c] + rest;
    assert ([c] + rest)[1..] == rest;
  }

  /** A text that is one word. */
  lemma WordsSingle(w: string)
    requires IsWord(w)
    ensures Words(w) == [w]
  {
    WordsSplit(w, |w|);
    assert w[..|w|] == w && w[|w|..] == [];
  }

  /** Words joined by single spaces. */
  function Join(ws: seq<string>): string
    decreases |ws|
  {
    if ws == [] then "" else if |ws| == 1 then ws[0] else ws[0] + " " + Join(ws[1..])
  }

  /** Splitting undoes joining: the words of the joined words are those words. */
  lemma {:induction false} WordsJoin(ws: seq<string>)
    requires forall k :: 0 <= k < |ws| ==> IsWord(ws[k])
    ensures Words(Join(ws)) == ws
    decreases |ws|
  {
    if |ws| == 1 {
      WordsSingle(ws[0]);
    } else if |ws| > 1 {
      WordsJoin(ws[1..]);
      WordsCons(ws[0], ' ', Join(ws[1..]));
      assert ws[0] + " " + Join(ws[1..]) == ws[0] + [' '] + Join(ws[1..]);
      assert ws == [ws[0]] + ws[1..];
    }
  }

  /**
   `sentence >> word` from position pos: skips white space, then reads a
   maximal run of non-space characters; it fails when only white space is left.
   */
  method NextWord(text: string, pos: nat) returns (found: bool, word: string, next: nat)
    requires pos <= |text|
    ensures pos <= next <= |text|
    ensures found ==> pos < next && word != [] && Words(text[pos..]) == [word] + Words(text[next..])
    ensures !found ==> Words(text[pos..]) == []
  {
    var i := pos;
    while i < |text| && IsSpace(text[i])
      invariant pos <= i <= |text|
      invariant Words(text[pos..]) == Words(text[i..])
    {
      SkipSpaceAt(text, i);
      i := i + 1;
    }
    if i == |text| {
      return false, "", i;
    }
    var j := i;
    while j < |text| && !IsSpace(text[j])
      invariant i <= j <= |text|
      invariant forall k :: i <= k < j ==> !IsSpace(text[k])
    {
      j := j + 1;
    }
    WordAt(text, i, j);
    return true, text[i..j], j;
  }

  /** The white space at position i of the text is skipped. */
  lemma SkipSpaceAt(text: string, i: nat)
    requires i < |text| && IsSpace(text[i])
    ensures Words(text[i..]) == Words(text[i + 1..])
  {
    assert text[i..][1..] == text[i + 1..];
    WordsSkipSpace(text[i..]);
  }

  /** A maximal run of non-space characters text[i..j] is the first word of text[i..]. */
  lemma WordAt(text: string, i: nat, j: nat)
    requires i < j <= |text|
    requires forall k :: i <= k < j ==> !IsSpace(text[k])
    requires j == |text| || IsSpace(text[j])
    ensures Words(text[i..]) == [text[i..j]] + Words(text[j..])
  {
    var s := text[i..];
    forall k | 0 <= k < j - i ensures !IsSpace(s[k]) {
      assert s[k] == text[i + k];
    }
    if j < |text| {
      assert s[j - i] == text[j];
    }
    WordsSplit(s, j - i);
    assert s[..j - i] == text[i..j];
    assert s[j - i..] == text[j..];
  }

  /** The terms of one word: {} when it cleans to "". */
  function TermOf(w: string): set<string>
  {
    if Clean(w) == "" then {} else {Clean(w)}
  }

  /** The terms of a sequence of words. */
  function TermsOf(ws: seq<string>): set<string>
    decreases |ws|
  {
    if ws == [] then {} else TermsOf(ws[..|ws| - 1]) + TermOf(ws[|ws| - 1])
  }

  /** Reading one more word adds its term, if any. */
  lemma TermsOfSnoc(ws: seq<string>, w: string)
    ensures TermsOf(ws + [w]) == TermsOf(ws) + TermOf(w)
  {
    assert (ws + [w])[..|ws|] == ws;
  }

  /** Reference definition of the token set of a text. */
  function Tokens(text: string): set<string>
  {
    TermsOf(Words(text))
  }

  /** A term is gathered exactly when some word cleans to it; "" is never gathered. */
  lemma TermsOfMembers(ws: seq<string>, t: string)
    ensures t in TermsOf(ws) <==> t != "" && exists k :: 0 <= k < |ws| && Clean(ws[k]) == t
  {
    if t in TermsOf(ws) {
      TermsOfSound(ws, t);
    }
    if t != "" && exists k :: 0 <= k < |ws| && Clean(ws[k]) == t {
      var k :| 0 <= k < |ws| && Clean(ws[k]) == t;
      TermsOfComplete(ws, k);
    }
  }

  /** Every gathered term is the non-empty term of some word. */
  lemma {:induction false} TermsOfSound(ws: seq<string>, t: string)
    requires t in TermsOf(ws)
    ensures t != "" && exists k :: 0 <= k < |ws| && Clean(ws[k]) == t
    decreases |ws|
  {
    var init := ws[..|ws| - 1];
    if t in TermsOf(init) {
      TermsOfSound(init, t);
      var k :| 0 <= k < |init| && Clean(init[k]) == t;
      assert ws[k] == init[k];
    } else {
      assert Clean(ws[|ws| - 1]) == t;
    }
  }

  /** The non-empty term of every word is gathered. */
  lemma {:induction false} TermsOfComplete(ws: seq<string>, k: nat)
    requires k < |ws| && Clean(ws[k]) != ""
    ensures Clean(ws[k]) in TermsOf(ws)
    decreases |ws|
  {
    if k < |ws| - 1 {
      var init := ws[..|ws| - 1];
      TermsOfComplete(init, k);
      assert init[k] == ws[k];
    }
  }

  /** `gatherTokens`: the set of non-empty terms of the words of the text. */
  lemma TokensMembers(text: string, t: string)
    ensures t in Tokens(text) <==> t != "" && exists w :: w in Words(text) && Clean(w) == t
  {
    var ws := Words(text);
    TermsOfMembers(ws, t);
    if exists w :: w in ws && Clean(w) == t {
      var w :| w in ws && Clean(w) == t;
      var k :| 0 <= k < |ws| && ws[k] == w;
      assert Clean(ws[k]) == t;
    }
  }

  /** A text of one word that holds a letter has exactly that word's term as its tokens. */
  lemma OneWordTokens(text: string)
    requires |Words(text)| == 1 && HasLetter(Words(text)[0])
    ensures Tokens(text) == {Clean(Words(text)[0])}
  {
    var ws := Words(text);
    CleanEmptyIff(ws[0]);
    assert ws[..|ws| - 1] == [];
    assert TermsOf(ws) == TermsOf([]) + TermOf(ws[0]);
    assert TermOf(ws[0]) == {Clean(ws[0])};
  }

  /** Only the words matter: white space at either end, or repeated between words, leaves the tokens alone. */
  lemma TokensSpaceInsensitive(a: string, pad: string, pad': string, b: string)
    requires forall k :: 0 <= k < |pad| ==> IsSpace(pad[k])
    requires forall k :: 0 <= k < |pad'| ==> IsSpace(pad'[k])
    requires (pad != [] && pad' != []) || b == []
    ensures Tokens(a + pad + b) == Tokens(a + pad' + b)
    ensures Tokens(pad + a) == Tokens(a)
  {
    WordsSpaceRun(a, pad, pad', b);
    assert a + (pad + b) == a + pad + b && a + (pad' + b) == a + pad' + b;
    WordsLeadingSpace(pad, a);
  }

  /** `gatherTokens`: read each word, clean it, keep the non-empty results. */
  method GatherTokens(text: string) returns (tokenSet: set<string>)
    ensures tokenSet == Tokens(text)
  {
    tokenSet := {};
    ghost var read: seq<string> := [];
    var pos := 0;
    while true
      invariant pos <= |text|
      invariant Words(text) == read + Words(text[pos..])
      invariant tokenSet == TermsOf(read)
      decreases |text| - pos
    {
      var found, word, next := NextWord(text, pos);
      if !found {
        break;
      }
      assert Words(text) == (read + [word]) + Words(text[next..]) by {
        assert read + ([word] + Words(text[next..])) == (read + [word]) + Words(text[next..]);
      }
      TermsOfSnoc(read, word);
      read := read + [word];
      word := CleanToken(word);
      if word != "" {
        tokenSet := tokenSet + {word};
      }
      pos := next;
    }
    assert Words(text) == read by {
      assert read + [] == read;
    }
  }

  /** `findNumWordsInString`: the number of whitespace-separated words. */
  method FindNumWordsInString(line: string) returns (wordCount: nat)
    ensures wordCount == |Words(line)|
  {
    wordCount := 0;
    var pos := 0;
    while true
      invariant pos <= |line|
      invariant |Words(line)| == wordCount + |Words(line[pos..])|
      decreases |line| - pos
    {
      var found, word, next := NextWord(line, pos);
      if !found {
        break;
      }
      wordCount := wordCount + 1;
      pos := next;
    }
  }
}
