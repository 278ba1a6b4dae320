/**
 The tokenizer scenarios of the tests, stated for any words that are their
 own terms: repeated words give one term, and white space before, between
 and after the words does not matter.
 */
module TextExamples {
  import opened Chars
  import opened Tokenizer
  import opened Text

  /** "to be ora not to be": the repeated words give one term each. */
  lemma RepeatedWordsOneTerm(a: string, b: string, c: string, d: string)
    requires IsWord(a) && IsWord(b) && IsWord(c) && IsWord(d)
    requires Clean(a) == a && Clean(b) == b && Clean(c) == c && Clean(d) == d
    ensures Tokens(Join([a, b, c, d, a, b])) == {a, b, c, d}
  {
    var ws := [a, b, c, d, a, b];
    forall k | 0 <= k < |ws| ensures IsWord(ws[k]) && Clean(ws[k]) == ws[k] {
      if k == 0 || k == 4 {} else if k == 1 || k == 5 {} else if k == 2 {} else {}
    }
    WordsJoin(ws);
    OwnTerms(ws, {a, b, c, d});
  }

  /** Words that are their own terms are gathered as they are, each once. */
  lemma OwnTerms(ws: seq<string>, terms: set<string>)
    requires forall k :: 0 <= k < |ws| ==> ws[k] != "" && Clean(ws[k]) == ws[k]
    requires forall t :: t in ws <==> t in terms
    ensures TermsOf(ws) == terms
  {
    forall t ensures t in TermsOf(ws) <==> t in terms {
      TermsOfMembers(ws, t);
      if t in ws {
        var k :| 0 <= k < |ws| && ws[k] == t;
        assert Clean(ws[k]) == t;
      }
    }
  }

  /**
   "   to   be  ora not  to   be   ": leading, trailing and repeated spaces
   give the same terms as the single-spaced text.
   */
  lemma PaddedText(lead: string, a: string, gap: string, b: string, trail: string)
    requires forall k :: 0 <= k < |lead| ==> IsSpace(lead[k])
    requires forall k :: 0 <= k < |gap| ==> IsSpace(gap[k])
    requires forall k :: 0 <= k < |trail| ==> IsSpace(trail[k])
    requires gap != []
    ensures Tokens(lead + (a + gap + b) + trail) == Tokens(a + " " + b)
  {
    TokensSpaceInsensitive(lead + (a + gap + b), trail, "", "");
    assert lead + (a + gap + b) + trail + "" == lead + (a + gap + b) + trail;
    assert lead + (a + gap + b) + "" + "" == lead + (a + gap + b);
    TokensSpaceInsensitive(a + gap + b, lead, lead, "");
    assert lead + (a + gap + b) + "" == lead + (a + gap + b);
    TokensSpaceInsensitive(a, gap, " ", b);
  }
}
