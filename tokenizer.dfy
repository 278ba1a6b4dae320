/**
 The token normaliser `cleanToken`: a raw word becomes a search term by
 losing its leading and trailing punctuation and being lowercased; a word
 without a letter becomes the empty string, which stands for "no term".
 */
module Tokenizer {
  import opened Chars

  /** How many punctuation characters the word starts with. */
  function LeadingPunct(s: string): (n: nat)
    ensures n <= |s|
    decreases |s|
  {
    if s != [] && IsPunct(s[0]) then 1 + LeadingPunct(s[1..]) else 0
  }

  /** How many punctuation characters the word ends with. */
  function TrailingPunct(s: string): (n: nat)
    ensures n <= |s|
    decreases |s|
  {
    if s != [] && IsPunct(s[|s| - 1]) then 1 + TrailingPunct(s[..|s| - 1]) else 0
  }

  /** The word without its leading punctuation. */
  function StripLeading(s: string): string
  {
    s[LeadingPunct(s)..]
  }

  /** The word without its trailing punctuation. */
  function StripTrailing(s: string): string
  {
    s[..|s| - TrailingPunct(s)]
  }

  /** The leading run is all punctuation, and it stops at a non-punctuation character or the end. */
  lemma {:induction false} LeadingShape(s: string)
    ensures forall k :: 0 <= k < LeadingPunct(s) ==> IsPunct(s[k])
    ensures LeadingPunct(s) == |s| || !IsPunct(s[LeadingPunct(s)])
    decreases |s|
  {
    if s != [] && IsPunct(s[0]) {
      var t := s[1..];
      LeadingShape(t);
      forall k | 1 <= k < LeadingPunct(s) ensures IsPunct(s[k]) {
        assert s[k] == t[k - 1];
      }
      if LeadingPunct(t) < |t| {
        assert s[LeadingPunct(s)] == t[LeadingPunct(t)];
      }
    }
  }

  /** The trailing run is all punctuation, and it stops at a non-punctuation character or the start. */
  lemma {:induction false} TrailingShape(s: string)
    ensures forall k :: |s| - TrailingPunct(s) <= k < |s| ==> IsPunct(s[k])
    ensures TrailingPunct(s) == |s| || !IsPunct(s[|s| - TrailingPunct(s) - 1])
    decreases |s|
  {
    if s != [] && IsPunct(s[|s| - 1]) {
      var t := s[..|s| - 1];
      TrailingShape(t);
      forall k | |s| - TrailingPunct(s) <= k < |s| - 1 ensures IsPunct(s[k]) {
        assert s[k] == t[k];
      }
      if TrailingPunct(t) < |t| {
        assert s[|s| - TrailingPunct(s) - 1] == t[|t| - TrailingPunct(t) - 1];
      }
    }
  }

  /** Dropping one leading punctuation character does not change what stripping leaves. */
  lemma StripLeadingStep(s: string)
    requires s != [] && IsPunct(s[0])
    ensures StripLeading(s[1..]) == StripLeading(s)
  {
    assert s[1..][LeadingPunct(s[1..])..] == s[1 + LeadingPunct(s[1..])..];
  }

  /** Dropping one trailing punctuation character does not change what stripping leaves. */
  lemma StripTrailingStep(s: string)
    requires s != [] && IsPunct(s[|s| - 1])
    ensures StripTrailing(s[..|s| - 1]) == StripTrailing(s)
  {
    var t := s[..|s| - 1];
    assert t[..|t| - TrailingPunct(t)] == s[..|s| - 1 - TrailingPunct(t)];
  }

  /** A word that does not start with punctuation is left as it is by the leading strip. */
  lemma NoLeadingPunct(s: string)
    requires s == [] || !IsPunct(s[0])
    ensures StripLeading(s) == s
  {
    assert s[0..] == s;
  }

  /** A word that does not end with punctuation is left as it is by the trailing strip. */
  lemma NoTrailingPunct(s: string)
    requires s == [] || !IsPunct(s[|s| - 1])
    ensures StripTrailing(s) == s
  {
    assert s[..|s|] == s;
  }

  /** Reference definition of the term a raw word stands for ("" = none). */
  function Clean(s: string): string
  {
    if HasLetter(s) then Lower(StripTrailing(StripLeading(s))) else ""
  }

  /** Index of the first character kept by `Clean`. */
  function Start(s: string): nat
  {
    LeadingPunct(s)
  }

  /** Index just past the last character kept by `Clean`, for a word with a letter. */
  function Stop(s: string): nat
  {
    |s| - TrailingPunct(s)
  }

  /** A letter is never punctuation, so stripping keeps every letter. */
  lemma StripKeepsLetter(s: string, i: nat)
    requires i < |s| && IsAlpha(s[i])
    ensures Start(s) <= i < Stop(s)
  {
    LeadingShape(s);
    TrailingShape(s);
  }

  /** Cutting a word before its trailing punctuation run starts leaves that run as it is. */
  lemma {:induction false} TrailingOfSuffix(s: string, a: nat)
    requires a <= |s| - TrailingPunct(s)
    ensures TrailingPunct(s[a..]) == TrailingPunct(s)
    decreases |s|
  {
    var u := s[a..];
    if s != [] && IsPunct(s[|s| - 1]) {
      var t := s[..|s| - 1];
      TrailingOfSuffix(t, a);
      assert u[|u| - 1] == s[|s| - 1];
      assert u[..|u| - 1] == t[a..];
    } else if u != [] {
      assert u[|u| - 1] == s[|s| - 1];
    }
  }

  /** The result is "" exactly when the word has no letter. */
  lemma {:induction false} CleanEmptyIff(s: string)
    ensures Clean(s) == "" <==> !HasLetter(s)
  {
    if HasLetter(s) {
      var i :| 0 <= i < |s| && IsAlpha(s[i]);
      StripKeepsLetter(s, i);
      StripBoth(s, Start(s), Stop(s));
      assert |Clean(s)| == Stop(s) - Start(s) > 0;
    }
  }

  /** A one-character word: punctuation or a digit gives "", a letter gives its lower-case form. */
  lemma OneCharacter(s: string)
    requires |s| == 1
    ensures IsAlpha(s[0]) ==> Clean(s) == [ToLower(s[0])]
    ensures !IsAlpha(s[0]) ==> Clean(s) == ""
  {
    if IsAlpha(s[0]) {
      assert HasLetter(s);
      NoLeadingPunct(s);
      NoTrailingPunct(s);
    } else {
      assert !HasLetter(s);
    }
  }

  /**
   For a word with a letter, the two strips keep the non-empty slice
   s[Start(s)..Stop(s)], which starts and ends with a non-punctuation
   character, and everything around it is punctuation.
   */
  lemma {:induction false} StripSlice(s: string)
    requires HasLetter(s)
    ensures 0 <= Start(s) < Stop(s) <= |s|
    ensures StripTrailing(StripLeading(s)) == s[Start(s)..Stop(s)]
    ensures forall k :: 0 <= k < Start(s) ==> IsPunct(s[k])
    ensures forall k :: Stop(s) <= k < |s| ==> IsPunct(s[k])
    ensures !IsPunct(s[Start(s)]) && !IsPunct(s[Stop(s) - 1])
  {
    var i :| 0 <= i < |s| && IsAlpha(s[i]);
    StripKeepsLetter(s, i);
    LeadingShape(s);
    TrailingShape(s);
    StripBoth(s, Start(s), Stop(s));
  }

  /** Stripping both ends of a word with a letter keeps the slice between the two punctuation runs. */
  lemma StripBoth(s: string, a: nat, b: nat)
    requires a == LeadingPunct(s) && b == |s| - TrailingPunct(s) && a <= b
    ensures StripTrailing(StripLeading(s)) == s[a..b]
  {
    TrailingOfSuffix(s, a);
    var l := s[a..];
    assert l[..|l| - TrailingPunct(l)] == s[a..b];
  }

  /**
   The shape of a non-empty term: it is the lowered slice s[Start(s)..Stop(s)],
   everything before and after the slice is punctuation, the slice starts and
   ends with a non-punctuation character, it holds a letter, and every
   character of the slice that is not an upper-case letter (interior
   punctuation, digits) is kept as it is.
   */
  lemma {:induction false} CleanShape(s: string)
    requires HasLetter(s)
    ensures 0 <= Start(s) < Stop(s) <= |s|
    ensures Clean(s) == Lower(s[Start(s)..Stop(s)])
    ensures forall k :: 0 <= k < Start(s) ==> IsPunct(s[k])
    ensures forall k :: Stop(s) <= k < |s| ==> IsPunct(s[k])
    ensures !IsPunct(s[Start(s)]) && !IsPunct(s[Stop(s) - 1])
    ensures HasLetter(Clean(s)) && IsLowerCase(Clean(s))
    ensures forall k :: Start(s) <= k < Stop(s) && !IsUpper(s[k]) ==> Clean(s)[k - Start(s)] == s[k]
  {
    StripSlice(s);
    var m := s[Start(s)..Stop(s)];
    assert HasLetter(m) by {
      var i :| 0 <= i < |s| && IsAlpha(s[i]);
      StripKeepsLetter(s, i);
      assert m[i - Start(s)] == s[i];
    }
    LowerKeepsLetters(m);
  }

  /** A word that is already a term is its own term. */
  lemma {:induction false} CleanOfTerm(t: string)
    requires HasLetter(t) && IsLowerCase(t)
    requires !IsPunct(t[0]) && !IsPunct(t[|t| - 1])
    ensures Clean(t) == t
  {
    assert StripLeading(t) == t;
    assert StripTrailing(t) == t;
    LowerOfLowerCase(t);
  }

  /** Cleaning is idempotent: a term cleans to itself. */
  lemma {:induction false} CleanIdempotent(s: string)
    ensures Clean(Clean(s)) == Clean(s)
  {
    if HasLetter(s) {
      CleanShape(s);
      var t := Clean(s);
      assert t[0] == ToLower(s[Start(s)]);
      assert t[|t| - 1] == ToLower(s[Stop(s) - 1]);
      CleanOfTerm(t);
    }
  }

  /**
   A leading punctuation character, such as the query modifiers '+' and '-',
   does not change the term.
   */
  lemma {:induction false} CleanIgnoresLeadingPunct(c: char, w: string)
    requires IsPunct(c)
    ensures Clean([c] + w) == Clean(w)
  {
    var s := [c] + w;
    assert s[1..] == w;
    assert StripLeading(s) == StripLeading(w);
    if HasLetter(w) {
      var i :| 0 <= i < |w| && IsAlpha(w[i]);
      assert IsAlpha(s[i + 1]);
    } else {
      assert !HasLetter(s) by {
        forall i | 0 <= i < |s| ensures !IsAlpha(s[i]) {
          if i > 0 { assert s[i] == w[i - 1]; }
        }
      }
    }
  }

  /** Leading punctuation in front of a non-punctuation character is stripped, and nothing more. */
  lemma {:induction false} StripLeadingPrefix(pre: string, s: string)
    requires forall k :: 0 <= k < |pre| ==> IsPunct(pre[k])
    requires s != [] && !IsPunct(s[0])
    ensures StripLeading(pre + s) == s
    decreases |pre|
  {
    if pre == [] {
      assert pre + s == s;
    } else {
      assert (pre + s)[0] == pre[0];
      assert (pre + s)[1..] == pre[1..] + s;
      StripLeadingPrefix(pre[1..], s);
    }
  }

  /** Trailing punctuation after a non-punctuation character is stripped, and nothing more. */
  lemma {:induction false} StripTrailingSuffix(s: string, post: string)
    requires forall k :: 0 <= k < |post| ==> IsPunct(post[k])
    requires s != [] && !IsPunct(s[|s| - 1])
    ensures StripTrailing(s + post) == s
    decreases |post|
  {
    if post == [] {
      assert s + post == s;
    } else {
      var p := post[..|post| - 1];
      assert (s + post)[|s + post| - 1] == post[|post| - 1];
      assert (s + post)[..|s + post| - 1] == s + p;
      StripTrailingSuffix(s, p);
    }
  }

  /**
   The converse of CleanShape: a core that begins and ends with
   non-punctuation and holds a letter, wrapped in any punctuation, cleans to
   the lowered core.
   */
  lemma {:induction false} CleanUnwraps(pre: string, core: string, post: string)
    requires forall k :: 0 <= k < |pre| ==> IsPunct(pre[k])
    requires forall k :: 0 <= k < |post| ==> IsPunct(post[k])
    requires HasLetter(core) && !IsPunct(core[0]) && !IsPunct(core[|core| - 1])
    ensures Clean(pre + core + post) == Lower(core)
  {
    var s := pre + core + post;
    assert s == pre + (core + post);
    assert (core + post)[0] == core[0];
    StripLeadingPrefix(pre, core + post);
    StripTrailingSuffix(core, post);
    var i :| 0 <= i < |core| && IsAlpha(core[i]);
    assert s[|pre| + i] == core[i];
  }

  /** A lower-case core wrapped in punctuation cleans to the core. */
  lemma CleanWrapped(pre: string, core: string, post: string, s: string)
    requires s == pre + core + post
    requires forall k :: 0 <= k < |pre| ==> IsPunct(pre[k])
    requires forall k :: 0 <= k < |post| ==> IsPunct(post[k])
    requires core != [] && IsLowerCase(core) && HasLetter(core)
    requires !IsPunct(core[0]) && !IsPunct(core[|core| - 1])
    ensures Clean(s) == core
  {
    CleanUnwraps(pre, core, post);
    LowerOfLowerCase(core);
  }

  /** Examples from the tests of `cleanToken`: punctuation at both ends goes. */
  lemma CleanExampleEnds()
    ensures Clean(".!?hello?!.") == "hello"
  {
    assert IsAlpha("hello"[0]);
    CleanWrapped(".!?", "hello", "?!.", ".!?hello?!.");
  }

  /** Examples from the tests of `cleanToken`: punctuation inside stays. */
  lemma CleanExampleMiddle()
    ensures Clean("?!.he..llo") == "he..llo"
  {
    assert IsAlpha("he..llo"[0]);
    CleanWrapped("?!.", "he..llo", "", "?!.he..llo");
  }

  /** Examples from the tests of `cleanToken`: digits at an end stay. */
  lemma CleanExampleDigits()
    ensures Clean("123he.llo?!..") == "123he.llo"
  {
    assert IsAlpha("123he.llo"[3]);
    CleanWrapped("", "123he.llo", "?!..", "123he.llo?!..");
  }

  /** Examples from the tests of `cleanToken`: one-character words. */
  lemma CleanExampleOneChar()
    ensures Clean("!") == "" && Clean("1") == "" && Clean("x") == "x"
  {
    OneCharacter("!");
    OneCharacter("1");
    OneCharacter("x");
  }

  /**
   `cleanToken`, step by step: count the letters, treat a one-character word
   apart, strip leading then trailing punctuation, count the letters again,
   and lower the rest character by character.
   */
  method CleanToken(word: string) returns (r: string)
    ensures r == Clean(word)
  {
    var s := word;
    var letterCt := CountLetters(s);
    if letterCt == 0 {
      return "";
    }

    if |s| == 1 {
      if IsPunct(s[0]) {
        return "";
      } else {
        OneCharacter(s);
        return [ToLower(s[0])];
      }
    }

    ghost var letter :| 0 <= letter < |s| && IsAlpha(s[letter]);
    ghost var stripped := StripLeading(word);
    while IsPunct(s[0])
      invariant 0 <= letter < |s| && IsAlpha(s[letter])
      invariant StripLeading(s) == stripped
      decreases |s|
    {
      StripLeadingStep(s);
      assert 0 < letter && s[1..][letter - 1] == s[letter];
      s := s[1..];
      letter := letter - 1;
    }
    NoLeadingPunct(s);

    var last := |s| - 1;
    while IsPunct(s[last])
      invariant 0 <= letter < |s| && IsAlpha(s[letter])
      invariant last == |s| - 1
      invariant StripTrailing(s) == StripTrailing(stripped)
      decreases |s|
    {
      StripTrailingStep(s);
      assert letter < last && s[..last][letter] == s[letter];
      s := s[..last];
      if |s| == 0 {
        return "";
      }
      last := |s| - 1;
    }
    NoTrailingPunct(s);
    assert HasLetter(word);

    letterCt := CountLetters(s);
    if letterCt == 0 {
      return "";
    }

    var lowerCaseTemp := LowerCopy(s);
    s := lowerCaseTemp;
    return s;
  }

  /** The letter-counting loop `cleanToken` runs twice: the count is 0 exactly when there is no letter. */
  method CountLetters(s: string) returns (letterCt: nat)
    ensures letterCt == 0 <==> !HasLetter(s)
    ensures letterCt <= |s|
  {
    letterCt := 0;
    for i := 0 to |s|
      invariant letterCt <= i
      invariant letterCt == 0 <==> forall k :: 0 <= k < i ==> !IsAlpha(s[k])
    {
      if IsAlpha(s[i]) {
        letterCt := letterCt + 1;
      }
    }
  }

  /** The lowering loop of `cleanToken`: `lowerCaseTemp` gets each character lowered, in order. */
  method LowerCopy(s: string) returns (lowerCaseTemp: string)
    ensures lowerCaseTemp == Lower(s)
  {
    lowerCaseTemp := "";
    for i := 0 to |s|
      invariant |lowerCaseTemp| == i
      invariant forall k :: 0 <= k < i ==> lowerCaseTemp[k] == ToLower(s[k])
    {
      lowerCaseTemp := lowerCaseTemp + [ToLower(s[i])];
    }
  }
}
