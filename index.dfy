/**
 The inverted-index builder `buildIndex`: a corpus of alternating lines
 (a document id, then that document's text) becomes a map from each term to
 the set of ids of the documents whose text holds it. The build adds to the
 map the caller passes in.
 */
module Indexing {
  import opened Text

  /** term -> posting set (the ids of the documents that hold the term). */
  type Index = map<string, set<string>>

  /** The caller's map, which `buildIndex` updates in place. */
  class InvertedIndex {
    var entries: Index

    constructor ()
      ensures entries == map[]
    {
      entries := map[];
    }
  }

  /**
   The data file: whether it could be opened, and its lines. Line 2k+1
   (1-based) is the id of document k, line 2k+2 its text.
   */
  datatype Source = Source(isOpen: bool, lines: seq<string>)

  /** One document as the index sees it: its id and the terms of its text. */
  datatype Doc = Doc(id: string, terms: set<string>)

  /** The complete (id, text) pairs of the lines, in order; an unpaired last line is not a document. */
  function Docs(lines: seq<string>): seq<Doc>
  {
    seq(|lines| / 2, k requires 0 <= k < |lines| / 2 => DocOf(lines, k))
  }

  /** Document k: the id on line 2k and the terms of the text on line 2k+1 (0-based). */
  function DocOf(lines: seq<string>, k: nat): Doc
    requires 2 * k + 1 < |lines|
  {
    Doc(lines[2 * k], Tokens(lines[2 * k + 1]))
  }

  /** The index with document `d` posted under each of its terms. */
  function AddDoc(m: Index, d: Doc): Index
  {
    map t | t in m.Keys + d.terms :: (if t in m then m[t] else {}) + (if t in d.terms then {d.id} else {})
  }

  /** A document without terms changes nothing. */
  lemma AddNoTerms(m: Index, id: string)
    ensures AddDoc(m, Doc(id, {})) == m
  {
    var r := AddDoc(m, Doc(id, {}));
    assert r.Keys == m.Keys;
    forall t | t in m ensures r[t] == m[t] {
      assert r[t] == m[t] + {};
    }
  }

  /** Posting one more term of a document, as the inner loop of buildIndex does. */
  lemma AddOneTerm(m: Index, d: Doc, t: string)
    ensures AddDoc(m, d)[t := (if t in AddDoc(m, d) then AddDoc(m, d)[t] else {}) + {d.id}]
            == AddDoc(m, d.(terms := d.terms + {t}))
  {
    var a := AddDoc(m, d);
    var l := a[t := (if t in a then a[t] else {}) + {d.id}];
    var r := AddDoc(m, d.(terms := d.terms + {t}));
    assert l.Keys == r.Keys;
    forall u | u in l ensures l[u] == r[u] {
      if u == t {
        assert l[u] == (if t in m then m[t] else {}) + {d.id};
      }
    }
  }

  /** Reference definition: m with the documents added, in order. */
  function Build(m: Index, docs: seq<Doc>): Index
    decreases |docs|
  {
    if docs == [] then m else AddDoc(Build(m, docs[..|docs| - 1]), docs[|docs| - 1])
  }

  /** One more document, added last. */
  lemma BuildSnoc(m: Index, docs: seq<Doc>, n: nat)
    requires n < |docs|
    ensures Build(m, docs[..n + 1]) == AddDoc(Build(m, docs[..n]), docs[n])
  {
    assert docs[..n + 1][..n] == docs[..n];
  }

  /** The index after reading every complete (id, text) pair of `lines`. */
  function Indexed(m: Index, lines: seq<string>): Index
  {
    Build(m, Docs(lines))
  }

  /**
   The build is exact and additive: d is posted under t afterwards exactly
   when it was posted before, or one of the documents has id d and holds t.
   */
  lemma {:induction false} BuildPostings(m: Index, docs: seq<Doc>, t: string, d: string)
    ensures (t in Build(m, docs) && d in Build(m, docs)[t]) <==>
            (t in m && d in m[t]) || exists k :: 0 <= k < |docs| && docs[k].id == d && t in docs[k].terms
    decreases |docs|
  {
    if docs != [] {
      var init := docs[..|docs| - 1];
      BuildPostings(m, init, t, d);
      if exists k :: 0 <= k < |docs| && docs[k].id == d && t in docs[k].terms {
        var k :| 0 <= k < |docs| && docs[k].id == d && t in docs[k].terms;
        if k < |init| {
          assert init[k] == docs[k];
        }
      }
      if exists k :: 0 <= k < |init| && init[k].id == d && t in init[k].terms {
        var k :| 0 <= k < |init| && init[k].id == d && t in init[k].terms;
        assert docs[k] == init[k];
      }
    }
  }

  /** The terms of the index are the old terms and those of the documents. */
  lemma {:induction false} BuildKeys(m: Index, docs: seq<Doc>, t: string)
    ensures t in Build(m, docs) <==> t in m || exists k :: 0 <= k < |docs| && t in docs[k].terms
    decreases |docs|
  {
    if docs != [] {
      var init := docs[..|docs| - 1];
      BuildKeys(m, init, t);
      if exists k :: 0 <= k < |docs| && t in docs[k].terms {
        var k :| 0 <= k < |docs| && t in docs[k].terms;
        if k < |init| {
          assert init[k] == docs[k];
        }
      }
      if exists k :: 0 <= k < |init| && t in init[k].terms {
        var k :| 0 <= k < |init| && t in init[k].terms;
        assert docs[k] == init[k];
      }
    }
  }

  /** No term maps to an empty posting set, if none did before. */
  lemma {:induction false} BuildNoEmptyPostings(m: Index, docs: seq<Doc>)
    requires forall t :: t in m ==> m[t] != {}
    ensures forall t :: t in Build(m, docs) ==> Build(m, docs)[t] != {}
    decreases |docs|
  {
    if docs != [] {
      BuildNoEmptyPostings(m, docs[..|docs| - 1]);
    }
  }

  /** Document k of `lines` has id d and its text holds term t. */
  predicate DocHasTerm(lines: seq<string>, k: nat, t: string, d: string)
  {
    2 * k + 1 < |lines| && lines[2 * k] == d && t in Tokens(lines[2 * k + 1])
  }

  /**
   After reading a corpus, d is posted under t exactly when it was before,
   or the text line of a document whose id line is d holds the term t.
   */
  lemma IndexedPostings(m: Index, lines: seq<string>, t: string, d: string)
    ensures (t in Indexed(m, lines) && d in Indexed(m, lines)[t]) <==>
            (t in m && d in m[t]) || exists k: nat :: DocHasTerm(lines, k, t, d)
  {
    var docs := Docs(lines);
    BuildPostings(m, docs, t, d);
    DocsHaveTerm(lines, t, d);
  }

  /** The documents of Docs(lines) are the (id, text) pairs of the lines. */
  lemma DocsHaveTerm(lines: seq<string>, t: string, d: string)
    ensures (exists k: nat :: DocHasTerm(lines, k, t, d)) <==>
            exists k :: 0 <= k < |Docs(lines)| && Docs(lines)[k].id == d && t in Docs(lines)[k].terms
  {
    var docs := Docs(lines);
    if exists k: nat :: DocHasTerm(lines, k, t, d) {
      var k: nat :| DocHasTerm(lines, k, t, d);
      DocAt(lines, k);
      assert docs[k].id == d && t in docs[k].terms;
    }
    if exists k :: 0 <= k < |docs| && docs[k].id == d && t in docs[k].terms {
      var k :| 0 <= k < |docs| && docs[k].id == d && t in docs[k].terms;
      DocAt(lines, k);
      assert DocHasTerm(lines, k, t, d);
    }
  }

  /** Document k is the pair of lines 2k and 2k+1 (0-based). */
  lemma DocAt(lines: seq<string>, k: nat)
    requires k < |lines| / 2
    ensures 2 * k + 1 < |lines| && Docs(lines)[k] == Doc(lines[2 * k], Tokens(lines[2 * k + 1]))
  {
  }

  /** A trailing id line with no text line after it adds nothing. */
  lemma UnpairedIdIgnored(m: Index, lines: seq<string>, id: string)
    requires |lines| % 2 == 0
    ensures Indexed(m, lines + [id]) == Indexed(m, lines)
  {
    assert Docs(lines + [id]) == Docs(lines);
  }

  /**
   The inner loop of `buildIndex`: the document's id is added to the posting
   set of each of its terms, one term at a time, in no particular order.
   */
  method PostTerms(entries: Index, id: string, words: set<string>) returns (posted: Index)
    ensures posted == AddDoc(entries, Doc(id, words))
  {
    posted := entries;
    var todo := words;
    AddNoTerms(entries, id);
    assert words - todo == {};
    while todo != {}
      invariant todo <= words
      invariant posted == AddDoc(entries, Doc(id, words - todo))
      decreases todo
    {
      var t :| t in todo;
      var posting := if t in posted then posted[t] else {};
      AddOneTerm(entries, Doc(id, words - todo), t);
      assert words - (todo - {t}) == (words - todo) + {t};
      posted := posted[t := posting + {id}];
      todo := todo - {t};
    }
    assert words - todo == words;
  }

  /**
   `buildIndex`: if the file cannot be opened the map is cleared and 0 is
   returned; otherwise every complete (id, text) pair is added to the
   caller's map and the number of text lines read is returned. The map is
   updated through a local copy that is stored back once every line is read;
   nothing else can observe it in between.
   */
  method BuildIndex(source: Source, index: InvertedIndex) returns (numURL: nat)
    modifies index
    ensures !source.isOpen ==> index.entries == map[] && numURL == 0
    ensures source.isOpen ==> numURL == |source.lines| / 2
    ensures source.isOpen ==> index.entries == Indexed(old(index.entries), source.lines)
  {
    if !source.isOpen {
      index.entries := map[];
      return 0;
    }
    var lines := source.lines;
    ghost var start := index.entries;
    var entries := index.entries;
    var lineNumber := 1;
    var urls: map<int, string> := map[];
    numURL := 0;
    while lineNumber <= |lines|
      invariant 1 <= lineNumber <= |lines| + 1
      invariant lineNumber == 2 * numURL + 1 || lineNumber == 2 * numURL + 2
      invariant entries == Build(start, Docs(lines)[..numURL])
      invariant lineNumber == 2 * numURL + 2 ==> lineNumber - 1 in urls && urls[lineNumber - 1] == lines[2 * numURL]
    {
      var line := lines[lineNumber - 1];
      Parity(lineNumber, numURL);
      if lineNumber % 2 == 0 {
        NextText(start, lines, numURL, urls[lineNumber - 1], line);
        entries := IndexText(entries, urls[lineNumber - 1], line);
        numURL := numURL + 1;
      } else {
        urls := urls[lineNumber := line];
      }
      lineNumber := lineNumber + 1;
    }
    AllDocs(lines, numURL);
    index.entries := entries;
  }

  /** One text line: its terms are gathered and the document's id is posted under each of them. */
  method IndexText(entries: Index, id: string, line: string) returns (posted: Index)
    ensures posted == AddDoc(entries, Doc(id, Tokens(line)))
  {
    var words := GatherTokens(line);
    posted := PostTerms(entries, id, words);
  }

  /** The text line 2n+1 (0-based) of a document whose id is on line 2n extends the build by that document. */
  lemma NextText(m: Index, lines: seq<string>, n: nat, id: string, text: string)
    requires 2 * n + 1 < |lines| && id == lines[2 * n] && text == lines[2 * n + 1]
    ensures Build(m, Docs(lines)[..n + 1]) == AddDoc(Build(m, Docs(lines)[..n]), Doc(id, Tokens(text)))
  {
    DocAt(lines, n);
    BuildSnoc(m, Docs(lines), n);
  }

  /** Line numbers (1-based) alternate: an even line is the text of document n, an odd one its id. */
  lemma Parity(lineNumber: int, n: nat)
    requires lineNumber == 2 * n + 1 || lineNumber == 2 * n + 2
    ensures lineNumber % 2 == 0 <==> lineNumber == 2 * n + 2
  {
  }

  /** Once every line is read, the documents read are all of them. */
  lemma AllDocs(lines: seq<string>, n: nat)
    requires |lines| == 2 * n || |lines| == 2 * n + 1
    ensures n == |lines| / 2 && Docs(lines)[..n] == Docs(lines)
  {
  }

}
