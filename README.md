# Document search engine: tokenizer, inverted index and boolean queries

A Dafny model of the search engine in `Code/search.h`. The engine has three parts:

- **Token normaliser (`cleanToken`).** It strips leading and trailing punctuation from a word and lower-cases what is left. A word with no letter becomes the empty string.
- **Index builder (`buildIndex`).** It reads a data file of alternating lines, a document id (a URL) and then that document's text. It adds each document's id to the posting set of every term of its text, in the caller's map, and returns the number of documents read.
- **Query evaluator (`findQueryMatches`).** It reads the words of a query left to right:
  - an unmodified word unions its posting set into the running result;
  - a word starting with `+` intersects its posting set with it;
  - a word starting with `-` subtracts its posting set from it;
  - a word whose term is not indexed is skipped.

The C++ functions work step by step, and the model keeps that form.

- **Methods.** Each function is a Dafny method with the same loops, branches and counters:
  - `Tokenizer.CleanToken`, `Text.GatherTokens`, `Text.FindNumWordsInString`, `Indexing.BuildIndex` and `Query.FindQueryMatches`.
  - `Text.NextWord` models one `stream >> word` extraction.
  - Loop bodies and branches that are long enough to be worth stating on their own are methods too:
    - `Tokenizer.CountLetters` and `Tokenizer.LowerCopy`, the counting and lowering loops of `cleanToken`;
    - `Indexing.IndexText` and `Indexing.PostTerms`, the handling of one text line in `buildIndex`;
    - `Query.QueryWords`, the multi-word branch of `findQueryMatches`, and `Query.QueryWord`, one pass of its loop.
- **Reference functions.** Each method is proved equal to a pure function:
  - `Clean`, `Tokens` and `Words`;
  - `Indexed`, which adds documents one after another;
  - `Matches` and its left fold `Fold`.
- **Lemmas.** Lemmas then state what the engine promises about those functions.

Module by module:

- **Chars** (`chars.dfy`): `isalpha`, `ispunct`, `isspace`, `isupper` and `tolower` of the C locale, over ASCII.
- **Tokenizer** (`tokenizer.dfy`): `Clean` and the method `CleanToken`.
- **Text** (`words.dfy`):
  - the whitespace split `Words`, which is what `istringstream >> string` produces;
  - the token set `Tokens`;
  - the methods `NextWord`, `GatherTokens` and `FindNumWordsInString`.
- **Indexing** (`index.dfy`):
  - the index `map<string, set<string>>`, and the class `InvertedIndex` holding the caller's map that `buildIndex` updates in place;
  - the data file as a `Source` (whether it opened, and its lines);
  - `BuildIndex`.
- **Query** (`query.dfy`): the fold, what it means, and `FindQueryMatches` with its multi-word loop.
- **QueryExamples** and **TextExamples** (`query_examples.dfy`, `text_examples.dfy`): the scenarios of `Code/search_tests.cpp`. They are stated for every index, or every set of words, with the properties the tests rely on.

## Model

| member | source | states |
|---|---|---|
| Chars.ToLower | Code/search.h:76 | the result is never an upper-case letter; letters, punctuation and white space keep their class; every character that is not an upper-case letter is returned unchanged |
| Tokenizer.LeadingShape | Code/search.h:43-47 | the leading run the first strip loop removes is all punctuation, and it stops at a non-punctuation character or at the end of the word |
| Tokenizer.TrailingShape | Code/search.h:49-60 | the trailing run the second strip loop removes is all punctuation, and it stops at a non-punctuation character or at the start of the word |
| Tokenizer.StripSlice | Code/search.h:43-60 | for a word with a letter, the two strips keep a non-empty slice that starts and ends with a non-punctuation character, and everything outside it is punctuation |
| Tokenizer.StripKeepsLetter | Code/search.h:62-71 | every letter of the word lies inside the slice the two strips keep, so the second letter count never finds none |
| Tokenizer.CleanEmptyIff | Code/search.h:20-29 | the cleaned word is "" exactly when the word holds no letter |
| Tokenizer.OneCharacter | Code/search.h:31-41 | a one-character word cleans to its lower-case form when it is a letter, and to "" otherwise |
| Tokenizer.CleanShape | Code/search.h:43-81 | for a word with a letter, the cleaned word is the lower-cased slice between the leading and the trailing punctuation runs; everything outside the slice is punctuation; the slice starts and ends with non-punctuation; the result holds a letter and no upper-case letter; interior punctuation and digits are kept as they are |
| Tokenizer.CleanOfTerm | Code/search.h:19-82 | a lower-case word with a letter that neither starts nor ends with punctuation is its own cleaned form |
| Tokenizer.CleanIdempotent | Code/search.h:19-82 | cleaning a cleaned word changes nothing |
| Tokenizer.CleanIgnoresLeadingPunct | Code/search.h:44-47 | a punctuation character in front of a word, such as a query's '+' or '-', does not change its cleaned form |
| Tokenizer.CleanUnwraps | Code/search.h:43-81 | a core with a letter, wrapped in runs of punctuation, cleans to the lower-cased core |
| Tokenizer.CleanExampleEnds | Code/search_tests.cpp:15 | ".!?hello?!." cleans to "hello" |
| Tokenizer.CleanExampleMiddle | Code/search_tests.cpp:30 | "?!.he..llo" cleans to "he..llo" |
| Tokenizer.CleanExampleDigits | Code/search_tests.cpp:46 | "123he.llo?!.." cleans to "123he.llo" |
| Tokenizer.CleanExampleOneChar | Code/search_tests.cpp:58-60 | "!" and "1" clean to "", and "x" to "x" |
| Tokenizer.CountLetters | Code/search.h:21-29 | the letter count is 0 exactly when the word holds no letter, and never exceeds its length |
| Tokenizer.LowerCopy | Code/search.h:74-79 | the lowering loop builds the word with every character lowered, in order |
| Tokenizer.CleanToken | Code/search.h:19-82 | the step-by-step `cleanToken` (letter count, one-character case, the two strip loops, the recount, the lower-casing loop) returns exactly Clean(word) |
| Text.WordsAreWords | Code/search.h:92 | every extracted word is non-empty and holds no white space |
| Text.WordsLeadingSpace | Code/search_tests.cpp:66-85 | white space before the text does not change its words |
| Text.WordsTrailingSpace | Code/search_tests.cpp:87-107 | white space after the text does not change its words |
| Text.WordsSpaceRun | Code/search_tests.cpp:109-118 | any non-empty run of white space between two parts of a text splits it the same way |
| Text.WordsJoin | Code/search.h:92 | splitting words joined by single spaces gives back exactly those words (the split inverts the join) |
| Text.NextWord | Code/search.h:92 | one extraction either finds the first word of the rest of the text and moves past it, or reports that the rest holds no word |
| Text.WordAt | Code/search.h:92 | a maximal run of non-space characters at the current position is the next word, and the split continues after it |
| Text.TermsOfSound | Code/search.h:92-97 | every gathered term is non-empty and is the cleaned form of some word |
| Text.TermsOfComplete | Code/search.h:92-97 | the cleaned form of every word is gathered unless it is "" |
| Text.TermsOfMembers | Code/search.h:92-97 | a term is gathered from a word sequence exactly when it is non-empty and some word cleans to it |
| Text.TokensMembers | Code/search.h:87-99 | t is a token of the text exactly when t is not "" and some word of the text cleans to t |
| Text.OneWordTokens | Code/search.h:180-184 | the token set of a one-word text whose word holds a letter is the single cleaned word |
| Text.TokensSpaceInsensitive | Code/search_tests.cpp:66-140 | leading white space, and the length of any non-empty run of white space, do not change the token set |
| Text.GatherTokens | Code/search.h:87-100 | the extraction loop returns exactly Tokens(text) |
| Text.FindNumWordsInString | Code/search.h:148-159 | the counting loop returns the number of whitespace-separated words |
| Indexing.PostTerms | Code/search.h:128-130 | the inner loop, whatever order it takes the terms in, adds the document's id to the posting set of exactly its terms |
| Indexing.IndexText | Code/search.h:123-130 | one text line posts its document's id under exactly the tokens of the line |
| Indexing.NextText | Code/search.h:122-131 | reading the text line of document n extends the index built from the first n documents by that document |
| Indexing.AddOneTerm | Code/search.h:128-130 | posting one more term of a document is adding that document with the term included |
| Indexing.BuildPostings | Code/search.h:123-133 | after adding documents, d is posted under t exactly when it was before, or some added document has id d and term t |
| Indexing.BuildKeys | Code/search.h:128-130 | the terms of the index afterwards are the old terms plus the terms of the added documents |
| Indexing.BuildNoEmptyPostings | Code/search.h:129 | starting from a map without empty posting sets, no term ever maps to an empty set |
| Indexing.IndexedPostings | Code/search.h:102-136 | after reading a corpus, d is posted under t exactly when it was before, or some document's id line is d and its text line holds t (additive, complete and nothing extra) |
| Indexing.UnpairedIdIgnored | Code/search.h:122-136 | an id line with no text line after it adds nothing to the index |
| Indexing.BuildIndex | Code/search.h:106-143 | an unreadable file clears the map and returns 0; otherwise the number of complete (id, text) pairs is returned and the caller's map becomes Indexed(old map, lines) |
| Query.UnknownWordSkipped | Code/search.h:195-198 | a query word whose term is not indexed can be removed from anywhere in the query without changing the fold |
| Query.FoldMembers | Code/search.h:186-237 | d is a match exactly when some unmodified indexed word posts d, and after it every indexed '+' word posts d and no indexed '-' word posts d |
| Query.PlainQueryIsUnion | Code/search.h:227-229 | a query without modifiers matches the union of its words' posting sets |
| Query.MatchesComeFromPlainWords | Code/search.h:200-230 | every match is posted under some unmodified query word; '+' and '-' words never bring a document in |
| Query.OneWordIsFold | Code/search.h:180-185 | for an unmodified single word, the one-word lookup agrees with the fold |
| Query.FoldSnoc | Code/search.h:191-233 | each word read extends the running result by exactly one step |
| Query.QueryWord | Code/search.h:193-232 | one pass of the loop keeps `results` and `tempResults` equal, empty until the first seed, and applies the word's step to them |
| Query.QueryWords | Code/search.h:185-237 | the multi-word loop returns the fold of the query's words |
| Query.FindQueryMatches | Code/search.h:166-241 | the evaluator's loop over results, tempResults and ct returns exactly Matches(index, sentence): the lookup for one word, the fold otherwise |
| QueryExamples.UnknownSingleWord | Code/search_tests.cpp:197 | the query "mohammad" finds nothing when "mohammad" is not indexed |
| QueryExamples.NoKnownWord | Code/search_tests.cpp:198 | a query none of whose terms is indexed finds nothing |
| QueryExamples.UnknownFirstThenPlain | Code/search_tests.cpp:201 | "nusairat hello", with "nusairat" not indexed, finds the posting set of "hello" |
| QueryExamples.UnknownFirstThenModified | Code/search_tests.cpp:204-205 | an unknown first word followed by a '+' or '-' word finds nothing |
| QueryExamples.FoldPlainSkipUnknown | Code/search_tests.cpp:213 | "there mohammad laws aviation" with "mohammad" not indexed gathers the union of the three other posting sets |
| QueryExamples.UnknownLaterWord | Code/search_tests.cpp:213 | in a query shaped like "there mohammad laws aviation -to +hello", the unknown word is skipped and the result is ((there ∪ laws ∪ aviation) \ to) ∩ hello |
| QueryExamples.EmptiedStaysEmpty | Code/search_tests.cpp:216 | "all -mohammad -all +all" finds nothing: once emptied, '+' and '-' words keep the result empty |
| QueryExamples.EmptiedThenRefilled | Code/search_tests.cpp:219 | "all -all +mohammad +all all" finds the posting set of "all": the last unmodified word refills the emptied result |
| TextExamples.OwnTerms | Code/search.h:87-99 | words that are their own terms are gathered as they are, so the terms are exactly the distinct words |
| TextExamples.RepeatedWordsOneTerm | Code/search_tests.cpp:66-74 | "to be ora not to be" gives the four terms once each |
| TextExamples.PaddedText | Code/search_tests.cpp:120-140 | white space before, between and after two parts of a text gives the same tokens as a single space between them |

## Left out

- `searchEngine` (Code/search.h:246-278) is not modelled. It is a console loop of prompts and printing over `cin`/`cout`.
- File access in `buildIndex` (`ifstream`, `getline`, `clear`, `seekg`) is not modelled.
  - The file is a `Source`: whether it opened, and the lines `getline` would return.
  - Rewinding the stream at the end has no effect on the result.
- `istringstream` extraction is modelled only by what it yields: the maximal runs of characters that are not C-locale white space.
- Character classes use the C locale over ASCII only.
  - Characters outside ASCII are neither letters, punctuation nor white space.
  - `isalpha` on a negative `char` is undefined in C++, and the model gives it no meaning.
- Chars.ToLower: models only the C locale and ASCII, because other locales depend on the running environment.
- The counters `letterCt`, `lineNumber`, `numURL`, `wordCount` and `ct` are C++ `int`s. The model uses unbounded integers, so overflow after 2^31 lines or words is not modelled.
- `std::set` ordering and the sorted `std::set_*` algorithms are modelled as Dafny set operations. Order only matters when printing.
- Indexing.BuildIndex: the caller's map is read into a local map, updated there, and stored back after the last line. Nothing else runs in between, so the final map is the one the C++ builds in place.
- In BuildIndex, the order in which the inner loop posts the terms of a document is left open. The result does not depend on it.
- Query.FindQueryMatches:
  - It requires that a one-word query's word holds a letter. Otherwise `*tokens.begin()` at Code/search.h:181 dereferences the end of an empty set, which is undefined behaviour.
  - The other stated assumptions of Code/search.h:167-171 are not required, because the multi-word branch is defined without them.
- Query.FindQueryMatches takes the index by value.
  - The C++ takes a reference, but it only calls `index[...]` after `count` has found the key, so it never changes the map.
  - Taking the map by value states that the map is never changed.
- The `INDEX` and `tiny.txt` fixtures of the tests are not part of this model. The query and index scenarios of Code/search_tests.cpp are stated for every index with the properties the assertions rely on, not with the fixture's expected document ids.
- The branches of `cleanToken` that a word with a letter never reaches are kept as written in Tokenizer.CleanToken, and nothing more is said about them:
  - the one-character punctuation case;
  - the trailing strip reaching the empty string;
  - the second letter count finding none.
