/** The word finder: load the dictionary, build the candidate arrangements of
    the letters, and report the words found in both. */
module Assistant {
  import opened Text
  import opened Lines
  import opened Collections
  import opened Permutations

  /** `get_words_from_file`: one word per line of the file, in order, each the
      line lower-cased and cut before its trailing whitespace (the line feed
      `readlines` keeps included). */
  function GetWordsFromFile(wordsFile: string): (words: seq<string>)
    ensures |words| == |ReadLines(wordsFile)|
    ensures forall i :: 0 <= i < |words| ==> words[i] == Normalize(ReadLines(wordsFile)[i])
    ensures forall w :: w in words ==> IsNormalized(w) && '\n' !in w
  {
    var lines := ReadLines(wordsFile);
    var words := seq(|lines|, i requires 0 <= i < |lines| => Normalize(lines[i]));
    forall i | 0 <= i < |lines| ensures '\n' !in words[i] {
      NoLineFeedInWord(lines[i]);
    }
    words
  }

  /** A line `readlines` returns has a line feed at most at its end, and that
      one is stripped as whitespace, so no normalised word holds one. */
  lemma NoLineFeedInWord(line: string)
    requires forall k :: 0 <= k < |line| - 1 ==> line[k] != '\n'
    ensures '\n' !in Normalize(line)
  {
    var w := Normalize(line);
    if |w| == |line| && |line| > 0 {
      assert w[|w| - 1] == Lower(line[|line| - 1]);
    }
    forall k | 0 <= k < |w| ensures w[k] != '\n' {
      assert w[k] == Lower(line[k]);
    }
  }

  /** The set behind `get_intersection(these, those)`: a word is in it exactly
      when it is in both lists. */
  function Intersection(these: seq<string>, those: seq<string>): (r: set<string>)
    ensures forall w :: w in r <==> w in these && w in those
  {
    ToSet(these) * ToSet(those)
  }

  /** The order of the arguments does not matter. */
  lemma IntersectionCommutes(these: seq<string>, those: seq<string>)
    ensures Intersection(these, those) == Intersection(those, these)
  {
  }

  /** `get_intersection(these, those)`: the common words as a list, each once,
      in an order the model leaves open. */
  method GetIntersection(these: seq<string>, those: seq<string>) returns (common: seq<string>)
    ensures NoDuplicates(common)
    ensures forall w :: w in common <==> w in these && w in those
  {
    common := ListOf(Intersection(these, those));
  }

  /** The words `main` reports for `letters` and a dictionary file holding
      `wordsFile`: the normalised dictionary words that rearrange the
      lower-cased letters, all of them full length. */
  function MatchSet(letters: string, wordsFile: string): (r: set<string>)
    ensures forall m :: m in r <==>
              m in GetWordsFromFile(wordsFile) && multiset(m) == multiset(LowerStr(letters))
    ensures forall m :: m in r ==> |m| == |letters| && IsNormalized(m)
  {
    ToSet(GetWordsFromFile(wordsFile)) * UniquePermutations(letters)
  }

  /** The loop in `main`: it emits each word of MatchSet exactly once and
      nothing else, every word as long as the letters. */
  method Matches(letters: string, wordsFile: string) returns (matches: seq<string>)
    ensures NoDuplicates(matches)
    ensures forall m :: m in matches <==> m in MatchSet(letters, wordsFile)
    ensures forall m :: m in matches ==> |m| == |letters|
  {
    var words := GetWordsFromFile(wordsFile);
    var candidates := GetUniquePermutations(letters);
    matches := GetIntersection(words, candidates);
    MatchSetIsIntersection(letters, wordsFile, candidates);
  }

  /** Intersecting the dictionary words with any list holding exactly the
      candidate arrangements gives MatchSet. */
  lemma MatchSetIsIntersection(letters: string, wordsFile: string, candidates: seq<string>)
    requires forall w :: w in candidates <==> multiset(w) == multiset(LowerStr(letters))
    ensures MatchSet(letters, wordsFile) == Intersection(GetWordsFromFile(wordsFile), candidates)
  {
  }

  /** A dictionary file written one word per line, each line ended by a line
      feed. */
  function Unlines(words: seq<string>): string
  {
    if words == [] then [] else words[0] + "\n" + Unlines(words[1..])
  }

  /** A normalised word followed by a line feed normalises back to itself. */
  lemma NormalizeDropsLineFeed(w: string)
    requires IsNormalized(w)
    ensures Normalize(w + "\n") == w
  {
    var line := w + "\n";
    LowerStrIdempotent(w);
    assert LowerStr(line)[..|w|] == LowerStr(w) by {
      forall k | 0 <= k < |w| ensures LowerStr(line)[k] == LowerStr(w)[k] {
        assert line[k] == w[k];
      }
    }
    assert line[|w|] == '\n';
    NormalizeUnique(line, w);
  }

  /** A word without a line feed, followed by one, is a single line. */
  lemma TerminatedLine(w: string)
    requires '\n' !in w
    ensures |w + "\n"| > 0 && (w + "\n")[|w|] == '\n'
    ensures forall k :: 0 <= k < |w| ==> (w + "\n")[k] != '\n'
  {
  }

  /** The lines `readlines` returns for a file written by Unlines. */
  lemma {:induction false} ReadLinesOfUnlines(words: seq<string>)
    requires forall w :: w in words ==> '\n' !in w
    ensures |ReadLines(Unlines(words))| == |words|
    ensures forall i :: 0 <= i < |words| ==> ReadLines(Unlines(words))[i] == words[i] + "\n"
    decreases |words|
  {
    if words != [] {
      var first, rest := words[0] + "\n", words[1..];
      ReadLinesOfUnlines(rest);
      assert words[0] in words;
      TerminatedLine(words[0]);
      ReadLinesCons(first, Unlines(rest));
      assert Unlines(words) == first + Unlines(rest);
      var lines := ReadLines(Unlines(words));
      assert lines == [first] + ReadLines(Unlines(rest));
      forall i | 1 <= i < |words| ensures lines[i] == words[i] + "\n" {
        assert lines[i] == ReadLines(Unlines(rest))[i - 1];
        assert rest[i - 1] == words[i];
      }
    }
  }

  /** Round trip: writing normalised words one per line and loading the file
      gives back the same words. */
  lemma LoadUnlines(words: seq<string>)
    requires forall w :: w in words ==> IsNormalized(w) && '\n' !in w
    ensures GetWordsFromFile(Unlines(words)) == words
  {
    ReadLinesOfUnlines(words);
    forall i | 0 <= i < |words| ensures GetWordsFromFile(Unlines(words))[i] == words[i] {
      NormalizeDropsLineFeed(words[i]);
    }
  }

  /** For a dictionary written one normalised word per line, the matches
      are the listed words that rearrange the lower-cased letters. */
  lemma MatchSetOfWordList(letters: string, words: seq<string>, m: string)
    requires forall w :: w in words ==> IsNormalized(w) && '\n' !in w
    ensures m in MatchSet(letters, Unlines(words)) <==>
              m in words && multiset(m) == multiset(LowerStr(letters))
  {
    LoadUnlines(words);
  }

  /** The words cat, act, tac and dog are already normalised. */
  lemma ScenarioWordsNormalized(words: seq<string>)
    requires words == ["cat", "act", "tac", "dog"]
    ensures forall w :: w in words ==> IsNormalized(w) && '\n' !in w
  {
    assert IsNormalized("cat") && IsNormalized("act") && IsNormalized("tac") && IsNormalized("dog");
  }

  /** "cat" and "act" rearrange the letters t, a, c. */
  lemma ScenarioAnagramsOfTac()
    ensures multiset("cat") == multiset("tac")
    ensures multiset("act") == multiset("tac")
  {
  }

  /** "dog" does not. */
  lemma ScenarioDogIsNoAnagram()
    ensures multiset("dog") != multiset("tac")
  {
    assert 'd' in multiset("dog");
  }

  /** Of the words cat, act, tac and dog, exactly "cat", "act" and "tac"
      rearrange the letters t, a, c. */
  lemma ScenarioAnagrams(words: seq<string>, m: string)
    requires words == ["cat", "act", "tac", "dog"]
    ensures m in words && multiset(m) == multiset("tac") <==> m in {"cat", "act", "tac"}
  {
    ScenarioAnagramsOfTac();
    ScenarioDogIsNoAnagram();
    if m in words {
      assert m == words[0] || m == words[1] || m == words[2] || m == words[3];
    }
  }

  /** A dictionary of "cat", "act", "tac" and "dog", one per line, and any
      spelling of the letters "tac": the three anagrams are found and "dog" is
      not. */
  lemma AnagramScenario(letters: string, words: seq<string>)
    requires LowerStr(letters) == "tac"
    requires words == ["cat", "act", "tac", "dog"]
    ensures forall m :: m in MatchSet(letters, Unlines(words)) <==> m in {"cat", "act", "tac"}
  {
    ScenarioWordsNormalized(words);
    forall m ensures m in MatchSet(letters, Unlines(words)) <==> m in {"cat", "act", "tac"} {
      MatchSetOfWordList(letters, words, m);
      ScenarioAnagrams(words, m);
    }
  }
}
