# wordzee-assistant in Dafny

A Dafny model of the word finder in `wordzee-assistant.py`. The program takes a
string of letters and a dictionary file. It prints every dictionary word that
uses all of the letters, each letter once, in any order. The model covers the
pure pipeline behind that output:

- `get_words_from_file` reads the lines of the dictionary file. It lower-cases
  each line and strips its trailing whitespace, the kept line feed included.
  The modules are `Lines` (`readlines`) and `Text` (`lower`, `rstrip`).
- `get_unique_permutations` builds every full-length arrangement of the letters.
  It lower-cases each one and drops the repeats. This is the `Permutations`
  module.
- `get_intersection` keeps the words that appear in both lists. The match loop
  in `main` prints those words. This is the `Assistant` module.
- `Collections` holds the Python conversions `set(...)` and `list(a_set)`.

The central results are these:

- The arrangements of a string are exactly the strings with the same multiset
  of characters (`Permutations.PermsMembership`).
- Lower-casing every arrangement gives exactly the arrangements of the
  lower-cased letters (`Permutations.LowerCommutesWithPerms`).
- The words a file yields are its lines, normalised. The file's split into
  lines is unique (`Lines.ReadLinesUnique`). A normalised word is a fixed point
  of the normalisation (`Text.NormalizeFixedPoints`).

Python's `lower()` and `rstrip()` are modelled on ASCII only:

- `lower()` maps `A`–`Z` to `a`–`z`.
- The whitespace `rstrip()` removes is the ASCII part of `str.isspace()`: tab,
  line feed, vertical tab, form feed, carriage return, the separators 0x1C to
  0x1F, and space.

Three facts about the program shape the model:

- The program has no minimum-length option, so it builds no shorter
  arrangements.
- It does not sort its output.
- An empty result is not an error. The program prints nothing and exits
  with 0.

## Model

| member | source | states |
|---|---|---|
| Text.Lower | wordzee-assistant.py:92 | `lower()` on one character: the result is never an upper-case letter, only `A`–`Z` change (each to the letter 32 code points up), and whitespace stays whitespace |
| Text.LowerStr | wordzee-assistant.py:85 | `str.lower()` on a string: the result is as long as the input, each character is the lower-cased input character at the same position, and no character of it is upper-case |
| Text.LowerStrIdempotent | wordzee-assistant.py:92 | a string is already lower-case exactly when lower-casing it changes nothing |
| Text.RStrip | wordzee-assistant.py:92 | `rstrip()`: the result is a prefix of the input, everything it drops is whitespace, and it does not end in whitespace |
| Text.RStripUnique | wordzee-assistant.py:92 | those three properties pin the result down: a string has them exactly when it equals `rstrip()` of the input |
| Text.Normalize | wordzee-assistant.py:92 | `word.lower().rstrip()`: the result is lower-case, does not end in whitespace, and is a prefix of the lower-cased line; everything cut off is whitespace |
| Text.NormalizeUnique | wordzee-assistant.py:92 | a string is the normalised line exactly when it is a whitespace-cut prefix of the lower-cased line that does not end in whitespace |
| Text.NormalizeFixedPoints | wordzee-assistant.py:92 | the normalised words are exactly the fixed points of normalisation, so normalising twice gives the same as normalising once |
| Lines.LineEnd | wordzee-assistant.py:92 | the first line `readlines()` cuts off is non-empty, holds no line feed before its end, and ends in one unless it runs to the end of the content |
| Lines.ReadLinesCons | wordzee-assistant.py:92 | a line whose only line feed is its last character is read as one line, followed by the lines of what comes after it |
| Lines.ReadLines | wordzee-assistant.py:92 | `readlines()`: the lines are non-empty and join back to the content; every line except the last ends in a line feed, and no line has a line feed anywhere else |
| Lines.ReadLinesUnique | wordzee-assistant.py:92 | a list of lines has those properties exactly when it is what `readlines()` returns |
| Collections.ToSet | wordzee-assistant.py:78 | `set(xs)`: an element is in it exactly when it is in the list, and the set is no larger than the list |
| Collections.ListOf | wordzee-assistant.py:78 | `list(a_set)`: every element of the set appears exactly once and nothing else appears, so the list is as long as the set |
| Permutations.Perms | wordzee-assistant.py:86 | `itertools.permutations(s)`, joined into strings: every arrangement has the full length of `s` |
| Permutations.PermsAreRearrangements | wordzee-assistant.py:86 | every arrangement of `s` has the same multiset of characters as `s` |
| Permutations.RearrangementsArePerms | wordzee-assistant.py:86 | every string with the multiset of characters of `s` is an arrangement of `s` |
| Permutations.PermsMembership | wordzee-assistant.py:86 | a string is an arrangement of `s` exactly when it has the multiset of characters of `s` |
| Permutations.LowerCommutesWithPerms | wordzee-assistant.py:84-87 | lower-casing every arrangement of the letters gives exactly the arrangements of the lower-cased letters |
| Permutations.UniquePermutations | wordzee-assistant.py:84-87 | a string is in the candidate set exactly when its multiset of characters equals that of the lower-cased letters; every candidate is as long as the input (no shorter arrangements) and every ordering of the lower-cased letters is present |
| Permutations.GetUniquePermutations | wordzee-assistant.py:81-88 | the returned list holds no duplicates; it holds exactly the lower-case rearrangements of the lower-cased letters, each of the input's full length |
| Permutations.UniquePermutationsIgnoreCase | wordzee-assistant.py:84-85 | letters that lower-case to the same string give the same candidate set |
| Permutations.UpperAndLowerLettersAgree | wordzee-assistant.py:84-85 | "ABC" and "abc" give the same candidate set |
| Assistant.GetWordsFromFile | wordzee-assistant.py:91-92 | one word per line of the file, in order, each the normalised line; no word is upper-case, ends in whitespace or holds a line feed |
| Assistant.NoLineFeedInWord | wordzee-assistant.py:92 | a line that has a line feed at most at its end normalises to a word without a line feed |
| Assistant.NormalizeDropsLineFeed | wordzee-assistant.py:92 | a normalised word followed by a line feed normalises back to the word |
| Assistant.ReadLinesOfUnlines | wordzee-assistant.py:92 | a file written one word per line, none holding a line feed, reads back as those words, each with its line feed |
| Assistant.LoadUnlines | wordzee-assistant.py:91-92 | round trip: normalised words without line feeds, written one per line, load back as the same list |
| Assistant.Intersection | wordzee-assistant.py:78 | `set(these) & set(those)`: a word is in it exactly when it is in both lists |
| Assistant.IntersectionCommutes | wordzee-assistant.py:78 | swapping the two arguments gives the same set |
| Assistant.GetIntersection | wordzee-assistant.py:75-78 | the returned list has no duplicates and holds exactly the words found in both arguments |
| Assistant.MatchSet | wordzee-assistant.py:102-105 | a word matches exactly when it is a word of the dictionary file and a rearrangement of the lower-cased letters; every match has the letters' full length and is normalised |
| Assistant.MatchSetIsIntersection | wordzee-assistant.py:102-105 | intersecting the dictionary words with any list that holds exactly the candidate arrangements gives the match set |
| Assistant.Matches | wordzee-assistant.py:102-106 | the words `main` emits: each at most once, exactly the members of the match set (dictionary words that rearrange the lower-cased letters), each as long as the letters |
| Assistant.MatchSetOfWordList | wordzee-assistant.py:102-105 | for a dictionary written one normalised word per line, the matches are the listed words that rearrange the lower-cased letters |
| Assistant.AnagramScenario | wordzee-assistant.py:102-106 | for the dictionary cat/act/tac/dog and any spelling of the letters "tac", the matches are exactly cat, act and tac |

## Left out

- Argument parsing is not modelled (wordzee-assistant.py:22-51). This covers opening the words file through `argparse.FileType` and the check that at least one letter is given. The model accepts any letters; with no letters the only candidate is the empty word.
- Reading the file is not modelled. The model takes the file's content as a string that has already been decoded and had its newlines translated. `readlines` is modelled as splitting that string after each line feed.
- Logger set-up, the logging output channel and `logging.shutdown` are left out (wordzee-assistant.py:54-72, 114). These are global side effects. `Matches` returns the words the loop would log.
- The exception handling and exit codes (wordzee-assistant.py:108-116) are left out. The `KeyboardInterrupt` handler and the catch-all that returns 255 are process control.
- The `assert isinstance(..., Iterable)` checks (wordzee-assistant.py:76-77, 82) are not modelled. The parameters are sequences by their Dafny types, so these checks cannot fail.
- The order of the output is not modelled. Python takes it from set iteration order. `ListOf` may return the elements in any order, and the contracts speak only of membership and the absence of duplicates.
- Text.Lower: only the ASCII case mapping is modelled. Python's full Unicode `lower()` is not, including letters whose lower-case form is longer than one character.
- Text.RStrip: only the ASCII whitespace of `str.isspace()` is modelled. Python's other Unicode whitespace characters, such as U+0085 and U+00A0, are not.
- The number of arrangements and the factorial running time are not modelled. The contracts describe only which strings the results contain.
