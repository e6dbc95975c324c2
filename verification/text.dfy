/** Character-level normalisation used by the dictionary loader: `str.lower()`
    and `str.rstrip()`, both restricted to the ASCII range. */
module Text {

  /** An ASCII upper-case letter. */
  predicate IsUpper(c: char) {
    'A' <= c <= 'Z'
  }

  /** A string with no upper-case letter left in it. */
  predicate IsLowered(s: string) {
    forall k :: 0 <= k < |s| ==> !IsUpper(s[k])
  }

  /** The characters `str.isspace()` accepts in the ASCII range: tab, line feed,
      vertical tab, form feed, carriage return, the four information separators
      (0x1C to 0x1F) and space. */
  predicate IsSpace(c: char) {
    c == ' ' || '\t' <= c <= '\r' || '\U{1C}' <= c <= '\U{1F}'
  }

  /** `str.lower()` on one character: an upper-case letter becomes the
      corresponding lower-case letter, every other character is kept. */
  function Lower(c: char): (r: char)
    ensures !IsUpper(r)
    ensures !IsUpper(c) ==> r == c
    ensures IsUpper(c) ==> 'a' <= r <= 'z' && r as int - c as int == 'a' as int - 'A' as int
    ensures IsSpace(r) <==> IsSpace(c)
  {
    if IsUpper(c) then (c as int - 'A' as int + 'a' as int) as char else c
  }

  /** `str.lower()` on a whole string: each character lower-cased in place. */
  function LowerStr(s: string): (r: string)
    ensures |r| == |s|
    ensures forall k :: 0 <= k < |s| ==> r[k] == Lower(s[k])
    ensures IsLowered(r)
  {
    seq(|s|, k requires 0 <= k < |s| => Lower(s[k]))
  }

  /** Lower-casing a string that is already lower-case changes nothing. */
  lemma LowerStrIdempotent(s: string)
    ensures IsLowered(s) <==> LowerStr(s) == s
  {
    if LowerStr(s) == s {
      assert IsLowered(LowerStr(s));
    }
  }

  /** `str.rstrip()` with no argument: the string without its trailing run of
      whitespace. */
  function RStrip(s: string): (r: string)
    ensures |r| <= |s| && r == s[..|r|]
    ensures forall k :: |r| <= k < |s| ==> IsSpace(s[k])
    ensures |r| == 0 || !IsSpace(r[|r| - 1])
  {
    if |s| > 0 && IsSpace(s[|s| - 1]) then RStrip(s[..|s| - 1]) else s
  }

  /** The three properties RStrip ensures pin its result down: a prefix of `s`
      that leaves only whitespace behind and does not itself end in whitespace
      is exactly `RStrip(s)`. */
  lemma RStripUnique(s: string, w: string)
    ensures (&& |w| <= |s| && w == s[..|w|]
             && (forall k :: |w| <= k < |s| ==> IsSpace(s[k]))
             && (|w| == 0 || !IsSpace(w[|w| - 1])))
            <==> w == RStrip(s)
  {
    var r := RStrip(s);
    if && |w| <= |s| && w == s[..|w|]
       && (forall k :: |w| <= k < |s| ==> IsSpace(s[k]))
       && (|w| == 0 || !IsSpace(w[|w| - 1]))
    {
      assert |w| == |r|;
    }
  }

  /** A word as `get_words_from_file` produces it: lower-case and not ending in
      whitespace. */
  predicate IsNormalized(w: string) {
    IsLowered(w) && (|w| == 0 || !IsSpace(w[|w| - 1]))
  }

  /** One dictionary line normalised the way `word.lower().rstrip()` does it:
      the lower-cased line up to its trailing whitespace. */
  function Normalize(line: string): (w: string)
    ensures IsNormalized(w)
    ensures |w| <= |line| && w == LowerStr(line)[..|w|]
    ensures forall k :: |w| <= k < |line| ==> IsSpace(line[k])
  {
    var r := RStrip(LowerStr(line));
    forall k | |r| <= k < |line| ensures IsSpace(line[k]) {
      assert IsSpace(LowerStr(line)[k]);
      assert LowerStr(line)[k] == Lower(line[k]);
    }
    assert IsLowered(r) by {
      forall k | 0 <= k < |r| ensures !IsUpper(r[k]) {
        assert r[k] == LowerStr(line)[k];
      }
    }
    r
  }

  /** Normalize is characterised by what it ensures: the lower-cased line with
      a trailing run of whitespace removed, ending in a non-space. */
  lemma NormalizeUnique(line: string, w: string)
    ensures (&& |w| <= |line| && w == LowerStr(line)[..|w|]
             && (forall k :: |w| <= k < |line| ==> IsSpace(line[k]))
             && (|w| == 0 || !IsSpace(w[|w| - 1])))
            <==> w == Normalize(line)
  {
    var l := LowerStr(line);
    RStripUnique(l, w);
    if forall k :: |w| <= k < |line| ==> IsSpace(line[k]) {
      assert forall k :: |w| <= k < |l| ==> IsSpace(l[k]);
    }
    if w == Normalize(line) {
      assert forall k :: |w| <= k < |line| ==> IsSpace(line[k]);
    }
    if forall k :: |w| <= k < |l| ==> IsSpace(l[k]) {
      forall k | |w| <= k < |line| ensures IsSpace(line[k]) {
        assert l[k] == Lower(line[k]);
      }
    }
  }

  /** Normalised words are exactly the fixed points of Normalize; in
      particular normalising twice is the same as normalising once. */
  lemma NormalizeFixedPoints(w: string)
    ensures IsNormalized(w) <==> Normalize(w) == w
    ensures Normalize(Normalize(w)) == Normalize(w)
  {
    if IsNormalized(w) {
      NormalizedIsFixed(w);
    }
    NormalizedIsFixed(Normalize(w));
  }

  lemma NormalizedIsFixed(w: string)
    requires IsNormalized(w)
    ensures Normalize(w) == w
  {
    LowerStrIdempotent(w);
    NormalizeUnique(w, w);
  }
}
