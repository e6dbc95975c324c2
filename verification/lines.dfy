/** `file.readlines()` on a text file: the content split after every line
    feed, each line keeping its terminator. */
module Lines {

  /** The lines joined back together. */
  function Concat(lines: seq<string>): string
  {
    if lines == [] then [] else lines[0] + Concat(lines[1..])
  }

  /** The length of the first line of `s`, terminator included: up to and
      including the first line feed, or all of `s` when it has none. */
  function LineEnd(s: string): (n: nat)
    requires |s| > 0
    ensures 1 <= n <= |s|
    ensures forall k :: 0 <= k < n - 1 ==> s[k] != '\n'
    ensures n == |s| || s[n - 1] == '\n'
  {
    if s[0] == '\n' || |s| == 1 then 1 else 1 + LineEnd(s[1..])
  }

  /** LineEnd is the only cut that ends at the first line feed or at the end. */
  lemma LineEndAt(s: string, n: nat)
    requires 1 <= n <= |s|
    requires forall k :: 0 <= k < n - 1 ==> s[k] != '\n'
    requires n == |s| || s[n - 1] == '\n'
    ensures LineEnd(s) == n
  {
  }

  /** What `readlines()` returns for `content`: non-empty lines that join back
      to `content`, every one but the last ending in a line feed, and no line
      holding a line feed anywhere else. */
  predicate IsLineSplit(content: string, lines: seq<string>) {
    && Concat(lines) == content
    && (forall i :: 0 <= i < |lines| ==> |lines[i]| > 0)
    && (forall i :: 0 <= i < |lines| - 1 ==> lines[i][|lines[i]| - 1] == '\n')
    && (forall i, k :: 0 <= i < |lines| && 0 <= k < |lines[i]| - 1 ==> lines[i][k] != '\n')
  }

  /** One more line in front of a line split: it must be non-empty, hold no
      line feed before its end, and end in one unless it is the last. */
  lemma LineSplitCons(line: string, content: string, rest: seq<string>)
    requires IsLineSplit(content, rest)
    requires |line| > 0 && (forall k :: 0 <= k < |line| - 1 ==> line[k] != '\n')
    requires rest == [] || line[|line| - 1] == '\n'
    ensures IsLineSplit(line + content, [line] + rest)
  {
    var lines := [line] + rest;
    assert lines[1..] == rest;
    forall i | 1 <= i < |lines| ensures lines[i] == rest[i - 1] { }
  }

  /** `file.readlines()` on a file holding `content`. */
  function ReadLines(content: string): (lines: seq<string>)
    ensures IsLineSplit(content, lines)
    decreases |content|
  {
    if content == [] then []
    else
      var n := LineEnd(content);
      var rest := ReadLines(content[n..]);
      assert content == content[..n] + content[n..];
      LineSplitCons(content[..n], content[n..], rest);
      [content[..n]] + rest
  }

  /** A line ended by its only line feed is read as one line, followed by
      the lines of whatever comes after it. */
  lemma ReadLinesCons(line: string, content: string)
    requires |line| > 0 && line[|line| - 1] == '\n'
    requires forall k :: 0 <= k < |line| - 1 ==> line[k] != '\n'
    ensures ReadLines(line + content) == [line] + ReadLines(content)
  {
    var all := line + content;
    LineEndAt(all, |line|);
    assert all[..|line|] == line;
    assert all[|line|..] == content;
  }

  /** A line split starts with the first line ReadLines cuts off, and what
      follows is a line split of the rest of the content. */
  lemma LineSplitTail(content: string, lines: seq<string>)
    requires IsLineSplit(content, lines) && lines != []
    ensures LineEnd(content) == |lines[0]|
    ensures content[..|lines[0]|] == lines[0]
    ensures content[|lines[0]|..] == Concat(lines[1..])
    ensures IsLineSplit(content[|lines[0]|..], lines[1..])
  {
    var first, rest := lines[0], lines[1..];
    assert content == first + Concat(rest);
    if |lines| > 1 {
      assert first[|first| - 1] == '\n';
    }
    forall k | 0 <= k < |first| ensures content[k] == first[k] { }
    LineEndAt(content, |first|);
    forall i | 0 <= i < |rest| ensures rest[i] == lines[i + 1] { }
  }

  /** The split is unique: ReadLines is the only sequence of lines with the
      properties IsLineSplit describes. */
  lemma {:induction false} ReadLinesUnique(content: string, lines: seq<string>)
    ensures IsLineSplit(content, lines) <==> lines == ReadLines(content)
    decreases |lines|
  {
    if IsLineSplit(content, lines) {
      if lines == [] {
        assert content == [];
      } else {
        var n := |lines[0]|;
        LineSplitTail(content, lines);
        ReadLinesUnique(content[n..], lines[1..]);
        assert ReadLines(content) == [content[..n]] + ReadLines(content[n..]);
        assert lines == [lines[0]] + lines[1..];
      }
    }
  }
}
