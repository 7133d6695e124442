/** The behaviour of the Ruby core string and IO methods the script relies on:
    String#strip, String#[] with a range, IO#each_line and IO#puts. */
module RubyText {
  import opened Wrappers

  /** The characters String#strip removes at either end: NUL, horizontal tab,
      line feed, vertical tab, form feed, carriage return and space. */
  predicate IsStripSpace(c: char)
  {
    c == '\0' || c == '\t' || c == '\n' || c == '\U{B}' || c == '\U{C}' || c == '\r' || c == ' '
  }

  /** String#lstrip: the longest suffix that does not start with a strip space. */
  function LStrip(s: string): (r: string)
    ensures |r| <= |s| && r == s[|s| - |r|..]
    ensures forall i | 0 <= i < |s| - |r| :: IsStripSpace(s[i])
    ensures r == [] || !IsStripSpace(r[0])
  {
    if s != [] && IsStripSpace(s[0]) then LStrip(s[1..]) else s
  }

  /** String#rstrip: the longest prefix that does not end with a strip space. */
  function RStrip(s: string): (r: string)
    ensures |r| <= |s| && r == s[..|r|]
    ensures forall i | |r| <= i < |s| :: IsStripSpace(s[i])
    ensures r == [] || !IsStripSpace(r[|r| - 1])
  {
    if s != [] && IsStripSpace(s[|s| - 1]) then RStrip(s[..|s| - 1]) else s
  }

  /** String#strip (the in-place strip! leaves the same text behind): no
      strip space left at either end, and a string with clean ends is left
      unchanged; StripKeepsMiddle shows what it cuts away. */
  function Strip(s: string): (r: string)
    ensures |r| <= |s|
    ensures HasCleanEnds(r)
    ensures HasCleanEnds(s) ==> r == s
  {
    var l := LStrip(s);
    var r := RStrip(l);
    assert l != [] && r != [] ==> r[0] == l[0];
    r
  }

  /** Every character of s is one String#strip removes. */
  predicate AllStripSpace(s: string)
  {
    forall k | 0 <= k < |s| :: IsStripSpace(s[k])
  }

  /** strip keeps a contiguous middle of s: it starts where lstrip starts
      (s[i..] is what lstrip returns), and everything before and after it is
      a strip space. */
  lemma StripKeepsMiddle(s: string)
    ensures |s| - |LStrip(s)| + |Strip(s)| <= |s|
    ensures Strip(s) == s[|s| - |LStrip(s)|..][..|Strip(s)|]
    ensures AllStripSpace(s[..|s| - |LStrip(s)|])
    ensures AllStripSpace(s[|s| - |LStrip(s)|..][|Strip(s)|..])
  {
    StripIsPrefixOfLStrip(s);
    LeadingStripSpace(s);
  }

  /** strip is the part of lstrip's result that rstrip keeps. */
  lemma StripIsPrefixOfLStrip(s: string)
    ensures |Strip(s)| <= |LStrip(s)| && Strip(s) == LStrip(s)[..|Strip(s)|]
    ensures AllStripSpace(LStrip(s)[|Strip(s)|..])
  {
    var l := LStrip(s);
    assert Strip(s) == RStrip(l);
    forall k | 0 <= k < |l[|Strip(s)|..]| ensures IsStripSpace(l[|Strip(s)|..][k]) {
      assert l[|Strip(s)|..][k] == l[|Strip(s)| + k];
    }
  }

  /** What lstrip cuts off is all strip spaces. */
  lemma LeadingStripSpace(s: string)
    ensures AllStripSpace(s[..|s| - |LStrip(s)|])
  {
  }

  /** Neither end of s is a strip space, so strip leaves it alone. */
  predicate HasCleanEnds(s: string)
  {
    s == [] || (!IsStripSpace(s[0]) && !IsStripSpace(s[|s| - 1]))
  }

  /** A line whose text has clean ends strips back to that text once its line
      feed is gone: what the decoder sees of a line the encoder wrote. */
  lemma StripLine(text: string)
    requires HasCleanEnds(text)
    ensures Strip(text + "\n") == text
  {
    if text == [] {
      assert LStrip(text + "\n") == [];
    } else {
      assert LStrip(text + "\n") == text + "\n";
      assert (text + "\n")[..|text|] == text;
    }
  }

  /** rstrip drops a trailing strip space and goes on with the rest. */
  lemma RStripDropsLast(s: string)
    requires s != [] && IsStripSpace(s[|s| - 1])
    ensures RStrip(s) == RStrip(s[..|s| - 1])
  {
  }

  /** A space before the line feed goes with it. */
  lemma StripSpaceBeforeLineFeed(text: string)
    requires HasCleanEnds(text)
    ensures Strip(text + " \n") == text
  {
    var spaced := text + " ";
    var line := spaced + "\n";
    assert text + " \n" == line;
    assert line[..|line| - 1] == spaced && spaced[..|spaced| - 1] == text;
    if text == [] {
      assert LStrip(line) == LStrip(line[1..]);
      assert line[1..] == "\n";
    } else {
      assert LStrip(line) == line by { assert line[0] == text[0]; }
      RStripDropsLast(line);
      RStripDropsLast(spaced);
      assert RStrip(text) == text;
    }
  }

  /** str[first..last] for non-negative bounds: nil when first lies beyond the
      end, otherwise the characters from first up to last, cut short at the end. */
  function SliceRange(s: string, first: nat, last: nat): (r: Option<string>)
    ensures r.None? <==> first > |s|
    ensures r.Some? ==> first + |r.value| <= |s| && r.value == s[first..first + |r.value|]
    ensures r.Some? ==> |r.value| == if last + 1 <= first then 0 else Min(last + 1, |s|) - first
  {
    if first > |s| then None
    else if last + 1 <= first then Some([])
    else if last + 1 >= |s| then Some(s[first..])
    else Some(s[first..last + 1])
  }

  function Min(a: int, b: int): int
  {
    if a <= b then a else b
  }

  /** str[first..] (an endless range): nil when first lies beyond the end. */
  function SliceFrom(s: string, first: nat): (r: Option<string>)
    ensures r.None? <==> first > |s|
    ensures r.Some? ==> s == s[..first] + r.value
  {
    if first > |s| then None else Some(s[first..])
  }

  /** The index of the first occurrence of c in s, or |s| when there is none. */
  function FirstIndex(s: string, c: char): (k: nat)
    ensures k <= |s|
    ensures k < |s| ==> s[k] == c
  {
    if s == [] || s[0] == c then 0 else 1 + FirstIndex(s[1..], c)
  }

  /** No occurrence of c comes before the one FirstIndex finds. */
  lemma {:induction false} FirstIndexIsFirst(s: string, c: char)
    ensures forall i | 0 <= i < FirstIndex(s, c) :: s[i] != c
  {
    if s != [] && s[0] != c {
      FirstIndexIsFirst(s[1..], c);
      forall i | 0 < i < FirstIndex(s, c) ensures s[i] != c {
        assert s[i] == s[1..][i - 1];
      }
    }
  }

  lemma {:induction false} FirstIndexAfter(a: string, b: string, c: char)
    requires c !in a
    ensures FirstIndex(a + b, c) == |a| + FirstIndex(b, c)
  {
    if a != [] {
      assert (a + b)[0] == a[0];
      assert (a + b)[1..] == a[1..] + b;
      FirstIndexAfter(a[1..], b, c);
    } else {
      assert a + b == b;
    }
  }

  /** The strings of a sequence, one after the other. */
  function Concat(ss: seq<string>): string
  {
    if ss == [] then [] else ss[0] + Concat(ss[1..])
  }

  /** IO#each_line with the default separator: the text cut after every line
      feed (see EachLineCutsAfterLineFeeds). */
  function EachLine(text: string): (lines: seq<string>)
    ensures lines == [] <==> text == []
    ensures |lines| <= |text|
    decreases |text|
  {
    if text == [] then []
    else
      var k := FirstIndex(text, '\n');
      if k == |text| then [text] else [text[..k + 1]] + EachLine(text[k + 1..])
  }

  /** A line as each_line yields it: not empty, and a line feed at most at its end. */
  predicate IsLine(line: string)
  {
    line != [] && forall i | 0 <= i < |line| - 1 :: line[i] != '\n'
  }

  predicate EndsWithLineFeed(s: string)
  {
    s != [] && s[|s| - 1] == '\n'
  }

  /** The first line each_line yields for a non-empty text, and the text
      after it. */
  lemma FirstLine(text: string) returns (line: string, rest: string)
    requires text != []
    ensures IsLine(line) && line + rest == text && |rest| < |text|
    ensures rest != [] ==> EndsWithLineFeed(line)
    ensures EachLine(text) == [line] + EachLine(rest)
  {
    var k := FirstIndex(text, '\n');
    FirstIndexIsFirst(text, '\n');
    if k < |text| {
      line, rest := text[..k + 1], text[k + 1..];
    } else {
      line, rest := text, [];
    }
  }

  /** each_line loses no text, and every line but the last ends with its line
      feed; an empty text has no lines at all. */
  lemma {:induction false} EachLineCutsAfterLineFeeds(text: string)
    ensures Concat(EachLine(text)) == text
    ensures forall i | 0 <= i < |EachLine(text)| :: IsLine(EachLine(text)[i])
    ensures forall i | 0 <= i < |EachLine(text)| - 1 :: EndsWithLineFeed(EachLine(text)[i])
    decreases |text|
  {
    if text != [] {
      var line, rest := FirstLine(text);
      EachLineCutsAfterLineFeeds(rest);
      var lines := EachLine(text);
      assert lines[0] == line && lines[1..] == EachLine(rest);
      forall i | 0 <= i < |lines| ensures IsLine(lines[i]) {
        if i > 0 { assert lines[i] == EachLine(rest)[i - 1]; }
      }
      forall i | 0 <= i < |lines| - 1 ensures EndsWithLineFeed(lines[i]) {
        if i > 0 { assert lines[i] == EachLine(rest)[i - 1]; } else { assert rest != []; }
      }
    }
  }

  /** A line without a line feed, written with its line feed in front of more
      text, comes back from each_line as one line. */
  lemma EachLineSplitsAfterLineFeed(line: string, rest: string)
    requires '\n' !in line
    ensures EachLine(line + "\n" + rest) == [line + "\n"] + EachLine(rest)
  {
    var text := line + "\n" + rest;
    assert text == line + ("\n" + rest);
    FirstIndexAfter(line, "\n" + rest, '\n');
    var k := FirstIndex(text, '\n');
    assert k == |line|;
    assert text[..k + 1] == line + "\n";
    assert text[k + 1..] == rest;
  }

  /** A text ending in a line feed is its first line, that line feed, and a
      rest that is empty or ends in a line feed too. */
  lemma FirstLineOf(a: string) returns (line: string, rest: string)
    requires EndsWithLineFeed(a)
    ensures '\n' !in line && a == line + "\n" + rest && |rest| < |a|
    ensures rest == [] || EndsWithLineFeed(rest)
  {
    var k := FirstIndex(a, '\n');
    FirstIndexIsFirst(a, '\n');
    assert k < |a|;
    line, rest := a[..k], a[k + 1..];
    assert '\n' !in line by {
      forall i | 0 <= i < |line| ensures line[i] != '\n' { assert line[i] == a[i]; }
    }
    assert a == line + "\n" + rest;
    if rest != [] {
      assert rest[|rest| - 1] == a[|a| - 1];
    }
  }

  /** each_line on a text ending in a line feed, and on that text with more
      after it, starts with the same first line. */
  lemma EachLineFirst(a: string, b: string) returns (first: string, rest: string)
    requires EndsWithLineFeed(a)
    ensures |rest| < |a| && (rest == [] || EndsWithLineFeed(rest))
    ensures EachLine(a) == [first] + EachLine(rest)
    ensures EachLine(a + b) == [first] + EachLine(rest + b)
  {
    var line;
    line, rest := FirstLineOf(a);
    first := line + "\n";
    EachLineSplitsAfterLineFeed(line, rest);
    assert a + b == line + "\n" + (rest + b);
    EachLineSplitsAfterLineFeed(line, rest + b);
  }

  /** If each_line cut a text ending in a line feed, the lines of what follows
      are simply added. */
  lemma {:induction false} EachLineAppend(a: string, b: string)
    requires a == [] || EndsWithLineFeed(a)
    ensures EachLine(a + b) == EachLine(a) + EachLine(b)
    decreases |a|
  {
    if a == [] {
      assert a + b == b;
    } else {
      var first, rest := EachLineFirst(a, b);
      EachLineAppend(rest, b);
      AppendAssociative([first], EachLine(rest), EachLine(b));
    }
  }

  /** Stated once so that proofs need not rediscover it. */
  lemma AppendAssociative<T>(x: seq<T>, y: seq<T>, z: seq<T>)
    ensures (x + y) + z == x + (y + z)
  {
  }

  /** IO#puts with one string: the string, followed by a line feed unless it
      already ends with one. */
  function Puts(s: string): (written: string)
    ensures |written| == |s| || |written| == |s| + 1
    ensures written[..|s|] == s
    ensures EndsWithLineFeed(written)
    ensures written == s <==> EndsWithLineFeed(s)
  {
    if EndsWithLineFeed(s) then s else s + "\n"
  }
}
