/** The string operations the aligner and the scorer share: Python's `strip`, `split` and `join`. */
module TextLines {

  /** The characters Python's `str.isspace` accepts. */
  predicate IsSpace(c: char) {
    var n := c as int;
    || 0x09 <= n <= 0x0d || 0x1c <= n <= 0x20 || n == 0x85 || n == 0xa0 || n == 0x1680
    || 0x2000 <= n <= 0x200a || n == 0x2028 || n == 0x2029 || n == 0x202f || n == 0x205f || n == 0x3000
  }

  function StripLeft(s: string): string {
    if s != "" && IsSpace(s[0]) then StripLeft(s[1..]) else s
  }

  function StripRight(s: string): string {
    if s != "" && IsSpace(s[|s| - 1]) then StripRight(s[..|s| - 1]) else s
  }

  function Strip(s: string): string {
    StripRight(StripLeft(s))
  }

  /** Nothing to strip, and not empty. */
  predicate Trimmed(s: string) {
    s != "" && !IsSpace(s[0]) && !IsSpace(s[|s| - 1])
  }

  /** `s.split("\n")`. */
  function SplitLines(s: string): (r: seq<string>)
    ensures r != []
  {
    if s == "" then [""]
    else
      var rest := SplitLines(s[1..]);
      if s[0] == '\n' then [""] + rest else [[s[0]] + rest[0]] + rest[1..]
  }

  function Join(sep: string, parts: seq<string>): string {
    if parts == [] then ""
    else if |parts| == 1 then parts[0]
    else parts[0] + sep + Join(sep, parts[1..])
  }

  lemma {:induction false} StripLeftTrims(s: string)
    ensures StripLeft(s) == "" || !IsSpace(StripLeft(s)[0])
  {
    if s != "" && IsSpace(s[0]) { StripLeftTrims(s[1..]); }
  }

  lemma {:induction false} StripRightTrims(s: string)
    ensures StripRight(s) <= s
    ensures StripRight(s) == "" || !IsSpace(StripRight(s)[|StripRight(s)| - 1])
  {
    if s != "" && IsSpace(s[|s| - 1]) { StripRightTrims(s[..|s| - 1]); }
  }

  /** What is left of a string by stripping is empty or trimmed. */
  lemma StripTrims(s: string)
    ensures Strip(s) == "" || Trimmed(Strip(s))
  {
    StripLeftTrims(s);
    StripRightTrims(StripLeft(s));
  }

  predicate AllSpace(s: string) { forall k :: 0 <= k < |s| ==> IsSpace(s[k]) }

  lemma {:induction false} StripLeftSplits(s: string) returns (lead: string)
    ensures s == lead + StripLeft(s) && AllSpace(lead)
  {
    lead := "";
    if s != "" && IsSpace(s[0]) {
      lead := StripLeftSplits(s[1..]);
      lead := [s[0]] + lead;
    }
  }

  lemma {:induction false} StripRightSplits(s: string) returns (trail: string)
    ensures s == StripRight(s) + trail && AllSpace(trail)
  {
    trail := "";
    if s != "" && IsSpace(s[|s| - 1]) {
      trail := StripRightSplits(s[..|s| - 1]);
      trail := trail + [s[|s| - 1]];
    }
  }

  /** Stripping takes away white space at the two ends, and nothing else. */
  lemma StripSplits(s: string) returns (lead: string, trail: string)
    ensures s == lead + Strip(s) + trail && AllSpace(lead) && AllSpace(trail)
  {
    lead := StripLeftSplits(s);
    trail := StripRightSplits(StripLeft(s));
  }

  lemma StripOfTrimmed(s: string)
    requires s == "" || Trimmed(s)
    ensures Strip(s) == s
  {
  }

  /** Trimmed texts joined by anything are trimmed. */
  lemma {:induction false} JoinOfTrimmed(sep: string, parts: seq<string>)
    requires forall p :: p in parts ==> Trimmed(p)
    ensures parts == [] ==> Join(sep, parts) == ""
    ensures parts != [] ==> Trimmed(Join(sep, parts))
  {
    if parts != [] {
      assert Trimmed(parts[0]);
      JoinOfTrimmed(sep, parts[1..]);
    }
  }

  lemma {:induction false} JoinAppend(sep: string, a: seq<string>, b: seq<string>)
    requires a != [] && b != []
    ensures Join(sep, a + b) == Join(sep, a) + sep + Join(sep, b)
  {
    if |a| == 1 {
      assert (a + b)[1..] == b;
    } else {
      JoinAppend(sep, a[1..], b);
      assert (a + b)[1..] == a[1..] + b;
    }
  }

  /** The lines joined by line breaks are the text, and none holds a line break. */
  lemma {:induction false} SplitLinesJoins(s: string)
    ensures Join("\n", SplitLines(s)) == s
    ensures forall l :: l in SplitLines(s) ==> '\n' !in l
  {
    if s != "" {
      var rest := SplitLines(s[1..]);
      SplitLinesJoins(s[1..]);
      assert s == [s[0]] + s[1..];
      if s[0] == '\n' {
        assert ([""] + rest)[1..] == rest;
      } else {
        JoinInFront(s[0], rest);
      }
    }
  }

  lemma JoinInFront(c: char, rest: seq<string>)
    requires rest != []
    ensures Join("\n", [[c] + rest[0]] + rest[1..]) == [c] + Join("\n", rest)
  {
    var all := [[c] + rest[0]] + rest[1..];
    if |rest| > 1 {
      assert all[1..] == rest[1..];
      assert [c] + rest[0] + "\n" + Join("\n", rest[1..]) == [c] + (rest[0] + "\n" + Join("\n", rest[1..]));
    }
  }

  // ----- Words -----

  /** Put a character in front of words: of the first of them when it `joins`, else as a word of its own. */
  function InFront(c: char, joins: bool, words: seq<string>): seq<string>
    requires joins ==> words != []
  {
    if joins then [[c] + words[0]] + words[1..] else [[c]] + words
  }

  /** `s.split()`: the runs of characters that are no white space. */
  function Words(s: string): (r: seq<string>)
    ensures s != "" && !IsSpace(s[0]) ==> r != []
  {
    if s == "" then []
    else
      var rest := Words(s[1..]);
      if IsSpace(s[0]) then rest
      else InFront(s[0], |s| > 1 && !IsSpace(s[1]), rest)
  }

  lemma InFrontOfBoth(c: char, joins: bool, a: seq<string>, b: seq<string>)
    requires joins ==> a != []
    ensures InFront(c, joins, a + b) == InFront(c, joins, a) + b
  {
    if joins {
      assert (a + b)[0] == a[0] && (a + b)[1..] == a[1..] + b;
    }
  }

  /** White space anywhere separates the words before it from those behind it. */
  lemma {:induction false} WordsAroundSpace(a: string, c: char, b: string)
    requires IsSpace(c)
    ensures Words(a + [c] + b) == Words(a) + Words(b)
  {
    var s := a + [c] + b;
    if a == "" {
      assert s[1..] == b;
    } else {
      WordsAroundSpace(a[1..], c, b);
      assert s[1..] == a[1..] + [c] + b && s[0] == a[0];
      if !IsSpace(a[0]) {
        var joins := |a| > 1 && !IsSpace(a[1]);
        assert joins <==> |s| > 1 && !IsSpace(s[1]);
        InFrontOfBoth(a[0], joins, Words(a[1..]), Words(b));
      }
    }
  }

  predicate IsWord(w: string) {
    w != "" && forall k :: 0 <= k < |w| ==> !IsSpace(w[k])
  }

  /** Words are not empty and hold no white space; there are none in an empty text. */
  lemma {:induction false} WordsAreWords(s: string)
    ensures forall w :: w in Words(s) ==> IsWord(w)
    ensures Words("") == []
  {
    if s != "" {
      var rest := Words(s[1..]);
      WordsAreWords(s[1..]);
      if !IsSpace(s[0]) && |s| > 1 && !IsSpace(s[1]) {
        assert rest[0] in rest;
        assert IsWord([s[0]] + rest[0]);
      }
    }
  }

  /** Text without white space is one word. */
  lemma {:induction false} OneWord(w: string)
    requires IsWord(w)
    ensures Words(w) == [w]
  {
    assert [w[0]] + w[1..] == w;
    if |w| > 1 {
      assert forall k :: 0 <= k < |w| - 1 ==> w[1..][k] == w[k + 1];
      OneWord(w[1..]);
    } else {
      assert Words(w[1..]) == [] && [w[0]] == w;
      assert Words(w) == [w] + [];
    }
  }
}
