/**
 The words of a text: its longest stretches without white space, each without the characters of
 a given table at its end, those of which nothing is left dropped.
*/
module Stretches {
  import opened Text

  /** The words that are complete, and the stretch that is still open. */
  datatype Reading = Reading(words: seq<string>, open: string)

  function Word(stretch: string, dropped: string): seq<string> {
    var word := TrimRight(stretch, dropped);
    if word == "" then [] else [word]
  }

  function Close(r: Reading, dropped: string): Reading {
    Reading(r.words + Word(r.open, dropped), "")
  }

  function Step(r: Reading, c: char, dropped: string): Reading {
    if Blank(c, PYTHON_SPACES) then Close(r, dropped) else Reading(r.words, r.open + [c])
  }

  function Read(r: Reading, s: string, dropped: string): Reading {
    if s == "" then r else Step(Read(r, s[..|s| - 1], dropped), s[|s| - 1], dropped)
  }

  function Words(s: string, dropped: string): seq<string> {
    Close(Read(Reading([], ""), s, dropped), dropped).words
  }

  lemma ReadOne(r: Reading, s: string, c: char, dropped: string)
    ensures Read(r, s + [c], dropped) == Step(Read(r, s, dropped), c, dropped)
  {
    assert (s + [c])[..|s|] == s;
  }

  lemma {:induction false} ReadAppend(r: Reading, a: string, b: string, dropped: string)
    ensures Read(r, a + b, dropped) == Read(Read(r, a, dropped), b, dropped)
  {
    if b == "" {
      assert a + b == a;
    } else {
      var n := |b| - 1;
      ReadAppend(r, a, b[..n], dropped);
      ReadOne(r, a + b[..n], b[n], dropped);
      assert a + b == a + b[..n] + [b[n]];
    }
  }

  lemma StepAfter(done: seq<string>, r: Reading, c: char, dropped: string)
    ensures Step(Reading(done + r.words, r.open), c, dropped)
         == Reading(done + Step(r, c, dropped).words, Step(r, c, dropped).open)
  {
    assert done + r.words + Word(r.open, dropped) == done + (r.words + Word(r.open, dropped));
  }

  /** Words read before stay in front. */
  lemma {:induction false} ReadAfter(done: seq<string>, s: string, dropped: string)
    ensures var r := Read(Reading([], ""), s, dropped);
            Read(Reading(done, ""), s, dropped) == Reading(done + r.words, r.open)
  {
    if s == "" {
      assert done + [] == done;
    } else {
      ReadAfter(done, s[..|s| - 1], dropped);
      StepAfter(done, Read(Reading([], ""), s[..|s| - 1], dropped), s[|s| - 1], dropped);
    }
  }

  /** White space ends a word. */
  lemma WordsAroundBlank(a: string, c: char, b: string, dropped: string)
    requires Blank(c, PYTHON_SPACES)
    ensures Words(a + [c] + b, dropped) == Words(a, dropped) + Words(b, dropped)
  {
    var start := Reading([], "");
    ReadOne(start, a, c, dropped);
    ReadAppend(start, a + [c], b, dropped);
    ReadAfter(Words(a, dropped), b, dropped);
    var r := Read(start, b, dropped);
    assert Words(a, dropped) + r.words + Word(r.open, dropped) == Words(a, dropped) + (r.words + Word(r.open, dropped));
  }

  lemma WordsOfNothing(dropped: string)
    ensures Words("", dropped) == []
  {
  }

  lemma WordsAfterOne(c: char, s: string, dropped: string)
    requires Blank(c, PYTHON_SPACES)
    ensures Words([c] + s, dropped) == Words(s, dropped)
  {
    WordsAroundBlank("", c, s, dropped);
    WordsOfNothing(dropped);
    assert "" + [c] == [c];
    assert [] + Words(s, dropped) == Words(s, dropped);
  }

  lemma {:induction false} WordsAfterBlank(left: string, s: string, dropped: string)
    requires AllBlank(left, PYTHON_SPACES)
    ensures Words(left + s, dropped) == Words(s, dropped)
  {
    if left == "" {
      assert left + s == s;
    } else {
      assert left + s == [left[0]] + (left[1..] + s);
      WordsAfterOne(left[0], left[1..] + s, dropped);
      WordsAfterBlank(left[1..], s, dropped);
    }
  }

  lemma WordsBeforeOne(s: string, c: char, dropped: string)
    requires Blank(c, PYTHON_SPACES)
    ensures Words(s + [c], dropped) == Words(s, dropped)
  {
    WordsAroundBlank(s, c, "", dropped);
    WordsOfNothing(dropped);
    var with := s + [c];
    assert with + "" == with;
    assert Words(s, dropped) + [] == Words(s, dropped);
  }

  lemma {:induction false} WordsBeforeBlank(s: string, right: string, dropped: string)
    requires AllBlank(right, PYTHON_SPACES)
    ensures Words(s + right, dropped) == Words(s, dropped)
  {
    if right == "" {
      assert s + right == s;
    } else {
      var n := |right| - 1;
      assert s + right == s + right[..n] + [right[n]];
      WordsBeforeOne(s + right[..n], right[n], dropped);
      WordsBeforeBlank(s, right[..n], dropped);
    }
  }

  /** White space at the ends changes no word. */
  lemma WordsTrim(s: string, dropped: string)
    ensures Words(Trim(s, PYTHON_SPACES), dropped) == Words(s, dropped)
  {
    var left, right := TrimParts(s, PYTHON_SPACES);
    WordsBeforeBlank(left + Trim(s, PYTHON_SPACES), right, dropped);
    WordsAfterBlank(left, Trim(s, PYTHON_SPACES), dropped);
  }

  /** A character that is dropped at the end of a word ends none. */
  lemma WordsBeforeDropped(s: string, c: char, dropped: string)
    requires Blank(c, dropped) && !Blank(c, PYTHON_SPACES)
    ensures Words(s + [c], dropped) == Words(s, dropped)
  {
    var r := Read(Reading([], ""), s, dropped);
    ReadOne(Reading([], ""), s, c, dropped);
    assert (r.open + [c])[..|r.open|] == r.open;
  }
}
