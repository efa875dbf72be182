/**
 Reading a log file backwards in blocks of fixed size. A block is split into
 lines together with what was left over of the line after it, and its lines are taken newest first.
 The first line of a block may be incomplete; it is tried at once and again with the next block.
*/
module LogReader {
  import opened Wrappers

  datatype Entry = Entry(timestamp: int, actorRole: string, action: string, resource: string, details: string)

  /** Trimming a line, skipping it when empty and unmarshalling it. */
  type Decoder = string -> Option<Entry>

  datatype Line = Line(start: nat, text: string)

  /** The lines of s[..hi] followed by a tail without line ends; strings.Split on line ends. */
  function Lines(s: string, hi: nat, tail: string): (lines: seq<Line>)
    requires hi <= |s|
    ensures lines != []
  {
    if hi == 0 then [Line(0, tail)]
    else if s[hi - 1] == '\n' then Lines(s, hi - 1, "") + [Line(hi, tail)]
    else Lines(s, hi - 1, [s[hi - 1]] + tail)
  }

  function Split(s: string): (lines: seq<Line>)
    ensures lines != []
  {
    Lines(s, |s|, "")
  }

  function Join(lines: seq<Line>): string
    requires lines != []
  {
    if |lines| == 1 then lines[0].text
    else Join(lines[..|lines| - 1]) + "\n" + lines[|lines| - 1].text
  }

  lemma JoinAppend(before: seq<Line>, line: Line)
    requires before != []
    ensures Join(before + [line]) == Join(before) + "\n" + line.text
  {
    assert (before + [line])[..|before|] == before;
  }

  lemma {:induction false} LinesJoin(s: string, hi: nat, tail: string)
    requires hi <= |s|
    ensures Join(Lines(s, hi, tail)) == s[..hi] + tail
  {
    if hi == 0 {
    } else if s[hi - 1] == '\n' {
      LinesJoin(s, hi - 1, "");
      JoinAppend(Lines(s, hi - 1, ""), Line(hi, tail));
      assert s[..hi] == s[..hi - 1] + "" + "\n";
    } else {
      LinesJoin(s, hi - 1, [s[hi - 1]] + tail);
      assert s[..hi] + tail == s[..hi - 1] + ([s[hi - 1]] + tail);
    }
  }

  lemma {:induction false} LinesHoldNoEnds(s: string, hi: nat, tail: string)
    requires hi <= |s| && '\n' !in tail
    ensures forall line | line in Lines(s, hi, tail) :: '\n' !in line.text
  {
    if hi > 0 {
      if s[hi - 1] == '\n' {
        LinesHoldNoEnds(s, hi - 1, "");
      } else {
        LinesHoldNoEnds(s, hi - 1, [s[hi - 1]] + tail);
      }
    }
  }

  /** The line lies where it says, from one line end to the next. */
  predicate InPlace(s: string, line: Line) {
    var end := line.start + |line.text|;
    && end <= |s| && s[line.start..end] == line.text
    && (line.start > 0 ==> s[line.start - 1] == '\n')
    && (end < |s| ==> s[end] == '\n')
  }

  lemma {:induction false} LinesInPlace(s: string, hi: nat, tail: string)
    requires hi + |tail| <= |s| && s[hi..hi + |tail|] == tail
    requires hi + |tail| < |s| ==> s[hi + |tail|] == '\n'
    ensures forall line | line in Lines(s, hi, tail) :: InPlace(s, line)
  {
    if hi > 0 {
      if s[hi - 1] == '\n' {
        LinesInPlace(s, hi - 1, "");
        assert InPlace(s, Line(hi, tail));
      } else {
        LinesInPlace(s, hi - 1, [s[hi - 1]] + tail);
      }
    } else {
      assert InPlace(s, Line(0, tail));
    }
  }

  /** The lines of a text hold no line ends, lie where they say and give the text back when joined. */
  lemma SplitJoin(s: string)
    ensures Join(Split(s)) == s
    ensures forall line | line in Split(s) :: '\n' !in line.text && InPlace(s, line)
  {
    LinesJoin(s, |s|, "");
    LinesHoldNoEnds(s, |s|, "");
    LinesInPlace(s, |s|, "");
    assert s[..|s|] + "" == s;
  }

  // ---- The block reader ----

  function Found(decode: Decoder, text: string): seq<Entry> {
    match decode(text)
    case None => []
    case Some(entry) => [entry]
  }

  /** The entries of the first n lines, the last line first. */
  function Emitted(decode: Decoder, lines: seq<Line>, n: nat): seq<Entry>
    requires n <= |lines|
  {
    if n == 0 then [] else Found(decode, lines[n - 1].text) + Emitted(decode, lines, n - 1)
  }

  function BlockStart(offset: nat, block: nat): nat {
    if offset < block then 0 else offset - block
  }

  /** Everything the reader would emit from an offset down, without a limit. */
  function Blocks(decode: Decoder, s: string, block: nat, offset: nat, leftover: string): seq<Entry>
    requires block > 0 && offset <= |s|
    decreases offset
  {
    if offset == 0 then []
    else
      var from := BlockStart(offset, block);
      var lines := Split(s[from..offset] + leftover);
      Emitted(decode, lines, |lines|) + Blocks(decode, s, block, from, lines[0].text)
  }

  function Cap(entries: seq<Entry>, limit: nat): seq<Entry> {
    if limit < |entries| then entries[..limit] else entries
  }

  lemma CapFull(entries: seq<Entry>, more: seq<Entry>, limit: nat)
    requires |entries| == limit
    ensures Cap(entries + more, limit) == entries
  {
  }

  /** Capping early is harmless. */
  lemma CapAgain(a: seq<Entry>, b: seq<Entry>, limit: nat)
    ensures Cap(Cap(a, limit) + b, limit) == Cap(a + b, limit)
  {
  }

  /** The entry of the next line, if it has one, joins the result. */
  lemma TakeStep(decode: Decoder, lines: seq<Line>, i: nat, combined: seq<Entry>)
    requires i < |lines|
    ensures combined + Emitted(decode, lines, i + 1)
         == combined + Found(decode, lines[i].text) + Emitted(decode, lines, i)
  {
    AddAssoc(combined, Found(decode, lines[i].text), Emitted(decode, lines, i));
  }

  lemma CapNone(combined: seq<Entry>, limit: nat)
    requires |combined| <= limit
    ensures Cap(combined + [], limit) == combined
  {
  }

  /** The inner loop: the lines of one block in reverse, until the limit is reached. */
  method TakeLines(decode: Decoder, lines: seq<Line>, limit: nat, before: seq<Entry>)
    returns (combined: seq<Entry>)
    requires |before| <= limit
    ensures combined == Cap(before + Emitted(decode, lines, |lines|), limit)
  {
    combined := before;
    var i: nat := |lines|;
    ghost var whole := Cap(before + Emitted(decode, lines, |lines|), limit);
    while i > 0 && |combined| < limit
      invariant i <= |lines| && |combined| <= limit
      invariant Cap(combined + Emitted(decode, lines, i), limit) == whole
    {
      i := i - 1;
      TakeStep(decode, lines, i, combined);
      combined := combined + Found(decode, lines[i].text);
    }
    if |combined| == limit {
      CapFull(combined, Emitted(decode, lines, i), limit);
    } else {
      CapNone(combined, limit);
    }
  }

  /** The blocks from the end of the file, after a copy of the buffer, until the limit is reached. */
  method ReadBack(decode: Decoder, s: string, block: nat, limit: nat, buffer: seq<Entry>)
    returns (combined: seq<Entry>)
    requires block > 0 && |buffer| < limit
    ensures combined == Cap(buffer + Blocks(decode, s, block, |s|, ""), limit)
  {
    combined := buffer;
    var leftover := "";
    var offset: nat := |s|;
    ghost var whole := Cap(buffer + Blocks(decode, s, block, |s|, ""), limit);
    while offset > 0 && |combined| < limit
      invariant offset <= |s| && |combined| <= limit
      invariant Cap(combined + Blocks(decode, s, block, offset, leftover), limit) == whole
      decreases offset
    {
      var from := BlockStart(offset, block);
      var lines := Split(s[from..offset] + leftover);
      leftover := lines[0].text;
      AddAssoc(combined, Emitted(decode, lines, |lines|), Blocks(decode, s, block, from, leftover));
      CapAgain(combined + Emitted(decode, lines, |lines|), Blocks(decode, s, block, from, leftover), limit);
      combined := TakeLines(decode, lines, limit, combined);
      offset := from;
    }
    if |combined| == limit {
      CapFull(combined, Blocks(decode, s, block, offset, leftover), limit);
    } else {
      assert combined + [] == combined;
    }
  }

  lemma AddAssoc(a: seq<Entry>, b: seq<Entry>, c: seq<Entry>)
    ensures a + b + c == a + (b + c)
  {
  }

  // ---- What the reader should emit ----

  /** A line is read twice when it starts where a block does, other than at the start of the file. */
  predicate OnBoundary(size: nat, block: nat, start: nat)
    requires block > 0
  {
    0 < start <= size && Multiple(size - start, block)
  }

  predicate Multiple(n: nat, block: nat)
    requires block > 0
  {
    if n < block then n == 0 else Multiple(n - block, block)
  }

  function Copies(decode: Decoder, size: nat, block: nat, line: Line): seq<Entry>
    requires block > 0
  {
    Found(decode, line.text)
    + (if OnBoundary(size, block, line.start) then Found(decode, line.text) else [])
  }

  /** The entries of the first n lines, newest first, those on a block boundary twice. */
  function Expected(decode: Decoder, size: nat, block: nat, lines: seq<Line>, n: nat): seq<Entry>
    requires block > 0 && n <= |lines|
  {
    if n == 0 then []
    else Copies(decode, size, block, lines[n - 1]) + Expected(decode, size, block, lines, n - 1)
  }

  /** The rest of the line at a position. */
  function Rest(s: string, i: nat): (text: string)
    requires i <= |s|
    ensures '\n' !in text
    decreases |s| - i
  {
    if i == |s| || s[i] == '\n' then "" else [s[i]] + Rest(s, i + 1)
  }

  /** No line can be mistaken for an entry when its beginning is missing. */
  ghost predicate OnlyWholeLinesDecode(decode: Decoder, s: string) {
    && decode("") == None
    && forall i | 0 < i <= |s| && s[i - 1] != '\n' :: decode(Rest(s, i)) == None
  }

  // ---- The proof: both sides read one character at a time ----

  /** Newest first from position hi down, where tail is the rest of the line at hi. */
  function Scan(decode: Decoder, s: string, block: nat, hi: nat, tail: string): seq<Entry>
    requires block > 0 && hi <= |s|
  {
    if hi == 0 then Found(decode, tail)
    else if s[hi - 1] == '\n' then
      Copies(decode, |s|, block, Line(hi, tail)) + Scan(decode, s, block, hi - 1, "")
    else Scan(decode, s, block, hi - 1, [s[hi - 1]] + tail)
  }

  /** The same, but a line that starts at hi itself is taken once. */
  function ScanBelow(decode: Decoder, s: string, block: nat, hi: nat, tail: string): seq<Entry>
    requires block > 0 && 0 < hi <= |s|
  {
    if s[hi - 1] == '\n' then Found(decode, tail) + Scan(decode, s, block, hi - 1, "")
    else Scan(decode, s, block, hi - 1, [s[hi - 1]] + tail)
  }

  lemma {:induction false} ExpectedAppend(decode: Decoder, size: nat, block: nat, lines: seq<Line>, line: Line, n: nat)
    requires block > 0 && n <= |lines|
    ensures Expected(decode, size, block, lines + [line], n) == Expected(decode, size, block, lines, n)
  {
    if n > 0 {
      ExpectedAppend(decode, size, block, lines, line, n - 1);
    }
  }

  lemma ExpectedLast(decode: Decoder, size: nat, block: nat, before: seq<Line>, line: Line)
    requires block > 0
    ensures Expected(decode, size, block, before + [line], |before| + 1)
         == Copies(decode, size, block, line) + Expected(decode, size, block, before, |before|)
  {
    ExpectedAppend(decode, size, block, before, line, |before|);
  }

  lemma {:induction false} EmittedAppend(decode: Decoder, lines: seq<Line>, line: Line, n: nat)
    requires n <= |lines|
    ensures Emitted(decode, lines + [line], n) == Emitted(decode, lines, n)
  {
    if n > 0 {
      EmittedAppend(decode, lines, line, n - 1);
      EmittedStep(decode, lines + [line], n, lines[n - 1]);
      EmittedStep(decode, lines, n, lines[n - 1]);
    }
  }

  lemma EmittedStep(decode: Decoder, lines: seq<Line>, n: nat, line: Line)
    requires 0 < n <= |lines| && lines[n - 1] == line
    ensures Emitted(decode, lines, n) == Found(decode, line.text) + Emitted(decode, lines, n - 1)
  {
  }

  lemma EmittedLast(decode: Decoder, before: seq<Line>, line: Line)
    ensures Emitted(decode, before + [line], |before| + 1)
         == Found(decode, line.text) + Emitted(decode, before, |before|)
  {
    EmittedAppend(decode, before, line, |before|);
  }

  lemma {:induction false} ScanIsExpected(decode: Decoder, s: string, block: nat, hi: nat, tail: string,
                                          lines: seq<Line>)
    requires block > 0 && hi <= |s| && lines == Lines(s, hi, tail)
    ensures Scan(decode, s, block, hi, tail) == Expected(decode, |s|, block, lines, |lines|)
    decreases hi
  {
    if hi == 0 {
      ExpectedLast(decode, |s|, block, [], Line(0, tail));
      assert [] + [Line(0, tail)] == lines;
    } else if s[hi - 1] == '\n' {
      ScanIsExpected(decode, s, block, hi - 1, "", Lines(s, hi - 1, ""));
      ExpectedLast(decode, |s|, block, Lines(s, hi - 1, ""), Line(hi, tail));
    } else {
      ScanIsExpected(decode, s, block, hi - 1, [s[hi - 1]] + tail, lines);
    }
  }

  lemma {:induction false} LinesPrefix(c: string, more: string, hi: nat, tail: string)
    requires hi <= |c|
    ensures Lines(c + more, hi, tail) == Lines(c, hi, tail)
  {
    if hi > 0 {
      if c[hi - 1] == '\n' {
        LinesPrefix(c, more, hi - 1, "");
      } else {
        LinesPrefix(c, more, hi - 1, [c[hi - 1]] + tail);
      }
    }
  }

  lemma {:induction false} LinesTail(c: string, tail: string, k: nat, rest: string)
    requires k <= |tail| && '\n' !in tail && rest == tail[k..]
    ensures Lines(c + tail, |c| + k, rest) == Lines(c, |c|, tail)
    decreases k
  {
    if k == 0 {
      LinesPrefix(c, tail, |c|, tail);
      assert rest == tail;
    } else {
      assert (c + tail)[|c| + k - 1] == tail[k - 1];
      assert [tail[k - 1]] + rest == tail[k - 1..];
      LinesTail(c, tail, k - 1, [tail[k - 1]] + rest);
    }
  }

  /** A block with its leftover has the lines of the block, the last one completed. */
  lemma SplitWithLeftover(c: string, tail: string)
    requires '\n' !in tail
    ensures Split(c + tail) == Lines(c, |c|, tail)
  {
    LinesTail(c, tail, |tail|, "");
    assert |c + tail| == |c| + |tail|;
  }

  lemma {:induction false} MultipleStep(n: nat, j: nat, block: nat)
    requires 0 < j < block && Multiple(n, block)
    ensures !Multiple(n + j, block)
  {
    if n >= block {
      MultipleStep(n - block, j, block);
    }
  }

  lemma MultipleNext(n: nat, block: nat)
    requires block > 0 && Multiple(n, block)
    ensures Multiple(n + block, block)
  {
  }

  /** The entries of one block's lines, read one character at a time. */
  function Back(decode: Decoder, c: string, h: nat, tail: string): seq<Entry>
    requires h <= |c|
  {
    if h == 0 then Found(decode, tail)
    else if c[h - 1] == '\n' then Found(decode, tail) + Back(decode, c, h - 1, "")
    else Back(decode, c, h - 1, [c[h - 1]] + tail)
  }

  lemma {:induction false} BackIsEmitted(decode: Decoder, c: string, h: nat, tail: string, lines: seq<Line>)
    requires h <= |c| && lines == Lines(c, h, tail)
    ensures Back(decode, c, h, tail) == Emitted(decode, lines, |lines|)
    decreases h
  {
    if h == 0 {
      EmittedLast(decode, [], Line(0, tail));
      assert [] + [Line(0, tail)] == lines;
    } else if c[h - 1] == '\n' {
      BackIsEmitted(decode, c, h - 1, "", Lines(c, h - 1, ""));
      EmittedLast(decode, Lines(c, h - 1, ""), Line(h, tail));
    } else {
      BackIsEmitted(decode, c, h - 1, [c[h - 1]] + tail, lines);
    }
  }

  lemma RestBefore(s: string, p: nat)
    requires 0 < p <= |s|
    ensures Rest(s, p - 1) == if s[p - 1] == '\n' then "" else [s[p - 1]] + Rest(s, p)
  {
  }

  /** The first line of a block is left over: the rest of the line the block starts in. */
  lemma {:induction false} FirstLine(s: string, from: nat, o: nat, h: nat)
    requires from + h <= o <= |s|
    ensures Lines(s[from..o], h, Rest(s, from + h))[0].text == Rest(s, from)
  {
    if h > 0 {
      RestBefore(s, from + h);
      assert s[from..o][h - 1] == s[from + h - 1];
      FirstLine(s, from, o, h - 1);
    }
  }

  lemma NotOnBoundary(size: nat, block: nat, from: nat, o: nat, p: nat)
    requires block > 0 && from < p < o <= size
    requires from == BlockStart(o, block) && Multiple(size - o, block)
    ensures !OnBoundary(size, block, p)
  {
    MultipleStep(size - o, o - p, block);
  }

  /** Inside a block the reader emits what the scan does, if it does from the start of the block on. */
  lemma {:induction false} InBlock(decode: Decoder, s: string, block: nat, from: nat, o: nat, h: nat,
                                   below: seq<Entry>)
    requires block > 0 && from + h < o <= |s| && from == BlockStart(o, block) && Multiple(|s| - o, block)
    requires Found(decode, Rest(s, from)) + below == Scan(decode, s, block, from, Rest(s, from))
    ensures Back(decode, s[from..o], h, Rest(s, from + h)) + below
         == Scan(decode, s, block, from + h, Rest(s, from + h))
    decreases h
  {
    if h > 0 {
      InBlock(decode, s, block, from, o, h - 1, below);
      NotOnBoundary(|s|, block, from, o, from + h);
      InBlockStep(decode, s, block, from, o, h, below);
    }
  }

  lemma InBlockStep(decode: Decoder, s: string, block: nat, from: nat, o: nat, h: nat, below: seq<Entry>)
    requires block > 0 && 0 < h && from + h <= o <= |s| && !OnBoundary(|s|, block, from + h)
    requires Back(decode, s[from..o], h - 1, Rest(s, from + h - 1)) + below
          == Scan(decode, s, block, from + h - 1, Rest(s, from + h - 1))
    ensures Back(decode, s[from..o], h, Rest(s, from + h)) + below
         == Scan(decode, s, block, from + h, Rest(s, from + h))
  {
    TopStep(decode, s, block, from, o, h, below);
  }

  /** The last line of a block, which the scan takes once here. */
  lemma TopStep(decode: Decoder, s: string, block: nat, from: nat, o: nat, h: nat, below: seq<Entry>)
    requires block > 0 && 0 < h && from + h <= o <= |s|
    requires Back(decode, s[from..o], h - 1, Rest(s, from + h - 1)) + below
          == Scan(decode, s, block, from + h - 1, Rest(s, from + h - 1))
    ensures Back(decode, s[from..o], h, Rest(s, from + h)) + below
         == ScanBelow(decode, s, block, from + h, Rest(s, from + h))
  {
    RestBefore(s, from + h);
    assert s[from..o][h - 1] == s[from + h - 1];
    AddAssoc(Found(decode, Rest(s, from + h)), Back(decode, s[from..o], h - 1, Rest(s, from + h - 1)), below);
  }

  lemma BoundaryAgain(decode: Decoder, s: string, block: nat, o: nat)
    requires block > 0 && OnlyWholeLinesDecode(decode, s)
    requires 0 < o <= |s| && Multiple(|s| - o, block)
    ensures Found(decode, Rest(s, o)) + ScanBelow(decode, s, block, o, Rest(s, o))
         == Scan(decode, s, block, o, Rest(s, o))
  {
    if s[o - 1] == '\n' {
      AddAssoc(Found(decode, Rest(s, o)), Found(decode, Rest(s, o)), Scan(decode, s, block, o - 1, ""));
    }
  }

  lemma BlocksStep(decode: Decoder, s: string, block: nat, from: nat, o: nat, leftover: string, lines: seq<Line>)
    requires block > 0 && 0 < o <= |s| && from == BlockStart(o, block)
    requires lines == Split(s[from..o] + leftover)
    ensures Blocks(decode, s, block, o, leftover)
         == Emitted(decode, lines, |lines|) + Blocks(decode, s, block, from, lines[0].text)
  {
  }

  lemma BlockIsRead(decode: Decoder, s: string, block: nat, from: nat, o: nat)
    requires block > 0 && 0 < o <= |s| && from == BlockStart(o, block)
    ensures Blocks(decode, s, block, o, Rest(s, o))
         == Back(decode, s[from..o], o - from, Rest(s, o)) + Blocks(decode, s, block, from, Rest(s, from))
  {
    var lines := Lines(s[from..o], o - from, Rest(s, o));
    SplitWithLeftover(s[from..o], Rest(s, o));
    BlocksStep(decode, s, block, from, o, Rest(s, o), lines);
    BackIsEmitted(decode, s[from..o], o - from, Rest(s, o), lines);
    FirstLine(s, from, o, o - from);
  }

  /** At the start of a block its first line is tried, and it is left over for the next block. */
  lemma BlockEnds(decode: Decoder, s: string, block: nat, from: nat, below: seq<Entry>)
    requires block > 0 && from <= |s| && OnlyWholeLinesDecode(decode, s)
    requires if from == 0 then below == []
             else Multiple(|s| - from, block) && below == ScanBelow(decode, s, block, from, Rest(s, from))
    ensures Found(decode, Rest(s, from)) + below == Scan(decode, s, block, from, Rest(s, from))
  {
    if from > 0 {
      BoundaryAgain(decode, s, block, from);
    }
  }

  /** One whole block, given what the blocks below it emit. */
  lemma WholeBlock(decode: Decoder, s: string, block: nat, from: nat, o: nat, below: seq<Entry>)
    requires block > 0 && OnlyWholeLinesDecode(decode, s)
    requires 0 < o <= |s| && from == BlockStart(o, block) && Multiple(|s| - o, block)
    requires if from == 0 then below == [] else below == ScanBelow(decode, s, block, from, Rest(s, from))
    ensures Back(decode, s[from..o], o - from, Rest(s, o)) + below == ScanBelow(decode, s, block, o, Rest(s, o))
  {
    if from > 0 {
      MultipleNext(|s| - o, block);
    }
    BlockEnds(decode, s, block, from, below);
    InBlock(decode, s, block, from, o, o - from - 1, below);
    TopStep(decode, s, block, from, o, o - from, below);
  }

  /** Between blocks, a line that starts there has been read once already. */
  lemma {:induction false} AtBoundary(decode: Decoder, s: string, block: nat, o: nat)
    requires block > 0 && OnlyWholeLinesDecode(decode, s)
    requires 0 < o <= |s| && Multiple(|s| - o, block)
    ensures Blocks(decode, s, block, o, Rest(s, o)) == ScanBelow(decode, s, block, o, Rest(s, o))
    decreases o
  {
    var from := BlockStart(o, block);
    if from > 0 {
      MultipleNext(|s| - o, block);
      AtBoundary(decode, s, block, from);
    }
    WholeBlock(decode, s, block, from, o, Blocks(decode, s, block, from, Rest(s, from)));
    BlockIsRead(decode, s, block, from, o);
  }

  /**
   Whatever the block size, the reader takes the lines newest first and skips none; a line comes
   twice exactly when it starts where a block does.
  */
  lemma BlocksEmitLines(decode: Decoder, s: string, block: nat)
    requires block > 0 && OnlyWholeLinesDecode(decode, s)
    ensures Blocks(decode, s, block, |s|, "") == Expected(decode, |s|, block, Split(s), |Split(s)|)
  {
    if s != "" {
      assert Multiple(0, block);
      AtBoundary(decode, s, block, |s|);
    }
    ScanIsExpected(decode, s, block, |s|, "", Split(s));
  }

  // ---- When nothing is read twice ----

  function Repeats(decode: Decoder, size: nat, block: nat, lines: seq<Line>, n: nat): nat
    requires block > 0 && n <= |lines|
  {
    if n == 0 then 0
    else
      Repeats(decode, size, block, lines, n - 1)
      + if decode(lines[n - 1].text).Some? && OnBoundary(size, block, lines[n - 1].start) then 1 else 0
  }

  lemma {:induction false} RepeatsCount(decode: Decoder, size: nat, block: nat, lines: seq<Line>, n: nat)
    requires block > 0 && n <= |lines|
    ensures |Expected(decode, size, block, lines, n)|
         == |Emitted(decode, lines, n)| + Repeats(decode, size, block, lines, n)
    ensures Repeats(decode, size, block, lines, n) == 0
            ==> Expected(decode, size, block, lines, n) == Emitted(decode, lines, n)
  {
    if n > 0 {
      RepeatsCount(decode, size, block, lines, n - 1);
    }
  }

  lemma {:induction false} NoRepeatsIff(decode: Decoder, size: nat, block: nat, lines: seq<Line>, n: nat)
    requires block > 0 && n <= |lines|
    ensures Repeats(decode, size, block, lines, n) == 0
            <==> forall i | 0 <= i < n ::
                   decode(lines[i].text).Some? ==> !OnBoundary(size, block, lines[i].start)
  {
    if n > 0 {
      NoRepeatsIff(decode, size, block, lines, n - 1);
    }
  }

  /** Every line is read exactly once if and only if no line that holds an entry starts where a block does. */
  lemma EachLineOnceIff(decode: Decoder, s: string, block: nat)
    requires block > 0 && OnlyWholeLinesDecode(decode, s)
    ensures var lines := Split(s);
            Blocks(decode, s, block, |s|, "") == Emitted(decode, lines, |lines|)
            <==> forall i | 0 <= i < |lines| ::
                   decode(lines[i].text).Some? ==> !OnBoundary(|s|, block, lines[i].start)
  {
    BlocksEmitLines(decode, s, block);
    RepeatsCount(decode, |s|, block, Split(s), |Split(s)|);
    NoRepeatsIff(decode, |s|, block, Split(s), |Split(s)|);
  }

  /** The same entries, those on a boundary more often. */
  lemma {:induction false} ExpectedHas(decode: Decoder, size: nat, block: nat, lines: seq<Line>, n: nat, e: Entry)
    requires block > 0 && n <= |lines|
    ensures e in Expected(decode, size, block, lines, n) <==> e in Emitted(decode, lines, n)
  {
    if n > 0 {
      ExpectedHas(decode, size, block, lines, n - 1, e);
    }
  }

  /** Two lines of which the second starts one block before the end. */
  lemma TwoLines(decode: Decoder, size: nat, block: nat, first: Line, second: Line, e1: Entry, e2: Entry)
    requires block > 0 && first.start == 0 && 0 < second.start && second.start + block == size
    requires decode(first.text) == Some(e1) && decode(second.text) == Some(e2)
    ensures Expected(decode, size, block, [first, second], 2) == [e2, e2, e1]
  {
    assert Multiple(0, block) && Multiple(block, block);
    ExpectedLast(decode, size, block, [first], second);
    ExpectedLast(decode, size, block, [], first);
    assert [first] + [second] == [first, second] && [] + [first] == [first];
  }
}
