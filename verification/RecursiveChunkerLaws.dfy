/**
 What the recursive splitter keeps of the text: without overlap, everything but white space and
 separator punctuation, in order; with overlap, the same chunks each with something put in front.
*/
module RecursiveChunkerLaws {
  import opened Text
  import opened RecursiveChunker

  // ---- Overlap only adds in front ----

  ghost predicate Extended(longer: seq<string>, shorter: seq<string>) {
    |longer| == |shorter| && forall i | 0 <= i < |shorter| :: EndsWith(longer[i], shorter[i])
  }

  lemma EndsWithTransitive(a: string, b: string, c: string)
    requires EndsWith(a, b) && EndsWith(b, c)
    ensures EndsWith(a, c)
  {
    assert a[|a| - |b|..][|b| - |c|..] == a[|a| - |c|..];
  }

  lemma ExtendedAppend(a: seq<string>, b: seq<string>, c: seq<string>, d: seq<string>)
    requires Extended(a, b) && Extended(c, d)
    ensures Extended(a + c, b + d)
  {
  }

  lemma ExtendedSame(a: seq<string>)
    ensures Extended(a, a)
  {
  }

  function Plain(config: Config): Config {
    config.(chunkOverlap := 0)
  }

  lemma {:induction false} MergeExtends(pieces: seq<string>, i: nat, sep: string, rest: seq<string>, current: string,
                                        config: Config)
    requires config.chunkSize >= 1 && i <= |pieces| && (rest == [] || EndsEmpty(rest))
    ensures Extended(Merge(pieces, i, sep, rest, current, config), Merge(pieces, i, sep, rest, current, Plain(config)))
    decreases |rest|, 1, |pieces| - i
  {
    ExtendedSame(Just(current));
    if i < |pieces| {
      var candidate := Candidate(current, sep, pieces[i]);
      if |candidate| <= config.chunkSize {
        MergeExtends(pieces, i + 1, sep, rest, candidate, config);
      } else if |Strip(pieces[i])| > config.chunkSize {
        PieceExtends(pieces[i], rest, config);
        MergeExtends(pieces, i + 1, sep, rest, "", config);
        ExtendedAppend(Just(current), Just(current), SplitPiece(pieces[i], rest, config),
            SplitPiece(pieces[i], rest, Plain(config)));
        ExtendedAppend(Just(current) + SplitPiece(pieces[i], rest, config),
            Just(current) + SplitPiece(pieces[i], rest, Plain(config)),
                       Merge(pieces, i + 1, sep, rest, "", config), Merge(pieces, i + 1, sep, rest, "", Plain(config)));
      } else {
        MergeExtends(pieces, i + 1, sep, rest, Strip(pieces[i]), config);
        ExtendedAppend(Just(current), Just(current),
                       Merge(pieces, i + 1, sep, rest, Strip(pieces[i]), config),
                       Merge(pieces, i + 1, sep, rest, Strip(pieces[i]), Plain(config)));
      }
    }
  }

  lemma {:induction false} PieceExtends(piece: string, rest: seq<string>, config: Config)
    requires config.chunkSize >= 1 && (rest == [] || EndsEmpty(rest))
    ensures Extended(SplitPiece(piece, rest, config), SplitPiece(piece, rest, Plain(config)))
    decreases |rest|, 0, 1
  {
    if rest != [] {
      OverlapOnlyExtends(Strip(piece), rest, config);
    } else {
      ExtendedSame(HardSlices(piece, 0, config.chunkSize));
    }
  }

  /** A text that is too long is split into pieces and merged, the same way whatever the overlap. */
  lemma SplitParts(text: string, separators: seq<string>, config: Config)
      returns (pieces: seq<string>, sep: string, rest: seq<string>)
    requires EndsEmpty(separators) && config.chunkSize >= 1 && |text| > config.chunkSize
    ensures Split(text, separators, config) == Finish(Merge(pieces, 0, sep, rest, "", config), config)
    ensures Split(text, separators, Plain(config))
         == Finish(Merge(pieces, 0, sep, rest, "", Plain(config)), Plain(config))
    ensures (rest == [] || EndsEmpty(rest)) && |rest| < |separators| && Splittable(pieces, rest, config.chunkSize)
  {
    var k := Pick(text, separators);
    pieces, sep, rest := Pieces(text, separators[k]), separators[k], separators[k + 1..];
    NothingTooLong(text, separators, config);
  }

  lemma MergedFit(pieces: seq<string>, sep: string, rest: seq<string>, config: Config)
    requires config.chunkSize >= 1 && (rest == [] || EndsEmpty(rest)) && Splittable(pieces, rest, config.chunkSize)
    ensures AllFit(Merge(pieces, 0, sep, rest, "", config), config.chunkSize)
    ensures AllFit(Merge(pieces, 0, sep, rest, "", Plain(config)), config.chunkSize)
  {
    MergeFits(pieces, 0, sep, rest, "", config);
    MergeFits(pieces, 0, sep, rest, "", Plain(config));
  }

  /**
   With any overlap, through all levels of the recursion, there are as many chunks as without, and each
   chunk ends with its counterpart without overlap.
  */
  lemma {:induction false} OverlapOnlyExtends(text: string, separators: seq<string>, config: Config)
    requires EndsEmpty(separators) && config.chunkSize >= 1
    ensures Extended(Split(text, separators, config), Split(text, separators, Plain(config)))
    decreases |separators|, 0, 0
  {
    if |text| <= config.chunkSize {
      ExtendedSame(Just(Strip(text)));
      return;
    }
    var pieces, sep, rest := SplitParts(text, separators, config);
    MergeExtends(pieces, 0, sep, rest, "", config);
    MergedFit(pieces, sep, rest, config);
    FinishExtends(Merge(pieces, 0, sep, rest, "", config), Merge(pieces, 0, sep, rest, "", Plain(config)), config);
  }

  lemma NothingTooLong(text: string, separators: seq<string>, config: Config)
    requires EndsEmpty(separators) && config.chunkSize >= 1
    ensures var k := Pick(text, separators);
            Splittable(Pieces(text, separators[k]), separators[k + 1..], config.chunkSize)
    ensures var k := Pick(text, separators); separators[k + 1..] == [] || EndsEmpty(separators[k + 1..])
  {
    var k := Pick(text, separators);
    if separators[k + 1..] == [] {
      forall i | 0 <= i < |Pieces(text, separators[k])|
        ensures |Strip(Pieces(text, separators[k])[i])| <= config.chunkSize
      {
        FallbackUnreachable(text, separators, config.chunkSize, i);
      }
    }
  }

  lemma FinishExtends(long: seq<string>, short: seq<string>, config: Config)
    requires AllFit(long, config.chunkSize) && AllFit(short, config.chunkSize) && Extended(long, short)
    ensures Extended(Finish(long, config), Finish(short, Plain(config)))
  {
    FinishFits(long, config);
    assert forall i | 0 <= i < |short| :: Fits(short[i], config.chunkSize);
    NonEmptyKeeps(short);
    forall i | 0 <= i < |short|
      ensures EndsWith(Finish(long, config)[i], short[i])
    {
      EndsWithTransitive(Finish(long, config)[i], long[i], short[i]);
    }
  }

  // ---- Nothing but separators is lost ----

  const PUNCTUATION := ".!?;,"

  /** A character that is neither white space nor separator punctuation. */
  predicate Solid(c: char) {
    !Blank(c, PYTHON_SPACES) && !Blank(c, PUNCTUATION)
  }

  /** The solid characters of the text, in order. */
  function Kept(s: string): string {
    if s == "" then "" else Kept(s[..|s| - 1]) + (if Solid(s[|s| - 1]) then [s[|s| - 1]] else "")
  }

  function Flatten(parts: seq<string>): string {
    if parts == [] then "" else parts[0] + Flatten(parts[1..])
  }

  lemma {:induction false} KeptAppend(a: string, b: string)
    ensures Kept(a + b) == Kept(a) + Kept(b)
  {
    if b == "" {
      assert a + b == a;
    } else {
      KeptAppend(a, b[..|b| - 1]);
      assert (a + b)[..|a + b| - 1] == a + b[..|b| - 1];
    }
  }

  lemma {:induction false} KeptOfBlank(s: string)
    requires AllBlank(s, PYTHON_SPACES)
    ensures Kept(s) == ""
  {
    if s != "" {
      KeptOfBlank(s[..|s| - 1]);
      assert Blank(s[|s| - 1], PYTHON_SPACES);
    }
  }

  lemma KeptStrip(s: string)
    ensures Kept(Strip(s)) == Kept(s)
  {
    var left, right := TrimParts(s, PYTHON_SPACES);
    KeptOfBlank(left);
    KeptOfBlank(right);
    KeptAppend(left, Strip(s));
    KeptAppend(left + Strip(s), right);
  }

  /** The solid characters of the parts, one after the other. */
  function KeptOf(parts: seq<string>): string {
    if parts == [] then "" else Kept(parts[0]) + KeptOf(parts[1..])
  }

  lemma {:induction false} KeptOfIsKeptOfText(parts: seq<string>)
    ensures KeptOf(parts) == Kept(Flatten(parts))
  {
    if parts != [] {
      KeptOfIsKeptOfText(parts[1..]);
      KeptAppend(parts[0], Flatten(parts[1..]));
    }
  }

  lemma {:induction false} KeptOfAppend(a: seq<string>, b: seq<string>)
    ensures KeptOf(a + b) == KeptOf(a) + KeptOf(b)
  {
    if a == [] {
      assert a + b == b;
    } else {
      KeptOfAppend(a[1..], b);
      assert (a + b)[1..] == a[1..] + b;
      AssocThree(Kept(a[0]), KeptOf(a[1..]), KeptOf(b));
    }
  }

  function KeptFrom(parts: seq<string>, i: nat): string
    requires i <= |parts|
    decreases |parts| - i
  {
    if i == |parts| then "" else Kept(parts[i]) + KeptFrom(parts, i + 1)
  }

  lemma {:induction false} KeptFromIs(parts: seq<string>, i: nat)
    requires i <= |parts|
    ensures KeptFrom(parts, i) == KeptOf(parts[i..])
    decreases |parts| - i
  {
    if i < |parts| {
      KeptFromIs(parts, i + 1);
    }
  }

  lemma KeptOfJust(current: string)
    ensures KeptOf(Just(current)) == Kept(current)
  {
  }

  lemma {:induction false} SplitOnKeeps(s: string, sep: string)
    requires sep != "" && Kept(sep) == ""
    ensures KeptOf(SplitOn(s, sep)) == Kept(s)
    decreases |s|
  {
    if s == "" {
    } else if StartsWith(s, sep) {
      var after := s[|sep|..];
      SplitOnKeeps(after, sep);
      assert s == sep + after;
      KeptAppend(sep, after);
      KeptOfAppend([""], SplitOn(after, sep));
      KeptOfJust("");
    } else {
      SplitOnKeeps(s[1..], sep);
      assert s == [s[0]] + s[1..];
      KeptAppend([s[0]], s[1..]);
      FirstPieceGrows(s[0], SplitOn(s[1..], sep));
    }
  }

  lemma FirstPieceGrows(c: char, rest: seq<string>)
    requires rest != []
    ensures KeptOf([[c] + rest[0]] + rest[1..]) == Kept([c]) + KeptOf(rest)
  {
    KeptAppend([c], rest[0]);
    AssocThree(Kept([c]), Kept(rest[0]), KeptOf(rest[1..]));
    assert ([[c] + rest[0]] + rest[1..])[1..] == rest[1..];
  }

  lemma {:induction false} CharsKeep(s: string)
    ensures KeptOf(Chars(s)) == Kept(s)
  {
    if s != "" {
      CharsKeep(s[1..]);
      assert s == [s[0]] + s[1..];
      KeptAppend([s[0]], s[1..]);
    }
  }

  lemma CandidateKeeps(current: string, sep: string, piece: string)
    requires Kept(sep) == ""
    ensures Kept(Candidate(current, sep, piece)) == Kept(current) + Kept(piece)
  {
    KeptStrip(current + sep + piece);
    KeptStrip(piece);
    KeptAppend(current + sep, piece);
    KeptAppend(current, sep);
  }

  /** Separators that hold no solid character. */
  ghost predicate Hollow(separators: seq<string>) {
    forall i | 0 <= i < |separators| :: Kept(separators[i]) == ""
  }

  lemma {:induction false} MergeKeeps(pieces: seq<string>, i: nat, sep: string, rest: seq<string>, current: string,
                                      config: Config)
    requires config.chunkSize >= 1 && config.chunkOverlap <= 0 && i <= |pieces| && Kept(sep) == ""
    requires (rest == [] || EndsEmpty(rest)) && Hollow(rest) && Splittable(pieces, rest, config.chunkSize)
    ensures KeptOf(Merge(pieces, i, sep, rest, current, config)) == Kept(current) + KeptFrom(pieces, i)
    decreases |rest|, 1, |pieces| - i
  {
    KeptOfJust(current);
    if i < |pieces| {
      var piece, from := pieces[i], KeptFrom(pieces, i + 1);
      var candidate := Candidate(current, sep, piece);
      if |candidate| <= config.chunkSize {
        MergeKeeps(pieces, i + 1, sep, rest, candidate, config);
        CandidateKeeps(current, sep, piece);
        Glue(Kept(current), Kept(piece), from);
      } else if |Strip(piece)| > config.chunkSize {
        MergeKeeps(pieces, i + 1, sep, rest, "", config);
        PieceKeeps(piece, rest, config);
        KeptOfThree(Just(current), SplitPiece(piece, rest, config), Merge(pieces, i + 1, sep, rest, "", config));
        Empty(from);
      } else {
        MergeKeeps(pieces, i + 1, sep, rest, Strip(piece), config);
        KeptStrip(piece);
        KeptOfAppend(Just(current), Merge(pieces, i + 1, sep, rest, Strip(piece), config));
      }
    } else {
      Empty(Kept(current));
    }
  }

  lemma Glue(a: string, b: string, c: string)
    ensures a + b + c == a + (b + c)
  {
  }

  lemma Empty(a: string)
    ensures a + "" == a && "" + a == a && Kept("") == ""
  {
  }

  lemma {:induction false} PieceKeeps(piece: string, rest: seq<string>, config: Config)
    requires EndsEmpty(rest) && Hollow(rest) && config.chunkSize >= 1 && config.chunkOverlap <= 0
    ensures KeptOf(SplitPiece(piece, rest, config)) == Kept(piece)
    decreases |rest|, 0, 2
  {
    SplitKeeps(Strip(piece), rest, config);
    KeptStrip(piece);
  }

  lemma KeptOfThree(a: seq<string>, b: seq<string>, c: seq<string>)
    ensures KeptOf(a + b + c) == KeptOf(a) + (KeptOf(b) + KeptOf(c))
  {
    KeptOfAppend(a + b, c);
    KeptOfAppend(a, b);
    AssocThree(KeptOf(a), KeptOf(b), KeptOf(c));
  }

  lemma {:induction false} SplitKeeps(text: string, separators: seq<string>, config: Config)
    requires EndsEmpty(separators) && Hollow(separators) && config.chunkSize >= 1 && config.chunkOverlap <= 0
    ensures KeptOf(Split(text, separators, config)) == Kept(text)
    decreases |separators|, 0, 1
  {
    if |text| <= config.chunkSize {
      KeptOfJust(Strip(text));
      KeptStrip(text);
    } else {
      var merged := LongSplitKeeps(text, separators, config);
      PlainFinish(merged, config);
    }
  }

  lemma {:induction false} LongSplitKeeps(text: string, separators: seq<string>, config: Config)
      returns (merged: seq<string>)
    requires EndsEmpty(separators) && Hollow(separators) && config.chunkSize >= 1 && config.chunkOverlap <= 0
    requires |text| > config.chunkSize
    ensures Split(text, separators, config) == Finish(merged, config) && AllFit(merged, config.chunkSize)
    ensures KeptOf(merged) == Kept(text)
    decreases |separators|, 0, 0
  {
    var k := Pick(text, separators);
    var sep, rest := separators[k], separators[k + 1..];
    var pieces := Pieces(text, sep);
    merged := Merge(pieces, 0, sep, rest, "", config);
    NothingTooLong(text, separators, config);
    MergeKeeps(pieces, 0, sep, rest, "", config);
    KeptFromStart(pieces);
    PiecesKeep(text, sep);
    MergeFits(pieces, 0, sep, rest, "", config);
  }

  lemma KeptFromStart(parts: seq<string>)
    ensures Kept("") + KeptFrom(parts, 0) == KeptOf(parts)
  {
    KeptFromIs(parts, 0);
    assert parts[0..] == parts;
  }

  lemma PlainFinish(chunks: seq<string>, config: Config)
    requires AllFit(chunks, config.chunkSize) && config.chunkOverlap <= 0
    ensures Finish(chunks, config) == chunks
  {
    assert forall i | 0 <= i < |chunks| :: Fits(chunks[i], config.chunkSize);
    NonEmptyKeeps(chunks);
  }

  lemma PiecesKeep(text: string, sep: string)
    requires Kept(sep) == ""
    ensures KeptOf(Pieces(text, sep)) == Kept(text)
  {
    if sep != "" {
      SplitOnKeeps(text, sep);
    } else {
      CharsKeep(text);
    }
  }

  /** The solid characters from a position on, which may lie beyond the end. */
  function KeptAfter(piece: string, i: nat): string {
    if i < |piece| then Kept(piece[i..]) else ""
  }

  lemma SliceKeeps(piece: string, i: nat, size: nat)
    requires i < |piece| && size >= 1
    ensures Kept(Slice(piece, i, size)) + KeptAfter(piece, i + size) == KeptAfter(piece, i)
  {
    var rest := piece[i..];
    if i + size < |piece| {
      var slice := piece[i..i + size];
      KeptStrip(slice);
      KeptAppend(slice, piece[i + size..]);
      assert rest == slice + piece[i + size..];
    } else {
      assert i + size == |piece| ==> piece[i..i + size] == rest;
      KeptStrip(rest);
      assert Kept(rest) + "" == Kept(rest);
    }
  }

  lemma KeptOfCons(part: string, rest: seq<string>)
    ensures KeptOf([part] + rest) == Kept(part) + KeptOf(rest)
  {
    assert ([part] + rest)[1..] == rest;
  }

  lemma OneSliceMore(slices: seq<string>, part: string, rest: seq<string>, after: string, all: string)
    requires slices == [part] + rest && KeptOf(rest) == after && Kept(part) + after == all
    ensures KeptOf(slices) == all
  {
    KeptOfCons(part, rest);
  }

  lemma NextSlice(piece: string, i: nat, size: nat, slices: seq<string>)
    requires i < |piece| && size >= 1 && slices == HardSlices(piece, i, size)
    ensures slices == [Slice(piece, i, size)] + HardSlices(piece, i + size, size)
  {
  }

  /** The slices of the fallback hold all of the piece from the position on. */
  lemma {:induction false} HardSlicesKeep(piece: string, i: nat, size: nat, slices: seq<string>)
    requires size >= 1 && slices == HardSlices(piece, i, size)
    ensures KeptOf(slices) == KeptAfter(piece, i)
    decreases |piece| - i
  {
    if i < |piece| {
      var rest := HardSlices(piece, i + size, size);
      HardSlicesKeep(piece, i + size, size, rest);
      SliceKeeps(piece, i, size);
      NextSlice(piece, i, size, slices);
      OneSliceMore(slices, Slice(piece, i, size), rest, KeptAfter(piece, i + size), KeptAfter(piece, i));
    }
  }

  /** Each of them is trimmed and fits. */
  lemma {:induction false} HardSlicesFit(piece: string, i: nat, size: nat, k: nat)
    requires size >= 1 && k < |HardSlices(piece, i, size)|
    ensures Building(HardSlices(piece, i, size)[k], size)
    decreases k
  {
    if k > 0 {
      HardSlicesFit(piece, i + size, size, k - 1);
    }
  }

  lemma SeparatorCharIsHollow(c: char)
    requires c in "\n .!?;,"
    ensures !Solid(c)
  {
    BlankIff(c, PYTHON_SPACES);
    BlankIff(c, PUNCTUATION);
  }

  lemma HollowString(s: string)
    requires |s| <= 2 && forall i | 0 <= i < |s| :: s[i] in "\n .!?;,"
    ensures Kept(s) == ""
  {
    if s != "" {
      SeparatorCharIsHollow(s[|s| - 1]);
      if |s| == 2 {
        SeparatorCharIsHollow(s[0]);
        assert Kept(s[..1][..0]) == "";
        assert Kept(s[..1]) == "";
      }
    }
  }

  lemma ProgramSeparators()
    ensures EndsEmpty(SEPARATORS) && Hollow(SEPARATORS)
  {
    forall i | 0 <= i < |SEPARATORS|
      ensures Kept(SEPARATORS[i]) == ""
    {
      HollowString(SEPARATORS[i]);
    }
  }

  /**
   The laws of the splitter with its own separators, for every text and configuration: every chunk is
   non-empty, trimmed and fits; overlap only puts text in front of chunks; and without overlap the
   chunks hold exactly the solid characters of the text, in order.
  */
  lemma ChunkingLaws(text: string, config: Config)
    requires config.chunkSize >= 1
    ensures AllFit(Split(text, SEPARATORS, config), config.chunkSize)
    ensures Extended(Split(text, SEPARATORS, config), Split(text, SEPARATORS, Plain(config)))
    ensures Kept(Flatten(Split(text, SEPARATORS, Plain(config)))) == Kept(text)
  {
    ProgramSeparators();
    SplitFits(text, SEPARATORS, config);
    OverlapOnlyExtends(text, SEPARATORS, config);
    SplitKeeps(text, SEPARATORS, Plain(config));
    KeptOfIsKeptOfText(Split(text, SEPARATORS, Plain(config)));
  }

  // ---- Merging is greedy ----

  /**
   The merging with its operations as parameters: join while it fits; else close the chunk, and start the
   next with the piece, or hand the piece on if it is too long by itself.
  */
  function Greedy(pieces: seq<string>, i: nat, current: string, join: (string, string) -> string,
                  split: string -> seq<string>, size: nat): seq<string>
    requires i <= |pieces|
    decreases |pieces| - i
  {
    if i == |pieces| then Just(current)
    else if |join(current, pieces[i])| <= size then Greedy(pieces, i + 1, join(current, pieces[i]), join, split, size)
    else if |join("", pieces[i])| > size then
      Just(current) + split(pieces[i]) + Greedy(pieces, i + 1, "", join, split, size)
    else Just(current) + Greedy(pieces, i + 1, join("", pieces[i]), join, split, size)
  }

  function JoinWith(sep: string): (string, string) -> string {
    (current, piece) => Candidate(current, sep, piece)
  }

  function SplitWith(rest: seq<string>, config: Config): string -> seq<string>
    requires config.chunkSize >= 1
  {
    piece => SplitPiece(piece, rest, config)
  }

  lemma MergeStep(pieces: seq<string>, i: nat, sep: string, rest: seq<string>, current: string, config: Config)
    requires config.chunkSize >= 1 && i < |pieces|
    ensures var candidate, alone := Candidate(current, sep, pieces[i]), Candidate("", sep, pieces[i]);
            Merge(pieces, i, sep, rest, current, config)
            == if |candidate| <= config.chunkSize then Merge(pieces, i + 1, sep, rest, candidate, config)
               else if |alone| > config.chunkSize then
                 Just(current) + SplitPiece(pieces[i], rest, config) + Merge(pieces, i + 1, sep, rest, "", config)
               else Just(current) + Merge(pieces, i + 1, sep, rest, alone, config)
  {
  }

  lemma GreedyStep(pieces: seq<string>, i: nat, current: string, sep: string, rest: seq<string>, config: Config)
    requires config.chunkSize >= 1 && i < |pieces|
    ensures var candidate, alone := Candidate(current, sep, pieces[i]), Candidate("", sep, pieces[i]);
            var join, split, size := JoinWith(sep), SplitWith(rest, config), config.chunkSize;
            Greedy(pieces, i, current, join, split, size)
            == if |candidate| <= size then Greedy(pieces, i + 1, candidate, join, split, size)
               else if |alone| > size then
                 Just(current) + SplitPiece(pieces[i], rest, config) + Greedy(pieces, i + 1, "", join, split, size)
               else Just(current) + Greedy(pieces, i + 1, alone, join, split, size)
  {
  }

  lemma {:induction false} MergeIsGreedyForm(pieces: seq<string>, i: nat, sep: string, rest: seq<string>,
                                             current: string, config: Config)
    requires config.chunkSize >= 1 && i <= |pieces|
    ensures Merge(pieces, i, sep, rest, current, config)
         == Greedy(pieces, i, current, JoinWith(sep), SplitWith(rest, config), config.chunkSize)
    decreases |pieces| - i
  {
    if i < |pieces| {
      var candidate, alone := Candidate(current, sep, pieces[i]), Candidate("", sep, pieces[i]);
      MergeStep(pieces, i, sep, rest, current, config);
      GreedyStep(pieces, i, current, sep, rest, config);
      var next :=
        if |candidate| <= config.chunkSize then candidate else if |alone| > config.chunkSize then "" else alone;
      MergeIsGreedyForm(pieces, i + 1, sep, rest, next, config);
    }
  }

  /** The pieces from the i-th to before the j-th joined one after the other. */
  function Fold(pieces: seq<string>, i: nat, j: nat, join: (string, string) -> string): string
    requires i <= j <= |pieces|
    decreases j - i
  {
    if i == j then "" else join(Fold(pieces, i, j - 1, join), pieces[j - 1])
  }

  /** The piece does not fit even alone. */
  predicate TooLong(pieces: seq<string>, i: nat, join: (string, string) -> string, size: nat)
    requires i < |pieces|
  {
    |Fold(pieces, i, i + 1, join)| > size
  }

  /** Pieces from the i-th on that fit together, however many of them one takes. */
  ghost predicate FitsAlong(pieces: seq<string>, i: nat, j: nat, join: (string, string) -> string, size: nat)
    requires i <= j <= |pieces|
  {
    forall m | i < m <= j :: |Fold(pieces, i, m, join)| <= size
  }

  /** One piece that is too long, or as many as fit: with the next one they would not. */
  ghost predicate IsRun(pieces: seq<string>, i: nat, j: nat, join: (string, string) -> string, size: nat) {
    && i < j <= |pieces|
    && if TooLong(pieces, i, join, size) then j == i + 1
       else FitsAlong(pieces, i, j, join, size) && (j < |pieces| ==> |Fold(pieces, i, j + 1, join)| > size)
  }

  /** From each cut to the next is such a run; the last cut is at the end. */
  ghost predicate AreCuts(pieces: seq<string>, cuts: seq<nat>, join: (string, string) -> string, size: nat) {
    && cuts != []
    && if |cuts| == 1 then cuts[0] == |pieces|
       else IsRun(pieces, cuts[0], cuts[1], join, size) && AreCuts(pieces, cuts[1..], join, size)
  }

  /** The chunks of one run: the long piece split further, or the run joined, unless that is nothing. */
  function ChunksOf(pieces: seq<string>, i: nat, j: nat, join: (string, string) -> string,
                    split: string -> seq<string>, size: nat): seq<string>
    requires i < j <= |pieces|
  {
    if TooLong(pieces, i, join, size) then split(pieces[i]) else Just(Fold(pieces, i, j, join))
  }

  function AllChunks(pieces: seq<string>, cuts: seq<nat>, join: (string, string) -> string,
                     split: string -> seq<string>, size: nat): seq<string>
    requires AreCuts(pieces, cuts, join, size)
  {
    if |cuts| == 1 then []
    else ChunksOf(pieces, cuts[0], cuts[1], join, split, size) + AllChunks(pieces, cuts[1..], join, split, size)
  }

  lemma CutsCons(pieces: seq<string>, i: nat, cuts: seq<nat>, join: (string, string) -> string,
                 split: string -> seq<string>, size: nat)
    requires AreCuts(pieces, cuts, join, size) && IsRun(pieces, i, cuts[0], join, size)
    ensures AreCuts(pieces, [i] + cuts, join, size)
    ensures AllChunks(pieces, [i] + cuts, join, split, size)
         == ChunksOf(pieces, i, cuts[0], join, split, size) + AllChunks(pieces, cuts, join, split, size)
  {
    assert ([i] + cuts)[1..] == cuts;
  }

  /** A run under construction: it has begun, and all of it fits, or it has not begun. */
  ghost predicate Started(pieces: seq<string>, from: nat, i: nat, current: string,
                          join: (string, string) -> string, size: nat) {
    && from <= i <= |pieces| && current == Fold(pieces, from, i, join)
    && FitsAlong(pieces, from, i, join, size)
  }

  lemma StartedIsRun(pieces: seq<string>, from: nat, i: nat, current: string,
                     join: (string, string) -> string, split: string -> seq<string>, size: nat)
    requires Started(pieces, from, i, current, join, size) && from < i
    requires i < |pieces| ==> |join(current, pieces[i])| > size
    ensures IsRun(pieces, from, i, join, size) && ChunksOf(pieces, from, i, join, split, size) == Just(current)
  {
    assert !TooLong(pieces, from, join, size);
  }

  lemma StartedNext(pieces: seq<string>, from: nat, i: nat, current: string, join: (string, string) -> string,
                    size: nat)
    requires Started(pieces, from, i, current, join, size) && i < |pieces| && |join(current, pieces[i])| <= size
    ensures Started(pieces, from, i + 1, join(current, pieces[i]), join, size)
  {
    assert Fold(pieces, from, i + 1, join) == join(current, pieces[i]);
    forall m | from < m <= i + 1
      ensures |Fold(pieces, from, m, join)| <= size
    {
      assert m <= i ==> |Fold(pieces, from, m, join)| <= size;
    }
  }

  lemma FirstFold(pieces: seq<string>, i: nat, join: (string, string) -> string)
    requires i < |pieces|
    ensures Fold(pieces, i, i + 1, join) == join("", pieces[i])
  {
    assert Fold(pieces, i, i, join) == "";
  }

  /** The cuts of the rest, after the run under construction if it has begun. */
  lemma CloseRun(pieces: seq<string>, from: nat, i: nat, current: string, cuts: seq<nat>,
                 join: (string, string) -> string, split: string -> seq<string>, size: nat) returns (all: seq<nat>)
    requires Started(pieces, from, i, current, join, size) && AreCuts(pieces, cuts, join, size) && cuts[0] == i
    requires i < |pieces| ==> |join(current, pieces[i])| > size
    ensures AreCuts(pieces, all, join, size) && all[0] == from
    ensures AllChunks(pieces, all, join, split, size) == Just(current) + AllChunks(pieces, cuts, join, split, size)
  {
    if from < i {
      StartedIsRun(pieces, from, i, current, join, split, size);
      CutsCons(pieces, from, cuts, join, split, size);
      all := [from] + cuts;
    } else {
      assert Just(current) == [];
      assert [] + AllChunks(pieces, cuts, join, split, size) == AllChunks(pieces, cuts, join, split, size);
      all := cuts;
    }
  }

  lemma {:induction false} GreedyIsCut(pieces: seq<string>, from: nat, i: nat, current: string,
                                       join: (string, string) -> string, split: string -> seq<string>, size: nat)
      returns (cuts: seq<nat>)
    requires Started(pieces, from, i, current, join, size)
    ensures AreCuts(pieces, cuts, join, size) && cuts[0] == from
    ensures Greedy(pieces, i, current, join, split, size) == AllChunks(pieces, cuts, join, split, size)
    decreases |pieces| - i, 1
  {
    if i == |pieces| {
      cuts := CloseRun(pieces, from, i, current, [i], join, split, size);
      assert Just(current) + [] == Just(current);
    } else if |join(current, pieces[i])| <= size {
      StartedNext(pieces, from, i, current, join, size);
      cuts := GreedyIsCut(pieces, from, i + 1, join(current, pieces[i]), join, split, size);
    } else {
      var rest := AfterChunk(pieces, i, join, split, size);
      cuts := CloseRun(pieces, from, i, current, rest, join, split, size);
      FirstFold(pieces, i, join);
      AssocThree(Just(current), split(pieces[i]), Greedy(pieces, i + 1, "", join, split, size));
    }
  }

  /** A new run, or a piece handed on, starts with the i-th piece. */
  lemma {:induction false} AfterChunk(pieces: seq<string>, i: nat, join: (string, string) -> string,
                                      split: string -> seq<string>, size: nat) returns (cuts: seq<nat>)
    requires i < |pieces|
    ensures AreCuts(pieces, cuts, join, size) && cuts[0] == i
    ensures AllChunks(pieces, cuts, join, split, size)
         == if TooLong(pieces, i, join, size) then split(pieces[i]) + Greedy(pieces, i + 1, "", join, split, size)
            else Greedy(pieces, i + 1, join("", pieces[i]), join, split, size)
    decreases |pieces| - i, 0
  {
    FirstFold(pieces, i, join);
    if TooLong(pieces, i, join, size) {
      var rest := GreedyIsCut(pieces, i + 1, i + 1, "", join, split, size);
      CutsCons(pieces, i, rest, join, split, size);
      cuts := [i] + rest;
    } else {
      cuts := GreedyIsCut(pieces, i, i + 1, join("", pieces[i]), join, split, size);
    }
  }

  /**
   The pieces are cut into consecutive runs, none left over. A piece that is too long by itself is a run
   alone and is split with the separators left; any other run is joined to a chunk, and ends only where the
   next piece would not have fitted, or at the end. A run of white space alone gives no chunk.
  */
  lemma MergeIsGreedy(pieces: seq<string>, sep: string, rest: seq<string>, config: Config) returns (cuts: seq<nat>)
    requires config.chunkSize >= 1
    ensures AreCuts(pieces, cuts, JoinWith(sep), config.chunkSize) && cuts[0] == 0
    ensures Merge(pieces, 0, sep, rest, "", config)
         == AllChunks(pieces, cuts, JoinWith(sep), SplitWith(rest, config), config.chunkSize)
  {
    MergeIsGreedyForm(pieces, 0, sep, rest, "", config);
    cuts := GreedyIsCut(pieces, 0, 0, "", JoinWith(sep), SplitWith(rest, config), config.chunkSize);
  }

  // ---- What overlap puts in front ----

  lemma {:induction false} TrimLeftBefore(s: string, more: string, blanks: string)
    requires TrimLeft(s, blanks) != ""
    ensures TrimLeft(s + more, blanks) == TrimLeft(s, blanks) + more
  {
    if Blank(s[0], blanks) {
      assert (s + more)[1..] == s[1..] + more;
      TrimLeftBefore(s[1..], more, blanks);
    }
  }

  lemma TrimRightNothing(s: string, blanks: string)
    requires s != "" && !Blank(s[|s| - 1], blanks)
    ensures TrimRight(s, blanks) == s
  {
  }

  /** Suffixes of s that could stand in front: not empty, not too long, and not starting with white space. */
  ghost predicate Tail(s: string, t: string, n: nat) {
    EndsWith(s, t) && 0 < |t| <= n && !Blank(t[0], PYTHON_SPACES)
  }

  /** The end of a trimmed text without its leading white space is the longest such suffix. */
  lemma LongestTail(s: string, n: nat) returns (t: string)
    requires s != "" && Trimmed(s, PYTHON_SPACES) && n > 0
    ensures t == TrimLeft(LastChars(s, n), PYTHON_SPACES) && Tail(s, t, n)
    ensures forall u | Tail(s, u, n) :: |u| <= |t|
  {
    var last := LastChars(s, n);
    t := TrimLeft(last, PYTHON_SPACES);
    var left := TrimLeftParts(last, PYTHON_SPACES);
    LastCharsEnd(s, n, last);
    LastIsSuffix(s, last, left, t);
    forall u | Tail(s, u, n)
      ensures |u| <= |t|
    {
      LongerStartsBlank(s, last, left, t, u);
    }
  }

  lemma LastCharsEnd(s: string, n: nat, last: string)
    requires s != "" && Trimmed(s, PYTHON_SPACES) && n > 0 && last == LastChars(s, n)
    ensures EndsWith(s, last) && 0 < |last| <= n && (|last| == n || last == s)
    ensures !Blank(last[|last| - 1], PYTHON_SPACES)
  {
    assert last[|last| - 1] == s[|s| - 1];
  }

  lemma LastIsSuffix(s: string, last: string, left: string, t: string)
    requires EndsWith(s, last) && last == left + t && AllBlank(left, PYTHON_SPACES)
    requires last != "" && !Blank(last[|last| - 1], PYTHON_SPACES)
    ensures EndsWith(s, t) && t != ""
  {
    assert !AllBlank(last, PYTHON_SPACES);
    assert left + "" == left;
  }

  lemma LongerStartsBlank(s: string, last: string, left: string, t: string, u: string)
    requires EndsWith(s, last) && last == left + t && AllBlank(left, PYTHON_SPACES)
    requires EndsWith(s, u) && 0 < |u| <= |last| && !Blank(u[0], PYTHON_SPACES)
    ensures |u| <= |t|
  {
    var at := |last| - |u|;
    assert u[0] == s[|s| - |u|] == last[at];
    assert forall i | 0 <= i < |left| :: last[i] == left[i];
  }

  /**
   With overlap, chunk i is preceded by a space and the longest end of chunk i - 1 that is within the
   overlap and does not start with white space, exactly if the three fit together; otherwise it is alone.
  */
  lemma OverlapIsLongestTail(chunks: seq<string>, config: Config, i: nat) returns (t: string)
    requires config.chunkOverlap > 0 && 0 < i < |chunks| && AllFit(chunks, config.chunkSize)
    ensures Tail(chunks[i - 1], t, config.chunkOverlap)
    ensures forall u | Tail(chunks[i - 1], u, config.chunkOverlap) :: |u| <= |t|
    ensures Finish(chunks, config)[i]
         == if |t| + 1 + |chunks[i]| <= config.chunkSize then t + " " + chunks[i] else chunks[i]
  {
    assert Fits(chunks[i], config.chunkSize) && Fits(chunks[i - 1], config.chunkSize);
    t := LongestTail(chunks[i - 1], config.chunkOverlap);
    OverlappedIs(chunks[i - 1], chunks[i], t, config);
    assert WithOverlap(chunks, config)[i] == OverlapAt(chunks, i, config);
  }

  lemma OverlappedIs(before: string, chunk: string, t: string, config: Config)
    requires config.chunkOverlap > 0 && Fits(chunk, config.chunkSize)
    requires t == TrimLeft(LastChars(before, config.chunkOverlap), PYTHON_SPACES) && t != ""
    ensures Overlapped(before, chunk, config)
         == if |t| + 1 + |chunk| <= config.chunkSize then t + " " + chunk else chunk
  {
    var last := LastChars(before, config.chunkOverlap);
    Assoc(last, " ", chunk);
    Assoc(t, " ", chunk);
    TrimLeftBefore(last, " " + chunk, PYTHON_SPACES);
    TrimRightNothing(t + " " + chunk, PYTHON_SPACES);
  }
}
