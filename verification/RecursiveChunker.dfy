/**
 The recursive text splitter: split at the coarsest separator present, merge the pieces greedily up
 to the chunk size, split pieces that are still too long at finer separators, and let neighbouring
 chunks overlap, at every level of the recursion.
*/
module RecursiveChunker {
  import opened Text

  const SEPARATORS: seq<string> := ["\n\n", "\n", ". ", "! ", "? ", "; ", ", ", " ", ""]

  datatype Config = Config(chunkSize: nat, chunkOverlap: int)

  function Strip(s: string): string {
    Trim(s, PYTHON_SPACES)
  }

  predicate StartsWith(s: string, p: string) {
    |p| <= |s| && s[..|p|] == p
  }

  predicate Contains(s: string, p: string) {
    StartsWith(s, p) || (s != "" && Contains(s[1..], p))
  }

  /** str.split at a non-empty separator: leftmost occurrences, not overlapping. */
  function SplitOn(s: string, sep: string): (pieces: seq<string>)
    requires sep != ""
    ensures pieces != []
    decreases |s|
  {
    if s == "" then [""]
    else if StartsWith(s, sep) then [""] + SplitOn(s[|sep|..], sep)
    else
      var rest := SplitOn(s[1..], sep);
      [[s[0]] + rest[0]] + rest[1..]
  }

  function Chars(s: string): seq<string> {
    if s == "" then [] else [[s[0]]] + Chars(s[1..])
  }

  /** The index of the first separator that is empty or occurs in the text; the last one if there is none. */
  function Pick(text: string, separators: seq<string>): (k: nat)
    requires separators != []
    ensures k < |separators|
  {
    if |separators| == 1 || separators[0] == "" || Contains(text, separators[0]) then 0
    else 1 + Pick(text, separators[1..])
  }

  function Pieces(text: string, sep: string): seq<string> {
    if sep != "" then SplitOn(text, sep) else Chars(text)
  }

  function Candidate(current: string, sep: string, piece: string): string {
    if current != "" then Strip(current + sep + piece) else Strip(piece)
  }

  function Just(current: string): seq<string> {
    if current != "" then [current] else []
  }

  function Slice(piece: string, i: nat, size: nat): string
    requires i < |piece|
  {
    Strip(if i + size <= |piece| then piece[i..i + size] else piece[i..])
  }

  /** The fallback: slices of chunkSize characters, each stripped. */
  function HardSlices(piece: string, i: nat, size: nat): seq<string>
    requires size >= 1
    decreases |piece| - i
  {
    if i >= |piece| then [] else [Slice(piece, i, size)] + HardSlices(piece, i + size, size)
  }

  /** A piece that is too long by itself goes to the separators that are left. */
  function SplitPiece(piece: string, rest: seq<string>, config: Config): seq<string>
    requires config.chunkSize >= 1
    decreases |rest|, 1, 0
  {
    if rest != [] then Split(Strip(piece), rest, config) else HardSlices(piece, 0, config.chunkSize)
  }

  /** Greedy merging of the pieces from the i-th on, `current` being the chunk under construction. */
  function Merge(pieces: seq<string>, i: nat, sep: string, rest: seq<string>, current: string,
                 config: Config): seq<string>
    requires config.chunkSize >= 1 && i <= |pieces|
    decreases |rest|, 2, |pieces| - i
  {
    if i == |pieces| then Just(current)
    else
      var candidate := Candidate(current, sep, pieces[i]);
      if |candidate| <= config.chunkSize then Merge(pieces, i + 1, sep, rest, candidate, config)
      else if |Strip(pieces[i])| > config.chunkSize then
        Just(current) + SplitPiece(pieces[i], rest, config) + Merge(pieces, i + 1, sep, rest, "", config)
      else
        Just(current) + Merge(pieces, i + 1, sep, rest, Strip(pieces[i]), config)
  }

  function NonEmpty(chunks: seq<string>): seq<string> {
    if chunks == [] then []
    else NonEmpty(chunks[..|chunks| - 1]) + Just(chunks[|chunks| - 1])
  }

  /** The last n characters. */
  function LastChars(s: string, n: nat): string {
    if |s| <= n then s else s[|s| - n..]
  }

  function Overlapped(before: string, chunk: string, config: Config): string
    requires config.chunkOverlap > 0
  {
    var joined := Strip(LastChars(before, config.chunkOverlap) + " " + chunk);
    if |joined| > config.chunkSize then chunk else joined
  }

  /** The i-th chunk, after the first extended by the end of the chunk before it. */
  function OverlapAt(chunks: seq<string>, i: nat, config: Config): string
    requires config.chunkOverlap > 0 && i < |chunks|
  {
    if i == 0 then chunks[0] else Overlapped(chunks[i - 1], chunks[i], config)
  }

  function WithOverlap(chunks: seq<string>, config: Config): (r: seq<string>)
    requires config.chunkOverlap > 0
    ensures |r| == |chunks|
  {
    seq(|chunks|, i requires 0 <= i < |chunks| => OverlapAt(chunks, i, config))
  }

  function Finish(chunks: seq<string>, config: Config): seq<string> {
    if config.chunkOverlap > 0 && |chunks| > 1 then WithOverlap(chunks, config) else NonEmpty(chunks)
  }

  function Split(text: string, separators: seq<string>, config: Config): seq<string>
    requires separators != [] && config.chunkSize >= 1
    decreases |separators|, 0, 0
  {
    if |text| <= config.chunkSize then Just(Strip(text))
    else
      var k := Pick(text, separators);
      Finish(Merge(Pieces(text, separators[k]), 0, separators[k], separators[k + 1..], "", config), config)
  }

  // ---- The program's loops ----

  method PickSeparator(text: string, separators: seq<string>) returns (k: nat)
    requires separators != []
    ensures k == Pick(text, separators)
  {
    k := 0;
    while k < |separators| - 1 && separators[k] != "" && !Contains(text, separators[k])
      invariant 0 <= k < |separators|
      invariant Pick(text, separators) == k + Pick(text, separators[k..])
    {
      assert separators[k..][1..] == separators[k + 1..];
      k := k + 1;
    }
  }

  method HardSlice(piece: string, size: nat) returns (slices: seq<string>)
    requires size >= 1
    ensures slices == HardSlices(piece, 0, size)
  {
    slices := [];
    var i := 0;
    ghost var whole := HardSlices(piece, 0, size);
    while i < |piece|
      invariant slices + HardSlices(piece, i, size) == whole
      decreases |piece| - i
    {
      var slice := Slice(piece, i, size);
      AssocThree(slices, [slice], HardSlices(piece, i + size, size));
      slices := slices + [slice];
      i := i + size;
    }
  }

  method ApplyOverlap(chunks: seq<string>, config: Config) returns (result: seq<string>)
    requires config.chunkOverlap > 0 && chunks != []
    ensures result == WithOverlap(chunks, config)
  {
    result := [chunks[0]];
    for i := 1 to |chunks|
      invariant |result| == i
      invariant forall j | 0 <= j < i :: result[j] == OverlapAt(chunks, j, config)
    {
      result := result + [OverlapAt(chunks, i, config)];
    }
  }

  /** The merging loop of the splitter, with its recursive call. */
  method MergePieces(splits: seq<string>, separator: string, remaining: seq<string>, config: Config)
        returns (finalChunks: seq<string>)
    requires config.chunkSize >= 1
    ensures finalChunks == Merge(splits, 0, separator, remaining, "", config)
    decreases |remaining|, 1
  {
    finalChunks := [];
    var currentChunk := "";
    ghost var whole := Merge(splits, 0, separator, remaining, "", config);
    for i := 0 to |splits|
      invariant finalChunks + Merge(splits, i, separator, remaining, currentChunk, config) == whole
    {
      var piece := splits[i];
      var candidate := Candidate(currentChunk, separator, piece);
      if |candidate| <= config.chunkSize {
        currentChunk := candidate;
        continue;
      }
      ghost var before, current := finalChunks, currentChunk;
      finalChunks := finalChunks + Just(currentChunk);
      if |Strip(piece)| > config.chunkSize {
        var sub := SplitLongPiece(piece, remaining, config);
        finalChunks := finalChunks + sub;
        currentChunk := "";
        AssocFour(before, Just(current), sub, Merge(splits, i + 1, separator, remaining, "", config));
      } else {
        currentChunk := Strip(piece);
        AssocThree(before, Just(current), Merge(splits, i + 1, separator, remaining, currentChunk, config));
      }
    }
    finalChunks := finalChunks + Just(currentChunk);
  }

  method SplitLongPiece(piece: string, remaining: seq<string>, config: Config) returns (chunks: seq<string>)
    requires config.chunkSize >= 1
    ensures chunks == SplitPiece(piece, remaining, config)
    decreases |remaining|, 0, 1
  {
    if remaining != [] {
      chunks := SplitRecursive(Strip(piece), remaining, config);
    } else {
      chunks := HardSlice(piece, config.chunkSize);
    }
  }

  method SplitRecursive(text: string, separators: seq<string>, config: Config) returns (chunks: seq<string>)
    requires separators != [] && config.chunkSize >= 1
    ensures chunks == Split(text, separators, config)
    decreases |separators|, 0, 0
  {
    if |text| <= config.chunkSize {
      return Just(Strip(text));
    }
    var k := PickSeparator(text, separators);
    var finalChunks := MergePieces(Pieces(text, separators[k]), separators[k], separators[k + 1..], config);
    if config.chunkOverlap > 0 && |finalChunks| > 1 {
      chunks := ApplyOverlap(finalChunks, config);
    } else {
      chunks := NonEmpty(finalChunks);
    }
  }

  lemma AssocFour<T>(a: seq<T>, b: seq<T>, c: seq<T>, d: seq<T>)
    ensures a + (b + c + d) == a + b + c + d
  {
  }

  lemma AssocThree<T>(a: seq<T>, b: seq<T>, c: seq<T>)
    ensures a + (b + c) == a + b + c
  {
  }

  // ---- Every chunk fits ----

  /** A chunk as the splitter should produce it. */
  ghost predicate Fits(chunk: string, size: nat) {
    chunk != "" && Trimmed(chunk, PYTHON_SPACES) && |chunk| <= size
  }

  ghost predicate AllFit(chunks: seq<string>, size: nat) {
    forall i | 0 <= i < |chunks| :: Fits(chunks[i], size)
  }

  /** The separator list of the program and its tails: non-empty separators and the empty one at the end. */
  ghost predicate EndsEmpty(separators: seq<string>) {
    && separators != [] && separators[|separators| - 1] == ""
    && forall i | 0 <= i < |separators| - 1 :: separators[i] != ""
  }

  lemma {:induction false} CharsShort(s: string)
    ensures forall i | 0 <= i < |Chars(s)| :: |Chars(s)[i]| == 1
  {
    if s != "" {
      CharsShort(s[1..]);
    }
  }

  /** The slicing by characters is never reached: when no separator is left the pieces are single characters. */
  lemma FallbackUnreachable(text: string, separators: seq<string>, size: nat, i: nat)
    requires EndsEmpty(separators) && size >= 1
    requires var k := Pick(text, separators); separators[k + 1..] == [] && i < |Pieces(text, separators[k])|
    ensures var k := Pick(text, separators); |Strip(Pieces(text, separators[k])[i])| <= size
  {
    var k := Pick(text, separators);
    assert k == |separators| - 1 && separators[k] == "";
    CharsShort(text);
  }

  lemma {:induction false} NonEmptyKeeps(chunks: seq<string>)
    requires forall i | 0 <= i < |chunks| :: chunks[i] != ""
    ensures NonEmpty(chunks) == chunks
  {
    if chunks != [] {
      var n := |chunks| - 1;
      NonEmptyKeeps(chunks[..n]);
      assert chunks == chunks[..n] + [chunks[n]];
    }
  }

  ghost predicate EndsWith(s: string, tail: string) {
    |tail| <= |s| && s[|s| - |tail|..] == tail
  }

  lemma {:induction false} TrimLeftEndsWith(s: string, tail: string, blanks: string)
    requires EndsWith(s, tail) && tail != "" && !Blank(tail[0], blanks)
    ensures EndsWith(TrimLeft(s, blanks), tail)
  {
    if Blank(s[0], blanks) {
      assert |s| > |tail|;
      assert s[1..][|s| - 1 - |tail|..] == s[|s| - |tail|..];
      TrimLeftEndsWith(s[1..], tail, blanks);
    }
  }

  /** Stripping cannot cut into a trimmed ending. */
  lemma StripEndsWith(s: string, tail: string)
    requires EndsWith(s, tail) && tail != "" && Trimmed(tail, PYTHON_SPACES)
    ensures EndsWith(Strip(s), tail)
  {
    TrimLeftEndsWith(s, tail, PYTHON_SPACES);
    var left := TrimLeft(s, PYTHON_SPACES);
    assert left[|left| - 1] == left[|left| - |tail|..][|tail| - 1];
  }

  lemma OverlappedEndsWith(before: string, chunk: string, config: Config)
    requires config.chunkOverlap > 0 && Fits(chunk, config.chunkSize)
    ensures EndsWith(Overlapped(before, chunk, config), chunk)
    ensures Fits(Overlapped(before, chunk, config), config.chunkSize)
  {
    var s := LastChars(before, config.chunkOverlap) + " " + chunk;
    assert EndsWith(s, chunk);
    StripEndsWith(s, chunk);
  }

  /** Overlap keeps the number of chunks, and each chunk still fits and ends with what it was. */
  lemma FinishFits(chunks: seq<string>, config: Config)
    requires AllFit(chunks, config.chunkSize)
    ensures AllFit(Finish(chunks, config), config.chunkSize) && |Finish(chunks, config)| == |chunks|
    ensures forall i | 0 <= i < |chunks| :: EndsWith(Finish(chunks, config)[i], chunks[i])
  {
    assert forall i | 0 <= i < |chunks| :: Fits(chunks[i], config.chunkSize);
    NonEmptyKeeps(chunks);
    if config.chunkOverlap > 0 && |chunks| > 1 {
      forall i | 0 <= i < |chunks|
        ensures Fits(Finish(chunks, config)[i], config.chunkSize) && EndsWith(Finish(chunks, config)[i], chunks[i])
      {
        assert WithOverlap(chunks, config)[i] == OverlapAt(chunks, i, config);
        if i > 0 {
          OverlappedEndsWith(chunks[i - 1], chunks[i], config);
        }
      }
    }
  }

  /** A chunk under construction: nothing yet, or something that fits. */
  ghost predicate Building(current: string, size: nat) {
    Trimmed(current, PYTHON_SPACES) && |current| <= size
  }

  /** No piece that would need the fallback. */
  ghost predicate Splittable(pieces: seq<string>, rest: seq<string>, size: nat) {
    rest == [] ==> forall i | 0 <= i < |pieces| :: |Strip(pieces[i])| <= size
  }

  lemma AllFitAppend(a: seq<string>, b: seq<string>, size: nat)
    requires AllFit(a, size) && AllFit(b, size)
    ensures AllFit(a + b, size)
  {
  }

  lemma {:induction false} MergeFits(pieces: seq<string>, i: nat, sep: string, rest: seq<string>, current: string,
                                     config: Config)
    requires config.chunkSize >= 1 && i <= |pieces| && Building(current, config.chunkSize)
    requires rest == [] || EndsEmpty(rest)
    requires Splittable(pieces, rest, config.chunkSize)
    ensures AllFit(Merge(pieces, i, sep, rest, current, config), config.chunkSize)
    decreases |rest|, 1, |pieces| - i
  {
    var size := config.chunkSize;
    if i < |pieces| {
      var candidate := Candidate(current, sep, pieces[i]);
      if |candidate| <= size {
        MergeFits(pieces, i + 1, sep, rest, candidate, config);
      } else if |Strip(pieces[i])| > size {
        SplitFits(Strip(pieces[i]), rest, config);
        MergeFits(pieces, i + 1, sep, rest, "", config);
        AllFitAppend(Just(current), SplitPiece(pieces[i], rest, config), size);
        AllFitAppend(Just(current) + SplitPiece(pieces[i], rest, config), Merge(pieces, i + 1, sep, rest, "", config),
            size);
      } else {
        MergeFits(pieces, i + 1, sep, rest, Strip(pieces[i]), config);
        AllFitAppend(Just(current), Merge(pieces, i + 1, sep, rest, Strip(pieces[i]), config), size);
      }
    }
  }

  /** For every text, chunk size and overlap, every chunk is non-empty, trimmed and within the chunk size. */
  lemma {:induction false} SplitFits(text: string, separators: seq<string>, config: Config)
    requires EndsEmpty(separators) && config.chunkSize >= 1
    ensures AllFit(Split(text, separators, config), config.chunkSize)
    decreases |separators|, 0, 0
  {
    if |text| > config.chunkSize {
      var k := Pick(text, separators);
      var pieces, rest := Pieces(text, separators[k]), separators[k + 1..];
      if rest == [] {
        forall i | 0 <= i < |pieces|
          ensures |Strip(pieces[i])| <= config.chunkSize
        {
          FallbackUnreachable(text, separators, config.chunkSize, i);
        }
      }
      MergeFits(pieces, 0, separators[k], rest, "", config);
      FinishFits(Merge(pieces, 0, separators[k], rest, "", config), config);
    }
  }
}
