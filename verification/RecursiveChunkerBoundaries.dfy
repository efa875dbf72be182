/**
 Where the recursive splitter cuts: at which separator, into which pieces, and, when the words of the
 text fit, only between words.
*/
module RecursiveChunkerBoundaries {
  import opened Text
  import opened Stretches
  import opened RecursiveChunker
  import opened RecursiveChunkerLaws

  // ---- Which separator ----

  ghost predicate OccursAt(text: string, p: string, j: int) {
    0 <= j <= |text| - |p| && text[j..j + |p|] == p
  }

  ghost predicate Occurs(text: string, p: string) {
    exists j :: OccursAt(text, p, j)
  }

  lemma OccursOneOn(text: string, p: string, j: int)
    requires text != "" && j >= 0
    ensures OccursAt(text[1..], p, j) <==> OccursAt(text, p, j + 1)
  {
    if j + 1 + |p| <= |text| {
      assert text[1..][j..j + |p|] == text[j + 1..j + 1 + |p|];
    }
  }

  lemma {:induction false} ContainsOccurs(text: string, p: string)
    requires Contains(text, p)
    ensures Occurs(text, p)
  {
    if StartsWith(text, p) {
      assert OccursAt(text, p, 0);
    } else {
      ContainsOccurs(text[1..], p);
      var j :| OccursAt(text[1..], p, j);
      OccursOneOn(text, p, j);
    }
  }

  lemma {:induction false} OccurringIsContained(text: string, p: string, j: int)
    requires OccursAt(text, p, j)
    ensures Contains(text, p)
  {
    if j > 0 {
      OccursOneOn(text, p, j - 1);
      OccurringIsContained(text[1..], p, j - 1);
    }
  }

  lemma ContainsIff(text: string, p: string)
    ensures Contains(text, p) <==> Occurs(text, p)
  {
    if Contains(text, p) {
      ContainsOccurs(text, p);
    } else if j :| OccursAt(text, p, j) {
      OccurringIsContained(text, p, j);
    }
  }

  /** A text can be split at every one of these: the empty one always, the others where they occur. */
  ghost predicate Splits(text: string, sep: string) {
    sep == "" || Occurs(text, sep)
  }

  /** The first separator that is empty or occurs in the text, or the last if there is none. */
  ghost predicate Coarsest(k: nat, text: string, separators: seq<string>) {
    && k < |separators|
    && (Splits(text, separators[k]) || k == |separators| - 1)
    && forall m | 0 <= m < k :: !Splits(text, separators[m])
  }

  lemma {:induction false} PickIsCoarsest(text: string, separators: seq<string>)
    requires separators != []
    ensures Coarsest(Pick(text, separators), text, separators)
  {
    ContainsIff(text, separators[0]);
    if |separators| > 1 && !Splits(text, separators[0]) {
      PickIsCoarsest(text, separators[1..]);
      var k := Pick(text, separators[1..]);
      forall m | 0 <= m < k + 1
        ensures !Splits(text, separators[m])
      {
        assert m > 0 ==> separators[1..][m - 1] == separators[m];
      }
    }
  }

  // ---- Which pieces ----

  /** sep.join */
  function JoinOn(pieces: seq<string>, sep: string): string
    requires pieces != []
  {
    if |pieces| == 1 then pieces[0] else pieces[0] + sep + JoinOn(pieces[1..], sep)
  }

  /** In the piece, or beginning in it when the separator follows, there is no other separator. */
  ghost predicate CutEarly(pieces: seq<string>, i: nat, sep: string)
    requires i < |pieces|
  {
    && !Occurs(pieces[i], sep)
    && (i < |pieces| - 1 ==> forall j | 0 <= j < |pieces[i]| :: !OccursAt(pieces[i] + sep, sep, j))
  }

  ghost predicate AllCutEarly(pieces: seq<string>, sep: string) {
    forall i | 0 <= i < |pieces| :: CutEarly(pieces, i, sep)
  }

  lemma CutEarlyCons(first: string, rest: seq<string>, sep: string)
    requires rest != [] && AllCutEarly(rest, sep) && CutEarly([first] + rest, 0, sep)
    ensures AllCutEarly([first] + rest, sep)
  {
    var pieces := [first] + rest;
    forall i | 0 <= i < |pieces|
      ensures CutEarly(pieces, i, sep)
    {
      if i > 0 {
        assert pieces[i] == rest[i - 1] && CutEarly(rest, i - 1, sep);
      }
    }
  }

  lemma NothingInNothing(rest: seq<string>, sep: string)
    requires sep != "" && rest != []
    ensures CutEarly([""] + rest, 0, sep)
  {
    assert !Occurs("", sep);
  }

  lemma LongerFirst(c: char, pieces: seq<string>, sep: string)
    requires pieces != []
    ensures JoinOn([[c] + pieces[0]] + pieces[1..], sep) == [c] + JoinOn(pieces, sep)
  {
    var longer := [[c] + pieces[0]] + pieces[1..];
    if |pieces| > 1 {
      assert longer[1..] == pieces[1..];
      Assoc4([c], pieces[0], sep, JoinOn(pieces[1..], sep));
    }
  }

  lemma FirstIsPrefix(pieces: seq<string>, sep: string)
    requires pieces != []
    ensures StartsWith(JoinOn(pieces, sep), pieces[0])
    ensures |pieces| > 1 ==> StartsWith(JoinOn(pieces, sep), pieces[0] + sep)
  {
    if |pieces| > 1 {
      var first, after := pieces[0] + sep, JoinOn(pieces[1..], sep);
      assert (first + after)[..|first|] == first;
      assert first[..|pieces[0]|] == pieces[0];
    }
  }

  /** A separator in a text with one more character in front is at the front or in the text. */
  lemma OccursLater(c: char, s: string, p: string, j: int)
    requires OccursAt([c] + s, p, j) && j > 0
    ensures OccursAt(s, p, j - 1)
  {
    assert ([c] + s)[j..j + |p|] == s[j - 1..j - 1 + |p|];
  }

  lemma AtFront(s: string, sep: string, prefix: string)
    requires StartsWith(s, prefix) && OccursAt(prefix, sep, 0)
    ensures StartsWith(s, sep)
  {
    assert s[..|prefix|][..|sep|] == s[..|sep|];
  }

  lemma FirstCutEarly(c: char, s: string, pieces: seq<string>, sep: string)
    requires sep != "" && pieces != [] && s == JoinOn(pieces, sep) && !StartsWith([c] + s, sep)
    requires CutEarly(pieces, 0, sep)
    ensures CutEarly([[c] + pieces[0]] + pieces[1..], 0, sep)
  {
    var longer := [[c] + pieces[0]] + pieces[1..];
    LongerFirst(c, pieces, sep);
    FirstIsPrefix(longer, sep);
    var first := longer[0];
    if Occurs(first, sep) {
      var j :| OccursAt(first, sep, j);
      if j > 0 {
        OccursLater(c, pieces[0], sep, j);
      } else {
        AtFront([c] + s, sep, first);
      }
    }
    if |longer| > 1 {
      forall j | 0 <= j < |first|
        ensures !OccursAt(first + sep, sep, j)
      {
        assert first + sep == [c] + (pieces[0] + sep);
        if OccursAt(first + sep, sep, j) {
          if j > 0 {
            OccursLater(c, pieces[0] + sep, sep, j);
          } else {
            AtFront([c] + s, sep, first + sep);
          }
        }
      }
    }
  }

  lemma RestCutEarly(first: string, pieces: seq<string>, sep: string)
    requires pieces != [] && AllCutEarly(pieces, sep) && CutEarly([first] + pieces[1..], 0, sep)
    ensures AllCutEarly([first] + pieces[1..], sep)
  {
    var longer := [first] + pieces[1..];
    forall i | 0 <= i < |longer|
      ensures CutEarly(longer, i, sep)
    {
      assert i > 0 ==> longer[i] == pieces[i] && CutEarly(pieces, i, sep);
    }
  }

  /**
   The pieces joined with the separator are the text, no piece contains it, and each was cut off at the
   first place where it occurs.
  */
  lemma {:induction false} SplitOnIsSplit(s: string, sep: string)
    requires sep != ""
    ensures JoinOn(SplitOn(s, sep), sep) == s
    ensures AllCutEarly(SplitOn(s, sep), sep)
    decreases |s|
  {
    if s == "" {
      assert !Occurs("", sep);
    } else if StartsWith(s, sep) {
      var rest := SplitOn(s[|sep|..], sep);
      SplitOnIsSplit(s[|sep|..], sep);
      NothingInNothing(rest, sep);
      CutEarlyCons("", rest, sep);
      assert ([""] + rest)[1..] == rest;
      assert "" + sep + s[|sep|..] == s;
    } else {
      var rest := SplitOn(s[1..], sep);
      SplitOnIsSplit(s[1..], sep);
      assert [s[0]] + s[1..] == s;
      LongerFirst(s[0], rest, sep);
      FirstCutEarly(s[0], s[1..], rest, sep);
      RestCutEarly([s[0]] + rest[0], rest, sep);
    }
  }

  /** The empty separator splits into the characters. */
  lemma {:induction false} CharsAre(s: string)
    ensures |Chars(s)| == |s| && forall i | 0 <= i < |s| :: Chars(s)[i] == [s[i]]
  {
    if s != "" {
      CharsAre(s[1..]);
    }
  }

  // ---- One level of the splitter ----

  /** The pieces of a text at a separator, without the function that computes them. */
  ghost predicate PiecesOf(pieces: seq<string>, text: string, sep: string) {
    if sep != "" then pieces != [] && JoinOn(pieces, sep) == text && AllCutEarly(pieces, sep)
    else |pieces| == |text| && forall i | 0 <= i < |text| :: pieces[i] == [text[i]]
  }

  lemma PiecesArePieces(text: string, sep: string)
    ensures PiecesOf(Pieces(text, sep), text, sep)
  {
    if sep != "" {
      SplitOnIsSplit(text, sep);
    } else {
      CharsAre(text);
    }
  }

  /** The chunks of consecutive greedy runs of the pieces, a piece that is too long alone being split further. */
  ghost predicate InRuns(chunks: seq<string>, pieces: seq<string>, cuts: seq<nat>, sep: string, rest: seq<string>,
                         config: Config)
    requires config.chunkSize >= 1
  {
    && AreCuts(pieces, cuts, JoinWith(sep), config.chunkSize) && cuts[0] == 0
    && chunks == AllChunks(pieces, cuts, JoinWith(sep), SplitWith(rest, config), config.chunkSize)
  }

  lemma MergeInRuns(chunks: seq<string>, pieces: seq<string>, sep: string, rest: seq<string>, config: Config)
      returns (cuts: seq<nat>)
    requires config.chunkSize >= 1 && chunks == Merge(pieces, 0, sep, rest, "", config)
    ensures InRuns(chunks, pieces, cuts, sep, rest, config)
  {
    cuts := MergeIsGreedy(pieces, sep, rest, config);
  }

  lemma SplitIsFinished(text: string, separators: seq<string>, config: Config) returns (merged: seq<string>)
    requires EndsEmpty(separators) && config.chunkSize >= 1 && |text| > config.chunkSize
    ensures var k := Pick(text, separators);
            merged == Merge(Pieces(text, separators[k]), 0, separators[k], separators[k + 1..], "", config)
    ensures AllFit(merged, config.chunkSize) && Split(text, separators, config) == Finish(merged, config)
  {
    var k := Pick(text, separators);
    merged := Merge(Pieces(text, separators[k]), 0, separators[k], separators[k + 1..], "", config);
    NothingTooLong(text, separators, config);
    MergeFits(Pieces(text, separators[k]), 0, separators[k], separators[k + 1..], "", config);
  }

  lemma SplitIsMerge(text: string, separators: seq<string>, config: Config)
    requires EndsEmpty(separators) && config.chunkSize >= 1 && config.chunkOverlap <= 0 && |text| > config.chunkSize
    ensures var k := Pick(text, separators);
            Split(text, separators, config)
            == Merge(Pieces(text, separators[k]), 0, separators[k], separators[k + 1..], "", config)
  {
    var merged := SplitIsFinished(text, separators, config);
    PlainFinish(merged, config);
  }

  /** The longest end of the text that is within n characters and does not start with white space. */
  ghost predicate IsLongestTail(s: string, t: string, n: nat) {
    Tail(s, t, n) && forall u | Tail(s, u, n) :: |u| <= |t|
  }

  /** The chunk, after a space and the end of the one before it, if there is overlap and they fit together. */
  ghost predicate OverlapsAt(result: seq<string>, chunks: seq<string>, i: nat, config: Config)
    requires 0 < i < |chunks| == |result|
  {
    if config.chunkOverlap <= 0 then result[i] == chunks[i]
    else
      exists t | IsLongestTail(chunks[i - 1], t, config.chunkOverlap) ::
        result[i] == if |t| + 1 + |chunks[i]| <= config.chunkSize then t + " " + chunks[i] else chunks[i]
  }

  ghost predicate Overlaps(result: seq<string>, chunks: seq<string>, config: Config) {
    && |result| == |chunks| && (chunks != [] ==> result[0] == chunks[0])
    && forall i | 0 < i < |chunks| :: OverlapsAt(result, chunks, i, config)
  }

  lemma FinishOverlaps(chunks: seq<string>, config: Config)
    requires AllFit(chunks, config.chunkSize)
    ensures Overlaps(Finish(chunks, config), chunks, config)
  {
    assert forall i | 0 <= i < |chunks| :: Fits(chunks[i], config.chunkSize);
    NonEmptyKeeps(chunks);
    if config.chunkOverlap > 0 {
      forall i | 0 < i < |chunks|
        ensures OverlapsAt(Finish(chunks, config), chunks, i, config)
      {
        var t := OverlapIsLongestTail(chunks, config, i);
        assert IsLongestTail(chunks[i - 1], t, config.chunkOverlap);
      }
    }
  }

  lemma RunsThenOverlap(result: seq<string>, chunks: seq<string>, pieces: seq<string>, sep: string,
                        rest: seq<string>, config: Config) returns (cuts: seq<nat>)
    requires config.chunkSize >= 1 && chunks == Merge(pieces, 0, sep, rest, "", config)
    requires AllFit(chunks, config.chunkSize) && result == Finish(chunks, config)
    ensures InRuns(chunks, pieces, cuts, sep, rest, config) && Overlaps(result, chunks, config)
  {
    FinishOverlaps(chunks, config);
    cuts := MergeInRuns(chunks, pieces, sep, rest, config);
  }

  /**
   A text that is too long is split at the first separator of the list that is empty or occurs in it, into
   the pieces between its occurrences, and these are cut into greedy runs; only a piece that is too long by
   itself goes to the separators after that one. Then each chunk but the first is given its overlap.
  */
  lemma SplitAtCoarsest(text: string, separators: seq<string>, config: Config)
      returns (k: nat, pieces: seq<string>, cuts: seq<nat>, chunks: seq<string>)
    requires EndsEmpty(separators) && config.chunkSize >= 1 && |text| > config.chunkSize
    ensures Coarsest(k, text, separators)
    ensures PiecesOf(pieces, text, separators[k])
    ensures InRuns(chunks, pieces, cuts, separators[k], separators[k + 1..], config)
    ensures Overlaps(Split(text, separators, config), chunks, config)
  {
    k := Pick(text, separators);
    pieces := Pieces(text, separators[k]);
    PickIsCoarsest(text, separators);
    PiecesArePieces(text, separators[k]);
    chunks := SplitIsFinished(text, separators, config);
    cuts := RunsThenOverlap(Split(text, separators, config), chunks, pieces, separators[k], separators[k + 1..],
        config);
  }

  /** A text that fits is one chunk, without the white space at its ends, or none if it is nothing else. */
  lemma FittingTextIsOneChunk(text: string, separators: seq<string>, config: Config)
      returns (left: string, chunk: string, right: string)
    requires separators != [] && config.chunkSize >= 1 && |text| <= config.chunkSize
    ensures text == left + chunk + right && AllBlank(left, PYTHON_SPACES) && AllBlank(right, PYTHON_SPACES)
    ensures Trimmed(chunk, PYTHON_SPACES)
    ensures Split(text, separators, config) == if chunk == "" then [] else [chunk]
  {
    chunk := Strip(text);
    left, right := TrimParts(text, PYTHON_SPACES);
  }

  lemma {:induction false} JoinOnAppend(pieces: seq<string>, piece: string, sep: string)
    requires pieces != []
    ensures JoinOn(pieces + [piece], sep) == JoinOn(pieces, sep) + sep + piece
  {
    if |pieces| > 1 {
      JoinOnAppend(pieces[1..], piece, sep);
      assert (pieces + [piece])[1..] == pieces[1..] + [piece];
      Assoc4(pieces[0] + sep, JoinOn(pieces[1..], sep), sep, piece);
    } else {
      assert (pieces + [piece])[1..] == [piece];
    }
  }

  ghost predicate Clean(piece: string) {
    piece != "" && Trimmed(piece, PYTHON_SPACES)
  }

  lemma CandidateIsJoined(current: string, sep: string, piece: string)
    requires Clean(current) && Clean(piece)
    ensures Candidate(current, sep, piece) == current + sep + piece && Clean(current + sep + piece)
  {
    var joined := current + sep + piece;
    assert joined[0] == current[0] && joined[|joined| - 1] == piece[|piece| - 1];
  }

  lemma FoldStep(pieces: seq<string>, i: nat, j: nat, sep: string)
    requires i < j <= |pieces|
    ensures Fold(pieces, i, j, JoinWith(sep))
         == Candidate(if j == i + 1 then "" else Fold(pieces, i, j - 1, JoinWith(sep)), sep, pieces[j - 1])
  {
  }

  lemma RunGrows(pieces: seq<string>, i: nat, j: nat, sep: string, run: seq<string>, before: string)
    requires i + 1 < j <= |pieces| && Clean(pieces[j - 1]) && Clean(before) && run != []
    requires before == Fold(pieces, i, j - 1, JoinWith(sep)) && before == JoinOn(run, sep)
    ensures Clean(Fold(pieces, i, j, JoinWith(sep)))
    ensures Fold(pieces, i, j, JoinWith(sep)) == JoinOn(run + [pieces[j - 1]], sep)
  {
    FoldStep(pieces, i, j, sep);
    CandidateIsJoined(before, sep, pieces[j - 1]);
    JoinOnAppend(run, pieces[j - 1], sep);
  }

  lemma SliceGrows(pieces: seq<string>, i: nat, j: nat)
    requires i < j <= |pieces|
    ensures pieces[i..j] == pieces[i..j - 1] + [pieces[j - 1]]
  {
  }

  /** Pieces without white space at their ends are merged by putting the separator back between them. */
  lemma {:induction false} RunIsJoined(pieces: seq<string>, i: nat, j: nat, sep: string)
    requires i < j <= |pieces| && forall m | i <= m < j :: Clean(pieces[m])
    ensures Clean(Fold(pieces, i, j, JoinWith(sep)))
    ensures Fold(pieces, i, j, JoinWith(sep)) == JoinOn(pieces[i..j], sep)
    decreases j - i
  {
    assert Clean(pieces[j - 1]);
    if j == i + 1 {
      FoldStep(pieces, i, j, sep);
    } else {
      RunIsJoined(pieces, i, j - 1, sep);
      SliceGrows(pieces, i, j);
      RunGrows(pieces, i, j, sep, pieces[i..j - 1], Fold(pieces, i, j - 1, JoinWith(sep)));
    }
  }

  // ---- Words stay whole ----

  /** The words of a text, without separator punctuation at their ends. */
  function WordsOf(s: string): seq<string> {
    Words(s, PUNCTUATION)
  }

  /** What f gives for the parts, one after the other. */
  function OfAll(f: string -> seq<string>, parts: seq<string>): seq<string> {
    if parts == [] then [] else f(parts[0]) + OfAll(f, parts[1..])
  }

  function WordsOfAll(parts: seq<string>): seq<string> {
    OfAll(WordsOf, parts)
  }

  /** The character is no separator. */
  predicate Inner(c: char) {
    c != ' ' && c != '\n'
  }

  ghost predicate Unbroken(s: string) {
    forall i | 0 <= i < |s| :: Inner(s[i])
  }

  /** Every stretch between spaces and line ends fits. */
  ghost predicate StretchesFit(s: string, size: nat) {
    forall i, j | 0 <= i <= j <= |s| && Unbroken(s[i..j]) :: j - i <= size
  }

  lemma {:induction false} OfAllAppend(f: string -> seq<string>, a: seq<string>, b: seq<string>)
    ensures OfAll(f, a + b) == OfAll(f, a) + OfAll(f, b)
  {
    if a == [] {
      assert a + b == b;
    } else {
      OfAllAppend(f, a[1..], b);
      assert (a + b)[1..] == a[1..] + b;
      AssocThree(f(a[0]), OfAll(f, a[1..]), OfAll(f, b));
    }
  }

  lemma OfAllOne(f: string -> seq<string>, part: string)
    ensures OfAll(f, [part]) == f(part)
  {
    assert OfAll(f, [part][1..]) == [];
    assert f(part) + [] == f(part);
  }

  lemma WordsOfJust(current: string)
    ensures WordsOfAll(Just(current)) == WordsOf(current)
  {
    if current == "" {
      WordsOfNothing(PUNCTUATION);
    } else {
      OfAllOne(WordsOf, current);
    }
  }

  /** Two texts with it in between have the words of the one and then of the other. */
  ghost predicate Gap(sep: string) {
    forall a, b {:trigger a + sep + b} :: WordsOf(a + sep + b) == WordsOf(a) + WordsOf(b)
  }

  lemma SpaceChar(c: char)
    requires c in " \n"
    ensures Blank(c, PYTHON_SPACES)
  {
    BlankIff(c, PYTHON_SPACES);
  }

  lemma PunctuationChar(c: char)
    requires c in PUNCTUATION
    ensures Blank(c, PUNCTUATION) && !Blank(c, PYTHON_SPACES)
  {
    BlankIff(c, PUNCTUATION);
    BlankIff(c, PYTHON_SPACES);
  }

  lemma SpaceIsGap(sep: string)
    requires |sep| == 1 && sep[0] in " \n"
    ensures Gap(sep)
  {
    SpaceChar(sep[0]);
    assert sep == [sep[0]];
    forall a, b
      ensures WordsOf(a + sep + b) == WordsOf(a) + WordsOf(b)
    {
      WordsAroundBlank(a, sep[0], b, PUNCTUATION);
    }
  }

  lemma TwoParts(a: string, sep: string, b: string)
    requires |sep| == 2
    ensures a + sep + b == a + [sep[0]] + [sep[1]] + b == a + [sep[0]] + ([sep[1]] + b)
  {
    assert sep == [sep[0]] + [sep[1]];
    Assoc(a, [sep[0]], [sep[1]]);
    Assoc(a + [sep[0]], [sep[1]], b);
  }

  lemma WordsAroundLines(a: string, sep: string, b: string)
    requires sep == "\n\n"
    ensures WordsOf(a + sep + b) == WordsOf(a) + WordsOf(b)
  {
    SpaceChar('\n');
    TwoParts(a, sep, b);
    WordsAroundBlank(a, sep[0], [sep[1]] + b, PUNCTUATION);
    WordsAfterBlank([sep[1]], b, PUNCTUATION);
  }

  lemma WordsAroundPunctuation(a: string, sep: string, b: string)
    requires |sep| == 2 && sep[0] in PUNCTUATION && sep[1] == ' '
    ensures WordsOf(a + sep + b) == WordsOf(a) + WordsOf(b)
  {
    PunctuationChar(sep[0]);
    SpaceChar(sep[1]);
    TwoParts(a, sep, b);
    WordsAroundBlank(a + [sep[0]], sep[1], b, PUNCTUATION);
    WordsBeforeDropped(a, sep[0], PUNCTUATION);
  }

  lemma LinesAreGap(sep: string)
    requires sep == "\n\n"
    ensures Gap(sep)
  {
    forall a, b
      ensures WordsOf(a + sep + b) == WordsOf(a) + WordsOf(b)
    {
      WordsAroundLines(a, sep, b);
    }
  }

  lemma PunctuationIsGap(sep: string)
    requires |sep| == 2 && sep[0] in PUNCTUATION && sep[1] == ' '
    ensures Gap(sep)
  {
    forall a, b
      ensures WordsOf(a + sep + b) == WordsOf(a) + WordsOf(b)
    {
      WordsAroundPunctuation(a, sep, b);
    }
  }

  lemma SeparatorIsGap(k: nat)
    requires k < 8
    ensures Gap(SEPARATORS[k])
  {
    if k == 0 {
      LinesAreGap(SEPARATORS[k]);
    } else if k == 1 || k == 7 {
      SpaceIsGap(SEPARATORS[k]);
    } else {
      PunctuationIsGap(SEPARATORS[k]);
    }
  }

  lemma {:induction false} WordsOfJoined(pieces: seq<string>, sep: string)
    requires Gap(sep) && pieces != []
    ensures WordsOf(JoinOn(pieces, sep)) == WordsOfAll(pieces)
  {
    if |pieces| == 1 {
      assert WordsOfAll(pieces[1..]) == [];
    } else {
      WordsOfJoined(pieces[1..], sep);
    }
  }

  /** What f gives for the pieces from the i-th on. */
  function OfAllFrom(f: string -> seq<string>, pieces: seq<string>, i: nat): seq<string>
    requires i <= |pieces|
    decreases |pieces| - i
  {
    if i == |pieces| then [] else f(pieces[i]) + OfAllFrom(f, pieces, i + 1)
  }

  lemma {:induction false} OfAllFromIs(f: string -> seq<string>, pieces: seq<string>, i: nat)
    requires i <= |pieces|
    ensures OfAllFrom(f, pieces, i) == OfAll(f, pieces[i..])
    decreases |pieces| - i
  {
    if i < |pieces| {
      OfAllFromIs(f, pieces, i + 1);
    }
  }

  lemma OfAllThree(f: string -> seq<string>, a: seq<string>, b: seq<string>, c: seq<string>)
    ensures OfAll(f, a + b + c) == OfAll(f, a) + (OfAll(f, b) + OfAll(f, c))
  {
    OfAllAppend(f, a + b, c);
    OfAllAppend(f, a, b);
    AssocThree(OfAll(f, a), OfAll(f, b), OfAll(f, c));
  }

  lemma OfAllJust(f: string -> seq<string>, current: string)
    requires f("") == []
    ensures OfAll(f, Just(current)) == f(current)
  {
    if current != "" {
      OfAllOne(f, current);
    }
  }

  /** Joining two pieces, or splitting one that is too long, changes nothing that f sees. */
  ghost predicate Preserves(f: string -> seq<string>, pieces: seq<string>, join: (string, string) -> string,
                            split: string -> seq<string>, size: nat) {
    && f("") == []
    && (forall current, piece {:trigger join(current, piece)} :: f(join(current, piece)) == f(current) + f(piece))
    && (forall i | 0 <= i < |pieces| && |join("", pieces[i])| > size :: OfAll(f, split(pieces[i])) == f(pieces[i]))
  }

  lemma JoinAlone(f: string -> seq<string>, pieces: seq<string>, i: nat, current: string,
                  join: (string, string) -> string, split: string -> seq<string>, size: nat)
    requires i < |pieces| && Preserves(f, pieces, join, split, size)
    ensures f(join(current, pieces[i])) == f(current) + f(pieces[i])
    ensures f(join("", pieces[i])) == f(pieces[i])
    ensures |join("", pieces[i])| > size ==> OfAll(f, split(pieces[i])) == f(pieces[i])
  {
    assert [] + f(pieces[i]) == f(pieces[i]);
  }

  lemma AfterLong(f: string -> seq<string>, current: string, split: seq<string>, rest: seq<string>,
                  piece: seq<string>, after: seq<string>)
    requires f("") == [] && OfAll(f, split) == piece && OfAll(f, rest) == [] + after
    ensures OfAll(f, Just(current) + split + rest) == f(current) + (piece + after)
  {
    OfAllJust(f, current);
    OfAllThree(f, Just(current), split, rest);
    assert [] + after == after;
  }

  lemma AfterShort(f: string -> seq<string>, current: string, rest: seq<string>, after: seq<string>)
    requires f("") == [] && OfAll(f, rest) == after
    ensures OfAll(f, Just(current) + rest) == f(current) + after
  {
    OfAllJust(f, current);
    OfAllAppend(f, Just(current), rest);
  }

  lemma {:induction false} GreedyPreserves(f: string -> seq<string>, pieces: seq<string>, i: nat, current: string,
                                           join: (string, string) -> string, split: string -> seq<string>, size: nat)
    requires i <= |pieces| && Preserves(f, pieces, join, split, size)
    ensures OfAll(f, Greedy(pieces, i, current, join, split, size)) == f(current) + OfAllFrom(f, pieces, i)
    decreases |pieces| - i
  {
    if i == |pieces| {
      OfAllJust(f, current);
      assert f(current) + [] == f(current);
    } else {
      var piece, after := pieces[i], OfAllFrom(f, pieces, i + 1);
      JoinAlone(f, pieces, i, current, join, split, size);
      if |join(current, piece)| <= size {
        GreedyPreserves(f, pieces, i + 1, join(current, piece), join, split, size);
        AssocThree(f(current), f(piece), after);
      } else if |join("", piece)| > size {
        GreedyPreserves(f, pieces, i + 1, "", join, split, size);
        AfterLong(f, current, split(piece), Greedy(pieces, i + 1, "", join, split, size), f(piece), after);
      } else {
        GreedyPreserves(f, pieces, i + 1, join("", piece), join, split, size);
        AfterShort(f, current, Greedy(pieces, i + 1, join("", piece), join, split, size), f(piece) + after);
      }
    }
  }

  lemma CandidateKeepsWords(current: string, sep: string, piece: string)
    requires Gap(sep)
    ensures WordsOf(Candidate(current, sep, piece)) == WordsOf(current) + WordsOf(piece)
  {
    if current != "" {
      WordsTrim(current + sep + piece, PUNCTUATION);
    } else {
      WordsTrim(piece, PUNCTUATION);
      WordsOfNothing(PUNCTUATION);
    }
  }

  // ---- The stretches of a piece fit if those of the text do ----

  lemma PartFits(left: string, t: string, right: string, size: nat)
    requires StretchesFit(left + t + right, size)
    ensures StretchesFit(t, size)
    ensures '\n' !in left + t + right ==> '\n' !in t
  {
    var s := left + t + right;
    forall i, j | 0 <= i <= j <= |t| && Unbroken(t[i..j])
      ensures j - i <= size
    {
      assert s[|left| + i..|left| + j] == t[i..j];
    }
    assert forall i | 0 <= i < |t| :: t[i] == s[|left| + i];
  }

  lemma UnbrokenFits(s: string, size: nat)
    requires StretchesFit(s, size) && Unbroken(s)
    ensures |s| <= size
  {
    assert s[0..|s|] == s;
  }

  lemma {:induction false} PieceIsPart(pieces: seq<string>, i: nat, sep: string) returns (left: string, right: string)
    requires i < |pieces|
    ensures JoinOn(pieces, sep) == left + pieces[i] + right
  {
    if |pieces| == 1 {
      left, right := "", "";
    } else if i == 0 {
      left, right := "", sep + JoinOn(pieces[1..], sep);
    } else {
      left, right := PieceIsPart(pieces[1..], i - 1, sep);
      Assoc4(pieces[0] + sep, left, pieces[i], right);
      left := pieces[0] + sep + left;
    }
  }

  lemma OneOccurs(c: char, s: string)
    ensures Occurs(s, [c]) <==> c in s
  {
    if c in s {
      var j :| 0 <= j < |s| && s[j] == c;
      assert OccursAt(s, [c], j);
    }
    if Occurs(s, [c]) {
      var j :| OccursAt(s, [c], j);
      assert s[j] == s[j..j + 1][0];
    }
  }

  /** A text at a level of the recursion: its stretches fit, and at the finer levels it is one line. */
  ghost predicate Level(text: string, base: nat, size: nat) {
    base < 8 && StretchesFit(text, size) && (base >= 2 ==> '\n' !in text)
  }

  /** A text that is too long holds a separator that is not empty. */
  lemma LongTextSplits(text: string, base: nat, k: nat, size: nat)
    requires Level(text, base, size) && |text| > size && Coarsest(k, text, SEPARATORS[base..])
    ensures base + k < 8
  {
    if base + k >= 8 {
      assert SEPARATORS[base..][7 - base] == " " && !Splits(text, " ");
      OneOccurs(' ', text);
      if base < 2 {
        assert SEPARATORS[base..][1 - base] == "\n" && !Splits(text, "\n");
        OneOccurs('\n', text);
      }
      UnbrokenFits(text, size);
    }
  }

  /** A piece that does not fit goes on to the next level. */
  lemma PieceLevel(text: string, base: nat, k: nat, pieces: seq<string>, i: nat, size: nat)
    requires Level(text, base, size) && base + k < 8 && Coarsest(k, text, SEPARATORS[base..])
    requires PiecesOf(pieces, text, SEPARATORS[base + k]) && i < |pieces| && |Strip(pieces[i])| > size
    ensures Level(Strip(pieces[i]), base + k + 1, size)
  {
    var piece := pieces[i];
    assert CutEarly(pieces, i, SEPARATORS[base + k]);
    var left, right := PieceIsPart(pieces, i, SEPARATORS[base + k]);
    PartFits(left, piece, right, size);
    OneOccurs(' ', piece);
    OneOccurs('\n', piece);
    NoLineEnds(text, base, k, piece);
    if base + k == 7 {
      UnbrokenFits(piece, size);
    }
    var before, after := TrimParts(piece, PYTHON_SPACES);
    PartFits(before, Strip(piece), after, size);
  }

  lemma NoLineEnds(text: string, base: nat, k: nat, piece: string)
    requires base + k < 8 && Coarsest(k, text, SEPARATORS[base..]) && (base >= 2 ==> '\n' !in text)
    requires '\n' !in text ==> '\n' !in piece
    requires !Occurs(piece, SEPARATORS[base + k])
    ensures base + k >= 1 ==> '\n' !in piece
  {
    OneOccurs('\n', text);
    OneOccurs('\n', piece);
    if base < 2 && base + k >= 2 {
      assert SEPARATORS[base..][1 - base] == "\n" && !Splits(text, "\n");
    }
  }

  lemma {:induction false} SplitKeepsWords(text: string, base: nat, config: Config)
    requires config.chunkSize >= 1 && config.chunkOverlap <= 0 && Level(text, base, config.chunkSize)
    ensures WordsOfAll(Split(text, SEPARATORS[base..], config)) == WordsOf(text)
    decreases 8 - base, 1
  {
    if |text| <= config.chunkSize {
      WordsOfJust(Strip(text));
      WordsTrim(text, PUNCTUATION);
    } else {
      var k, pieces := OneLevel(text, base, config);
      PiecesKeepWords(text, base, k, pieces, config);
    }
  }

  lemma {:induction false} PiecesKeepWords(text: string, base: nat, k: nat, pieces: seq<string>, config: Config)
    requires config.chunkSize >= 1 && config.chunkOverlap <= 0 && Level(text, base, config.chunkSize)
    requires base + k < 8 && Coarsest(k, text, SEPARATORS[base..]) && PiecesOf(pieces, text, SEPARATORS[base + k])
    ensures WordsOfAll(Merge(pieces, 0, SEPARATORS[base + k], SEPARATORS[base + k + 1..], "", config)) == WordsOf(text)
    decreases 8 - base, 0
  {
    var split := SplitWith(SEPARATORS[base + k + 1..], config);
    forall i | 0 <= i < |pieces| && |JoinWith(SEPARATORS[base + k])("", pieces[i])| > config.chunkSize
      ensures OfAll(WordsOf, split(pieces[i])) == WordsOf(pieces[i])
    {
      PieceLevel(text, base, k, pieces, i, config.chunkSize);
      PieceKeepsWords(pieces[i], base + k + 1, SEPARATORS[base + k + 1..], config);
    }
    MergeKeepsWords(text, pieces, base + k, SEPARATORS[base + k + 1..], config);
  }

  lemma {:induction false} PieceKeepsWords(piece: string, base: nat, rest: seq<string>, config: Config)
    requires config.chunkSize >= 1 && config.chunkOverlap <= 0 && Level(Strip(piece), base, config.chunkSize)
    requires rest == SEPARATORS[base..]
    ensures OfAll(WordsOf, SplitWith(rest, config)(piece)) == WordsOf(piece)
    decreases 8 - base, 2
  {
    SplitKeepsWords(Strip(piece), base, config);
    WordsTrim(piece, PUNCTUATION);
  }

  lemma OneLevel(text: string, base: nat, config: Config) returns (k: nat, pieces: seq<string>)
    requires config.chunkSize >= 1 && config.chunkOverlap <= 0 && Level(text, base, config.chunkSize)
    requires |text| > config.chunkSize
    ensures base + k < 8 && Coarsest(k, text, SEPARATORS[base..])
    ensures PiecesOf(pieces, text, SEPARATORS[base + k])
    ensures Split(text, SEPARATORS[base..], config)
         == Merge(pieces, 0, SEPARATORS[base + k], SEPARATORS[base + k + 1..], "", config)
  {
    var separators := SEPARATORS[base..];
    assert EndsEmpty(separators);
    k := Pick(text, separators);
    PickIsCoarsest(text, separators);
    LongTextSplits(text, base, k, config.chunkSize);
    assert separators[k] == SEPARATORS[base + k] && separators[k + 1..] == SEPARATORS[base + k + 1..];
    pieces := Pieces(text, separators[k]);
    PiecesArePieces(text, separators[k]);
    SplitIsMerge(text, separators, config);
  }

  lemma WordsPreserved(pieces: seq<string>, sep: string, split: string -> seq<string>, size: nat)
    requires Gap(sep)
    requires forall i | 0 <= i < |pieces| && |JoinWith(sep)("", pieces[i])| > size ::
               OfAll(WordsOf, split(pieces[i])) == WordsOf(pieces[i])
    ensures Preserves(WordsOf, pieces, JoinWith(sep), split, size)
  {
    WordsOfNothing(PUNCTUATION);
    forall current, piece
      ensures WordsOf(JoinWith(sep)(current, piece)) == WordsOf(current) + WordsOf(piece)
    {
      CandidateKeepsWords(current, sep, piece);
    }
  }

  lemma MergeKeepsWords(text: string, pieces: seq<string>, at: nat, rest: seq<string>, config: Config)
    requires config.chunkSize >= 1 && at < 8 && PiecesOf(pieces, text, SEPARATORS[at])
    requires forall i | 0 <= i < |pieces| && |JoinWith(SEPARATORS[at])("", pieces[i])| > config.chunkSize ::
               OfAll(WordsOf, SplitWith(rest, config)(pieces[i])) == WordsOf(pieces[i])
    ensures WordsOfAll(Merge(pieces, 0, SEPARATORS[at], rest, "", config)) == WordsOf(text)
  {
    SeparatorIsGap(at);
    WordsPreserved(pieces, SEPARATORS[at], SplitWith(rest, config), config.chunkSize);
    MergeAtGap(text, pieces, SEPARATORS[at], rest, config);
  }

  lemma MergeAtGap(text: string, pieces: seq<string>, sep: string, rest: seq<string>, config: Config)
    requires config.chunkSize >= 1 && sep != "" && PiecesOf(pieces, text, sep) && Gap(sep)
    requires Preserves(WordsOf, pieces, JoinWith(sep), SplitWith(rest, config), config.chunkSize)
    ensures WordsOfAll(Merge(pieces, 0, sep, rest, "", config)) == WordsOf(text)
  {
    MergeIsGreedyForm(pieces, 0, sep, rest, "", config);
    GreedyPreserves(WordsOf, pieces, 0, "", JoinWith(sep), SplitWith(rest, config), config.chunkSize);
    OfAllFromIs(WordsOf, pieces, 0);
    assert pieces[0..] == pieces;
    WordsOfJoined(pieces, sep);
  }

  /**
   If every stretch between spaces and line ends fits the chunk size, then no chunk begins or ends inside
   a word: without overlap the words of the chunks, one chunk after the other, are the words of the text.
  */
  lemma WordsStayWhole(text: string, config: Config)
    requires config.chunkSize >= 1 && StretchesFit(text, config.chunkSize)
    ensures WordsOfAll(Split(text, SEPARATORS, Plain(config))) == WordsOf(text)
  {
    SplitKeepsWords(text, 0, Plain(config));
    assert SEPARATORS[0..] == SEPARATORS;
  }
}
