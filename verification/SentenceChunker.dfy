/**
 The sentence packer: consecutive sentences go into one chunk as long as their lengths add up to no
 more than the chunk size, and overlap repeats the last sentence of the chunk before where it fits.
*/
module SentenceChunker {
  import opened SentenceSplitter
  import opened Text

  function Total(group: seq<Sentence>): nat {
    if group == [] then 0 else Total(group[..|group| - 1]) + |group[|group| - 1].text|
  }

  function JoinAll(groups: seq<seq<Sentence>>): seq<string> {
    seq(|groups|, i requires 0 <= i < |groups| => JoinSpace(groups[i]))
  }

  /** One sentence: it joins the open group, or closes it and starts the next. */
  function Push(closed: seq<seq<Sentence>>, open: seq<Sentence>, s: Sentence,
                size: int): (seq<seq<Sentence>>, seq<Sentence>) {
    if Total(open) + |s.text| > size && open != [] then (closed + [open], [s]) else (closed, open + [s])
  }

  /** The groups of the first n sentences, the last one still open. */
  function Pack(sentences: seq<Sentence>, n: nat, size: int): (r: (seq<seq<Sentence>>, seq<Sentence>))
    requires n <= |sentences|
  {
    if n == 0 then ([], [])
    else var (closed, open) := Pack(sentences, n - 1, size); Push(closed, open, sentences[n - 1], size)
  }

  function Close(closed: seq<seq<Sentence>>, open: seq<Sentence>): seq<seq<Sentence>> {
    if open != [] then closed + [open] else closed
  }

  /** All groups. */
  function Groups(sentences: seq<Sentence>, size: int): seq<seq<Sentence>> {
    var (closed, open) := Pack(sentences, |sentences|, size);
    Close(closed, open)
  }

  /** The chunk with the last sentence of the one before it in front, if both fit together. */
  function Overlapped(before: string, chunk: string, size: int): string {
    var previous := SplitSentences(before);
    if previous == [] then chunk
    else
      var overlapped := Trim(previous[|previous| - 1].text + " " + chunk, PYTHON_SPACES);
      if |overlapped| <= size then overlapped else chunk
  }

  function WithOverlap(chunks: seq<string>, size: int): seq<string> {
    seq(|chunks|, i requires 0 <= i < |chunks| =>
      if i == 0 then chunks[0] else Overlapped(chunks[i - 1], chunks[i], size))
  }

  /** All chunks of a text. */
  function Chunks(text: string, size: int, overlap: int): seq<string> {
    var chunks := JoinAll(Groups(SplitSentences(text), size));
    if overlap > 0 && |chunks| > 1 then WithOverlap(chunks, size) else chunks
  }

  method OverlapNext(before: string, chunk: string, size: int) returns (next: string)
    ensures next == Overlapped(before, chunk, size)
  {
    next := chunk;
    var previous := SplitSentences(before);
    if previous != [] {
      var overlapped := Trim(previous[|previous| - 1].text + " " + chunk, PYTHON_SPACES);
      if |overlapped| <= size {
        next := overlapped;
      }
    }
  }

  method ApplyOverlap(chunks: seq<string>, size: int) returns (result: seq<string>)
    requires chunks != []
    ensures result == WithOverlap(chunks, size)
  {
    result := [chunks[0]];
    for i := 1 to |chunks|
      invariant result == WithOverlap(chunks, size)[..i]
    {
      var next := OverlapNext(chunks[i - 1], chunks[i], size);
      OverlapAt(chunks, size, i);
      NextOfSeq(WithOverlap(chunks, size), i);
      result := result + [next];
    }
  }

  lemma OverlapAt(chunks: seq<string>, size: int, i: nat)
    requires 0 < i < |chunks|
    ensures WithOverlap(chunks, size)[i] == Overlapped(chunks[i - 1], chunks[i], size)
  {
  }

  lemma NextOfSeq<T>(s: seq<T>, i: nat)
    requires i < |s|
    ensures s[..i + 1] == s[..i] + [s[i]]
  {
  }

  /** The chunks before the overlap step. */
  method Packed(sentences: seq<Sentence>, size: int) returns (chunks: seq<string>)
    ensures chunks == JoinAll(Groups(sentences, size))
  {
    chunks := [];
    var currentChunk: seq<Sentence> := [];
    var currentLen := 0;
    ghost var closed: seq<seq<Sentence>> := [];
    for i := 0 to |sentences|
      invariant (closed, currentChunk) == Pack(sentences, i, size)
      invariant chunks == JoinAll(closed)
      invariant currentLen == Total(currentChunk)
    {
      var sent := sentences[i];
      var sentLen := |sent.text|;
      TotalAppend(currentChunk, sent);
      TotalAppend([], sent);
      if currentLen + sentLen > size && currentChunk != [] {
        JoinAllAppend(closed, currentChunk);
        chunks := chunks + [JoinSpace(currentChunk)];
        closed := closed + [currentChunk];
        currentChunk := [sent];
        currentLen := sentLen;
        assert [] + [sent] == [sent];
      } else {
        currentChunk := currentChunk + [sent];
        currentLen := currentLen + sentLen;
      }
    }
    if currentChunk != [] {
      JoinAllAppend(closed, currentChunk);
      chunks := chunks + [JoinSpace(currentChunk)];
    }
  }

  method Chunk(text: string, size: int, overlap: int) returns (chunks: seq<string>)
    ensures chunks == Chunks(text, size, overlap)
  {
    var sentences := SplitSentences(text);
    chunks := Packed(sentences, size);
    if overlap > 0 && |chunks| > 1 {
      chunks := ApplyOverlap(chunks, size);
    }
  }

  lemma JoinAllAppend(closed: seq<seq<Sentence>>, open: seq<Sentence>)
    ensures JoinAll(closed + [open]) == JoinAll(closed) + [JoinSpace(open)]
  {
  }

  // ---- A partition into admissible groups ----

  function Concat(groups: seq<seq<Sentence>>): seq<Sentence> {
    if groups == [] then [] else Concat(groups[..|groups| - 1]) + groups[|groups| - 1]
  }

  /** A group that may be one chunk: a single sentence, or several whose lengths fit. */
  ghost predicate Admissible(group: seq<Sentence>, size: int) {
    group != [] && (|group| == 1 || Total(group) <= size)
  }

  ghost predicate AllAdmissible(groups: seq<seq<Sentence>>, size: int) {
    forall i | 0 <= i < |groups| :: Admissible(groups[i], size)
  }

  /** The sentences in order, cut into admissible groups. */
  ghost predicate IsPacking(groups: seq<seq<Sentence>>, sentences: seq<Sentence>, size: int) {
    Concat(groups) == sentences && AllAdmissible(groups, size)
  }

  lemma ConcatAppend(groups: seq<seq<Sentence>>, group: seq<Sentence>)
    ensures Concat(groups + [group]) == Concat(groups) + group
  {
    assert (groups + [group])[..|groups|] == groups;
  }

  lemma TotalAppend(group: seq<Sentence>, s: Sentence)
    ensures Total(group + [s]) == Total(group) + |s.text|
  {
    assert (group + [s])[..|group|] == group;
  }

  lemma AdmissibleAppend(groups: seq<seq<Sentence>>, group: seq<Sentence>, size: int)
    requires AllAdmissible(groups, size) && Admissible(group, size)
    ensures AllAdmissible(groups + [group], size)
  {
  }

  lemma {:induction false} PackIsPacking(sentences: seq<Sentence>, n: nat, size: int)
    requires n <= |sentences|
    ensures var (closed, open) := Pack(sentences, n, size);
            && AllAdmissible(closed, size) && Concat(closed) + open == sentences[..n]
            && (if n == 0 then closed == [] && open == [] else Admissible(open, size))
  {
    if n > 0 {
      PackIsPacking(sentences, n - 1, size);
      var (closed, open) := Pack(sentences, n - 1, size);
      var s := sentences[n - 1];
      assert sentences[..n] == sentences[..n - 1] + [s];
      if Total(open) + |s.text| > size && open != [] {
        ConcatAppend(closed, open);
        AdmissibleAppend(closed, open, size);
      } else {
        TotalAppend(open, s);
        assert Concat(closed) + (open + [s]) == Concat(closed) + open + [s];
      }
    }
  }

  /** The packer cuts the sentence list into consecutive admissible groups and loses none. */
  lemma GroupsArePacking(sentences: seq<Sentence>, size: int)
    ensures IsPacking(Groups(sentences, size), sentences, size)
  {
    PackIsPacking(sentences, |sentences|, size);
    assert sentences[..|sentences|] == sentences;
    var (closed, open) := Pack(sentences, |sentences|, size);
    if open != [] {
      ConcatAppend(closed, open);
      AdmissibleAppend(closed, open, size);
    }
  }

  // ---- Greedy stays ahead ----

  /**
   Greedy has used no more groups than the other packing, and if it has used as many, its open group
   is no longer than the other's last one.
  */
  ghost predicate Ahead(closed: seq<seq<Sentence>>, open: seq<Sentence>, groups: seq<seq<Sentence>>) {
    && |Close(closed, open)| <= |groups|
    && (groups != [] && |groups| == |closed| + 1 ==> Total(open) <= Total(groups[|groups| - 1]))
  }

  /** The other packing starts a group with the sentence. */
  lemma AheadOfNewGroup(closed: seq<seq<Sentence>>, open: seq<Sentence>, before: seq<seq<Sentence>>, s: Sentence,
                        size: int)
    requires Ahead(closed, open, before) && (open == [] ==> closed == [])
    ensures var (closed', open') := Push(closed, open, s, size); Ahead(closed', open', before + [[s]])
  {
    TotalAppend([], s);
    assert [] + [s] == [s];
  }

  /** The other packing adds the sentence to its last group. */
  lemma AheadOfLongerGroup(closed: seq<seq<Sentence>>, open: seq<Sentence>, before: seq<seq<Sentence>>,
                           cut: seq<Sentence>, s: Sentence, size: int)
    requires Ahead(closed, open, before + [cut]) && (open == [] ==> closed == [])
    requires cut != [] && Admissible(cut + [s], size)
    ensures var (closed', open') := Push(closed, open, s, size); Ahead(closed', open', before + [cut + [s]])
  {
    TotalAppend(cut, s);
    TotalAppend(open, s);
    TotalAppend([], s);
    assert [] + [s] == [s];
  }

  /** The packing without its last sentence, which was alone in its group or not. */
  lemma DropLast(groups: seq<seq<Sentence>>, sentences: seq<Sentence>, s: Sentence, size: int)
      returns (before: seq<seq<Sentence>>, cut: seq<Sentence>)
    requires IsPacking(groups, sentences + [s], size)
    ensures groups == before + [cut + [s]] && AllAdmissible(before, size) && Admissible(cut + [s], size)
    ensures cut == [] ==> IsPacking(before, sentences, size)
    ensures cut != [] ==> IsPacking(before + [cut], sentences, size)
  {
    assert |Concat(groups)| > 0;
    var m := |groups| - 1;
    before := groups[..m];
    var last := groups[m];
    assert Admissible(last, size);
    cut := last[..|last| - 1];
    var whole := Concat(before) + last;
    assert whole == sentences + [s] && whole[|whole| - 1] == last[|last| - 1] == s;
    assert last == cut + [s];
    assert sentences == whole[..|whole| - 1] == Concat(before) + cut;
    if cut != [] {
      ConcatAppend(before, cut);
      TotalAppend(cut, s);
      AdmissibleAppend(before, cut, size);
    } else {
      assert Concat(before) + cut == Concat(before);
    }
  }

  lemma {:induction false} GreedyAhead(sentences: seq<Sentence>, n: nat, size: int, groups: seq<seq<Sentence>>)
    requires n <= |sentences| && IsPacking(groups, sentences[..n], size)
    ensures var (closed, open) := Pack(sentences, n, size); Ahead(closed, open, groups)
  {
    if n > 0 {
      var s := sentences[n - 1];
      assert sentences[..n] == sentences[..n - 1] + [s];
      var before, cut := DropLast(groups, sentences[..n - 1], s, size);
      var (closed, open) := Pack(sentences, n - 1, size);
      PackIsPacking(sentences, n - 1, size);
      if cut == [] {
        GreedyAhead(sentences, n - 1, size, before);
        AheadOfNewGroup(closed, open, before, s, size);
        assert cut + [s] == [s];
      } else {
        GreedyAhead(sentences, n - 1, size, before + [cut]);
        AheadOfLongerGroup(closed, open, before, cut, s, size);
      }
    }
  }

  /** The packer uses the fewest groups of all packings that keep the order. */
  lemma FewestGroups(sentences: seq<Sentence>, size: int, groups: seq<seq<Sentence>>)
    requires IsPacking(groups, sentences, size)
    ensures |Groups(sentences, size)| <= |groups|
  {
    assert sentences[..|sentences|] == sentences;
    GreedyAhead(sentences, |sentences|, size, groups);
  }

  // ---- Groups are lists of sentences ----

  lemma {:induction false} ConcatPart(groups: seq<seq<Sentence>>, k: nat)
        returns (left: seq<Sentence>, right: seq<Sentence>)
    requires k < |groups|
    ensures Concat(groups) == left + groups[k] + right
  {
    if k == |groups| - 1 {
      left, right := Concat(groups[..k]), [];
    } else {
      left, right := ConcatPart(groups[..|groups| - 1], k);
      right := right + groups[|groups| - 1];
    }
  }

  /** A group of the text's sentences is not empty and could itself come out of the splitter. */
  lemma GroupIsList(text: string, size: int, k: nat)
    requires k < |Groups(SplitSentences(text), size)|
    ensures var group := Groups(SplitSentences(text), size)[k];
            group != [] && SentenceList(group) && Admissible(group, size)
  {
    var groups := Groups(SplitSentences(text), size);
    SplitGivesList(text);
    GroupsArePacking(SplitSentences(text), size);
    assert Admissible(groups[k], size);
    var left, right := ConcatPart(groups, k);
    PartOfList(left, groups[k], right);
  }

  // ---- What overlap repeats ----

  lemma {:induction false} JoinPrepend(s: Sentence, group: seq<Sentence>)
    requires group != []
    ensures JoinSpace([s] + group) == s.text + " " + JoinSpace(group)
  {
    var whole := [s] + group;
    if |group| > 1 {
      var before := group[..|group| - 1];
      JoinPrepend(s, before);
      assert whole[..|whole| - 1] == [s] + before;
      Assoc(s.text + " ", JoinSpace(before) + " ", group[|group| - 1].text);
      Assoc(s.text + " ", JoinSpace(before), " ");
    } else {
      assert whole[..1] == [s];
    }
  }

  /** A group joined with the last sentence of the group before it in front. */
  function WithLast(before: seq<Sentence>, group: seq<Sentence>): string
    requires before != []
  {
    JoinSpace([before[|before| - 1]] + group)
  }

  /** Taking the last sentence of a joined group again gives that sentence, and nothing is trimmed. */
  lemma OverlapIsLastSentence(before: seq<Sentence>, group: seq<Sentence>, size: int)
    requires before != [] && SentenceList(before) && group != [] && SentenceList(group)
    ensures Overlapped(JoinSpace(before), JoinSpace(group), size)
         == if |WithLast(before, group)| <= size then WithLast(before, group) else JoinSpace(group)
  {
    var last := before[|before| - 1];
    SplitInvertsJoin(before);
    JoinPrepend(last, group);
    JoinTidy(group);
    assert Whole(last);
    TwoTidy(last.text, JoinSpace(group));
    assert Trimmed(last.text + " " + JoinSpace(group), PYTHON_SPACES);
  }

  /**
   Chunk k is the k-th group joined; with overlap it is the last sentence of the group before and the
   k-th group joined, exactly where that is no longer than the chunk size.
  */
  lemma ChunkIsGroup(text: string, size: int, overlap: int, k: nat)
    requires k < |Chunks(text, size, overlap)|
    ensures var groups := Groups(SplitSentences(text), size);
            |Chunks(text, size, overlap)| == |groups| && groups[k] != []
    ensures var groups := Groups(SplitSentences(text), size);
            overlap <= 0 || k == 0 ==> Chunks(text, size, overlap)[k] == JoinSpace(groups[k])
    ensures var groups := Groups(SplitSentences(text), size);
            overlap > 0 && k > 0 ==>
              && groups[k - 1] != []
              && var longer := WithLast(groups[k - 1], groups[k]);
              Chunks(text, size, overlap)[k] == if |longer| <= size then longer else JoinSpace(groups[k])
  {
    var groups := Groups(SplitSentences(text), size);
    assert |JoinAll(groups)| == |groups|;
    GroupIsList(text, size, k);
    if overlap > 0 && k > 0 {
      GroupIsList(text, size, k - 1);
      OverlapIsLastSentence(groups[k - 1], groups[k], size);
    }
  }

  // ---- How long a chunk can get ----

  lemma {:induction false} JoinedLength(group: seq<Sentence>)
    requires group != []
    ensures |JoinSpace(group)| == Total(group) + |group| - 1
  {
    if |group| > 1 {
      JoinedLength(group[..|group| - 1]);
    } else {
      assert group[..0] == [];
    }
  }

  lemma InnerLength(group: seq<Sentence>, i: nat)
    requires SentenceList(group) && i < |group|
    ensures |group[i].text| >= if 0 < i < |group| - 1 then 2 else 1
  {
    assert Whole(group[i]);
    if 0 < i < |group| - 1 {
      assert Meet(group[i - 1], group[i]);
      assert Meet(group[i], group[i + 1]);
      NotSpaces(group[i].text[0]);
    }
  }

  /** Sentences between others have a capital letter and a stop, so at least two characters. */
  lemma {:induction false} TotalOfList(group: seq<Sentence>, n: nat)
    requires SentenceList(group) && 1 <= n <= |group|
    ensures Total(group[..n]) >= if n < |group| || n == 1 then 2 * n - 1 else 2 * n - 2
  {
    InnerLength(group, n - 1);
    assert group[..n] == group[..n - 1] + [group[n - 1]];
    TotalAppend(group[..n - 1], group[n - 1]);
    if n > 1 {
      TotalOfList(group, n - 1);
    }
  }

  lemma GroupLength(group: seq<Sentence>, size: int)
    requires SentenceList(group) && |group| > 1 && Total(group) <= size
    ensures |JoinSpace(group)| <= size + size / 2
  {
    JoinedLength(group);
    TotalOfList(group, |group|);
    assert group[..|group|] == group;
  }

  /**
   The spaces between sentences are not counted, so a chunk of several sentences can exceed the chunk
   size, but by no more than half of it.
  */
  lemma ChunkLength(text: string, size: int, overlap: int, k: nat)
    requires k < |Chunks(text, size, overlap)|
    ensures |Chunks(text, size, overlap)| == |Groups(SplitSentences(text), size)|
    ensures var group := Groups(SplitSentences(text), size)[k];
            |group| == 1 || |Chunks(text, size, overlap)[k]| <= size + size / 2
  {
    ChunkIsGroup(text, size, overlap, k);
    var group := Groups(SplitSentences(text), size)[k];
    GroupIsList(text, size, k);
    if |group| > 1 {
      GroupLength(group, size);
    }
  }

  /** A chunk, with or without overlap, is within the chunk size if and only if its group is with its spaces. */
  lemma ChunkFitsIff(text: string, size: int, overlap: int, k: nat)
    requires k < |Chunks(text, size, overlap)|
    ensures |Chunks(text, size, overlap)| == |Groups(SplitSentences(text), size)|
    ensures var group := Groups(SplitSentences(text), size)[k];
            |Chunks(text, size, overlap)[k]| <= size <==> Total(group) + |group| - 1 <= size
  {
    ChunkIsGroup(text, size, overlap, k);
    var groups := Groups(SplitSentences(text), size);
    JoinedLength(groups[k]);
    if overlap > 0 && k > 0 {
      LongerThanGroup(groups[k - 1], groups[k]);
    }
  }

  lemma LongerThanGroup(before: seq<Sentence>, group: seq<Sentence>)
    requires before != [] && group != []
    ensures |WithLast(before, group)| > |JoinSpace(group)|
  {
    JoinPrepend(before[|before| - 1], group);
  }

  // ---- When all chunks fit ----

  lemma {:induction false} TotalRises(sentences: seq<Sentence>, n: nat)
    requires n <= |sentences|
    ensures Total(sentences[..n]) <= Total(sentences)
    decreases |sentences| - n
  {
    if n < |sentences| {
      assert sentences[..n + 1] == sentences[..n] + [sentences[n]];
      TotalAppend(sentences[..n], sentences[n]);
      TotalRises(sentences, n + 1);
    } else {
      assert sentences[..n] == sentences;
    }
  }

  /** The same packer, measuring the chunk as it will be joined. */
  function PushJoined(closed: seq<seq<Sentence>>, open: seq<Sentence>, s: Sentence,
                      size: int): (seq<seq<Sentence>>, seq<Sentence>) {
    if |JoinSpace(open + [s])| > size && open != [] then (closed + [open], [s]) else (closed, open + [s])
  }

  function PackJoined(sentences: seq<Sentence>, n: nat, size: int): (r: (seq<seq<Sentence>>, seq<Sentence>))
    requires n <= |sentences|
  {
    if n == 0 then ([], [])
    else var (closed, open) := PackJoined(sentences, n - 1, size); PushJoined(closed, open, sentences[n - 1], size)
  }

  function JoinedGroups(sentences: seq<Sentence>, size: int): seq<seq<Sentence>> {
    var (closed, open) := PackJoined(sentences, |sentences|, size);
    Close(closed, open)
  }

  ghost predicate GroupFits(group: seq<Sentence>, size: int) {
    |JoinSpace(group)| <= size
  }

  ghost predicate AllGroupsFit(groups: seq<seq<Sentence>>, size: int) {
    forall k | 0 <= k < |groups| :: GroupFits(groups[k], size)
  }

  ghost predicate EachFits(sentences: seq<Sentence>, size: int) {
    forall i | 0 <= i < |sentences| :: |sentences[i].text| <= size
  }

  lemma OneJoined(s: Sentence)
    ensures JoinSpace([s]) == s.text
  {
  }

  lemma PushedLength(open: seq<Sentence>, s: Sentence)
    ensures |JoinSpace(open + [s])| == Total(open) + |s.text| + |open|
  {
    JoinedLength(open + [s]);
    TotalAppend(open, s);
  }

  lemma PrefixFits(part: seq<Sentence>, group: seq<Sentence>, size: int)
    requires part != [] && part <= group && GroupFits(group, size)
    ensures GroupFits(part, size)
  {
    JoinedLength(part);
    JoinedLength(group);
    assert group[..|part|] == part;
    TotalRises(group, |part|);
  }

  /** What is packed so far stays: closed groups as they are, the open one as the beginning of the next. */
  ghost predicate Remains(closed: seq<seq<Sentence>>, open: seq<Sentence>, groups: seq<seq<Sentence>>) {
    closed <= groups && (open != [] ==> |closed| < |groups| && open <= groups[|closed|])
  }

  lemma RemainsBefore(closed: seq<seq<Sentence>>, open: seq<Sentence>, s: Sentence, size: int,
                      groups: seq<seq<Sentence>>)
    requires var (closed', open') := Push(closed, open, s, size); Remains(closed', open', groups)
    ensures Remains(closed, open, groups)
  {
    if Total(open) + |s.text| > size && open != [] {
      assert (closed + [open])[|closed|] == open;
    }
  }

  lemma {:induction false} PackRemains(sentences: seq<Sentence>, n: nat, size: int)
    requires n <= |sentences|
    ensures var (closed, open) := Pack(sentences, n, size); Remains(closed, open, Groups(sentences, size))
    decreases |sentences| - n
  {
    if n < |sentences| {
      PackRemains(sentences, n + 1, size);
      var (closed, open) := Pack(sentences, n, size);
      RemainsBefore(closed, open, sentences[n], size, Groups(sentences, size));
    }
  }

  /** After each sentence the open group, which ends with it, fits if in the end all groups do. */
  lemma OpenFits(sentences: seq<Sentence>, n: nat, size: int)
    requires 0 < n <= |sentences| && AllGroupsFit(Groups(sentences, size), size)
    ensures var (closed, open) := Pack(sentences, n, size); open != [] && GroupFits(open, size)
  {
    var (closed, open) := Pack(sentences, n, size);
    PackRemains(sentences, n, size);
    PrefixFits(open, Groups(sentences, size)[|closed|], size);
  }

  lemma SamePush(closed: seq<seq<Sentence>>, open: seq<Sentence>, s: Sentence, size: int)
    requires var (_, open') := Push(closed, open, s, size); GroupFits(open', size)
    ensures PushJoined(closed, open, s, size) == Push(closed, open, s, size)
  {
    PushedLength(open, s);
  }

  lemma {:induction false} SamePack(sentences: seq<Sentence>, n: nat, size: int)
    requires n <= |sentences| && AllGroupsFit(Groups(sentences, size), size)
    ensures PackJoined(sentences, n, size) == Pack(sentences, n, size)
  {
    if n > 0 {
      SamePack(sentences, n - 1, size);
      OpenFits(sentences, n, size);
      var (closed, open) := Pack(sentences, n - 1, size);
      SamePush(closed, open, sentences[n - 1], size);
    }
  }

  lemma LastFits(sentences: seq<Sentence>, n: nat, size: int)
    requires 0 < n <= |sentences| && AllGroupsFit(Groups(sentences, size), size)
    ensures |sentences[n - 1].text| <= size
  {
    OpenFits(sentences, n, size);
    var (closed, open) := Pack(sentences, n - 1, size);
    PushedLength(open, sentences[n - 1]);
    PushedLength([], sentences[n - 1]);
    assert [] + [sentences[n - 1]] == [sentences[n - 1]];
  }

  lemma {:induction false} JoinedFit(sentences: seq<Sentence>, n: nat, size: int)
    requires n <= |sentences| && EachFits(sentences, size)
    ensures var (closed, open) := PackJoined(sentences, n, size);
            AllGroupsFit(closed, size) && (open != [] ==> GroupFits(open, size))
  {
    if n > 0 {
      JoinedFit(sentences, n - 1, size);
      OneJoined(sentences[n - 1]);
      var (closed, open) := PackJoined(sentences, n - 1, size);
      assert open == [] ==> open + [sentences[n - 1]] == [sentences[n - 1]];
    }
  }

  /**
   All groups fit if and only if each sentence does and measuring the joined chunk would have given the same
   groups.
  */
  lemma AllGroupsFitIff(sentences: seq<Sentence>, size: int)
    ensures AllGroupsFit(Groups(sentences, size), size)
            <==> EachFits(sentences, size) && Groups(sentences, size) == JoinedGroups(sentences, size)
  {
    if AllGroupsFit(Groups(sentences, size), size) {
      SamePack(sentences, |sentences|, size);
      forall i | 0 <= i < |sentences|
        ensures |sentences[i].text| <= size
      {
        LastFits(sentences, i + 1, size);
      }
    }
    if EachFits(sentences, size) {
      JoinedFit(sentences, |sentences|, size);
    }
  }

  /**
   All chunks of a text are within the chunk size, with or without overlap, if and only if each sentence is
   and the spaces make no difference: a packer that counted them would have formed the same groups.
  */
  lemma AllChunksFitIff(text: string, size: int, overlap: int)
    ensures (forall k | 0 <= k < |Chunks(text, size, overlap)| :: |Chunks(text, size, overlap)[k]| <= size)
            <==> && EachFits(SplitSentences(text), size)
                 && Groups(SplitSentences(text), size) == JoinedGroups(SplitSentences(text), size)
  {
    var groups := Groups(SplitSentences(text), size);
    AllGroupsFitIff(SplitSentences(text), size);
    SameCount(text, size, overlap);
    forall k | 0 <= k < |groups|
      ensures |Chunks(text, size, overlap)[k]| <= size <==> GroupFits(groups[k], size)
    {
      ChunkFitsIff(text, size, overlap, k);
      ChunkIsGroup(text, size, overlap, k);
      JoinedLength(groups[k]);
    }
  }

  lemma SameCount(text: string, size: int, overlap: int)
    ensures |Chunks(text, size, overlap)| == |Groups(SplitSentences(text), size)|
  {
    assert |JoinAll(Groups(SplitSentences(text), size))| == |Groups(SplitSentences(text), size)|;
  }

  // ---- The bound is reached ----

  lemma {:induction false} PackFits(sentences: seq<Sentence>, n: nat, size: int)
    requires n <= |sentences| && Total(sentences) <= size
    ensures Pack(sentences, n, size) == ([], sentences[..n])
  {
    if n > 0 {
      PackFits(sentences, n - 1, size);
      assert sentences[..n] == sentences[..n - 1] + [sentences[n - 1]];
      TotalAppend(sentences[..n - 1], sentences[n - 1]);
      TotalRises(sentences, n);
    }
  }

  /** Sentences that fit together become one group. */
  lemma OneGroup(sentences: seq<Sentence>, size: int)
    requires sentences != [] && Total(sentences) <= size
    ensures Groups(sentences, size) == [sentences]
  {
    PackFits(sentences, |sentences|, size);
    assert sentences[..|sentences|] == sentences;
  }

  /** One or two characters that are not spaces cannot be cut. */
  lemma LettersWhole(t: string)
    requires 1 <= |t| <= 2 && !Space(t[0]) && !Space(t[|t| - 1])
    ensures Whole(Sentence(t))
  {
  }

  /** ". A. A. ... A." */
  function Row(n: nat): seq<Sentence> {
    if n == 0 then [Sentence(".")] else Row(n - 1) + [Sentence("A.")]
  }

  lemma {:induction false} RowIsList(n: nat)
    ensures |Row(n)| == n + 1 && Total(Row(n)) == 2 * n + 1 && ClosedList(Row(n))
  {
    NotSpaces('.');
    NotSpaces('A');
    if n == 0 {
      TotalAppend([], Sentence("."));
      assert [] + [Sentence(".")] == [Sentence(".")];
      LettersWhole(".");
    } else {
      RowIsList(n - 1);
      TotalAppend(Row(n - 1), Sentence("A."));
      LettersWhole("A.");
      ListAppend(Row(n - 1), Sentence("A."));
    }
  }

  /** Sentences as short as they can be, one of two letters at the end if the size is odd. */
  function Short(size: nat): seq<Sentence>
    requires size >= 2
  {
    Row(size / 2 - 1) + [Sentence(if size % 2 == 0 then "A" else "AA")]
  }

  lemma ShortIsList(size: nat)
    requires size >= 2
    ensures SentenceList(Short(size)) && Total(Short(size)) == size && |Short(size)| == size / 2 + 1
  {
    var last := Sentence(if size % 2 == 0 then "A" else "AA");
    NotSpaces('A');
    RowIsList(size / 2 - 1);
    TotalAppend(Row(size / 2 - 1), last);
    LettersWhole(last.text);
    ListAppend(Row(size / 2 - 1), last);
  }

  /** For every chunk size of two and more there is a text that becomes one chunk of half as much again. */
  lemma ChunkLengthIsTight(size: nat, overlap: int)
    requires size >= 2
    ensures var text := JoinSpace(Short(size));
            Chunks(text, size, overlap) == [text] && |text| == size + size / 2
  {
    ShortIsList(size);
    SplitInvertsJoin(Short(size));
    OneGroup(Short(size), size);
    JoinedLength(Short(size));
  }
}
