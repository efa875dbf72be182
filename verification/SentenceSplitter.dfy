/**
 Splitting a text into sentences: runs of white space become single spaces, and the text is cut at
 every space that follows a full stop, exclamation or question mark and precedes a capital letter.
*/
module SentenceSplitter {
  import opened Text
  import opened Stretches

  datatype Sentence = Sentence(text: string)

  predicate Stop(c: char) {
    c == '.' || c == '!' || c == '?'
  }

  /** [A-ZА-ЯЁ] */
  predicate Capital(c: char) {
    'A' <= c <= 'Z' || '\U{410}' <= c <= '\U{42F}' || c == '\U{401}'
  }

  predicate Space(c: char) {
    Blank(c, PYTHON_SPACES)
  }

  lemma NotSpaces(c: char)
    requires Stop(c) || Capital(c)
    ensures !Space(c) && !(Stop(c) && Capital(c))
  {
    BlankIff(c, PYTHON_SPACES);
  }

  lemma SpaceIsSpace()
    ensures Space(' ')
  {
    BlankIff(' ', PYTHON_SPACES);
  }

  /** What the character c adds to a text whose last character was given: nothing if it continues a run. */
  function Squeezed(before: string, c: char): string {
    if !Space(c) then [c]
    else if before != "" && Space(before[|before| - 1]) then ""
    else " "
  }

  /** Every run of white space replaced by one space. */
  function Collapse(s: string): string {
    if s == "" then "" else Collapse(s[..|s| - 1]) + Squeezed(s[..|s| - 1], s[|s| - 1])
  }

  /** A place to cut: white space between a stop and a capital letter. */
  predicate Seam(t: string, i: int) {
    0 < i < |t| - 1 && Space(t[i]) && Stop(t[i - 1]) && Capital(t[i + 1])
  }

  /** The pieces that end within the first n characters, and the one still open. */
  function Cut(t: string, n: nat): (r: (seq<Sentence>, string))
    requires n <= |t|
  {
    if n == 0 then ([], "")
    else
      var (closed, open) := Cut(t, n - 1);
      if Seam(t, n - 1) then (closed + [Sentence(open)], "") else (closed, open + [t[n - 1]])
  }

  function Pieces(t: string): seq<Sentence> {
    var (closed, open) := Cut(t, |t|);
    closed + [Sentence(open)]
  }

  /** The pieces trimmed, those of white space alone dropped. */
  function Kept(pieces: seq<Sentence>): seq<Sentence> {
    if pieces == [] then []
    else
      var last := Trim(pieces[|pieces| - 1].text, PYTHON_SPACES);
      Kept(pieces[..|pieces| - 1]) + if last != "" then [Sentence(last)] else []
  }

  function Normal(s: string): string {
    Trim(Collapse(s), PYTHON_SPACES)
  }

  function SplitSentences(s: string): seq<Sentence> {
    Kept(Pieces(Normal(s)))
  }

  /** " ".join */
  function JoinSpace(group: seq<Sentence>): string {
    if group == [] then ""
    else if |group| == 1 then group[0].text
    else JoinSpace(group[..|group| - 1]) + " " + group[|group| - 1].text
  }

  lemma JoinSpaceAppend(group: seq<Sentence>, s: Sentence)
    requires group != []
    ensures JoinSpace(group + [s]) == JoinSpace(group) + " " + s.text
  {
    assert (group + [s])[..|group|] == group;
  }

  // ---- Normal texts ----

  /** All white space is single spaces, none at the ends. */
  ghost predicate Single(t: string) {
    forall i | 0 <= i < |t| && Space(t[i]) :: t[i] == ' ' && 0 < i && !Space(t[i - 1])
  }

  ghost predicate Tidy(t: string) {
    Single(t) && (t == "" || !Space(t[|t| - 1]))
  }

  /** As Single, but a text may begin with a space. */
  ghost predicate Squeezes(t: string) {
    forall i | 0 <= i < |t| && Space(t[i]) :: t[i] == ' ' && (i == 0 || !Space(t[i - 1]))
  }

  lemma {:induction false} CollapseSqueezes(s: string)
    ensures Squeezes(Collapse(s))
    ensures Collapse(s) == "" <==> s == ""
    ensures s != "" ==> (Space(s[|s| - 1]) <==> Space(Collapse(s)[|Collapse(s)| - 1]))
  {
    if s != "" {
      SpaceIsSpace();
      CollapseSqueezes(s[..|s| - 1]);
    }
  }

  lemma {:induction false} CollapseTidy(t: string, n: nat)
    requires Single(t) && n <= |t|
    ensures Collapse(t[..n]) == t[..n]
  {
    if n > 0 {
      CollapseTidy(t, n - 1);
      assert t[..n][..n - 1] == t[..n - 1];
      assert t[..n] == t[..n - 1] + [t[n - 1]];
    }
  }

  lemma TrimIsPart(s: string) returns (left: string, right: string)
    ensures s == left + Trim(s, PYTHON_SPACES) + right
  {
    left, right := TrimParts(s, PYTHON_SPACES);
  }

  lemma PartSqueezes(left: string, t: string, right: string)
    requires Squeezes(left + t + right)
    ensures Squeezes(t)
  {
    var s := left + t + right;
    forall i | 0 <= i < |t| && Space(t[i])
      ensures t[i] == ' ' && (i == 0 || !Space(t[i - 1]))
    {
      assert s[|left| + i] == t[i];
      assert i > 0 ==> s[|left| + i - 1] == t[i - 1];
    }
  }

  lemma NormalTidy(s: string)
    ensures Tidy(Normal(s))
  {
    CollapseSqueezes(s);
    var left, right := TrimIsPart(Collapse(s));
    PartSqueezes(left, Normal(s), right);
  }

  lemma NormalOfTidy(t: string)
    requires Tidy(t)
    ensures Normal(t) == t
  {
    CollapseTidy(t, |t|);
    assert t[..|t|] == t;
  }

  lemma NothingOpen(r: Reading, s: string)
    requires s != "" && Space(s[|s| - 1])
    ensures Close(Read(r, s, ""), "") == Read(r, s, "")
  {
    var words := Read(r, s, "").words;
    assert words + [] == words;
  }

  /** Collapsing white space is not noticed by a reader of words. */
  lemma {:induction false} CollapseReads(s: string)
    ensures Read(Reading([], ""), Collapse(s), "") == Read(Reading([], ""), s, "")
  {
    if s != "" {
      var before, c := s[..|s| - 1], s[|s| - 1];
      CollapseReads(before);
      SpaceIsSpace();
      if !Space(c) {
        ReadOne(Reading([], ""), Collapse(before), c, "");
      } else if before != "" && Space(before[|before| - 1]) {
        NothingOpen(Reading([], ""), before);
        assert Collapse(before) + "" == Collapse(before);
      } else {
        ReadOne(Reading([], ""), Collapse(before), ' ', "");
      }
    }
  }

  /** The normalised text has the words of the text, in order. */
  lemma NormalKeepsWords(s: string)
    ensures Words(Normal(s), "") == Words(s, "")
  {
    CollapseReads(s);
    WordsTrim(Collapse(s), "");
  }

  // ---- What a list of sentences looks like ----

  /** One sentence: not empty, tidy, and nothing in it to cut at. */
  ghost predicate Whole(s: Sentence) {
    s.text != "" && Tidy(s.text) && forall i | 0 <= i < |s.text| :: !Seam(s.text, i)
  }

  /** A neighbour follows only a stop and starts with a capital letter. */
  ghost predicate Meet(a: Sentence, b: Sentence) {
    a.text != "" && b.text != "" && Stop(a.text[|a.text| - 1]) && Capital(b.text[0])
  }

  ghost predicate SentenceList(list: seq<Sentence>) {
    && (forall i | 0 <= i < |list| :: Whole(list[i]))
    && (forall i | 0 < i < |list| :: Meet(list[i - 1], list[i]))
  }

  lemma PartOfList(left: seq<Sentence>, group: seq<Sentence>, right: seq<Sentence>)
    requires SentenceList(left + group + right)
    ensures SentenceList(group)
  {
    var list := left + group + right;
    assert forall i | 0 <= i < |group| :: group[i] == list[|left| + i];
    forall i | 0 < i < |group|
      ensures Meet(group[i - 1], group[i])
    {
      assert group[i] == list[|left| + i] && group[i - 1] == list[|left| + i - 1];
    }
  }

  // ---- Splitting gives such a list ----

  /** The first n characters are the pieces joined. */
  ghost predicate CutJoined(t: string, n: nat, closed: seq<Sentence>, open: string)
    requires n <= |t|
  {
    JoinSpace(closed + [Sentence(open)]) == t[..n]
  }

  /** The open piece is the text since the last cut, or since the beginning. */
  ghost predicate OpenAt(t: string, n: nat, closed: seq<Sentence>, open: string) {
    && |open| <= n <= |t|
    && (forall i | 0 <= i < |open| :: open[i] == t[n - |open| + i])
    && (forall i | n - |open| <= i < n :: !Seam(t, i))
    && if closed == [] then |open| == n else |open| < n && Seam(t, n - |open| - 1)
  }

  lemma JoinedSeam(t: string, n: nat, closed: seq<Sentence>, open: string)
    requires n < |t| && t[n] == ' ' && CutJoined(t, n, closed, open)
    ensures CutJoined(t, n + 1, closed + [Sentence(open)], "")
  {
    assert t[..n + 1] == t[..n] + " ";
    JoinSpaceAppend(closed + [Sentence(open)], Sentence(""));
  }

  lemma JoinedGrow(t: string, n: nat, closed: seq<Sentence>, open: string)
    requires n < |t| && CutJoined(t, n, closed, open)
    ensures CutJoined(t, n + 1, closed, open + [t[n]])
  {
    assert t[..n + 1] == t[..n] + [t[n]];
    JoinGrow(closed, open, t[n]);
  }

  lemma NothingJoined(t: string)
    ensures CutJoined(t, 0, [], "")
  {
  }

  lemma CutStep(t: string, n: nat, closed: seq<Sentence>, open: string)
    requires n < |t| && Cut(t, n) == (closed, open)
    ensures Cut(t, n + 1) == if Seam(t, n) then (closed + [Sentence(open)], "") else (closed, open + [t[n]])
  {
  }

  lemma {:induction false} CutIsJoin(t: string, n: nat, closed: seq<Sentence>, open: string)
    requires Tidy(t) && n <= |t| && Cut(t, n) == (closed, open)
    ensures CutJoined(t, n, closed, open)
  {
    if n == 0 {
      NothingJoined(t);
    } else {
      var (before, last) := Cut(t, n - 1);
      CutIsJoin(t, n - 1, before, last);
      CutStep(t, n - 1, before, last);
      if Seam(t, n - 1) {
        JoinedSeam(t, n - 1, before, last);
      } else {
        JoinedGrow(t, n - 1, before, last);
      }
    }
  }

  lemma OpenSeam(t: string, n: nat, closed: seq<Sentence>, open: string)
    requires n < |t| && Seam(t, n) && OpenAt(t, n, closed, open)
    ensures OpenAt(t, n + 1, closed + [Sentence(open)], "")
  {
  }

  lemma OpenGrow(t: string, n: nat, closed: seq<Sentence>, open: string)
    requires n < |t| && !Seam(t, n) && OpenAt(t, n, closed, open)
    ensures OpenAt(t, n + 1, closed, open + [t[n]])
  {
  }

  lemma {:induction false} CutIsOpen(t: string, n: nat)
    requires n <= |t|
    ensures OpenAt(t, n, Cut(t, n).0, Cut(t, n).1)
  {
    if n > 0 {
      CutIsOpen(t, n - 1);
      var (closed, open) := Cut(t, n - 1);
      if Seam(t, n - 1) {
        OpenSeam(t, n - 1, closed, open);
      } else {
        OpenGrow(t, n - 1, closed, open);
      }
    }
  }

  lemma JoinGrow(closed: seq<Sentence>, open: string, c: char)
    ensures JoinSpace(closed + [Sentence(open + [c])]) == JoinSpace(closed + [Sentence(open)]) + [c]
  {
    if closed != [] {
      JoinSpaceAppend(closed, Sentence(open));
      JoinSpaceAppend(closed, Sentence(open + [c]));
      Assoc(JoinSpace(closed) + " ", open, [c]);
    }
  }

  /** From one cut, or end of the text, to the next. */
  ghost predicate Span(t: string, a: int, b: int) {
    && 0 <= a < b <= |t|
    && (a == 0 || Seam(t, a - 1)) && (b == |t| || Seam(t, b))
    && forall i | a <= i < b :: !Seam(t, i)
  }

  lemma SpanWhole(t: string, a: int, b: int)
    requires Tidy(t) && Span(t, a, b)
    ensures Whole(Sentence(t[a..b]))
    ensures a > 0 ==> Capital(t[a..b][0])
    ensures b < |t| ==> Stop(t[a..b][b - a - 1])
  {
    var part := t[a..b];
    if a > 0 {
      NotSpaces(t[a]);
    }
    if b < |t| {
      NotSpaces(t[b - 1]);
    }
    assert forall i | 0 <= i < |part| :: part[i] == t[a + i];
    forall i | 0 <= i < |part|
      ensures !Seam(part, i)
    {
      assert !Seam(t, a + i);
      assert i > 0 ==> part[i - 1] == t[a + i - 1];
    }
    forall i | 0 <= i < |part| && Space(part[i])
      ensures part[i] == ' ' && 0 < i && !Space(part[i - 1])
    {
      assert Space(t[a + i]);
    }
  }

  /** All pieces so far, when more is to come. */
  ghost predicate ClosedList(closed: seq<Sentence>) {
    && SentenceList(closed)
    && (closed != [] ==> Stop(closed[|closed| - 1].text[|closed[|closed| - 1].text| - 1]))
  }

  lemma ListAppend(closed: seq<Sentence>, s: Sentence)
    requires ClosedList(closed) && Whole(s) && (closed != [] ==> Capital(s.text[0]))
    ensures SentenceList(closed + [s])
  {
    var list := closed + [s];
    forall i | 0 < i < |list|
      ensures Meet(list[i - 1], list[i])
    {
      if i < |closed| {
        assert Meet(closed[i - 1], closed[i]);
      }
    }
  }

  lemma {:induction false} CutIsList(t: string, n: nat)
    requires Tidy(t) && n <= |t|
    ensures ClosedList(Cut(t, n).0)
  {
    if n > 0 {
      CutIsList(t, n - 1);
      if Seam(t, n - 1) {
        LastPiece(t, n - 1);
      }
    }
  }

  lemma OpenIsSpan(t: string, n: nat, closed: seq<Sentence>, open: string)
    requires Tidy(t) && 0 < n <= |t| && (n == |t| || Seam(t, n)) && OpenAt(t, n, closed, open)
    ensures Span(t, n - |open|, n) && t[n - |open|..n] == open && (closed != [] <==> n - |open| > 0)
  {
    if n < |t| {
      NotSpaces(t[n - 1]);
    }
    assert !Seam(t, n - 1);
  }

  /** The piece that ends at n, where there is a cut or the end of the text, belongs to the list. */
  lemma LastPiece(t: string, n: nat)
    requires Tidy(t) && 0 < n <= |t| && (n == |t| || Seam(t, n))
    requires ClosedList(Cut(t, n).0)
    ensures var (closed, open) := Cut(t, n);
            && SentenceList(closed + [Sentence(open)])
            && (n < |t| ==> open != "" && Stop(open[|open| - 1]))
  {
    var (closed, open) := Cut(t, n);
    CutIsOpen(t, n);
    OpenIsSpan(t, n, closed, open);
    SpanWhole(t, n - |open|, n);
    ListAppend(closed, Sentence(open));
  }

  ghost predicate Clean(s: Sentence) {
    s.text != "" && Trimmed(s.text, PYTHON_SPACES)
  }

  lemma WholeClean(s: Sentence)
    requires Whole(s)
    ensures Clean(s)
  {
  }

  lemma KeptLast(before: seq<Sentence>, s: Sentence)
    requires Clean(s)
    ensures Kept(before + [s]) == Kept(before) + [s]
  {
    assert (before + [s])[..|before|] == before;
    assert Trim(s.text, PYTHON_SPACES) == s.text;
  }

  lemma {:induction false} KeptClean(pieces: seq<Sentence>)
    requires forall i | 0 <= i < |pieces| :: Clean(pieces[i])
    ensures Kept(pieces) == pieces
  {
    if pieces != [] {
      var before, last := pieces[..|pieces| - 1], pieces[|pieces| - 1];
      assert pieces == before + [last];
      KeptClean(before);
      KeptLast(before, last);
    }
  }

  lemma KeptAll(pieces: seq<Sentence>)
    requires SentenceList(pieces)
    ensures Kept(pieces) == pieces
  {
    forall i | 0 <= i < |pieces|
      ensures Clean(pieces[i])
    {
      WholeClean(pieces[i]);
    }
    KeptClean(pieces);
  }

  lemma KeptNone()
    ensures Kept(Pieces("")) == []
  {
    assert Pieces("") == [Sentence("")];
    assert Trim("", PYTHON_SPACES) == "";
  }

  /**
   Whatever the text, the sentences are whole, every one but the last ends in a stop, every one but the
   first starts with a capital letter, and joined they are the text with its white space made single.
  */
  lemma SplitGivesList(s: string)
    ensures SentenceList(SplitSentences(s))
    ensures JoinSpace(SplitSentences(s)) == Normal(s)
  {
    var t := Normal(s);
    NormalTidy(s);
    if t == "" {
      KeptNone();
    } else {
      CutIsList(t, |t|);
      LastPiece(t, |t|);
      CutIsJoin(t, |t|, Cut(t, |t|).0, Cut(t, |t|).1);
      assert t[..|t|] == t;
      KeptAll(Pieces(t));
    }
  }

  // ---- Every such list is split again from its join ----

  lemma {:induction false} JoinTidy(list: seq<Sentence>)
    requires SentenceList(list) && list != []
    ensures var t := JoinSpace(list); var last := list[|list| - 1].text;
            t != "" && Tidy(t) && last != "" && t[|t| - 1] == last[|last| - 1]
  {
    assert Whole(list[|list| - 1]);
    if |list| > 1 {
      var before := list[..|list| - 1];
      assert Meet(list[|list| - 2], list[|list| - 1]);
      PartOfListFirst(list);
      JoinTidy(before);
      TwoTidy(JoinSpace(before), list[|list| - 1].text);
    }
  }

  lemma PartOfListFirst(list: seq<Sentence>)
    requires SentenceList(list) && |list| > 1
    ensures SentenceList(list[..|list| - 1])
  {
  }

  lemma TwoTidy(a: string, b: string)
    requires Tidy(a) && Tidy(b) && a != "" && b != ""
    ensures Tidy(a + " " + b)
  {
    SpaceIsSpace();
    var t := a + " " + b;
    assert !Space(a[|a| - 1]);
    forall i | 0 <= i < |t| && Space(t[i])
      ensures t[i] == ' ' && 0 < i && !Space(t[i - 1])
    {
      if i > |a| {
        assert t[i] == b[i - |a| - 1];
        assert i - |a| - 1 > 0;
        assert t[i - 1] == b[i - |a| - 2];
      }
    }
  }

  /** What follows does not change the cuts within a text, its last character being no space. */
  lemma {:induction false} CutPrefix(t: string, more: string, n: nat)
    requires n <= |t| && (n < |t| || n == 0 || !Space(t[n - 1]))
    ensures Cut(t + more, n) == Cut(t, n)
  {
    if n > 0 {
      assert (t + more)[n - 1] == t[n - 1];
      assert Seam(t + more, n - 1) <==> Seam(t, n - 1);
      CutPrefix(t, more, n - 1);
    }
  }

  /** Past a cut, the cuts are those of the rest. */
  lemma {:induction false} CutRest(t: string, rest: string, n: nat, closed: seq<Sentence>)
    requires n <= |rest| && rest != "" && !Space(rest[0])
    requires forall i | 0 <= i < |rest| :: !Seam(rest, i)
    requires Cut(t + rest, |t|) == (closed, "")
    ensures Cut(t + rest, |t| + n) == (closed, rest[..n])
  {
    if n > 0 {
      CutRest(t, rest, n - 1, closed);
      var whole := t + rest;
      assert whole[|t| + n - 1] == rest[n - 1];
      assert n > 1 ==> whole[|t| + n - 2] == rest[n - 2];
      assert !Seam(rest, n - 1);
      assert !Seam(whole, |t| + n - 1);
      assert rest[..n] == rest[..n - 1] + [rest[n - 1]];
    }
  }

  lemma {:induction false} CutJoin(list: seq<Sentence>)
    requires SentenceList(list) && list != []
    ensures Pieces(JoinSpace(list)) == list
  {
    var t := JoinSpace(list);
    var last := list[|list| - 1];
    assert Whole(last);
    if |list| == 1 {
      CutWhole(last);
    } else {
      var before := list[..|list| - 1];
      PartOfListFirst(list);
      CutJoin(before);
      JoinTidy(before);
      assert Meet(list[|list| - 2], last);
      CutNext(JoinSpace(before), last);
      assert list == before + [last];
    }
  }

  lemma WholeStart(s: Sentence)
    requires Whole(s)
    ensures s.text != "" && !Space(s.text[0])
  {
  }

  lemma CutWhole(s: Sentence)
    requires Whole(s)
    ensures Pieces(s.text) == [s]
  {
    WholeStart(s);
    assert "" + s.text == s.text;
    assert Cut(s.text, 0) == ([], "");
    CutRest("", s.text, |s.text|, []);
    assert s.text[..|s.text|] == s.text;
  }

  lemma CutNext(t: string, last: Sentence)
    requires Tidy(t) && t != "" && Whole(last) && Stop(t[|t| - 1]) && Capital(last.text[0])
    ensures Pieces(t + " " + last.text) == Pieces(t) + [last]
  {
    var whole := t + " " + last.text;
    SpaceIsSpace();
    CutPrefix(t, " " + last.text, |t|);
    Assoc(t, " ", last.text);
    assert Seam(whole, |t|);
    assert Cut(whole, |t| + 1) == (Pieces(t), "");
    WholeStart(last);
    CutRest(t + " ", last.text, |last.text|, Pieces(t));
    assert last.text[..|last.text|] == last.text;
  }

  /** Splitting undoes joining on the lists that splitting can give. */
  lemma SplitInvertsJoin(list: seq<Sentence>)
    requires SentenceList(list)
    ensures SplitSentences(JoinSpace(list)) == list
  {
    if list == [] {
      KeptNone();
      NormalOfTidy("");
    } else {
      JoinTidy(list);
      NormalOfTidy(JoinSpace(list));
      CutJoin(list);
      KeptAll(list);
    }
  }

  /** The splitter can give a list if and only if it is a list of sentences. */
  lemma SplitRangeIff(list: seq<Sentence>)
    ensures (exists s :: SplitSentences(s) == list) <==> SentenceList(list)
  {
    if s :| SplitSentences(s) == list {
      SplitGivesList(s);
    }
    if SentenceList(list) {
      SplitInvertsJoin(list);
    }
  }

  // ---- The words determine the sentences ----

  /** " ".join of words. */
  function JoinWords(words: seq<string>): string {
    if words == [] then ""
    else if |words| == 1 then words[0]
    else JoinWords(words[..|words| - 1]) + " " + words[|words| - 1]
  }

  lemma JoinWordsMore(words: seq<string>, word: string)
    ensures JoinWords(words + [word]) == if words == [] then word else JoinWords(words) + " " + word
  {
    assert (words + [word])[..|words|] == words;
  }

  /** What has been read of a text in which all white space is single spaces, put together again. */
  ghost predicate ReadBack(t: string, r: Reading) {
    if t == "" then r == Reading([], "")
    else if Space(t[|t| - 1]) then r.words != [] && r.open == "" && t == JoinWords(r.words) + " "
    else r.open != "" && t == JoinWords(r.words + [r.open])
  }

  lemma ReadBackSpace(t: string, r: Reading)
    requires t != "" && !Space(t[|t| - 1]) && ReadBack(t, r)
    ensures ReadBack(t + " ", Close(r, ""))
  {
    SpaceIsSpace();
    assert Word(r.open, "") == [r.open];
  }

  lemma ReadBackMore(t: string, r: Reading, c: char)
    requires ReadBack(t, r) && !Space(c)
    ensures ReadBack(t + [c], Reading(r.words, r.open + [c]))
  {
    JoinWordsMore(r.words, r.open);
    JoinWordsMore(r.words, r.open + [c]);
    if t == "" {
      assert [] + [[c]] == [[c]];
    } else if Space(t[|t| - 1]) {
      assert "" + [c] == [c];
    } else if r.words != [] {
      Assoc4(JoinWords(r.words), " ", r.open, [c]);
    }
  }

  lemma {:induction false} SingleReadsBack(t: string)
    requires Single(t)
    ensures ReadBack(t, Read(Reading([], ""), t, ""))
  {
    if t != "" {
      var before, c := t[..|t| - 1], t[|t| - 1];
      SingleReadsBack(before);
      assert t == before + [c];
      var r := Read(Reading([], ""), before, "");
      if Space(c) {
        assert c == ' ' && before != "" && before[|before| - 1] == t[|t| - 2];
        ReadBackSpace(before, r);
      } else {
        ReadBackMore(before, r, c);
      }
    }
  }

  /** A tidy text is its words with single spaces between them. */
  lemma TidyIsWords(t: string)
    requires Tidy(t)
    ensures t == JoinWords(Words(t, ""))
  {
    SingleReadsBack(t);
    var r := Read(Reading([], ""), t, "");
    if t != "" {
      assert Word(r.open, "") == [r.open];
    }
  }

  /**
   The sentences of a text are the one list of sentences, each whole and each meeting the next, that has the
   words of the text in order.
  */
  lemma SplitIff(s: string, list: seq<Sentence>)
    ensures list == SplitSentences(s)
            <==> SentenceList(list) && Words(JoinSpace(list), "") == Words(s, "")
  {
    SplitGivesList(s);
    NormalKeepsWords(s);
    if SentenceList(list) && Words(JoinSpace(list), "") == Words(s, "") {
      SplitInvertsJoin(list);
      SplitGivesList(JoinSpace(list));
      NormalTidy(JoinSpace(list));
      NormalTidy(s);
      TidyIsWords(Normal(s));
      TidyIsWords(JoinSpace(list));
    }
  }
}
