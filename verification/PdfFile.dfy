/**
 The hand-written PDF file format: a header, numbered objects, a cross-reference table of byte
 offsets and a trailer (sections 7.5.4 and 7.5.5 of ISO 32000-1). A reader that knows only the
 standard's way into a file, from the end, must get the objects back. Bytes are characters below 256.
*/
module PdfFile {
  import opened Wrappers
  import opened Decimal
  import opened Text

  datatype Object = Object(body: string)

  /** What a reader finds in a file: the objects, numbered from 1, and the number of the catalog. */
  datatype Contents = Contents(objects: seq<Object>, root: nat)

  const HEADER := "%PDF-1.4\n%\U{E2}\U{E3}\U{CF}\U{D3}\n"
  const FREE_ENTRY := "0000000000 65535 f \n"
  const IN_USE := " 00000 n \n"
  const END_OF_OBJECT := "\nendobj\n"
  const END_OF_FILE := "\n%%EOF\n"
  const TABLE_START := "xref\n0 "
  const START_XREF := "startxref\n"

  // ---- The writer's output ----

  function Opening(k: nat): string {
    Dec(k) + " 0 obj\n"
  }

  function Block(k: nat, o: Object): string {
    Opening(k) + o.body + END_OF_OBJECT
  }

  /** Everything before object n + 1, or before the table when there is none. */
  function Content(objects: seq<Object>, n: nat): string
    requires n <= |objects|
  {
    if n == 0 then HEADER else Content(objects, n - 1) + Block(n, objects[n - 1])
  }

  /** Where object k starts, counting from 1. */
  function Offset(objects: seq<Object>, k: nat): nat
    requires 1 <= k <= |objects|
  {
    |Content(objects, k - 1)|
  }

  function Entry(offset: nat): string {
    Pad10(offset) + IN_USE
  }

  function Entries(objects: seq<Object>, n: nat): string
    requires n <= |objects|
  {
    if n == 0 then FREE_ENTRY else Entries(objects, n - 1) + Entry(Offset(objects, n))
  }

  function TableHead(n: nat): string {
    TABLE_START + Dec(n + 1) + "\n"
  }

  function Trailer(n: nat): string {
    "trailer\n<< /Size " + Dec(n + 1) + " /Root 1 0 R >>\n"
  }

  function Ending(xref: nat): string {
    START_XREF + Dec(xref) + END_OF_FILE
  }

  /** What follows the table, and what follows the objects. */
  function AfterTable(objects: seq<Object>): string {
    Trailer(|objects|) + Ending(|Content(objects, |objects|)|)
  }

  function AfterContent(objects: seq<Object>): string {
    TableHead(|objects|) + (Entries(objects, |objects|) + AfterTable(objects))
  }

  function File(objects: seq<Object>): string {
    Content(objects, |objects|) + AfterContent(objects)
  }

  lemma NextBlock(objects: seq<Object>, k: nat)
    requires 1 <= k <= |objects|
    ensures Content(objects, k)
         == Content(objects, k - 1) + Opening(k) + objects[k - 1].body + END_OF_OBJECT
  {
    Assoc4(Content(objects, k - 1), Opening(k), objects[k - 1].body, END_OF_OBJECT);
  }

  lemma FileParts(objects: seq<Object>)
    ensures Content(objects, |objects|) + TableHead(|objects|) + Entries(objects, |objects|) + AfterTable(objects)
         == File(objects)
  {
    Assoc4(Content(objects, |objects|), TableHead(|objects|), Entries(objects, |objects|), AfterTable(objects));
  }

  /** The bytes, written one part after the other. */
  method WritePdfObjects(objects: seq<Object>) returns (content: string)
    ensures content == File(objects)
  {
    var n := |objects|;
    content := HEADER;
    var offsets := [0];
    for index := 1 to n + 1
      invariant content == Content(objects, index - 1)
      invariant |offsets| == index
      invariant forall k | 1 <= k < index :: offsets[k] == Offset(objects, k)
    {
      offsets := offsets + [|content|];
      content := content + Opening(index);
      content := content + objects[index - 1].body;
      content := content + END_OF_OBJECT;
      NextBlock(objects, index);
    }
    var xref := |content|;
    ghost var head := content + TableHead(n);
    content := content + TableHead(n);
    content := content + FREE_ENTRY;
    for index := 1 to n + 1
      invariant content == head + Entries(objects, index - 1)
    {
      content := content + Entry(offsets[index]);
      Assoc(head, Entries(objects, index - 1), Entry(offsets[index]));
    }
    content := content + (Trailer(n) + Ending(xref));
    FileParts(objects);
  }

  // ---- A reader that enters the file from its end ----

  /** The entry at a position: ten digits, then the mark of an object in use. */
  function ReadEntry(file: string, at: nat): Option<nat> {
    if at + 20 <= |file| && AllDigits(file[at..at + 10]) && file[at + 10..at + 20] == IN_USE
    then Some(Value(file[at..at + 10]))
    else None
  }

  /** The offsets of objects 1 to n, read from entries of twenty bytes. */
  function ReadEntries(file: string, table: nat, n: nat): (r: Option<seq<nat>>)
    ensures r.Some? ==> |r.value| == n
  {
    if n == 0 then Some([])
    else
      var offsets :- ReadEntries(file, table, n - 1);
      var offset :- ReadEntry(file, table + 20 * n);
      Some(offsets + [offset])
  }

  /** The object that fills the bytes of the span, if its number is k. */
  function ReadObject(span: string, k: nat): Option<Object> {
    var (number, afterNumber) :- ReadNat(span);
    var body :- Expect(afterNumber, " 0 obj\n");
    var end := |body| - |END_OF_OBJECT|;
    if number == k && 0 <= end && body[end..] == END_OF_OBJECT then Some(Object(body[..end])) else None
  }

  /** Object k reaches from its own stop to the next one; the last stop is the table. */
  function ReadObjectAt(file: string, stops: seq<nat>, k: nat): Option<Object> {
    if 1 <= k < |stops| && stops[k - 1] <= stops[k] <= |file|
    then ReadObject(file[stops[k - 1]..stops[k]], k)
    else None
  }

  /** The numbers from 1 to n. */
  function Numbers(n: nat): (ids: seq<nat>)
    ensures |ids| == n
    ensures forall k | 0 <= k < n :: ids[k] == k + 1
  {
    if n == 0 then [] else Numbers(n - 1) + [n]
  }

  function ReadObjects(file: string, stops: seq<nat>, n: nat): Option<seq<Object>> {
    Traverse(k => ReadObjectAt(file, stops, k), Numbers(n))
  }

  /** Where the numeral at the end of the text starts. */
  function NumeralStart(s: string): (at: nat)
    ensures at <= |s|
  {
    if s != "" && IsDigit(s[|s| - 1]) then NumeralStart(s[..|s| - 1]) else |s|
  }

  /** The number between startxref and the end-of-file marker. */
  function ReadStart(file: string): Option<nat> {
    var end := |file| - |END_OF_FILE|;
    if end < 0 || file[end..] != END_OF_FILE then None
    else
      var at := NumeralStart(file[..end]);
      if |START_XREF| <= at && file[at - |START_XREF|..at] == START_XREF then
        var (xref, rest) :- ReadNat(file[at..end]);
        if rest == "" then Some(xref) else None
      else None
  }

  /** The size the table announces, and the entries after it. */
  function ReadHead(s: string): Option<(nat, string)> {
    var afterStart :- Expect(s, TABLE_START);
    var (size, afterSize) :- ReadNat(afterStart);
    var entries :- Expect(afterSize, "\n");
    Some((size, entries))
  }

  /** The trailer dictionary between the table and startxref: the number of entries, and the catalog. */
  function ReadTrailer(s: string): Option<(nat, nat)> {
    var afterOpen :- Expect(s, "trailer\n<< /Size ");
    var (size, afterSize) :- ReadNat(afterOpen);
    var beforeRoot :- Expect(afterSize, " /Root ");
    var (root, afterRoot) :- ReadNat(beforeRoot);
    var rest :- Expect(afterRoot, " 0 R >>\n");
    if Expect(rest, START_XREF).Some? then Some((size, root)) else None
  }

  /** The trailer after a table of the given size, if it announces the same size. */
  function ReadRoot(file: string, at: nat, size: nat): Option<nat> {
    if at > |file| then None
    else
      var trailer := ReadTrailer(file[at..]);
      if trailer.None? || trailer.value.0 != size then None else Some(trailer.value.1)
  }

  /** The n objects of a file whose entries start at one position and whose table at another. */
  function ReadTable(file: string, xref: nat, table: nat, n: nat): Option<Contents> {
    var offsets := ReadEntries(file, table, n);
    if offsets.None? then None
    else
      var root := ReadRoot(file, table + 20 * (n + 1), n + 1);
      var objects := ReadObjects(file, offsets.value + [xref], n);
      if root.None? || objects.None? then None else Some(Contents(objects.value, root.value))
  }

  function ReadPdf(file: string): Option<Contents> {
    var start := ReadStart(file);
    if Expect(file, "%PDF-1.").None? || start.None? || start.value > |file| then None
    else
      var head := ReadHead(file[start.value..]);
      if head.None? then None
      else
        var (size, entries) := head.value;
        if size == 0 || |entries| > |file| || Expect(entries, FREE_ENTRY).None? then None
        else ReadTable(file, start.value, |file| - |entries|, size - 1)
  }

  // ---- The way in: startxref ----

  lemma {:induction false} NumeralStartOf(before: string, digits: string)
    requires AllDigits(digits)
    requires before != "" && !IsDigit(before[|before| - 1])
    ensures NumeralStart(before + digits) == |before|
  {
    if digits == "" {
      assert before + digits == before;
    } else {
      NumeralStartOf(before, digits[..|digits| - 1]);
      assert (before + digits)[..|before + digits| - 1] == before + digits[..|digits| - 1];
    }
  }

  lemma ReadStartOf(before: string, xref: nat)
    ensures ReadStart(before + Ending(xref)) == Some(xref)
  {
    DecRoundTrip(xref);
    var marked := before + START_XREF;
    assert marked[|before|..] == START_XREF;
    NumeralStartOf(marked, Dec(xref));
    Assoc4(before, START_XREF, Dec(xref), END_OF_FILE);
    EndAt(marked + Dec(xref), END_OF_FILE);
    EndAt(marked, Dec(xref));
    assert Dec(xref) + "" == Dec(xref);
    ReadNatDec(xref, "");
    ReadStartAt(before + Ending(xref), marked, Dec(xref));
  }

  lemma EndAt(a: string, b: string)
    ensures (a + b)[..|a|] == a && (a + b)[|a|..] == b
  {
  }

  lemma ReadStartAt(file: string, marked: string, numeral: string)
    requires file == marked + numeral + END_OF_FILE
    requires NumeralStart(marked + numeral) == |marked|
    requires |START_XREF| <= |marked| && marked[|marked| - |START_XREF|..] == START_XREF
    requires ReadNat(numeral).Some? && ReadNat(numeral).value.1 == ""
    ensures ReadStart(file) == Some(ReadNat(numeral).value.0)
  {
    EndAt(marked + numeral, END_OF_FILE);
    Middle(marked, numeral, END_OF_FILE);
    EndOfPrefix(marked, numeral + END_OF_FILE, |START_XREF|);
    Assoc(marked, numeral, END_OF_FILE);
  }

  lemma Middle(a: string, b: string, c: string)
    ensures (a + b + c)[|a|..|a + b + c| - |c|] == b
  {
  }

  lemma EndOfPrefix(a: string, b: string, n: nat)
    requires n <= |a|
    ensures (a + b)[|a| - n..|a|] == a[|a| - n..]
  {
  }

  // ---- The table ----

  predicate Fits(objects: seq<Object>, n: nat)
    requires n <= |objects|
  {
    forall k | 1 <= k <= n :: Offset(objects, k) < TEN_DIGITS
  }

  lemma {:induction false} EntriesWidth(objects: seq<Object>, n: nat)
    requires n <= |objects| && Fits(objects, n)
    ensures |Entries(objects, n)| == 20 * (n + 1)
  {
    if n > 0 {
      EntriesWidth(objects, n - 1);
      Pad10Width(Offset(objects, n));
    }
  }

  /** An entry is read back exactly when its offset fits in the ten places the format gives it. */
  lemma ReadEntryOf(before: string, offset: nat, after: string, file: string, at: nat)
    requires file == before + (Entry(offset) + after) && at == |before|
    ensures ReadEntry(file, at) == if offset < TEN_DIGITS then Some(offset) else None
  {
    Pad10RoundTrip(offset);
    Pad10Width(offset);
    assert file[at..at + 10] == Pad10(offset)[..10];
    if offset < TEN_DIGITS {
      assert file[at..at + 10] == Pad10(offset);
      assert file[at + 10..at + 20] == IN_USE;
    } else {
      assert file[at + 10] == Pad10(offset)[10];
      assert file[at + 10..at + 20][0] != IN_USE[0];
    }
  }

  /** The offsets as the writer recorded them. */
  function Offsets(objects: seq<Object>, n: nat): (offsets: seq<nat>)
    requires n <= |objects|
    ensures |offsets| == n
    ensures forall k | 0 <= k < n :: offsets[k] == |Content(objects, k)|
  {
    if n == 0 then [] else Offsets(objects, n - 1) + [Offset(objects, n)]
  }

  /** One more entry, when the earlier ones were read. */
  lemma ReadEntriesStep(file: string, table: nat, n: nat)
    requires n > 0
    ensures ReadEntries(file, table, n)
         == var offsets := ReadEntries(file, table, n - 1);
            var offset := ReadEntry(file, table + 20 * n);
            if offsets.None? || offset.None? then None else Some(offsets.value + [offset.value])
  {
  }

  lemma EntryAt(before: string, entries: string, offset: nat, after: string, file: string, n: nat)
    requires |entries| == 20 * n
    requires file == before + (entries + Entry(offset)) + after
    ensures ReadEntry(file, |before| + 20 * n) == if offset < TEN_DIGITS then Some(offset) else None
  {
    Assoc(before, entries, Entry(offset));
    Assoc(before + entries, Entry(offset), after);
    ReadEntryOf(before + entries, offset, after, file, |before| + 20 * n);
  }

  lemma {:induction false} ReadEntriesOf(before: string, objects: seq<Object>, n: nat, after: string, file: string)
    requires n <= |objects|
    requires file == before + Entries(objects, n) + after
    ensures ReadEntries(file, |before|, n) == if Fits(objects, n) then Some(Offsets(objects, n)) else None
  {
    if n > 0 {
      Assoc4(before, Entries(objects, n - 1), Entry(Offset(objects, n)), after);
      ReadEntriesOf(before, objects, n - 1, Entry(Offset(objects, n)) + after, file);
      ReadEntriesStep(file, |before|, n);
      if Fits(objects, n - 1) {
        EntriesWidth(objects, n - 1);
        EntryAt(before, Entries(objects, n - 1), Offset(objects, n), after, file, n);
        FitsStep(objects, n);
      }
    }
  }

  lemma FitsStep(objects: seq<Object>, n: nat)
    requires 1 <= n <= |objects|
    ensures Fits(objects, n) <==> Fits(objects, n - 1) && Offset(objects, n) < TEN_DIGITS
  {
  }

  // ---- The objects ----

  lemma {:induction false} ContentGrows(objects: seq<Object>, j: nat, n: nat)
    requires j <= n <= |objects|
    ensures Content(objects, j) <= Content(objects, n)
  {
    if j < n {
      ContentGrows(objects, j, n - 1);
    }
  }

  lemma ReadObjectOf(k: nat, o: Object)
    ensures ReadObject(Block(k, o), k) == Some(o)
  {
    var rest := o.body + END_OF_OBJECT;
    assert Block(k, o) == Dec(k) + (" 0 obj\n" + rest);
    ReadNatDec(k, " 0 obj\n" + rest);
    ExpectLiteral(" 0 obj\n", rest);
    assert rest[|rest| - |END_OF_OBJECT|..] == END_OF_OBJECT;
    assert rest[..|rest| - |END_OF_OBJECT|] == o.body;
  }

  /** The bytes between two recorded offsets are one object, starting at its own number. */
  lemma SpanIsBlock(objects: seq<Object>, k: nat, after: string)
    requires 1 <= k <= |objects|
    ensures Offset(objects, k) <= |Content(objects, k)| <= |Content(objects, |objects|) + after|
    ensures (Content(objects, |objects|) + after)[Offset(objects, k)..|Content(objects, k)|]
         == Block(k, objects[k - 1])
  {
    ContentGrows(objects, k, |objects|);
    var content := Content(objects, |objects|);
    assert (content + after)[..|Content(objects, k)|] == Content(objects, k);
    assert Content(objects, k)[Offset(objects, k)..] == Block(k, objects[k - 1]);
    SliceOfPrefix(content + after, Offset(objects, k), |Content(objects, k)|);
  }

  lemma SliceOfPrefix(s: string, i: nat, j: nat)
    requires i <= j <= |s|
    ensures s[i..j] == s[..j][i..]
  {
  }

  /** Between the stops of object k the reader finds object k. */
  lemma ObjectAt(objects: seq<Object>, after: string, stops: seq<nat>, k: nat)
    requires 1 <= k <= |objects| && k < |stops|
    requires stops[k - 1] == Offset(objects, k) && stops[k] == |Content(objects, k)|
    ensures ReadObjectAt(Content(objects, |objects|) + after, stops, k) == Some(objects[k - 1])
  {
    SpanIsBlock(objects, k, after);
    ReadObjectOf(k, objects[k - 1]);
  }

  lemma StopAt(objects: seq<Object>, stops: seq<nat>, i: nat)
    requires i < |objects| && stops == Offsets(objects, |objects|) + [|Content(objects, |objects|)|]
    ensures i + 1 < |stops| && stops[i] == Offset(objects, i + 1) && stops[i + 1] == |Content(objects, i + 1)|
  {
  }

  lemma AllRead(objects: seq<Object>, file: string, stops: seq<nat>)
    requires forall i | 0 <= i < |objects| :: ReadObjectAt(file, stops, i + 1) == Some(objects[i])
    ensures ReadObjects(file, stops, |objects|) == Some(objects)
  {
    TraverseAll(k => ReadObjectAt(file, stops, k), Numbers(|objects|), objects);
  }

  lemma ReadContent(objects: seq<Object>, after: string)
    ensures ReadObjects(Content(objects, |objects|) + after,
                        Offsets(objects, |objects|) + [|Content(objects, |objects|)|], |objects|)
         == Some(objects)
  {
    var n := |objects|;
    var stops: seq<nat> := Offsets(objects, n) + [|Content(objects, n)|];
    EachRead(objects, after, Content(objects, n) + after, stops);
    AllRead(objects, Content(objects, n) + after, stops);
  }

  lemma EachRead(objects: seq<Object>, after: string, file: string, stops: seq<nat>)
    requires file == Content(objects, |objects|) + after
    requires stops == Offsets(objects, |objects|) + [|Content(objects, |objects|)|]
    ensures forall i | 0 <= i < |objects| :: ReadObjectAt(file, stops, i + 1) == Some(objects[i])
  {
    forall i | 0 <= i < |objects|
      ensures ReadObjectAt(file, stops, i + 1) == Some(objects[i])
    {
      StopAt(objects, stops, i);
      ObjectAt(objects, after, stops, i + 1);
    }
  }

  // ---- Round trip ----

  lemma ReadHeadOf(n: nat, entries: string)
    ensures ReadHead(TableHead(n) + entries) == Some((n + 1, entries))
  {
    Assoc4(TABLE_START, Dec(n + 1), "\n", entries);
    ExpectLiteral(TABLE_START, Dec(n + 1) + ("\n" + entries));
    ReadNatDec(n + 1, "\n" + entries);
    ExpectLiteral("\n", entries);
  }

  lemma FileEnding(objects: seq<Object>) returns (before: string)
    ensures File(objects) == before + Ending(|Content(objects, |objects|)|)
  {
    var n := |objects|;
    var content := Content(objects, n);
    before := content + (TableHead(n) + (Entries(objects, n) + Trailer(n)));
    Assoc(Entries(objects, n), Trailer(n), Ending(|content|));
    Assoc(TableHead(n), Entries(objects, n) + Trailer(n), Ending(|content|));
    Assoc(content, TableHead(n) + (Entries(objects, n) + Trailer(n)), Ending(|content|));
  }

  /** Up to the entries, the reader finds its way whatever they are. */
  lemma ReachesTable(file: string, xref: nat, n: nat, entries: string)
    requires ReadStart(file) == Some(xref) && xref <= |file|
    requires ReadHead(file[xref..]) == Some((n + 1, entries)) && |entries| <= |file|
    requires Expect(entries, FREE_ENTRY).Some? && Expect(file, "%PDF-1.").Some?
    ensures ReadPdf(file) == ReadTable(file, xref, |file| - |entries|, n)
  {
  }

  /** Where the entries start. */
  function TableAt(objects: seq<Object>): (at: nat)
    ensures at == |File(objects)| - |Entries(objects, |objects|) + AfterTable(objects)|
  {
    |Content(objects, |objects|) + TableHead(|objects|)|
  }

  lemma ExpectPrefix(s: string, t: string, literal: string)
    requires t <= s && literal <= t
    ensures Expect(s, literal).Some?
  {
    assert s[..|t|][..|literal|] == s[..|literal|];
  }

  lemma StartsWithHeader(objects: seq<Object>, after: string)
    ensures Expect(Content(objects, |objects|) + after, "%PDF-1.").Some?
  {
    ContentGrows(objects, 0, |objects|);
    ExpectPrefix(Content(objects, |objects|), HEADER, "%PDF-1.");
    ExpectPrefix(Content(objects, |objects|) + after, Content(objects, |objects|), "%PDF-1.");
  }

  lemma ReadTrailerOf(n: nat, xref: nat)
    ensures ReadTrailer(Trailer(n) + Ending(xref)) == Some((n + 1, 1))
  {
    var ending := Ending(xref);
    var afterRoot := " 0 R >>\n" + ending;
    var afterSize := " /Root " + (Dec(1) + afterRoot);
    assert Dec(1) == "1";
    assert Trailer(n) + ending == "trailer\n<< /Size " + (Dec(n + 1) + afterSize);
    ExpectLiteral("trailer\n<< /Size ", Dec(n + 1) + afterSize);
    ReadNatDec(n + 1, afterSize);
    ExpectLiteral(" /Root ", Dec(1) + afterRoot);
    ReadNatDec(1, afterRoot);
    ExpectLiteral(" 0 R >>\n", ending);
    Assoc(START_XREF, Dec(xref), END_OF_FILE);
    ExpectLiteral(START_XREF, Dec(xref) + END_OF_FILE);
  }

  /** The trailer follows the table, and names object 1 as the catalog. */
  lemma ReadRootOf(objects: seq<Object>, file: string, before: string, at: nat)
    requires file == before + AfterTable(objects) && at == |before|
    ensures ReadRoot(file, at, |objects| + 1) == Some(1)
  {
    EndAt(before, AfterTable(objects));
    ReadTrailerOf(|objects|, |Content(objects, |objects|)|);
  }

  lemma ReadFile(objects: seq<Object>, content: string, at: nat)
    requires content == Content(objects, |objects|) && at == TableAt(objects)
    ensures ReadPdf(File(objects)) == ReadTable(File(objects), |content|, at, |objects|)
  {
    var n := |objects|;
    var before := FileEnding(objects);
    ReadStartOf(before, |content|);
    FirstEntry(objects, n, AfterTable(objects));
    ReadHeadOf(n, Entries(objects, n) + AfterTable(objects));
    EndAt(content, AfterContent(objects));
    StartsWithHeader(objects, AfterContent(objects));
    ReachesTable(File(objects), |content|, n, Entries(objects, n) + AfterTable(objects));
  }

  lemma {:induction false} FirstEntry(objects: seq<Object>, n: nat, after: string)
    requires n <= |objects|
    ensures Expect(Entries(objects, n) + after, FREE_ENTRY).Some?
  {
    if n == 0 {
      ExpectLiteral(FREE_ENTRY, after);
    } else {
      FirstEntry(objects, n - 1, Entry(Offset(objects, n)) + after);
      Assoc(Entries(objects, n - 1), Entry(Offset(objects, n)), after);
    }
  }

  lemma OffsetsIncrease(objects: seq<Object>, k: nat, n: nat)
    requires 1 <= k <= n <= |objects|
    ensures Offset(objects, k) <= Offset(objects, n)
  {
    ContentGrows(objects, k - 1, n - 1);
  }

  lemma FitsIff(objects: seq<Object>)
    requires objects != []
    ensures Fits(objects, |objects|) <==> Offset(objects, |objects|) < TEN_DIGITS
  {
    forall k | 1 <= k <= |objects|
      ensures Offset(objects, k) <= Offset(objects, |objects|)
    {
      OffsetsIncrease(objects, k, |objects|);
    }
  }

  /** The table is followed by the trailer when every entry is twenty bytes. */
  lemma ReadWhole(objects: seq<Object>)
    requires Fits(objects, |objects|)
    ensures ReadTable(File(objects), |Content(objects, |objects|)|, TableAt(objects), |objects|)
         == Some(Contents(objects, 1))
  {
    var n := |objects|;
    var head := Content(objects, n) + TableHead(n);
    FileParts(objects);
    ReadEntriesOf(head, objects, n, AfterTable(objects), File(objects));
    EntriesWidth(objects, n);
    ReadRootOf(objects, File(objects), head + Entries(objects, n), TableAt(objects) + 20 * (n + 1));
    ReadContent(objects, AfterContent(objects));
  }

  lemma ReadNothing(objects: seq<Object>)
    requires !Fits(objects, |objects|)
    ensures ReadTable(File(objects), |Content(objects, |objects|)|, TableAt(objects), |objects|) == None
  {
    FileParts(objects);
    ReadEntriesOf(Content(objects, |objects|) + TableHead(|objects|), objects, |objects|, AfterTable(objects),
        File(objects));
  }

  /**
   Reading a written file gives the objects back, and object 1 as the catalog, exactly when the last object
   starts within the first 10^10 bytes; a later start needs an eleventh digit, which shifts the table and is
   refused.
  */
  lemma RoundTripIff(objects: seq<Object>)
    ensures ReadPdf(File(objects)) == Some(Contents(objects, 1))
            <==> objects == [] || Offset(objects, |objects|) < TEN_DIGITS
    ensures ReadPdf(File(objects)) != Some(Contents(objects, 1)) ==> ReadPdf(File(objects)) == None
  {
    var n := |objects|;
    if objects != [] {
      FitsIff(objects);
    }
    ReadFile(objects, Content(objects, n), TableAt(objects));
    if Fits(objects, n) {
      ReadWhole(objects);
    } else {
      ReadNothing(objects);
    }
  }

  /** In a file of less than 10^10 bytes every object is recovered, whatever its bytes are. */
  lemma SmallFilesRoundTrip(objects: seq<Object>)
    requires |File(objects)| < TEN_DIGITS
    ensures ReadPdf(File(objects)) == Some(Contents(objects, 1))
  {
    RoundTripIff(objects);
    if objects != [] {
      ContentGrows(objects, |objects| - 1, |objects|);
    }
  }

  /** Different object lists never share a file. */
  lemma FilesDistinct(a: seq<Object>, b: seq<Object>)
    requires |File(a)| < TEN_DIGITS
    requires File(a) == File(b)
    ensures a == b
  {
    SmallFilesRoundTrip(a);
    SmallFilesRoundTrip(b);
  }
}
