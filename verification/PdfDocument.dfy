/**
 The object graph of the generated PDF: catalog, page tree, pages, content streams and fonts,
 connected by object numbers. The reader starts at the catalog the trailer names, follows every
 reference and demands that each leads to an object of the right kind.
*/
module PdfDocument {
  import opened Wrappers
  import opened Decimal
  import opened Text
  import opened PdfText
  import PdfFile

  type Object = PdfFile.Object

  // ---- Forms: fixed text around numbers ----

  function Form1(a: string, x: nat, end: string): string {
    a + (Dec(x) + end)
  }

  function Form2(a: string, x: nat, b: string, y: nat, end: string): string {
    a + (Dec(x) + Form1(b, y, end))
  }

  function Form3(a: string, x: nat, b: string, y: nat, c: string, z: nat, end: string): string {
    a + (Dec(x) + Form2(b, y, c, z, end))
  }

  function ReadNumber(s: string, a: string): Option<(nat, string)> {
    var after :- Expect(s, a);
    ReadNat(after)
  }

  function Scan1(s: string, a: string, end: string): Option<nat> {
    var (x, rest) :- ReadNumber(s, a);
    if rest == end then Some(x) else None
  }

  function Scan2(s: string, a: string, b: string, end: string): Option<(nat, nat)> {
    var (x, rest) :- ReadNumber(s, a);
    var y :- Scan1(rest, b, end);
    Some((x, y))
  }

  function Scan3(s: string, a: string, b: string, c: string, end: string): Option<(nat, nat, nat)> {
    var (x, rest) :- ReadNumber(s, a);
    var (y, z) :- Scan2(rest, b, c, end);
    Some((x, y, z))
  }

  lemma ReadNumberOf(a: string, x: nat, rest: string)
    requires NoDigitAhead(rest)
    ensures ReadNumber(a + (Dec(x) + rest), a) == Some((x, rest))
  {
    ExpectLiteral(a, Dec(x) + rest);
    ReadNatDec(x, rest);
  }

  /** Fixed text that keeps the digits before it apart from what follows. */
  predicate Separator(s: string) {
    s != "" && !IsDigit(s[0])
  }

  lemma Scan1Of(a: string, x: nat, end: string)
    requires Separator(end)
    ensures Scan1(Form1(a, x, end), a, end) == Some(x)
  {
    ReadNumberOf(a, x, end);
  }

  lemma Scan2Of(a: string, x: nat, b: string, y: nat, end: string)
    requires Separator(b) && Separator(end)
    ensures Scan2(Form2(a, x, b, y, end), a, b, end) == Some((x, y))
  {
    ReadNumberOf(a, x, Form1(b, y, end));
    Scan1Of(b, y, end);
  }

  lemma Scan3Of(a: string, x: nat, b: string, y: nat, c: string, z: nat, end: string)
    requires Separator(b) && Separator(c) && Separator(end)
    ensures Scan3(Form3(a, x, b, y, c, z, end), a, b, c, end) == Some((x, y, z))
  {
    ReadNumberOf(a, x, Form2(b, y, c, z, end));
    Scan2Of(b, y, c, z, end);
  }

  // ---- The writer's objects ----

  const REFERENCE := " 0 R"
  const CATALOG := "<< /Type /Catalog /Pages "
  const REFERENCE_END := " 0 R >>"
  const TREE := "<< /Type /Pages /Kids ["
  const COUNT := "] /Count "
  const END := " >>"
  const PAGE := "<< /Type /Page /Parent "
  const PAGE_FONT := " " + "0 R /MediaBox [0 0 595 842] /Resources << /Font << /F1 "
  const PAGE_CONTENTS := " " + "0 R >> >> /Contents "
  const STREAM := "<< /Length "
  const STREAM_DATA := " >>\nstream\n"
  const STREAM_END := "\nendstream"
  const FONT :=
    "<< /Type /Font /Subtype /Type0 /BaseFont /Times-Roman /Encoding /Identity-H /DescendantFonts ["
  const FONT_UNICODE := " 0 R] /ToUnicode "
  const CID_FONT := "<< /Type /Font /Subtype /CIDFontType2 /BaseFont /Times-Roman " +
    "/CIDSystemInfo << /Registry (Adobe) /Ordering (Identity) /Supplement 0 >> /FontDescriptor "
  const CID_FONT_END := " 0 R /W [0 [600]] >>"
  const DESCRIPTOR := "<< /Type /FontDescriptor /FontName /Times-Roman /Flags 4 " +
    "/FontBBox [-166 -225 1000 931] /ItalicAngle 0 /Ascent 931 " +
    "/Descent -225 /CapHeight 718 /StemV 80 >>"
  const CMAP := "/CIDInit /ProcSet findresource begin\n12 dict begin\nbegincmap\n" +
    "/CIDSystemInfo << /Registry (Adobe) /Ordering (UCS) /Supplement 0 >> def\n" +
    "/CMapName /Adobe-Identity-UCS def\n/CMapType 2 def\n" +
    "1 begincodespacerange\n<0000> <FFFF>\nendcodespacerange\n" +
    "1 beginbfrange\n<0000> <FFFF> <0000>\nendbfrange\nendcmap\n" +
    "CMapName currentdict /CMap defineresource pop\nend\nend"

  lemma Separators()
    ensures Separator(REFERENCE) && Separator(REFERENCE_END) && Separator(COUNT) && Separator(END)
    ensures Separator(PAGE_FONT) && Separator(PAGE_CONTENTS) && Separator(STREAM_DATA)
    ensures Separator(FONT_UNICODE) && Separator(CID_FONT_END)
  {
    assert REFERENCE[0] == REFERENCE_END[0] == END[0] == PAGE_FONT[0] == PAGE_CONTENTS[0] == ' ';
    assert STREAM_DATA[0] == FONT_UNICODE[0] == CID_FONT_END[0] == ' ';
    assert COUNT[0] == ']';
  }

  /** The page tree's children from the i-th on, as references between spaces. */
  function Kids(i: nat, n: nat): string
    requires i <= n
    decreases n - i
  {
    if i == n then ""
    else if i == n - 1 then Dec(3 + i * 2) + REFERENCE
    else Dec(3 + i * 2) + REFERENCE + " " + Kids(i + 1, n)
  }

  function PageTree(n: nat): string {
    TREE + (Kids(0, n) + Form1(COUNT, n, END))
  }

  function PageObject(contentId: nat, fontId: nat): string {
    Form3(PAGE, 2, PAGE_FONT, fontId, PAGE_CONTENTS, contentId, REFERENCE_END)
  }

  function StreamObject(stream: string): string {
    STREAM + (Dec(|stream|) + (STREAM_DATA + (stream + STREAM_END)))
  }

  function FontObjects(fontId: nat): (objects: seq<Object>)
    ensures |objects| == 4
  {
    [PdfFile.Object(Form2(FONT, fontId + 1, FONT_UNICODE, fontId + 2, REFERENCE_END)),
     PdfFile.Object(Form1(CID_FONT, fontId + 3, CID_FONT_END)),
     PdfFile.Object(StreamObject(CMAP)),
     PdfFile.Object(DESCRIPTOR)]
  }

  /** A page and its content stream, for the first n pages. */
  function PageObjects(pages: seq<Page>, n: nat, fontId: nat): (objects: seq<Object>)
    requires n <= |pages|
    ensures |objects| == 2 * n
  {
    if n == 0 then []
    else
      PageObjects(pages, n - 1, fontId)
      + [PdfFile.Object(PageObject(4 + (n - 1) * 2, fontId)),
         PdfFile.Object(StreamObject(TextStream(pages[n - 1].lines)))]
  }

  function Front(n: nat): (objects: seq<Object>)
    ensures |objects| == 2
  {
    [PdfFile.Object(Form1(CATALOG, 2, REFERENCE_END)), PdfFile.Object(PageTree(n))]
  }

  function Objects(pages: seq<Page>): (objects: seq<Object>)
    ensures |objects| == 2 * |pages| + 6
  {
    var fontId := 3 + |pages| * 2;
    Front(|pages|) + PageObjects(pages, |pages|, fontId) + FontObjects(fontId)
  }

  lemma AppendTwo<T>(a: seq<T>, b: seq<T>, x: T, y: T)
    ensures a + b + [x] + [y] == a + (b + [x, y])
  {
  }

  /** The list of objects, page by page, with the fonts at the end. */
  method BuildPdfObjects(pages: seq<Page>) returns (objects: seq<Object>)
    ensures objects == Objects(pages)
  {
    objects := [];
    objects := objects + [PdfFile.Object(Form1(CATALOG, 2, REFERENCE_END))];
    objects := objects + [PdfFile.Object(PageTree(|pages|))];
    ghost var front := Front(|pages|);
    assert objects == front;
    var fontId := 3 + |pages| * 2;
    for index := 0 to |pages|
      invariant objects == front + PageObjects(pages, index, fontId)
    {
      objects := AddPage(pages[index], index, fontId, objects);
      PageObjectsStep(front, pages, index, fontId);
    }
    objects := objects + FontObjects(fontId);
  }

  /** The body of the loop over the pages. */
  method AddPage(page: Page, index: nat, fontId: nat, before: seq<Object>) returns (objects: seq<Object>)
    ensures objects == before + [PdfFile.Object(PageObject(4 + index * 2, fontId))]
                              + [PdfFile.Object(StreamObject(TextStream(page.lines)))]
  {
    var pageId := 3 + index * 2;
    var contentId := pageId + 1;
    objects := before + [PdfFile.Object(PageObject(contentId, fontId))];
    var stream := PdfTextStream(page.lines);
    objects := objects + [PdfFile.Object(StreamObject(stream))];
  }

  lemma PageObjectsStep(front: seq<Object>, pages: seq<Page>, index: nat, fontId: nat)
    requires index < |pages|
    ensures front + PageObjects(pages, index, fontId)
            + [PdfFile.Object(PageObject(4 + index * 2, fontId))]
            + [PdfFile.Object(StreamObject(TextStream(pages[index].lines)))]
         == front + PageObjects(pages, index + 1, fontId)
  {
    AppendTwo(front, PageObjects(pages, index, fontId),
              PdfFile.Object(PageObject(4 + index * 2, fontId)),
              PdfFile.Object(StreamObject(TextStream(pages[index].lines))));
  }

  // ---- The reader ----

  /** The body a reference leads to. */
  function Resolve(objects: seq<Object>, id: nat): Option<string> {
    if 1 <= id <= |objects| then Some(objects[id - 1].body) else None
  }

  /** References between spaces, up to the first thing that is not one. */
  function ReadKids(s: string): Option<(seq<nat>, string)>
    decreases |s|
  {
    if s == "" || !IsDigit(s[0]) then Some(([], s))
    else
      var (id, afterId) :- ReadNat(s);
      var after :- Expect(afterId, REFERENCE);
      if after != "" && after[0] == ' ' && |after| < |s| then
        var (ids, rest) :- ReadKids(after[1..]);
        Some(([id] + ids, rest))
      else Some(([id], after))
  }

  function ReadTree(body: string): Option<seq<nat>> {
    var list :- Expect(body, TREE);
    var (ids, rest) :- ReadKids(list);
    var count :- Scan1(rest, COUNT, END);
    if count == |ids| then Some(ids) else None
  }

  /** The data of a stream, whose length must be the one announced. */
  function ReadStream(body: string): Option<string> {
    var (length, afterLength) :- ReadNumber(body, STREAM);
    var data :- Expect(afterLength, STREAM_DATA);
    if length <= |data| && data[length..] == STREAM_END then Some(data[..length]) else None
  }

  /** A composite font with a descendant font that has a descriptor, and a map to Unicode. */
  predicate IsFont(objects: seq<Object>, id: nat) {
    var font := Resolve(objects, id);
    if font.None? then false
    else
      var parts := Scan2(font.value, FONT, FONT_UNICODE, REFERENCE_END);
      parts.Some? && IsCidFont(objects, parts.value.0) && IsUnicodeMap(objects, parts.value.1)
  }

  predicate IsCidFont(objects: seq<Object>, id: nat) {
    var font := Resolve(objects, id);
    if font.None? then false
    else
      var descriptor := Scan1(font.value, CID_FONT, CID_FONT_END);
      descriptor.Some? && Resolve(objects, descriptor.value) == Some(DESCRIPTOR)
  }

  predicate IsUnicodeMap(objects: seq<Object>, id: nat) {
    var body := Resolve(objects, id);
    body.Some? && ReadStream(body.value) == Some(CMAP)
  }

  function ReadContents(objects: seq<Object>, id: nat): Option<seq<Line>> {
    var body :- Resolve(objects, id);
    var stream :- ReadStream(body);
    ReadTextStream(stream)
  }

  /** The page with this number, if it belongs to this parent and has a font and contents. */
  function ReadPage(objects: seq<Object>, parent: nat, id: nat): Option<Page> {
    var body :- Resolve(objects, id);
    var (owner, font, contents) :- Scan3(body, PAGE, PAGE_FONT, PAGE_CONTENTS, REFERENCE_END);
    if owner == parent && IsFont(objects, font) then
      var lines :- ReadContents(objects, contents);
      Some(Page(lines))
    else None
  }

  function ReadDocument(contents: PdfFile.Contents): Option<seq<Page>> {
    var objects := contents.objects;
    var catalog :- Resolve(objects, contents.root);
    var tree :- Scan1(catalog, CATALOG, REFERENCE_END);
    var body :- Resolve(objects, tree);
    var ids :- ReadTree(body);
    Traverse(id => ReadPage(objects, tree, id), ids)
  }

  // ---- Where each object is ----

  lemma {:induction false} PageObjectsAt(pages: seq<Page>, n: nat, fontId: nat, i: nat)
    requires i < n <= |pages|
    ensures PageObjects(pages, n, fontId)[2 * i] == PdfFile.Object(PageObject(4 + i * 2, fontId))
    ensures PageObjects(pages, n, fontId)[2 * i + 1]
         == PdfFile.Object(StreamObject(TextStream(pages[i].lines)))
  {
    if i < n - 1 {
      PageObjectsAt(pages, n - 1, fontId, i);
    }
  }

  lemma MiddleAt<T>(a: seq<T>, b: seq<T>, c: seq<T>, i: nat)
    requires i < |b|
    ensures (a + b + c)[|a| + i] == b[i]
  {
  }

  lemma ResolveMiddle(a: seq<Object>, b: seq<Object>, c: seq<Object>, i: nat, id: nat)
    requires i < |b| && id == |a| + i + 1
    ensures Resolve(a + b + c, id) == Some(b[i].body)
  {
    MiddleAt(a, b, c, i);
  }

  /** Page i is object 3 + 2i and its content stream is object 4 + 2i. */
  lemma PagePlace(pages: seq<Page>, i: nat)
    requires i < |pages|
    ensures Resolve(Objects(pages), 3 + i * 2) == Some(PageObject(4 + i * 2, 3 + |pages| * 2))
    ensures Resolve(Objects(pages), 4 + i * 2) == Some(StreamObject(TextStream(pages[i].lines)))
  {
    var n, fontId := |pages|, 3 + |pages| * 2;
    PageObjectsAt(pages, n, fontId, i);
    ResolveMiddle(Front(n), PageObjects(pages, n, fontId), FontObjects(fontId), 2 * i, 3 + i * 2);
    ResolveMiddle(Front(n), PageObjects(pages, n, fontId), FontObjects(fontId), 2 * i + 1, 4 + i * 2);
  }

  lemma FrontPlace(pages: seq<Page>)
    ensures Resolve(Objects(pages), 1) == Some(Form1(CATALOG, 2, REFERENCE_END))
    ensures Resolve(Objects(pages), 2) == Some(PageTree(|pages|))
  {
  }

  /** The four font objects come last. */
  lemma FontPlace(pages: seq<Page>, k: nat)
    requires k < 4
    ensures Resolve(Objects(pages), 3 + |pages| * 2 + k)
         == Some(FontObjects(3 + |pages| * 2)[k].body)
  {
  }

  // ---- Streams and fonts ----

  /** A stream announces its true length, so its data is found again whatever it contains. */
  lemma StreamRoundTrip(stream: string)
    ensures ReadStream(StreamObject(stream)) == Some(stream)
  {
    Separators();
    ReadNumberOf(STREAM, |stream|, STREAM_DATA + (stream + STREAM_END));
    ExpectLiteral(STREAM_DATA, stream + STREAM_END);
    PdfFile.EndAt(stream, STREAM_END);
  }

  lemma FontResolves(pages: seq<Page>)
    ensures IsFont(Objects(pages), 3 + |pages| * 2)
  {
    var fontId := 3 + |pages| * 2;
    FontPlace(pages, 0);
    CompositeFontOf(fontId);
    CidFontResolves(pages);
    UnicodeMapResolves(pages);
  }

  lemma CompositeFontOf(fontId: nat)
    ensures Scan2(FontObjects(fontId)[0].body, FONT, FONT_UNICODE, REFERENCE_END) == Some((fontId + 1, fontId + 2))
  {
    Separators();
    Scan2Of(FONT, fontId + 1, FONT_UNICODE, fontId + 2, REFERENCE_END);
  }

  lemma CidFontResolves(pages: seq<Page>)
    ensures IsCidFont(Objects(pages), 4 + |pages| * 2)
  {
    FontPlace(pages, 1);
    FontPlace(pages, 3);
    Separators();
    Scan1Of(CID_FONT, 6 + |pages| * 2, CID_FONT_END);
  }

  lemma UnicodeMapResolves(pages: seq<Page>)
    ensures IsUnicodeMap(Objects(pages), 5 + |pages| * 2)
  {
    FontPlace(pages, 2);
    StreamRoundTrip(CMAP);
  }

  // ---- The page tree ----

  function KidIds(i: nat, n: nat): (ids: seq<nat>)
    requires i <= n
    ensures |ids| == n - i
    ensures forall k | 0 <= k < n - i :: ids[k] == 3 + (i + k) * 2
    decreases n - i
  {
    if i == n then [] else [3 + i * 2] + KidIds(i + 1, n)
  }

  lemma ReadKidsLast(id: nat, rest: string)
    requires Separator(rest) && rest[0] != ' '
    ensures ReadKids(Dec(id) + REFERENCE + rest) == Some(([id], rest))
  {
    KidAhead(id, rest);
  }

  lemma ReadKidsMore(id: nat, more: string, ids: seq<nat>, rest: string)
    requires ReadKids(more) == Some((ids, rest))
    ensures ReadKids(Dec(id) + REFERENCE + " " + more) == Some(([id] + ids, rest))
  {
    Assoc(Dec(id) + REFERENCE, " ", more);
    KidAhead(id, " " + more);
    assert (" " + more)[1..] == more;
  }

  lemma KidAhead(id: nat, rest: string)
    ensures var s := Dec(id) + REFERENCE + rest;
            s != "" && IsDigit(s[0]) && ReadNat(s) == Some((id, REFERENCE + rest)) && |rest| < |s|
    ensures Expect(REFERENCE + rest, REFERENCE) == Some(rest)
  {
    Separators();
    DecRoundTrip(id);
    Assoc(Dec(id), REFERENCE, rest);
    ReadNatDec(id, REFERENCE + rest);
    ExpectLiteral(REFERENCE, rest);
  }

  lemma {:induction false} ReadKidsOf(i: nat, n: nat, rest: string)
    requires i <= n && Separator(rest) && rest[0] != ' '
    ensures ReadKids(Kids(i, n) + rest) == Some((KidIds(i, n), rest))
    decreases n - i
  {
    if i == n {
      assert Kids(i, n) + rest == rest;
    } else if i == n - 1 {
      ReadKidsLast(3 + i * 2, rest);
      assert KidIds(i, n) == [3 + i * 2];
    } else {
      ReadKidsOf(i + 1, n, rest);
      ReadKidsMore(3 + i * 2, Kids(i + 1, n) + rest, KidIds(i + 1, n), rest);
      KidsMore(i, n, rest);
    }
  }

  lemma KidsMore(i: nat, n: nat, rest: string)
    requires i + 1 < n
    ensures Kids(i, n) + rest == Dec(3 + i * 2) + REFERENCE + " " + (Kids(i + 1, n) + rest)
    ensures KidIds(i, n) == [3 + i * 2] + KidIds(i + 1, n)
  {
    Assoc(Dec(3 + i * 2) + REFERENCE + " ", Kids(i + 1, n), rest);
  }

  lemma TreeRoundTrip(n: nat)
    ensures ReadTree(PageTree(n)) == Some(KidIds(0, n))
  {
    var rest := Form1(COUNT, n, END);
    Separators();
    ExpectLiteral(TREE, Kids(0, n) + rest);
    assert rest[0] == COUNT[0] == ']';
    ReadKidsOf(0, n, rest);
    Scan1Of(COUNT, n, END);
  }

  // ---- Round trip ----

  lemma PageResolves(pages: seq<Page>, i: nat)
    requires i < |pages|
    ensures ReadPage(Objects(pages), 2, 3 + i * 2) == Some(pages[i])
  {
    var fontId := 3 + |pages| * 2;
    PagePlace(pages, i);
    FontResolves(pages);
    Separators();
    Scan3Of(PAGE, 2, PAGE_FONT, fontId, PAGE_CONTENTS, 4 + i * 2, REFERENCE_END);
    StreamRoundTrip(TextStream(pages[i].lines));
    TextStreamRoundTrip(pages[i].lines);
  }

  lemma PagesResolve(pages: seq<Page>)
    ensures Traverse(id => ReadPage(Objects(pages), 2, id), KidIds(0, |pages|)) == Some(pages)
  {
    var lookup := id => ReadPage(Objects(pages), 2, id);
    var ids := KidIds(0, |pages|);
    forall i | 0 <= i < |pages|
      ensures lookup(ids[i]) == Some(pages[i])
    {
      PageResolves(pages, i);
    }
    TraverseAll(lookup, ids, pages);
  }

  /**
   Following the references from the catalog on, every one leads to an object of the intended kind
   and the pages come back, line by line.
  */
  lemma DocumentRoundTrip(pages: seq<Page>)
    ensures ReadDocument(PdfFile.Contents(Objects(pages), 1)) == Some(pages)
  {
    FrontPlace(pages);
    Separators();
    Scan1Of(CATALOG, 2, REFERENCE_END);
    TreeRoundTrip(|pages|);
    PagesResolve(pages);
  }

  /** From the wrapped lines to the bytes. */
  method WritePdf(lines: seq<Line>) returns (content: string)
    ensures content == PdfFile.File(Objects(Pages(lines)))
  {
    var pages := Paginate(lines, LINES_PER_PAGE);
    var objects := BuildPdfObjects(pages);
    content := PdfFile.WritePdfObjects(objects);
  }

  /** Bytes to lines, through the cross-reference table, the trailer, the page tree and the text streams. */
  function ReadLines(content: string): Option<seq<Line>> {
    var contents :- PdfFile.ReadPdf(content);
    var pages :- ReadDocument(contents);
    Some(Lines(pages))
  }

  /**
   A written document gives its lines back, in full pages of 36, exactly when its last object starts
   within the first 10^10 bytes.
  */
  lemma LinesRoundTripIff(lines: seq<Line>)
    ensures var objects := Objects(Pages(lines));
            ReadLines(PdfFile.File(objects)) == Some(lines)
            <==> PdfFile.Offset(objects, |objects|) < TEN_DIGITS
    ensures Full(Pages(lines), LINES_PER_PAGE)
  {
    PdfFile.RoundTripIff(Objects(Pages(lines)));
    DocumentRoundTrip(Pages(lines));
    PagesKeepLines(lines);
  }
}
