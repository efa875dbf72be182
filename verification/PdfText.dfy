/**
 The text side of the PDF writer: lines split into pages, and a page's lines drawn as hexadecimal
 UTF-16 strings. The reader takes a page's instructions apart again.
*/
module PdfText {
  import opened Wrappers
  import opened Decimal
  import opened Text

  datatype Line = Line(text: string)
  datatype Page = Page(lines: seq<Line>)

  const LINES_PER_PAGE := 36

  // ---- Pages ----

  function Lines(pages: seq<Page>): seq<Line> {
    if pages == [] then [] else pages[0].lines + Lines(pages[1..])
  }

  /** Every page is full but the last one, which is not empty. */
  predicate Full(pages: seq<Page>, size: nat) {
    pages == [] ||
    (1 <= |pages[0].lines| <= size && (|pages| > 1 ==> |pages[0].lines| == size) && Full(pages[1..], size))
  }

  function Min(a: nat, b: nat): nat {
    if a < b then a else b
  }

  /** lines[from:to] of Python, whose bounds may lie beyond the end. */
  function Slice(lines: seq<Line>, from: nat, to: nat): seq<Line>
    requires from <= to
  {
    lines[Min(from, |lines|)..Min(to, |lines|)]
  }

  /** The pages for the lines from the index on. */
  function PagesFrom(lines: seq<Line>, index: nat, size: nat): seq<Page>
    requires size > 0
    decreases |lines| - index
  {
    if index >= |lines| then []
    else [Page(Slice(lines, index, index + size))] + PagesFrom(lines, index + size, size)
  }

  function Pages(lines: seq<Line>): seq<Page> {
    PagesFrom(lines, 0, LINES_PER_PAGE)
  }

  /** One page after the other. */
  method Paginate(lines: seq<Line>, size: nat) returns (pages: seq<Page>)
    requires size > 0
    ensures pages == PagesFrom(lines, 0, size)
  {
    pages := [];
    var index := 0;
    ghost var whole := PagesFrom(lines, 0, size);
    while index < |lines|
      invariant pages + PagesFrom(lines, index, size) == whole
      decreases |lines| - index
    {
      pages := pages + [Page(Slice(lines, index, index + size))];
      index := index + size;
    }
  }

  lemma {:induction false} PagesFromKeep(lines: seq<Line>, index: nat, size: nat)
    requires size > 0
    ensures Lines(PagesFrom(lines, index, size)) == lines[Min(index, |lines|)..]
    ensures Full(PagesFrom(lines, index, size), size)
    decreases |lines| - index
  {
    if index < |lines| {
      var page, rest := Page(Slice(lines, index, index + size)), PagesFrom(lines, index + size, size);
      PagesFromKeep(lines, index + size, size);
      assert ([page] + rest)[1..] == rest;
      assert lines[index..] == page.lines + lines[Min(index + size, |lines|)..];
      if index + size >= |lines| {
        assert rest == [];
      }
    }
  }

  /** No line is lost or moved, and pages are full. */
  lemma PagesKeepLines(lines: seq<Line>)
    ensures Lines(Pages(lines)) == lines && Full(Pages(lines), LINES_PER_PAGE)
  {
    PagesFromKeep(lines, 0, LINES_PER_PAGE);
    assert lines[0..] == lines;
  }

  lemma {:induction false} PagesFromUnique(before: seq<Line>, pages: seq<Page>, size: nat)
    requires size > 0 && Full(pages, size)
    ensures PagesFrom(before + Lines(pages), |before|, size) == pages
    decreases |pages|
  {
    if pages != [] {
      var front, rest := pages[0].lines, Lines(pages[1..]);
      PagesFromUnique(before + front, pages[1..], size);
      var lines := before + (front + rest);
      assert lines == before + front + rest;
      if |pages| == 1 {
        assert rest == [];
      }
      assert Slice(lines, |before|, |before| + size) == front;
      assert PagesFrom(lines, |before| + size, size) == pages[1..];
      assert pages == [pages[0]] + pages[1..];
    }
  }

  /** There is only one way to fill pages with given lines. */
  lemma PagesUnique(pages: seq<Page>)
    requires Full(pages, LINES_PER_PAGE)
    ensures Pages(Lines(pages)) == pages
  {
    PagesFromUnique([], pages, LINES_PER_PAGE);
    assert [] + Lines(pages) == Lines(pages);
  }

  // ---- Text as hexadecimal UTF-16 ----

  function HexDigit(d: nat): char
    requires d < 16
  {
    "0123456789abcdef"[d]
  }

  predicate IsHexDigit(c: char) {
    '0' <= c <= '9' || 'a' <= c <= 'f'
  }

  function HexValue(c: char): (d: nat)
    requires IsHexDigit(c)
    ensures d < 16
  {
    if c <= '9' then c as int - '0' as int else c as int - 'a' as int + 10
  }

  lemma HexDigitRoundTrip(d: nat)
    requires d < 16
    ensures IsHexDigit(HexDigit(d)) && HexValue(HexDigit(d)) == d
  {
  }

  function HexByte(b: nat): (s: string)
    requires b < 256
    ensures |s| == 2
  {
    [HexDigit(b / 16), HexDigit(b % 16)]
  }

  predicate IsHexByte(s: string) {
    |s| == 2 && IsHexDigit(s[0]) && IsHexDigit(s[1])
  }

  function UnhexByte(s: string): (b: nat)
    requires IsHexByte(s)
    ensures b < 256
  {
    16 * HexValue(s[0]) + HexValue(s[1])
  }

  lemma HexByteRoundTrip(b: nat)
    requires b < 256
    ensures IsHexByte(HexByte(b)) && UnhexByte(HexByte(b)) == b
  {
    HexDigitRoundTrip(b / 16);
    HexDigitRoundTrip(b % 16);
  }

  /** A 16-bit unit, high byte first. */
  function Hex4(unit: nat): (s: string)
    requires unit < 0x1_0000
    ensures |s| == 4
  {
    HexByte(unit / 256) + HexByte(unit % 256)
  }

  predicate IsHex4(s: string) {
    |s| == 4 && IsHexByte(s[..2]) && IsHexByte(s[2..])
  }

  function Unhex4(s: string): (unit: nat)
    requires IsHex4(s)
    ensures unit < 0x1_0000
  {
    256 * UnhexByte(s[..2]) + UnhexByte(s[2..])
  }

  lemma Hex4RoundTrip(unit: nat)
    requires unit < 0x1_0000
    ensures IsHex4(Hex4(unit)) && Unhex4(Hex4(unit)) == unit
  {
    HexByteRoundTrip(unit / 256);
    HexByteRoundTrip(unit % 256);
    assert Hex4(unit)[..2] == HexByte(unit / 256);
    assert Hex4(unit)[2..] == HexByte(unit % 256);
  }

  const HIGH := 0xD800
  const LOW := 0xDC00
  const AFTER_LOW := 0xE000
  const SUPPLEMENT := 0x1_0000

  function High(v: nat): (u: nat)
    requires SUPPLEMENT <= v < 0x11_0000
    ensures HIGH <= u < LOW
  {
    HIGH + (v - SUPPLEMENT) / 1024
  }

  function Low(v: nat): (u: nat)
    requires SUPPLEMENT <= v < 0x11_0000
    ensures LOW <= u < AFTER_LOW
  {
    LOW + (v - SUPPLEMENT) % 1024
  }

  function FromPair(high: nat, low: nat): (v: nat)
    requires HIGH <= high < LOW <= low < AFTER_LOW
    ensures SUPPLEMENT <= v < 0x11_0000
  {
    SUPPLEMENT + (high - HIGH) * 1024 + (low - LOW)
  }

  lemma PairRoundTrip(v: nat)
    requires SUPPLEMENT <= v < 0x11_0000
    ensures FromPair(High(v), Low(v)) == v
  {
  }

  /** line.encode('utf-16-be').hex() for one character: one unit, or a surrogate pair. */
  function HexChar(c: char): (s: string)
    ensures s != ""
  {
    var v := c as int;
    if v < SUPPLEMENT then Hex4(v) else HexPair(High(v), Low(v))
  }

  function HexPair(high: nat, low: nat): (s: string)
    requires high < 0x1_0000 && low < 0x1_0000
    ensures |s| == 8
  {
    Hex4(high) + Hex4(low)
  }

  function HexText(text: string): string {
    if text == "" then "" else HexChar(text[0]) + HexText(text[1..])
  }

  function ReadUnit(hex: string): Option<nat> {
    if 4 <= |hex| && IsHex4(hex[..4]) then Some(Unhex4(hex[..4])) else None
  }

  /** The second unit of a pair completes the character. */
  function ReadLow(high: nat, hex: string): Option<(char, nat)>
    requires HIGH <= high < LOW
  {
    var low :- ReadUnit(hex);
    if LOW <= low < AFTER_LOW then Some((FromPair(high, low) as char, 8)) else None
  }

  /** The character at the front and how many digits it takes. */
  function ReadChar(hex: string): Option<(char, nat)> {
    var unit :- ReadUnit(hex);
    if unit < HIGH || AFTER_LOW <= unit then Some((unit as char, 4))
    else if unit < LOW then ReadLow(unit, hex[4..])
    else None
  }

  function DecodeText(hex: string): Option<string> {
    if hex == "" then Some("")
    else
      var (c, n) :- ReadChar(hex);
      var tail :- DecodeText(hex[n..]);
      Some([c] + tail)
  }

  lemma ReadUnitOf(unit: nat, rest: string, hex: string)
    requires unit < 0x1_0000 && hex == Hex4(unit) + rest
    ensures ReadUnit(hex) == Some(unit) && hex[4..] == rest
  {
    Hex4RoundTrip(unit);
    assert hex[..4] == Hex4(unit);
  }

  lemma ReadPlain(v: nat, rest: string)
    requires v < HIGH || AFTER_LOW <= v < SUPPLEMENT
    ensures ReadChar(Hex4(v) + rest) == Some((v as char, 4))
  {
    ReadUnitOf(v, rest, Hex4(v) + rest);
  }

  lemma ReadPair(high: nat, low: nat, rest: string)
    requires HIGH <= high < LOW <= low < AFTER_LOW
    ensures ReadChar(HexPair(high, low) + rest) == Some((FromPair(high, low) as char, 8))
  {
    Assoc(Hex4(high), Hex4(low), rest);
    ReadUnitOf(high, Hex4(low) + rest, HexPair(high, low) + rest);
    ReadUnitOf(low, rest, Hex4(low) + rest);
  }

  lemma ReadCharOf(c: char, rest: string)
    ensures ReadChar(HexChar(c) + rest) == Some((c, |HexChar(c)|))
  {
    var v := c as int;
    if v < SUPPLEMENT {
      ReadPlain(v, rest);
    } else {
      ReadPair(High(v), Low(v), rest);
      PairRoundTrip(v);
    }
  }

  /** The digits decode to the text they encode, surrogate pairs included. */
  lemma {:induction false} HexTextRoundTrip(text: string)
    ensures DecodeText(HexText(text)) == Some(text)
  {
    if text != "" {
      var rest := HexText(text[1..]);
      ReadCharOf(text[0], rest);
      HexTextRoundTrip(text[1..]);
      assert (HexChar(text[0]) + rest)[|HexChar(text[0])|..] == rest;
      assert text == [text[0]] + text[1..];
    }
  }

  // ---- A page's drawing instructions ----

  const BEGIN := "BT" + "\n" + "/F1 14 Tf" + "\n" + "50 790 Td" + "\n" + "18 TL"
  const SHOW := "\n<"
  const SHOWN := "> Tj\nT*"
  const FINISH := "\nET"

  /** One line shown, then the rest. */
  function Showing(line: Line, rest: string): string {
    SHOW + (HexText(line.text) + (SHOWN + rest))
  }

  /** The instructions for the lines from the i-th on, and the end. */
  function Drawing(lines: seq<Line>, i: nat): string
    requires i <= |lines|
    decreases |lines| - i
  {
    if i == |lines| then FINISH
    else Showing(lines[i], Drawing(lines, i + 1))
  }

  function TextStream(lines: seq<Line>): string {
    BEGIN + Drawing(lines, 0)
  }

  predicate AllHex(s: string) {
    forall i | 0 <= i < |s| :: IsHexDigit(s[i])
  }

  function HexRun(s: string): (n: nat)
    ensures n <= |s|
  {
    if s != "" && IsHexDigit(s[0]) then HexRun(s[1..]) + 1 else 0
  }

  lemma Hex4Digits(unit: nat)
    requires unit < 0x1_0000
    ensures AllHex(Hex4(unit))
  {
    HexByteRoundTrip(unit / 256);
    HexByteRoundTrip(unit % 256);
  }

  lemma HexPairDigits(high: nat, low: nat)
    requires high < 0x1_0000 && low < 0x1_0000
    ensures AllHex(HexPair(high, low))
  {
    Hex4Digits(high);
    Hex4Digits(low);
  }

  lemma HexCharDigits(c: char)
    ensures AllHex(HexChar(c))
  {
    var v := c as int;
    if v < SUPPLEMENT {
      Hex4Digits(v);
    } else {
      HexPairDigits(High(v), Low(v));
    }
  }

  lemma {:induction false} HexTextDigits(text: string)
    ensures AllHex(HexText(text))
  {
    if text != "" {
      HexCharDigits(text[0]);
      HexTextDigits(text[1..]);
    }
  }

  lemma {:induction false} HexRunOf(hex: string, rest: string)
    requires AllHex(hex) && rest != "" && !IsHexDigit(rest[0])
    ensures HexRun(hex + rest) == |hex|
  {
    if hex == "" {
      assert hex + rest == rest;
    } else {
      HexRunOf(hex[1..], rest);
      assert (hex + rest)[1..] == hex[1..] + rest;
    }
  }

  /** The line shown at the front, and the instructions after it. */
  function ReadShown(s: string): (r: Option<(Line, string)>)
    ensures r.Some? ==> |r.value.1| < |s|
  {
    var after :- Expect(s, SHOW);
    var n := HexRun(after);
    var text :- DecodeText(after[..n]);
    var rest :- Expect(after[n..], SHOWN);
    Some((Line(text), rest))
  }

  function ReadDrawing(s: string): Option<seq<Line>>
    decreases |s|
  {
    var shown := ReadShown(s);
    if shown.None? then if s == FINISH then Some([]) else None
    else
      var lines :- ReadDrawing(shown.value.1);
      Some([shown.value.0] + lines)
  }

  function ReadTextStream(s: string): Option<seq<Line>> {
    var drawing :- Expect(s, BEGIN);
    ReadDrawing(drawing)
  }

  lemma ReadShownOf(line: Line, rest: string)
    ensures ReadShown(Showing(line, rest)) == Some((line, rest))
  {
    var text := line.text;
    var after := HexText(text) + (SHOWN + rest);
    ExpectLiteral(SHOW, after);
    HexTextDigits(text);
    HexRunOf(HexText(text), SHOWN + rest);
    assert after[..|HexText(text)|] == HexText(text);
    assert after[|HexText(text)|..] == SHOWN + rest;
    HexTextRoundTrip(text);
    ExpectLiteral(SHOWN, rest);
  }

  lemma ReadDrawingStep(line: Line, rest: string, lines: seq<Line>)
    requires ReadDrawing(rest) == Some(lines)
    ensures ReadDrawing(Showing(line, rest)) == Some([line] + lines)
  {
    ReadShownOf(line, rest);
  }

  /** The lines from the i-th on. */
  function LinesFrom(lines: seq<Line>, i: nat): seq<Line>
    requires i <= |lines|
    decreases |lines| - i
  {
    if i == |lines| then [] else [lines[i]] + LinesFrom(lines, i + 1)
  }

  lemma {:induction false} LinesFromIsSlice(lines: seq<Line>, i: nat)
    requires i <= |lines|
    ensures LinesFrom(lines, i) == lines[i..]
    decreases |lines| - i
  {
    if i < |lines| {
      LinesFromIsSlice(lines, i + 1);
    }
  }

  lemma DrawingEnds()
    ensures ReadDrawing(FINISH) == Some([])
  {
    assert FINISH[..2][1] != SHOW[1];
  }

  /** The lines shown one before the other, with the operations as parameters. */
  function Shown(show: (Line, string) -> string, finish: string, lines: seq<Line>, i: nat): string
    requires i <= |lines|
    decreases |lines| - i
  {
    if i == |lines| then finish else show(lines[i], Shown(show, finish, lines, i + 1))
  }

  lemma {:induction false} DrawingIsShown(lines: seq<Line>, i: nat)
    requires i <= |lines|
    ensures Drawing(lines, i) == Shown(Showing, FINISH, lines, i)
    decreases |lines| - i
  {
    if i < |lines| {
      DrawingIsShown(lines, i + 1);
    }
  }

  /** A reader that undoes one step and the end undoes them all. */
  lemma {:induction false} ReadAllShown(read: string -> Option<seq<Line>>, show: (Line, string) -> string,
                                        finish: string,
                                        lines: seq<Line>, i: nat)
    requires i <= |lines| && read(finish) == Some([])
    requires forall line, rest, more :: read(rest) == Some(more) ==> read(show(line, rest)) == Some([line] + more)
    ensures read(Shown(show, finish, lines, i)) == Some(LinesFrom(lines, i))
    decreases |lines| - i
  {
    if i < |lines| {
      ReadAllShown(read, show, finish, lines, i + 1);
    }
  }

  lemma ReadDrawingOf(lines: seq<Line>)
    ensures ReadDrawing(Drawing(lines, 0)) == Some(lines)
  {
    DrawingEnds();
    forall line, rest, more | ReadDrawing(rest) == Some(more)
      ensures ReadDrawing(Showing(line, rest)) == Some([line] + more)
    {
      ReadDrawingStep(line, rest, more);
    }
    ReadAllShown(ReadDrawing, Showing, FINISH, lines, 0);
    DrawingIsShown(lines, 0);
    LinesFromIsSlice(lines, 0);
    assert lines[0..] == lines;
  }

  /** The lines of a page can be read back from its instructions. */
  lemma TextStreamRoundTrip(lines: seq<Line>)
    ensures ReadTextStream(TextStream(lines)) == Some(lines)
  {
    ExpectLiteral(BEGIN, Drawing(lines, 0));
    ReadDrawingOf(lines);
  }

  // ---- The writer ----

  /** "\n".join(parts) */
  function Join(parts: seq<Line>): string {
    var last := |parts| - 1;
    if last < 0 then ""
    else if last == 0 then parts[0].text
    else Join(parts[..last]) + "\n" + parts[last].text
  }

  lemma JoinAppend(parts: seq<Line>, part: Line)
    requires parts != []
    ensures Join(parts + [part]) == Join(parts) + "\n" + part.text
  {
    assert (parts + [part])[..|parts|] == parts;
  }

  /** Appending the two instructions of a line moves that line out of what is still to be drawn. */
  lemma JoinShown(parts: seq<Line>, line: Line, rest: string)
    requires parts != []
    ensures Join(parts + [Line("<" + HexText(line.text) + "> Tj")] + [Line("T*")]) + rest
         == Join(parts) + Showing(line, rest)
  {
    var hex := HexText(line.text);
    var show, newLine := Line("<" + hex + "> Tj"), Line("T*");
    JoinAppend(parts, show);
    JoinAppend(parts + [show], newLine);
    assert SHOW == "\n" + "<" && SHOWN == "> Tj" + "\n" + "T*";
    Regroup(Join(parts), "\n", "<", hex, "> Tj", "\n", "T*", rest);
  }

  lemma Regroup(a: string, b: string, c: string, d: string, e: string, f: string, g: string, h: string)
    ensures a + b + (c + d + e) + f + g + h == a + ((b + c) + (d + ((e + f + g) + h)))
  {
    Assoc(a + b, c + d + e, f);
    Assoc(a + b, c + d + e + f, g);
    Assoc(a, b, c + d + e + f + g);
    Assoc(c, d, e);
    Assoc(c, d + e, f);
    Assoc(c, d + e + f, g);
    Assoc(b, c, d + e + f + g);
    Assoc(d, e, f);
    Assoc(d, e + f, g);
    Assoc(a, (b + c) + (d + (e + f + g)), h);
    Assoc(b + c, d + (e + f + g), h);
    Assoc(d, e + f + g, h);
  }

  /** The instructions for one page. */
  method PdfTextStream(lines: seq<Line>) returns (joined: string)
    ensures joined == TextStream(lines)
  {
    var stream := [Line("BT"), Line("/F1 14 Tf"), Line("50 790 Td"), Line("18 TL")];
    JoinBegin(stream);
    for i := 0 to |lines|
      invariant stream != []
      invariant Join(stream) + Drawing(lines, i) == TextStream(lines)
    {
      JoinShown(stream, lines[i], Drawing(lines, i + 1));
      stream := stream + [Line("<" + HexText(lines[i].text) + "> Tj")];
      stream := stream + [Line("T*")];
    }
    JoinAppend(stream, Line("ET"));
    Assoc(Join(stream), "\n", "ET");
    assert FINISH == "\n" + "ET";
    stream := stream + [Line("ET")];
    joined := Join(stream);
  }

  lemma JoinBegin(stream: seq<Line>)
    requires stream == [Line("BT"), Line("/F1 14 Tf"), Line("50 790 Td"), Line("18 TL")]
    ensures Join(stream) == BEGIN
  {
    JoinAppend([Line("BT")], Line("/F1 14 Tf"));
    JoinAppend([Line("BT"), Line("/F1 14 Tf")], Line("50 790 Td"));
    JoinAppend([Line("BT"), Line("/F1 14 Tf"), Line("50 790 Td")], Line("18 TL"));
    assert stream[..3] == [Line("BT"), Line("/F1 14 Tf"), Line("50 790 Td")];
    assert stream[..3][..2] == [Line("BT"), Line("/F1 14 Tf")];
    assert stream == stream[..3] + [Line("18 TL")];
  }
}
