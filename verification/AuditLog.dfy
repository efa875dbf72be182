/**
 The audit store of the admin dashboard: every entry goes to a log file and to a buffer
 of the last 10000, and Recent answers from the buffer first and from the end of the file next.
*/
module AuditLog {
  import opened Wrappers
  import opened LogReader

  const BUFFER_SIZE := 10000
  const CHUNK_SIZE := 64 * 1024

  /** json.Marshal of an entry, which may fail. */
  type Encoder = Entry -> Option<string>

  /** The contents of the store: the buffer and the open file, if there is one. */
  datatype Store = Store(buffer: seq<Entry>, file: Option<string>)

  function LastOf(entries: seq<Entry>, n: nat): (last: seq<Entry>)
    ensures |last| == if n < |entries| then n else |entries|
  {
    if n < |entries| then entries[|entries| - n..] else entries
  }

  function Logged(encode: Encoder, store: Store, entry: Entry): Store {
    match encode(entry)
    case None => store
    case Some(data) =>
      Store(LastOf(store.buffer + [entry], BUFFER_SIZE),
            match store.file
            case None => None
            case Some(text) => Some(text + data + "\n"))
  }

  /** What Recent returns. */
  function RecentOf(decode: Decoder, store: Store, limit: nat): seq<Entry> {
    if limit <= |store.buffer| then LastOf(store.buffer, limit)
    else
      match store.file
      case None => store.buffer
      case Some(text) => Cap(store.buffer + Blocks(decode, text, CHUNK_SIZE, |text|, ""), limit)
  }

  class AuditStore {
    const encode: Encoder
    const decode: Decoder
    var buffer: seq<Entry>
    var file: Option<string>

    constructor (encode: Encoder, decode: Decoder, file: Option<string>)
      ensures this.encode == encode && this.decode == decode
      ensures Contents() == Store([], file)
    {
      this.encode := encode;
      this.decode := decode;
      this.buffer := [];
      this.file := file;
    }

    ghost function Contents(): Store
      reads this
    {
      Store(buffer, file)
    }

    /** One entry to the file and to the buffer. */
    method Log(entry: Entry)
      modifies this
      ensures Contents() == Logged(encode, old(Contents()), entry)
    {
      var data := encode(entry);
      if data.None? {
        return;
      }
      if file.Some? {
        file := Some(file.value + data.value);
        file := Some(file.value + "\n");
      }
      buffer := buffer + [entry];
      if |buffer| > BUFFER_SIZE {
        buffer := buffer[|buffer| - BUFFER_SIZE..];
      }
    }

    /** The buffer if it is enough, else the buffer and then the file from its end. */
    method Recent(limit: nat) returns (recent: seq<Entry>)
      ensures recent == RecentOf(decode, Contents(), limit)
    {
      var n := |buffer|;
      if n >= limit {
        return buffer[n - limit..];
      }
      recent := buffer;
      if file.Some? {
        recent := ReadBack(decode, file.value, CHUNK_SIZE, limit, buffer);
      }
      // The source cuts the result to the limit once more here.
      assert |recent| <= limit;
    }
  }

  // ---- Stores filled from the start ----

  /** Marshalling and unmarshalling undo each other on whole lines and never accept the end of one. */
  ghost predicate Faithful(encode: Encoder, decode: Decoder) {
    && decode("") == None
    && forall entry :: FaithfulOn(encode, decode, entry)
  }

  ghost predicate FaithfulOn(encode: Encoder, decode: Decoder, entry: Entry) {
    encode(entry).Some? ==>
      var text := encode(entry).value;
      && '\n' !in text
      && decode(text) == Some(entry)
      && forall i | 0 < i <= |text| :: decode(text[i..]) == None
  }

  predicate AllEncode(encode: Encoder, entries: seq<Entry>) {
    forall i | 0 <= i < |entries| :: encode(entries[i]).Some?
  }

  /** A store opened on a file that holds the older entries, after logging more. */
  function LogAll(encode: Encoder, older: seq<Entry>, entries: seq<Entry>): Store
    requires AllEncode(encode, older)
  {
    if entries == [] then Store([], Some(Written(encode, older)))
    else Logged(encode, LogAll(encode, older, entries[..|entries| - 1]), entries[|entries| - 1])
  }

  /** The file that the entries make. */
  function Written(encode: Encoder, entries: seq<Entry>): string
    requires AllEncode(encode, entries)
  {
    if entries == [] then ""
    else Written(encode, entries[..|entries| - 1]) + encode(entries[|entries| - 1]).value + "\n"
  }

  lemma LastOfAppend(entries: seq<Entry>, entry: Entry, n: nat)
    requires n > 0
    ensures LastOf(LastOf(entries, n) + [entry], n) == LastOf(entries + [entry], n)
  {
  }

  /** The buffer holds the last of the new entries and the file holds all entries. */
  lemma {:induction false} LogAllHolds(encode: Encoder, older: seq<Entry>, entries: seq<Entry>)
    requires AllEncode(encode, older) && AllEncode(encode, entries)
    ensures AllEncode(encode, older + entries)
    ensures LogAll(encode, older, entries)
         == Store(LastOf(entries, BUFFER_SIZE), Some(Written(encode, older + entries)))
  {
    if entries == [] {
      assert older + entries == older;
    } else {
      var before, last := entries[..|entries| - 1], entries[|entries| - 1];
      LogAllHolds(encode, older, before);
      LastOfAppend(before, last, BUFFER_SIZE);
      assert entries == before + [last];
      assert (older + entries)[..|older + entries| - 1] == older + before;
    }
  }

  // ---- The lines of such a file ----

  predicate EndsLine(s: string) {
    s == "" || s[|s| - 1] == '\n'
  }

  /** The complete lines of a text that ends with a line end. */
  function Complete(s: string): seq<Line>
    requires EndsLine(s)
  {
    if s == "" then [] else Lines(s, |s| - 1, "")
  }

  lemma SplitComplete(s: string, tail: string)
    requires EndsLine(s)
    ensures Lines(s, |s|, tail) == Complete(s) + [Line(|s|, tail)]
  {
    if s == "" {
      assert [] + [Line(0, tail)] == [Line(0, tail)];
    }
  }

  /** One more line. */
  lemma CompleteAppend(s: string, text: string)
    requires EndsLine(s) && '\n' !in text
    ensures EndsLine(s + text + "\n")
    ensures Complete(s + text + "\n") == Complete(s) + [Line(|s|, text)]
  {
    var more := s + text + "\n";
    LinesPrefix(s + text, "\n", |s + text|, "");
    SplitWithLeftover(s, text);
    SplitComplete(s, text);
    assert more[|more| - 1] == '\n';
  }

  function Reversed(entries: seq<Entry>): seq<Entry> {
    if entries == [] then [] else [entries[|entries| - 1]] + Reversed(entries[..|entries| - 1])
  }

  lemma {:induction false} WrittenLines(encode: Encoder, decode: Decoder, entries: seq<Entry>)
    requires AllEncode(encode, entries) && Faithful(encode, decode)
    ensures EndsLine(Written(encode, entries))
    ensures var lines := Complete(Written(encode, entries));
            Emitted(decode, lines, |lines|) == Reversed(entries)
  {
    if entries != [] {
      var before, last := entries[..|entries| - 1], entries[|entries| - 1];
      WrittenLines(encode, decode, before);
      assert FaithfulOn(encode, decode, last);
      var file, text := Written(encode, before), encode(last).value;
      CompleteAppend(file, text);
      EmittedLast(decode, Complete(file), Line(|file|, text));
    }
  }

  // ---- No line of such a file can be mistaken for another ----

  lemma {:induction false} RestInside(s: string, more: string, i: nat)
    requires i < |s| && s[|s| - 1] == '\n'
    ensures Rest(s + more, i) == Rest(s, i)
    decreases |s| - i
  {
    if s[i] != '\n' {
      RestInside(s, more, i + 1);
    }
  }

  lemma {:induction false} RestOfLast(s: string, text: string, j: nat)
    requires j <= |text| && '\n' !in text
    ensures Rest(s + text + "\n", |s| + j) == text[j..]
    decreases |text| - j
  {
    if j < |text| {
      RestOfLast(s, text, j + 1);
      assert (s + text + "\n")[|s| + j] == text[j];
      assert text[j..] == [text[j]] + text[j + 1..];
    }
  }

  lemma {:induction false} WholeLinesOnly(encode: Encoder, decode: Decoder, entries: seq<Entry>, i: nat)
    requires AllEncode(encode, entries) && Faithful(encode, decode)
    requires 0 < i <= |Written(encode, entries)| && Written(encode, entries)[i - 1] != '\n'
    ensures decode(Rest(Written(encode, entries), i)) == None
    decreases |entries|
  {
    var before, last := entries[..|entries| - 1], entries[|entries| - 1];
    var file, text := Written(encode, before), encode(last).value;
    assert FaithfulOn(encode, decode, last);
    if i <= |file| {
      WrittenLines(encode, decode, before);
      WholeLinesOnly(encode, decode, before, i);
      Before(file, text, i);
    } else {
      RestOfLast(file, text, i - |file|);
    }
  }

  lemma Before(file: string, text: string, i: nat)
    requires EndsLine(file) && 0 < i <= |file| && file[i - 1] != '\n'
    ensures Rest(file + text + "\n", i) == Rest(file, i)
  {
    RestInside(file, text + "\n", i);
    assert file + text + "\n" == file + (text + "\n");
  }

  lemma WrittenDecodes(encode: Encoder, decode: Decoder, entries: seq<Entry>)
    requires AllEncode(encode, entries) && Faithful(encode, decode)
    ensures OnlyWholeLinesDecode(decode, Written(encode, entries))
  {
    var s := Written(encode, entries);
    forall i | 0 < i <= |s| && s[i - 1] != '\n'
      ensures decode(Rest(s, i)) == None
    {
      WholeLinesOnly(encode, decode, entries, i);
    }
  }

  // ---- What Recent returns after a run ----

  /** Within the buffer, Recent is the last entries in the order they were logged. */
  lemma WithinBuffer(encode: Encoder, decode: Decoder, older: seq<Entry>, entries: seq<Entry>, limit: nat)
    requires AllEncode(encode, older) && AllEncode(encode, entries)
    requires limit <= |LogAll(encode, older, entries).buffer|
    ensures RecentOf(decode, LogAll(encode, older, entries), limit) == LastOf(older + entries, limit)
  {
    LogAllHolds(encode, older, entries);
    LastOfLast(older, entries, BUFFER_SIZE, limit);
  }

  lemma LastOfLast(older: seq<Entry>, entries: seq<Entry>, n: nat, limit: nat)
    requires limit <= |LastOf(entries, n)|
    ensures LastOf(LastOf(entries, n), limit) == LastOf(older + entries, limit)
  {
  }

  /** What the block reader emits for a file of these entries. */
  function FromFile(encode: Encoder, decode: Decoder, all: seq<Entry>): seq<Entry>
    requires AllEncode(encode, all)
  {
    var s := Written(encode, all);
    Expected(decode, |s|, CHUNK_SIZE, Split(s), |Split(s)|)
  }

  /** Beyond the buffer, Recent goes on with what the file gives, up to the limit. */
  lemma BeyondBuffer(encode: Encoder, decode: Decoder, older: seq<Entry>, entries: seq<Entry>, limit: nat)
    requires AllEncode(encode, older) && AllEncode(encode, entries) && Faithful(encode, decode)
    requires limit > |LogAll(encode, older, entries).buffer|
    ensures AllEncode(encode, older + entries)
    ensures RecentOf(decode, LogAll(encode, older, entries), limit)
         == Cap(LastOf(entries, BUFFER_SIZE) + FromFile(encode, decode, older + entries), limit)
  {
    LogAllHolds(encode, older, entries);
    WrittenDecodes(encode, decode, older + entries);
    BlocksEmitLines(decode, Written(encode, older + entries), CHUNK_SIZE);
  }

  /** The last, empty line of the file gives nothing. */
  lemma FromComplete(encode: Encoder, decode: Decoder, all: seq<Entry>, s: string, lines: seq<Line>)
    requires AllEncode(encode, all) && decode("") == None
    requires s == Written(encode, all) && EndsLine(s) && lines == Complete(s)
    ensures FromFile(encode, decode, all) == Expected(decode, |s|, CHUNK_SIZE, lines, |lines|)
  {
    SplitComplete(s, "");
    ExpectedLast(decode, |s|, CHUNK_SIZE, lines, Line(|s|, ""));
  }

  lemma {:induction false} ReversedHas(entries: seq<Entry>, e: Entry)
    ensures e in Reversed(entries) <==> e in entries
  {
    if entries != [] {
      assert entries == entries[..|entries| - 1] + [entries[|entries| - 1]];
      ReversedHas(entries[..|entries| - 1], e);
    }
  }

  /** The file gives every entry at least once, and nothing else. */
  lemma FileGivesAll(encode: Encoder, decode: Decoder, all: seq<Entry>)
    requires AllEncode(encode, all) && Faithful(encode, decode)
    ensures |FromFile(encode, decode, all)| >= |all|
    ensures forall e :: e in FromFile(encode, decode, all) <==> e in all
  {
    var s := Written(encode, all);
    WrittenLines(encode, decode, all);
    FromComplete(encode, decode, all, s, Complete(s));
    RepeatsCount(decode, |s|, CHUNK_SIZE, Complete(s), |Complete(s)|);
    ReversedLength(all);
    forall e
      ensures e in FromFile(encode, decode, all) <==> e in all
    {
      ExpectedHas(decode, |s|, CHUNK_SIZE, Complete(s), |Complete(s)|, e);
      ReversedHas(all, e);
    }
  }

  /** The file gives the newest entry first. */
  lemma FileGivesNewestFirst(encode: Encoder, decode: Decoder, all: seq<Entry>)
    requires AllEncode(encode, all) && Faithful(encode, decode) && all != []
    ensures FromFile(encode, decode, all) != [] && FromFile(encode, decode, all)[0] == all[|all| - 1]
  {
    var before, last := all[..|all| - 1], all[|all| - 1];
    var file, text := Written(encode, before), encode(last).value;
    var s := Written(encode, all);
    assert FaithfulOn(encode, decode, last);
    WrittenLines(encode, decode, before);
    CompleteAppend(file, text);
    FromComplete(encode, decode, all, s, Complete(s));
    NewestLine(decode, |s|, Complete(file), Line(|file|, text), last);
  }

  lemma NewestLine(decode: Decoder, size: nat, before: seq<Line>, line: Line, entry: Entry)
    requires decode(line.text) == Some(entry)
    ensures var read := Expected(decode, size, CHUNK_SIZE, before + [line], |before + [line]|);
            read != [] && read[0] == entry
  {
    ExpectedLast(decode, size, CHUNK_SIZE, before, line);
  }

  lemma {:induction false} ReversedLength(entries: seq<Entry>)
    ensures |Reversed(entries)| == |entries|
  {
    if entries != [] {
      ReversedLength(entries[..|entries| - 1]);
    }
  }

  /** The file gives the log newest first, each entry once, if and only if no entry starts where a block does. */
  lemma FileGivesLogReversedIff(encode: Encoder, decode: Decoder, all: seq<Entry>)
    requires AllEncode(encode, all) && Faithful(encode, decode)
    ensures var s := Written(encode, all);
            FromFile(encode, decode, all) == Reversed(all)
            <==> forall i | 0 <= i < |Complete(s)| :: !OnBoundary(|s|, CHUNK_SIZE, Complete(s)[i].start)
  {
    var s := Written(encode, all);
    var lines := Complete(s);
    WrittenLines(encode, decode, all);
    FromComplete(encode, decode, all, s, lines);
    RepeatsCount(decode, |s|, CHUNK_SIZE, lines, |lines|);
    NoRepeatsIff(decode, |s|, CHUNK_SIZE, lines, |lines|);
    EveryLineDecodes(encode, decode, all);
  }

  lemma {:induction false} EveryLineDecodes(encode: Encoder, decode: Decoder, entries: seq<Entry>)
    requires AllEncode(encode, entries) && Faithful(encode, decode)
    ensures EndsLine(Written(encode, entries))
    ensures forall line | line in Complete(Written(encode, entries)) :: decode(line.text).Some?
  {
    if entries != [] {
      var before, last := entries[..|entries| - 1], entries[|entries| - 1];
      EveryLineDecodes(encode, decode, before);
      assert FaithfulOn(encode, decode, last);
      CompleteAppend(Written(encode, before), encode(last).value);
    }
  }

  /** An entry that with its line end fills a block: a restarted store returns it twice. */
  lemma BoundaryEntryTwice(encode: Encoder, decode: Decoder, e1: Entry, e2: Entry)
    requires Faithful(encode, decode) && encode(e1).Some? && encode(e2).Some? && |encode(e2).value| == CHUNK_SIZE - 1
    ensures AllEncode(encode, [e1, e2])
    ensures RecentOf(decode, LogAll(encode, [e1, e2], []), 3) == FromFile(encode, decode, [e1, e2]) == [e2, e2, e1]
  {
    var all, t1, t2 := [e1, e2], encode(e1).value, encode(e2).value;
    assert FaithfulOn(encode, decode, e1) && FaithfulOn(encode, decode, e2);
    assert all[..1] == [e1];
    WrittenOne(encode, [e1]);
    CompleteAppend("", t1);
    var first, s := "" + t1 + "\n", Written(encode, all);
    assert s == first + t2 + "\n";
    CompleteAppend(first, t2);
    FromComplete(encode, decode, all, s, Complete(s));
    TwoLines(decode, |s|, CHUNK_SIZE, Line(0, t1), Line(|first|, t2), e1, e2);
    assert Complete(s) == [Line(0, t1), Line(|first|, t2)];
    AfterRestart(encode, decode, all, 3);
  }

  lemma WrittenOne(encode: Encoder, all: seq<Entry>)
    requires AllEncode(encode, all) && |all| == 1
    ensures Written(encode, all) == "" + encode(all[0]).value + "\n"
  {
    var before := all[..|all| - 1];
    assert before == [];
    assert Written(encode, before) == "";
    assert Written(encode, all) == Written(encode, before) + encode(all[0]).value + "\n";
  }

  /** A single line starts at the start of the file, which is no boundary between blocks. */
  lemma FileGivesOnlyEntry(encode: Encoder, decode: Decoder, all: seq<Entry>)
    requires AllEncode(encode, all) && Faithful(encode, decode) && |all| == 1
    ensures FromFile(encode, decode, all) == all
  {
    var s, text := Written(encode, all), encode(all[0]).value;
    assert FaithfulOn(encode, decode, all[0]);
    WrittenOne(encode, all);
    CompleteAppend("", text);
    FromComplete(encode, decode, all, s, Complete(s));
    ExpectedLast(decode, |s|, CHUNK_SIZE, [], Line(0, text));
    assert [] + [Line(0, text)] == Complete(s);
  }

  /** The result is the end of the log, in order. */
  predicate EndOfLog(result: seq<Entry>, entries: seq<Entry>) {
    result == LastOf(entries, |result|)
  }

  lemma LastOfAt(entries: seq<Entry>, n: nat, i: nat)
    requires i < |LastOf(entries, n)|
    ensures LastOf(entries, n)[i] == entries[|entries| - |LastOf(entries, n)| + i]
  {
  }

  lemma TwiceIsNotEnd(result: seq<Entry>, entries: seq<Entry>, n: nat)
    requires Distinct(entries) && 0 < n < |result| && result[n - 1] == result[n]
    ensures !EndOfLog(result, entries)
  {
    if EndOfLog(result, entries) {
      LastOfAt(entries, |result|, n - 1);
      LastOfAt(entries, |result|, n);
    }
  }

  lemma NewestInFrontIsNotEnd(result: seq<Entry>, entries: seq<Entry>)
    requires Distinct(entries) && entries != [] && |result| >= 2 && result[0] == entries[|entries| - 1]
    ensures !EndOfLog(result, entries)
  {
    if EndOfLog(result, entries) {
      LastOfAt(entries, |result|, 0);
    }
  }

  /** Past a buffer that is not empty, the newest entry is returned from the buffer and again from the file. */
  lemma NewestTwice(encode: Encoder, decode: Decoder, older: seq<Entry>, entries: seq<Entry>, limit: nat)
    requires AllEncode(encode, older) && AllEncode(encode, entries) && Faithful(encode, decode)
    requires entries != [] && limit > |LogAll(encode, older, entries).buffer|
    ensures var n := |LogAll(encode, older, entries).buffer|;
            var recent := RecentOf(decode, LogAll(encode, older, entries), limit);
            0 < n < |recent| && recent[n - 1] == recent[n] == entries[|entries| - 1]
  {
    LogAllHolds(encode, older, entries);
    BeyondBuffer(encode, decode, older, entries, limit);
    FileGivesNewestFirst(encode, decode, older + entries);
  }

  /** Two entries and one more asked for: the second comes twice. */
  lemma SecondOfTwoTwice(encode: Encoder, decode: Decoder, e1: Entry, e2: Entry)
    requires Faithful(encode, decode) && encode(e1).Some? && encode(e2).Some?
    ensures RecentOf(decode, LogAll(encode, [], [e1, e2]), 3) == [e1, e2, e2]
  {
    LogAllHolds(encode, [], [e1, e2]);
    assert LastOf([e1, e2], BUFFER_SIZE) == [e1, e2];
    assert [] + [e1, e2] == [e1, e2];
    BeyondBuffer(encode, decode, [], [e1, e2], 3);
    FileGivesNewestFirst(encode, decode, [e1, e2]);
  }

  /** With an empty buffer, as after a restart, Recent is the file's entries newest first. */
  lemma AfterRestart(encode: Encoder, decode: Decoder, older: seq<Entry>, limit: nat)
    requires AllEncode(encode, older) && Faithful(encode, decode) && limit > 0
    ensures RecentOf(decode, LogAll(encode, older, []), limit) == Cap(FromFile(encode, decode, older), limit)
  {
    BeyondBuffer(encode, decode, older, [], limit);
    assert older + [] == older;
    assert [] + FromFile(encode, decode, older) == FromFile(encode, decode, older);
  }

  lemma AfterRestartEndIff(encode: Encoder, decode: Decoder, older: seq<Entry>, limit: nat)
    requires AllEncode(encode, older) && Faithful(encode, decode) && limit > 0
    requires Distinct(older) && older != []
    ensures EndOfLog(RecentOf(decode, LogAll(encode, older, []), limit), older) <==> limit == 1 || |older| == 1
  {
    AfterRestart(encode, decode, older, limit);
    FileGivesAll(encode, decode, older);
    FileGivesNewestFirst(encode, decode, older);
    if |older| == 1 {
      FileGivesOnlyEntry(encode, decode, older);
    } else if limit > 1 {
      NewestInFrontIsNotEnd(Cap(FromFile(encode, decode, older), limit), older);
    }
  }

  lemma EmptyLog(encode: Encoder, decode: Decoder, limit: nat)
    ensures RecentOf(decode, LogAll(encode, [], []), limit) == []
  {
    assert Blocks(decode, "", CHUNK_SIZE, 0, "") == [];
  }

  /**
   Recent promises the last entries and that no deduplication is needed. For a store opened on a file
   of older entries it returns the end of the log in order exactly when the limit is within the
   buffer, the log is empty, or a single entry is asked for or there to be had with an empty buffer.
  */
  lemma RecentIsEndOfLogIff(encode: Encoder, decode: Decoder, older: seq<Entry>, entries: seq<Entry>, limit: nat)
    requires AllEncode(encode, older) && AllEncode(encode, entries) && Faithful(encode, decode)
    requires Distinct(older + entries)
    ensures EndOfLog(RecentOf(decode, LogAll(encode, older, entries), limit), older + entries)
            <==> || limit <= |LogAll(encode, older, entries).buffer|
                 || older + entries == []
                 || (entries == [] && (limit == 1 || |older| == 1))
  {
    if limit <= |LogAll(encode, older, entries).buffer| {
      LogAllHolds(encode, older, entries);
      WithinBuffer(encode, decode, older, entries, limit);
    } else if entries != [] {
      NewestTwice(encode, decode, older, entries, limit);
      LogAllHolds(encode, older, entries);
      TwiceIsNotEnd(RecentOf(decode, LogAll(encode, older, entries), limit), older + entries,
                    |LogAll(encode, older, entries).buffer|);
    } else {
      assert older + entries == older;
      if older == [] {
        EmptyLog(encode, decode, limit);
      } else {
        AfterRestartEndIff(encode, decode, older, limit);
      }
    }
  }

  // ---- Entries that cannot be marshalled, and stores without a file ----

  /** A store after logging the entries one after the other. */
  function LogEach(encode: Encoder, store: Store, entries: seq<Entry>): Store {
    if entries == [] then store
    else Logged(encode, LogEach(encode, store, entries[..|entries| - 1]), entries[|entries| - 1])
  }

  /** The entries that can be marshalled. */
  function Encodable(encode: Encoder, entries: seq<Entry>): (some: seq<Entry>)
    ensures AllEncode(encode, some)
  {
    if entries == [] then []
    else
      var last := entries[|entries| - 1];
      Encodable(encode, entries[..|entries| - 1]) + (if encode(last).Some? then [last] else [])
  }

  /** An entry that cannot be marshalled leaves the store as if it had never been logged. */
  lemma {:induction false} LogEachIsLogAll(encode: Encoder, older: seq<Entry>, entries: seq<Entry>)
    requires AllEncode(encode, older)
    ensures LogEach(encode, LogAll(encode, older, []), entries) == LogAll(encode, older, Encodable(encode, entries))
  {
    if entries != [] {
      var before, last := entries[..|entries| - 1], entries[|entries| - 1];
      LogEachIsLogAll(encode, older, before);
      if encode(last).Some? {
        var some := Encodable(encode, before);
        assert (some + [last])[..|some|] == some;
      } else {
        assert Encodable(encode, before) + [] == Encodable(encode, before);
      }
    }
  }

  lemma {:induction false} WithoutFileHolds(encode: Encoder, entries: seq<Entry>)
    ensures LogEach(encode, Store([], None), entries) == Store(LastOf(Encodable(encode, entries), BUFFER_SIZE), None)
  {
    if entries != [] {
      var before, last := entries[..|entries| - 1], entries[|entries| - 1];
      WithoutFileHolds(encode, before);
      if encode(last).Some? {
        LastOfAppend(Encodable(encode, before), last, BUFFER_SIZE);
      } else {
        assert Encodable(encode, before) + [] == Encodable(encode, before);
      }
    }
  }

  /** Without a file Recent is always the end of the log, in order, as far as the buffer reaches. */
  lemma WithoutFileIsEndOfLog(encode: Encoder, decode: Decoder, entries: seq<Entry>, limit: nat)
    ensures RecentOf(decode, LogEach(encode, Store([], None), entries), limit)
         == LastOf(Encodable(encode, entries), if limit < BUFFER_SIZE then limit else BUFFER_SIZE)
  {
    WithoutFileHolds(encode, entries);
  }
}
