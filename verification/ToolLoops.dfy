/**
 Detection of tool loops in a benchmark log: three or more calls in a row to the same
 tool with the same arguments. Arguments are compared by a sorted form that ignores null values.
*/
module ToolLoops {
  import opened Wrappers

  // ---- Records ----

  /** A text field that may be missing or null. */
  datatype Text = Absent | Null | Str(s: string)

  /** An argument value, up to the equality of the language. */
  datatype Value = Value(text: string)

  datatype Field = Field(key: string, value: Option<Value>)

  /** Arguments: a dictionary in its order, or something else, known by its printed form. */
  datatype Args = NoArgs | NullArgs | Dict(fields: seq<Field>) | Other(text: string, truthy: bool)

  datatype Data = Data(name: Text, arguments: Args)

  /** A tool-call record in either log format; data is None when missing or empty. */
  datatype Record = Record(name: Text, arguments: Args, data: Option<Data>)

  // ---- The order of keys ----

  predicate Less(a: string, b: string) {
    b != "" && (a == "" || a[0] < b[0] || (a[0] == b[0] && Less(a[1..], b[1..])))
  }

  lemma {:induction false} LessTotal(a: string, b: string)
    ensures a == b || Less(a, b) || Less(b, a)
    ensures !(Less(a, b) && (a == b || Less(b, a)))
  {
    if a != "" && b != "" {
      LessTotal(a[1..], b[1..]);
      assert a == [a[0]] + a[1..] && b == [b[0]] + b[1..];
    }
  }

  lemma {:induction false} LessTransitive(a: string, b: string, c: string)
    requires Less(a, b) && Less(b, c)
    ensures Less(a, c)
  {
    if a != "" && a[0] == b[0] == c[0] {
      LessTransitive(a[1..], b[1..], c[1..]);
    }
  }

  // ---- Canonical arguments ----

  datatype Pair = Pair(key: string, value: Value)

  predicate Sorted(pairs: seq<Pair>) {
    |pairs| < 2 || (Less(pairs[0].key, pairs[1].key) && Sorted(pairs[1..]))
  }

  /** A place for the pair in a sorted list. */
  function Insert(pair: Pair, pairs: seq<Pair>): seq<Pair> {
    if pairs == [] || Less(pair.key, pairs[0].key) then [pair] + pairs
    else [pairs[0]] + Insert(pair, pairs[1..])
  }

  /** sorted((k, v) for k, v in fields if v is not None) */
  function SortedPairs(fields: seq<Field>): seq<Pair> {
    if fields == [] then []
    else
      var rest := SortedPairs(fields[1..]);
      match fields[0].value
      case None => rest
      case Some(value) => Insert(Pair(fields[0].key, value), rest)
  }

  /** The value a dictionary holds for a key, where null counts as none. */
  function Lookup(fields: seq<Field>, key: string): Option<Value> {
    if fields == [] then None
    else if fields[0].key == key then fields[0].value
    else Lookup(fields[1..], key)
  }

  predicate HasKey(fields: seq<Field>, key: string) {
    fields != [] && (fields[0].key == key || HasKey(fields[1..], key))
  }

  /** A dictionary has each key once. */
  predicate KeysOnce(fields: seq<Field>) {
    fields == [] || (!HasKey(fields[1..], fields[0].key) && KeysOnce(fields[1..]))
  }

  function Find(pairs: seq<Pair>, key: string): Option<Value> {
    if pairs == [] then None
    else if pairs[0].key == key then Some(pairs[0].value)
    else Find(pairs[1..], key)
  }

  /** Every key of the list comes after this one. */
  predicate Above(pairs: seq<Pair>, key: string) {
    pairs == [] || (Less(key, pairs[0].key) && Above(pairs[1..], key))
  }

  lemma {:induction false} AboveTransitive(pairs: seq<Pair>, low: string, high: string)
    requires Above(pairs, high) && Less(low, high)
    ensures Above(pairs, low)
  {
    if pairs != [] {
      LessTransitive(low, high, pairs[0].key);
      AboveTransitive(pairs[1..], low, high);
    }
  }

  lemma {:induction false} SortedAbove(pairs: seq<Pair>)
    requires Sorted(pairs) && pairs != []
    ensures Above(pairs[1..], pairs[0].key)
  {
    if |pairs| > 1 {
      SortedAbove(pairs[1..]);
      AboveTransitive(pairs[1..][1..], pairs[0].key, pairs[1].key);
    }
  }

  lemma {:induction false} AboveFindsNone(pairs: seq<Pair>, key: string)
    requires Above(pairs, key)
    ensures Find(pairs, key) == None
  {
    if pairs != [] {
      LessTotal(key, pairs[0].key);
      AboveFindsNone(pairs[1..], key);
    }
  }

  lemma {:induction false} InsertAbove(pair: Pair, pairs: seq<Pair>, key: string)
    requires Above(pairs, key) && Less(key, pair.key)
    ensures Above(Insert(pair, pairs), key)
  {
    if pairs == [] || Less(pair.key, pairs[0].key) {
      assert ([pair] + pairs)[1..] == pairs;
    } else {
      InsertAbove(pair, pairs[1..], key);
      assert ([pairs[0]] + Insert(pair, pairs[1..]))[1..] == Insert(pair, pairs[1..]);
    }
  }

  lemma AboveSorted(pair: Pair, pairs: seq<Pair>)
    requires Sorted(pairs) && Above(pairs, pair.key)
    ensures Sorted([pair] + pairs)
  {
    assert ([pair] + pairs)[1..] == pairs;
  }

  /** Inserting a new key keeps the list sorted and adds that key alone. */
  lemma {:induction false} InsertSorted(pair: Pair, pairs: seq<Pair>)
    requires Sorted(pairs) && Find(pairs, pair.key) == None
    ensures Sorted(Insert(pair, pairs))
  {
    if pairs == [] {
      AboveSorted(pair, pairs);
    } else if Less(pair.key, pairs[0].key) {
      SortedAbove(pairs);
      AboveTransitive(pairs[1..], pair.key, pairs[0].key);
      AboveSorted(pair, pairs);
    } else {
      LessTotal(pair.key, pairs[0].key);
      InsertSorted(pair, pairs[1..]);
      SortedAbove(pairs);
      InsertAbove(pair, pairs[1..], pairs[0].key);
      AboveSorted(pairs[0], Insert(pair, pairs[1..]));
    }
  }

  lemma {:induction false} InsertFinds(pair: Pair, pairs: seq<Pair>, key: string)
    requires Find(pairs, pair.key) == None
    ensures Find(Insert(pair, pairs), key) == if key == pair.key then Some(pair.value) else Find(pairs, key)
  {
    if pairs == [] || Less(pair.key, pairs[0].key) {
      assert ([pair] + pairs)[1..] == pairs;
    } else {
      InsertFinds(pair, pairs[1..], key);
      assert ([pairs[0]] + Insert(pair, pairs[1..]))[1..] == Insert(pair, pairs[1..]);
    }
  }

  lemma {:induction false} NoKeyNoValue(fields: seq<Field>, key: string)
    requires !HasKey(fields, key)
    ensures Lookup(fields, key) == None
  {
    if fields != [] {
      NoKeyNoValue(fields[1..], key);
    }
  }

  /** The sorted form holds exactly the dictionary's keys that are not null. */
  lemma {:induction false} SortedPairsFind(fields: seq<Field>, key: string)
    requires KeysOnce(fields)
    ensures Find(SortedPairs(fields), key) == Lookup(fields, key)
  {
    if fields != [] {
      SortedPairsFind(fields[1..], key);
      SortedPairsFind(fields[1..], fields[0].key);
      NoKeyNoValue(fields[1..], fields[0].key);
      if fields[0].value.Some? {
        InsertFinds(Pair(fields[0].key, fields[0].value.value), SortedPairs(fields[1..]), key);
      }
    }
  }

  lemma {:induction false} SortedPairsSorted(fields: seq<Field>)
    requires KeysOnce(fields)
    ensures Sorted(SortedPairs(fields))
  {
    if fields != [] {
      SortedPairsSorted(fields[1..]);
      if fields[0].value.Some? {
        SortedPairsFind(fields[1..], fields[0].key);
        NoKeyNoValue(fields[1..], fields[0].key);
        InsertSorted(Pair(fields[0].key, fields[0].value.value), SortedPairs(fields[1..]));
      }
    }
  }

  ghost predicate SameFinds(a: seq<Pair>, b: seq<Pair>) {
    forall key :: Find(a, key) == Find(b, key)
  }

  /** Sorted lists that hold the same are the same. */
  lemma {:induction false} SortedUnique(a: seq<Pair>, b: seq<Pair>)
    requires Sorted(a) && Sorted(b) && SameFinds(a, b)
    ensures a == b
  {
    if a == [] {
      if b != [] {
        DiffersFromEmpty(b);
      }
    } else if b == [] {
      DiffersFromEmpty(a);
    } else {
      SameHeads(a, b);
      SortedAbove(a);
      SortedAbove(b);
      TailsHoldTheSame(a, b);
      SortedUnique(a[1..], b[1..]);
      assert a == [a[0]] + a[1..] && b == [b[0]] + b[1..];
    }
  }

  lemma DiffersFromEmpty(pairs: seq<Pair>)
    requires pairs != []
    ensures !SameFinds([], pairs) && !SameFinds(pairs, [])
  {
    assert Find([], pairs[0].key) != Find(pairs, pairs[0].key);
  }

  lemma SameHeads(a: seq<Pair>, b: seq<Pair>)
    requires Sorted(a) && Sorted(b) && SameFinds(a, b) && a != [] && b != []
    ensures a[0] == b[0]
  {
    assert Find(a, a[0].key) == Find(b, a[0].key);
    assert Find(a, b[0].key) == Find(b, b[0].key);
    LessTotal(a[0].key, b[0].key);
    if Less(a[0].key, b[0].key) {
      HeadBelow(a[0].key, b);
    } else if Less(b[0].key, a[0].key) {
      HeadBelow(b[0].key, a);
    }
  }

  lemma HeadBelow(key: string, pairs: seq<Pair>)
    requires Sorted(pairs) && pairs != [] && Less(key, pairs[0].key)
    ensures Find(pairs, key) == None
  {
    SortedAbove(pairs);
    AboveTransitive(pairs[1..], key, pairs[0].key);
    AboveFindsNone(pairs, key);
  }

  lemma TailsHoldTheSame(a: seq<Pair>, b: seq<Pair>)
    requires SameFinds(a, b) && a != [] && b != [] && a[0] == b[0]
    requires Above(a[1..], a[0].key) && Above(b[1..], b[0].key)
    ensures SameFinds(a[1..], b[1..])
  {
    AboveFindsNone(a[1..], a[0].key);
    AboveFindsNone(b[1..], b[0].key);
    forall key
      ensures Find(a[1..], key) == Find(b[1..], key)
    {
      assert Find(a, key) == Find(b, key);
    }
  }

  /** _canonical_args: the sorted pairs, or the printed form of what is not a dictionary. */
  datatype Canonical = Pairs(pairs: seq<Pair>) | Printed(text: string)

  function CanonicalArgs(args: Args): Canonical {
    match args
    case Dict(fields) => Pairs(SortedPairs(fields))
    case Other(text, _) => Printed(text)
    case _ => Printed("None")
  }

  ghost predicate SameUpToNull(a: seq<Field>, b: seq<Field>) {
    forall key :: Lookup(a, key) == Lookup(b, key)
  }

  /** Dictionaries have the same canonical form exactly when they agree on every key up to null values. */
  lemma CanonicalIff(a: seq<Field>, b: seq<Field>)
    requires KeysOnce(a) && KeysOnce(b)
    ensures CanonicalArgs(Dict(a)) == CanonicalArgs(Dict(b)) <==> SameUpToNull(a, b)
  {
    forall key
      ensures Find(SortedPairs(a), key) == Lookup(a, key) && Find(SortedPairs(b), key) == Lookup(b, key)
    {
      SortedPairsFind(a, key);
      SortedPairsFind(b, key);
    }
    if SameUpToNull(a, b) {
      SortedPairsSorted(a);
      SortedPairsSorted(b);
      forall key
        ensures Find(SortedPairs(a), key) == Find(SortedPairs(b), key)
      {
        assert Lookup(a, key) == Lookup(b, key);
      }
      SortedUnique(SortedPairs(a), SortedPairs(b));
    }
  }

  // ---- Sameness of calls ----

  function OrEmpty(name: Text): Text {
    if name == Absent then Str("") else name
  }

  predicate NonEmpty(name: Text) {
    name.Str? && name.s != ""
  }

  /** The name that calls are compared by: the record's own, or that of its data. */
  function ComparedName(r: Record): Text {
    if NonEmpty(r.name) then r.name
    else
      match r.data
      case None => Str("")
      case Some(data) => OrEmpty(data.name)
  }

  predicate Truthy(args: Args) {
    match args
    case Dict(fields) => fields != []
    case Other(_, truthy) => truthy
    case _ => false
  }

  function ComparedArgs(r: Record): Args {
    if Truthy(r.arguments) then r.arguments
    else
      match r.data
      case None => Dict([])
      case Some(data) => if data.arguments == NoArgs then Dict([]) else data.arguments
  }

  /** Same tool, same arguments. */
  predicate SameTool(a: Record, b: Record) {
    && ComparedName(a) == ComparedName(b)
    && CanonicalArgs(ComparedArgs(a)) == CanonicalArgs(ComparedArgs(b))
  }

  predicate Dictionaries(r: Record) {
    ComparedArgs(r).Dict? && KeysOnce(ComparedArgs(r).fields)
  }

  /** Two calls with dictionaries are the same when name and arguments agree, null arguments aside. */
  lemma SameToolIff(a: Record, b: Record)
    requires Dictionaries(a) && Dictionaries(b)
    ensures SameTool(a, b)
            <==> ComparedName(a) == ComparedName(b)
                 && SameUpToNull(ComparedArgs(a).fields, ComparedArgs(b).fields)
  {
    CanonicalIff(ComparedArgs(a).fields, ComparedArgs(b).fields);
  }

  // ---- Reports ----

  /** The name in a report; the one in the data comes first here. */
  function ReportedName(r: Record): Text {
    match r.data
    case None => OrEmpty(r.name)
    case Some(data) => if NonEmpty(data.name) then data.name else OrEmpty(r.name)
  }

  /** The arguments in a report. */
  function ReportedArgs(r: Record): Args {
    var own := if r.arguments == NoArgs then Dict([]) else r.arguments;
    match r.data
    case None => own
    case Some(data) =>
      match data.arguments
      case Dict(_) => data.arguments
      case Other(_, _) => Dict([])
      case _ => own
  }

  /**
   A loop is reported under the name it was detected by unless the record names two tools, or names
   none and only one of the two places is null.
  */
  lemma ReportedNameIff(r: Record)
    ensures ReportedName(r) == ComparedName(r) <==>
            match r.data
            case None => r.name != Null
            case Some(data) =>
              if NonEmpty(r.name) && NonEmpty(data.name) then r.name == data.name
              else NonEmpty(r.name) || NonEmpty(data.name) || OrEmpty(r.name) == OrEmpty(data.name)
  {
  }

  /** A dictionary has each key once, in both places. */
  predicate ProperArgs(r: Record) {
    && (r.arguments.Dict? ==> KeysOnce(r.arguments.fields))
    && (r.data.Some? && r.data.value.arguments.Dict? ==> KeysOnce(r.data.value.arguments.fields))
  }

  /** No arguments, or none in them. */
  predicate Empty(args: Args) {
    args == NoArgs || args == Dict([])
  }

  /** For arguments at the top and in the data: when a report shows the ones that were compared. */
  ghost predicate Agree(top: Args, inner: Args) {
    match inner
    case NoArgs => Truthy(top) || Empty(top)
    case NullArgs => Truthy(top) || top == NullArgs || top == Other("None", false)
    case Dict(fields) => Truthy(top) ==> top.Dict? && SameUpToNull(top.fields, fields)
    case Other(_, _) => Truthy(top) && top.Dict? && SameUpToNull(top.fields, [])
  }

  /** A record in one of the two log formats: arguments at the top and no data, or in the data alone. */
  predicate OneFormat(r: Record) {
    match r.data
    case None => r.arguments.Dict? || r.arguments == NoArgs
    case Some(data) => r.arguments == NoArgs && (data.arguments.Dict? || data.arguments == NoArgs)
  }

  /**
   The arguments reported are the ones compared unless both places have some and they differ by more
   than nulls, or one of the places holds something that is neither missing nor a dictionary. In either of
   the two formats they are.
  */
  lemma ReportedArgsIff(r: Record)
    requires ProperArgs(r)
    ensures CanonicalArgs(ReportedArgs(r)) == CanonicalArgs(ComparedArgs(r))
            <==> Agree(r.arguments, if r.data.None? then NoArgs else r.data.value.arguments)
    ensures OneFormat(r) ==> CanonicalArgs(ReportedArgs(r)) == CanonicalArgs(ComparedArgs(r))
  {
    if r.data.Some? && r.arguments.Dict? {
      if r.data.value.arguments.Dict? {
        CanonicalIff(r.arguments.fields, r.data.value.arguments.fields);
      } else {
        CanonicalIff(r.arguments.fields, []);
      }
    }
  }

  datatype Warning = Warning(name: Text, streak: nat, args: Canonical)

  function Report(r: Record, streak: nat): Warning {
    Warning(ReportedName(r), streak, CanonicalArgs(ReportedArgs(r)))
  }

  // ---- Runs of the same call ----

  /** How many calls from position j on are the same as call i. */
  function Streak(events: seq<Record>, i: nat, j: nat): (n: nat)
    requires i < |events| && j <= |events|
    ensures j + n <= |events|
    decreases |events| - j
  {
    if j < |events| && SameTool(events[i], events[j]) then 1 + Streak(events, i, j + 1) else 0
  }

  /** The length of the run that starts at call i. */
  function RunLength(events: seq<Record>, i: nat): (n: nat)
    requires i < |events|
    ensures 1 <= n && i + n <= |events|
  {
    1 + Streak(events, i, i + 1)
  }

  datatype Run = Run(start: nat, length: nat)

  /** The runs of three or more in the run-length encoding of the calls from i on. */
  function Loops(events: seq<Record>, i: nat): seq<Run>
    requires i <= |events|
    decreases |events| - i
  {
    if i == |events| then []
    else
      var n := RunLength(events, i);
      (if n >= 3 then [Run(i, n)] else []) + Loops(events, i + n)
  }

  /** The warnings for those runs. */
  function Warnings(events: seq<Record>, i: nat): seq<Warning>
    requires i <= |events|
    decreases |events| - i
  {
    if i == |events| then []
    else
      var n := RunLength(events, i);
      (if n >= 3 then [Report(events[i], n)] else []) + Warnings(events, i + n)
  }

  lemma {:induction false} StreakSame(events: seq<Record>, i: nat, j: nat)
    requires i < |events| && j <= |events|
    ensures forall k | j <= k < j + Streak(events, i, j) :: SameTool(events[i], events[k])
    ensures var end := j + Streak(events, i, j); end == |events| || !SameTool(events[i], events[end])
    decreases |events| - j
  {
    if j < |events| && SameTool(events[i], events[j]) {
      StreakSame(events, i, j + 1);
    }
  }

  lemma {:induction false} StreakIs(events: seq<Record>, i: nat, j: nat, n: nat)
    requires i < |events| && j + n <= |events|
    requires forall k | j <= k < j + n :: SameTool(events[i], events[k])
    requires j + n == |events| || !SameTool(events[i], events[j + n])
    ensures Streak(events, i, j) == n
    decreases n
  {
    if n > 0 {
      StreakIs(events, i, j + 1, n - 1);
    }
  }

  /** A run that cannot be made longer at either end. */
  predicate Maximal(events: seq<Record>, start: nat, n: nat) {
    && 1 <= n && start + n <= |events|
    && (forall k | start <= k < start + n :: SameTool(events[start], events[k]))
    && (start > 0 ==> !SameTool(events[start - 1], events[start]))
    && (start + n < |events| ==> !SameTool(events[start], events[start + n]))
  }

  /** No run crosses into position i from before. */
  predicate Fresh(events: seq<Record>, i: nat)
    requires i <= |events|
  {
    i == |events| || i == 0 || !SameTool(events[i - 1], events[i])
  }

  lemma RunIsMaximal(events: seq<Record>, i: nat)
    requires i < |events| && Fresh(events, i)
    ensures Maximal(events, i, RunLength(events, i)) && Fresh(events, i + RunLength(events, i))
    ensures forall n: nat | Maximal(events, i, n) :: n == RunLength(events, i)
  {
    StreakSame(events, i, i + 1);
    forall n: nat | Maximal(events, i, n)
      ensures n == RunLength(events, i)
    {
      StreakIs(events, i, i + 1, n - 1);
    }
  }

  lemma InsideNotMaximal(events: seq<Record>, i: nat, a: nat, n: nat)
    requires i < |events| && i < a < i + RunLength(events, i)
    ensures !Maximal(events, a, n)
  {
    StreakSame(events, i, i + 1);
    assert SameTool(events[i], events[a]);
    assert a - 1 == i || SameTool(events[i], events[a - 1]);
  }

  lemma LoopsStep(events: seq<Record>, i: nat, run: Run)
    requires i < |events|
    ensures var n := RunLength(events, i);
            run in Loops(events, i) <==> (n >= 3 && run == Run(i, n)) || run in Loops(events, i + n)
  {
  }

  /** A loop that starts at call i or later. */
  predicate IsLoop(events: seq<Record>, i: nat, run: Run) {
    i <= run.start && run.length >= 3 && Maximal(events, run.start, run.length)
  }

  /** It is the run that starts at call i, or starts after it. */
  lemma LoopHereOrLater(events: seq<Record>, i: nat, run: Run)
    requires i < |events| && Fresh(events, i)
    ensures var n := RunLength(events, i);
            Fresh(events, i + n)
                && (IsLoop(events, i, run) <==> (n >= 3 && run == Run(i, n)) || IsLoop(events, i + n, run))
  {
    RunIsMaximal(events, i);
    if i < run.start < i + RunLength(events, i) {
      InsideNotMaximal(events, i, run.start, run.length);
    }
  }

  lemma {:induction false} LoopsFrom(events: seq<Record>, i: nat, run: Run)
    requires i <= |events| && Fresh(events, i)
    ensures run in Loops(events, i) <==> IsLoop(events, i, run)
    decreases |events| - i
  {
    if i < |events| {
      LoopHereOrLater(events, i, run);
      LoopsFrom(events, i + RunLength(events, i), run);
      LoopsStep(events, i, run);
    }
  }

  /** Each run starts at or after the end of the one before it. */
  predicate Apart(runs: seq<Run>, from: nat) {
    runs == [] || (from <= runs[0].start && Apart(runs[1..], runs[0].start + runs[0].length))
  }

  lemma {:induction false} ApartEarlier(runs: seq<Run>, from: nat, earlier: nat)
    requires Apart(runs, from) && earlier <= from
    ensures Apart(runs, earlier)
  {
  }

  lemma {:induction false} LoopsApart(events: seq<Record>, i: nat)
    requires i <= |events|
    ensures Apart(Loops(events, i), i)
    decreases |events| - i
  {
    if i < |events| {
      var n := RunLength(events, i);
      var rest := Loops(events, i + n);
      LoopsApart(events, i + n);
      ApartEarlier(rest, i + n, i);
      assert ([Run(i, n)] + rest)[1..] == rest;
      assert [] + rest == rest;
    }
  }

  /** The loops are exactly the maximal runs of three or more, in order and apart from each other. */
  lemma LoopsAreMaximalRuns(events: seq<Record>)
    ensures forall run :: run in Loops(events, 0)
                          <==> run.length >= 3 && Maximal(events, run.start, run.length)
    ensures Apart(Loops(events, 0), 0)
  {
    forall run
      ensures run in Loops(events, 0) <==> run.length >= 3 && Maximal(events, run.start, run.length)
    {
      LoopsFrom(events, 0, run);
    }
    LoopsApart(events, 0);
  }

  /** The pairs shown are the fields that are not null, by key. */
  ghost predicate ShowsFields(shown: Canonical, fields: seq<Field>) {
    && shown.Pairs?
    && (KeysOnce(fields) ==> Sorted(shown.pairs) && forall key :: Find(shown.pairs, key) == Lookup(fields, key))
  }

  /**
   The arguments in the data go before those at the top if they are neither missing nor null, and no
   arguments are shown for those that are no dictionary; what is at the top is shown as it is.
  */
  ghost predicate ShowsArgs(shown: Canonical, r: Record) {
    if r.data.Some? && r.data.value.arguments.Dict? then ShowsFields(shown, r.data.value.arguments.fields)
    else if r.data.Some? && r.data.value.arguments.Other? then shown == Pairs([])
    else if r.arguments.Dict? then ShowsFields(shown, r.arguments.fields)
    else if r.arguments.Other? then shown == Printed(r.arguments.text)
    else shown == if r.arguments == NoArgs then Pairs([]) else Printed("None")
  }

  /** The name in the data, if there is one; else that at the top. */
  ghost predicate ShowsName(shown: Text, r: Record) {
    if r.data.Some? && r.data.value.name.Str? && r.data.value.name.s != "" then shown == r.data.value.name
    else shown == if r.name == Absent then Str("") else r.name
  }

  ghost predicate Shows(w: Warning, r: Record, streak: nat) {
    w.streak == streak && ShowsName(w.name, r) && ShowsArgs(w.args, r)
  }

  lemma PairsShow(fields: seq<Field>)
    ensures ShowsFields(Pairs(SortedPairs(fields)), fields)
  {
    if KeysOnce(fields) {
      SortedPairsSorted(fields);
      forall key
        ensures Find(SortedPairs(fields), key) == Lookup(fields, key)
      {
        SortedPairsFind(fields, key);
      }
    }
  }

  lemma ReportShows(r: Record, streak: nat)
    ensures Shows(Report(r, streak), r, streak)
  {
    if r.data.Some? && r.data.value.arguments.Dict? {
      PairsShow(r.data.value.arguments.fields);
    } else if r.arguments.Dict? {
      PairsShow(r.arguments.fields);
    }
  }

  /** One warning for each loop: for its first call, with its length. */
  ghost predicate Reports(events: seq<Record>, runs: seq<Run>, warnings: seq<Warning>) {
    && |runs| == |warnings|
    && forall k | 0 <= k < |runs| ::
         runs[k].start < |events| && Shows(warnings[k], events[runs[k].start], runs[k].length)
  }

  lemma ReportsCons(events: seq<Record>, run: Run, runs: seq<Run>, warning: Warning, warnings: seq<Warning>)
    requires run.start < |events| && Reports(events, runs, warnings)
    requires Shows(warning, events[run.start], run.length)
    ensures Reports(events, [run] + runs, [warning] + warnings)
  {
  }

  /** One warning for each loop: the length of the run, and the name and the arguments of its first call. */
  lemma {:induction false} WarningsReportLoops(events: seq<Record>, i: nat)
    requires i <= |events|
    ensures Reports(events, Loops(events, i), Warnings(events, i))
    decreases |events| - i
  {
    if i < |events| {
      var n := RunLength(events, i);
      WarningsReportLoops(events, i + n);
      if n >= 3 {
        ReportShows(events[i], n);
        ReportsCons(events, Run(i, n), Loops(events, i + n), Report(events[i], n), Warnings(events, i + n));
      } else {
        assert [] + Loops(events, i + n) == Loops(events, i + n);
        assert [] + Warnings(events, i + n) == Warnings(events, i + n);
      }
    }
  }

  // ---- The detector ----

  /** Where there are not three in a row, moving on by one call loses nothing. */
  lemma NoLoopHere(events: seq<Record>, i: nat)
    requires i < |events| && RunLength(events, i) < 3
    ensures Warnings(events, i) == Warnings(events, i + 1)
  {
    if RunLength(events, i) == 2 {
      StreakSame(events, i, i + 1);
      assert SameTool(events[i], events[i + 1]);
      StreakIs(events, i + 1, i + 2, 0);
      assert RunLength(events, i + 1) == 1;
    }
  }

  lemma ThreeOfOne(r: Record)
    ensures Warnings([r, r, r], 0) == [Report(r, 3)]
  {
    StreakIs([r, r, r], 0, 1, 2);
    assert Warnings([r, r, r], 3) == [];
  }

  lemma OneField(key: string, value: Value)
    ensures SortedPairs([Field(key, Some(value))]) == [Pair(key, value)]
  {
    assert SortedPairs([Field(key, Some(value))][1..]) == [];
    assert [Pair(key, value)] + [] == [Pair(key, value)];
  }

  /** Three calls to "search" whose data name "delete": the loop is one of "search", the warning is about "delete". */
  lemma LoopReportedUnderOtherName()
    ensures var r := Record(Str("search"), NoArgs, Some(Data(Str("delete"), NoArgs)));
            && ComparedName(r) == Str("search")
            && Warnings([r, r, r], 0) == [Warning(Str("delete"), 3, CanonicalArgs(ComparedArgs(r)))]
  {
    var r := Record(Str("search"), NoArgs, Some(Data(Str("delete"), NoArgs)));
    ThreeOfOne(r);
    ReportedArgsIff(r);
  }

  /** Three calls about "x" whose data say "y": the loop is one of calls about "x", the warning shows "y". */
  lemma LoopReportedWithOtherArgs()
    ensures var x, y := [Field("q", Some(Value("x")))], [Field("q", Some(Value("y")))];
            var r := Record(Str("search"), Dict(x), Some(Data(Absent, Dict(y))));
            && CanonicalArgs(ComparedArgs(r)) == Pairs([Pair("q", Value("x"))])
            && Warnings([r, r, r], 0) == [Warning(Str("search"), 3, Pairs([Pair("q", Value("y"))]))]
  {
    var x, y := [Field("q", Some(Value("x")))], [Field("q", Some(Value("y")))];
    OneField("q", Value("x"));
    OneField("q", Value("y"));
    ThreeOfOne(Record(Str("search"), Dict(x), Some(Data(Absent, Dict(y)))));
  }

  lemma {:induction false} TooShort(events: seq<Record>, i: nat)
    requires i <= |events| < i + 3
    ensures Warnings(events, i) == []
    decreases |events| - i
  {
    if i < |events| {
      TooShort(events, i + RunLength(events, i));
    }
  }

  /** The two comparisons of the detector see the first three calls of a run. */
  lemma RunStart(events: seq<Record>, i: nat)
    requires i + 3 <= |events|
    ensures RunLength(events, i)
         == if !SameTool(events[i], events[i + 1]) then 1
            else if !SameTool(events[i], events[i + 2]) then 2
            else 3 + Streak(events, i, i + 3)
  {
    assert Streak(events, i, i + 2)
        == if SameTool(events[i], events[i + 2]) then 1 + Streak(events, i, i + 3) else 0;
  }

  lemma LoopHere(events: seq<Record>, i: nat, before: seq<Warning>)
    requires i < |events| && RunLength(events, i) >= 3
    ensures before + Warnings(events, i)
         == before + [Report(events[i], RunLength(events, i))] + Warnings(events, i + RunLength(events, i))
  {
  }

  /** The inner loop: how far the streak goes. */
  method CountStreak(events: seq<Record>, i: nat) returns (streak: nat)
    requires i + 3 <= |events| && RunLength(events, i) >= 3
    ensures streak == RunLength(events, i)
  {
    RunStart(events, i);
    streak := 3;
    while i + streak < |events| && SameTool(events[i], events[i + streak])
      invariant 3 <= streak && i + streak <= |events|
      invariant RunLength(events, i) == streak + Streak(events, i, i + streak)
      decreases |events| - streak
    {
      streak := streak + 1;
    }
  }

  /** The scan over a window of three calls. */
  method DetectToolLoops(events: seq<Record>) returns (warnings: seq<Warning>)
    ensures warnings == Warnings(events, 0)
  {
    warnings := [];
    if |events| < 3 {
      TooShort(events, 0);
      return;
    }
    var i := 0;
    ghost var whole := Warnings(events, 0);
    while i <= |events| - 3
      invariant i <= |events|
      invariant warnings + Warnings(events, i) == whole
      decreases |events| - i
    {
      RunStart(events, i);
      if SameTool(events[i], events[i + 1]) && SameTool(events[i], events[i + 2]) {
        var streak := CountStreak(events, i);
        LoopHere(events, i, warnings);
        warnings := warnings + [Report(events[i], streak)];
        i := i + streak;
      } else {
        NoLoopHere(events, i);
        i := i + 1;
      }
    }
    TooShort(events, i);
  }
}
