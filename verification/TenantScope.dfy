/**
 Tenant scopes as the gateway reads them from one header: splitting, validation, and the joined
 key that the scope registry caches under.
*/
module TenantScope {
  import opened Text
  import opened Wrappers

  const MAX_TENANT_ID := 128

  predicate IsAlphanumeric(c: char) {
    'A' <= c <= 'Z' || 'a' <= c <= 'z' || '0' <= c <= '9'
  }

  predicate IsTenantChar(c: char) {
    IsAlphanumeric(c) || c == '_' || c == '-'
  }

  /** The repository-wide contract: an alphanumeric followed by at most 127 of A-Z a-z 0-9 _ and -. */
  predicate ValidTenantId(id: string) {
    1 <= |id| <= MAX_TENANT_ID && IsAlphanumeric(id[0]) && forall i | 0 <= i < |id| :: IsTenantChar(id[i])
  }

  /** strings.Join with a comma. */
  function Join(ids: seq<string>): string {
    if ids == [] then "" else if |ids| == 1 then ids[0] else ids[0] + "," + Join(ids[1..])
  }

  /** strings.Split at commas: always at least one part. */
  function Split(s: string): (parts: seq<string>)
    ensures parts != []
  {
    if s == "" then [""]
    else
      var rest := Split(s[1..]);
      if s[0] == ',' then [""] + rest else [[s[0]] + rest[0]] + rest[1..]
  }

  /** The non-empty parts of the header, trimmed. */
  function KeepNonEmpty(parts: seq<string>): (ids: seq<string>)
    ensures forall id | id in ids :: id != "" && Trimmed(id, GO_SPACES)
  {
    if parts == [] then []
    else
      var p := Trim(parts[|parts| - 1], GO_SPACES);
      KeepNonEmpty(parts[..|parts| - 1]) + (if p != "" then [p] else [])
  }

  function Resolve(header: string): seq<string> {
    KeepNonEmpty(Split(header))
  }

  method ResolveTenantIDs(header: string) returns (result: seq<string>)
    ensures result == Resolve(header)
  {
    var parts := Split(header);
    result := [];
    for i := 0 to |parts|
      invariant result == KeepNonEmpty(parts[..i])
    {
      var p := Trim(parts[i], GO_SPACES);
      assert parts[..i + 1][..i] == parts[..i];
      if p != "" {
        result := result + [p];
      }
    }
    assert parts[..|parts|] == parts;
  }

  datatype ScopeError = TooManyTenants | InvalidTenant | DuplicateTenant

  datatype Verdict = Accepted | Rejected(error: ScopeError)

  ghost predicate AllValid(ids: seq<string>) {
    forall i | 0 <= i < |ids| :: ValidTenantId(ids[i])
  }

  /** What validation is for: a bounded list of well-formed, pairwise different tenant IDs. */
  ghost predicate ValidScope(ids: seq<string>, max: nat) {
    |ids| <= max && AllValid(ids) && Distinct(ids)
  }

  /** The first tenant at fault is the i-th. */
  ghost predicate FirstFault(ids: seq<string>, i: nat) {
    && i < |ids| && AllValid(ids[..i]) && Distinct(ids[..i])
    && (!ValidTenantId(ids[i]) || ids[i] in ids[..i])
  }

  method ValidateTenantScope(ids: seq<string>, max: nat) returns (v: Verdict)
    ensures v == Accepted <==> ValidScope(ids, max)
    ensures v == Rejected(TooManyTenants) <==> |ids| > max
    ensures v == Rejected(InvalidTenant) <==>
            |ids| <= max && exists i | 0 <= i < |ids| :: FirstFault(ids, i) && !ValidTenantId(ids[i])
    ensures v == Rejected(DuplicateTenant) <==>
            |ids| <= max && exists i | 0 <= i < |ids| :: FirstFault(ids, i) && ValidTenantId(ids[i])
  {
    if |ids| > max {
      return Rejected(TooManyTenants);
    }
    var seen: set<string> := {};
    for i := 0 to |ids|
      invariant AllValid(ids[..i]) && Distinct(ids[..i])
      invariant forall id :: id in seen <==> id in ids[..i]
    {
      var id := ids[i];
      if !ValidTenantId(id) {
        OneFirstFault(ids, i);
        return Rejected(InvalidTenant);
      }
      if id in seen {
        OneFirstFault(ids, i);
        return Rejected(DuplicateTenant);
      }
      seen := seen + {id};
      assert ids[..i + 1] == ids[..i] + [id];
    }
    assert ids[..|ids|] == ids;
    NoFault(ids);
    return Accepted;
  }

  lemma OneFirstFault(ids: seq<string>, i: nat)
    requires FirstFault(ids, i)
    ensures !(AllValid(ids) && Distinct(ids))
    ensures forall j | 0 <= j < |ids| && FirstFault(ids, j) :: j == i
  {
    if ids[i] in ids[..i] {
      var k :| 0 <= k < i && ids[..i][k] == ids[i];
      assert ids[k] == ids[i];
    }
    forall j | 0 <= j < |ids| && FirstFault(ids, j)
      ensures j == i
    {
      if i < j {
        FaultStays(ids, i, j);
      } else if j < i {
        FaultStays(ids, j, i);
      }
    }
  }

  lemma FaultStays(ids: seq<string>, i: nat, j: nat)
    requires FirstFault(ids, i) && i < j <= |ids|
    ensures !(AllValid(ids[..j]) && Distinct(ids[..j]))
  {
    assert ids[..j][i] == ids[i];
    if ids[i] in ids[..i] {
      var k :| 0 <= k < i && ids[..i][k] == ids[i];
      assert ids[..j][k] == ids[..j][i];
    }
  }

  lemma NoFault(ids: seq<string>)
    requires AllValid(ids) && Distinct(ids)
    ensures forall i | 0 <= i < |ids| :: !FirstFault(ids, i)
  {
    forall i | 0 <= i < |ids|
      ensures !FirstFault(ids, i)
    {
      assert forall k | 0 <= k < i :: ids[..i][k] == ids[k] != ids[i];
    }
  }

  // ---- The key is as good as the list ----

  ghost predicate NoCommas(s: string) {
    forall i | 0 <= i < |s| :: s[i] != ','
  }

  lemma {:induction false} SplitPrefix(s: string, rest: string)
    requires NoCommas(s)
    ensures Split(s + "," + rest) == [s] + Split(rest)
  {
    if s == "" {
      assert s + "," + rest == "," + rest;
    } else {
      SplitPrefix(s[1..], rest);
      assert (s + "," + rest)[1..] == s[1..] + "," + rest;
      assert [s[0]] + s[1..] == s;
    }
  }

  lemma {:induction false} SplitWhole(s: string)
    requires NoCommas(s)
    ensures Split(s) == [s]
  {
    if s != "" {
      SplitWhole(s[1..]);
      assert [s[0]] + s[1..] == s;
    }
  }

  lemma {:induction false} SplitJoin(ids: seq<string>)
    requires ids != [] && forall i | 0 <= i < |ids| :: NoCommas(ids[i])
    ensures Split(Join(ids)) == ids
  {
    if |ids| == 1 {
      SplitWhole(ids[0]);
    } else {
      SplitJoin(ids[1..]);
      SplitPrefix(ids[0], Join(ids[1..]));
    }
  }

  /** Text that trimming leaves alone and resolution keeps. */
  predicate Kept(part: string) {
    part != "" && Trimmed(part, GO_SPACES)
  }

  lemma {:induction false} KeepsTrimmed(parts: seq<string>)
    requires forall i | 0 <= i < |parts| :: Kept(parts[i])
    ensures KeepNonEmpty(parts) == parts
  {
    if parts != [] {
      var n := |parts| - 1;
      KeepsTrimmed(parts[..n]);
      assert Trim(parts[n], GO_SPACES) == parts[n];
      assert parts == parts[..n] + [parts[n]];
    }
  }

  lemma SplitFirst(c: char, s: string)
    ensures Split([c] + s) == if c == ',' then [""] + Split(s) else [[c] + Split(s)[0]] + Split(s)[1..]
  {
    assert ([c] + s)[1..] == s;
  }

  lemma AfterFirst(c: char, rest: seq<string>, more: seq<string>)
    requires rest != []
    ensures [[c] + rest[0]] + rest[1..] + more == [[c] + (rest + more)[0]] + (rest + more)[1..]
    ensures [""] + rest + more == [""] + (rest + more)
  {
  }

  lemma {:induction false} SplitAt(a: string, b: string)
    ensures Split(a + "," + b) == Split(a) + Split(b)
  {
    if a == "" {
      SplitFirst(',', b);
      assert a + "," + b == [','] + b;
    } else {
      SplitAt(a[1..], b);
      SplitFirst(a[0], a[1..]);
      SplitFirst(a[0], a[1..] + "," + b);
      AfterFirst(a[0], Split(a[1..]), Split(b));
      assert a == [a[0]] + a[1..];
      assert a + "," + b == [a[0]] + (a[1..] + "," + b);
    }
  }

  lemma KeepLast(parts: seq<string>, part: string)
    ensures KeepNonEmpty(parts + [part]) == KeepNonEmpty(parts) + KeepNonEmpty([part])
  {
    assert (parts + [part])[..|parts|] == parts;
    assert KeepNonEmpty([part][..0]) == [];
  }

  lemma JoinThree(a: seq<string>, b: seq<string>, c: seq<string>)
    ensures a + b + c == a + (b + c)
  {
  }

  lemma KeepOneMore(a: seq<string>, b: seq<string>, part: string)
    requires KeepNonEmpty(a + b) == KeepNonEmpty(a) + KeepNonEmpty(b)
    ensures KeepNonEmpty(a + b + [part]) == KeepNonEmpty(a) + KeepNonEmpty(b + [part])
  {
    KeepLast(b, part);
    KeepLast(a + b, part);
    JoinThree(KeepNonEmpty(a), KeepNonEmpty(b), KeepNonEmpty([part]));
  }

  lemma KeepNothing(a: seq<string>)
    ensures KeepNonEmpty(a + []) == KeepNonEmpty(a) + KeepNonEmpty([])
  {
    assert a + [] == a;
    assert KeepNonEmpty(a) + [] == KeepNonEmpty(a);
  }

  lemma LastPart(b: seq<string>) returns (before: seq<string>, last: string)
    requires b != []
    ensures b == before + [last] && |before| < |b|
  {
    before, last := b[..|b| - 1], b[|b| - 1];
  }

  lemma {:induction false} KeepAppend(a: seq<string>, b: seq<string>)
    ensures KeepNonEmpty(a + b) == KeepNonEmpty(a) + KeepNonEmpty(b)
    decreases |b|
  {
    if b == [] {
      KeepNothing(a);
    } else {
      var before, last := LastPart(b);
      KeepAppend(a, before);
      KeepOneMore(a, before, last);
      JoinThree(a, before, [last]);
    }
  }

  /** What is on the two sides of a comma is read apart. */
  lemma ResolveAtComma(a: string, b: string)
    ensures Resolve(a + "," + b) == Resolve(a) + Resolve(b)
  {
    SplitAt(a, b);
    KeepAppend(Split(a), Split(b));
  }

  /** Without a comma there is one ID, without the white space around it, or none if nothing else is there. */
  lemma ResolvePart(left: string, id: string, right: string)
    requires AllBlank(left, GO_SPACES) && AllBlank(right, GO_SPACES) && Trimmed(id, GO_SPACES)
    requires NoCommas(left + id + right)
    ensures Resolve(left + id + right) == if id == "" then [] else [id]
  {
    SplitWhole(left + id + right);
    TrimIs(left, id, right, GO_SPACES);
    assert KeepNonEmpty([]) == [];
  }

  lemma TenantCharIsPlain(c: char)
    requires IsTenantChar(c)
    ensures c != ',' && !Blank(c, GO_SPACES)
  {
    BlankIff(c, GO_SPACES);
  }

  lemma ValidIdIsPlain(id: string)
    requires ValidTenantId(id)
    ensures Kept(id) && NoCommas(id)
  {
    TenantCharIsPlain(id[0]);
    TenantCharIsPlain(id[|id| - 1]);
  }

  /** Reading the header the gateway itself would write for a scope gives the scope back. */
  lemma ResolveInvertsJoin(ids: seq<string>)
    requires AllValid(ids)
    ensures Resolve(Join(ids)) == ids
  {
    forall i | 0 <= i < |ids|
      ensures Kept(ids[i]) && NoCommas(ids[i])
    {
      ValidIdIsPlain(ids[i]);
    }
    if ids != [] {
      SplitJoin(ids);
      KeepsTrimmed(ids);
    }
  }

  /** The cache key determines the tenant list, its order included, on validated scopes. */
  lemma JoinInjective(a: seq<string>, b: seq<string>)
    requires AllValid(a) && AllValid(b)
    ensures Join(a) == Join(b) <==> a == b
  {
    ResolveInvertsJoin(a);
    ResolveInvertsJoin(b);
  }

  /** Without validation the key does not determine the list. */
  lemma UnvalidatedJoinCollides()
    ensures Join(["a,b"]) == Join(["a", "b"])
  {
    assert Join(["a", "b"]) == "a" + "," + Join(["b"]);
  }
}
