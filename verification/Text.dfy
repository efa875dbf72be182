/**
 The few operations on text that several components share: white space and its removal at the
 ends. The two languages of the repository disagree on four control characters.
*/
module Text {

  /** unicode.IsSpace of Go. */
  const GO_SPACES := " \t\n\U{B}\U{C}\r\U{85}\U{A0}\U{1680}" +
    "\U{2000}\U{2001}\U{2002}\U{2003}\U{2004}\U{2005}\U{2006}\U{2007}\U{2008}\U{2009}\U{200A}" +
    "\U{2028}\U{2029}\U{202F}\U{205F}\U{3000}"

  /** str.isspace of Python, which also counts the four separator control characters. */
  const PYTHON_SPACES := " \t\n\U{B}\U{C}\r\U{1C}\U{1D}\U{1E}\U{1F}\U{85}\U{A0}\U{1680}" +
    "\U{2000}\U{2001}\U{2002}\U{2003}\U{2004}\U{2005}\U{2006}\U{2007}\U{2008}\U{2009}\U{200A}" +
    "\U{2028}\U{2029}\U{202F}\U{205F}\U{3000}"

  /** The character is in the table, from the i-th entry on. */
  predicate AmongFrom(c: char, table: string, i: nat)
    requires i <= |table|
    decreases |table| - i
  {
    i < |table| && (table[i] == c || AmongFrom(c, table, i + 1))
  }

  predicate Blank(c: char, blanks: string) {
    AmongFrom(c, blanks, 0)
  }

  lemma {:induction false} AmongFromIff(c: char, table: string, i: nat)
    requires i <= |table|
    ensures AmongFrom(c, table, i) <==> exists k | i <= k < |table| :: table[k] == c
    decreases |table| - i
  {
    if i < |table| {
      AmongFromIff(c, table, i + 1);
    }
  }

  lemma BlankIff(c: char, blanks: string)
    ensures Blank(c, blanks) <==> c in blanks
  {
    AmongFromIff(c, blanks, 0);
  }

  function TrimLeft(s: string, blanks: string): (t: string)
    ensures |t| <= |s|
    ensures t == "" || !Blank(t[0], blanks)
  {
    if s != "" && Blank(s[0], blanks) then TrimLeft(s[1..], blanks) else s
  }

  function TrimRight(s: string, blanks: string): (t: string)
    ensures |t| <= |s|
    ensures t == "" || !Blank(t[|t| - 1], blanks)
    ensures t != "" ==> t[0] == s[0]
  {
    if s != "" && Blank(s[|s| - 1], blanks) then TrimRight(s[..|s| - 1], blanks) else s
  }

  /** Neither end is blank. */
  predicate Trimmed(s: string, blanks: string) {
    s == "" || (!Blank(s[0], blanks) && !Blank(s[|s| - 1], blanks))
  }

  function Trim(s: string, blanks: string): (t: string)
    ensures |t| <= |s|
    ensures Trimmed(t, blanks)
    ensures Trimmed(s, blanks) ==> t == s
  {
    TrimRight(TrimLeft(s, blanks), blanks)
  }

  predicate AllBlank(s: string, blanks: string) {
    forall i | 0 <= i < |s| :: Blank(s[i], blanks)
  }

  lemma {:induction false} TrimLeftParts(s: string, blanks: string) returns (left: string)
    ensures AllBlank(left, blanks) && s == left + TrimLeft(s, blanks)
  {
    left := "";
    if s != "" && Blank(s[0], blanks) {
      var rest := TrimLeftParts(s[1..], blanks);
      left := [s[0]] + rest;
    }
  }

  lemma {:induction false} TrimRightParts(s: string, blanks: string) returns (right: string)
    ensures AllBlank(right, blanks) && s == TrimRight(s, blanks) + right
  {
    right := "";
    if s != "" && Blank(s[|s| - 1], blanks) {
      var rest := TrimRightParts(s[..|s| - 1], blanks);
      right := rest + [s[|s| - 1]];
    }
  }

  /** Trimming takes blanks off the two ends and nothing else. */
  lemma TrimParts(s: string, blanks: string) returns (left: string, right: string)
    ensures AllBlank(left, blanks) && AllBlank(right, blanks) && s == left + Trim(s, blanks) + right
  {
    left := TrimLeftParts(s, blanks);
    right := TrimRightParts(TrimLeft(s, blanks), blanks);
  }

  lemma {:induction false} TrimLeftOf(left: string, s: string, blanks: string)
    requires AllBlank(left, blanks)
    ensures TrimLeft(left + s, blanks) == TrimLeft(s, blanks)
  {
    if left == "" {
      assert left + s == s;
    } else {
      TrimLeftOf(left[1..], s, blanks);
      assert (left + s)[1..] == left[1..] + s;
    }
  }

  lemma {:induction false} TrimRightOf(s: string, right: string, blanks: string)
    requires AllBlank(right, blanks)
    ensures TrimRight(s + right, blanks) == TrimRight(s, blanks)
  {
    if right == "" {
      assert s + right == s;
    } else {
      var n := |right| - 1;
      TrimRightOf(s, right[..n], blanks);
      assert (s + right)[..|s + right| - 1] == s + right[..n];
    }
  }

  /** There is only one way to take the blanks off both ends. */
  lemma TrimIs(left: string, t: string, right: string, blanks: string)
    requires AllBlank(left, blanks) && AllBlank(right, blanks) && Trimmed(t, blanks)
    ensures Trim(left + t + right, blanks) == t
  {
    Assoc(left, t, right);
    TrimLeftOf(left, t + right, blanks);
    if t == "" {
      assert t + right == right + "" && right + "" == right;
      TrimLeftOf(right, "", blanks);
    } else {
      TrimRightOf(t, right, blanks);
    }
  }

  // ---- Concatenation regrouped ----

  lemma Assoc(a: string, b: string, c: string)
    ensures a + b + c == a + (b + c)
  {
  }

  lemma Assoc4(a: string, b: string, c: string, d: string)
    ensures a + b + c + d == a + (b + c + d) == a + (b + (c + d)) == a + b + (c + d)
  {
  }
}
