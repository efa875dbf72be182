/**
 BM25 reranking over real numbers. Tokens are given; the logarithm is any function that is positive
 above 1. The parameters may be any numbers: a division by zero ends the call without a result.
*/
module Bm25 {
  import opened Wrappers

  datatype Token = Token(text: string)
  datatype Document = Document(id: string, tokens: seq<Token>)
  datatype Params = Params(k1: real, b: real)

  type Logarithm = real -> real

  ghost predicate PositiveAboveOne(ln: Logarithm) {
    forall x :: x > 1.0 ==> ln(x) > 0.0
  }

  predicate Valid(p: Params) {
    p.k1 >= 0.0 && 0.0 <= p.b <= 1.0
  }

  // ---- Counting ----

  function Count(tokens: seq<Token>, t: Token, n: nat): (c: nat)
    requires n <= |tokens|
    ensures c <= n
  {
    if n == 0 then 0 else Count(tokens, t, n - 1) + (if tokens[n - 1] == t then 1 else 0)
  }

  function Frequency(tokens: seq<Token>, t: Token): nat {
    Count(tokens, t, |tokens|)
  }

  lemma {:induction false} CountPositiveIff(tokens: seq<Token>, t: Token, n: nat)
    requires n <= |tokens|
    ensures Count(tokens, t, n) > 0 <==> exists i | 0 <= i < n :: tokens[i] == t
  {
    if n > 0 {
      CountPositiveIff(tokens, t, n - 1);
    }
  }

  /** The dictionary of occurrences. */
  method TokenFrequency(tokens: seq<Token>) returns (freq: map<Token, nat>)
    ensures forall t :: t in freq <==> Frequency(tokens, t) > 0
    ensures forall t | t in freq :: freq[t] == Frequency(tokens, t)
  {
    freq := map[];
    for i := 0 to |tokens|
      invariant forall t :: t in freq <==> Count(tokens, t, i) > 0
      invariant forall t | t in freq :: freq[t] == Count(tokens, t, i)
    {
      var t := tokens[i];
      var seen := if t in freq then freq[t] else 0;
      freq := freq[t := seen + 1];
    }
  }

  /** How many of the first n documents hold the token. */
  function DocCount(corpus: seq<Document>, t: Token, n: nat): (c: nat)
    requires n <= |corpus|
    ensures c <= n
  {
    if n == 0 then 0 else DocCount(corpus, t, n - 1) + (if t in corpus[n - 1].tokens then 1 else 0)
  }

  function TotalLength(corpus: seq<Document>, n: nat): nat
    requires n <= |corpus|
  {
    if n == 0 then 0 else TotalLength(corpus, n - 1) + |corpus[n - 1].tokens|
  }

  lemma {:induction false} TotalAtLeast(corpus: seq<Document>, n: nat, i: nat)
    requires i < n <= |corpus|
    ensures TotalLength(corpus, n) >= |corpus[i].tokens|
  {
    if i < n - 1 {
      TotalAtLeast(corpus, n - 1, i);
    }
  }

  // ---- Arithmetic ----

  lemma QuotientPositive(x: real, y: real)
    requires x > 0.0 && y > 0.0
    ensures x / y > 0.0
  {
  }

  lemma ProductPositive(x: real, y: real)
    requires x > 0.0 && y > 0.0
    ensures x * y > 0.0
  {
  }

  lemma ProductSign(x: real, y: real, product: real)
    requires x >= 0.0 && y > 0.0 && product == x * y
    ensures product >= 0.0
    ensures product > 0.0 <==> x > 0.0
  {
    if x > 0.0 {
      ProductPositive(x, y);
    }
  }

  lemma ProductNotNegative(x: real, y: real)
    requires x >= 0.0 && y >= 0.0
    ensures x * y >= 0.0
  {
  }

  lemma ProductIncreases(x: real, y: real, z: real)
    requires x > 0.0 && y < z
    ensures x * y < x * z
  {
    ProductPositive(x, z - y);
    assert x * (z - y) == x * z - x * y;
  }

  lemma ProductKeepsOrder(x: real, y: real, z: real)
    requires y > 0.0 && x >= z
    ensures x * y >= z * y
  {
    ProductNotNegative(x - z, y);
    assert (x - z) * y == x * y - z * y;
  }

  lemma QuotientBelow(x: real, y: real, z: real)
    requires y > 0.0 && x < z * y
    ensures x / y < z
  {
    assert x / y * y == x;
    if x / y >= z {
      ProductKeepsOrder(x / y, y, z);
    }
  }

  lemma QuotientsOrdered(x: real, y: real, u: real, v: real)
    requires y > 0.0 && v > 0.0 && x * v < u * y
    ensures x / y < u / v
  {
    var q := u / v;
    assert q * v == u;
    assert u * y == q * y * v;
    if q * y <= x {
      ProductKeepsOrder(x, v, q * y);
    }
    QuotientBelow(x, y, q);
  }

  // ---- Scores ----

  function AvgLength(corpus: seq<Document>): real
    requires corpus != []
  {
    TotalLength(corpus, |corpus|) as real / |corpus| as real
  }

  lemma AvgPositive(corpus: seq<Document>, i: nat)
    requires i < |corpus| && corpus[i].tokens != []
    ensures AvgLength(corpus) > 0.0
  {
    TotalAtLeast(corpus, |corpus|, i);
    QuotientPositive(TotalLength(corpus, |corpus|) as real, |corpus| as real);
  }

  function IdfArgument(n: nat, count: nat): real
    requires count <= n
  {
    1.0 + ((n - count) as real + 0.5) / (count as real + 0.5)
  }

  function Idf(ln: Logarithm, corpus: seq<Document>, t: Token): real {
    ln(IdfArgument(|corpus|, DocCount(corpus, t, |corpus|)))
  }

  /** Every token has a positive weight, however many documents hold it. */
  lemma IdfPositive(ln: Logarithm, corpus: seq<Document>, t: Token)
    requires PositiveAboveOne(ln)
    ensures Idf(ln, corpus, t) > 0.0
  {
    var n, count := |corpus|, DocCount(corpus, t, |corpus|);
    QuotientPositive((n - count) as real + 0.5, count as real + 0.5);
  }

  function LengthShare(b: real, length: nat, avg: real): real
    requires avg > 0.0
  {
    b * length as real / avg
  }

  function RelativeLength(p: Params, length: nat, avg: real): real
    requires avg > 0.0
  {
    1.0 - p.b + LengthShare(p.b, length, avg)
  }

  /** The part of the denominator that grows with the length of the document. */
  function LengthNorm(p: Params, length: nat, avg: real): real
    requires avg > 0.0
  {
    p.k1 * RelativeLength(p, length, avg)
  }

  lemma RelativeLengthPositive(p: Params, length: nat, avg: real)
    requires Valid(p) && avg > 0.0 && length > 0
    ensures RelativeLength(p, length, avg) > 0.0
  {
    if p.b > 0.0 {
      ProductPositive(p.b, length as real);
      QuotientPositive(p.b * length as real, avg);
    }
  }

  lemma LengthNormSign(p: Params, length: nat, avg: real)
    requires Valid(p) && avg > 0.0 && length > 0
    ensures LengthNorm(p, length, avg) >= 0.0
    ensures LengthNorm(p, length, avg) > 0.0 <==> p.k1 > 0.0
  {
    RelativeLengthPositive(p, length, avg);
    ProductSign(p.k1, RelativeLength(p, length, avg), LengthNorm(p, length, avg));
  }

  /** How much a token that occurs f times counts, before its weight. */
  function Saturation(k1: real, f: nat, norm: real): real
    requires f as real + norm != 0.0
  {
    f as real * (k1 + 1.0) / (f as real + norm)
  }

  lemma SaturationPositive(k1: real, f: nat, norm: real)
    requires k1 >= 0.0 && f > 0 && norm >= 0.0
    ensures Saturation(k1, f, norm) > 0.0
  {
    ProductPositive(f as real, k1 + 1.0);
    QuotientPositive(f as real * (k1 + 1.0), f as real + norm);
  }

  /** Repeating a token never counts for more than k1 + 1 occurrences. */
  lemma SaturationBounded(k1: real, f: nat, norm: real)
    requires k1 >= 0.0 && f > 0 && norm > 0.0
    ensures Saturation(k1, f, norm) < k1 + 1.0
  {
    ProductPositive(k1 + 1.0, norm);
    assert (k1 + 1.0) * (f as real + norm) == f as real * (k1 + 1.0) + (k1 + 1.0) * norm;
    QuotientBelow(f as real * (k1 + 1.0), f as real + norm, k1 + 1.0);
  }

  lemma CrossProducts(x: real, y: real, c: real, norm: real, a: real, b: real, u: real, v: real)
    requires 0.0 < x < y && c > 0.0 && norm > 0.0
    requires a == x * c && b == x + norm && u == y * c && v == y + norm
    ensures a * v < u * b
  {
    ProductPositive(c, norm);
    ProductIncreases(c * norm, x, y);
    assert a * v == x * c * y + c * norm * x;
    assert u * b == x * c * y + c * norm * y;
  }

  lemma SaturationIncreases(k1: real, f: nat, g: nat, norm: real)
    requires k1 >= 0.0 && 0 < f < g && norm > 0.0
    ensures Saturation(k1, f, norm) < Saturation(k1, g, norm)
  {
    var x, y, c := f as real, g as real, k1 + 1.0;
    var a, b, u, v := x * c, x + norm, y * c, y + norm;
    CrossProducts(x, y, c, norm, a, b, u, v);
    QuotientsOrdered(a, b, u, v);
  }

  lemma SaturationFlat(k1: real, f: nat)
    requires k1 == 0.0 && f > 0
    ensures Saturation(k1, f, 0.0) == 1.0
  {
    assert f as real * (k1 + 1.0) == f as real;
    assert f as real / f as real == 1.0;
  }

  function Weighed(weight: real, k1: real, f: nat, norm: real): Option<real> {
    if f as real + norm == 0.0 then None else Some(weight * Saturation(k1, f, norm))
  }

  /** What a token adds to the score of a document that holds it f times, unless the denominator is zero. */
  function Term(p: Params, weight: real, f: nat, length: nat, avg: real): Option<real>
    requires avg > 0.0
  {
    if f == 0 then Some(0.0)
    else Weighed(weight, p.k1, f, LengthNorm(p, length, avg))
  }

  lemma TermSign(p: Params, weight: real, f: nat, length: nat, avg: real)
    requires Valid(p) && avg > 0.0 && length > 0 && weight > 0.0
    ensures var term := Term(p, weight, f, length, avg);
            term.Some? && term.value >= 0.0 && (term.value > 0.0 <==> f > 0)
  {
    var norm := LengthNorm(p, length, avg);
    LengthNormSign(p, length, avg);
    if f > 0 {
      SaturationPositive(p.k1, f, norm);
      ProductPositive(weight, Saturation(p.k1, f, norm));
    }
  }

  lemma TermRises(p: Params, weight: real, f: nat, g: nat, length: nat, avg: real)
    requires Valid(p) && p.k1 > 0.0 && avg > 0.0 && length > 0 && weight > 0.0 && f < g
    ensures var few, many := Term(p, weight, f, length, avg), Term(p, weight, g, length, avg);
            few.Some? && many.Some? && few.value < many.value
  {
    var norm := LengthNorm(p, length, avg);
    LengthNormSign(p, length, avg);
    if f == 0 {
      TermSign(p, weight, g, length, avg);
    } else {
      SaturationIncreases(p.k1, f, g, norm);
      ProductIncreases(weight, Saturation(p.k1, f, norm), Saturation(p.k1, g, norm));
    }
  }

  lemma TermBelowCeiling(p: Params, weight: real, f: nat, length: nat, avg: real)
    requires Valid(p) && p.k1 > 0.0 && avg > 0.0 && length > 0 && weight > 0.0
    ensures var term := Term(p, weight, f, length, avg);
            term.Some? && term.value < weight * (p.k1 + 1.0)
  {
    var norm := LengthNorm(p, length, avg);
    LengthNormSign(p, length, avg);
    if f == 0 {
      ProductPositive(weight, p.k1 + 1.0);
    } else {
      SaturationBounded(p.k1, f, norm);
      ProductIncreases(weight, Saturation(p.k1, f, norm), p.k1 + 1.0);
    }
  }

  /** Terms tell frequencies apart exactly when k1 is above zero. */
  lemma TermRisesIff(p: Params, weight: real, f: nat, g: nat, length: nat, avg: real)
    requires Valid(p) && avg > 0.0 && length > 0 && weight > 0.0 && 0 < f < g
    ensures var few, many := Term(p, weight, f, length, avg), Term(p, weight, g, length, avg);
            few.Some? && many.Some? && (few.value < many.value <==> p.k1 > 0.0)
  {
    LengthNormSign(p, length, avg);
    if p.k1 > 0.0 {
      TermRises(p, weight, f, g, length, avg);
    } else {
      SaturationFlat(p.k1, f);
      SaturationFlat(p.k1, g);
    }
  }

  function AddTerm(score: Option<real>, term: Option<real>): Option<real> {
    if score.None? || term.None? then None else Some(score.value + term.value)
  }

  /** The score of document i for the first n tokens of the query, unless a denominator is zero. */
  function Score(ln: Logarithm, p: Params, corpus: seq<Document>, i: nat, query: seq<Token>, n: nat): Option<real>
    requires i < |corpus| && n <= |query|
  {
    if n == 0 || corpus[i].tokens == [] then Some(0.0)
    else
      AvgPositive(corpus, i);
      AddTerm(Score(ln, p, corpus, i, query, n - 1),
              Term(p, Idf(ln, corpus, query[n - 1]), Frequency(corpus[i].tokens, query[n - 1]),
                   |corpus[i].tokens|, AvgLength(corpus)))
  }

  /** The document holds one of the first n tokens. */
  predicate Shares(doc: Document, query: seq<Token>, n: nat)
    requires n <= |query|
  {
    n > 0 && (Shares(doc, query, n - 1) || query[n - 1] in doc.tokens)
  }

  /** With parameters in range there is a score, above zero exactly when the document holds a token of the query. */
  lemma {:induction false} ScoreSign(ln: Logarithm, p: Params, corpus: seq<Document>, i: nat,
                                     query: seq<Token>, n: nat)
    requires PositiveAboveOne(ln) && Valid(p) && i < |corpus| && n <= |query|
    ensures var score := Score(ln, p, corpus, i, query, n);
            score.Some? && score.value >= 0.0 && (score.value > 0.0 <==> Shares(corpus[i], query, n))
  {
    if n > 0 {
      ScoreSign(ln, p, corpus, i, query, n - 1);
      var doc, t := corpus[i], query[n - 1];
      CountPositiveIff(doc.tokens, t, |doc.tokens|);
      if doc.tokens != [] {
        AvgPositive(corpus, i);
        IdfPositive(ln, corpus, t);
        TermSign(p, Idf(ln, corpus, t), Frequency(doc.tokens, t), |doc.tokens|, AvgLength(corpus));
      }
    }
  }

  // ---- Division by zero ----

  /** The scores of the first n documents. */
  function AllScores(ln: Logarithm, p: Params, query: seq<Token>, corpus: seq<Document>,
                     n: nat): (scores: Option<seq<real>>)
    requires n <= |corpus|
    ensures scores.Some? ==> |scores.value| == n
  {
    if n == 0 then Some([])
    else
      var before := AllScores(ln, p, query, corpus, n - 1);
      var score := Score(ln, p, corpus, n - 1, query, |query|);
      if before.None? || score.None? then None else Some(before.value + [score.value])
  }

  /** One of the first n tokens of the query occurs in the document just as often as makes its denominator zero. */
  ghost predicate Divides(p: Params, corpus: seq<Document>, i: nat, query: seq<Token>, n: nat)
    requires i < |corpus| && n <= |query|
  {
    && corpus[i].tokens != []
    && (AvgPositive(corpus, i);
        exists j | 0 <= j < n ::
          var f := Frequency(corpus[i].tokens, query[j]);
          f > 0 && f as real + LengthNorm(p, |corpus[i].tokens|, AvgLength(corpus)) == 0.0)
  }

  /** A score cannot be computed if and only if such a token comes up. */
  lemma {:induction false} NoScoreIff(ln: Logarithm, p: Params, corpus: seq<Document>, i: nat, query: seq<Token>,
                                      n: nat)
    requires i < |corpus| && n <= |query|
    ensures Score(ln, p, corpus, i, query, n).None? <==> Divides(p, corpus, i, query, n)
  {
    if n > 0 && corpus[i].tokens != [] {
      NoScoreIff(ln, p, corpus, i, query, n - 1);
      AvgPositive(corpus, i);
    }
  }

  lemma {:induction false} EachScore(ln: Logarithm, p: Params, query: seq<Token>, corpus: seq<Document>, n: nat, i: nat)
    requires i < n <= |corpus| && AllScores(ln, p, query, corpus, n).Some?
    ensures Score(ln, p, corpus, i, query, |query|) == Some(AllScores(ln, p, query, corpus, n).value[i])
  {
    if i < n - 1 {
      EachScore(ln, p, query, corpus, n - 1, i);
    }
  }

  lemma {:induction false} FailingScore(ln: Logarithm, p: Params, query: seq<Token>, corpus: seq<Document>, n: nat)
        returns (i: nat)
    requires n <= |corpus| && AllScores(ln, p, query, corpus, n).None?
    ensures i < n && Score(ln, p, corpus, i, query, |query|).None?
  {
    i := n - 1;
    if Score(ln, p, corpus, n - 1, query, |query|).Some? {
      i := FailingScore(ln, p, query, corpus, n - 1);
    }
  }

  lemma {:induction false} NoScoresAtAll(ln: Logarithm, p: Params, query: seq<Token>, corpus: seq<Document>, n: nat)
    requires n <= |corpus| && AllScores(ln, p, query, corpus, n).None?
    ensures AllScores(ln, p, query, corpus, |corpus|).None?
    decreases |corpus| - n
  {
    if n < |corpus| {
      NoScoresAtAll(ln, p, query, corpus, n + 1);
    }
  }

  /** Scores can be computed if and only if none of the documents divides by zero. */
  lemma ComputesIff(ln: Logarithm, p: Params, query: seq<Token>, corpus: seq<Document>)
    ensures AllScores(ln, p, query, corpus, |corpus|).None?
            <==> exists i | 0 <= i < |corpus| :: Divides(p, corpus, i, query, |query|)
  {
    if AllScores(ln, p, query, corpus, |corpus|).None? {
      var i := FailingScore(ln, p, query, corpus, |corpus|);
      NoScoreIff(ln, p, corpus, i, query, |query|);
    } else {
      forall i | 0 <= i < |corpus|
        ensures !Divides(p, corpus, i, query, |query|)
      {
        EachScore(ln, p, query, corpus, |corpus|, i);
        NoScoreIff(ln, p, corpus, i, query, |query|);
      }
    }
  }

  /** With k1 not negative and b between 0 and 1 nothing divides by zero. */
  lemma ValidNeverDivides(p: Params, corpus: seq<Document>, i: nat, query: seq<Token>)
    requires Valid(p) && i < |corpus|
    ensures !Divides(p, corpus, i, query, |query|)
  {
    if corpus[i].tokens != [] {
      AvgPositive(corpus, i);
      LengthNormSign(p, |corpus[i].tokens|, AvgLength(corpus));
    }
  }

  /** With k1 at -1 and b at 0 a token that occurs once divides by zero, whatever the documents. */
  lemma MinusOneDivides(corpus: seq<Document>, i: nat, query: seq<Token>, j: nat)
    requires i < |corpus| && j < |query| && Frequency(corpus[i].tokens, query[j]) == 1
    ensures Divides(Params(-1.0, 0.0), corpus, i, query, |query|)
  {
    AvgPositive(corpus, i);
    assert LengthNorm(Params(-1.0, 0.0), |corpus[i].tokens|, AvgLength(corpus)) == -1.0;
  }

  /** No result is the exception of a division by zero. */
  method ComputeBm25(ln: Logarithm, p: Params, query: seq<Token>, corpus: seq<Document>)
    returns (scores: Option<seq<real>>)
    ensures scores == if corpus == [] then None else AllScores(ln, p, query, corpus, |corpus|)
  {
    if corpus == [] {
      return None;
    }
    var avg := AvgLength(corpus);
    var unique := set t | t in query;
    var idf := map[];
    var rest := unique;
    while rest != {}
      invariant rest <= unique && idf.Keys == unique - rest
      invariant forall t | t in idf :: idf[t] == Idf(ln, corpus, t)
      decreases |rest|
    {
      var t :| t in rest;
      var docCount := DocCount(corpus, t, |corpus|);
      idf := idf[t := ln(1.0 + ((|corpus| - docCount) as real + 0.5) / (docCount as real + 0.5))];
      rest := rest - {t};
    }
    var list := [];
    for i := 0 to |corpus|
      invariant AllScores(ln, p, query, corpus, i) == Some(list)
    {
      var score := ScoreDocument(ln, p, query, corpus, i, avg, idf);
      if score.None? {
        NoScoresAtAll(ln, p, query, corpus, i + 1);
        return None;
      }
      list := list + [score.value];
    }
    scores := Some(list);
  }

  /** The body of the loop over the documents. */
  method ScoreDocument(ln: Logarithm, p: Params, query: seq<Token>, corpus: seq<Document>, i: nat,
                       avg: real, idf: map<Token, real>)
    returns (score: Option<real>)
    requires i < |corpus| && avg == AvgLength(corpus)
    requires forall t | t in query :: t in idf && idf[t] == Idf(ln, corpus, t)
    ensures score == Score(ln, p, corpus, i, query, |query|)
  {
    var doc := corpus[i].tokens;
    var length := |doc|;
    if length == 0 {
      return Some(0.0);
    }
    AvgPositive(corpus, i);
    var freq := TokenFrequency(doc);
    var sum := 0.0;
    for j := 0 to |query|
      invariant Score(ln, p, corpus, i, query, j) == Some(sum)
    {
      var t := query[j];
      var f := if t in freq then freq[t] else 0;
      var term := Term(p, idf[t], f, length, avg);
      if term.None? {
        NoScoreAtAll(ln, p, corpus, i, query, j + 1);
        return None;
      }
      sum := sum + term.value;
    }
    score := Some(sum);
  }

  /** Once a denominator is zero the rest does not matter. */
  lemma {:induction false} NoScoreAtAll(ln: Logarithm, p: Params, corpus: seq<Document>, i: nat, query: seq<Token>,
                                        n: nat)
    requires i < |corpus| && n <= |query| && Score(ln, p, corpus, i, query, n).None?
    ensures Score(ln, p, corpus, i, query, |query|).None?
    decreases |query| - n
  {
    if n < |query| {
      NoScoreAtAll(ln, p, corpus, i, query, n + 1);
    }
  }

  // ---- Ranking ----

  datatype Ranked = Ranked(doc: Document, score: real)

  /** After everything that scores at least as much. */
  function Insert(ranking: seq<Ranked>, r: Ranked): seq<Ranked> {
    if ranking == [] || ranking[0].score < r.score then [r] + ranking
    else [ranking[0]] + Insert(ranking[1..], r)
  }

  /** sorted(list, key=lambda x: -x[1]), which keeps equal scores in their order. */
  function StableSort(list: seq<Ranked>): seq<Ranked> {
    SortFirst(list, |list|)
  }

  function SortFirst(list: seq<Ranked>, n: nat): seq<Ranked>
    requires n <= |list|
  {
    if n == 0 then [] else Insert(SortFirst(list, n - 1), list[n - 1])
  }

  predicate Descending(ranking: seq<Ranked>) {
    |ranking| < 2 || (ranking[0].score >= ranking[1].score && Descending(ranking[1..]))
  }

  /** The entries with one score, in their order. */
  function WithScore(list: seq<Ranked>, score: real): seq<Ranked> {
    if list == [] then []
    else (if list[0].score == score then [list[0]] else []) + WithScore(list[1..], score)
  }

  lemma {:induction false} InsertDescending(ranking: seq<Ranked>, r: Ranked)
    requires Descending(ranking)
    ensures Descending(Insert(ranking, r))
    ensures multiset(Insert(ranking, r)) == multiset(ranking) + multiset{r}
  {
    if ranking == [] || ranking[0].score < r.score {
      assert ([r] + ranking)[1..] == ranking;
    } else {
      var rest := Insert(ranking[1..], r);
      InsertDescending(ranking[1..], r);
      assert ([ranking[0]] + rest)[1..] == rest;
      assert ranking == [ranking[0]] + ranking[1..];
    }
  }

  lemma {:induction false} WithScoreLast(list: seq<Ranked>, r: Ranked, score: real)
    ensures WithScore(list + [r], score)
         == WithScore(list, score) + (if r.score == score then [r] else [])
  {
    if list == [] {
      assert [] + [r] == [r];
    } else {
      WithScoreLast(list[1..], r, score);
      assert (list + [r])[1..] == list[1..] + [r];
    }
  }

  lemma {:induction false} NoneAbove(ranking: seq<Ranked>, score: real)
    requires Descending(ranking) && (ranking == [] || ranking[0].score < score)
    ensures WithScore(ranking, score) == []
  {
    if ranking != [] {
      NoneAbove(ranking[1..], score);
    }
  }

  lemma {:induction false} InsertStable(ranking: seq<Ranked>, r: Ranked, score: real)
    requires Descending(ranking)
    ensures WithScore(Insert(ranking, r), score) == WithScore(ranking + [r], score)
  {
    WithScoreLast(ranking, r, score);
    if ranking == [] || ranking[0].score < r.score {
      assert ([r] + ranking)[1..] == ranking;
      if r.score == score {
        NoneAbove(ranking, score);
      }
    } else {
      InsertStable(ranking[1..], r, score);
      WithScoreLast(ranking[1..], r, score);
      assert ([ranking[0]] + Insert(ranking[1..], r))[1..] == Insert(ranking[1..], r);
    }
  }

  lemma FirstEntries(list: seq<Ranked>, n: nat)
    requires 0 < n <= |list|
    ensures list[..n] == list[..n - 1] + [list[n - 1]]
    ensures multiset(list[..n]) == multiset(list[..n - 1]) + multiset{list[n - 1]}
  {
    assert list[..n] == list[..n - 1] + [list[n - 1]];
  }

  lemma {:induction false} SortFirstSorts(list: seq<Ranked>, n: nat)
    requires n <= |list|
    ensures Descending(SortFirst(list, n)) && multiset(SortFirst(list, n)) == multiset(list[..n])
  {
    if n > 0 {
      SortFirstSorts(list, n - 1);
      InsertDescending(SortFirst(list, n - 1), list[n - 1]);
      FirstEntries(list, n);
    }
  }

  lemma {:induction false} SortFirstIsStable(list: seq<Ranked>, n: nat, score: real)
    requires n <= |list|
    ensures WithScore(SortFirst(list, n), score) == WithScore(list[..n], score)
  {
    if n > 0 {
      SortFirstIsStable(list, n - 1, score);
      SortFirstSorts(list, n - 1);
      InsertStable(SortFirst(list, n - 1), list[n - 1], score);
      WithScoreLast(SortFirst(list, n - 1), list[n - 1], score);
      WithScoreLast(list[..n - 1], list[n - 1], score);
      FirstEntries(list, n);
    }
  }

  /** Sorting gives a permutation in descending order that keeps equal scores in their order. */
  lemma StableSortSorts(list: seq<Ranked>)
    ensures Descending(StableSort(list)) && multiset(StableSort(list)) == multiset(list)
    ensures SameByScore(StableSort(list), list)
  {
    assert list[..|list|] == list;
    SortFirstSorts(list, |list|);
    forall score
      ensures WithScore(StableSort(list), score) == WithScore(list, score)
    {
      SortFirstIsStable(list, |list|, score);
    }
  }

  ghost predicate SameByScore(a: seq<Ranked>, b: seq<Ranked>) {
    forall score :: WithScore(a, score) == WithScore(b, score)
  }

  lemma SomeWithScore(list: seq<Ranked>)
    requires list != []
    ensures WithScore(list, list[0].score) != [] && WithScore(list, list[0].score)[0] == list[0]
  {
  }

  lemma TopScoresAgree(a: seq<Ranked>, b: seq<Ranked>)
    requires Descending(a) && Descending(b) && SameByScore(a, b) && a != []
    ensures b != [] && b[0].score >= a[0].score
  {
    SomeWithScore(a);
    assert WithScore(a, a[0].score) == WithScore(b, a[0].score);
    if b == [] || b[0].score < a[0].score {
      NoneAbove(b, a[0].score);
    }
  }

  lemma TailWithScore(list: seq<Ranked>, score: real)
    requires list != []
    ensures list[0].score == score ==> WithScore(list, score) != []
    ensures WithScore(list[1..], score)
         == if list[0].score == score then WithScore(list, score)[1..] else WithScore(list, score)
  {
  }

  lemma TailsAgree(a: seq<Ranked>, b: seq<Ranked>)
    requires a != [] && b != [] && a[0] == b[0] && SameByScore(a, b)
    ensures SameByScore(a[1..], b[1..])
  {
    forall score
      ensures WithScore(a[1..], score) == WithScore(b[1..], score)
    {
      assert WithScore(a, score) == WithScore(b, score);
      TailWithScore(a, score);
      TailWithScore(b, score);
    }
  }

  /** There is only one stable descending order of the same entries. */
  lemma {:induction false} StableOrderUnique(a: seq<Ranked>, b: seq<Ranked>)
    requires Descending(a) && Descending(b) && SameByScore(a, b)
    ensures a == b
  {
    if a == [] {
      if b != [] {
        TopScoresAgree(b, a);
      }
    } else {
      TopScoresAgree(a, b);
      TopScoresAgree(b, a);
      SomeWithScore(a);
      SomeWithScore(b);
      assert WithScore(a, a[0].score) == WithScore(b, a[0].score);
      TailsAgree(a, b);
      StableOrderUnique(a[1..], b[1..]);
      assert a == [a[0]] + a[1..] && b == [b[0]] + b[1..];
    }
  }

  function Unscored(results: seq<Document>): (list: seq<Ranked>)
    ensures |list| == |results|
    ensures forall i | 0 <= i < |results| :: list[i] == Ranked(results[i], 0.0)
  {
    if results == [] then []
    else Unscored(results[..|results| - 1]) + [Ranked(results[|results| - 1], 0.0)]
  }

  /** zip(results, scores) for the first n results. */
  function Zip(results: seq<Document>, scores: seq<real>, n: nat): (list: seq<Ranked>)
    requires n <= |results| == |scores|
    ensures |list| == n
    ensures forall i | 0 <= i < n :: list[i] == Ranked(results[i], scores[i])
  {
    if n == 0 then [] else Zip(results, scores, n - 1) + [Ranked(results[n - 1], scores[n - 1])]
  }

  /** The ranking, or nothing if a division by zero ends the call. */
  function Reranked(ln: Logarithm, p: Params, query: seq<Token>, results: seq<Document>): Option<seq<Ranked>> {
    if |results| <= 1 || query == [] then Some(Unscored(results))
    else
      var scores := AllScores(ln, p, query, results, |results|);
      if scores.None? then None else Some(StableSort(Zip(results, scores.value, |results|)))
  }

  /** Reranking raises exactly when there is something to rank and a document divides by zero. */
  lemma RerankRaisesIff(ln: Logarithm, p: Params, query: seq<Token>, results: seq<Document>)
    ensures Reranked(ln, p, query, results).None?
            <==> |results| >= 2 && exists i | 0 <= i < |results| :: Divides(p, results, i, query, |query|)
  {
    ComputesIff(ln, p, query, results);
  }

  method RerankWithScores(ln: Logarithm, p: Params, query: seq<Token>, results: seq<Document>)
    returns (ranking: Option<seq<Ranked>>)
    ensures ranking == Reranked(ln, p, query, results)
  {
    if |results| <= 1 || query == [] {
      return Some(Unscored(results));
    }
    var scores := ComputeBm25(ln, p, query, results);
    if scores.None? {
      return None;
    }
    var list := [];
    for i := 0 to |results|
      invariant list == Zip(results, scores.value, i)
    {
      list := list + [Ranked(results[i], scores.value[i])];
    }
    ranking := Some(StableSort(list));
  }

  lemma {:induction false} DescendingAt(ranking: seq<Ranked>, i: nat, j: nat)
    requires Descending(ranking) && i <= j < |ranking|
    ensures ranking[i].score >= ranking[j].score
  {
    if i > 0 {
      DescendingAt(ranking[1..], i - 1, j - 1);
    } else if j > 0 {
      DescendingAt(ranking[1..], 0, j - 1);
    }
  }

  /** No document that shares a token with the query comes after one that shares none. */
  ghost predicate SharersFirst(ranking: seq<Ranked>, query: seq<Token>) {
    forall i, j | 0 <= i <= j < |ranking| && Shares(ranking[j].doc, query, |query|) ::
        Shares(ranking[i].doc, query, |query|)
  }

  /** With two or more results and a query there is a ranking, in which the documents that share a token come first. */
  lemma SharersComeFirst(ln: Logarithm, p: Params, query: seq<Token>, results: seq<Document>)
    requires PositiveAboveOne(ln) && Valid(p) && |results| >= 2 && query != []
    ensures Reranked(ln, p, query, results).Some? && SharersFirst(Reranked(ln, p, query, results).value, query)
  {
    ValidRanks(ln, p, query, results);
    var list := Zip(results, AllScores(ln, p, query, results, |results|).value, |results|);
    var ranking := StableSort(list);
    StableSortSorts(list);
    forall i, j | 0 <= i <= j < |ranking| && Shares(ranking[j].doc, query, |query|)
      ensures Shares(ranking[i].doc, query, |query|)
    {
      DescendingAt(ranking, i, j);
      PositiveIffShares(ln, p, query, results, list, ranking[i]);
      PositiveIffShares(ln, p, query, results, list, ranking[j]);
    }
  }

  lemma ValidRanks(ln: Logarithm, p: Params, query: seq<Token>, results: seq<Document>)
    requires Valid(p)
    ensures AllScores(ln, p, query, results, |results|).Some?
  {
    ComputesIff(ln, p, query, results);
    forall i | 0 <= i < |results|
      ensures !Divides(p, results, i, query, |query|)
    {
      ValidNeverDivides(p, results, i, query);
    }
  }

  lemma PositiveIffShares(ln: Logarithm, p: Params, query: seq<Token>, results: seq<Document>, list: seq<Ranked>,
                          r: Ranked)
    requires PositiveAboveOne(ln) && Valid(p) && AllScores(ln, p, query, results, |results|).Some?
    requires list == Zip(results, AllScores(ln, p, query, results, |results|).value, |results|)
    requires r in multiset(list)
    ensures r.score > 0.0 <==> Shares(r.doc, query, |query|)
  {
    assert r in list;
    var k :| 0 <= k < |list| && list[k] == r;
    EachScore(ln, p, query, results, |results|, k);
    ScoreSign(ln, p, results, k, query, |query|);
  }
}
