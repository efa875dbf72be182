/**
 What makes one document rank above another: rare tokens weigh more than common ones, a token counts
 for less in a longer document, and the tokens of a query add up.
*/
module Bm25Ranking {
  import opened Wrappers
  import opened Bm25

  /** Strictly increasing, as a logarithm is. */
  ghost predicate Increasing(ln: Logarithm) {
    forall x, y | 0.0 < x < y :: ln(x) < ln(y)
  }

  // ---- The weight of a token ----

  /** The numbers of the documents that hold the token. */
  function Holders(corpus: seq<Document>, t: Token, n: nat): set<nat>
    requires n <= |corpus|
  {
    set i: nat | i < n && t in corpus[i].tokens
  }

  lemma {:induction false} DocCountIsHolders(corpus: seq<Document>, t: Token, n: nat)
    requires n <= |corpus|
    ensures DocCount(corpus, t, n) == |Holders(corpus, t, n)|
  {
    if n > 0 {
      DocCountIsHolders(corpus, t, n - 1);
      var before, holders := Holders(corpus, t, n - 1), Holders(corpus, t, n);
      if t in corpus[n - 1].tokens {
        assert holders == before + {n - 1};
      } else {
        assert holders == before;
      }
    }
  }

  /** The argument of the logarithm is (2n + 2) / (2c + 1) for a token in c of n documents. */
  lemma IdfArgumentIs(n: nat, c: nat)
    requires c <= n
    ensures IdfArgument(n, c) * (2 * c + 1) as real == (2 * (n + 1)) as real
  {
    var q, d := ((n - c) as real + 0.5) / (c as real + 0.5), c as real + 0.5;
    assert q * d == (n - c) as real + 0.5;
    assert (1.0 + q) * (2.0 * d) == 2.0 * d + 2.0 * (q * d);
  }

  lemma IdfArgumentFalls(n: nat, c: nat, d: nat)
    requires c < d <= n
    ensures 0.0 < IdfArgument(n, d) < IdfArgument(n, c)
  {
    QuotientPositive((n - d) as real + 0.5, d as real + 0.5);
    var x, y, u, v := (n - d) as real + 0.5, d as real + 0.5, (n - c) as real + 0.5, c as real + 0.5;
    ProductKeepsOrder(u, v, x);
    ProductIncreases(u, v, y);
    QuotientsOrdered(x, y, u, v);
  }

  /** Of two tokens the one held by fewer documents weighs more, and only then. */
  lemma RarerWeighsMoreIff(ln: Logarithm, corpus: seq<Document>, a: Token, b: Token)
    requires Increasing(ln)
    ensures Idf(ln, corpus, a) > Idf(ln, corpus, b)
            <==> |Holders(corpus, a, |corpus|)| < |Holders(corpus, b, |corpus|)|
  {
    var n := |corpus|;
    DocCountIsHolders(corpus, a, n);
    DocCountIsHolders(corpus, b, n);
    var c, d := DocCount(corpus, a, n), DocCount(corpus, b, n);
    if c < d {
      IdfArgumentFalls(n, c, d);
    } else if d < c {
      IdfArgumentFalls(n, d, c);
    }
  }

  // ---- The length of the document ----

  lemma LengthShareRises(b: real, short: nat, long: nat, avg: real)
    requires b > 0.0 && avg > 0.0 && short < long
    ensures LengthShare(b, short, avg) < LengthShare(b, long, avg)
  {
    var x, y := b * short as real, b * long as real;
    ProductIncreases(b, short as real, long as real);
    ProductIncreases(avg, x, y);
    QuotientsOrdered(x, avg, y, avg);
  }

  lemma NoLengthShare(length: nat, avg: real)
    requires avg > 0.0
    ensures LengthShare(0.0, length, avg) == 0.0
  {
    assert 0.0 / avg == 0.0;
  }

  lemma SaturationFalls(k1: real, f: nat, norm: real, more: real)
    requires k1 >= 0.0 && f > 0 && 0.0 <= norm < more
    ensures Saturation(k1, f, more) < Saturation(k1, f, norm)
  {
    var x := f as real * (k1 + 1.0);
    ProductPositive(f as real, k1 + 1.0);
    ProductIncreases(x, f as real + norm, f as real + more);
    QuotientsOrdered(x, f as real + more, x, f as real + norm);
  }

  lemma LengthNormRises(p: Params, short: nat, long: nat, avg: real)
    requires Valid(p) && avg > 0.0 && short < long
    ensures p.k1 > 0.0 && p.b > 0.0 ==> LengthNorm(p, short, avg) < LengthNorm(p, long, avg)
    ensures p.k1 == 0.0 || p.b == 0.0 ==> LengthNorm(p, short, avg) == LengthNorm(p, long, avg)
  {
    if p.b > 0.0 {
      LengthShareRises(p.b, short, long, avg);
      if p.k1 > 0.0 {
        ProductIncreases(p.k1, RelativeLength(p, short, avg), RelativeLength(p, long, avg));
      }
    } else {
      NoLengthShare(short, avg);
      NoLengthShare(long, avg);
    }
  }

  lemma WeighedFalls(weight: real, k1: real, f: nat, norm: real, more: real)
    requires k1 >= 0.0 && f > 0 && weight > 0.0 && 0.0 <= norm < more
    ensures var high, low := Weighed(weight, k1, f, norm), Weighed(weight, k1, f, more);
            high.Some? && low.Some? && low.value < high.value
  {
    SaturationFalls(k1, f, norm, more);
    ProductIncreases(weight, Saturation(k1, f, more), Saturation(k1, f, norm));
  }

  /** A token counts for less in a longer document exactly when both parameters are above zero. */
  lemma TermFallsIff(p: Params, weight: real, f: nat, short: nat, long: nat, avg: real)
    requires Valid(p) && avg > 0.0 && 0 < short < long && weight > 0.0 && f > 0
    ensures var high, low := Term(p, weight, f, short, avg), Term(p, weight, f, long, avg);
            && high.Some? && low.Some? && low.value <= high.value
            && (low.value < high.value <==> p.k1 > 0.0 && p.b > 0.0)
  {
    var norm, more := LengthNorm(p, short, avg), LengthNorm(p, long, avg);
    LengthNormSign(p, short, avg);
    LengthNormRises(p, short, long, avg);
    if p.k1 > 0.0 && p.b > 0.0 {
      WeighedFalls(weight, p.k1, f, norm, more);
    }
  }

  lemma SameFactor(x: real, y: real, z: real)
    requires z > 0.0 && z * x == z * y
    ensures x == y
  {
    if x < y {
      ProductIncreases(z, x, y);
    } else if y < x {
      ProductIncreases(z, y, x);
    }
  }

  lemma ShareOfAverage(b: real, length: nat, avg: real)
    requires avg > 0.0 && avg == length as real
    ensures LengthShare(b, length, avg) == b
  {
    var share, product := LengthShare(b, length, avg), b * length as real;
    assert share == product / avg;
    assert product / avg * avg == product == b * avg;
    SameFactor(share, b, avg);
  }

  lemma OverItself(x: real)
    requires x != 0.0
    ensures x / x == 1.0
  {
  }

  lemma SaturationOnce(k1: real, x: real)
    requires x == 1.0 + k1 && x != 0.0
    ensures Saturation(k1, 1, k1) == 1.0
  {
    OverItself(x);
    assert 1 as real * (k1 + 1.0) == x;
  }

  lemma WeighedOnce(weight: real, k1: real)
    requires k1 != -1.0
    ensures Weighed(weight, k1, 1, k1).Some? && Weighed(weight, k1, 1, k1).value == weight
  {
    SaturationOnce(k1, 1.0 + k1);
    assert weight * Saturation(k1, 1, k1) == weight;
  }

  /** In a document of average length a token that occurs once adds just its weight. */
  lemma TermAtAverage(p: Params, weight: real, length: nat, avg: real)
    requires p.k1 != -1.0 && avg > 0.0 && avg == length as real
    ensures Term(p, weight, 1, length, avg).Some? && Term(p, weight, 1, length, avg).value == weight
  {
    ShareOfAverage(p.b, length, avg);
    assert RelativeLength(p, length, avg) == 1.0;
    assert LengthNorm(p, length, avg) == p.k1;
    WeighedOnce(weight, p.k1);
  }

  // ---- The tokens of a query ----

  lemma ScoreStep(ln: Logarithm, p: Params, corpus: seq<Document>, i: nat, query: seq<Token>, n: nat)
    requires i < |corpus| && 0 < n <= |query| && corpus[i].tokens != [] && AvgLength(corpus) > 0.0
    ensures Score(ln, p, corpus, i, query, n)
         == AddTerm(Score(ln, p, corpus, i, query, n - 1),
                    Term(p, Idf(ln, corpus, query[n - 1]), Frequency(corpus[i].tokens, query[n - 1]),
                         |corpus[i].tokens|, AvgLength(corpus)))
  {
  }

  lemma AddTermAssoc(a: Option<real>, b: Option<real>, c: Option<real>)
    ensures AddTerm(AddTerm(a, b), c) == AddTerm(a, AddTerm(b, c))
  {
  }

  lemma {:induction false} ScorePrefix(ln: Logarithm, p: Params, corpus: seq<Document>, i: nat, a: seq<Token>,
                                       b: seq<Token>, n: nat)
    requires i < |corpus| && n <= |a|
    ensures Score(ln, p, corpus, i, a + b, n) == Score(ln, p, corpus, i, a, n)
  {
    if n > 0 && corpus[i].tokens != [] {
      AvgPositive(corpus, i);
      ScorePrefix(ln, p, corpus, i, a, b, n - 1);
      ScoreStep(ln, p, corpus, i, a + b, n);
      ScoreStep(ln, p, corpus, i, a, n);
      assert (a + b)[n - 1] == a[n - 1];
    }
  }

  /** The score for one query and then the first tokens of another is the sum of the scores for the two. */
  lemma {:induction false} ScoresAdd(ln: Logarithm, p: Params, corpus: seq<Document>, i: nat, a: seq<Token>,
                                     b: seq<Token>, n: nat)
    requires i < |corpus| && n <= |b|
    ensures Score(ln, p, corpus, i, a + b, |a| + n)
         == AddTerm(Score(ln, p, corpus, i, a, |a|), Score(ln, p, corpus, i, b, n))
  {
    if n == 0 || corpus[i].tokens == [] {
      ScorePrefix(ln, p, corpus, i, a, b, |a|);
    } else {
      AvgPositive(corpus, i);
      ScoresAdd(ln, p, corpus, i, a, b, n - 1);
      ScoreStep(ln, p, corpus, i, a + b, |a| + n);
      ScoreStep(ln, p, corpus, i, b, n);
      assert (a + b)[|a| + n - 1] == b[n - 1];
      AddTermAssoc(Score(ln, p, corpus, i, a, |a|), Score(ln, p, corpus, i, b, n - 1),
                   Term(p, Idf(ln, corpus, b[n - 1]), Frequency(corpus[i].tokens, b[n - 1]), |corpus[i].tokens|,
                        AvgLength(corpus)));
    }
  }

  /** The document holds the k-th token of the query once and no other. */
  ghost predicate HoldsOnly(doc: Document, query: seq<Token>, k: nat) {
    && k < |query| && Frequency(doc.tokens, query[k]) == 1
    && forall m | 0 <= m < |query| && m != k :: query[m] !in doc.tokens
  }

  lemma HolderIsNotEmpty(doc: Document, query: seq<Token>, k: nat)
    requires HoldsOnly(doc, query, k)
    ensures doc.tokens != []
  {
    CountPositiveIff(doc.tokens, query[k], |doc.tokens|);
  }

  lemma {:induction false} ScoreOfOne(ln: Logarithm, p: Params, corpus: seq<Document>, i: nat, query: seq<Token>,
                                      n: nat, k: nat)
    requires i < |corpus| && n <= |query| && HoldsOnly(corpus[i], query, k)
    requires corpus[i].tokens != [] && AvgLength(corpus) > 0.0
    ensures var term := Term(p, Idf(ln, corpus, query[k]), 1, |corpus[i].tokens|, AvgLength(corpus));
            Score(ln, p, corpus, i, query, n) == if n <= k then Some(0.0) else term
  {
    if n > 0 {
      ScoreOfOne(ln, p, corpus, i, query, n - 1, k);
      ScoreStep(ln, p, corpus, i, query, n);
      if n - 1 != k {
        CountPositiveIff(corpus[i].tokens, query[n - 1], |corpus[i].tokens|);
      }
    }
  }

  lemma {:induction false} TotalOfEqual(corpus: seq<Document>, length: nat, n: nat)
    requires n <= |corpus| && forall i | 0 <= i < n :: |corpus[i].tokens| == length
    ensures TotalLength(corpus, n) == n * length
  {
    if n > 0 {
      TotalOfEqual(corpus, length, n - 1);
    }
  }

  /** Documents of one length have that average length. */
  lemma AverageOfEqual(corpus: seq<Document>, length: nat)
    requires corpus != [] && forall i | 0 <= i < |corpus| :: |corpus[i].tokens| == length
    ensures AvgLength(corpus) == length as real
  {
    TotalOfEqual(corpus, length, |corpus|);
    var total, n := TotalLength(corpus, |corpus|) as real, |corpus| as real;
    assert total / n * n == total == n * length as real;
    SameFactor(total / n, length as real, n);
  }

  /** Among results of one length, a document that holds one token of the query once scores just its weight. */
  lemma ScoreAmongEqual(ln: Logarithm, p: Params, corpus: seq<Document>, i: nat, query: seq<Token>, k: nat)
    requires i < |corpus| && HoldsOnly(corpus[i], query, k) && p.k1 != -1.0
    requires forall j | 0 <= j < |corpus| :: |corpus[j].tokens| == |corpus[i].tokens|
    ensures var score := Score(ln, p, corpus, i, query, |query|);
            score.Some? && score.value == Idf(ln, corpus, query[k])
  {
    HolderIsNotEmpty(corpus[i], query, k);
    AverageOfEqual(corpus, |corpus[i].tokens|);
    ScoreOfOne(ln, p, corpus, i, query, |query|, k);
    TermAtAverage(p, Idf(ln, corpus, query[k]), |corpus[i].tokens|, AvgLength(corpus));
  }

  // ---- Ranking ----

  /** Wherever these documents are in the ranking, the first is above the second. */
  ghost predicate Above(ranking: seq<Ranked>, a: Document, b: Document) {
    forall x, y | 0 <= x < |ranking| && 0 <= y < |ranking| && ranking[x].doc == a && ranking[y].doc == b :: x < y
  }

  /** Equal documents have equal scores. */
  lemma {:induction false} ScoreOfEqual(ln: Logarithm, p: Params, corpus: seq<Document>, i: nat, j: nat,
                                        query: seq<Token>, n: nat)
    requires i < |corpus| && j < |corpus| && corpus[i] == corpus[j] && n <= |query|
    ensures Score(ln, p, corpus, i, query, n) == Score(ln, p, corpus, j, query, n)
  {
    if n > 0 && corpus[i].tokens != [] {
      AvgPositive(corpus, i);
      ScoreOfEqual(ln, p, corpus, i, j, query, n - 1);
      ScoreStep(ln, p, corpus, i, query, n);
      ScoreStep(ln, p, corpus, j, query, n);
    }
  }

  lemma RankedScore(ln: Logarithm, p: Params, query: seq<Token>, results: seq<Document>, list: seq<Ranked>,
                    ranking: seq<Ranked>, x: nat, i: nat)
    requires AllScores(ln, p, query, results, |results|).Some?
    requires list == Zip(results, AllScores(ln, p, query, results, |results|).value, |results|)
    requires multiset(ranking) == multiset(list) && x < |ranking| && i < |results| && ranking[x].doc == results[i]
    ensures Score(ln, p, results, i, query, |query|) == Some(ranking[x].score)
  {
    MemberOfRanking(ranking, list, x);
    var k :| 0 <= k < |list| && list[k] == ranking[x];
    EachScore(ln, p, query, results, |results|, k);
    ScoreOfEqual(ln, p, results, k, i, query, |query|);
  }

  lemma MemberOfRanking(ranking: seq<Ranked>, list: seq<Ranked>, x: nat)
    requires multiset(ranking) == multiset(list) && x < |ranking|
    ensures ranking[x] in list
  {
    assert ranking[x] in multiset(ranking);
  }

  /** A single result, or a query without tokens, leaves the results as they are, with no score. */
  lemma NothingToRank(ln: Logarithm, p: Params, query: seq<Token>, results: seq<Document>)
    requires |results| <= 1 || query == []
    ensures var ranking := Reranked(ln, p, query, results);
            && ranking.Some? && |ranking.value| == |results|
            && forall i | 0 <= i < |results| :: ranking.value[i] == Ranked(results[i], 0.0)
  {
  }

  /** The ranking is the results, each with its score, in descending order, equal scores in the order given. */
  lemma RankingIsSorted(ln: Logarithm, p: Params, query: seq<Token>, results: seq<Document>)
      returns (list: seq<Ranked>)
    requires |results| >= 2 && query != [] && Reranked(ln, p, query, results).Some?
    ensures |list| == |results|
    ensures forall i | 0 <= i < |list| ::
              list[i].doc == results[i] && Score(ln, p, results, i, query, |query|) == Some(list[i].score)
    ensures var ranking := Reranked(ln, p, query, results).value;
            Descending(ranking) && multiset(ranking) == multiset(list) && SameByScore(ranking, list)
  {
    list := Zip(results, AllScores(ln, p, query, results, |results|).value, |results|);
    StableSortSorts(list);
    forall i | 0 <= i < |list|
      ensures Score(ln, p, results, i, query, |query|) == Some(list[i].score)
    {
      EachScore(ln, p, query, results, |results|, i);
    }
  }

  /** The document with the higher score is above. */
  lemma HigherScoreAbove(ln: Logarithm, p: Params, query: seq<Token>, results: seq<Document>, i: nat, j: nat,
                         high: real, low: real)
    requires |results| >= 2 && query != [] && Reranked(ln, p, query, results).Some?
    requires i < |results| && j < |results| && low < high
    requires Score(ln, p, results, i, query, |query|) == Some(high)
    requires Score(ln, p, results, j, query, |query|) == Some(low)
    ensures Above(Reranked(ln, p, query, results).value, results[i], results[j])
  {
    var list := Zip(results, AllScores(ln, p, query, results, |results|).value, |results|);
    var ranking := StableSort(list);
    StableSortSorts(list);
    forall x, y | 0 <= x < |ranking| && 0 <= y < |ranking|
                  && ranking[x].doc == results[i] && ranking[y].doc == results[j]
      ensures x < y
    {
      RankedScore(ln, p, query, results, list, ranking, x, i);
      RankedScore(ln, p, query, results, list, ranking, y, j);
      if y <= x {
        DescendingAt(ranking, y, x);
      }
    }
  }

  /**
   Of two documents of the same length, each holding one token of the query once, the one whose token is
   held by fewer of the results is ranked above the other.
  */
  lemma RarerTokenAbove(ln: Logarithm, p: Params, query: seq<Token>, results: seq<Document>, i: nat, j: nat,
                        a: nat, b: nat)
    requires Increasing(ln) && PositiveAboveOne(ln) && Valid(p) && |results| >= 2
    requires i < |results| && j < |results| && |results[i].tokens| == |results[j].tokens|
    requires HoldsOnly(results[i], query, a) && HoldsOnly(results[j], query, b)
    requires |Holders(results, query[a], |results|)| < |Holders(results, query[b], |results|)|
    ensures Reranked(ln, p, query, results).Some?
    ensures Above(Reranked(ln, p, query, results).value, results[i], results[j])
  {
    HolderIsNotEmpty(results[i], query, a);
    HolderIsNotEmpty(results[j], query, b);
    AvgPositive(results, i);
    var length, avg := |results[i].tokens|, AvgLength(results);
    var heavy, light := Idf(ln, results, query[a]), Idf(ln, results, query[b]);
    RarerWeighsMoreIff(ln, results, query[a], query[b]);
    ScoreOfOne(ln, p, results, i, query, |query|, a);
    ScoreOfOne(ln, p, results, j, query, |query|, b);
    HeavierTerm(p, heavy, light, length, avg);
    ValidRanks(ln, p, query, results);
    HigherScoreAbove(ln, p, query, results, i, j, Term(p, heavy, 1, length, avg).value,
                     Term(p, light, 1, length, avg).value);
  }

  lemma HeavierTerm(p: Params, heavy: real, light: real, length: nat, avg: real)
    requires Valid(p) && avg > 0.0 && length > 0 && light < heavy
    ensures var high, low := Term(p, heavy, 1, length, avg), Term(p, light, 1, length, avg);
            high.Some? && low.Some? && low.value < high.value
  {
    var norm := LengthNorm(p, length, avg);
    LengthNormSign(p, length, avg);
    SaturationPositive(p.k1, 1, norm);
    ProductIncreases(Saturation(p.k1, 1, norm), light, heavy);
  }

  /** Of two documents that hold the same token of the query once, the shorter is ranked above the longer. */
  lemma ShorterAbove(ln: Logarithm, p: Params, query: seq<Token>, results: seq<Document>, i: nat, j: nat, a: nat)
    requires PositiveAboveOne(ln) && Valid(p) && p.k1 > 0.0 && p.b > 0.0 && |results| >= 2
    requires i < |results| && j < |results| && |results[i].tokens| < |results[j].tokens|
    requires HoldsOnly(results[i], query, a) && HoldsOnly(results[j], query, a)
    ensures Reranked(ln, p, query, results).Some?
    ensures Above(Reranked(ln, p, query, results).value, results[i], results[j])
  {
    HolderIsNotEmpty(results[i], query, a);
    AvgPositive(results, i);
    var avg, weight := AvgLength(results), Idf(ln, results, query[a]);
    IdfPositive(ln, results, query[a]);
    ScoreOfOne(ln, p, results, i, query, |query|, a);
    ScoreOfOne(ln, p, results, j, query, |query|, a);
    TermFallsIff(p, weight, 1, |results[i].tokens|, |results[j].tokens|, avg);
    ValidRanks(ln, p, query, results);
    HigherScoreAbove(ln, p, query, results, i, j, Term(p, weight, 1, |results[i].tokens|, avg).value,
                     Term(p, weight, 1, |results[j].tokens|, avg).value);
  }
}
