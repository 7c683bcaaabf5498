/**
 * The ranking query of `do_search`, restated over a snapshot of `teams`:
 * candidates are the rows whose grams overlap the query's, each is scored
 * `100 * n / delta / len(q)`, and the best `limit` are returned, best first.
 */
module Ranking {
  import opened Schema
  import opened NGrams

  /** One row of the search response: primary key, name and exact score. */
  datatype Hit = Hit(id: Id, name: string, score: real)

  /** `grams && q`: the row's grams column is not NULL and shares a gram with `q`. */
  predicate Overlaps(row: Row, q: set<string>)
    ensures Overlaps(row, q) <==> row.grams.Some? && exists g :: g in q && g in row.grams.value
  {
    row.grams.Some? && (IntersectionWitness(row.grams.value, q); row.grams.value * q != {})
  }

  lemma IntersectionWitness(a: set<string>, b: set<string>)
    ensures a * b != {} <==> exists g :: g in b && g in a
  {
    if a * b != {} {
      var g :| g in a * b;
    }
    if exists g :: g in b && g in a {
      var g :| g in b && g in a;
      assert g in a * b;
    }
  }

  /** The rows the `qbool` subquery keeps. */
  function Candidates(t: Table, q: set<string>): (c: set<Id>)
    ensures forall id :: id in c <==> id in t && Overlaps(t[id], q)
  {
    set id | id in t && Overlaps(t[id], q)
  }

  /** The GIN index entry of one gram: every row whose grams contain it. */
  function Postings(t: Table, g: string): (p: set<Id>)
    ensures forall id :: id in p <==> id in t && t[id].grams.Some? && g in t[id].grams.value
  {
    set id | id in t && t[id].grams.Some? && g in t[id].grams.value
  }

  /** An index lookup of the query's grams finds exactly the overlap candidates. */
  lemma CandidatesFromPostings(t: Table, q: set<string>, id: Id)
    ensures id in Candidates(t, q) <==> exists g :: g in q && id in Postings(t, g)
  {
    if id in Candidates(t, q) {
      var g :| g in t[id].grams.value * q;
      assert id in Postings(t, g);
    }
    if exists g :: g in q && id in Postings(t, g) {
      var g :| g in q && id in Postings(t, g);
      assert g in t[id].grams.value * q;
    }
  }

  /** `1 + ABS(ARRAY_LENGTH(grams) - ARRAY_LENGTH(q))`: the length penalty. */
  function Delta(grams: set<string>, q: set<string>): (d: nat)
    ensures d >= 1
    ensures d == 1 <==> |grams| == |q|
  {
    1 + if |grams| >= |q| then |grams| - |q| else |q| - |grams|
  }

  /** `qscore.n`: the number of distinct grams the row shares with the query (`INTERSECT` deduplicates). */
  function Shared(grams: set<string>, q: set<string>): (n: nat)
    ensures n <= |q| && n <= |grams|
    ensures n == |q| <==> q <= grams
  {
    IntersectionCard(grams, q);
    |grams * q|
  }

  lemma IntersectionCard(grams: set<string>, q: set<string>)
    ensures |grams * q| <= |q| && |grams * q| <= |grams|
    ensures |grams * q| == |q| <==> q <= grams
  {
    SubsetCard(grams * q, q);
    SubsetCard(grams * q, grams);
    if |grams * q| == |q| {
      SubsetCardEqual(grams * q, q);
    }
    if q <= grams {
      assert grams * q == q;
    }
  }

  lemma SubsetCard<T>(a: set<T>, b: set<T>)
    requires a <= b
    ensures |a| <= |b|
  {
    assert b == a + (b - a);
  }

  lemma SubsetCardEqual<T>(a: set<T>, b: set<T>)
    requires a <= b && |a| == |b|
    ensures a == b
  {
    assert b == a + (b - a);
  }

  /**
   * `100*n/delta`, then divided by `len(ng)` in Python; exact rational
   * arithmetic (the source's DECIMAL column and the final float are left out).
   */
  function Score(grams: set<string>, q: set<string>): (s: real)
    requires q != {}
    ensures 0.0 <= s <= 100.0
    ensures s > 0.0 <==> grams * q != {}
  {
    var n, d, m := Shared(grams, q), Delta(grams, q), |q|;
    FractionBounds(n, d, m);
    (100 * n) as real / d as real / m as real
  }

  /** `100*n/delta/m` lies in `[0, 100]` when `n <= m`, and is positive exactly when `n` is. */
  lemma FractionBounds(n: nat, d: nat, m: nat)
    requires m >= 1 && d >= 1 && n <= m
    ensures 0.0 <= (100 * n) as real / d as real / m as real <= 100.0
    ensures (100 * n) as real / d as real / m as real > 0.0 <==> n > 0
  {
    var b := (d * m) as real;
    DivDiv((100 * n) as real, d as real, m as real);
    assert b == d as real * m as real;
    assert n <= m <= d * m;
    DivLeOne(n as real, b);
    DivSign(n as real, b);
    ScaleDiv(100.0, n as real, b);
  }

  lemma DivSign(a: real, b: real)
    requires b > 0.0
    ensures a / b > 0.0 <==> a > 0.0
    ensures a / b >= 0.0 <==> a >= 0.0
  {
    var x := a / b;
    assert x * b == a;
  }

  lemma ScaleDiv(c: real, a: real, b: real)
    requires b > 0.0
    ensures (c * a) / b == c * (a / b)
  {
    var x := a / b;
    assert x * b == a;
    assert (c * x) * b == c * a;
  }

  lemma DivDiv(a: real, b: real, c: real)
    requires b > 0.0 && c > 0.0
    ensures a / b / c == a / (b * c)
  {
    var x := a / b;
    assert x * b == a;
    var y := x / c;
    assert y * c == x;
    assert y * (b * c) == a;
  }

  lemma DivLeOne(a: real, b: real)
    requires b > 0.0
    ensures a / b <= 1.0 <==> a <= b
    ensures a / b == 1.0 <==> a == b
  {
    var x := a / b;
    assert x * b == a;
  }

  /** The score as one fraction: `n / (delta * len(q))`, times 100. */
  lemma ScoreFraction(grams: set<string>, q: set<string>)
    requires q != {}
    ensures Score(grams, q) == 100.0 * ((Shared(grams, q) as real) / ((Delta(grams, q) * |q|) as real))
  {
    var n, d, m := Shared(grams, q) as real, Delta(grams, q) as real, |q| as real;
    DivDiv(100.0 * n, d, m);
    assert (Delta(grams, q) * |q|) as real == d * m;
    var x := n / (d * m);
    assert x * (d * m) == n;
    assert 100.0 * x * (d * m) == 100.0 * n;
  }

  lemma FractionIsOne(n: nat, d: nat, m: nat)
    requires m >= 1 && d >= 1 && n <= m
    ensures 100.0 * ((n as real) / ((d * m) as real)) == 100.0 <==> n == m && d == 1
  {
    assert d * m == m + (d - 1) * m;
    assert (d - 1) * m >= d - 1;
    DivLeOne(n as real, (d * m) as real);
  }

  /** A candidate scores exactly 100 precisely when its gram set equals the query's. */
  lemma ScoreIs100Iff(grams: set<string>, q: set<string>)
    requires q != {}
    ensures Score(grams, q) == 100.0 <==> grams == q
  {
    ScoreFraction(grams, q);
    FractionIsOne(Shared(grams, q), Delta(grams, q), |q|);
    if Score(grams, q) == 100.0 {
      SubsetCardEqual(q, grams);
    }
  }

  lemma ScaleMonotone(c: real, x: real, y: real)
    requires c > 0.0
    ensures c * x <= c * y <==> x <= y
  {
    assert c * y - c * x == c * (y - x);
  }

  lemma ScaledOrder(s1: real, s2: real, c: real, x1: real, x2: real)
    requires c > 0.0 && s1 == c * x1 && s2 == c * x2
    ensures s1 <= s2 <==> x1 <= x2
  {
    ScaleMonotone(c, x1, x2);
  }

  /** The score as `n / delta` scaled by the query's weight `100 / len(q)`. */
  lemma ScoreScaled(grams: set<string>, q: set<string>)
    requires q != {}
    ensures Score(grams, q) == (100.0 / |q| as real) * ((Shared(grams, q) as real) / (Delta(grams, q) as real))
  {
    var n, d, m := Shared(grams, q) as real, Delta(grams, q) as real, |q| as real;
    var x := n / d;
    assert x * d == n;
    assert (100.0 * x) * d == 100.0 * n;
    assert (100 * Shared(grams, q)) as real / d == 100.0 * x;
    var c := 100.0 / m;
    assert c * m == 100.0;
    assert (c * x) * m == 100.0 * x;
  }

  /** For one query, ordering by score is ordering by `n / delta`. */
  lemma ScoreOrder(g1: set<string>, g2: set<string>, q: set<string>)
    requires q != {}
    ensures Score(g1, q) <= Score(g2, q) <==>
            (Shared(g1, q) as real) / (Delta(g1, q) as real) <= (Shared(g2, q) as real) / (Delta(g2, q) as real)
  {
    ScoreScaled(g1, q);
    ScoreScaled(g2, q);
    ScaledOrder(Score(g1, q), Score(g2, q), 100.0 / |q| as real,
      (Shared(g1, q) as real) / (Delta(g1, q) as real), (Shared(g2, q) as real) / (Delta(g2, q) as real));
  }

  /** The response row for a candidate. */
  function HitOf(t: Table, q: set<string>, id: Id): (h: Hit)
    requires id in Candidates(t, q)
    ensures h.id == id && h.name == t[id].name
    ensures 0.0 < h.score <= 100.0
  {
    Hit(id, t[id].name, Score(t[id].grams.value, q))
  }

  /**
   * `ORDER BY score DESC LIMIT limit` over the candidates `ids`: each hit is
   * a distinct candidate with its own score, scores never increase, there
   * are `min(limit, |ids|)` of them, and no candidate left out scores above
   * one that was kept. Ties may come in any order.
   */
  predicate IsRanking(t: Table, q: set<string>, ids: set<Id>, limit: nat, r: seq<Hit>)
    requires ids <= Candidates(t, q)
  {
    && |r| == (if limit < |ids| then limit else |ids|)
    && (forall i :: 0 <= i < |r| ==> r[i].id in ids && r[i] == HitOf(t, q, r[i].id))
    && (forall i, j :: 0 <= i < j < |r| ==> r[i].id != r[j].id)
    && (forall i, j :: 0 <= i < j < |r| ==> r[i].score >= r[j].score)
    && (forall id, i :: id in ids - Ids(r) && 0 <= i < |r| ==> HitOf(t, q, id).score <= r[i].score)
  }

  /** The primary keys in a response. */
  function Ids(r: seq<Hit>): (s: set<Id>)
    ensures forall i :: 0 <= i < |r| ==> r[i].id in s
    ensures forall id :: id in s ==> exists i :: 0 <= i < |r| && r[i].id == id
  {
    set i | 0 <= i < |r| :: r[i].id
  }

  /** A non-empty finite set has an element whose value under `sc` no other element exceeds. */
  lemma {:induction false} MaxExists(ids: set<Id>, sc: map<Id, real>)
    requires ids != {} && ids <= sc.Keys
    ensures exists id :: id in ids && forall o :: o in ids ==> sc[o] <= sc[id]
  {
    var x :| x in ids;
    if ids != {x} {
      MaxExists(ids - {x}, sc);
      var y :| y in ids - {x} && forall o :: o in ids - {x} ==> sc[o] <= sc[y];
      if sc[x] <= sc[y] {
        assert forall o :: o in ids ==> sc[o] <= sc[y];
      } else {
        assert forall o :: o in ids ==> sc[o] <= sc[x];
      }
    }
  }

  /** Some candidate scores at least as high as every other. */
  lemma BestExists(t: Table, q: set<string>, ids: set<Id>)
    requires ids != {} && ids <= Candidates(t, q)
    ensures exists id :: id in ids && forall o :: o in ids ==> HitOf(t, q, o).score <= HitOf(t, q, id).score
  {
    var sc := map o | o in ids :: HitOf(t, q, o).score;
    MaxExists(ids, sc);
    var id :| id in ids && forall o :: o in ids ==> sc[o] <= sc[id];
    assert forall o :: o in ids ==> HitOf(t, q, o).score <= HitOf(t, q, id).score;
  }

  /** The `limit` best of `ids`, best first: repeatedly take a best-scoring candidate. */
  ghost function TopK(t: Table, q: set<string>, ids: set<Id>, limit: nat): (r: seq<Hit>)
    requires ids <= Candidates(t, q)
    ensures IsRanking(t, q, ids, limit, r)
    decreases limit
  {
    if limit == 0 || ids == {} then []
    else
      BestExists(t, q, ids);
      var best :| best in ids && forall o :: o in ids ==> HitOf(t, q, o).score <= HitOf(t, q, best).score;
      var rest := TopK(t, q, ids - {best}, limit - 1);
      RankingCons(t, q, ids, limit, best, rest);
      [HitOf(t, q, best)] + rest
  }

  /** A best candidate followed by a ranking of the others is a ranking of all. */
  lemma RankingCons(t: Table, q: set<string>, ids: set<Id>, limit: nat, best: Id, rest: seq<Hit>)
    requires ids <= Candidates(t, q) && limit >= 1 && best in ids
    requires forall o :: o in ids ==> HitOf(t, q, o).score <= HitOf(t, q, best).score
    requires IsRanking(t, q, ids - {best}, limit - 1, rest)
    ensures IsRanking(t, q, ids, limit, [HitOf(t, q, best)] + rest)
  {
    var r := [HitOf(t, q, best)] + rest;
    assert |ids - {best}| == |ids| - 1;
    ConsMembers(t, q, ids, best, rest, r);
    ConsDistinct(t, q, ids, best, rest, r);
    ConsSorted(t, q, ids, best, rest, r);
    ConsTop(t, q, ids, best, rest, r);
  }

  lemma ConsMembers(t: Table, q: set<string>, ids: set<Id>, best: Id, rest: seq<Hit>, r: seq<Hit>)
    requires ids <= Candidates(t, q) && best in ids && r == [HitOf(t, q, best)] + rest
    requires forall i :: 0 <= i < |rest| ==> rest[i].id in ids - {best} && rest[i] == HitOf(t, q, rest[i].id)
    ensures forall i :: 0 <= i < |r| ==> r[i].id in ids && r[i] == HitOf(t, q, r[i].id)
  {
    forall i | 1 <= i < |r| ensures r[i].id in ids && r[i] == HitOf(t, q, r[i].id) {
      assert r[i] == rest[i - 1];
    }
  }

  lemma ConsDistinct(t: Table, q: set<string>, ids: set<Id>, best: Id, rest: seq<Hit>, r: seq<Hit>)
    requires ids <= Candidates(t, q) && best in ids && r == [HitOf(t, q, best)] + rest
    requires forall i :: 0 <= i < |rest| ==> rest[i].id in ids - {best}
    requires forall i, j :: 0 <= i < j < |rest| ==> rest[i].id != rest[j].id
    ensures forall i, j :: 0 <= i < j < |r| ==> r[i].id != r[j].id
  {
    forall i, j | 0 <= i < j < |r| ensures r[i].id != r[j].id {
      assert r[j] == rest[j - 1];
      if i > 0 {
        assert r[i] == rest[i - 1];
      }
    }
  }

  lemma ConsSorted(t: Table, q: set<string>, ids: set<Id>, best: Id, rest: seq<Hit>, r: seq<Hit>)
    requires ids <= Candidates(t, q) && best in ids && r == [HitOf(t, q, best)] + rest
    requires forall o :: o in ids ==> HitOf(t, q, o).score <= HitOf(t, q, best).score
    requires forall i :: 0 <= i < |rest| ==> rest[i].id in ids && rest[i] == HitOf(t, q, rest[i].id)
    requires forall i, j :: 0 <= i < j < |rest| ==> rest[i].score >= rest[j].score
    ensures forall i, j :: 0 <= i < j < |r| ==> r[i].score >= r[j].score
  {
    forall i, j | 0 <= i < j < |r| ensures r[i].score >= r[j].score {
      assert r[j] == rest[j - 1];
      if i > 0 {
        assert r[i] == rest[i - 1];
      }
    }
  }

  lemma ConsTop(t: Table, q: set<string>, ids: set<Id>, best: Id, rest: seq<Hit>, r: seq<Hit>)
    requires ids <= Candidates(t, q) && best in ids && r == [HitOf(t, q, best)] + rest
    requires forall o :: o in ids ==> HitOf(t, q, o).score <= HitOf(t, q, best).score
    requires forall id, i :: id in (ids - {best}) - Ids(rest) && 0 <= i < |rest| ==>
               HitOf(t, q, id).score <= rest[i].score
    ensures forall id, i :: id in ids - Ids(r) && 0 <= i < |r| ==> HitOf(t, q, id).score <= r[i].score
  {
    forall id, i | id in ids - Ids(r) && 0 <= i < |r| ensures HitOf(t, q, id).score <= r[i].score {
      if i > 0 {
        assert id != r[0].id;
        assert forall k :: 0 <= k < |rest| ==> rest[k].id == r[k + 1].id;
        assert id !in Ids(rest);
        assert r[i] == rest[i - 1];
      }
    }
  }
  /** `do_search(query, limit)` on a table snapshot, before float conversion and formatting. */
  ghost function Search(t: Table, query: string, limit: nat): (r: seq<Hit>)
    ensures IsRanking(t, Tokenize(query), Candidates(t, Tokenize(query)), limit, r)
  {
    var q := Tokenize(query);
    TopK(t, q, Candidates(t, q), limit)
  }

  /** Every hit shares at least one trigram with the query and scores in `(0, 100]`. */
  lemma SearchHitsOverlap(t: Table, query: string, limit: nat)
    ensures forall h :: h in Search(t, query, limit) ==>
              h.id in t && t[h.id].grams.Some? && t[h.id].grams.value * Tokenize(query) != {} &&
              0.0 < h.score <= 100.0
  {
  }

  /** A query with no trigrams (shorter than three characters once normalised) finds nothing. */
  lemma SearchEmptyQuery(t: Table, query: string, limit: nat)
    requires Tokenize(query) == {}
    ensures Search(t, query, limit) == []
  {
    assert Candidates(t, Tokenize(query)) == {};
  }

  /** A row whose grams equal the query's comes back with score 100, and so does the first hit. */
  lemma ExactMatchScoresTop(t: Table, query: string, limit: nat, id: Id)
    requires limit >= 1 && id in t && t[id].grams == Some(Tokenize(query)) && Tokenize(query) != {}
    ensures |Search(t, query, limit)| >= 1 && Search(t, query, limit)[0].score == 100.0
  {
    var q := Tokenize(query);
    var r := Search(t, query, limit);
    assert id in Candidates(t, q);
    ScoreIs100Iff(q, q);
    assert HitOf(t, q, id).score == 100.0;
    assert r[0].score <= 100.0;
    if id in Ids(r) {
      var i :| 0 <= i < |r| && r[i].id == id;
      assert r[0].score >= r[i].score;
    }
  }
}
