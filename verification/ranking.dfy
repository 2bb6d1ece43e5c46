/** The order in which the brute-force attack returns its results: the
    stable sort of `results.sort((a, b) => b.score - a.score)`. Since
    ECMAScript 2019 `Array.prototype.sort` is stable, results of equal score
    keep their order, which in the attack is ascending key. */
module Ranking {

  /** One entry of the result list: `{key, text, score, likely}`. */
  datatype Candidate = Candidate(key: int, text: string, score: real, likely: bool)

  /** `x` is ranked above `y`: a higher score, or the same score and a
      smaller key. */
  predicate Before(x: Candidate, y: Candidate) {
    x.score > y.score || (x.score == y.score && x.key < y.key)
  }

  /** Every result is ranked above every later one. */
  predicate Ranked(r: seq<Candidate>) {
    forall i, j | 0 <= i < j < |r| :: Before(r[i], r[j])
  }

  /** The keys strictly increase along the list. */
  predicate KeysAscend(r: seq<Candidate>) {
    forall i, j | 0 <= i < j < |r| :: r[i].key < r[j].key
  }

  /** One step of the stable sort: the new result goes after every result
      already placed whose score is at least its own. */
  function Insert(c: Candidate, r: seq<Candidate>): seq<Candidate> {
    if r == [] then [c]
    else if r[0].score >= c.score then [r[0]] + Insert(c, r[1..])
    else [c] + r
  }

  /** The stable sort by descending score, as insertion of each result in
      turn. */
  function SortByScore(r: seq<Candidate>): seq<Candidate> {
    if r == [] then [] else Insert(r[|r| - 1], SortByScore(r[..|r| - 1]))
  }

  lemma {:induction false} InsertPermutes(c: Candidate, r: seq<Candidate>)
    ensures multiset(Insert(c, r)) == multiset(r) + multiset{c}
  {
    if r != [] && r[0].score >= c.score {
      InsertPermutes(c, r[1..]);
      assert r == [r[0]] + r[1..];
    }
  }

  /** Inserting a result whose key is larger than every key placed so far
      keeps the list ranked. */
  lemma {:induction false} InsertRanked(c: Candidate, r: seq<Candidate>)
    requires Ranked(r) && KeysBelow(r, c.key)
    ensures Ranked(Insert(c, r))
  {
    if r == [] {
    } else if r[0].score >= c.score {
      var t := Insert(c, r[1..]);
      RankedTail(r);
      InsertRanked(c, r[1..]);
      InsertPermutes(c, r[1..]);
      assert r == [r[0]] + r[1..];
      assert r[0].key < c.key;
      forall j | 0 <= j < |t| ensures Before(r[0], t[j]) {
        assert t[j] in multiset(t);
        if t[j] != c {
          assert t[j] in multiset(r[1..]);
          assert t[j] in multiset(r);
          RankedHead(r, t[j]);
        }
      }
      RankedCons(r[0], t);
    } else {
      forall j | 0 <= j < |r| ensures Before(c, r[j]) {
        RankedHead(r, r[j]);
      }
      RankedCons(c, r);
    }
  }

  /** All keys of the list are below `key`. */
  predicate KeysBelow(r: seq<Candidate>, key: int) {
    forall i | 0 <= i < |r| :: r[i].key < key
  }

  lemma KeysBelowPermutation(x: seq<Candidate>, y: seq<Candidate>, key: int)
    requires multiset(x) == multiset(y) && KeysBelow(x, key)
    ensures KeysBelow(y, key)
  {
    forall i | 0 <= i < |y| ensures y[i].key < key {
      assert y[i] in multiset(x);
      var k :| 0 <= k < |x| && x[k] == y[i];
    }
  }

  /** A result ranked above every element of a ranked list can head it. */
  lemma RankedCons(h: Candidate, t: seq<Candidate>)
    requires Ranked(t) && forall j | 0 <= j < |t| :: Before(h, t[j])
    ensures Ranked([h] + t)
  {
    var u := [h] + t;
    forall i, j | 0 <= i < j < |u| ensures Before(u[i], u[j]) {
      assert u[j] == t[j - 1];
      if i > 0 {
        assert u[i] == t[i - 1];
      }
    }
  }

  /** On results listed by ascending key, the sort returns a permutation of
      them that is ranked: descending score, and ascending key among equal
      scores. */
  lemma {:induction false} SortByScoreFacts(r: seq<Candidate>)
    requires KeysAscend(r)
    ensures multiset(SortByScore(r)) == multiset(r)
    ensures Ranked(SortByScore(r))
  {
    if r != [] {
      var init := r[..|r| - 1];
      var last := r[|r| - 1];
      assert KeysAscend(init) && KeysBelow(init, last.key);
      SortByScoreFacts(init);
      var sorted := SortByScore(init);
      InsertPermutes(last, sorted);
      KeysBelowPermutation(init, sorted, last.key);
      InsertRanked(last, sorted);
      assert r == init + [last];
    }
  }

  /** There is only one ranked order of a collection of results: any two
      ranked lists with the same elements are equal. */
  lemma {:induction false} RankedUnique(x: seq<Candidate>, y: seq<Candidate>)
    requires Ranked(x) && Ranked(y) && multiset(x) == multiset(y)
    ensures x == y
  {
    if x == [] {
      assert |y| == |multiset(y)| == 0;
    } else {
      assert |y| == |multiset(y)| == |x|;
      assert x[0] in multiset(y) && y[0] in multiset(x);
      RankedHead(x, y[0]);
      RankedHead(y, x[0]);
      DropHead(x, y);
      RankedTail(x);
      RankedTail(y);
      RankedUnique(x[1..], y[1..]);
      assert x == [x[0]] + x[1..] && y == [y[0]] + y[1..];
    }
  }

  /** The head of a ranked list is ranked above all its other elements. */
  lemma RankedHead(x: seq<Candidate>, z: Candidate)
    requires Ranked(x) && z in multiset(x)
    ensures z == x[0] || Before(x[0], z)
  {
    var k :| 0 <= k < |x| && x[k] == z;
  }

  lemma RankedTail(x: seq<Candidate>)
    requires Ranked(x) && x != []
    ensures Ranked(x[1..])
  {
    forall i, j | 0 <= i < j < |x| - 1 ensures Before(x[1..][i], x[1..][j]) {
      assert x[1..][i] == x[i + 1] && x[1..][j] == x[j + 1];
    }
  }

  lemma DropHead(x: seq<Candidate>, y: seq<Candidate>)
    requires multiset(x) == multiset(y) && x != [] && y != [] && x[0] == y[0]
    ensures multiset(x[1..]) == multiset(y[1..])
  {
    assert x == [x[0]] + x[1..] && y == [y[0]] + y[1..];
    assert multiset(x) == multiset{x[0]} + multiset(x[1..]);
    assert multiset(y) == multiset{y[0]} + multiset(y[1..]);
    forall z ensures multiset(x[1..])[z] == multiset(y[1..])[z] {
      assert multiset(x)[z] == multiset(y)[z];
    }
  }

  lemma AscendingKeys(r: seq<Candidate>)
    requires forall i | 0 <= i < |r| :: r[i].key == i + 1
    ensures KeysAscend(r)
  {
  }
}
