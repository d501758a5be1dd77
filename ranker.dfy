/**
 * Ranking of the scored resumes (src/App.js:109 and 141-146).
 *
 * The comparator orders the records by descending score; `Array.prototype.sort` is stable (ECMAScript 2019 onwards), so
 * records with equal scores keep their upload order. The sort is modelled as
 * an insertion sort over an array (SortInPlace), specified by the function
 * SortByScore, whose properties are proved below: sorted, a permutation,
 * and stable. SortedStableUnique shows that these properties determine the
 * result, so every stable sort with this comparator yields SortByScore.
 *
 * In the table's rank column, rows 0-2 show a gold, silver or bronze medal in
 * place of the rank, and later rows show the number `index + 1`.
 */
module Ranker {
  import opened Scorer

  // ---------------------------------------------------------------------------
  // Specification of the sort
  // ---------------------------------------------------------------------------

  /** Non-increasing by score. */
  predicate SortedByScore(s: seq<ScoredResume>) {
    forall i, j :: 0 <= i < j < |s| ==> s[i].score >= s[j].score
  }

  /** The records of `s` whose score is `v`, in their order in `s`. */
  function WithScore(s: seq<ScoredResume>, v: int): (r: seq<ScoredResume>)
    ensures |r| <= |s|
    ensures forall i :: 0 <= i < |r| ==> r[i].score == v
  {
    if s == [] then []
    else (if s[0].score == v then [s[0]] else []) + WithScore(s[1..], v)
  }

  /** Stability: for every score, the records with that score appear in the
      same relative order in `t` as in `s`. */
  ghost predicate SameTies(t: seq<ScoredResume>, s: seq<ScoredResume>) {
    forall v :: WithScore(t, v) == WithScore(s, v)
  }

  /** Inserts `x` after every record whose score is at least its own. */
  function Insert(s: seq<ScoredResume>, x: ScoredResume): (r: seq<ScoredResume>)
    ensures |r| == |s| + 1
  {
    if s == [] || s[|s| - 1].score >= x.score then s + [x]
    else Insert(s[..|s| - 1], x) + [s[|s| - 1]]
  }

  /** The reference stable sort: insert each record, in upload order, into the
      sorted prefix before it. */
  function SortByScore(s: seq<ScoredResume>): (r: seq<ScoredResume>)
    ensures |r| == |s|
  {
    if s == [] then [] else Insert(SortByScore(s[..|s| - 1]), s[|s| - 1])
  }

  lemma {:induction false} InsertPermutes(s: seq<ScoredResume>, x: ScoredResume)
    ensures multiset(Insert(s, x)) == multiset(s) + multiset{x}
    decreases |s|
  {
    if !(s == [] || s[|s| - 1].score >= x.score) {
      var init := s[..|s| - 1];
      assert s == init + [s[|s| - 1]];
      InsertPermutes(init, x);
    }
  }

  /** The sort is a permutation: no record is dropped or duplicated. */
  lemma {:induction false} SortByScorePermutes(s: seq<ScoredResume>)
    ensures multiset(SortByScore(s)) == multiset(s)
    decreases |s|
  {
    if s != [] {
      var init := s[..|s| - 1];
      assert s == init + [s[|s| - 1]];
      SortByScorePermutes(init);
      InsertPermutes(SortByScore(init), s[|s| - 1]);
    }
  }

  /** The sorted list holds exactly the records of the input. */
  lemma SortByScoreMembers(s: seq<ScoredResume>)
    ensures forall x :: x in SortByScore(s) <==> x in s
  {
    SortByScorePermutes(s);
    forall x ensures x in SortByScore(s) <==> x in s {
      assert x in SortByScore(s) <==> x in multiset(SortByScore(s));
      assert x in s <==> x in multiset(s);
    }
  }

  lemma {:induction false} WithScoreAppend(a: seq<ScoredResume>, b: seq<ScoredResume>, v: int)
    ensures WithScore(a + b, v) == WithScore(a, v) + WithScore(b, v)
    decreases |a|
  {
    if a == [] {
      assert a + b == b;
    } else {
      assert (a + b)[1..] == a[1..] + b;
      WithScoreAppend(a[1..], b, v);
    }
  }

  lemma {:induction false} InsertSorted(s: seq<ScoredResume>, x: ScoredResume)
    requires SortedByScore(s)
    ensures SortedByScore(Insert(s, x))
    ensures Insert(s, x) != [] && Insert(s, x)[|s|].score <= x.score
    decreases |s|
  {
    if s == [] || s[|s| - 1].score >= x.score {
    } else {
      var init := s[..|s| - 1];
      InsertSorted(init, x);
      var ins := Insert(init, x);
      InsertPermutes(init, x);
      forall k | 0 <= k < |ins| ensures ins[k].score >= s[|s| - 1].score {
        assert ins[k] in multiset(ins);
        if ins[k] != x {
          assert ins[k] in multiset(init);
          var j :| 0 <= j < |init| && init[j] == ins[k];
          assert init[j] == s[j];
        }
      }
    }
  }

  lemma {:induction false} InsertTies(s: seq<ScoredResume>, x: ScoredResume, v: int)
    ensures WithScore(Insert(s, x), v) == WithScore(s, v) + WithScore([x], v)
    decreases |s|
  {
    if s == [] || s[|s| - 1].score >= x.score {
      WithScoreAppend(s, [x], v);
    } else {
      var init, y := s[..|s| - 1], s[|s| - 1];
      assert s == init + [y];
      InsertTies(init, x, v);
      WithScoreAppend(Insert(init, x), [y], v);
      WithScoreAppend(init, [y], v);
      assert WithScore([x], v) == [] || WithScore([y], v) == [];
    }
  }

  /** The sort's output is ordered by non-increasing score. */
  lemma {:induction false} SortByScoreSorted(s: seq<ScoredResume>)
    ensures SortedByScore(SortByScore(s))
    decreases |s|
  {
    if s != [] {
      SortByScoreSorted(s[..|s| - 1]);
      InsertSorted(SortByScore(s[..|s| - 1]), s[|s| - 1]);
    }
  }

  /** The sort is stable: equal scores keep their upload order. */
  lemma {:induction false} SortByScoreStable(s: seq<ScoredResume>)
    ensures SameTies(SortByScore(s), s)
    decreases |s|
  {
    if s != [] {
      var init, y := s[..|s| - 1], s[|s| - 1];
      assert s == init + [y];
      SortByScoreStable(init);
      forall v ensures WithScore(SortByScore(s), v) == WithScore(s, v) {
        InsertTies(SortByScore(init), y, v);
        WithScoreAppend(init, [y], v);
      }
    }
  }

  /** A record whose score occurs in `s` shows up among its ties. */
  lemma {:induction false} WithScoreNonEmpty(s: seq<ScoredResume>, k: nat)
    requires k < |s|
    ensures WithScore(s, s[k].score) != []
    decreases k
  {
    if k > 0 && s[0].score != s[k].score {
      WithScoreNonEmpty(s[1..], k - 1);
    }
  }

  /** Every tie of a score comes from some record of `s` with that score. */
  lemma {:induction false} WithScoreFrom(s: seq<ScoredResume>, v: int)
    requires WithScore(s, v) != []
    ensures exists k :: 0 <= k < |s| && s[k].score == v
  {
    if s[0].score != v {
      WithScoreFrom(s[1..], v);
      var k :| 0 <= k < |s[1..]| && s[1..][k].score == v;
      assert s[k + 1].score == v;
    }
  }

  lemma WithScoreHead(s: seq<ScoredResume>)
    requires s != []
    ensures WithScore(s, s[0].score) != []
  {
  }

  /** Sortedness and stability pin the result down: two sorted sequences with
      the same ties for every score are equal. */
  lemma {:induction false} SortedStableUnique(t: seq<ScoredResume>, u: seq<ScoredResume>)
    requires SortedByScore(t) && SortedByScore(u)
    requires SameTies(t, u)
    ensures t == u
    decreases |t| + |u|
  {
    if t == [] && u == [] {
    } else if t == [] {
      WithScoreHead(u);
      assert false;
    } else if u == [] {
      WithScoreHead(t);
      assert false;
    } else {
      WithScoreNonEmpty(t, 0);
      WithScoreNonEmpty(u, 0);
      WithScoreFrom(t, u[0].score);
      WithScoreFrom(u, t[0].score);
      var v := t[0].score;
      assert u[0].score == v;
      assert WithScore(t, v) == WithScore(u, v);
      assert WithScore(t, v) == [t[0]] + WithScore(t[1..], v);
      assert WithScore(u, v) == [u[0]] + WithScore(u[1..], v);
      assert ([t[0]] + WithScore(t[1..], v))[0] == t[0];
      assert ([u[0]] + WithScore(u[1..], v))[0] == u[0];
      forall w ensures WithScore(t[1..], w) == WithScore(u[1..], w) {
        if w == v {
          assert WithScore(t[1..], v) == ([t[0]] + WithScore(t[1..], v))[1..];
          assert WithScore(u[1..], v) == ([u[0]] + WithScore(u[1..], v))[1..];
        } else {
          assert WithScore(t, w) == WithScore(t[1..], w);
          assert WithScore(u, w) == WithScore(u[1..], w);
        }
      }
      SortedStableUnique(t[1..], u[1..]);
      assert t == [t[0]] + t[1..] && u == [u[0]] + u[1..];
    }
  }

  /** Any stable sort by descending score returns exactly SortByScore. */
  lemma StableSortIsSortByScore(s: seq<ScoredResume>, t: seq<ScoredResume>)
    requires SortedByScore(t) && SameTies(t, s)
    ensures t == SortByScore(s)
  {
    SortByScoreSorted(s);
    SortByScoreStable(s);
    SortedStableUnique(t, SortByScore(s));
  }

  /** The names on the sorted records are the uploaded names, rearranged. */
  function Names(s: seq<ScoredResume>): (r: seq<string>)
    ensures |r| == |s|
    ensures forall i :: 0 <= i < |s| ==> r[i] == s[i].name
  {
    seq(|s|, i requires 0 <= i < |s| => s[i].name)
  }

  lemma {:induction false} InsertNames(s: seq<ScoredResume>, x: ScoredResume)
    ensures multiset(Names(Insert(s, x))) == multiset(Names(s)) + multiset{x.name}
    decreases |s|
  {
    if s == [] || s[|s| - 1].score >= x.score {
      assert Names(s + [x]) == Names(s) + [x.name];
    } else {
      var init, y := s[..|s| - 1], s[|s| - 1];
      InsertNames(init, x);
      assert Names(Insert(init, x) + [y]) == Names(Insert(init, x)) + [y.name];
      assert Names(s) == Names(init) + [y.name];
    }
  }

  lemma {:induction false} SortByScoreNames(s: seq<ScoredResume>)
    ensures multiset(Names(SortByScore(s))) == multiset(Names(s))
    decreases |s|
  {
    if s != [] {
      var init, y := s[..|s| - 1], s[|s| - 1];
      SortByScoreNames(init);
      InsertNames(SortByScore(init), y);
      assert Names(s) == Names(init) + [y.name];
    }
  }

  // ---------------------------------------------------------------------------
  // The in-place sort
  // ---------------------------------------------------------------------------

  /** Where Insert puts `x`: after the records scoring at least as much and
      before the trailing ones that score less. */
  lemma {:induction false} InsertPosition(s: seq<ScoredResume>, x: ScoredResume, j: nat)
    requires j <= |s|
    requires j == 0 || s[j - 1].score >= x.score
    requires forall k :: j <= k < |s| ==> s[k].score < x.score
    ensures Insert(s, x) == s[..j] + [x] + s[j..]
    decreases |s|
  {
    if s == [] || s[|s| - 1].score >= x.score {
      assert j == |s|;
      assert s[..j] == s && s[j..] == [];
    } else {
      var init := s[..|s| - 1];
      InsertPosition(init, x, j);
      assert init[..j] == s[..j];
      assert init[j..] + [s[|s| - 1]] == s[j..];
    }
  }

  /** The array during the inner loop: the sorted prefix with a hole at `j`
      and the records from `j` on moved one place to the right. */
  lemma ShiftStep(sorted: seq<ScoredResume>, rest: seq<ScoredResume>, hole: ScoredResume, j: nat)
    requires 0 < j <= |sorted|
    ensures var before := sorted[..j] + [hole] + sorted[j..] + rest;
      before[j - 1] == sorted[j - 1]
      && before[j := sorted[j - 1]] == sorted[..j - 1] + [sorted[j - 1]] + sorted[j - 1..] + rest
  {
    var before := sorted[..j] + [hole] + sorted[j..] + rest;
    var after := sorted[..j - 1] + [sorted[j - 1]] + sorted[j - 1..] + rest;
    assert |before[j := sorted[j - 1]]| == |after|;
    forall k | 0 <= k < |after| ensures before[j := sorted[j - 1]][k] == after[k] {
      if k < j - 1 {
      } else if k == j - 1 || k == j {
      } else if k < |sorted| + 1 {
        assert after[k] == sorted[k - 1];
        assert before[k] == sorted[k - 1];
      } else {
        assert after[k] == rest[k - |sorted| - 1];
        assert before[k] == rest[k - |sorted| - 1];
      }
    }
  }

  /** Filling the hole at `j` with `key`. */
  lemma HoleFill(sorted: seq<ScoredResume>, rest: seq<ScoredResume>, hole: ScoredResume,
                 key: ScoredResume, j: nat)
    requires j <= |sorted|
    ensures (sorted[..j] + [hole] + sorted[j..] + rest)[j := key] == sorted[..j] + [key] + sorted[j..] + rest
  {
    var before := sorted[..j] + [hole] + sorted[j..] + rest;
    var after := sorted[..j] + [key] + sorted[j..] + rest;
    forall k | 0 <= k < |after| ensures before[j := key][k] == after[k] {
      if k < j {
      } else if k == j {
      } else if k < |sorted| + 1 {
        assert after[k] == sorted[k - 1] && before[k] == sorted[k - 1];
      } else {
        assert after[k] == before[k];
      }
    }
  }

  /** Moves `a[i]` left past the records with a lower score, so that the
      sorted prefix `a[..i]` becomes the sorted prefix `a[..i + 1]`. */
  method InsertAt(a: array<ScoredResume>, i: nat)
    requires i < a.Length
    modifies a
    ensures a[..] == Insert(old(a[..i]), old(a[i])) + old(a[i + 1..])
  {
    var key := a[i];
    ghost var sorted := a[..i];
    ghost var rest := a[i + 1..];
    assert a[..] == sorted[..i] + [a[i]] + sorted[i..] + rest;
    var j := i;
    assert sorted[..j] == sorted && sorted[j..] == [];
    while j > 0 && a[j - 1].score < key.score
      invariant 0 <= j <= i && a.Length == |sorted| + 1 + |rest|
      invariant a[..] == sorted[..j] + [a[j]] + sorted[j..] + rest
      invariant forall k :: j <= k < i ==> sorted[k].score < key.score
    {
      ghost var before := a[..];
      ShiftStep(sorted, rest, a[j], j);
      a[j] := a[j - 1];
      assert a[..] == before[j := before[j - 1]];
      j := j - 1;
    }
    ghost var before := a[..];
    HoleFill(sorted, rest, a[j], key, j);
    a[j] := key;
    assert a[..] == before[j := key];
    InsertPosition(sorted, key, j);
  }

  /** One more record of the input goes through one more Insert. */
  lemma SortByScorePrefix(s: seq<ScoredResume>, i: nat)
    requires i < |s|
    ensures SortByScore(s[..i + 1]) == Insert(SortByScore(s[..i]), s[i])
  {
    assert s[..i + 1][..i] == s[..i];
  }

  /** What the reference sort guarantees: sorted, stable and a permutation. */
  lemma SortByScoreSpec(s: seq<ScoredResume>)
    ensures SortedByScore(SortByScore(s)) && SameTies(SortByScore(s), s)
    ensures multiset(SortByScore(s)) == multiset(s)
  {
    SortByScoreSorted(s);
    SortByScoreStable(s);
    SortByScorePermutes(s);
  }

  /** Sorts the freshly mapped array in place by descending score, as a
      stable insertion sort. */
  method SortInPlace(a: array<ScoredResume>)
    modifies a
    ensures a[..] == SortByScore(old(a[..]))
    ensures SortedByScore(a[..]) && SameTies(a[..], old(a[..]))
    ensures multiset(a[..]) == multiset(old(a[..]))
  {
    ghost var input := a[..];
    var i := 0;
    assert input[..0] == [] && input[0..] == input;
    while i < a.Length
      invariant 0 <= i <= a.Length == |input|
      invariant a[..] == SortByScore(input[..i]) + input[i..]
    {
      ghost var done := SortByScore(input[..i]);
      ghost var tail := input[i..];
      assert a[..i] == done && a[i] == tail[0] && a[i + 1..] == tail[1..];
      InsertAt(a, i);
      SortByScorePrefix(input, i);
      assert tail[0] == input[i] && tail[1..] == input[i + 1..];
      i := i + 1;
    }
    assert input[..i] == input && input[i..] == [];
    SortByScoreSpec(input);
  }

  // ---------------------------------------------------------------------------
  // Rank and medals (src/App.js:141-146)
  // ---------------------------------------------------------------------------

  /** What the rank column shows: a medal on the first three rows, the number
      `index + 1` on the others. */
  datatype RankCell = Gold | Silver | Bronze | Number(n: nat)

  /** The cell of row `index`: gold, silver and bronze medals on rows 0, 1
      and 2, and the number `index + 1` from row 3 on. */
  function RankCellAt(index: nat): (c: RankCell)
    ensures index == 0 <==> c == Gold
    ensures index == 1 <==> c == Silver
    ensures index == 2 <==> c == Bronze
    ensures c.Number? <==> index >= 3
    ensures c.Number? ==> c.n == index + 1
  {
    if index == 0 then Gold
    else if index == 1 then Silver
    else if index == 2 then Bronze
    else Number(index + 1)
  }

  /** The rank a cell stands for. */
  function RankOf(c: RankCell): nat {
    match c
    case Gold => 1
    case Silver => 2
    case Bronze => 3
    case Number(n) => n
  }

  /** A ranked row: the rank column and the record shown beside it. */
  datatype RankedResult = RankedResult(cell: RankCell, resume: ScoredResume)

  /** One table row per ranked record, in order, with the rank cell of its
      position. */
  function Rows(scored: seq<ScoredResume>): (rows: seq<RankedResult>)
    ensures |rows| == |scored|
    ensures forall i :: 0 <= i < |rows| ==> rows[i].resume == scored[i]
  {
    seq(|scored|, i requires 0 <= i < |scored| => RankedResult(RankCellAt(i), scored[i]))
  }

  /** Rows 0-2 show a gold, silver or bronze medal in place of the rank, and
      later rows show the number `index + 1`; reading a medal as rank 1-3
      (RankOf), every row stands for rank `index + 1`. */
  lemma RankCells(scored: seq<ScoredResume>)
    ensures var rows := Rows(scored);
      && (forall i :: 0 <= i < |rows| ==> RankOf(rows[i].cell) == i + 1)
      && (forall i :: 0 <= i < |rows| ==> (rows[i].cell.Number? <==> i >= 3))
      && (|rows| > 0 ==> rows[0].cell == Gold)
      && (|rows| > 1 ==> rows[1].cell == Silver)
      && (|rows| > 2 ==> rows[2].cell == Bronze)
  {
  }

  /** The ranks shown are exactly 1..N: they start at 1, go up by one from
      row to row, and no two rows show the same cell. */
  lemma RanksContiguous(scored: seq<ScoredResume>)
    ensures var rows := Rows(scored);
      && (|rows| > 0 ==> RankOf(rows[0].cell) == 1)
      && (|rows| > 0 ==> RankOf(rows[|rows| - 1].cell) == |scored|)
      && (forall i :: 0 < i < |rows| ==> RankOf(rows[i].cell) == RankOf(rows[i - 1].cell) + 1)
      && (forall i, j :: 0 <= i < j < |rows| ==> rows[i].cell != rows[j].cell)
  {
    var rows := Rows(scored);
    forall i, j | 0 <= i < j < |rows| ensures rows[i].cell != rows[j].cell {
      assert RankOf(rows[i].cell) == i + 1 && RankOf(rows[j].cell) == j + 1;
    }
  }
}
