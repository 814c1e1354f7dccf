/** `GET` and `DELETE /api/leaderboard`: rank every player, or delete them all. */
module LeaderboardApi {
  import opened Wrappers
  import opened UserStore

  /** `Math.round(ms / 1000)`: the nearest whole number of seconds, halves
      rounded up (towards positive infinity, also for negative differences). */
  function RoundToSeconds(ms: int): (s: int)
    ensures 1000 * s - 500 <= ms < 1000 * s + 500
  {
    (ms + 500) / 1000
  }

  /** `timeElapsed`: null while the player has no finish time. */
  function Elapsed(u: Player): (e: Option<int>)
    ensures e.None? <==> u.finishTime.None?
    ensures e.Some? ==> 1000 * e.value - 500 <= u.finishTime.value - u.startTime < 1000 * e.value + 500
  {
    match u.finishTime
    case None => None
    case Some(f) => Some(RoundToSeconds(f - u.startTime))
  }

  /** An element of `usersWithTime`: a record and its elapsed seconds. */
  datatype Row = Row(user: Player, timeElapsed: Option<int>)

  function WithTime(users: seq<Player>): (rows: seq<Row>)
    ensures |rows| == |users|
    ensures forall i :: 0 <= i < |users| ==> rows[i] == Row(users[i], Elapsed(users[i]))
  {
    seq(|users|, i requires 0 <= i < |users| => Row(users[i], Elapsed(users[i])))
  }

  /** The three fields the comparator reads. */
  datatype Standing = Standing(status: Status, points: int, timeElapsed: Option<int>)

  function StandingOf(r: Row): Standing {
    Standing(r.user.status, r.user.points, r.timeElapsed)
  }

  /** The sort comparator: negative puts `a` first, positive puts `b` first,
      zero leaves the pair as it was. */
  function Compare(a: Standing, b: Standing): int {
    if a.status == Completed && b.status != Completed then -1
    else if a.status != Completed && b.status == Completed then 1
    else if a.points != b.points then b.points - a.points
    else if a.status == Completed && b.status == Completed
         && !FalsyNumber(a.timeElapsed) && !FalsyNumber(b.timeElapsed)
    then a.timeElapsed.value - b.timeElapsed.value
    else 0
  }

  lemma CompareAntisymmetric(a: Standing, b: Standing)
    ensures Compare(a, b) == -Compare(b, a)
  {
  }

  /** "Strictly before, then not after" gives "not after", whatever the times. */
  lemma CompareStrictThenWeak(a: Standing, b: Standing, c: Standing)
    requires Compare(a, b) < 0 && Compare(b, c) <= 0
    ensures Compare(a, c) <= 0
  {
  }

  /** A standing whose time can break ties: a Completed player with an
      elapsed time that is neither null nor 0. */
  predicate Timed(s: Standing) {
    s.status == Completed ==> !FalsyNumber(s.timeElapsed)
  }

  lemma CompareStrictThenWeakTimed(a: Standing, b: Standing, c: Standing)
    requires Timed(a) && Timed(b) && Timed(c)
    requires Compare(a, b) < 0 && Compare(b, c) <= 0
    ensures Compare(a, c) < 0
  {
  }

  lemma CompareTiesTransitive(a: Standing, b: Standing, c: Standing)
    requires Timed(a) && Timed(b) && Timed(c)
    requires Compare(a, b) == 0 && Compare(b, c) == 0
    ensures Compare(a, c) == 0
  {
  }

  /** Without the time condition ties are not transitive: a zero elapsed time
      ties with every other time in its group while those still differ. */
  lemma TiesNotTransitive()
    ensures var a := Standing(Completed, 40, Some(5));
            var z := Standing(Completed, 40, Some(0));
            var b := Standing(Completed, 40, Some(3));
            Compare(a, z) == 0 && Compare(z, b) == 0 && Compare(b, a) < 0
  {
  }

  predicate Sorted(s: seq<Row>) {
    forall i, j :: 0 <= i < j < |s| ==> Compare(StandingOf(s[i]), StandingOf(s[j])) <= 0
  }

  /** Inserts `x`, which came later in the input than every element of `s`,
      in front of the first element it must precede, so after every element
      it ties with. */
  function Insert(x: Row, s: seq<Row>): (r: seq<Row>)
    ensures |r| == |s| + 1
    ensures multiset(r) == multiset(s) + multiset{x}
  {
    if s == [] then [x]
    else if Compare(StandingOf(x), StandingOf(s[0])) < 0 then [x] + s
    else
      assert s == [s[0]] + s[1..];
      [s[0]] + Insert(x, s[1..])
  }

  /** `usersWithTime.sort(comparator)`, as a stable insertion sort. */
  function SortRows(s: seq<Row>): (r: seq<Row>)
    ensures |r| == |s|
    ensures multiset(r) == multiset(s)
  {
    if s == [] then []
    else
      assert s == s[..|s| - 1] + [s[|s| - 1]];
      Insert(s[|s| - 1], SortRows(s[..|s| - 1]))
  }

  lemma SortRowsSnoc(s: seq<Row>, x: Row)
    ensures SortRows(s + [x]) == Insert(x, SortRows(s))
  {
    assert (s + [x])[..|s|] == s;
  }

  /** Every element of `Insert(x, s)` is `x` or an element of `s`. */
  lemma InsertMembers(x: Row, s: seq<Row>, y: Row)
    requires y in Insert(x, s)
    ensures y == x || y in s
  {
    assert y in multiset(Insert(x, s));
  }

  lemma SortedCons(h: Row, t: seq<Row>)
    requires Sorted(t)
    requires forall j :: 0 <= j < |t| ==> Compare(StandingOf(h), StandingOf(t[j])) <= 0
    ensures Sorted([h] + t)
  {
    var r := [h] + t;
    forall i, j | 0 <= i < j < |r|
      ensures Compare(StandingOf(r[i]), StandingOf(r[j])) <= 0
    {
      if i == 0 {
        assert r[j] == t[j - 1];
      } else {
        assert r[i] == t[i - 1] && r[j] == t[j - 1];
      }
    }
  }

  lemma {:induction false} InsertSorted(x: Row, s: seq<Row>)
    requires Sorted(s)
    ensures Sorted(Insert(x, s))
  {
    if s == [] {
    } else if Compare(StandingOf(x), StandingOf(s[0])) < 0 {
      forall j | 0 <= j < |s|
        ensures Compare(StandingOf(x), StandingOf(s[j])) <= 0
      {
        if j > 0 {
          CompareStrictThenWeak(StandingOf(x), StandingOf(s[0]), StandingOf(s[j]));
        }
      }
      SortedCons(x, s);
    } else {
      var t := Insert(x, s[1..]);
      InsertSorted(x, s[1..]);
      CompareAntisymmetric(StandingOf(x), StandingOf(s[0]));
      forall j | 0 <= j < |t|
        ensures Compare(StandingOf(s[0]), StandingOf(t[j])) <= 0
      {
        InsertMembers(x, s[1..], t[j]);
        if t[j] != x {
          var m :| 0 <= m < |s[1..]| && s[1..][m] == t[j];
          assert s[m + 1] == t[j];
        }
      }
      SortedCons(s[0], t);
    }
  }

  /** When every Completed row has a non-zero time, so that the comparator is
      consistent, the sorted rows never put a row after one the comparator says
      must follow it. */
  lemma {:induction false} SortRowsSorted(s: seq<Row>)
    requires AllTimed(s)
    ensures Sorted(SortRows(s))
  {
    if s != [] {
      assert AllTimed(s[..|s| - 1]);
      SortRowsSorted(s[..|s| - 1]);
      InsertSorted(s[|s| - 1], SortRows(s[..|s| - 1]));
    }
  }

  /** The rows of `s` that satisfy `p`, in their order in `s`. */
  function Filter(s: seq<Row>, p: Row -> bool): seq<Row> {
    if s == [] then [] else Filter(s[..|s| - 1], p) + Keep(s[|s| - 1], p)
  }

  function Keep(x: Row, p: Row -> bool): seq<Row> {
    if p(x) then [x] else []
  }

  /** The test "the comparator returns 0 against `k`". */
  function Ties(k: Standing): Row -> bool {
    (r: Row) => Compare(k, StandingOf(r)) == 0
  }

  lemma {:induction false} FilterPrepend(x: Row, s: seq<Row>, p: Row -> bool)
    ensures Filter([x] + s, p) == Keep(x, p) + Filter(s, p)
    decreases |s|
  {
    if s == [] {
      assert [x] + s == [x];
      assert [x][..0] == [];
    } else {
      var t := [x] + s;
      assert t[..|t| - 1] == [x] + s[..|s| - 1];
      FilterPrepend(x, s[..|s| - 1], p);
    }
  }

  lemma {:induction false} FilterNone(s: seq<Row>, p: Row -> bool)
    requires forall i :: 0 <= i < |s| ==> !p(s[i])
    ensures Filter(s, p) == []
  {
    if s != [] {
      FilterNone(s[..|s| - 1], p);
    }
  }

  predicate AllTimed(s: seq<Row>) {
    forall i :: 0 <= i < |s| ==> Timed(StandingOf(s[i]))
  }

  /** A row that must precede the head of a sorted, timed sequence ties with
      none of its elements, nor does anything that ties with that row. */
  lemma NoTiesAfter(x: Row, s: seq<Row>, k: Standing)
    requires Sorted(s) && AllTimed(s) && Timed(StandingOf(x)) && Timed(k)
    requires s != [] && Compare(StandingOf(x), StandingOf(s[0])) < 0
    requires Compare(k, StandingOf(x)) == 0
    ensures Filter(s, Ties(k)) == []
  {
    var sx := StandingOf(x);
    forall i | 0 <= i < |s|
      ensures !Ties(k)(s[i])
    {
      if i > 0 {
        CompareStrictThenWeakTimed(sx, StandingOf(s[0]), StandingOf(s[i]));
      }
      if Compare(k, StandingOf(s[i])) == 0 {
        CompareAntisymmetric(k, sx);
        CompareTiesTransitive(sx, k, StandingOf(s[i]));
      }
    }
    FilterNone(s, Ties(k));
  }

  lemma SortedTail(s: seq<Row>)
    requires s != [] && Sorted(s) && AllTimed(s)
    ensures Sorted(s[1..]) && AllTimed(s[1..])
  {
    var t := s[1..];
    forall i, j | 0 <= i < j < |t|
      ensures Compare(StandingOf(t[i]), StandingOf(t[j])) <= 0
    {
      assert t[i] == s[i + 1] && t[j] == s[j + 1];
    }
    forall i | 0 <= i < |t|
      ensures Timed(StandingOf(t[i]))
    {
      assert t[i] == s[i + 1];
    }
  }

  /** The step of `InsertKeepsTies` past the head `h`: if `t` is the tail
      with `x` inserted, filtering `[h] + t` appends `x`'s share last. */
  lemma KeepsTiesPast(x: Row, h: Row, tail: seq<Row>, t: seq<Row>, p: Row -> bool)
    requires Filter(t, p) == Filter(tail, p) + Keep(x, p)
    ensures Filter([h] + t, p) == Filter([h] + tail, p) + Keep(x, p)
  {
    FilterPrepend(h, t, p);
    FilterPrepend(h, tail, p);
    AppendAssoc(Keep(h, p), Filter(tail, p), Keep(x, p));
  }

  lemma AppendAssoc<T>(a: seq<T>, b: seq<T>, c: seq<T>)
    ensures a + (b + c) == (a + b) + c
  {
  }

  lemma {:induction false} InsertKeepsTies(x: Row, s: seq<Row>, k: Standing)
    requires Sorted(s) && AllTimed(s) && Timed(StandingOf(x)) && Timed(k)
    ensures Filter(Insert(x, s), Ties(k)) == Filter(s, Ties(k)) + Keep(x, Ties(k))
  {
    if s == [] {
      assert [x][..0] == [];
    } else if Compare(StandingOf(x), StandingOf(s[0])) < 0 {
      FilterPrepend(x, s, Ties(k));
      if Compare(k, StandingOf(x)) == 0 {
        NoTiesAfter(x, s, k);
      }
    } else {
      SortedTail(s);
      InsertKeepsTies(x, s[1..], k);
      InsertPast(x, s[0], s[1..]);
      KeepsTiesPast(x, s[0], s[1..], Insert(x, s[1..]), Ties(k));
      assert s == [s[0]] + s[1..];
    }
  }

  lemma SortRowsTimed(s: seq<Row>)
    requires AllTimed(s)
    ensures AllTimed(SortRows(s))
  {
    var sorted := SortRows(s);
    forall i | 0 <= i < |sorted|
      ensures Timed(StandingOf(sorted[i]))
    {
      assert sorted[i] in multiset(s);
    }
  }

  /** Stability: when every Completed row has an elapsed time that is neither
      null nor 0, the rows the comparator ties with any standing keep their
      input order. */
  lemma {:induction false} SortRowsStable(s: seq<Row>, k: Standing)
    requires AllTimed(s) && Timed(k)
    ensures Filter(SortRows(s), Ties(k)) == Filter(s, Ties(k))
  {
    if s != [] {
      var init, x := s[..|s| - 1], s[|s| - 1];
      assert AllTimed(init);
      SortRowsStable(init, k);
      SortRowsSorted(init);
      SortRowsTimed(init);
      InsertKeepsTies(x, SortRows(init), k);
    }
  }

  lemma TimedPermutation(s: seq<Row>, r: seq<Row>)
    requires AllTimed(s) && multiset(r) == multiset(s)
    ensures AllTimed(r)
  {
    forall i | 0 <= i < |r|
      ensures Timed(StandingOf(r[i]))
    {
      assert r[i] in multiset(s);
      var j :| 0 <= j < |s| && s[j] == r[i];
    }
  }

  lemma SortedPrefix(r: seq<Row>)
    requires r != [] && Sorted(r) && AllTimed(r)
    ensures Sorted(r[..|r| - 1]) && AllTimed(r[..|r| - 1])
  {
    var q := r[..|r| - 1];
    forall i, j | 0 <= i < j < |q|
      ensures Compare(StandingOf(q[i]), StandingOf(q[j])) <= 0
    {
      assert q[i] == r[i] && q[j] == r[j];
    }
  }

  /** The last rows of two sorted, timed permutations of each other tie. */
  lemma LastRowsTie(r: seq<Row>, t: seq<Row>)
    requires r != [] && |t| == |r| && Sorted(r) && Sorted(t)
    requires multiset(r) == multiset(t)
    ensures Compare(StandingOf(r[|r| - 1]), StandingOf(t[|t| - 1])) == 0
  {
    var n := |r|;
    var x, y := r[n - 1], t[n - 1];
    assert x in multiset(t) && y in multiset(r);
    var j :| 0 <= j < n && t[j] == x;
    var i :| 0 <= i < n && r[i] == y;
    if j < n - 1 {
      assert Compare(StandingOf(t[j]), StandingOf(t[n - 1])) <= 0;
    }
    if i < n - 1 {
      assert Compare(StandingOf(r[i]), StandingOf(r[n - 1])) <= 0;
    }
    CompareAntisymmetric(StandingOf(x), StandingOf(y));
  }

  lemma FilterSnoc(s: seq<Row>, x: Row, p: Row -> bool)
    ensures Filter(s + [x], p) == Filter(s, p) + Keep(x, p)
  {
    assert (s + [x])[..|s|] == s;
  }

  lemma SnocCancel(a: seq<Row>, b: seq<Row>, x: seq<Row>, y: seq<Row>)
    requires a + x == b + y && |x| == |y|
    ensures a == b && x == y
  {
    assert a == (a + x)[..|a|];
    assert b == (b + y)[..|b|];
    assert x == (a + x)[|a|..];
    assert y == (b + y)[|b|..];
  }

  /** `r` and `t` list the rows of every tie class in the same order. */
  ghost predicate SameTies(r: seq<Row>, t: seq<Row>) {
    forall k :: Timed(k) ==> Filter(r, Ties(k)) == Filter(t, Ties(k))
  }

  lemma LastRowsEqual(r: seq<Row>, t: seq<Row>)
    requires r != [] && |t| == |r| && Sorted(r) && Sorted(t) && AllTimed(r)
    requires multiset(r) == multiset(t) && SameTies(r, t)
    ensures r[|r| - 1] == t[|t| - 1]
  {
    var n := |r|;
    var x, y := r[n - 1], t[n - 1];
    var r', t' := r[..n - 1], t[..n - 1];
    assert r == r' + [x] && t == t' + [y];
    LastRowsTie(r, t);
    var k := StandingOf(x);
    assert Timed(k);
    assert Filter(r, Ties(k)) == Filter(t, Ties(k));
    FilterSnoc(r', x, Ties(k));
    FilterSnoc(t', y, Ties(k));
    assert Keep(x, Ties(k)) == [x] && Keep(y, Ties(k)) == [y];
    SnocCancel(Filter(r', Ties(k)), Filter(t', Ties(k)), [x], [y]);
    assert x == [x][0] == [y][0] == y;
  }

  lemma SameTiesPrefix(r: seq<Row>, t: seq<Row>)
    requires r != [] && |t| == |r| && r[|r| - 1] == t[|t| - 1] && SameTies(r, t)
    ensures SameTies(r[..|r| - 1], t[..|t| - 1])
  {
    var n := |r|;
    var x := r[n - 1];
    var r', t' := r[..n - 1], t[..n - 1];
    assert r == r' + [x] && t == t' + [x];
    forall k | Timed(k)
      ensures Filter(r', Ties(k)) == Filter(t', Ties(k))
    {
      assert Filter(r, Ties(k)) == Filter(t, Ties(k));
      FilterSnoc(r', x, Ties(k));
      FilterSnoc(t', x, Ties(k));
      SnocCancel(Filter(r', Ties(k)), Filter(t', Ties(k)), Keep(x, Ties(k)), Keep(x, Ties(k)));
    }
  }

  lemma MultisetSnocCancel<T>(r: seq<T>, t: seq<T>)
    requires r != [] && t != [] && r[|r| - 1] == t[|t| - 1] && multiset(r) == multiset(t)
    ensures multiset(r[..|r| - 1]) == multiset(t[..|t| - 1])
  {
    var x, r', t' := r[|r| - 1], r[..|r| - 1], t[..|t| - 1];
    assert r == r' + [x] && t == t' + [x];
    var a, b := multiset(r'), multiset(t');
    assert a + multiset{x} == b + multiset{x};
    assert a == (a + multiset{x}) - multiset{x};
    assert b == (b + multiset{x}) - multiset{x};
  }

  /** Two sorted, timed permutations of each other that agree on the order
      within every tie class are equal. */
  lemma {:induction false} SortedUnique(r: seq<Row>, t: seq<Row>)
    requires Sorted(r) && Sorted(t) && AllTimed(r) && AllTimed(t)
    requires multiset(r) == multiset(t) && SameTies(r, t)
    ensures r == t
    decreases |r|
  {
    assert |r| == |multiset(r)| == |multiset(t)| == |t|;
    if r != [] {
      LastRowsEqual(r, t);
      SameTiesPrefix(r, t);
      MultisetSnocCancel(r, t);
      SortedPrefix(r);
      SortedPrefix(t);
      SortedUnique(r[..|r| - 1], t[..|t| - 1]);
      SnocEqual(r, t);
    }
  }

  lemma SnocEqual<T>(r: seq<T>, t: seq<T>)
    requires r != [] && |t| == |r|
    requires r[..|r| - 1] == t[..|t| - 1] && r[|r| - 1] == t[|t| - 1]
    ensures r == t
  {
    assert r == r[..|r| - 1] + [r[|r| - 1]];
    assert t == t[..|t| - 1] + [t[|t| - 1]];
  }

  /** When every Completed row has a non-zero time, any order a stable sort
      may return (a sorted permutation that keeps every tie class in store
      order) is exactly the order `SortRows` gives. */
  lemma StableSortUnique(s: seq<Row>, r: seq<Row>)
    requires AllTimed(s) && multiset(r) == multiset(s) && Sorted(r)
    requires forall k :: Timed(k) ==> Filter(r, Ties(k)) == Filter(s, Ties(k))
    ensures r == SortRows(s)
  {
    var t := SortRows(s);
    SortRowsSorted(s);
    SortRowsTimed(s);
    TimedPermutation(s, r);
    forall k | Timed(k)
      ensures Filter(r, Ties(k)) == Filter(t, Ties(k))
    {
      SortRowsStable(s, k);
    }
    assert SameTies(r, t);
    SortedUnique(r, t);
  }

  /** Three Completed players with 40 points and elapsed times 5, 0 and 3 seconds. */
  const FiveSecRow := Row(NewPlayer("a", "", "", 0).(status := Completed, points := 40), Some(5))
  const ZeroSecRow := Row(NewPlayer("z", "", "", 0).(status := Completed, points := 40), Some(0))
  const ThreeSecRow := Row(NewPlayer("b", "", "", 0).(status := Completed, points := 40), Some(3))

  /** A zero elapsed time is reachable: a player who answers the final
      challenge within half a second of registering. */
  lemma ZeroElapsedReachable()
    ensures var u := NewPlayer("z", "", "", 0).(status := Completed, points := 50, finishTime := Some(400));
      WellFormed(u) && Elapsed(u) == Some(0)
  {
  }

  /** With a zero time among them, no arrangement of the three rows both keeps
      each tied pair in store order (5 s before 0 s, 0 s before 3 s) and is
      sorted by the comparator: whatever `sort` returns for the store order
      5 s, 0 s, 3 s either swaps a tied pair or ranks 5 s above 3 s. */
  lemma ZeroTimeConflict(r: seq<Row>, i: int, j: int, k: int)
    requires 0 <= i < j < k < |r|
    requires r[i] == FiveSecRow && r[j] == ZeroSecRow && r[k] == ThreeSecRow
    ensures Compare(StandingOf(FiveSecRow), StandingOf(ZeroSecRow)) == 0
    ensures Compare(StandingOf(ZeroSecRow), StandingOf(ThreeSecRow)) == 0
    ensures !Sorted(r)
  {
    assert Compare(StandingOf(r[i]), StandingOf(r[k])) > 0;
  }

  /** One line of the response. */
  datatype Entry = Entry(
    rank: int,
    id: string,
    name: string,
    roll: string,
    points: int,
    status: Status,
    timeElapsed: Option<int>)

  function EntryOf(rank: int, r: Row): Entry {
    Entry(rank, r.user.id, r.user.name, r.user.roll, r.user.points, r.user.status, r.timeElapsed)
  }

  function EntryStanding(e: Entry): Standing {
    Standing(e.status, e.points, e.timeElapsed)
  }

  /** `sortedUsers.map((user, index) => ({ rank: index + 1, ... }))`. */
  function Ranked(rows: seq<Row>): (board: seq<Entry>)
    ensures |board| == |rows|
    ensures forall i :: 0 <= i < |rows| ==> board[i] == EntryOf(i + 1, rows[i])
  {
    seq(|rows|, i requires 0 <= i < |rows| => EntryOf(i + 1, rows[i]))
  }

  /** The handler's response body: ranks 1 to n, one entry per record. */
  function Leaderboard(users: seq<Player>): (board: seq<Entry>)
    ensures |board| == |users|
    ensures forall i :: 0 <= i < |board| ==> board[i].rank == i + 1
  {
    Ranked(SortRows(WithTime(users)))
  }

  function MapSeq<A, B>(f: A -> B, s: seq<A>): (r: seq<B>)
    ensures |r| == |s| && forall i :: 0 <= i < |s| ==> r[i] == f(s[i])
  {
    seq(|s|, i requires 0 <= i < |s| => f(s[i]))
  }

  lemma MapSeqCons<B>(f: Row -> B, x: Row, s: seq<Row>)
    ensures MapSeq(f, [x] + s) == [f(x)] + MapSeq(f, s)
  {
    var l, r := MapSeq(f, [x] + s), [f(x)] + MapSeq(f, s);
    assert |l| == |r|;
    forall i | 0 <= i < |l|
      ensures l[i] == r[i]
    {
      if i > 0 {
        assert ([x] + s)[i] == s[i - 1];
      }
    }
  }

  lemma {:induction false} InsertMapped<B>(f: Row -> B, x: Row, s: seq<Row>)
    ensures multiset(MapSeq(f, Insert(x, s))) == multiset(MapSeq(f, s)) + multiset{f(x)}
  {
    if s == [] {
      assert MapSeq(f, [x]) == [f(x)];
    } else if Compare(StandingOf(x), StandingOf(s[0])) < 0 {
      MapSeqCons(f, x, s);
    } else {
      var t := Insert(x, s[1..]);
      InsertMapped(f, x, s[1..]);
      MapSeqCons(f, s[0], t);
      MapSeqCons(f, s[0], s[1..]);
      assert s == [s[0]] + s[1..];
    }
  }

  lemma MapSeqSnoc<B>(f: Row -> B, s: seq<Row>, x: Row)
    ensures MapSeq(f, s + [x]) == MapSeq(f, s) + [f(x)]
  {
    var l, r := MapSeq(f, s + [x]), MapSeq(f, s) + [f(x)];
    forall i | 0 <= i < |l|
      ensures l[i] == r[i]
    {
      if i < |s| {
        assert (s + [x])[i] == s[i];
      }
    }
  }

  /** Sorting permutes the rows, so it permutes anything computed row by row. */
  lemma {:induction false} SortRowsMapped<B>(f: Row -> B, s: seq<Row>)
    ensures multiset(MapSeq(f, SortRows(s))) == multiset(MapSeq(f, s))
  {
    if s != [] {
      var init, x := s[..|s| - 1], s[|s| - 1];
      assert s == init + [x];
      SortRowsSnoc(init, x);
      SortRowsMapped(f, init);
      InsertMapped(f, x, SortRows(init));
      MapSeqSnoc(f, init, x);
    }
  }

  /** An entry without its rank, as the record alone determines it. */
  function Summary(u: Player): Entry {
    EntryOf(0, Row(u, Elapsed(u)))
  }

  function Unranked(e: Entry): Entry {
    e.(rank := 0)
  }

  /** The leaderboard is a permutation of the records: the same entries, each
      as often as its record, up to rank. */
  lemma LeaderboardPermutation(users: seq<Player>)
    ensures multiset(MapSeq(Unranked, Leaderboard(users))) == multiset(MapSeq(Summary, users))
  {
    var rows := WithTime(users);
    var strip := (r: Row) => EntryOf(0, r);
    SortRowsMapped(strip, rows);
    assert MapSeq(Unranked, Leaderboard(users)) == MapSeq(strip, SortRows(rows));
    assert MapSeq(strip, rows) == MapSeq(Summary, users);
  }

  function EntryId(e: Entry): string {
    e.id
  }

  function PlayerId(u: Player): string {
    u.id
  }

  /** Every record's id appears in the leaderboard exactly as often as in the
      store; with the store's unique ids, each exactly once. */
  lemma LeaderboardIds(users: seq<Player>)
    ensures multiset(MapSeq(EntryId, Leaderboard(users))) == multiset(MapSeq(PlayerId, users))
  {
    var rows := WithTime(users);
    var rowId := (r: Row) => r.user.id;
    SortRowsMapped(rowId, rows);
    assert MapSeq(EntryId, Leaderboard(users)) == MapSeq(rowId, SortRows(rows));
    assert MapSeq(rowId, rows) == MapSeq(PlayerId, users);
  }

  /** The order of the leaderboard: Completed before everyone else, more points
      first within a status, and among Completed players with equal points and
      non-zero times the faster first. It holds when every Completed player
      has a non-zero elapsed time; otherwise the comparator is inconsistent and
      the order is left to the JavaScript engine (see `ZeroTimeConflict`). */
  lemma LeaderboardOrder(users: seq<Player>)
    requires AllTimed(WithTime(users))
    ensures var board := Leaderboard(users);
      forall i, j :: 0 <= i < j < |board| ==>
        && Compare(EntryStanding(board[i]), EntryStanding(board[j])) <= 0
        && (board[j].status == Completed ==> board[i].status == Completed)
        && (board[i].status == board[j].status ==> board[i].points >= board[j].points)
        && (board[i].status == board[j].status == Completed && board[i].points == board[j].points
            && !FalsyNumber(board[i].timeElapsed) && !FalsyNumber(board[j].timeElapsed)
            ==> board[i].timeElapsed.value <= board[j].timeElapsed.value)
  {
    var sorted := SortRows(WithTime(users));
    SortRowsSorted(WithTime(users));
    var board := Leaderboard(users);
    forall i, j | 0 <= i < j < |board|
      ensures Compare(EntryStanding(board[i]), EntryStanding(board[j])) <= 0
    {
      assert EntryStanding(board[i]) == StandingOf(sorted[i]);
      assert EntryStanding(board[j]) == StandingOf(sorted[j]);
    }
  }

  /** The players of the worked ranking example; all start at time 0. */
  const ExampleA := Player("A", "", "", 40, Completed, 0, Some(120000))
  const ExampleB := Player("B", "", "", 40, Completed, 0, Some(90000))
  const ExampleC := Player("C", "", "", 50, InProgress, 0, None)
  const ExampleD := Player("D", "", "", 50, InProgress, 0, None)

  /** A (Completed, 40 points, 120 s), B (Completed, 40 points, 90 s),
      C (InProgress, 50 points), D (InProgress, 50 points) rank as B, A, C, D. */
  lemma LeaderboardExample()
    ensures var board := Leaderboard([ExampleA, ExampleB, ExampleC, ExampleD]);
      |board| == 4 && board[0].id == "B" && board[1].id == "A" && board[2].id == "C" && board[3].id == "D"
  {
    var ra, rb, rc, rd := Row(ExampleA, Some(120)), Row(ExampleB, Some(90)), Row(ExampleC, None), Row(ExampleD, None);
    ExampleSorted();
    var board := Ranked([rb, ra, rc, rd]);
    assert Leaderboard([ExampleA, ExampleB, ExampleC, ExampleD]) == board;
    assert board[0] == EntryOf(1, rb) && board[1] == EntryOf(2, ra);
    assert board[2] == EntryOf(3, rc) && board[3] == EntryOf(4, rd);
  }

  lemma ExampleSorted()
    ensures SortRows(WithTime([ExampleA, ExampleB, ExampleC, ExampleD])) ==
      [Row(ExampleB, Some(90)), Row(ExampleA, Some(120)), Row(ExampleC, None), Row(ExampleD, None)]
  {
    var ra, rb, rc, rd := Row(ExampleA, Some(120)), Row(ExampleB, Some(90)), Row(ExampleC, None), Row(ExampleD, None);
    ExampleRows();
    ExampleSortFirst();
    ExampleSortLast();
    SortRowsFour(ra, rb, rc, rd);
  }

  lemma ExampleRows()
    ensures WithTime([ExampleA, ExampleB, ExampleC, ExampleD]) ==
      [Row(ExampleA, Some(120)), Row(ExampleB, Some(90)), Row(ExampleC, None), Row(ExampleD, None)]
  {
  }

  /** One step of `Insert` past an element that `x` need not precede. */
  lemma InsertPast(x: Row, h: Row, t: seq<Row>)
    requires Compare(StandingOf(x), StandingOf(h)) >= 0
    ensures Insert(x, [h] + t) == [h] + Insert(x, t)
  {
    assert ([h] + t)[1..] == t;
  }

  lemma ExampleSortFirst()
    ensures var ra, rb, rc := Row(ExampleA, Some(120)), Row(ExampleB, Some(90)), Row(ExampleC, None);
      Insert(rc, Insert(rb, Insert(ra, []))) == [rb, ra, rc]
  {
    var ra, rb, rc := Row(ExampleA, Some(120)), Row(ExampleB, Some(90)), Row(ExampleC, None);
    assert Insert(ra, []) == [ra];
    assert Insert(rb, [ra]) == [rb] + [ra];
    InsertPast(rc, ra, []);
    InsertPast(rc, rb, [ra]);
  }

  lemma ExampleSortLast()
    ensures var ra, rb, rc, rd := Row(ExampleA, Some(120)), Row(ExampleB, Some(90)), Row(ExampleC, None), Row(ExampleD, None);
      Insert(rd, [rb, ra, rc]) == [rb, ra, rc, rd]
  {
    var ra, rb, rc, rd := Row(ExampleA, Some(120)), Row(ExampleB, Some(90)), Row(ExampleC, None), Row(ExampleD, None);
    InsertPast(rd, rc, []);
    InsertPast(rd, ra, [rc]);
    InsertPast(rd, rb, [ra, rc]);
    assert [rb] + [ra, rc] == [rb, ra, rc];
  }

  lemma SortRowsTwo(a: Row, b: Row)
    ensures SortRows([a, b]) == Insert(b, Insert(a, []))
  {
    SortRowsSnoc([], a);
    assert [] + [a] == [a];
    SortRowsSnoc([a], b);
    assert [a] + [b] == [a, b];
  }

  lemma SortRowsThree(a: Row, b: Row, c: Row)
    ensures SortRows([a, b, c]) == Insert(c, Insert(b, Insert(a, [])))
  {
    SortRowsTwo(a, b);
    SortRowsSnoc([a, b], c);
    assert [a, b] + [c] == [a, b, c];
  }

  lemma SortRowsFour(a: Row, b: Row, c: Row, d: Row)
    ensures SortRows([a, b, c, d]) == Insert(d, Insert(c, Insert(b, Insert(a, []))))
  {
    SortRowsThree(a, b, c);
    SortRowsSnoc([a, b, c], d);
    assert [a, b, c] + [d] == [a, b, c, d];
  }

  datatype DeleteResponse = Deleted(message: string)

  function DeleteHttpStatus(r: DeleteResponse): int {
    200
  }

  /** Deletes every record; the leaderboard is then empty. */
  method Delete(users: UserTable) returns (r: DeleteResponse)
    requires users.Valid()
    modifies users
    ensures users.Valid()
    ensures users.rows == [] && Leaderboard(users.rows) == []
    ensures r == Deleted("Leaderboard reset successfully") && DeleteHttpStatus(r) == 200
  {
    users.DeleteAll();
    r := Deleted("Leaderboard reset successfully");
  }
}
