/** The provider list's derived rows: pair each record with its original
    index, keep the rows whose fields contain the filter (ignoring case),
    then sort them stably by one field and direction. */
module Pipeline {
  import opened Text
  import opened Providers

  datatype Direction = Asc | Desc

  /** A record paired with its index in the unfiltered, unsorted sequence. */
  datatype Row = Row(provider: Provider, idx: nat)

  /** `providers.map((provider, idx) => ({ provider, idx }))` */
  function Indexed(ps: seq<Provider>): (rows: seq<Row>)
    ensures |rows| == |ps|
    ensures forall i :: 0 <= i < |ps| ==> rows[i] == Row(ps[i], i)
  {
    seq(|ps|, i requires 0 <= i < |ps| => Row(ps[i], i))
  }

  /** The filter's test: one of the five fields, lower-cased, contains the
      lower-cased filter. */
  predicate Matches(p: Provider, filter: string)
  {
    var q := Lower(filter);
    Contains(Lower(p.firstName), q) || Contains(Lower(p.lastName), q)
    || Contains(Lower(p.emailAddress), q) || Contains(Lower(p.specialty), q)
    || Contains(Lower(p.practiceName), q)
  }

  /** The filter keeps a record iff some field contains the filter, case
      ignored. */
  lemma MatchesAnyField(p: Provider, filter: string)
    ensures Matches(p, filter) <==> exists k :: Contains(Lower(p.Get(k)), Lower(filter))
  {
    if Matches(p, filter) {
      var q := Lower(filter);
      if Contains(Lower(p.firstName), q) {
        assert Contains(Lower(p.Get(FirstName)), q);
      } else if Contains(Lower(p.lastName), q) {
        assert Contains(Lower(p.Get(LastName)), q);
      } else if Contains(Lower(p.emailAddress), q) {
        assert Contains(Lower(p.Get(EmailAddress)), q);
      } else if Contains(Lower(p.specialty), q) {
        assert Contains(Lower(p.Get(Specialty)), q);
      } else {
        assert Contains(Lower(p.Get(PracticeName)), q);
      }
    }
  }

  /** The `.filter(...)` step over paired rows: exactly the matching rows
      remain. */
  function FilterRows(rows: seq<Row>, filter: string): (r: seq<Row>)
    ensures |r| <= |rows|
    ensures forall x :: x in r <==> x in rows && Matches(x.provider, filter)
  {
    if rows == [] then []
    else (if Matches(rows[0].provider, filter) then [rows[0]] else []) + FilterRows(rows[1..], filter)
  }

  /** `filteredData` */
  function Filtered(ps: seq<Provider>, filter: string): seq<Row>
  {
    FilterRows(Indexed(ps), filter)
  }

  /** Original indices strictly increase along the rows. */
  predicate Increasing(rows: seq<Row>) {
    forall a, b :: 0 <= a < b < |rows| ==> rows[a].idx < rows[b].idx
  }

  /** Every row pairs a record with that record's own original index. */
  predicate Paired(rows: seq<Row>, ps: seq<Provider>) {
    forall x :: x in rows ==> x.idx < |ps| && ps[x.idx] == x.provider
  }

  /** Keeping a subsequence of an increasing tail behind its head keeps
      the indices increasing. */
  lemma IncreasingCons(x: Row, tail: seq<Row>, rest: seq<Row>)
    requires Increasing([x] + tail) && Increasing(rest)
    requires forall y :: y in rest ==> y in tail
    ensures Increasing([x] + rest)
  {
    forall y | y in rest ensures x.idx < y.idx {
      var b :| 0 <= b < |tail| && tail[b] == y;
      assert ([x] + tail)[0] == x && ([x] + tail)[b + 1] == y;
    }
    forall a, b | 0 <= a < b < |[x] + rest| ensures ([x] + rest)[a].idx < ([x] + rest)[b].idx {
      if a == 0 {
        assert ([x] + rest)[b] == rest[b - 1];
      } else {
        assert ([x] + rest)[a] == rest[a - 1] && ([x] + rest)[b] == rest[b - 1];
      }
    }
  }

  lemma {:induction false} FilterRowsIncreasing(rows: seq<Row>, filter: string)
    requires Increasing(rows)
    ensures Increasing(FilterRows(rows, filter))
  {
    if rows != [] {
      var tail := rows[1..];
      assert rows == [rows[0]] + tail;
      FilterRowsIncreasing(tail, filter);
      if Matches(rows[0].provider, filter) {
        IncreasingCons(rows[0], tail, FilterRows(tail, filter));
      }
    }
  }

  /** `filteredData` holds, in original order, exactly the records that
      match, each paired with its own index. */
  lemma FilteredSpec(ps: seq<Provider>, filter: string)
    ensures Increasing(Filtered(ps, filter))
    ensures Paired(Filtered(ps, filter), ps)
    ensures forall x :: x in Filtered(ps, filter) ==> Matches(x.provider, filter)
    ensures forall i :: 0 <= i < |ps| && Matches(ps[i], filter) ==> Row(ps[i], i) in Filtered(ps, filter)
  {
    var rows := Indexed(ps);
    FilterRowsIncreasing(rows, filter);
    forall x | x in rows ensures x.idx < |ps| && ps[x.idx] == x.provider {
      var i :| 0 <= i < |rows| && rows[i] == x;
    }
    forall i | 0 <= i < |ps| && Matches(ps[i], filter) ensures Row(ps[i], i) in Filtered(ps, filter) {
      assert rows[i] == Row(ps[i], i);
    }
  }

  lemma {:induction false} FilterRowsAllMatch(rows: seq<Row>, filter: string)
    requires forall x :: x in rows ==> Matches(x.provider, filter)
    ensures FilterRows(rows, filter) == rows
  {
    if rows != [] {
      FilterRowsAllMatch(rows[1..], filter);
      assert [rows[0]] + rows[1..] == rows;
    }
  }

  /** An empty filter keeps every record, in original order, each paired
      with its index. */
  lemma EmptyFilterKeepsAll(ps: seq<Provider>)
    ensures Filtered(ps, "") == Indexed(ps)
  {
    forall x | x in Indexed(ps) ensures Matches(x.provider, "") {
      ContainsEmpty(Lower(x.provider.firstName));
    }
    FilterRowsAllMatch(Indexed(ps), "");
  }

  /** The filter is folded once: typing it already lower-cased gives the
      same rows. */
  lemma FilterFoldedOnce(ps: seq<Provider>, filter: string)
    ensures Filtered(ps, Lower(filter)) == Filtered(ps, filter)
  {
    LowerIdempotent(filter);
    FilterIgnoresCase(ps, Lower(filter), filter);
  }

  /** Filtering ignores the case of the filter text. */
  lemma FilterIgnoresCase(ps: seq<Provider>, filter: string, other: string)
    requires Lower(filter) == Lower(other)
    ensures Filtered(ps, filter) == Filtered(ps, other)
  {
    FilterRowsSameTest(Indexed(ps), filter, other);
  }

  lemma {:induction false} FilterRowsSameTest(rows: seq<Row>, filter: string, other: string)
    requires Lower(filter) == Lower(other)
    ensures FilterRows(rows, filter) == FilterRows(rows, other)
  {
    if rows != [] {
      FilterRowsSameTest(rows[1..], filter, other);
    }
  }

  /** The sort key of a row: its `sortKey` field, lower-cased. */
  function KeyOf(r: Row, key: Field): string {
    Lower(r.provider.Get(key))
  }

  /** The comparator returns a negative number: `a` goes strictly before
      `b`. */
  predicate Before(a: Row, b: Row, key: Field, dir: Direction) {
    match dir
    case Asc => LexLess(KeyOf(a, key), KeyOf(b, key))
    case Desc => LexLess(KeyOf(b, key), KeyOf(a, key))
  }

  /** `a` may stand before `b`: keys non-decreasing for `Asc`,
      non-increasing for `Desc`. */
  predicate InOrder(a: Row, b: Row, key: Field, dir: Direction) {
    match dir
    case Asc => LexLeq(KeyOf(a, key), KeyOf(b, key))
    case Desc => LexLeq(KeyOf(b, key), KeyOf(a, key))
  }

  predicate Sorted(rows: seq<Row>, key: Field, dir: Direction) {
    forall j :: 0 <= j < |rows| - 1 ==> InOrder(rows[j], rows[j + 1], key, dir)
  }

  /** Inserts `x` before the first row that does not go strictly before
      it, so that `x` stays ahead of rows with an equal key. */
  function Insert(x: Row, rows: seq<Row>, key: Field, dir: Direction): (r: seq<Row>)
    ensures |r| == |rows| + 1
    ensures multiset(r) == multiset(rows) + multiset{x}
    ensures r[0] == x || (rows != [] && r[0] == rows[0])
  {
    if rows == [] then [x]
    else if Before(rows[0], x, key, dir) then
      assert rows == [rows[0]] + rows[1..];
      [rows[0]] + Insert(x, rows[1..], key, dir)
    else [x] + rows
  }

  /** `[...filteredData].sort(...)`, as a stable insertion sort: the
      result is a permutation of the input. */
  function SortRows(rows: seq<Row>, key: Field, dir: Direction): (r: seq<Row>)
    ensures |r| == |rows|
    ensures multiset(r) == multiset(rows)
  {
    if rows == [] then []
    else
      assert rows == [rows[0]] + rows[1..];
      Insert(rows[0], SortRows(rows[1..], key, dir), key, dir)
  }

  /** If the comparator does not put `b` before `a`, `a` may stand
      before `b`. */
  lemma NotBeforeInOrder(a: Row, b: Row, key: Field, dir: Direction)
    requires !Before(b, a, key, dir)
    ensures InOrder(a, b, key, dir)
  {
    LexTotal(KeyOf(a, key), KeyOf(b, key));
  }

  /** A row in order with the head of a sorted sequence extends it. */
  lemma SortedCons(x: Row, rows: seq<Row>, key: Field, dir: Direction)
    requires Sorted(rows, key, dir)
    requires rows != [] ==> InOrder(x, rows[0], key, dir)
    ensures Sorted([x] + rows, key, dir)
  {
    forall j | 0 <= j < |[x] + rows| - 1 ensures InOrder(([x] + rows)[j], ([x] + rows)[j + 1], key, dir) {
      if j > 0 {
        assert ([x] + rows)[j] == rows[j - 1] && ([x] + rows)[j + 1] == rows[j];
      }
    }
  }

  lemma {:induction false} InsertSorted(x: Row, rows: seq<Row>, key: Field, dir: Direction)
    requires Sorted(rows, key, dir)
    ensures Sorted(Insert(x, rows, key, dir), key, dir)
  {
    if rows == [] {
    } else if Before(rows[0], x, key, dir) {
      var tail := rows[1..];
      assert Sorted(tail, key, dir) by {
        forall j | 0 <= j < |tail| - 1 ensures InOrder(tail[j], tail[j + 1], key, dir) {
          assert tail[j] == rows[j + 1] && tail[j + 1] == rows[j + 2];
        }
      }
      InsertSorted(x, tail, key, dir);
      var rest := Insert(x, tail, key, dir);
      if rest[0] == x {
        assert InOrder(rows[0], x, key, dir);
      } else {
        assert InOrder(rows[0], rows[1], key, dir);
      }
      SortedCons(rows[0], rest, key, dir);
    } else {
      NotBeforeInOrder(x, rows[0], key, dir);
      SortedCons(x, rows, key, dir);
    }
  }

  /** The sorted rows are in order: adjacent keys are non-decreasing for
      `Asc` and non-increasing for `Desc`. */
  lemma {:induction false} SortRowsSorted(rows: seq<Row>, key: Field, dir: Direction)
    ensures Sorted(SortRows(rows, key, dir), key, dir)
  {
    if rows != [] {
      SortRowsSorted(rows[1..], key, dir);
      InsertSorted(rows[0], SortRows(rows[1..], key, dir), key, dir);
    }
  }

  /** The order between two rows is transitive in either direction. */
  lemma InOrderTransitive(a: Row, b: Row, c: Row, key: Field, dir: Direction)
    requires InOrder(a, b, key, dir) && InOrder(b, c, key, dir)
    ensures InOrder(a, c, key, dir)
  {
    match dir
    case Asc => LexLeqTransitive(KeyOf(a, key), KeyOf(b, key), KeyOf(c, key));
    case Desc => LexLeqTransitive(KeyOf(c, key), KeyOf(b, key), KeyOf(a, key));
  }

  /** Ordered neighbours make every earlier row in order with every later
      one. */
  lemma {:induction false} SortedPairwise(rows: seq<Row>, key: Field, dir: Direction)
    requires Sorted(rows, key, dir)
    ensures forall i, j :: 0 <= i < j < |rows| ==> InOrder(rows[i], rows[j], key, dir)
  {
    if |rows| > 1 {
      var tail := rows[1..];
      assert Sorted(tail, key, dir) by {
        forall j | 0 <= j < |tail| - 1 ensures InOrder(tail[j], tail[j + 1], key, dir) {
          assert tail[j] == rows[j + 1] && tail[j + 1] == rows[j + 2];
        }
      }
      SortedPairwise(tail, key, dir);
      forall i, j | 0 <= i < j < |rows| ensures InOrder(rows[i], rows[j], key, dir) {
        if i > 0 {
          assert rows[i] == tail[i - 1] && rows[j] == tail[j - 1];
        } else if j > 1 {
          assert rows[1] == tail[0] && rows[j] == tail[j - 1];
          InOrderTransitive(rows[0], rows[1], rows[j], key, dir);
        }
      }
    }
  }

  /** The rows whose key equals `v`, in their order. */
  function WithKey(rows: seq<Row>, key: Field, v: string): (r: seq<Row>)
    ensures forall x :: x in r <==> x in rows && KeyOf(x, key) == v
  {
    if rows == [] then []
    else (if KeyOf(rows[0], key) == v then [rows[0]] else []) + WithKey(rows[1..], key, v)
  }

  /** `WithKey` of a sequence with a given first row. */
  lemma WithKeyCons(x: Row, rows: seq<Row>, key: Field, v: string)
    ensures WithKey([x] + rows, key, v) == (if KeyOf(x, key) == v then [x] else []) + WithKey(rows, key, v)
  {
    assert ([x] + rows)[1..] == rows;
  }

  /** Rows with different keys can trade places without changing any
      key's subsequence. */
  lemma WithKeySwap(x: Row, y: Row, rest: seq<Row>, moved: seq<Row>, key: Field, v: string)
    requires KeyOf(x, key) != KeyOf(y, key)
    requires WithKey(moved, key, v) == WithKey([x] + rest, key, v)
    ensures WithKey([y] + moved, key, v) == WithKey([x] + ([y] + rest), key, v)
  {
    WithKeyCons(y, moved, key, v);
    WithKeyCons(x, rest, key, v);
    WithKeyCons(x, [y] + rest, key, v);
    WithKeyCons(y, rest, key, v);
  }

  lemma {:induction false} InsertStable(x: Row, rows: seq<Row>, key: Field, dir: Direction, v: string)
    ensures WithKey(Insert(x, rows, key, dir), key, v) == WithKey([x] + rows, key, v)
  {
    if rows != [] && Before(rows[0], x, key, dir) {
      var y, rest := rows[0], rows[1..];
      assert rows == [y] + rest;
      InsertStable(x, rest, key, dir, v);
      LexLessAsymmetric(KeyOf(x, key), KeyOf(y, key));
      WithKeySwap(x, y, rest, Insert(x, rest, key, dir), key, v);
    }
  }

  /** The sort is stable: among rows with one key value, the sorted rows
      keep the order they had on input. The direction changes only which
      keys come first, never the order within a key. */
  lemma {:induction false} SortStable(rows: seq<Row>, key: Field, dir: Direction, v: string)
    ensures WithKey(SortRows(rows, key, dir), key, v) == WithKey(rows, key, v)
  {
    if rows != [] {
      var rest := SortRows(rows[1..], key, dir);
      SortStable(rows[1..], key, dir, v);
      InsertStable(rows[0], rest, key, dir, v);
      assert ([rows[0]] + rest)[1..] == rest;
      assert ([rows[0]] + rows[1..]) == rows;
    }
  }

  lemma {:induction false} WithKeyIncreasing(rows: seq<Row>, key: Field, v: string)
    requires Increasing(rows)
    ensures Increasing(WithKey(rows, key, v))
  {
    if rows != [] {
      var tail := rows[1..];
      assert rows == [rows[0]] + tail;
      WithKeyIncreasing(tail, key, v);
      if KeyOf(rows[0], key) == v {
        IncreasingCons(rows[0], tail, WithKey(tail, key, v));
      }
    }
  }

  /** How many rows ahead of position `a` have key `v`: where the row at
      `a` lands among the rows with key `v`. */
  function Rank(rows: seq<Row>, key: Field, v: string, a: nat): nat
    requires a <= |rows|
  {
    if a == 0 then 0
    else (if KeyOf(rows[0], key) == v then 1 else 0) + Rank(rows[1..], key, v, a - 1)
  }

  /** A row with key `v` sits at its rank among the rows with key `v`. */
  lemma {:induction false} WithKeyAt(rows: seq<Row>, key: Field, v: string, a: nat)
    requires a < |rows| && KeyOf(rows[a], key) == v
    ensures Rank(rows, key, v, a) < |WithKey(rows, key, v)|
    ensures WithKey(rows, key, v)[Rank(rows, key, v, a)] == rows[a]
  {
    var tail := rows[1..];
    assert rows == [rows[0]] + tail;
    WithKeyCons(rows[0], tail, key, v);
    if a > 0 {
      assert tail[a - 1] == rows[a];
      WithKeyAt(tail, key, v, a - 1);
    }
  }

  /** Ranks of rows with key `v` grow with their position. */
  lemma {:induction false} RankIncreases(rows: seq<Row>, key: Field, v: string, a: nat, b: nat)
    requires a < b <= |rows| && KeyOf(rows[a], key) == v
    ensures Rank(rows, key, v, a) < Rank(rows, key, v, b)
  {
    if a > 0 {
      assert rows[1..][a - 1] == rows[a];
      RankIncreases(rows[1..], key, v, a - 1, b - 1);
    }
  }

  /** `sortedData` */
  function Visible(ps: seq<Provider>, filter: string, key: Field, dir: Direction): seq<Row>
  {
    SortRows(Filtered(ps, filter), key, dir)
  }

  /** `sortedData` is `filteredData` reordered: the same rows, each once,
      in key order. */
  lemma VisibleSpec(ps: seq<Provider>, filter: string, key: Field, dir: Direction)
    ensures multiset(Visible(ps, filter, key, dir)) == multiset(Filtered(ps, filter))
    ensures Sorted(Visible(ps, filter, key, dir), key, dir)
    ensures Paired(Visible(ps, filter, key, dir), ps)
    ensures forall i :: 0 <= i < |ps| ==> (Matches(ps[i], filter) <==> Row(ps[i], i) in Visible(ps, filter, key, dir))
  {
    var f := Filtered(ps, filter);
    var v := Visible(ps, filter, key, dir);
    FilteredSpec(ps, filter);
    SortRowsSorted(f, key, dir);
    assert forall x :: x in v <==> x in f by {
      forall x ensures x in v <==> x in f {
        assert x in v <==> x in multiset(v);
        assert x in f <==> x in multiset(f);
      }
    }
  }

  /** Rows with equal keys keep their filtered order: the earlier original
      index comes first. */
  lemma VisibleStable(ps: seq<Provider>, filter: string, key: Field, dir: Direction, a: nat, b: nat)
    requires a < b < |Visible(ps, filter, key, dir)|
    requires KeyOf(Visible(ps, filter, key, dir)[a], key) == KeyOf(Visible(ps, filter, key, dir)[b], key)
    ensures Visible(ps, filter, key, dir)[a].idx < Visible(ps, filter, key, dir)[b].idx
  {
    var f := Filtered(ps, filter);
    var vis := Visible(ps, filter, key, dir);
    var v := KeyOf(vis[a], key);
    FilteredSpec(ps, filter);
    SortStable(f, key, dir, v);
    WithKeyIncreasing(f, key, v);
    WithKeyAt(vis, key, v, a);
    WithKeyAt(vis, key, v, b);
    RankIncreases(vis, key, v, a, b);
  }

  /** No two rows are equal. */
  predicate Distinct(rows: seq<Row>) {
    forall a, b :: 0 <= a < b < |rows| ==> rows[a] != rows[b]
  }

  lemma {:induction false} DistinctCount(rows: seq<Row>, x: Row)
    requires Distinct(rows)
    ensures multiset(rows)[x] <= 1
  {
    if rows != [] {
      assert rows == [rows[0]] + rows[1..];
      DistinctCount(rows[1..], x);
      if rows[0] == x {
        forall b | 0 <= b < |rows[1..]| ensures rows[1..][b] != x {
          assert rows[b + 1] == rows[1..][b];
        }
      }
    }
  }

  lemma PermutationDistinct(rows: seq<Row>, other: seq<Row>)
    requires multiset(rows) == multiset(other) && Distinct(rows)
    ensures Distinct(other)
  {
    forall a, b | 0 <= a < b < |other| ensures other[a] != other[b] {
      if other[a] == other[b] {
        var x := other[a];
        assert other == other[..b] + [x] + other[b + 1..];
        assert x in other[..b];
        assert multiset(other)[x] >= 2;
        DistinctCount(rows, x);
      }
    }
  }

  /** The original indices of the rows, as a set. */
  function Indices(rows: seq<Row>): set<nat> {
    set x | x in rows :: x.idx
  }

  /** Each visible row has its own original index, so there are as many
      visible indices as visible rows. */
  lemma VisibleIndicesCount(ps: seq<Provider>, filter: string, key: Field, dir: Direction)
    ensures |Indices(Visible(ps, filter, key, dir))| == |Visible(ps, filter, key, dir)|
    ensures forall i :: i in Indices(Visible(ps, filter, key, dir)) ==> i < |ps|
  {
    var f := Filtered(ps, filter);
    var vis := Visible(ps, filter, key, dir);
    VisibleSpec(ps, filter, key, dir);
    FilteredSpec(ps, filter);
    PermutationDistinct(f, vis);
    forall a, b | 0 <= a < b < |vis| ensures vis[a].idx != vis[b].idx {
      assert vis[a] in vis && vis[b] in vis;
    }
    DistinctIndicesCount(vis);
  }

  lemma IndicesCons(rows: seq<Row>)
    requires rows != []
    ensures Indices(rows) == {rows[0].idx} + Indices(rows[1..])
  {
    assert rows == [rows[0]] + rows[1..];
  }

  lemma {:induction false} DistinctIndicesCount(rows: seq<Row>)
    requires forall a, b :: 0 <= a < b < |rows| ==> rows[a].idx != rows[b].idx
    ensures |Indices(rows)| == |rows|
  {
    if rows != [] {
      var rest := rows[1..];
      DistinctIndicesCount(rest);
      IndicesCons(rows);
      forall y | y in rest ensures y.idx != rows[0].idx {
        var b :| 0 <= b < |rest| && rest[b] == y;
        assert rows[b + 1] == y;
      }
      assert rows[0].idx !in Indices(rest);
    }
  }
}
