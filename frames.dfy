/** A small model of the pandas data frames the pipeline reshapes: an ordered
    list of column labels and an ordered list of rows, each row a list of
    cells aligned with the columns. Index levels of a frame are carried as its
    leading columns (the form `reset_index()` gives them). */
module Frames {

  /** One cell. Floating-point values (xG, Pts/MP, Poss, ...) are carried
      opaquely; `Missing` is pandas' NaN / None. */
  datatype Cell = Missing | Num(n: int) | Text(s: string) | Opaque(code: int)

  /** A column label: a plain name, or a (top, sub) pair of a two-level header. */
  datatype Label = Flat(name: string) | Pair(top: string, sub: string)

  /** The first-level label of a column. */
  function TopOf(l: Label): string
  {
    match l
    case Flat(n) => n
    case Pair(t, _) => t
  }

  datatype Frame = Frame(columns: seq<Label>, rows: seq<seq<Cell>>)

  /** What pandas or the file system raises: a KeyError on an absent label, a
      header that is not two-level where one is unpacked, an absent snapshot. */
  datatype Error = MissingColumn(column: Label) | NotTwoLevel | SnapshotMissing(path: string)

  datatype Result<T> = Ok(value: T) | Err(error: Error)

  datatype Option<T> = None | Some(value: T)

  function Min(a: int, b: int): int
  {
    if a <= b then a else b
  }

  ghost predicate Increasing(idx: seq<nat>)
  {
    forall k, l :: 0 <= k < l < |idx| ==> idx[k] < idx[l]
  }

  /** The positions of `s` whose element satisfies `p`, in ascending order. */
  function Positions<T>(s: seq<T>, p: T -> bool): (r: seq<nat>)
    ensures forall k :: 0 <= k < |r| ==> r[k] < |s| && p(s[r[k]])
    ensures Increasing(r)
    ensures forall i :: 0 <= i < |s| && p(s[i]) ==> i in r
    decreases |s|
  {
    if s == [] then []
    else
      var rest := Positions(s[..|s| - 1], p);
      if p(s[|s| - 1]) then rest + [|s| - 1] else rest
  }

  /** `tail(n)`: the last `n` elements, or all of them when there are fewer. */
  function Tail<T>(s: seq<T>, n: nat): (r: seq<T>)
    ensures |r| == Min(n, |s|)
    ensures forall k :: 0 <= k < |r| ==> r[k] == s[|s| - |r| + k]
  {
    s[|s| - Min(n, |s|)..]
  }

  /** The last `n` of some positions that satisfy `p` are at most `n`
      positions that satisfy `p`, and exactly `n` when there are that many. */
  lemma TailOfPositions<T>(e: seq<nat>, s: seq<T>, p: T -> bool, n: nat)
    requires forall k :: 0 <= k < |e| ==> e[k] < |s| && p(s[e[k]])
    ensures var t := Tail(e, n);
      && |t| <= n
      && (|e| >= n ==> |t| == n)
      && forall k :: 0 <= k < |t| ==> t[k] < |s| && p(s[t[k]])
  {
    var t := Tail(e, n);
    forall k | 0 <= k < |t| ensures t[k] < |s| && p(s[t[k]]) {
      assert t[k] == e[|e| - |t| + k];
    }
  }

  /** The elements of `s` at the positions `idx`. */
  function Pick<T>(s: seq<T>, idx: seq<nat>): (r: seq<T>)
    requires forall k :: 0 <= k < |idx| ==> idx[k] < |s|
    ensures |r| == |idx|
    ensures forall k :: 0 <= k < |idx| ==> r[k] == s[idx[k]]
  {
    seq(|idx|, k requires 0 <= k < |idx| => s[idx[k]])
  }

  /** The cells of `row` at the positions `idx` (Missing past the row's end). */
  function Cells(row: seq<Cell>, idx: seq<nat>): (r: seq<Cell>)
    ensures |r| == |idx|
    ensures forall k :: 0 <= k < |idx| && idx[k] < |row| ==> r[k] == row[idx[k]]
  {
    seq(|idx|, k requires 0 <= k < |idx| => if idx[k] < |row| then row[idx[k]] else Missing)
  }

  /** The position of the first column labelled `l`. */
  function IndexOf(cols: seq<Label>, l: Label): (r: Option<nat>)
    ensures r.Some? ==> r.value < |cols| && cols[r.value] == l
    ensures r.Some? ==> forall j :: 0 <= j < r.value ==> cols[j] != l
    ensures r.None? <==> l !in cols
    decreases |cols|
  {
    if cols == [] then None
    else if cols[0] == l then Some(0)
    else
      match IndexOf(cols[1..], l)
      case None => None
      case Some(j) => Some(j + 1)
  }

  /** Appending a label keeps the first position of `l` when `l` is already
      present or is a different label. */
  lemma {:induction false} IndexOfAppend(cols: seq<Label>, extra: Label, l: Label)
    requires l in cols || l != extra
    ensures IndexOf(cols + [extra], l) == IndexOf(cols, l)
    decreases |cols|
  {
    if cols != [] && cols[0] != l {
      assert (cols + [extra])[1..] == cols[1..] + [extra];
      assert l in cols ==> l in cols[1..];
      IndexOfAppend(cols[1..], extra, l);
    }
  }

  /** `row[l]`: the cell under the first column labelled `l`. */
  function Get(cols: seq<Label>, row: seq<Cell>, l: Label): Cell
  {
    match IndexOf(cols, l)
    case Some(j) => if j < |row| then row[j] else Missing
    case None => Missing
  }

  /** Every label of `want` is among `have`. */
  predicate HasAll(have: seq<Label>, want: seq<Label>)
  {
    forall k :: 0 <= k < |want| ==> want[k] in have
  }

  /** `[c for c in cols if c not in have]`, in the order of `want`. */
  function AbsentLabels(want: seq<Label>, have: seq<Label>): (r: seq<Label>)
    ensures forall l :: l in r <==> l in want && l !in have
    ensures r == [] <==> HasAll(have, want)
    decreases |want|
  {
    if want == [] then []
    else (if want[0] in have then [] else [want[0]]) + AbsentLabels(want[1..], have)
  }

  /** The row of `cols` projected to the labels `keep`. */
  function ProjectRow(cols: seq<Label>, row: seq<Cell>, keep: seq<Label>): (r: seq<Cell>)
    ensures |r| == |keep|
    ensures forall k :: 0 <= k < |keep| ==> r[k] == Get(cols, row, keep[k])
  {
    seq(|keep|, k requires 0 <= k < |keep| => Get(cols, row, keep[k]))
  }

  /** `f[keep]`: a KeyError naming the first absent label, otherwise the frame
      reduced to the columns `keep`, in that order, row by row. */
  function Project(f: Frame, keep: seq<Label>): (r: Result<Frame>)
    ensures r.Ok? <==> HasAll(f.columns, keep)
    ensures r.Err? ==> r.error.MissingColumn? && r.error.column in keep && r.error.column !in f.columns
    ensures r.Ok? ==> r.value.columns == keep && |r.value.rows| == |f.rows|
    ensures r.Ok? ==> forall i :: 0 <= i < |f.rows| ==> r.value.rows[i] == ProjectRow(f.columns, f.rows[i], keep)
  {
    var missing := AbsentLabels(keep, f.columns);
    if missing != [] then
      assert missing[0] in missing;
      Err(MissingColumn(missing[0]))
    else
      assert forall k :: 0 <= k < |keep| ==> keep[k] !in missing;
      Ok(Frame(keep, seq(|f.rows|, i requires 0 <= i < |f.rows| => ProjectRow(f.columns, f.rows[i], keep))))
  }

  /** `idx` are the positions, in `s`, of the elements that `r` lists. */
  ghost predicate WitnessedBy<T, U>(idx: seq<nat>, r: seq<U>, s: seq<T>, p: T -> bool, g: T -> U)
  {
    && |idx| == |r|
    && Increasing(idx)
    && (forall k :: 0 <= k < |idx| ==> idx[k] < |s| && p(s[idx[k]]) && r[k] == g(s[idx[k]]))
    && (forall i :: 0 <= i < |s| && p(s[i]) ==> i in idx)
  }

  /** `r` lists, in their original order, exactly the elements of `s` that
      satisfy `p`, each passed through `g`. */
  ghost predicate KeepsInOrder<T, U>(r: seq<U>, s: seq<T>, p: T -> bool, g: T -> U)
  {
    exists idx: seq<nat> :: WitnessedBy(idx, r, s, p, g)
  }

  /** A `query` followed by a per-row projection. */
  function Select<T, U>(s: seq<T>, p: T -> bool, g: T -> U): (r: seq<U>)
    ensures KeepsInOrder(r, s, p, g)
  {
    var idx := Positions(s, p);
    var r := seq(|idx|, k requires 0 <= k < |idx| => g(s[idx[k]]));
    assert WitnessedBy(idx, r, s, p, g);
    r
  }

  function Id<T>(x: T): T
  {
    x
  }

  /** A `query`: the elements satisfying `p`, in order. */
  function Filter<T>(s: seq<T>, p: T -> bool): (r: seq<T>)
    ensures KeepsInOrder(r, s, p, Id)
  {
    Select(s, p, Id)
  }

  /** Two lists whose elements pass the two tests alike have the same
      passing positions. */
  lemma {:induction false} PositionsAgree<T, U>(s: seq<T>, p: T -> bool, t: seq<U>, q: U -> bool)
    requires |s| == |t|
    requires forall i :: 0 <= i < |s| ==> p(s[i]) == q(t[i])
    ensures Positions(s, p) == Positions(t, q)
    decreases |s|
  {
    if s != [] {
      PositionsAgree(s[..|s| - 1], p, t[..|t| - 1], q);
    }
  }

  /** Two selections agree when their elements pass alike and the passing
      ones are transformed alike. */
  lemma SelectAgrees<T, U, V>(s: seq<T>, p: T -> bool, g: T -> V, t: seq<U>, q: U -> bool, h: U -> V)
    requires |s| == |t|
    requires forall i :: 0 <= i < |s| ==> p(s[i]) == q(t[i])
    requires forall i :: 0 <= i < |s| && p(s[i]) ==> g(s[i]) == h(t[i])
    ensures Select(s, p, g) == Select(t, q, h)
  {
    PositionsAgree(s, p, t, q);
  }

  /** The absent labels depend only on which wanted labels are present. */
  lemma {:induction false} AbsentLabelsAgree(want: seq<Label>, have: seq<Label>, have': seq<Label>)
    requires forall k :: 0 <= k < |want| ==> (want[k] in have <==> want[k] in have')
    ensures AbsentLabels(want, have) == AbsentLabels(want, have')
    decreases |want|
  {
    if want != [] {
      AbsentLabelsAgree(want[1..], have, have');
    }
  }

  /** A leading column labelled `u` does not change the cell of any other
      label. */
  lemma GetPastLeading(cols: seq<Label>, row: seq<Cell>, u: Label, c: Cell, l: Label)
    requires l != u
    ensures Get([u] + cols, [c] + row, l) == Get(cols, row, l)
  {
    assert ([u] + cols)[1..] == cols;
  }

  /** A leading column labelled `u`, which is not kept, does not change a
      projected row. */
  lemma ProjectRowPastLeading(cols: seq<Label>, row: seq<Cell>, u: Label, c: Cell, keep: seq<Label>)
    requires u !in keep
    ensures ProjectRow([u] + cols, [c] + row, keep) == ProjectRow(cols, row, keep)
  {
    forall k | 0 <= k < |keep|
      ensures Get([u] + cols, [c] + row, keep[k]) == Get(cols, row, keep[k])
    {
      GetPastLeading(cols, row, u, c, keep[k]);
    }
  }

  /** What `KeepsInOrder` says element by element: nothing is invented and
      nothing that qualifies is lost. */
  lemma KeepsInOrderMembers<T, U>(r: seq<U>, s: seq<T>, p: T -> bool, g: T -> U)
    requires KeepsInOrder(r, s, p, g)
    ensures forall y :: y in r ==> exists i :: 0 <= i < |s| && p(s[i]) && y == g(s[i])
    ensures forall i :: 0 <= i < |s| && p(s[i]) ==> g(s[i]) in r
    ensures |r| <= |s|
  {
    var idx :| WitnessedBy(idx, r, s, p, g);
    forall y | y in r ensures exists i :: 0 <= i < |s| && p(s[i]) && y == g(s[i]) {
      var k :| 0 <= k < |r| && r[k] == y;
      assert p(s[idx[k]]) && y == g(s[idx[k]]);
    }
    forall i | 0 <= i < |s| && p(s[i]) ensures g(s[i]) in r {
      var k :| 0 <= k < |idx| && idx[k] == i;
      assert r[k] == g(s[i]);
    }
    IncreasingBounded(idx, |s|);
  }

  /** An increasing list of positions below `n` has at most `n` entries. */
  lemma {:induction false} IncreasingBounded(idx: seq<nat>, n: nat)
    requires Increasing(idx)
    requires forall k :: 0 <= k < |idx| ==> idx[k] < n
    ensures |idx| <= n
    decreases n
  {
    if idx != [] {
      var last := idx[|idx| - 1];
      var front := idx[..|idx| - 1];
      assert forall k :: 0 <= k < |front| ==> front[k] < last;
      IncreasingBounded(front, last);
    }
  }

  // ----- sorting -----

  /** A sort key: a value, or NaN, which `sort_values` places last. */
  datatype SortKey = Value(n: int) | Absent

  predicate KeyLe(a: SortKey, b: SortKey)
  {
    b.Absent? || (a.Value? && a.n <= b.n)
  }

  ghost predicate SortedBy<T>(s: seq<T>, key: T -> SortKey)
  {
    forall i, j :: 0 <= i < j < |s| ==> KeyLe(key(s[i]), key(s[j]))
  }

  function Insert<T>(x: T, s: seq<T>, key: T -> SortKey): (r: seq<T>)
    requires SortedBy(s, key)
    ensures SortedBy(r, key)
    ensures multiset(r) == multiset(s) + multiset{x}
    decreases |s|
  {
    if s == [] then [x]
    else if KeyLe(key(x), key(s[0])) then [x] + s
    else
      var rest := Insert(x, s[1..], key);
      assert s == [s[0]] + s[1..];
      HeadBelow(s[0], s[1..], rest, x, key);
      ConsSorted(s[0], rest, key);
      [s[0]] + rest
  }

  /** An element at or below every element of `s` and `x` is at or below
      every element of a permutation of `s` plus `x`. */
  lemma HeadBelow<T>(h: T, s: seq<T>, rest: seq<T>, x: T, key: T -> SortKey)
    requires forall j :: 0 <= j < |s| ==> KeyLe(key(h), key(s[j]))
    requires KeyLe(key(h), key(x))
    requires multiset(rest) == multiset(s) + multiset{x}
    ensures forall j :: 0 <= j < |rest| ==> KeyLe(key(h), key(rest[j]))
  {
    forall j | 0 <= j < |rest| ensures KeyLe(key(h), key(rest[j])) {
      assert rest[j] in multiset(rest);
      if rest[j] != x {
        assert rest[j] in multiset(s);
        var i :| 0 <= i < |s| && s[i] == rest[j];
      }
    }
  }

  lemma ConsSorted<T>(h: T, rest: seq<T>, key: T -> SortKey)
    requires SortedBy(rest, key)
    requires forall j :: 0 <= j < |rest| ==> KeyLe(key(h), key(rest[j]))
    ensures SortedBy([h] + rest, key)
  {
    var r := [h] + rest;
    forall i, j | 0 <= i < j < |r| ensures KeyLe(key(r[i]), key(r[j])) {
      assert r[j] == rest[j - 1];
      if i > 0 {
        assert r[i] == rest[i - 1];
      }
    }
  }

  /** `sort_values(by=key)`: a permutation of `s` ordered by `key`, NaN last.
      No claim is made about the order of rows with equal keys. */
  function SortBy<T>(s: seq<T>, key: T -> SortKey): (r: seq<T>)
    ensures SortedBy(r, key)
    ensures multiset(r) == multiset(s)
    decreases |s|
  {
    if s == [] then []
    else
      assert s == [s[0]] + s[1..];
      Insert(s[0], SortBy(s[1..], key), key)
  }
}
