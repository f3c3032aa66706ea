/** The selection and styling rules inside app.py: which games are still to
    come, the sorted list of open match days, the games of one match day in
    kickoff order, and the colour each result gives a row. */
module App {
  import opened Frames
  import opened Preprocessing

  // ---------------------------------------------------------------------
  // Future games

  /** `time_to_start.dt.total_seconds() > 0`. */
  predicate Upcoming(g: PreparedFixture)
  {
    g.timeToStart > 0
  }

  /** `future_games`: the prepared schedule rows that have not started, in
      schedule order. */
  function FutureGames(games: seq<PreparedFixture>): (r: seq<PreparedFixture>)
    ensures KeepsInOrder(r, games, Upcoming, Id)
  {
    Filter(games, Upcoming)
  }

  /** A game is a future game exactly when it is scheduled and has not
      started. */
  lemma FutureGamesExactly(games: seq<PreparedFixture>, g: PreparedFixture)
    ensures g in FutureGames(games) <==> g in games && g.timeToStart > 0
  {
    var r := FutureGames(games);
    KeepsInOrderMembers(r, games, Upcoming, Id);
    if g in games && g.timeToStart > 0 {
      var i :| 0 <= i < |games| && games[i] == g;
      assert Upcoming(games[i]);
    }
  }

  // ---------------------------------------------------------------------
  // Open match days

  predicate Distinct(s: seq<int>)
  {
    forall i, j :: 0 <= i < j < |s| ==> s[i] != s[j]
  }

  predicate Sorted(s: seq<int>)
  {
    forall i, j :: 0 <= i < j < |s| ==> s[i] <= s[j]
  }

  predicate StrictlyIncreasing(s: seq<int>)
  {
    forall i, j :: 0 <= i < j < |s| ==> s[i] < s[j]
  }

  /** The `week` column. */
  function Weeks(games: seq<PreparedFixture>): (r: seq<int>)
    ensures |r| == |games|
    ensures forall i :: 0 <= i < |games| ==> r[i] == games[i].raw.week
  {
    seq(|games|, i requires 0 <= i < |games| => games[i].raw.week)
  }

  /** `Series.unique()`: each value once, in order of first appearance. */
  function Unique(s: seq<int>): (r: seq<int>)
    ensures Distinct(r)
    ensures forall x :: x in r <==> x in s
    decreases |s|
  {
    if s == [] then []
    else
      var front := Unique(s[..|s| - 1]);
      assert forall x :: x in s <==> x in s[..|s| - 1] || x == s[|s| - 1] by {
        assert s == s[..|s| - 1] + [s[|s| - 1]];
      }
      if s[|s| - 1] in front then front else front + [s[|s| - 1]]
  }

  /** `list.sort()` on the match days, in place. */
  method SortInPlace(a: array<int>)
    modifies a
    ensures Sorted(a[..])
    ensures multiset(a[..]) == multiset(old(a[..]))
  {
    var i := 0;
    while i < a.Length
      invariant 0 <= i <= a.Length
      invariant forall k, l :: 0 <= k < l < i ==> a[k] <= a[l]
      invariant multiset(a[..]) == multiset(old(a[..]))
    {
      InsertLast(a, i);
      i := i + 1;
    }
  }

  /** Moves `a[i]` left into the sorted prefix `a[..i]`. */
  method InsertLast(a: array<int>, i: nat)
    requires i < a.Length
    requires forall k, l :: 0 <= k < l < i ==> a[k] <= a[l]
    modifies a
    ensures forall k, l :: 0 <= k < l <= i ==> a[k] <= a[l]
    ensures multiset(a[..]) == multiset(old(a[..]))
    ensures forall m :: i < m < a.Length ==> a[m] == old(a[m])
  {
    var j := i;
    while j > 0 && a[j - 1] > a[j]
      invariant 0 <= j <= i
      invariant forall k, l :: 0 <= k < l <= i && k != j && l != j ==> a[k] <= a[l]
      invariant forall l :: j < l <= i ==> a[j] < a[l]
      invariant multiset(a[..]) == multiset(old(a[..]))
      invariant forall m :: i < m < a.Length ==> a[m] == old(a[m])
    {
      SwapDown(a, j);
      j := j - 1;
    }
  }

  /** Exchanges `a[j - 1]` and `a[j]`. */
  method SwapDown(a: array<int>, j: nat)
    requires 0 < j < a.Length
    modifies a
    ensures a[j - 1] == old(a[j]) && a[j] == old(a[j - 1])
    ensures forall m :: 0 <= m < a.Length && m != j - 1 && m != j ==> a[m] == old(a[m])
    ensures multiset(a[..]) == multiset(old(a[..]))
  {
    a[j - 1], a[j] := a[j], a[j - 1];
  }

  /** `open_match_days`: the distinct weeks of the future games, ascending. */
  method OpenMatchDays(future: seq<PreparedFixture>) returns (days: seq<int>)
    ensures StrictlyIncreasing(days)
    ensures forall d :: d in days <==> exists g :: g in future && g.raw.week == d
  {
    var weeks := Weeks(future);
    var unique := Unique(weeks);
    var a := new int[|unique|](i requires 0 <= i < |unique| => unique[i]);
    assert a[..] == unique;
    SortInPlace(a);
    days := a[..];
    DistinctPermutation(unique, days);
    forall d ensures d in days <==> exists g :: g in future && g.raw.week == d {
      assert d in days <==> d in multiset(unique);
      if d in weeks {
        var i :| 0 <= i < |weeks| && weeks[i] == d;
        assert future[i] in future;
      }
    }
  }

  /** A value occurs at most once in a list without repeats. */
  lemma {:induction false} DistinctCount(s: seq<int>, x: int)
    requires Distinct(s)
    ensures multiset(s)[x] <= 1
    decreases |s|
  {
    if s != [] {
      var front := s[..|s| - 1];
      assert s == front + [s[|s| - 1]];
      assert Distinct(front);
      DistinctCount(front, x);
      if x == s[|s| - 1] {
        assert x !in front;
      }
    }
  }

  /** A rearrangement of a list without repeats has none either, so a sorted
      one increases strictly. */
  lemma DistinctPermutation(u: seq<int>, s: seq<int>)
    requires Distinct(u) && multiset(s) == multiset(u) && Sorted(s)
    ensures StrictlyIncreasing(s)
  {
    forall i, j | 0 <= i < j < |s| ensures s[i] < s[j] {
      if s[i] == s[j] {
        var x := s[i];
        assert s == s[..j] + s[j..];
        assert x in s[..j] && x in s[j..];
        assert multiset(s)[x] == multiset(s[..j])[x] + multiset(s[j..])[x];
        DistinctCount(u, x);
        assert false;
      }
    }
  }

  // ---------------------------------------------------------------------
  // One match day

  function InWeek(day: int): PreparedFixture -> bool
  {
    (g: PreparedFixture) => g.raw.week == day
  }

  /** `datetime_ts`, ascending. */
  function KickoffKey(g: PreparedFixture): SortKey
  {
    Value(g.raw.kickoff)
  }

  /** `future_games_matchday`: the future games of week `day`, sorted by
      kickoff. */
  function MatchDay(future: seq<PreparedFixture>, day: int): (r: seq<PreparedFixture>)
    ensures SortedBy(r, KickoffKey)
    ensures multiset(r) == multiset(Filter(future, InWeek(day)))
  {
    SortBy(Filter(future, InWeek(day)), KickoffKey)
  }

  /** A match day holds exactly the future games of that week. */
  lemma MatchDayMembers(future: seq<PreparedFixture>, day: int, g: PreparedFixture)
    ensures g in MatchDay(future, day) <==> g in future && g.raw.week == day
  {
    var f := Filter(future, InWeek(day));
    assert g in MatchDay(future, day) <==> g in f by {
      assert g in MatchDay(future, day) <==> g in multiset(f);
    }
    KeepsInOrderMembers(f, future, InWeek(day), Id);
    if g in future && g.raw.week == day {
      var i :| 0 <= i < |future| && future[i] == g;
      assert InWeek(day)(future[i]);
    }
  }

  /** The games of a match day come earliest kickoff first. */
  lemma MatchDayOrdered(future: seq<PreparedFixture>, day: int)
    ensures var r := MatchDay(future, day);
      forall i, j :: 0 <= i < j < |r| ==> r[i].raw.kickoff <= r[j].raw.kickoff
  {
    var r := MatchDay(future, day);
    forall i, j | 0 <= i < j < |r| ensures r[i].raw.kickoff <= r[j].raw.kickoff {
      assert KeyLe(KickoffKey(r[i]), KickoffKey(r[j]));
    }
  }

  // ---------------------------------------------------------------------
  // Row styling

  const ResultColumn: Label := Flat("result")

  /** The colour `custom_background_style` gives a result. */
  function BackgroundColour(result: Cell): string
  {
    if result == Text("W") then "green"
    else if result == Text("L") then "red"
    else if result == Text("D") then "yellow"
    else "white"
  }

  /** The colour `custom_foreground_style` gives a result. */
  function ForegroundColour(result: Cell): string
  {
    if result == Text("W") then "green"
    else if result == Text("L") then "red"
    else if result == Text("D") then "blue"
    else "white"
  }

  /** `[style] * len(row.values)` for the row's result, or the KeyError of
      `row["result"]`. */
  function RowStyle(cols: seq<Label>, row: seq<Cell>, property: string, colour: Cell -> string)
    : (r: Result<seq<string>>)
    ensures r.Ok? <==> ResultColumn in cols
    ensures r.Err? ==> r.error == MissingColumn(ResultColumn)
    ensures r.Ok? ==> |r.value| == |cols|
    ensures r.Ok? ==> forall k :: 0 <= k < |cols| ==> r.value[k] == property + colour(Get(cols, row, ResultColumn))
  {
    if ResultColumn !in cols then Err(MissingColumn(ResultColumn))
    else
      var style := property + colour(Get(cols, row, ResultColumn));
      Ok(seq(|cols|, k requires 0 <= k < |cols| => style))
  }

  /** `custom_background_style`. */
  function BackgroundStyle(cols: seq<Label>, row: seq<Cell>): (r: Result<seq<string>>)
    ensures r.Ok? <==> ResultColumn in cols
    ensures r.Err? ==> r.error == MissingColumn(ResultColumn)
    ensures r.Ok? ==> |r.value| == |cols| && forall k :: 0 <= k < |cols| ==>
      var res := Get(cols, row, ResultColumn);
      && (res == Text("W") ==> r.value[k] == "background-color: green")
      && (res == Text("L") ==> r.value[k] == "background-color: red")
      && (res == Text("D") ==> r.value[k] == "background-color: yellow")
      && (Outcome(res) == 3 ==> r.value[k] == "background-color: white")
  {
    RowStyle(cols, row, "background-color: ", BackgroundColour)
  }

  /** `custom_foreground_style`. */
  function ForegroundStyle(cols: seq<Label>, row: seq<Cell>): (r: Result<seq<string>>)
    ensures r.Ok? <==> ResultColumn in cols
    ensures r.Err? ==> r.error == MissingColumn(ResultColumn)
    ensures r.Ok? ==> |r.value| == |cols| && forall k :: 0 <= k < |cols| ==>
      var res := Get(cols, row, ResultColumn);
      && (res == Text("W") ==> r.value[k] == "color: green")
      && (res == Text("L") ==> r.value[k] == "color: red")
      && (res == Text("D") ==> r.value[k] == "color: blue")
      && (Outcome(res) == 3 ==> r.value[k] == "color: white")
  {
    RowStyle(cols, row, "color: ", ForegroundColour)
  }

  /** The two stylings colour every result alike except a draw. */
  lemma ColoursDifferOnlyOnDraws(result: Cell)
    ensures BackgroundColour(result) == ForegroundColour(result) <==> result != Text("D")
  {
  }

  /** Each styling tells a win, a loss, a draw and anything else apart. */
  lemma ColoursTellResultsApart(a: Cell, b: Cell)
    requires Outcome(a) != Outcome(b)
    ensures BackgroundColour(a) != BackgroundColour(b)
    ensures ForegroundColour(a) != ForegroundColour(b)
  {
  }

  /** The class of a result: 0 win, 1 loss, 2 draw, 3 anything else. */
  function Outcome(result: Cell): nat
  {
    if result == Text("W") then 0
    else if result == Text("L") then 1
    else if result == Text("D") then 2
    else 3
  }

  /** Every cell of a styled row carries the same style, naming the colour of
      the row's result. */
  lemma RowStyleUniform(cols: seq<Label>, row: seq<Cell>)
    requires ResultColumn in cols
    ensures var b := BackgroundStyle(cols, row).value;
      var f := ForegroundStyle(cols, row).value;
      var c := Get(cols, row, ResultColumn);
      && |b| == |f| == |cols|
      && (forall k :: 0 <= k < |cols| ==> b[k][18..] == BackgroundColour(c) && b[k][..18] == "background-color: ")
      && (forall k :: 0 <= k < |cols| ==> f[k][7..] == ForegroundColour(c) && f[k][..7] == "color: ")
  {
  }
}
