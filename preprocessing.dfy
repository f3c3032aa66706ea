/** The five transforms of preprocessing.py, each a pure function from raw
    frames to presentation frames, and the club-abbreviation table. */
module Preprocessing {
  import opened Strings
  import opened Frames

  // ---------------------------------------------------------------------
  // Club abbreviations

  /** The fixed table of known clubs. */
  const AbbrTable: map<string, string> := map[
    "Werder Bremen" := "SVW",
    "Augsburg" := "FCA",
    "Dortmund" := "BVB",
    "Hoffenheim" := "TSG",
    "Leverkusen" := "B04",
    "Stuttgart" := "VfB",
    "Wolfsburg" := "WOB",
    "Eint Frankfurt" := "SGE",
    "Union Berlin" := "FCU",
    "RB Leipzig" := "RBL",
    "Bochum" := "BOC",
    "Darmstadt 98" := "SVD",
    "Freiburg" := "SCF",
    "Heidenheim" := "HDH",
    "Köln" := "KOE",
    "M'Gladbach" := "BMG",
    "Bayern Munich" := "FCB",
    "Mainz 05" := "M05"
  ]

  /** `_club_to_abbr`: the table's code for a known club, otherwise the first
      three characters of the name, upper-cased. */
  function ClubToAbbr(name: string): (r: string)
    ensures name in AbbrTable ==> r == AbbrTable[name]
    ensures name !in AbbrTable ==> |r| == Min(3, |name|)
    ensures name !in AbbrTable ==> forall i :: 0 <= i < |r| ==> r[i] == UpperChar(name[i])
    ensures |r| <= 3
    ensures 'v' !in r
  {
    if name in AbbrTable then
      AbbrTable[name]
    else
      var r := Upper(name[..Min(3, |name|)]);
      assert forall i :: 0 <= i < |r| ==> r[i] != 'v';
      r
  }

  /** The table read backwards: the club of each code. */
  ghost const ClubOfCode: map<string, string> := map[
    "SVW" := "Werder Bremen",
    "FCA" := "Augsburg",
    "BVB" := "Dortmund",
    "TSG" := "Hoffenheim",
    "B04" := "Leverkusen",
    "VfB" := "Stuttgart",
    "WOB" := "Wolfsburg",
    "SGE" := "Eint Frankfurt",
    "FCU" := "Union Berlin",
    "RBL" := "RB Leipzig",
    "BOC" := "Bochum",
    "SVD" := "Darmstadt 98",
    "SCF" := "Freiburg",
    "HDH" := "Heidenheim",
    "KOE" := "Köln",
    "BMG" := "M'Gladbach",
    "FCB" := "Bayern Munich",
    "M05" := "Mainz 05"
  ]

  /** Every known club's code leads back to the club. */
  lemma CodesLeadBack(a: string)
    requires a in AbbrTable
    ensures AbbrTable[a] in ClubOfCode && ClubOfCode[AbbrTable[a]] == a
  {
  }

  /** No two known clubs share a code. */
  lemma KnownCodesDistinct(a: string, b: string)
    requires a in AbbrTable && b in AbbrTable && a != b
    ensures ClubToAbbr(a) != ClubToAbbr(b)
  {
    CodesLeadBack(a);
    CodesLeadBack(b);
  }

  // ---------------------------------------------------------------------
  // Schedule

  const SecondsPerHour: int := 3600
  const SecondsPerDay: int := 24 * SecondsPerHour

  /** A raw schedule row. `kickoff` is the timestamp (in seconds) that pandas
      parses from the `date` and `time` columns; `others` are the remaining
      columns, passed through untouched. */
  datatype Fixture = Fixture(
    week: int, day: string, date: string, time: string,
    homeTeam: string, awayTeam: string, game: string,
    kickoff: int, others: seq<Cell>)

  /** A schedule row with the derived columns: `datetime_ts` is `raw.kickoff`;
      the helper columns `datetime` and `today` are not carried. */
  datatype PreparedFixture = PreparedFixture(
    raw: Fixture, timeToStart: int, daysToStart: int, hoursToStart: int,
    homeAbbr: string, awayAbbr: string, gameStr: string)

  /** `Timedelta.days`: the whole days of a duration, rounded down. */
  function Days(d: int): (days: int)
    ensures days * SecondsPerDay <= d < (days + 1) * SecondsPerDay
  {
    d / SecondsPerDay
  }

  /** `Timedelta.seconds // 3600`: the whole hours left over after the days. */
  function Hours(d: int): (h: int)
    ensures 0 <= h < 24
    ensures Days(d) * SecondsPerDay + h * SecondsPerHour <= d
    ensures d < Days(d) * SecondsPerDay + (h + 1) * SecondsPerHour
  {
    (d % SecondsPerDay) / SecondsPerHour
  }

  /** The tab label of a game. */
  function GameLabel(homeAbbr: string, awayAbbr: string): string
  {
    homeAbbr + " vs " + awayAbbr
  }

  /** One row of `prep_schedule_data`, with "now" given. */
  function PrepareFixture(f: Fixture, now: int): (p: PreparedFixture)
    ensures p.raw == f
    ensures p.timeToStart == f.kickoff - now
    ensures p.daysToStart * SecondsPerDay <= p.timeToStart < (p.daysToStart + 1) * SecondsPerDay
    ensures 0 <= p.hoursToStart < 24
    ensures p.daysToStart * SecondsPerDay + p.hoursToStart * SecondsPerHour <= p.timeToStart
    ensures p.timeToStart < p.daysToStart * SecondsPerDay + (p.hoursToStart + 1) * SecondsPerHour
    ensures p.homeAbbr == ClubToAbbr(f.homeTeam) && p.awayAbbr == ClubToAbbr(f.awayTeam)
    ensures p.gameStr == p.homeAbbr + " vs " + p.awayAbbr
  {
    var d := f.kickoff - now;
    var home := ClubToAbbr(f.homeTeam);
    var away := ClubToAbbr(f.awayTeam);
    PreparedFixture(f, d, Days(d), Hours(d), home, away, GameLabel(home, away))
  }

  /** `prep_schedule_data`: one prepared row per schedule row, in order. */
  function PrepSchedule(schedule: seq<Fixture>, now: int): (r: seq<PreparedFixture>)
    ensures |r| == |schedule|
    ensures forall i :: 0 <= i < |r| ==> r[i] == PrepareFixture(schedule[i], now)
  {
    seq(|schedule|, i requires 0 <= i < |schedule| => PrepareFixture(schedule[i], now))
  }

  /** A game that started an hour ago shows -1 days and 23 hours, as pandas'
      floored durations do. */
  lemma JustStarted(f: Fixture)
    ensures var p := PrepareFixture(f, f.kickoff + SecondsPerHour);
      p.daysToStart == -1 && p.hoursToStart == 23
  {
  }

  /** A label determines the two codes it was built from, so two games of a
      match day share a label only if their clubs share codes. */
  lemma {:induction false} GameLabelDeterminesCodes(h: string, a: string, h': string, a': string)
    requires 'v' !in h && 'v' !in h'
    requires GameLabel(h, a) == GameLabel(h', a')
    ensures h == h' && a == a'
  {
    assert GameLabel(h, a) == (h + " ") + ['v'] + ("s " + a);
    assert GameLabel(h', a') == (h' + " ") + ['v'] + ("s " + a');
    CancelAtSeparator(h + " ", "s " + a, h' + " ", "s " + a', 'v');
    assert h == (h + " ")[..|h|] && h' == (h' + " ")[..|h'|];
    assert a == ("s " + a)[2..] && a' == ("s " + a')[2..];
  }

  lemma GameLabelDeterminesClubCodes(p: PreparedFixture, q: PreparedFixture, now: int)
    requires p == PrepareFixture(p.raw, now) && q == PrepareFixture(q.raw, now)
    requires p.gameStr == q.gameStr
    ensures p.homeAbbr == q.homeAbbr && p.awayAbbr == q.awayAbbr
  {
    GameLabelDeterminesCodes(p.homeAbbr, p.awayAbbr, q.homeAbbr, q.awayAbbr);
  }

  // ---------------------------------------------------------------------
  // League table and its home / away split

  const StandingsKeep: seq<Label> := [
    Flat("Rk"), Flat("Squad"), Flat("MP"), Flat("W"), Flat("D"), Flat("L"),
    Flat("GF"), Flat("GA"), Flat("GD"), Flat("Pts"), Flat("Pts/MP"),
    Flat("xG"), Flat("xGA"), Flat("xGD"), Flat("xGD/90"), Flat("Last 5")]

  const Pts: Label := Flat("Pts")

  predicate TwoLevel(cols: seq<Label>)
  {
    forall k :: 0 <= k < |cols| ==> cols[k].Pair?
  }

  /** `[(l1, l2) for l1, l2 in cols if l1 != other]`, as positions. */
  function SideColumns(cols: seq<Label>, other: string): (r: seq<nat>)
    ensures Increasing(r)
    ensures forall k :: k in r <==> 0 <= k < |cols| && TopOf(cols[k]) != other
    ensures forall k :: 0 <= k < |r| ==> r[k] < |cols|
  {
    Positions(cols, (c: Label) => TopOf(c) != other)
  }

  /** `droplevel(0, axis=1)`: each (top, sub) label becomes its sub-label. */
  function DropTop(cols: seq<Label>): (r: seq<Label>)
    ensures |r| == |cols|
    ensures forall k :: 0 <= k < |cols| && cols[k].Pair? ==> r[k] == Flat(cols[k].sub)
    ensures forall k :: 0 <= k < |r| ==> r[k].Flat?
    ensures forall k :: 0 <= k < |cols| && cols[k].Flat? ==> r[k] == cols[k]
  {
    seq(|cols|, k requires 0 <= k < |cols| => match cols[k] case Pair(_, s) => Flat(s) case Flat(n) => Flat(n))
  }

  /** The one-level labels of one side of the split table. */
  function SideLabels(cols: seq<Label>, other: string): seq<Label>
  {
    DropTop(Pick(cols, SideColumns(cols, other)))
  }

  /** The rows of one side of the split table, before sorting. */
  function SideRows(f: Frame, other: string): seq<seq<Cell>>
  {
    var sel := SideColumns(f.columns, other);
    seq(|f.rows|, i requires 0 <= i < |f.rows| => Cells(f.rows[i], sel))
  }

  /** Descending points, NaN last, as `sort_values(by="Pts", ascending=False)`. */
  function PtsKey(c: Cell): SortKey
  {
    if c.Num? then Value(-c.n) else Absent
  }

  /** The sort key of a row of a table with columns `cols`. */
  function PtsOrder(cols: seq<Label>): seq<Cell> -> SortKey
  {
    (row: seq<Cell>) => PtsKey(Get(cols, row, Pts))
  }

  /** Row `a` may come before row `b` in a table sorted by points. */
  predicate PointsNotBelow(a: Cell, b: Cell)
  {
    b.Num? ==> a.Num? && a.n >= b.n
  }

  /** A row without its last (rank) cell. */
  function Body(row: seq<Cell>): seq<Cell>
  {
    if row == [] then [] else row[..|row| - 1]
  }

  function Bodies(rows: seq<seq<Cell>>): seq<seq<Cell>>
  {
    seq(|rows|, i requires 0 <= i < |rows| => Body(rows[i]))
  }

  /** One split table: keep the columns whose group is not `other`, flatten
      the header, sort by points descending and append a fresh 1-based rank. */
  function RankedSide(f: Frame, other: string, rankName: string): (r: Result<Frame>)
    ensures r.Ok? <==> TwoLevel(f.columns) && Pts in SideLabels(f.columns, other)
    ensures r.Err? && !TwoLevel(f.columns) ==> r.error == NotTwoLevel
    ensures r.Err? && TwoLevel(f.columns) ==> r.error == MissingColumn(Pts)
    ensures r.Ok? ==> r.value.columns == SideLabels(f.columns, other) + [Flat(rankName)]
  {
    if !TwoLevel(f.columns) then Err(NotTwoLevel)
    else
      var cols := SideLabels(f.columns, other);
      if Pts !in cols then Err(MissingColumn(Pts))
      else
        var rows := SideRows(f, other);
        var sorted := SortBy(rows, PtsOrder(cols));
        var ranked := seq(|sorted|, i requires 0 <= i < |sorted| => sorted[i] + [Num(i + 1)]);
        Ok(Frame(cols + [Flat(rankName)], ranked))
  }

  /** A split table holds the rows of its side, each once, ordered by points
      descending with missing points last, each ending in its 1-based rank. */
  lemma RankedSideOrdered(f: Frame, other: string, rankName: string)
    requires RankedSide(f, other, rankName).Ok?
    ensures var t := RankedSide(f, other, rankName).value;
      && |t.rows| == |f.rows|
      && (forall i :: 0 <= i < |t.rows| ==> |t.rows[i]| == |t.columns| && t.rows[i][|t.rows[i]| - 1] == Num(i + 1))
      && (forall i, j :: 0 <= i < j < |t.rows| ==> PointsNotBelow(Get(t.columns, t.rows[i], Pts), Get(t.columns, t.rows[j], Pts)))
      && multiset(Bodies(t.rows)) == multiset(SideRows(f, other))
  {
    var cols := SideLabels(f.columns, other);
    var rows := SideRows(f, other);
    var sorted := SortBy(rows, PtsOrder(cols));
    var ranked := seq(|sorted|, i requires 0 <= i < |sorted| => sorted[i] + [Num(i + 1)]);
    RankedSideFacts(cols, rows, sorted, ranked, rankName);
  }

  /** The proof obligations of `RankedSide`, discharged on its parts. */
  lemma RankedSideFacts(cols: seq<Label>, rows: seq<seq<Cell>>, sorted: seq<seq<Cell>>,
                        ranked: seq<seq<Cell>>, rankName: string)
    requires Pts in cols
    requires forall i :: 0 <= i < |rows| ==> |rows[i]| == |cols|
    requires SortedBy(sorted, PtsOrder(cols)) && multiset(sorted) == multiset(rows)
    requires ranked == seq(|sorted|, i requires 0 <= i < |sorted| => sorted[i] + [Num(i + 1)])
    ensures |ranked| == |rows|
    ensures forall i :: 0 <= i < |ranked| ==> |ranked[i]| == |cols| + 1 && ranked[i][|ranked[i]| - 1] == Num(i + 1)
    ensures forall i, j :: 0 <= i < j < |ranked| ==>
      PointsNotBelow(Get(cols + [Flat(rankName)], ranked[i], Pts), Get(cols + [Flat(rankName)], ranked[j], Pts))
    ensures multiset(Bodies(ranked)) == multiset(rows)
  {
    assert |sorted| == |multiset(sorted)| == |multiset(rows)| == |rows|;
    forall i | 0 <= i < |sorted| ensures |sorted[i]| == |cols| {
      assert sorted[i] in multiset(rows);
    }
    IndexOfAppend(cols, Flat(rankName), Pts);
    var p := IndexOf(cols, Pts).value;
    forall i | 0 <= i < |ranked|
      ensures Get(cols + [Flat(rankName)], ranked[i], Pts) == Get(cols, sorted[i], Pts)
    {
    }
    forall i, j | 0 <= i < j < |ranked|
      ensures PointsNotBelow(Get(cols + [Flat(rankName)], ranked[i], Pts), Get(cols + [Flat(rankName)], ranked[j], Pts))
    {
      assert KeyLe(PtsOrder(cols)(sorted[i]), PtsOrder(cols)(sorted[j]));
    }
    assert Bodies(ranked) == sorted by {
      forall i | 0 <= i < |ranked| ensures Body(ranked[i]) == sorted[i] {
        assert ranked[i][..|ranked[i]| - 1] == sorted[i];
      }
    }
  }

  /** `prep_current_table_data`: the standings reduced to the fixed columns,
      the home table (every group but "Away") ranked by `home_rk`, and the
      away table (every group but "Home") ranked by `away_rk`. */
  function PrepCurrentTable(standings: Frame, homeAway: Frame): (r: Result<(Frame, Frame, Frame)>)
    ensures r.Ok? <==> (&& TwoLevel(homeAway.columns)
                        && Pts in SideLabels(homeAway.columns, "Away")
                        && Pts in SideLabels(homeAway.columns, "Home")
                        && HasAll(standings.columns, StandingsKeep))
    ensures r.Ok? ==> r.value.0.columns == StandingsKeep && |r.value.0.rows| == |standings.rows|
    ensures r.Ok? ==> r.value.1.columns == SideLabels(homeAway.columns, "Away") + [Flat("home_rk")]
    ensures r.Ok? ==> r.value.2.columns == SideLabels(homeAway.columns, "Home") + [Flat("away_rk")]
  {
    CurrentTables(standings, homeAway, StandingsKeep)
  }

  /** The three tables, with the standings reduced to `keep`. The split table
      is built first, so its errors take precedence. */
  function CurrentTables(standings: Frame, homeAway: Frame, keep: seq<Label>): (r: Result<(Frame, Frame, Frame)>)
    ensures r.Ok? <==> (&& RankedSide(homeAway, "Away", "home_rk").Ok?
                        && RankedSide(homeAway, "Home", "away_rk").Ok?
                        && HasAll(standings.columns, keep))
    ensures r.Ok? ==> r.value.0 == Project(standings, keep).value
    ensures r.Ok? ==> r.value.1 == RankedSide(homeAway, "Away", "home_rk").value
    ensures r.Ok? ==> r.value.2 == RankedSide(homeAway, "Home", "away_rk").value
  {
    var home := RankedSide(homeAway, "Away", "home_rk");
    var away := RankedSide(homeAway, "Home", "away_rk");
    var table := Project(standings, keep);
    if home.Err? then Err(home.error)
    else if away.Err? then Err(away.error)
    else if table.Err? then Err(table.error)
    else Ok((table.value, home.value, away.value))
  }

  /** Columns outside both groups (rank, club, ...) appear in both tables;
      each group's own columns appear only in its table. */
  lemma SplitSharesCommonColumns(cols: seq<Label>, k: nat)
    requires k < |cols|
    ensures TopOf(cols[k]) != "Home" && TopOf(cols[k]) != "Away" ==>
      k in SideColumns(cols, "Away") && k in SideColumns(cols, "Home")
    ensures TopOf(cols[k]) == "Home" ==> k in SideColumns(cols, "Away") && k !in SideColumns(cols, "Home")
    ensures TopOf(cols[k]) == "Away" ==> k !in SideColumns(cols, "Away") && k in SideColumns(cols, "Home")
  {
  }

  // ---------------------------------------------------------------------
  // Club match log (five-game form)

  const ClubMatchKeep: seq<Label> := [
    Flat("game"), Flat("date"), Flat("round"), Flat("day"), Flat("venue"),
    Flat("result"), Flat("GF"), Flat("GA"), Flat("opponent"), Flat("xG"),
    Flat("xGA"), Flat("Poss")]

  const MatchReport: Label := Flat("match_report")

  /** `not match_report.isna()` on the rows of a frame with columns `cols`. */
  function HasReport(cols: seq<Label>): seq<Cell> -> bool
  {
    (row: seq<Cell>) => Get(cols, row, MatchReport) != Missing
  }

  /** `prep_club_match_data`: the rows that have a match report, the last
      five of them in their original order, reduced to the fixed columns. */
  function PrepClubMatch(f: Frame): (r: Result<Frame>)
    ensures r.Ok? <==> MatchReport in f.columns && HasAll(f.columns, ClubMatchKeep)
    ensures r.Ok? ==> r.value.columns == ClubMatchKeep && |r.value.rows| <= 5
    ensures r.Ok? && |Positions(f.rows, HasReport(f.columns))| >= 5 ==> |r.value.rows| == 5
  {
    LastReportedShape(f, ClubMatchKeep, 5);
    LastReported(f, ClubMatchKeep, 5)
  }

  /** The shape of a form table: when it exists, its header and row count. */
  lemma LastReportedShape(f: Frame, keep: seq<Label>, n: nat)
    ensures var r := LastReported(f, keep, n);
      var e := Positions(f.rows, HasReport(f.columns));
      && (r.Ok? <==> MatchReport in f.columns && HasAll(f.columns, keep))
      && (r.Ok? ==> r.value.columns == keep && |r.value.rows| <= n)
      && (r.Ok? && |e| >= n ==> |r.value.rows| == n)
  {
  }

  /** `query("not match_report.isna()").tail(n)[keep]`. */
  function LastReported(f: Frame, keep: seq<Label>, n: nat): (r: Result<Frame>)
    ensures r.Ok? <==> MatchReport in f.columns && HasAll(f.columns, keep)
    ensures r.Ok? ==> r.value.columns == keep
    ensures r.Ok? ==> var t := Tail(Positions(f.rows, HasReport(f.columns)), n);
      && |r.value.rows| == |t|
      && forall k :: 0 <= k < |t| ==> r.value.rows[k] == ProjectRow(f.columns, f.rows[t[k]], keep)
  {
    if MatchReport !in f.columns then Err(MissingColumn(MatchReport))
    else
      var t := Tail(Positions(f.rows, HasReport(f.columns)), n);
      assert forall k :: 0 <= k < |t| ==> t[k] < |f.rows|;
      ProjectPicked(f, t, keep);
      Project(Frame(f.columns, Pick(f.rows, t)), keep)
  }

  /** Reducing the rows at positions `t` to `keep`. */
  lemma ProjectPicked(f: Frame, t: seq<nat>, keep: seq<Label>)
    requires forall k :: 0 <= k < |t| ==> t[k] < |f.rows|
    ensures var pr := Project(Frame(f.columns, Pick(f.rows, t)), keep);
      pr.Ok? ==> (&& |pr.value.rows| == |t|
                  && forall k :: 0 <= k < |t| ==> pr.value.rows[k] == ProjectRow(f.columns, f.rows[t[k]], keep))
  {
  }

  /** The form table holds only reported games, at most `n` of them, and
      exactly `n` when the club has that many reported games. */
  lemma LastReportedRows(f: Frame, keep: seq<Label>, n: nat)
    requires LastReported(f, keep, n).Ok?
    ensures var r := LastReported(f, keep, n).value.rows;
      var e := Positions(f.rows, HasReport(f.columns));
      && |r| <= n
      && (|e| >= n ==> |r| == n)
      && forall k :: 0 <= k < |r| ==> ReportedSource(f, keep, r[k])
  {
    var r := LastReported(f, keep, n).value.rows;
    var t := Tail(Positions(f.rows, HasReport(f.columns)), n);
    TailOfPositions(Positions(f.rows, HasReport(f.columns)), f.rows, HasReport(f.columns), n);
    forall k | 0 <= k < |r| ensures ReportedSource(f, keep, r[k]) {
      assert HasReport(f.columns)(f.rows[t[k]]);
    }
  }

  /** `out` is the projection of some row of `f` that has a match report. */
  ghost predicate ReportedSource(f: Frame, keep: seq<Label>, out: seq<Cell>)
  {
    exists i :: 0 <= i < |f.rows| && HasReport(f.columns)(f.rows[i]) && out == ProjectRow(f.columns, f.rows[i], keep)
  }

  // ---------------------------------------------------------------------
  // Club season statistics

  const Url: Label := Pair("url", "")
  const TeamIdLabel: Label := Pair("team_id", "")

  /** `url.str.split("/").str[3]`: the fourth '/'-separated piece, or NaN. */
  function TeamIdOf(url: Cell): (id: Cell)
    ensures !url.Text? ==> id == Missing
    ensures id != Missing ==> id.Text? && '/' !in id.s
  {
    match url
    case Text(u) =>
      var parts := Split(u, '/');
      if |parts| > 3 then Text(parts[3]) else Missing
    case _ => Missing
  }

  /** For a url made of '/'-free pieces, the id is the fourth piece. */
  lemma TeamIdIsFourthPiece(parts: seq<string>)
    requires |parts| > 3
    requires forall k :: 0 <= k < |parts| ==> '/' !in parts[k]
    ensures TeamIdOf(Text(Join(parts, '/'))) == Text(parts[3])
  {
    SplitJoin(parts, '/');
  }

  /** The top-level labels `drop(columns=[...], level=0)` removes. */
  predicate SeasonDropped(l: Label)
  {
    TopOf(l) == "league" || TopOf(l) == "season" || TopOf(l) == "url"
  }

  function NotSeasonDropped(): Label -> bool
  {
    (l: Label) => !SeasonDropped(l)
  }

  predicate HasTop(cols: seq<Label>, top: string)
  {
    exists k :: 0 <= k < |cols| && TopOf(cols[k]) == top
  }

  /** `prep_club_season_data`: append the club id taken from the url, then
      drop every column under "league", "season" or "url". Dropping a top
      label that is absent fails, as pandas raises a KeyError. */
  function PrepClubSeason(f: Frame): (r: Result<Frame>)
    ensures r.Ok? <==> Url in f.columns && HasTop(f.columns, "league") && HasTop(f.columns, "season")
    ensures r.Ok? ==> var kept := Positions(f.columns, NotSeasonDropped());
      && r.value.columns == Pick(f.columns, kept) + [TeamIdLabel]
      && |r.value.rows| == |f.rows|
      && forall i :: 0 <= i < |f.rows| ==>
           r.value.rows[i] == Cells(f.rows[i], kept) + [TeamIdOf(Get(f.columns, f.rows[i], Url))]
  {
    if Url !in f.columns then Err(MissingColumn(Url))
    else
      var ids := seq(|f.rows|, i requires 0 <= i < |f.rows| => TeamIdOf(Get(f.columns, f.rows[i], Url)));
      var g := Assign(f, TeamIdLabel, ids);
      HasTopAppend(f.columns, TeamIdLabel, "league");
      HasTopAppend(f.columns, TeamIdLabel, "season");
      if !HasTop(g.columns, "league") then Err(MissingColumn(Flat("league")))
      else if !HasTop(g.columns, "season") then Err(MissingColumn(Flat("season")))
      else
        var kept := Positions(f.columns, NotSeasonDropped());
        PositionsAppend(f.columns, TeamIdLabel, NotSeasonDropped());
        DropAfterAssign(f, TeamIdLabel, ids, kept);
        Ok(KeepColumns(g, NotSeasonDropped()))
  }

  /** `row` cut or padded with missing cells to `n` cells. */
  function Fit(row: seq<Cell>, n: nat): (r: seq<Cell>)
    ensures |r| == n
    ensures forall k :: 0 <= k < n ==> r[k] == if k < |row| then row[k] else Missing
  {
    seq(n, k requires 0 <= k < n => if k < |row| then row[k] else Missing)
  }

  /** `assign(l=cells)`: a new last column `l` holding `cells`. */
  function Assign(f: Frame, l: Label, cells: seq<Cell>): (g: Frame)
    requires |cells| == |f.rows|
    ensures g.columns == f.columns + [l] && |g.rows| == |f.rows|
    ensures forall i :: 0 <= i < |f.rows| ==> g.rows[i] == Fit(f.rows[i], |f.columns|) + [cells[i]]
  {
    Frame(f.columns + [l], seq(|f.rows|, i requires 0 <= i < |f.rows| => Fit(f.rows[i], |f.columns|) + [cells[i]]))
  }

  /** The columns whose labels satisfy `p`, in their order. */
  function KeepColumns(f: Frame, p: Label -> bool): Frame
  {
    KeepAt(f, Positions(f.columns, p))
  }

  /** The columns at the positions `kept`, in that order. */
  function KeepAt(f: Frame, kept: seq<nat>): (g: Frame)
    requires forall k :: 0 <= k < |kept| ==> kept[k] < |f.columns|
    ensures g.columns == Pick(f.columns, kept)
    ensures |g.rows| == |f.rows|
    ensures forall i :: 0 <= i < |f.rows| ==> g.rows[i] == Cells(f.rows[i], kept)
  {
    Frame(Pick(f.columns, kept), seq(|f.rows|, i requires 0 <= i < |f.rows| => Cells(f.rows[i], kept)))
  }

  /** Keeping columns after assigning a kept one is keeping them first and
      appending it. */
  lemma DropAfterAssign(f: Frame, l: Label, cells: seq<Cell>, kept: seq<nat>)
    requires |cells| == |f.rows|
    requires forall k :: 0 <= k < |kept| ==> kept[k] < |f.columns|
    ensures var g := KeepAt(Assign(f, l, cells), kept + [|f.columns|]);
      && g.columns == Pick(f.columns, kept) + [l]
      && |g.rows| == |f.rows|
      && forall i :: 0 <= i < |f.rows| ==> g.rows[i] == Cells(f.rows[i], kept) + [cells[i]]
  {
    var a := Assign(f, l, cells);
    forall i | 0 <= i < |f.rows|
      ensures Cells(a.rows[i], kept + [|f.columns|]) == Cells(f.rows[i], kept) + [cells[i]]
    {
      FitCells(f.rows[i], |f.columns|, kept, cells[i]);
    }
  }

  lemma FitCells(row: seq<Cell>, n: nat, kept: seq<nat>, x: Cell)
    requires forall k :: 0 <= k < |kept| ==> kept[k] < n
    ensures Cells(Fit(row, n) + [x], kept + [n]) == Cells(row, kept) + [x]
  {
    var lhs := Cells(Fit(row, n) + [x], kept + [n]);
    var rhs := Cells(row, kept) + [x];
    forall k | 0 <= k < |kept| ensures lhs[k] == rhs[k] {
      assert (kept + [n])[k] == kept[k];
    }
  }

  lemma HasTopAppend(cols: seq<Label>, extra: Label, top: string)
    requires TopOf(extra) != top
    ensures HasTop(cols + [extra], top) <==> HasTop(cols, top)
  {
    if HasTop(cols, top) {
      var k :| 0 <= k < |cols| && TopOf(cols[k]) == top;
      assert TopOf((cols + [extra])[k]) == top;
    }
    if HasTop(cols + [extra], top) {
      var k :| 0 <= k < |cols| + 1 && TopOf((cols + [extra])[k]) == top;
      assert TopOf(cols[k]) == top;
    }
  }

  /** Appending an element that qualifies appends its position. */
  lemma PositionsAppend<T>(s: seq<T>, x: T, p: T -> bool)
    requires p(x)
    ensures Positions(s + [x], p) == Positions(s, p) + [|s|]
  {
    assert (s + [x])[..|s|] == s;
  }

  // ---------------------------------------------------------------------
  // Head-to-head

  const H2HKeep: seq<Label> := [
    Flat("Comp"), Flat("Round"), Flat("Date"), Flat("Home"), Flat("xG"),
    Flat("Score"), Flat("xG.1"), Flat("Away")]

  const Score: Label := Flat("Score")
  const DateCol: Label := Flat("Date")

  /** `not Score.isnull() and Score != 'Score'`: a played game, not a repeated
      header row. */
  predicate ValidScore(cols: seq<Label>, row: seq<Cell>)
  {
    var s := Get(cols, row, Score);
    s != Missing && s != Text("Score")
  }

  /** The year `pd.to_datetime(...).dt.year` gives a Date cell: `None` is NaT.
      A missing cell is always NaT; `yearOf` stands for the parsing of the
      others. */
  function DateYear(c: Cell, yearOf: Cell -> Option<int>): (y: Option<int>)
    ensures c == Missing ==> y == None
  {
    if c == Missing then None else yearOf(c)
  }

  /** The year of a row that has a valid score and a date (`None` otherwise):
      the rows that take part in `dt.max()`. */
  function MeetingYear(cols: seq<Label>, row: seq<Cell>, yearOf: Cell -> Option<int>): Option<int>
  {
    if ValidScore(cols, row) then DateYear(Get(cols, row, DateCol), yearOf) else None
  }

  /** `dt.max()`: the latest year among the played, dated meetings (0 when
      there is none, where pandas gives NaN and no row is kept). */
  function LatestYear(cols: seq<Label>, rows: seq<seq<Cell>>, yearOf: Cell -> Option<int>): (m: int)
    ensures forall i :: 0 <= i < |rows| && MeetingYear(cols, rows[i], yearOf).Some? ==>
      MeetingYear(cols, rows[i], yearOf).value <= m
    ensures (exists i :: 0 <= i < |rows| && MeetingYear(cols, rows[i], yearOf).Some?) ==>
      exists i :: 0 <= i < |rows| && MeetingYear(cols, rows[i], yearOf) == Some(m)
    decreases |rows|
  {
    if rows == [] then 0
    else
      var front := rows[..|rows| - 1];
      var m := LatestYear(cols, front, yearOf);
      var y := MeetingYear(cols, rows[|rows| - 1], yearOf);
      var anyFront := exists i :: 0 <= i < |front| && MeetingYear(cols, front[i], yearOf).Some?;
      assert forall i :: 0 <= i < |front| ==> front[i] == rows[i];
      if y.Some? && (!anyFront || y.value > m) then y.value else m
  }

  /** A row the head-to-head table keeps: a valid score and a date fewer than
      five years before `latest` (`year_diff < 5` is false on NaN). */
  function InWindow(cols: seq<Label>, latest: int, yearOf: Cell -> Option<int>): seq<Cell> -> bool
  {
    (row: seq<Cell>) => var y := MeetingYear(cols, row, yearOf); y.Some? && latest - y.value < 5
  }

  function Projection(cols: seq<Label>, keep: seq<Label>): seq<Cell> -> seq<Cell>
  {
    (row: seq<Cell>) => ProjectRow(cols, row, keep)
  }

  /** `prep_head_to_head_data`. `yearOf` stands for `pd.to_datetime(...).dt.year`. */
  function PrepHeadToHead(f: Frame, yearOf: Cell -> Option<int>): (r: Result<Frame>)
    ensures r.Ok? <==> Score in f.columns && DateCol in f.columns && HasAll(f.columns, H2HKeep)
    ensures r.Ok? ==> r.value.columns == H2HKeep
    ensures r.Ok? ==> KeepsInOrder(r.value.rows, f.rows,
                        InWindow(f.columns, LatestYear(f.columns, f.rows, yearOf), yearOf),
                        Projection(f.columns, H2HKeep))
  {
    RecentMeetings(f, H2HKeep, yearOf)
  }

  /** The played meetings fewer than five years before the latest one, in
      their original order, reduced to `keep`. The score filter reads the
      `Score` column and the year is taken from `Date`, so either missing is
      an error before the reduction. */
  function RecentMeetings(f: Frame, keep: seq<Label>, yearOf: Cell -> Option<int>): (r: Result<Frame>)
    ensures r.Ok? <==> Score in f.columns && DateCol in f.columns && HasAll(f.columns, keep)
    ensures r.Ok? ==> r.value.columns == keep
    ensures r.Ok? ==> KeepsInOrder(r.value.rows, f.rows,
                        InWindow(f.columns, LatestYear(f.columns, f.rows, yearOf), yearOf),
                        Projection(f.columns, keep))
  {
    if Score !in f.columns then Err(MissingColumn(Score))
    else if DateCol !in f.columns then Err(MissingColumn(DateCol))
    else
      var missing := AbsentLabels(keep, f.columns);
      if missing != [] then
        Err(MissingColumn(missing[0]))
      else
        var latest := LatestYear(f.columns, f.rows, yearOf);
        Ok(Frame(keep, Select(f.rows, InWindow(f.columns, latest, yearOf), Projection(f.columns, keep))))
  }

  /** The latest meeting is always in the window, so a pairing with any
      played, dated game keeps at least one row. */
  lemma RecentMeetingsKeepsLatest(f: Frame, keep: seq<Label>, yearOf: Cell -> Option<int>)
    requires RecentMeetings(f, keep, yearOf).Ok?
    requires exists i :: 0 <= i < |f.rows| && MeetingYear(f.columns, f.rows[i], yearOf).Some?
    ensures |RecentMeetings(f, keep, yearOf).value.rows| > 0
  {
    var latest := LatestYear(f.columns, f.rows, yearOf);
    var i :| 0 <= i < |f.rows| && MeetingYear(f.columns, f.rows[i], yearOf) == Some(latest);
    var p := InWindow(f.columns, latest, yearOf);
    assert p(f.rows[i]);
    KeepsInOrderMembers(RecentMeetings(f, keep, yearOf).value.rows, f.rows, p, Projection(f.columns, keep));
  }

  /** Every kept meeting was played, has a date, and lies fewer than five
      years before the latest one; a row without a score or without a date
      is never kept. */
  lemma RecentMeetingsRows(f: Frame, keep: seq<Label>, yearOf: Cell -> Option<int>)
    requires RecentMeetings(f, keep, yearOf).Ok?
    ensures var latest := LatestYear(f.columns, f.rows, yearOf);
      forall out :: out in RecentMeetings(f, keep, yearOf).value.rows ==>
        exists i :: && 0 <= i < |f.rows|
                    && ValidScore(f.columns, f.rows[i])
                    && Get(f.columns, f.rows[i], DateCol) != Missing
                    && DateYear(Get(f.columns, f.rows[i], DateCol), yearOf).Some?
                    && latest - DateYear(Get(f.columns, f.rows[i], DateCol), yearOf).value < 5
                    && out == ProjectRow(f.columns, f.rows[i], keep)
  {
    var latest := LatestYear(f.columns, f.rows, yearOf);
    var p := InWindow(f.columns, latest, yearOf);
    KeepsInOrderMembers(RecentMeetings(f, keep, yearOf).value.rows, f.rows, p, Projection(f.columns, keep));
  }

  /** A played meeting whose Date is missing is dropped, whatever `yearOf`
      says. */
  lemma UndatedMeetingDropped(yearOf: Cell -> Option<int>)
    ensures RecentMeetings(Frame([Score, DateCol], [[Text("1-0"), Missing]]), [Score], yearOf)
      == Ok(Frame([Score], []))
  {
    var f := Frame([Score, DateCol], [[Text("1-0"), Missing]]);
    var r := RecentMeetings(f, [Score], yearOf);
    assert MeetingYear(f.columns, f.rows[0], yearOf) == None;
    KeepsInOrderMembers(r.value.rows, f.rows, InWindow(f.columns, LatestYear(f.columns, f.rows, yearOf), yearOf),
                        Projection(f.columns, [Score]));
    assert r.value.rows == [];
  }

  /** `LatestYear` depends only on the meeting year of each row. */
  lemma {:induction false} LatestYearAgrees(cols: seq<Label>, rows: seq<seq<Cell>>,
                                             cols': seq<Label>, rows': seq<seq<Cell>>, yearOf: Cell -> Option<int>)
    requires |rows| == |rows'|
    requires forall i :: 0 <= i < |rows| ==> MeetingYear(cols, rows[i], yearOf) == MeetingYear(cols', rows'[i], yearOf)
    ensures LatestYear(cols, rows, yearOf) == LatestYear(cols', rows', yearOf)
    decreases |rows|
  {
    if rows != [] {
      var front, front' := rows[..|rows| - 1], rows'[..|rows'| - 1];
      LatestYearAgrees(cols, front, cols', front', yearOf);
      assert (exists i :: 0 <= i < |front| && MeetingYear(cols, front[i], yearOf).Some?)
         <==> (exists i :: 0 <= i < |front'| && MeetingYear(cols', front'[i], yearOf).Some?) by {
        assert forall i :: 0 <= i < |front| ==> MeetingYear(cols, front[i], yearOf) == MeetingYear(cols', front'[i], yearOf);
      }
    }
  }

  /** Past a leading column labelled `u`, a row keeps its meeting year. */
  lemma MeetingYearPastLeading(cols: seq<Label>, row: seq<Cell>, u: Label, c: Cell, yearOf: Cell -> Option<int>)
    requires u != Score && u != DateCol
    ensures MeetingYear([u] + cols, [c] + row, yearOf) == MeetingYear(cols, row, yearOf)
  {
    GetPastLeading(cols, row, u, c, Score);
    GetPastLeading(cols, row, u, c, DateCol);
  }

  /** Row by row, a leading column labelled `u` changes neither the meeting
      year nor the projection on `keep`. */
  lemma RowsPastLeading(f: Frame, g: Frame, u: Label, keep: seq<Label>, yearOf: Cell -> Option<int>)
    requires u != Score && u != DateCol && u !in keep
    requires g.columns == [u] + f.columns && |g.rows| == |f.rows|
    requires forall i :: 0 <= i < |f.rows| ==> |g.rows[i]| == |f.rows[i]| + 1 && g.rows[i][1..] == f.rows[i]
    ensures forall i :: 0 <= i < |f.rows| ==>
      MeetingYear(g.columns, g.rows[i], yearOf) == MeetingYear(f.columns, f.rows[i], yearOf)
    ensures forall i :: 0 <= i < |f.rows| ==>
      ProjectRow(g.columns, g.rows[i], keep) == ProjectRow(f.columns, f.rows[i], keep)
  {
    forall i | 0 <= i < |f.rows|
      ensures MeetingYear(g.columns, g.rows[i], yearOf) == MeetingYear(f.columns, f.rows[i], yearOf)
      ensures ProjectRow(g.columns, g.rows[i], keep) == ProjectRow(f.columns, f.rows[i], keep)
    {
      assert g.rows[i] == [g.rows[i][0]] + f.rows[i];
      MeetingYearPastLeading(f.columns, f.rows[i], u, g.rows[i][0], yearOf);
      ProjectRowPastLeading(f.columns, f.rows[i], u, g.rows[i][0], keep);
    }
  }

  /** The meetings in the window, projected on `keep`, are the same past a
      leading column labelled `u`. */
  lemma WindowPastLeading(f: Frame, g: Frame, u: Label, keep: seq<Label>, yearOf: Cell -> Option<int>)
    requires u != Score && u != DateCol && u !in keep
    requires g.columns == [u] + f.columns && |g.rows| == |f.rows|
    requires forall i :: 0 <= i < |f.rows| ==> |g.rows[i]| == |f.rows[i]| + 1 && g.rows[i][1..] == f.rows[i]
    ensures LatestYear(g.columns, g.rows, yearOf) == LatestYear(f.columns, f.rows, yearOf)
    ensures Select(g.rows, InWindow(g.columns, LatestYear(g.columns, g.rows, yearOf), yearOf), Projection(g.columns, keep))
         == Select(f.rows, InWindow(f.columns, LatestYear(f.columns, f.rows, yearOf), yearOf), Projection(f.columns, keep))
  {
    RowsPastLeading(f, g, u, keep, yearOf);
    LatestYearAgrees(g.columns, g.rows, f.columns, f.rows, yearOf);
    var latest := LatestYear(f.columns, f.rows, yearOf);
    SelectAgrees(g.rows, InWindow(g.columns, latest, yearOf), Projection(g.columns, keep),
                 f.rows, InWindow(f.columns, latest, yearOf), Projection(f.columns, keep));
  }

  /** A leading column that the head-to-head table neither filters on nor
      keeps leaves the table unchanged. */
  lemma RecentMeetingsIgnoresLeading(f: Frame, g: Frame, u: Label, keep: seq<Label>, yearOf: Cell -> Option<int>)
    requires u != Score && u != DateCol && u !in keep
    requires g.columns == [u] + f.columns && |g.rows| == |f.rows|
    requires forall i :: 0 <= i < |f.rows| ==> |g.rows[i]| == |f.rows[i]| + 1 && g.rows[i][1..] == f.rows[i]
    ensures RecentMeetings(g, keep, yearOf) == RecentMeetings(f, keep, yearOf)
  {
    assert forall k :: 0 <= k < |keep| ==> (keep[k] in g.columns <==> keep[k] in f.columns);
    AbsentLabelsAgree(keep, g.columns, f.columns);
    WindowPastLeading(f, g, u, keep, yearOf);
  }
}
