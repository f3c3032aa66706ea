/** The pure logic of fetching.py: the season code handed to the FBref client,
    the two page addresses, the snapshot file names, the repair of a
    two-level header read back from a snapshot, and the choice between a live
    fetch (which also writes the snapshot) and a snapshot read. The network
    and the CSV encoding are not modelled: a live fetch returns the frame it
    is given, and the snapshot directory maps a path to the frame a read of
    it gives back: the schedule loses its index columns, a head-to-head
    table gains its row numbers as a leading column, and the empty
    second-level labels of the season statistics come back renamed. */
module Fetching {
  import opened Strings
  import opened Frames
  import opened Season
  import opened Preprocessing

  // ---------------------------------------------------------------------
  // Season code

  /** `str(season)[2:]`: the decimal rendering without its first two
      characters (empty when it has fewer than three). */
  function SeasonCode(season: int): (code: string)
    ensures |IntToString(season)| >= 2 ==> IntToString(season)[..2] + code == IntToString(season)
    ensures |IntToString(season)| <= 2 ==> code == ""
  {
    var text := IntToString(season);
    if |text| >= 2 then
      assert text[..2] + text[2..] == text;
      text[2..]
    else ""
  }

  /** A four-digit season is passed as its last two digits, which read back
      as the year modulo 100. */
  lemma SeasonCodeOfYear(season: nat)
    requires 1000 <= season <= 9999
    ensures SeasonCode(season) == [DigitChar(season / 10 % 10), DigitChar(season % 10)]
    ensures ParseNat(SeasonCode(season)) == season % 100
  {
    FourDigits(season);
    var tens, units := season / 10 % 10, season % 10;
    var code := SeasonCode(season);
    assert code == [DigitChar(tens), DigitChar(units)];
    assert code[..1] == [DigitChar(tens)] && code[..1][..0] == [];
    assert DigitValue(DigitChar(tens)) == tens && DigitValue(DigitChar(units)) == units;
    assert ParseNat(code[..1]) == tens;
  }

  /** Within one century the code names the season. */
  lemma SeasonCodeWithinCentury(s: nat, t: nat)
    requires 2000 <= s <= 2099 && 2000 <= t <= 2099
    requires SeasonCode(s) == SeasonCode(t)
    ensures s == t
  {
    SeasonCodeOfYear(s);
    SeasonCodeOfYear(t);
  }

  lemma SeasonCode2023()
    ensures SeasonCode(2023) == "23"
  {
    SeasonCodeOfYear(2023);
  }

  // ---------------------------------------------------------------------
  // Page addresses

  const StandingsPrefix: string := "https://fbref.com/en/comps/20/"
  const StandingsSuffix: string := "-Bundesliga-Stats"
  const MatchupPrefix: string := "https://fbref.com/en/stathead/matchup/teams/"

  /** `{s}-{s+1}`, the span of a season. */
  function SeasonSpan(season: int): string
  {
    IntToString(season) + "-" + IntToString(season + 1)
  }

  /** The standings page of a season: the span appears as the path segment
      and again in the page name. */
  function StandingsUrl(season: int): (url: string)
    ensures StartsWith(url, StandingsPrefix)
    ensures url[|StandingsPrefix|..] == SeasonSpan(season) + ['/'] + (SeasonSpan(season) + StandingsSuffix)
  {
    var span := SeasonSpan(season);
    AfterPrefix(StandingsPrefix, span, StandingsSuffix);
    StandingsPrefix + span + "/" + span + StandingsSuffix
  }

  lemma NoSeparatorInDigits(s: string, c: char)
    requires AllDigits(s) && !IsDigit(c)
    ensures c !in s
  {
  }

  /** The span of a non-negative season determines the season. */
  lemma {:induction false} SeasonSpanInjective(s: nat, t: nat)
    requires SeasonSpan(s) == SeasonSpan(t)
    ensures s == t
  {
    var a, b := NatToString(s), NatToString(s + 1);
    var a', b' := NatToString(t), NatToString(t + 1);
    NoSeparatorInDigits(a, '-');
    NoSeparatorInDigits(a', '-');
    assert SeasonSpan(s) == a + ['-'] + b;
    assert SeasonSpan(t) == a' + ['-'] + b';
    CancelAtSeparator(a, b, a', b', '-');
    NatToStringInjective(s, t);
  }

  /** Different seasons have different standings pages. */
  lemma {:induction false} StandingsUrlInjective(s: nat, t: nat)
    requires StandingsUrl(s) == StandingsUrl(t)
    ensures s == t
  {
    var x, y := SeasonSpan(s), SeasonSpan(t);
    SpanHasNoSlash(s);
    SpanHasNoSlash(t);
    CancelAtSeparator(x, x + StandingsSuffix, y, y + StandingsSuffix, '/');
    SeasonSpanInjective(s, t);
  }

  /** What follows the prefix of a page address built around `x`. */
  lemma AfterPrefix(p: string, x: string, suffix: string)
    ensures (p + x + "/" + x + suffix)[|p|..] == x + ['/'] + (x + suffix)
  {
  }

  lemma SpanHasNoSlash(s: nat)
    ensures '/' !in SeasonSpan(s)
  {
    NoSeparatorInDigits(NatToString(s), '/');
    NoSeparatorInDigits(NatToString(s + 1), '/');
  }

  /** The 2023 season's page is under `2023-2024`. */
  lemma SeasonSpan2023()
    ensures SeasonSpan(2023) == "2023-2024"
  {
    FourDigits(2023);
    FourDigits(2024);
  }

  /** The head-to-head page of a pairing, home club first. */
  function MatchupUrl(homeId: string, awayId: string): (url: string)
    ensures StartsWith(url, MatchupPrefix)
    ensures url[|MatchupPrefix|..] == homeId + ['/'] + (awayId + "/")
  {
    MatchupPrefix + homeId + "/" + awayId + "/"
  }

  /** For ids without '/', the page names the pairing in order: the same page
      means the same home club and the same away club. */
  lemma MatchupUrlInjective(h: string, a: string, h': string, a': string)
    requires '/' !in h && '/' !in h'
    requires MatchupUrl(h, a) == MatchupUrl(h', a')
    ensures h == h' && a == a'
  {
    var p := |MatchupPrefix|;
    assert MatchupUrl(h, a)[p..] == h + ['/'] + (a + "/");
    assert MatchupUrl(h', a')[p..] == h' + ['/'] + (a' + "/");
    CancelAtSeparator(h, a + "/", h', a' + "/", '/');
    assert a == (a + "/")[..|a|];
    assert a' == (a' + "/")[..|a'|];
  }

  /** So swapping two different clubs asks for a different page. */
  lemma MatchupUrlOrdered(h: string, a: string)
    requires '/' !in h && '/' !in a && h != a
    ensures MatchupUrl(h, a) != MatchupUrl(a, h)
  {
    if MatchupUrl(h, a) == MatchupUrl(a, h) {
      MatchupUrlInjective(h, a, a, h);
    }
  }

  // ---------------------------------------------------------------------
  // Snapshot file names

  /** `os.path.join("data", name)` for a relative `name`. */
  function DataPath(name: string): string
  {
    "data/" + name
  }

  const ScheduleFile: string := DataPath("schedule.csv")
  const StandingsFile: string := DataPath("standings.csv")
  const HomeAwayFile: string := DataPath("standings_home_away.csv")
  const SeasonStatsFile: string := DataPath("team_season_stats.csv")

  /** `stats_{club_name}.csv` under the data directory. */
  function StatsFile(club: string): (path: string)
    ensures |path| == |club| + 15
    ensures path[..11] == "data/stats_" && path[|path| - 4..] == ".csv"
    ensures path[11..|path| - 4] == club
  {
    DataPath("stats_" + club + ".csv")
  }

  /** Different clubs have different match-log snapshots. */
  lemma StatsFileInjective(c: string, d: string)
    requires StatsFile(c) == StatsFile(d)
    ensures c == d
  {
    var u := StatsFile(c);
    assert c == u[11..|u| - 4];
    assert d == StatsFile(d)[11..|StatsFile(d)| - 4];
  }

  /** `h2h_{home}_{away}.csv` under the data directory. */
  function H2HFile(homeId: string, awayId: string): (path: string)
    ensures |path| == |homeId| + |awayId| + 14
    ensures path[..9] == "data/h2h_"
    ensures path[9..] == homeId + ['_'] + (awayId + ".csv")
  {
    DataPath("h2h_" + homeId + "_" + awayId + ".csv")
  }

  /** For ids without '_' (FBref's club ids are hexadecimal), different
      pairings have different snapshots, in either order. */
  lemma H2HFileInjective(h: string, a: string, h': string, a': string)
    requires '_' !in h && '_' !in h'
    requires H2HFile(h, a) == H2HFile(h', a')
    ensures h == h' && a == a'
  {
    var u, v := H2HFile(h, a), H2HFile(h', a');
    assert u[9..] == h + ['_'] + (a + ".csv");
    assert v[9..] == h' + ['_'] + (a' + ".csv");
    CancelAtSeparator(h, a + ".csv", h', a' + ".csv", '_');
    assert a == (a + ".csv")[..|a|];
    assert a' == (a' + ".csv")[..|a'|];
  }

  /** With '_' allowed in an id, two pairings can share a snapshot. */
  lemma H2HFileNeedsPlainIds()
    ensures H2HFile("a_b", "c") == H2HFile("a", "b_c")
  {
  }

  // ---------------------------------------------------------------------
  // Header repair

  const Unnamed: string := "Unnamed:"

  /** `(a, '') if b.startswith("Unnamed:") else (a, b)`. */
  function RepairLabel(l: Label): (r: Label)
  {
    match l
    case Pair(a, b) => if StartsWith(b, Unnamed) then Pair(a, "") else l
    case Flat(_) => l
  }

  /** The header fix-up of `fetch_club_season_data`. */
  function RepairHeader(cols: seq<Label>): (r: seq<Label>)
    ensures |r| == |cols|
    ensures forall k :: 0 <= k < |cols| ==> TopOf(r[k]) == TopOf(cols[k]) && r[k].Pair? == cols[k].Pair?
    ensures forall k :: 0 <= k < |cols| && cols[k].Pair? ==>
      (r[k].sub == "" <==> StartsWith(cols[k].sub, Unnamed) || cols[k].sub == "")
    ensures forall k :: 0 <= k < |cols| && cols[k].Pair? && !StartsWith(cols[k].sub, Unnamed) ==> r[k] == cols[k]
  {
    seq(|cols|, k requires 0 <= k < |cols| => RepairLabel(cols[k]))
  }

  /** What reading a two-level header back from CSV does to an empty
      second-level label: pandas names it `Unnamed: {position}_level_1`. */
  function ReadBackLabel(l: Label, position: nat): (r: Label)
    ensures TopOf(r) == TopOf(l) && r.Pair? == l.Pair?
    ensures r.Pair? ==> r.sub != ""
    ensures l.Pair? && l.sub == "" ==> StartsWith(r.sub, Unnamed)
    ensures !(l.Pair? && l.sub == "") ==> r == l
  {
    match l
    case Pair(a, "") =>
      ReadBackStartsUnnamed(NatToString(position) + "_level_1");
      Pair(a, "Unnamed: " + NatToString(position) + "_level_1")
    case _ => l
  }

  /** A header read back from CSV; `offset` is the number of columns in front
      of it (the index columns). */
  function ReadBackHeader(cols: seq<Label>, offset: nat): (r: seq<Label>)
    ensures |r| == |cols|
    ensures forall k :: 0 <= k < |cols| ==> r[k] == ReadBackLabel(cols[k], offset + k)
    ensures forall k :: 0 <= k < |cols| ==> TopOf(r[k]) == TopOf(cols[k]) && r[k].Pair? == cols[k].Pair?
    ensures forall k :: 0 <= k < |cols| && r[k].Pair? ==> r[k].sub != ""
    ensures forall k :: 0 <= k < |cols| && cols[k].Pair? && cols[k].sub == "" ==> StartsWith(r[k].sub, Unnamed)
    ensures forall k :: 0 <= k < |cols| && !(cols[k].Pair? && cols[k].sub == "") ==> r[k] == cols[k]
  {
    seq(|cols|, k requires 0 <= k < |cols| => ReadBackLabel(cols[k], offset + k))
  }

  lemma ReadBackStartsUnnamed(x: string)
    ensures StartsWith("Unnamed: " + x, Unnamed)
  {
    assert ("Unnamed: " + x)[..8] == Unnamed;
  }

  /** The repair undoes the read-back for every header whose real
      second-level labels do not start with "Unnamed:". */
  lemma RepairUndoesReadBack(cols: seq<Label>, offset: nat)
    requires forall k :: 0 <= k < |cols| && cols[k].Pair? ==> !StartsWith(cols[k].sub, Unnamed)
    ensures RepairHeader(ReadBackHeader(cols, offset)) == cols
  {
  }

  /** Repairing a header read back is repairing the header written: the
      read-back only touches empty sub-labels, which the repair keeps empty. */
  lemma RepairAfterReadBack(cols: seq<Label>, offset: nat)
    ensures RepairHeader(ReadBackHeader(cols, offset)) == RepairHeader(cols)
  {
    var back := ReadBackHeader(cols, offset);
    forall k | 0 <= k < |cols| ensures RepairLabel(back[k]) == RepairLabel(cols[k]) {
      if cols[k].Pair? && cols[k].sub == "" {
        assert !StartsWith("", Unnamed);
      }
    }
  }

  /** Repairing twice is repairing once. */
  lemma RepairIdempotent(cols: seq<Label>)
    ensures RepairHeader(RepairHeader(cols)) == RepairHeader(cols)
  {
    var once := RepairHeader(cols);
    forall k | 0 <= k < |cols| ensures RepairLabel(once[k]) == once[k] {
      if cols[k].Pair? && StartsWith(cols[k].sub, Unnamed) {
        assert !StartsWith("", Unnamed);
      }
    }
  }

  // ---------------------------------------------------------------------
  // Live fetch or snapshot read

  /** The table the FBref client is asked to read. */
  datatype Read = Schedule | TeamMatchStats(statType: string, team: string) | TeamSeasonStats

  /** What a fetch asked the outside world for: nothing (a snapshot read), a
      read by the FBref client for a league and season code, or a page by
      address. */
  datatype Request = Offline | Client(league: string, seasons: string, read: Read) | Page(url: string)

  const League: string := "GER-Bundesliga"

  /** The client request for the current season. */
  function ClientRequest(today: Date, read: Read): Request
    requires ValidMonth(today)
  {
    Client(League, SeasonCode(CurrentSeason(today)), read)
  }

  // ---------------------------------------------------------------------
  // What a snapshot holds

  /** The index levels of the client's schedule frame (league, season, game),
      which the frame carries as its first columns. */
  const ScheduleIndexLevels: nat := 3

  /** `to_csv(path, index=False)`: the first `levels` columns are the index
      and are not written, so a read gives back only the others. */
  function WithoutIndex(f: Frame, levels: nat): (g: Frame)
    ensures |g.columns| == |f.columns| - Min(levels, |f.columns|)
    ensures f.columns == f.columns[..Min(levels, |f.columns|)] + g.columns
    ensures |g.rows| == |f.rows|
    ensures forall i :: 0 <= i < |f.rows| ==>
      f.rows[i] == f.rows[i][..Min(levels, |f.rows[i]|)] + g.rows[i]
  {
    var m := Min(levels, |f.columns|);
    assert f.columns == f.columns[..m] + f.columns[m..];
    var rows := seq(|f.rows|, i requires 0 <= i < |f.rows| => f.rows[i][Min(levels, |f.rows[i]|)..]);
    assert forall i :: 0 <= i < |f.rows| ==> f.rows[i] == f.rows[i][..Min(levels, |f.rows[i]|)] + rows[i];
    Frame(f.columns[m..], rows)
  }

  /** The label pandas gives an unnamed index column read back from CSV. */
  const RowNumberLabel: Label := Flat("Unnamed: 0")

  /** A frame written with its default row-number index and read back without
      `index_col`: the numbers 0, 1, ... come back as a leading column. */
  function WithRowNumbers(f: Frame): (g: Frame)
    ensures g.columns == [RowNumberLabel] + f.columns
    ensures |g.rows| == |f.rows|
    ensures forall i :: 0 <= i < |f.rows| ==>
      |g.rows[i]| == |f.rows[i]| + 1 && g.rows[i][0] == Num(i) && g.rows[i][1..] == f.rows[i]
  {
    Frame([RowNumberLabel] + f.columns, seq(|f.rows|, i requires 0 <= i < |f.rows| => [Num(i)] + f.rows[i]))
  }

  /** The fetched value, the snapshot directory afterwards, and the request. */
  datatype Fetched<T> = Fetched(value: T, files: map<string, Frame>, request: Request)

  /** `fetch_current_season_data`. */
  function FetchSchedule(files: map<string, Frame>, today: Date, useSaved: bool, live: Frame): (r: Result<Fetched<Frame>>)
    requires ValidMonth(today)
    ensures !useSaved ==>
      r == Ok(Fetched(live, files[ScheduleFile := WithoutIndex(live, ScheduleIndexLevels)], ClientRequest(today, Schedule)))
    ensures useSaved ==> (r.Ok? <==> ScheduleFile in files)
    ensures useSaved && r.Ok? ==> r.value == Fetched(files[ScheduleFile], files, Offline)
    ensures useSaved && r.Err? ==> r.error == SnapshotMissing(ScheduleFile)
  {
    if !useSaved then
      Ok(Fetched(live, files[ScheduleFile := WithoutIndex(live, ScheduleIndexLevels)], ClientRequest(today, Schedule)))
    else if ScheduleFile in files then Ok(Fetched(files[ScheduleFile], files, Offline))
    else Err(SnapshotMissing(ScheduleFile))
  }

  /** `fetch_current_table_data`: the first two tables of the standings page,
      given as `liveStandings` and `liveHomeAway`. */
  function FetchTables(files: map<string, Frame>, today: Date, useSaved: bool, liveStandings: Frame, liveHomeAway: Frame)
    : (r: Result<Fetched<(Frame, Frame)>>)
    requires ValidMonth(today)
    ensures !useSaved ==> r == Ok(Fetched((liveStandings, liveHomeAway),
                                          files[StandingsFile := liveStandings][HomeAwayFile := liveHomeAway],
                                          Page(StandingsUrl(CurrentSeason(today)))))
    ensures useSaved ==> (r.Ok? <==> StandingsFile in files && HomeAwayFile in files)
    ensures useSaved && r.Ok? ==> r.value == Fetched((files[StandingsFile], files[HomeAwayFile]), files, Offline)
    ensures useSaved && r.Err? ==>
      r.error == SnapshotMissing(if StandingsFile !in files then StandingsFile else HomeAwayFile)
  {
    if !useSaved then
      var written := files[StandingsFile := liveStandings];
      Ok(Fetched((liveStandings, liveHomeAway), written[HomeAwayFile := liveHomeAway], Page(StandingsUrl(CurrentSeason(today)))))
    else if StandingsFile !in files then Err(SnapshotMissing(StandingsFile))
    else if HomeAwayFile !in files then Err(SnapshotMissing(HomeAwayFile))
    else Ok(Fetched((files[StandingsFile], files[HomeAwayFile]), files, Offline))
  }

  /** `fetch_club_match_data`. */
  function FetchClubMatch(files: map<string, Frame>, today: Date, club: string, useSaved: bool, live: Frame)
    : (r: Result<Fetched<Frame>>)
    requires ValidMonth(today)
    ensures !useSaved ==>
      r == Ok(Fetched(live, files[StatsFile(club) := live], ClientRequest(today, TeamMatchStats("schedule", club))))
    ensures useSaved ==> (r.Ok? <==> StatsFile(club) in files)
    ensures useSaved && r.Ok? ==> r.value == Fetched(files[StatsFile(club)], files, Offline)
    ensures useSaved && r.Err? ==> r.error == SnapshotMissing(StatsFile(club))
  {
    var path := StatsFile(club);
    if !useSaved then
      Ok(Fetched(live, files[path := live], ClientRequest(today, TeamMatchStats("schedule", club))))
    else if path in files then Ok(Fetched(files[path], files, Offline))
    else Err(SnapshotMissing(path))
  }

  /** `fetch_club_season_data`. The snapshot holds the header as the CSV read
      gives it back, with its empty sub-labels renamed; the frame's columns
      include its index levels, so positions count from 0. A snapshot read
      gets its header repaired. */
  function FetchClubSeason(files: map<string, Frame>, today: Date, useSaved: bool, live: Frame)
    : (r: Result<Fetched<Frame>>)
    requires ValidMonth(today)
    ensures !useSaved ==>
      r == Ok(Fetched(live, files[SeasonStatsFile := Frame(ReadBackHeader(live.columns, 0), live.rows)],
                      ClientRequest(today, TeamSeasonStats)))
    ensures useSaved ==> (r.Ok? <==> SeasonStatsFile in files)
    ensures useSaved && r.Ok? ==>
      var saved := files[SeasonStatsFile];
      r.value == Fetched(Frame(RepairHeader(saved.columns), saved.rows), files, Offline)
    ensures useSaved && r.Err? ==> r.error == SnapshotMissing(SeasonStatsFile)
  {
    if !useSaved then
      Ok(Fetched(live, files[SeasonStatsFile := Frame(ReadBackHeader(live.columns, 0), live.rows)],
                 ClientRequest(today, TeamSeasonStats)))
    else if SeasonStatsFile in files then
      var saved := files[SeasonStatsFile];
      Ok(Fetched(Frame(RepairHeader(saved.columns), saved.rows), files, Offline))
    else Err(SnapshotMissing(SeasonStatsFile))
  }

  /** `fetch_head_to_head_data`. */
  function FetchHeadToHead(files: map<string, Frame>, homeId: string, awayId: string, useSaved: bool, live: Frame)
    : (r: Result<Fetched<Frame>>)
    ensures !useSaved ==>
      r == Ok(Fetched(live, files[H2HFile(homeId, awayId) := WithRowNumbers(live)], Page(MatchupUrl(homeId, awayId))))
    ensures useSaved ==> (r.Ok? <==> H2HFile(homeId, awayId) in files)
    ensures useSaved && r.Ok? ==> r.value == Fetched(files[H2HFile(homeId, awayId)], files, Offline)
    ensures useSaved && r.Err? ==> r.error == SnapshotMissing(H2HFile(homeId, awayId))
  {
    var path := H2HFile(homeId, awayId);
    if !useSaved then Ok(Fetched(live, files[path := WithRowNumbers(live)], Page(MatchupUrl(homeId, awayId))))
    else if path in files then Ok(Fetched(files[path], files, Offline))
    else Err(SnapshotMissing(path))
  }

  // ---------------------------------------------------------------------
  // Write, then read back

  /** A snapshot read after a live fetch returns the fetched schedule without
      its index columns. */
  lemma ScheduleRoundTrip(files: map<string, Frame>, today: Date, live: Frame, other: Frame)
    requires ValidMonth(today)
    ensures var w := FetchSchedule(files, today, false, live).value.files;
      FetchSchedule(w, today, true, other) == Ok(Fetched(WithoutIndex(live, ScheduleIndexLevels), w, Offline))
  {
  }

  lemma TablesRoundTrip(files: map<string, Frame>, today: Date, s: Frame, h: Frame, s': Frame, h': Frame)
    requires ValidMonth(today)
    ensures var w := FetchTables(files, today, false, s, h).value.files;
      FetchTables(w, today, true, s', h') == Ok(Fetched((s, h), w, Offline))
  {
  }

  /** The match log of one club survives a later live fetch for another
      club, and a snapshot read returns it. */
  lemma ClubMatchRoundTrip(files: map<string, Frame>, today: Date, club: string, other: string,
                           live: Frame, otherLive: Frame, ignored: Frame)
    requires ValidMonth(today)
    requires club != other
    ensures var w := FetchClubMatch(files, today, club, false, live).value.files;
      var w' := FetchClubMatch(w, today, other, false, otherLive).value.files;
      FetchClubMatch(w', today, club, true, ignored) == Ok(Fetched(live, w', Offline))
  {
    if StatsFile(club) == StatsFile(other) {
      StatsFileInjective(club, other);
    }
  }

  /** A season-statistics snapshot read after a live fetch gives the
      written frame with its header repaired. */
  lemma ClubSeasonSnapshotRead(files: map<string, Frame>, today: Date, live: Frame, ignored: Frame)
    requires ValidMonth(today)
    ensures var w := FetchClubSeason(files, today, false, live).value.files;
      FetchClubSeason(w, today, true, ignored) == Ok(Fetched(Frame(RepairHeader(live.columns), live.rows), w, Offline))
  {
    RepairAfterReadBack(live.columns, 0);
  }

  /** A season-statistics snapshot reads back as the frame that was written,
      once the header repair has run, when no real second-level label starts
      with "Unnamed:". */
  lemma ClubSeasonRoundTrip(files: map<string, Frame>, today: Date, live: Frame, ignored: Frame)
    requires ValidMonth(today)
    requires forall k :: 0 <= k < |live.columns| && live.columns[k].Pair? ==> !StartsWith(live.columns[k].sub, Unnamed)
    ensures var w := FetchClubSeason(files, today, false, live).value.files;
      FetchClubSeason(w, today, true, ignored) == Ok(Fetched(live, w, Offline))
  {
    RepairUndoesReadBack(live.columns, 0);
  }

  /** The head-to-head snapshot of a pairing survives a live fetch for another
      pairing of plain ids, and a snapshot read returns it with its row
      numbers as a leading column. */
  lemma HeadToHeadRoundTrip(files: map<string, Frame>, h: string, a: string, h': string, a': string,
                            live: Frame, otherLive: Frame, ignored: Frame)
    requires '_' !in h && '_' !in h'
    requires (h, a) != (h', a')
    ensures var w := FetchHeadToHead(files, h, a, false, live).value.files;
      var w' := FetchHeadToHead(w, h', a', false, otherLive).value.files;
      FetchHeadToHead(w', h, a, true, ignored) == Ok(Fetched(WithRowNumbers(live), w', Offline))
  {
    if H2HFile(h, a) == H2HFile(h', a') {
      H2HFileInjective(h, a, h', a');
    }
  }

  /** The row numbers a head-to-head snapshot gains are neither filtered on
      nor kept, so the table prepared from the snapshot is the one prepared
      from the live frame. */
  lemma HeadToHeadSnapshotSameTable(live: Frame, yearOf: Cell -> Option<int>)
    ensures PrepHeadToHead(WithRowNumbers(live), yearOf) == PrepHeadToHead(live, yearOf)
  {
    assert RowNumberLabel !in H2HKeep;
    var g := WithRowNumbers(live);
    RecentMeetingsIgnoresLeading(live, g, RowNumberLabel, H2HKeep, yearOf);
  }

  /** A live match-log fetch asks the client for that club's log: different
      clubs give different requests, and none is the schedule read. */
  lemma ClubMatchRequests(files: map<string, Frame>, today: Date, club: string, other: string, live: Frame)
    requires ValidMonth(today)
    ensures var r := FetchClubMatch(files, today, club, false, live).value.request;
      && r.Client? && r.read == TeamMatchStats("schedule", club)
      && r != FetchSchedule(files, today, false, live).value.request
      && (club != other ==> r != FetchClubMatch(files, today, other, false, live).value.request)
  {
  }
}
