# Bundesliga match preview — a Dafny model of its data pipeline

The application shows a preview of an upcoming Bundesliga game. It fetches
five data sets from FBref: the season schedule, the league table with its
home/away split, a club's match log, the clubs' season statistics and the
head-to-head record of two clubs. It can also read each set back from a
snapshot under `data/`. It reshapes each set with one preprocessing
function, then picks the still-open match days, the games of the chosen
match day and the colours of a club's recent results.

This project models that pipeline:

- `season.dfy` (`Season`): the season rule. A season starts on 1 July and
  is named after the year it starts in.
- `strings.dfy` (`Strings`) and `frames.dfy` (`Frames`): the string
  operations and the data-frame operations the pipeline relies on. A frame
  is an ordered list of column labels and an ordered list of rows. A label
  is a plain name or a (top, sub) pair of a two-level header. A frame's
  index levels are carried as its leading columns.
- `preprocessing.dfy` (`Preprocessing`): the club abbreviations and the
  five preprocessing functions.
- `fetching.dfy` (`Fetching`): the season code passed to the FBref client,
  the page addresses, the snapshot file names, and the choice between a
  live fetch (which writes the snapshot) and a snapshot read. It also
  models the header repair applied after reading the season statistics
  back. The snapshot directory maps a path to the frame a read of it gives
  back. The schedule is written without its index columns, a
  head-to-head table reads back with its row numbers as a leading
  "Unnamed: 0" column, and the season statistics read back with each empty
  second-level label renamed "Unnamed: {position}_level_1".
- `app.dfy` (`App`): the future games, the sorted open match days (an
  in-place sort on an array), the games of one match day in kickoff order,
  and the two row stylings.

"Today" and "now" are parameters: a `Date` for the season rule and an
integer number of seconds for the schedule. Parsing a head-to-head date
into its year is a parameter `yearOf`, whose `None` is pandas' NaT.

## Model

| member | source | states |
|---|---|---|
| Season.CurrentSeason | preprocessing.py:7-13 | the returned season contains today (July of year s through June of year s+1), and it is this year or last year |
| Season.SeasonIsUnique | app.py:20-26 | any season that contains today is the one the rule returns, so the rule is the only one consistent with a 1 July rollover |
| Season.Rollover | fetching.py:10-16 | 30 June belongs to the previous season and 1 July starts the new one |
| Strings.UpperIsUpper | preprocessing.py:38 | an upper-cased string has no lower-case ASCII letter, and upper-casing it again changes nothing |
| Strings.ParseNatToString | fetching.py:24 | reading back the decimal rendering of a number gives the number |
| Strings.NatToStringInjective | fetching.py:39 | different numbers have different decimal renderings |
| Strings.FourDigits | fetching.py:24 | a number from 1000 to 9999 renders as its four decimal digits |
| Strings.IntToString | fetching.py:39 | `str` of an integer is its decimal rendering, with a leading minus sign when negative |
| Strings.IntToStringParses | fetching.py:39 | the rendering of a non-negative integer is all digits and reads back as the integer; that of a negative one is a minus sign followed by digits that read back as its magnitude |
| Strings.IntToStringInjective | fetching.py:39 | distinct seasons render as distinct strings |
| Strings.Split | preprocessing.py:102 | splitting gives at least one piece, and no piece contains the separator |
| Strings.JoinSplit | preprocessing.py:102 | joining the pieces of a split with the separator gives back the string |
| Strings.SplitJoin | preprocessing.py:102 | splitting a join of separator-free pieces gives back the pieces |
| Strings.CancelAtSeparator | fetching.py:91 | two strings of the form a + c + b, with c absent from a, are equal only if both the a parts and the b parts are equal |
| Frames.Positions | preprocessing.py:66-67 | the positions returned are ascending, each satisfies the test, and every position that satisfies it is included |
| Frames.Tail | preprocessing.py:93 | `tail(n)` has min(n, length) elements, and they are the last ones in order |
| Frames.TailOfPositions | preprocessing.py:92-93 | the tail of a list of qualifying positions has at most n of them, exactly n when there are enough, and each still qualifies |
| Frames.IndexOf | preprocessing.py:70 | the label lookup finds the first column with that label, and finds nothing exactly when no column has it |
| Frames.IndexOfAppend | preprocessing.py:73 | appending a column does not change the lookup of a label already present, or of any other label |
| Frames.AbsentLabels | preprocessing.py:84 | lists exactly the wanted labels that are absent, and is empty exactly when every wanted label is present |
| Frames.Project | preprocessing.py:84 | `frame[keep]` succeeds exactly when every kept label is present (otherwise a KeyError names an absent one) and reduces every row, in order, to the kept columns |
| Frames.Select | preprocessing.py:115-118 | the result is exactly the transformed rows that pass the filter, in their original order |
| Frames.Filter | app.py:87 | a query keeps exactly the rows that pass, in their original order |
| Frames.KeepsInOrderMembers | app.py:87 | every kept row comes from a passing row, every passing row is kept, and nothing is added |
| Frames.SortBy | preprocessing.py:70 | the result is ordered by the key, with missing keys last, and is a permutation of the input |
| Preprocessing.ClubToAbbr | preprocessing.py:16-38 | a known club gets its table code; any other name gets its first three characters (fewer when the name is shorter) upper-cased; a code has at most three characters and no 'v' |
| Preprocessing.CodesLeadBack | preprocessing.py:17-34 | each known club's code leads back to that club |
| Preprocessing.KnownCodesDistinct | preprocessing.py:17-34 | no two known clubs share a code |
| Preprocessing.Days | preprocessing.py:51 | the days of a duration are its whole days rounded down, so the duration lies within that day |
| Preprocessing.Hours | preprocessing.py:52 | the hours are the whole hours left over after the days, from 0 to 23 |
| Preprocessing.PrepareFixture | preprocessing.py:47-55 | one prepared row keeps the raw row and has the time to start, its floored days and hours, both club codes and the label "HOME vs AWAY" |
| Preprocessing.PrepSchedule | preprocessing.py:41-58 | one prepared row per schedule row, in schedule order |
| Preprocessing.JustStarted | preprocessing.py:51-52 | a game that started an hour ago shows -1 days and 23 hours |
| Preprocessing.GameLabelDeterminesCodes | preprocessing.py:55 | a game label determines both codes it was built from |
| Preprocessing.GameLabelDeterminesClubCodes | app.py:102-107 | two prepared games with the same tab label have the same home code and the same away code |
| Preprocessing.SideColumns | preprocessing.py:66-67 | a side keeps, in order, exactly the columns whose top label is not the other side's group |
| Preprocessing.SplitSharesCommonColumns | preprocessing.py:66-67 | columns outside both groups go to both tables; Home columns go only to the home table, and Away columns only to the away table |
| Preprocessing.DropTop | preprocessing.py:69 | dropping the top level replaces each two-level label with its sub-label; every resulting label is one-level, and one-level labels are kept |
| Preprocessing.RankedSide | preprocessing.py:68-83 | one side table exists exactly when the header is two-level and the side has a Pts column, and fails with the matching error otherwise; its columns are the side's flattened labels followed by the rank column |
| Preprocessing.RankedSideOrdered | preprocessing.py:70-73 | a side table has one row per input row, ordered by points descending with missing points last; each row ends in its 1-based rank, and the rows without the rank are a permutation of the side's rows |
| Preprocessing.CurrentTables | preprocessing.py:62-84 | the three tables exist exactly when both sides succeed and the standings have every kept column; the standings are reduced to the kept columns, and the home and away tables are the two ranked sides |
| Preprocessing.PrepCurrentTable | preprocessing.py:62-84 | with the fixed sixteen standings columns: the tables exist exactly when the split header is two-level, both sides have Pts and the standings have all sixteen; the standings keep those columns and every row, and the side tables end in home_rk and away_rk |
| Preprocessing.LastReported | preprocessing.py:88-96 | the form table exists exactly when the match_report column and every kept column exist; its rows are the last n reported rows in order, reduced to the kept columns |
| Preprocessing.LastReportedRows | preprocessing.py:91-94 | the form table holds at most n rows, exactly n when the club has that many reported games, and each row comes from a reported game |
| Preprocessing.LastReportedShape | preprocessing.py:91-94 | the form table exists exactly when match_report and every kept column exist; it has the kept columns and at most n rows, exactly n when there are that many reported games |
| Preprocessing.PrepClubMatch | preprocessing.py:88-96 | with the fixed twelve columns and `tail(5)`: the form table exists exactly when match_report and all twelve exist, has those columns, and holds at most five rows, exactly five when five games were reported |
| Preprocessing.TeamIdIsFourthPiece | preprocessing.py:102 | the club id of a url made of '/'-free pieces is the fourth piece |
| Preprocessing.TeamIdOf | preprocessing.py:102 | a non-text url gives a missing id, and an id never contains '/' (it is one piece of the url) |
| Preprocessing.PrepClubSeason | preprocessing.py:100-106 | succeeds exactly when the url column and the league and season groups exist; keeps every column outside league, season and url in order, and appends team_id as the url's fourth piece |
| Preprocessing.DropAfterAssign | preprocessing.py:102-104 | dropping columns after the assign is dropping them first and then appending the new column |
| Preprocessing.HasTopAppend | preprocessing.py:104 | appending team_id neither adds nor removes a league or season group |
| Preprocessing.PositionsAppend | preprocessing.py:104 | appending a kept column appends its position to the kept positions |
| Preprocessing.LatestYear | preprocessing.py:116-117 | the latest year is at least the year of every played, dated meeting, and is the year of one of them when any exists; meetings without a score or a date take no part, as `max()` skips NaN |
| Preprocessing.DateYear | preprocessing.py:116 | a missing Date cell has no year (NaT) |
| Preprocessing.RecentMeetings | preprocessing.py:110-120 | the head-to-head table exists exactly when Score, Date and every kept column exist; it holds, in order, exactly the played meetings with a date fewer than five years before the latest one, reduced to the kept columns |
| Preprocessing.RecentMeetingsKeepsLatest | preprocessing.py:115-118 | when any meeting was played and has a date, the head-to-head table is not empty |
| Preprocessing.RecentMeetingsRows | preprocessing.py:115-118 | every kept row comes from a played meeting with a non-missing, parsed Date fewer than five years before the latest |
| Preprocessing.RecentMeetingsIgnoresLeading | preprocessing.py:110-120 | a leading column other than Score and Date, and not kept, changes neither the error nor the table |
| Preprocessing.UndatedMeetingDropped | preprocessing.py:116-118 | a played meeting with a missing Date is dropped whatever the date parser does, as `year_diff < 5` is false on NaN |
| Preprocessing.PrepHeadToHead | preprocessing.py:110-120 | with the fixed eight columns (Comp, Round, Date, Home, xG, Score, xG.1, Away): exists exactly when Score, Date and all eight exist, has those columns, and keeps exactly the recent played meetings in order |
| Fetching.SeasonCode | fetching.py:24 | `str(season)[2:]` is the rendering after its first two characters, and empty when there are none |
| Fetching.SeasonCodeOfYear | fetching.py:60 | a four-digit season is passed as its last two digits, which read back as the season modulo 100 |
| Fetching.SeasonCodeWithinCentury | fetching.py:73 | within the 2000s different seasons get different codes |
| Fetching.SeasonCode2023 | fetching.py:24 | the 2023 season is passed as "23" |
| Fetching.SeasonSpanInjective | fetching.py:39 | the span "s-(s+1)" determines the season |
| Fetching.StandingsUrlInjective | fetching.py:39 | different seasons have different standings pages |
| Fetching.SeasonSpan2023 | fetching.py:39 | the 2023 season's span is "2023-2024" |
| Fetching.StandingsUrl | fetching.py:39 | the standings page starts with the competition prefix and continues with the season span, a '/', the span again and "-Bundesliga-Stats" |
| Fetching.MatchupUrlInjective | fetching.py:91 | for ids without '/', the head-to-head page determines the home id and the away id |
| Fetching.MatchupUrlOrdered | fetching.py:91 | swapping two different clubs gives a different page |
| Fetching.MatchupUrl | fetching.py:91 | the matchup page starts with the matchup prefix and continues with the home id, a '/', the away id and a final '/' |
| Fetching.StatsFileInjective | fetching.py:62-64 | different clubs have different match-log snapshots |
| Fetching.StatsFile | fetching.py:62-64 | the match-log snapshot is "data/stats_" followed by the club's name and ".csv", so the name can be read back from it |
| Fetching.H2HFileInjective | fetching.py:94-96 | for ids without '_', different pairings have different snapshots |
| Fetching.H2HFileNeedsPlainIds | fetching.py:94 | with '_' allowed in ids, two different pairings share a snapshot name |
| Fetching.H2HFile | fetching.py:94-96 | the head-to-head snapshot is "data/h2h_" followed by the home id, '_', the away id and ".csv" |
| Fetching.RepairHeader | fetching.py:80-81 | the repair keeps every top label, blanks exactly the sub-labels that start with "Unnamed:", and leaves every other label untouched |
| Fetching.ReadBackHeader | fetching.py:79 | reading back keeps every top-level label and every label's level count; it gives each empty sub-label a name starting with "Unnamed:", so no sub-label comes back empty, and leaves every other label unchanged |
| Fetching.RepairUndoesReadBack | fetching.py:79-81 | the repair restores the written header when no real sub-label starts with "Unnamed:" |
| Fetching.RepairAfterReadBack | fetching.py:76-81 | repairing a header read back gives the same as repairing the header written, for every header |
| Fetching.RepairIdempotent | fetching.py:80 | repairing twice is repairing once |
| Fetching.FetchSchedule | fetching.py:19-30 | a live fetch asks the client for the Bundesliga schedule of the current season code, returns it and writes it to schedule.csv without its index columns; a snapshot read returns schedule.csv and fails when it is absent |
| Fetching.FetchTables | fetching.py:33-51 | a live fetch asks for the current season's standings page and writes both tables; a snapshot read returns both tables and fails naming standings.csv when it is absent, otherwise standings_home_away.csv |
| Fetching.FetchClubMatch | fetching.py:54-66 | a live fetch asks the client for this club's match log (stat type "schedule") of the current season and writes stats_{club}.csv; a snapshot read returns that file and fails when it is absent |
| Fetching.ClubMatchRequests | fetching.py:60-61 | a live match-log fetch names its club: different clubs make different requests, and none equals the schedule request |
| Fetching.FetchClubSeason | fetching.py:68-83 | a live fetch asks the client for the season statistics of the current season, returns them and stores in team_season_stats.csv the frame with the read-back header, its empty sub-labels renamed; a snapshot read returns that file with its header repaired and fails when it is absent |
| Fetching.FetchHeadToHead | fetching.py:87-98 | a live fetch asks for the matchup page of the pairing, returns it and writes it to h2h_{home}_{away}.csv with its row numbers as a leading column; a snapshot read returns that file |
| Fetching.WithoutIndex | fetching.py:26 | writing with `index=False` drops the leading index columns of the header and of every row and keeps the rest in order |
| Fetching.ScheduleRoundTrip | fetching.py:26-28 | a snapshot read after a live fetch returns the fetched schedule without its three index columns (league, season, game) |
| Fetching.TablesRoundTrip | fetching.py:43-49 | a snapshot read after a live fetch returns both fetched tables |
| Fetching.ClubMatchRoundTrip | fetching.py:62-64 | a club's log survives a live fetch for another club, and a snapshot read returns it |
| Fetching.ClubSeasonSnapshotRead | fetching.py:76-81 | a snapshot read after a live fetch gives the fetched frame with its header repaired |
| Fetching.ClubSeasonRoundTrip | fetching.py:76-81 | a snapshot read after a live fetch gives back the fetched frame itself when no real sub-label starts with "Unnamed:" |
| Fetching.WithRowNumbers | fetching.py:94-96 | writing with the default index and reading without `index_col` adds a leading "Unnamed: 0" column holding each row's number, and keeps every row after it |
| Fetching.HeadToHeadRoundTrip | fetching.py:94-96 | a pairing's snapshot survives a live fetch for another pairing of plain ids, and a snapshot read returns it with the leading "Unnamed: 0" column |
| Fetching.HeadToHeadSnapshotSameTable | fetching.py:94-96 | the head-to-head table prepared from a snapshot is the one prepared from the live page, because the "Unnamed: 0" column is neither filtered on nor kept |
| App.FutureGames | app.py:87 | the future games are exactly the prepared games with positive time to start, in schedule order |
| App.FutureGamesExactly | app.py:87 | a game is a future game exactly when it is scheduled and has not started |
| App.Unique | app.py:89 | `unique()` has no repeats and the same values as its input |
| App.SortInPlace | app.py:90 | `list.sort()` leaves the array sorted and a permutation of its old contents |
| App.InsertLast | app.py:90 | one insertion step extends the sorted prefix by one element, permutes the array and leaves every element after it in place |
| App.SwapDown | app.py:90 | a swap exchanges two neighbours and changes nothing else |
| App.OpenMatchDays | app.py:89-90 | the open match days strictly increase and are exactly the weeks of the future games |
| App.DistinctCount | app.py:89 | a value occurs at most once in a list without repeats |
| App.DistinctPermutation | app.py:89-90 | a sorted rearrangement of a list without repeats strictly increases |
| App.MatchDay | app.py:97 | the games of a match day are ordered by kickoff and are a permutation of that week's future games |
| App.MatchDayMembers | app.py:97 | a game is on a match day exactly when it is a future game of that week |
| App.MatchDayOrdered | app.py:97 | the games of a match day come earliest kickoff first |
| App.RowStyle | app.py:115-135 | styling succeeds exactly when the row has a result column, otherwise it raises a KeyError; it gives one entry per cell, each the property followed by the result's colour |
| App.BackgroundStyle | app.py:115-124 | `custom_background_style` raises a KeyError without a result column; otherwise every cell is "background-color: " with green for W, red for L, yellow for D and white for anything else |
| App.ForegroundStyle | app.py:126-135 | `custom_foreground_style` raises a KeyError without a result column; otherwise every cell is "color: " with green for W, red for L, blue for D and white for anything else |
| App.ColoursDifferOnlyOnDraws | app.py:121-122 | the two stylings agree on every result except a draw (yellow background, blue text) |
| App.ColoursTellResultsApart | app.py:115-135 | each styling gives a win, a loss, a draw and anything else four different colours |
| App.RowStyleUniform | app.py:124 | every cell of a styled row carries "background-color: " or "color: " followed by the result's colour |

## Left out

- The network: the FBref client, `pd.read_html` and the page content. A live fetch returns the frame it is given; the model records only what was asked for.
- The CSV encoding itself. A snapshot is stored as the frame a read gives back. Three effects of writing and reading back are modelled: the schedule's dropped index columns, the head-to-head table's leading "Unnamed: 0" column, and the season statistics' "Unnamed:" sub-label renaming that `fetch_club_season_data` repairs. Other effects (value types, quoting) are not.
- `pd.read_html` returning fewer than two tables (`tables[1]` raising an IndexError) is not modelled; the two tables are parameters.
- `os.path.join` is modelled for the relative names the program uses ("data/" + name). Its rule for absolute second arguments is left out.
- The Streamlit page: the title, the buttons, the select box, the tabs and their loop (app.py:92-189), the column help texts, and the printing.
- The `st.cache_data` caches and their reset buttons (app.py:28-78). Each cached getter is a fetch followed by a preprocessing function, and both are modelled. The schedule getter is the exception: `Fetching.FetchSchedule` gives a frame while `Preprocessing.PrepSchedule` takes fixtures, and the step between them is the date parsing left out under "Clocks".
- The merge of the form table with the current ranks (app.py:169, 174) and the team-id lookups (app.py:179-180) are not modelled.
- `int(option)` when there is no open match day (the select box returns None) is not modelled.
- Clocks: today's date and the current time are parameters. Parsing the date and time strings into a kickoff timestamp is left out, so `kickoff` is given as seconds.
- Preprocessing.RecentMeetings: the year of a Date cell is a parameter `yearOf`, because date parsing is left out. A missing Date is always NaT; a Date text that `pd.to_datetime` cannot parse raises in the source, while the model has no error for it (a `yearOf` answer of `None` stands for NaT).
- Floating-point cells (xG, Pts/MP, Poss, ...) are opaque values. Points are integers.
- Strings.Upper: only ASCII letters are upper-cased; Python's Unicode case mapping (for example of "ö") is not modelled.
- App.FutureGames: a schedule row whose date or time is missing gets a NaT `datetime_ts` (preprocessing.py:47-50). Such a row never passes `time_to_start.dt.total_seconds() > 0` (app.py:87). `kickoff` is an integer here, so every modelled row has a start time, and that case is not modelled.
- Frames.SortBy: the order among rows with equal keys is not stated (pandas' default sort is not stable); only the ordering and the permutation are.
- Frames.IndexOf: a frame with duplicate labels selects the first; pandas would return several columns.
- Fetching.FetchSchedule, Fetching.FetchClubMatch and Fetching.FetchClubSeason: the read options `parse_dates`, `header` and `index_col` are not modelled beyond the header repair and the dropped schedule index; apart from those, a frame is read back as it was written.
- Season.CurrentSeason: the three identical copies of the season rule (preprocessing.py:7-13, fetching.py:10-16, app.py:20-26) share one definition. `prep_schedule_data` computes the season but never uses it.
- Preprocessing.PrepClubSeason: `reset_index()` is already reflected in the frame (index levels are carried as leading columns). The id of a url with fewer than four pieces is a missing cell, as pandas' `.str[3]` gives NaN.
