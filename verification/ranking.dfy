/** The opening table of `displayOpenings` and the opening win-rate chart of
    `renderCharts`: the openings sorted by play count, most played first, cut
    to the first 20 (table) or 10 (chart), with their rates. */
module Ranking {
  import opened Assoc
  import opened Analysis
  import opened Numbers
  import opened Games
  import opened Text

  type Entry = (string, OpeningStats)

  const TableRows: nat := 20
  const ChartBars: nat := 10

  function Plays(e: Entry): nat {
    e.1.playCount
  }

  /** Play counts never increase along `s`. */
  predicate MostPlayedFirst(s: seq<Entry>) {
    forall i, j :: 0 <= i < j < |s| ==> Plays(s[j]) <= Plays(s[i])
  }

  /** The entries of `s` played exactly `c` times, in their order in `s`. */
  function PlayedTimes(s: seq<Entry>, c: nat): seq<Entry> {
    if s == [] then []
    else (if Plays(s[0]) == c then [s[0]] else []) + PlayedTimes(s[1..], c)
  }

  /** Places `x` in front of the first entry played no more often than it,
      so that it stays ahead of the entries it tied with. */
  function Insert(x: Entry, s: seq<Entry>): (r: seq<Entry>)
    requires MostPlayedFirst(s)
    ensures |r| == |s| + 1
    ensures r[0] == x || (s != [] && r[0] == s[0])
    ensures MostPlayedFirst(r)
    ensures multiset(r) == multiset(s) + multiset{x}
    ensures forall c :: PlayedTimes(r, c) == (if Plays(x) == c then [x] else []) + PlayedTimes(s, c)
  {
    if s == [] || Plays(s[0]) <= Plays(x) then
      var r := [x] + s;
      assert r[1..] == s;
      r
    else
      var rest := Insert(x, s[1..]);
      var r := [s[0]] + rest;
      assert s == [s[0]] + s[1..];
      assert r[1..] == rest;
      assert Plays(rest[0]) <= Plays(s[0]);
      InsertTies(x, s, r, rest);
      r
  }

  lemma InsertTies(x: Entry, s: seq<Entry>, r: seq<Entry>, rest: seq<Entry>)
    requires s != [] && Plays(x) < Plays(s[0])
    requires r == [s[0]] + rest
    requires forall c :: PlayedTimes(rest, c) == (if Plays(x) == c then [x] else []) + PlayedTimes(s[1..], c)
    ensures forall c :: PlayedTimes(r, c) == (if Plays(x) == c then [x] else []) + PlayedTimes(s, c)
  {
    assert r[1..] == rest;
    forall c
      ensures PlayedTimes(r, c) == (if Plays(x) == c then [x] else []) + PlayedTimes(s, c)
    {
      assert PlayedTimes(r, c) == (if Plays(s[0]) == c then [s[0]] else []) + PlayedTimes(rest, c);
      assert PlayedTimes(s, c) == (if Plays(s[0]) == c then [s[0]] else []) + PlayedTimes(s[1..], c);
    }
  }

  /** `Object.entries(openingStats).sort((a, b) => b[1].playCount - a[1].playCount)`:
      a stable sort, most played first. Entries played equally often keep
      their order of enumeration, which is the order their ECO codes were
      first met. */
  function SortByPlays(s: seq<Entry>): (r: seq<Entry>)
    ensures MostPlayedFirst(r)
    ensures multiset(r) == multiset(s)
    ensures |r| == |s|
    ensures forall c :: PlayedTimes(r, c) == PlayedTimes(s, c)
  {
    if s == [] then []
    else
      assert s == [s[0]] + s[1..];
      Insert(s[0], SortByPlays(s[1..]))
  }

  /** Sorting most played first while keeping every group of ties in its
      order determines the result: two such orderings of the same entries
      are equal. So `SortByPlays` is the stable sort, whatever algorithm
      computes it. */
  lemma {:induction false} StableSortIsUnique(a: seq<Entry>, b: seq<Entry>)
    requires MostPlayedFirst(a) && MostPlayedFirst(b)
    requires forall c :: PlayedTimes(a, c) == PlayedTimes(b, c)
    ensures a == b
    decreases |a| + |b|
  {
    if a == [] && b == [] {
    } else if a == [] {
      HeadIsTied(b);
      assert false;
    } else if b == [] {
      HeadIsTied(a);
      assert false;
    } else {
      var ca, cb := Plays(a[0]), Plays(b[0]);
      if ca > cb {
        assert PlayedTimes(a, ca) != [];
        PlayedTimesSorted(b, ca);
        assert false;
      } else if cb > ca {
        assert PlayedTimes(b, cb) != [];
        PlayedTimesSorted(a, cb);
        assert false;
      }
      assert a[0] == PlayedTimes(a, ca)[0] == PlayedTimes(b, ca)[0] == b[0];
      forall c
        ensures PlayedTimes(a[1..], c) == PlayedTimes(b[1..], c)
      {
        if c == ca {
          assert PlayedTimes(a, c) == [a[0]] + PlayedTimes(a[1..], c);
          assert PlayedTimes(b, c) == [b[0]] + PlayedTimes(b[1..], c);
          assert PlayedTimes(a[1..], c) == PlayedTimes(a, c)[1..];
          assert PlayedTimes(b[1..], c) == PlayedTimes(b, c)[1..];
        } else {
          assert PlayedTimes(a, c) == PlayedTimes(a[1..], c);
          assert PlayedTimes(b, c) == PlayedTimes(b[1..], c);
        }
      }
      StableSortIsUnique(a[1..], b[1..]);
      assert a == [a[0]] + a[1..] && b == [b[0]] + b[1..];
    }
  }

  /** The head of a list is among the entries tied with it. */
  lemma HeadIsTied(s: seq<Entry>)
    requires s != []
    ensures PlayedTimes(s, Plays(s[0])) != []
  {
  }

  /** In a list sorted most played first, nothing is played more often than
      its head. */
  lemma {:induction false} PlayedTimesSorted(s: seq<Entry>, c: nat)
    requires MostPlayedFirst(s) && s != []
    requires c > Plays(s[0])
    ensures PlayedTimes(s, c) == []
    decreases |s|
  {
    if |s| > 1 {
      PlayedTimesSorted(s[1..], c);
    }
  }

  /** `.slice(0, n)`. */
  function Take(s: seq<Entry>, n: nat): (r: seq<Entry>)
    ensures |r| == if |s| < n then |s| else n
    ensures r == s[..|r|]
  {
    if |s| < n then s else s[..n]
  }

  /** The `n` most played openings, most played first. Every opening left
      out is played no more often than any opening kept, and ties keep
      their enumeration order. */
  function TopOpenings(os: Assoc<OpeningStats>, n: nat): (r: seq<Entry>)
    ensures |r| == if |os| < n then |os| else n
    ensures MostPlayedFirst(r)
    ensures forall e :: e in r ==> e in os
    ensures forall i, e :: 0 <= i < |r| && e in os && e !in r ==> Plays(e) <= Plays(r[i])
    ensures forall c :: PlayedTimes(r, c) <= PlayedTimes(os, c)
  {
    var sorted := SortByPlays(os);
    var r := Take(sorted, n);
    KeptFromTable(os, sorted, r);
    LeftOutPlayedLess(os, sorted, r);
    forall c ensures PlayedTimes(r, c) <= PlayedTimes(os, c) {
      PlayedTimesPrefix(sorted, |r|, c);
    }
    r
  }

  lemma KeptFromTable(os: seq<Entry>, sorted: seq<Entry>, r: seq<Entry>)
    requires multiset(sorted) == multiset(os)
    requires |r| <= |sorted| && r == sorted[..|r|]
    ensures forall e :: e in r ==> e in os
  {
    forall e | e in r ensures e in os {
      assert e in sorted;
      assert e in multiset(sorted);
    }
  }

  lemma LeftOutPlayedLess(os: seq<Entry>, sorted: seq<Entry>, r: seq<Entry>)
    requires multiset(sorted) == multiset(os) && MostPlayedFirst(sorted)
    requires |r| <= |sorted| && r == sorted[..|r|]
    ensures forall i, e :: 0 <= i < |r| && e in os && e !in r ==> Plays(e) <= Plays(r[i])
  {
    forall i, e | 0 <= i < |r| && e in os && e !in r
      ensures Plays(e) <= Plays(r[i])
    {
      assert e in multiset(sorted);
      var j :| 0 <= j < |sorted| && sorted[j] == e;
      assert j >= |r|;
      assert r[i] == sorted[i];
    }
  }

  /** Cutting a list keeps a prefix of each group of ties. */
  lemma {:induction false} PlayedTimesPrefix(s: seq<Entry>, n: nat, c: nat)
    requires n <= |s|
    ensures PlayedTimes(s[..n], c) <= PlayedTimes(s, c)
    decreases n
  {
    if n > 0 {
      assert s[..n][1..] == s[1..][..n - 1];
      PlayedTimesPrefix(s[1..], n - 1, c);
    }
  }

  /** One row of the opening table. Rates are percentages; the rounding to
      one decimal for display is not modelled. */
  datatype OpeningRow = OpeningRow(
    eco: string,
    playRate: real,
    winRate: real,
    lossRate: real,
    drawRate: real,
    whiteWinRate: real,
    blackWinRate: real)

  predicate InPercentRange(x: real) {
    0.0 <= x <= 100.0
  }

  predicate RatesInRange(row: OpeningRow) {
    && InPercentRange(row.playRate)
    && InPercentRange(row.winRate)
    && InPercentRange(row.lossRate)
    && InPercentRange(row.drawRate)
    && InPercentRange(row.whiteWinRate)
    && InPercentRange(row.blackWinRate)
  }

  /** The numerator of the loss rate: games with neither a win nor a draw. */
  function Residue(o: OpeningStats): int {
    o.playCount - o.whiteWins - o.blackWins - o.draws
  }

  /** The table row of one opening. The "win rate" counts games won by
      either colour, and the "loss rate" the games with no recognised
      result. */
  function RowOf(e: Entry, totalPlays: nat): (row: OpeningRow)
    ensures row.eco == e.0
    ensures row.playRate == Percent(e.1.playCount, totalPlays)
    ensures row.winRate == Percent(e.1.whiteWins + e.1.blackWins, e.1.playCount)
    ensures row.lossRate == Percent(Residue(e.1), e.1.playCount)
    ensures row.drawRate == Percent(e.1.draws, e.1.playCount)
    ensures row.whiteWinRate == Percent(e.1.whiteWins, e.1.playCount)
    ensures row.blackWinRate == Percent(e.1.blackWins, e.1.playCount)
    ensures Consistent(e.1) && Plays(e) <= totalPlays ==> RatesInRange(row)
    ensures e.1.playCount == 0 ==>
      row.winRate == 0.0 && row.lossRate == 0.0 && row.drawRate == 0.0
      && row.whiteWinRate == 0.0 && row.blackWinRate == 0.0
    ensures e.1.playCount > 0 ==> row.winRate + row.lossRate + row.drawRate == 100.0
  {
    var o := e.1;
    var row := OpeningRow(
      e.0,
      Percent(o.playCount, totalPlays),
      Percent(o.whiteWins + o.blackWins, o.playCount),
      Percent(Residue(o), o.playCount),
      Percent(o.draws, o.playCount),
      Percent(o.whiteWins, o.playCount),
      Percent(o.blackWins, o.playCount));
    ResidueNonNegative(o);
    PercentsAddUp(o.whiteWins + o.blackWins, Residue(o), o.draws, o.playCount);
    row
  }

  /** The loss numerator is never negative for a consistent tally. */
  lemma ResidueNonNegative(o: OpeningStats)
    ensures Consistent(o) <==> Residue(o) >= 0
  {
  }

  /** Shares of one total that make up the whole add up to 100 percent. */
  lemma PercentsAddUp(a: int, b: int, c: int, total: int)
    requires a + b + c == total
    ensures total != 0 ==> Percent(a, total) + Percent(b, total) + Percent(c, total) == 100.0
  {
    if total != 0 {
      var t := total as real;
      var pa, pb, pc := Percent(a, total), Percent(b, total), Percent(c, total);
      calc {
        (pa + pb + pc) * t;
        pa * t + pb * t + pc * t;
        (a as real) * 100.0 + (b as real) * 100.0 + (c as real) * 100.0;
        ((a as real) + (b as real) + (c as real)) * 100.0;
        100.0 * t;
      }
      CancelFactor(pa + pb + pc, 100.0, t);
    }
  }

  lemma CancelFactor(x: real, y: real, t: real)
    requires t != 0.0 && x * t == y * t
    ensures x == y
  {
    assert (x - y) * t == 0.0;
  }

  /** No opening is played more often than all openings together. */
  lemma {:induction false} PlaysWithinTotal(os: Assoc<OpeningStats>, e: Entry)
    requires e in os
    ensures Plays(e) <= TotalPlays(os)
    decreases |os|
  {
    if os[0] != e {
      assert e in os[1..];
      PlaysWithinTotal(os[1..], e);
    }
  }

  /** Openings taken from a consistent table are consistent and within the
      table's total. */
  lemma TopConsistent(os: Assoc<OpeningStats>, top: seq<Entry>)
    requires forall i :: 0 <= i < |os| ==> Consistent(os[i].1)
    requires forall e :: e in top ==> e in os
    ensures forall i :: 0 <= i < |top| ==> Consistent(top[i].1) && Plays(top[i]) <= TotalPlays(os)
  {
    forall i | 0 <= i < |top|
      ensures Consistent(top[i].1) && Plays(top[i]) <= TotalPlays(os)
    {
      assert top[i] in os;
      var j :| 0 <= j < |os| && os[j] == top[i];
      PlaysWithinTotal(os, top[i]);
    }
  }

  /** The rows `displayOpenings` renders: the 20 most played openings with
      their rates. When every tally is consistent, as `analyzeGames`
      guarantees, all rates lie between 0 and 100. */
  function OpeningTable(os: Assoc<OpeningStats>): (rows: seq<OpeningRow>)
    ensures |rows| == if |os| < TableRows then |os| else TableRows
    ensures forall i :: 0 <= i < |rows| ==> rows[i] == RowOf(TopOpenings(os, TableRows)[i], TotalPlays(os))
    ensures (forall i :: 0 <= i < |os| ==> Consistent(os[i].1)) ==>
              forall i :: 0 <= i < |rows| ==> RatesInRange(rows[i])
  {
    var top := TopOpenings(os, TableRows);
    var rows := RowsOf(top, TotalPlays(os));
    TableInRange(os, top, rows);
    rows
  }

  function RowsOf(top: seq<Entry>, total: nat): (rows: seq<OpeningRow>)
    ensures |rows| == |top|
    ensures forall i :: 0 <= i < |top| ==> rows[i] == RowOf(top[i], total)
  {
    seq(|top|, i requires 0 <= i < |top| => RowOf(top[i], total))
  }

  lemma TableInRange(os: Assoc<OpeningStats>, top: seq<Entry>, rows: seq<OpeningRow>)
    requires forall e :: e in top ==> e in os
    requires rows == RowsOf(top, TotalPlays(os))
    ensures (forall i :: 0 <= i < |os| ==> Consistent(os[i].1)) ==>
              forall i :: 0 <= i < |rows| ==> RatesInRange(rows[i])
  {
    if forall i :: 0 <= i < |os| ==> Consistent(os[i].1) {
      TopConsistent(os, top);
    }
  }

  /** The bars of the opening win-rate chart: the 10 most played openings
      and the share of their games won by either colour. */
  function OpeningWinRates(os: Assoc<OpeningStats>): (bars: seq<(string, real)>)
    ensures |bars| == if |os| < ChartBars then |os| else ChartBars
    ensures bars == BarsOf(TopOpenings(os, ChartBars))
    ensures (forall i :: 0 <= i < |os| ==> Consistent(os[i].1)) ==>
              forall i :: 0 <= i < |bars| ==> InPercentRange(bars[i].1)
  {
    var top := TopOpenings(os, ChartBars);
    var bars := BarsOf(top);
    ChartInRange(os, top, bars);
    bars
  }

  /** The chart value of each opening: the share of its games won by either
      colour, 0 for an opening never played. */
  function BarsOf(top: seq<Entry>): (bars: seq<(string, real)>)
    ensures |bars| == |top|
    ensures forall i :: 0 <= i < |top| ==>
      bars[i] == (top[i].0, Percent(top[i].1.whiteWins + top[i].1.blackWins, top[i].1.playCount))
  {
    seq(|top|, i requires 0 <= i < |top| =>
      (top[i].0, Percent(top[i].1.whiteWins + top[i].1.blackWins, top[i].1.playCount)))
  }

  lemma ChartInRange(os: Assoc<OpeningStats>, top: seq<Entry>, bars: seq<(string, real)>)
    requires forall e :: e in top ==> e in os
    requires bars == BarsOf(top)
    ensures (forall i :: 0 <= i < |os| ==> Consistent(os[i].1)) ==>
              forall i :: 0 <= i < |bars| ==> InPercentRange(bars[i].1)
  {
    if forall i :: 0 <= i < |os| ==> Consistent(os[i].1) {
      TopConsistent(os, top);
    }
  }

  /** The page rendered from an analysis: every rate in the opening table
      and every bar of the opening chart lies between 0 and 100. */
  lemma AnalysisRendersInRange(gs: seq<Game>, username: string)
    ensures var os := Analyze(gs, username).openingStats;
      && (forall i :: 0 <= i < |OpeningTable(os)| ==> RatesInRange(OpeningTable(os)[i]))
      && (forall i :: 0 <= i < |OpeningWinRates(os)| ==> InPercentRange(OpeningWinRates(os)[i].1))
  {
    OpeningsConsistent(gs, Lower(username));
  }

  /** The loss-rate numerator `playCount - whiteWins - blackWins - draws` is
      never negative for any opening an analysis produces. */
  lemma LossNumeratorNonNegative(gs: seq<Game>, username: string)
    ensures forall eco :: Residue(StatsAt(Analyze(gs, username).openingStats, eco)) >= 0
    ensures var os := Analyze(gs, username).openingStats;
      forall i :: 0 <= i < |os| ==> Residue(os[i].1) >= 0
  {
    OpeningsConsistent(gs, Lower(username));
  }
}
