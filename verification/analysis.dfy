/** `analyzeGames`: one left-to-right pass over the archived games that
    produces the subject's colour counters, the time-format histogram and the
    per-opening tallies. */
module Analysis {
  import opened Wrappers
  import opened Text
  import opened Assoc
  import opened Games

  /** The tally kept per ECO code. `whiteWins` and `blackWins` count games
      won by White and by Black, whoever the subject played. */
  datatype OpeningStats = OpeningStats(playCount: nat, whiteWins: nat, blackWins: nat, draws: nat)

  const NoGames: OpeningStats := OpeningStats(0, 0, 0, 0)

  /** The object `analyzeGames` returns. */
  datatype Summary = Summary(
    whiteWins: nat,
    blackWins: nat,
    draws: nat,
    timeFormatCounts: Assoc<nat>,
    openingStats: Assoc<OpeningStats>)

  const Empty: Summary := Summary(0, 0, 0, [], [])

  /** The tally of `eco`, all zero when it has none yet. */
  function StatsAt(os: Assoc<OpeningStats>, eco: string): OpeningStats {
    ValueOr(Get(os, eco), NoGames)
  }

  function PlayCountOf(o: OpeningStats): nat {
    o.playCount
  }

  /** `totalPlays`: the play counts of all openings added up. */
  function TotalPlays(os: Assoc<OpeningStats>): nat {
    SumOf(os, PlayCountOf)
  }

  /** Decided games never outnumber games played. */
  predicate Consistent(o: OpeningStats) {
    o.whiteWins + o.blackWins + o.draws <= o.playCount
  }

  function Ind(b: bool): nat {
    if b then 1 else 0
  }

  /** The opening tally after one more game: the play count grows by one, and
      so does the one tally the result names; an unrecognised result names
      none. */
  function Record(o: OpeningStats, result: string): (r: OpeningStats)
    ensures r.playCount == o.playCount + 1
    ensures r.whiteWins + r.blackWins + r.draws
         == o.whiteWins + o.blackWins + o.draws + Ind(result == WhiteWon || result == BlackWon || result == Drawn)
    ensures r.whiteWins == o.whiteWins + Ind(result == WhiteWon)
    ensures r.blackWins == o.blackWins + Ind(result == BlackWon)
    ensures r.draws == o.draws + Ind(result == Drawn)
    ensures Consistent(o) ==> Consistent(r)
  {
    var played := o.(playCount := o.playCount + 1);
    if result == WhiteWon then played.(whiteWins := played.whiteWins + 1)
    else if result == BlackWon then played.(blackWins := played.blackWins + 1)
    else if result == Drawn then played.(draws := played.draws + 1)
    else played
  }

  /** What a game is counted towards. */
  datatype Query =
    | Played
    | InTimeClass(timeClass: string)
    | InOpening(eco: string)
    | OpeningWith(eco: string, result: string)
    | CreditedToWhite
    | CreditedToBlack
    | DrawnGame

  /** Whether game `g` counts towards `q`, for the subject `lowerUser`. Games
      without a PGN count towards nothing. A decisive game is credited to the
      colour the subject played; when both header names match the subject,
      "1-0" is credited to White and "0-1" to Black. */
  predicate Matches(g: Game, lowerUser: string, q: Query) {
    && HasPgn(g)
    && match q
       case Played => true
       case InTimeClass(tc) => TimeClassOf(g) == tc
       case InOpening(eco) => EcoOf(g) == eco
       case OpeningWith(eco, res) => EcoOf(g) == eco && ResultOf(g) == res
       case CreditedToWhite =>
         Decisive(ResultOf(g)) && PlaysWhite(g, lowerUser)
         && (ResultOf(g) == WhiteWon || !PlaysBlack(g, lowerUser))
       case CreditedToBlack =>
         Decisive(ResultOf(g)) && PlaysBlack(g, lowerUser)
         && (ResultOf(g) == BlackWon || !PlaysWhite(g, lowerUser))
       case DrawnGame => ResultOf(g) == Drawn
  }

  /** The number of games among `gs` that count towards `q`. */
  function Count(gs: seq<Game>, lowerUser: string, q: Query): nat {
    if gs == [] then 0
    else Count(gs[..|gs| - 1], lowerUser, q) + Ind(Matches(gs[|gs| - 1], lowerUser, q))
  }

  /** The time classes of the analysed games, in order. */
  function TimeClasses(gs: seq<Game>): seq<string> {
    if gs == [] then []
    else
      var g := gs[|gs| - 1];
      TimeClasses(gs[..|gs| - 1]) + (if HasPgn(g) then [TimeClassOf(g)] else [])
  }

  /** The ECO codes of the analysed games, in order. */
  function Ecos(gs: seq<Game>): seq<string> {
    if gs == [] then []
    else
      var g := gs[|gs| - 1];
      Ecos(gs[..|gs| - 1]) + (if HasPgn(g) then [EcoOf(g)] else [])
  }

  /** The increments of the subject's (white, black) counters for one game:
      on "1-0" White is tried first, on "0-1" Black is tried first, and any
      other result credits neither. */
  function SubjectCredit(result: string, isWhite: bool, isBlack: bool): (nat, nat) {
    if result == WhiteWon then
      if isWhite then (1, 0) else if isBlack then (0, 1) else (0, 0)
    else if result == BlackWon then
      if isBlack then (0, 1) else if isWhite then (1, 0) else (0, 0)
    else (0, 0)
  }

  /** One iteration of the loop of `analyzeGames`. */
  function Step(a: Summary, g: Game, lowerUser: string): (r: Summary)
    ensures !HasPgn(g) ==> r == a
    ensures r.whiteWins == a.whiteWins + Ind(Matches(g, lowerUser, CreditedToWhite))
    ensures r.blackWins == a.blackWins + Ind(Matches(g, lowerUser, CreditedToBlack))
    ensures r.draws == a.draws + Ind(Matches(g, lowerUser, DrawnGame))
    ensures forall k :: Tally(r.timeFormatCounts, k)
                     == Tally(a.timeFormatCounts, k) + Ind(Matches(g, lowerUser, InTimeClass(k)))
    ensures forall eco :: StatsAt(r.openingStats, eco)
                       == if Matches(g, lowerUser, InOpening(eco))
                          then Record(StatsAt(a.openingStats, eco), ResultOf(g))
                          else StatsAt(a.openingStats, eco)
    ensures HasPgn(g) ==> Keys(r.timeFormatCounts) == Seen(Keys(a.timeFormatCounts), TimeClassOf(g))
    ensures HasPgn(g) ==> Keys(r.openingStats) == Seen(Keys(a.openingStats), EcoOf(g))
    ensures DistinctKeys(a.timeFormatCounts) ==> DistinctKeys(r.timeFormatCounts)
    ensures DistinctKeys(a.openingStats) ==> DistinctKeys(r.openingStats)
  {
    if !HasPgn(g) then a
    else
      var result := ResultOf(g);
      var timeClass := TimeClassOf(g);
      var eco := EcoOf(g);
      var credit := SubjectCredit(result, PlaysWhite(g, lowerUser), PlaysBlack(g, lowerUser));
      var opening := Record(StatsAt(a.openingStats, eco), result);
      CreditMatches(g, lowerUser);
      OpeningUpdate(a.openingStats, eco, opening);
      Summary(
        a.whiteWins + credit.0,
        a.blackWins + credit.1,
        a.draws + Ind(result == Drawn),
        Bump(a.timeFormatCounts, timeClass),
        Put(a.openingStats, eco, opening))
  }

  /** The credit the loop gives is the one `Matches` describes. */
  lemma CreditMatches(g: Game, lowerUser: string)
    requires HasPgn(g)
    ensures SubjectCredit(ResultOf(g), PlaysWhite(g, lowerUser), PlaysBlack(g, lowerUser))
         == (Ind(Matches(g, lowerUser, CreditedToWhite)), Ind(Matches(g, lowerUser, CreditedToBlack)))
    ensures Ind(ResultOf(g) == Drawn) == Ind(Matches(g, lowerUser, DrawnGame))
  {
  }

  lemma OpeningUpdate(os: Assoc<OpeningStats>, eco: string, o: OpeningStats)
    ensures StatsAt(Put(os, eco, o), eco) == o
    ensures forall e :: e != eco ==> StatsAt(Put(os, eco, o), e) == StatsAt(os, e)
  {
    forall e | e != eco
      ensures StatsAt(Put(os, eco, o), e) == StatsAt(os, e)
    {
      assert Get(Put(os, eco, o), e) == Get(os, e);
    }
  }

  /** The summary after the games `gs`, taken in order. */
  function Fold(gs: seq<Game>, lowerUser: string): Summary {
    if gs == [] then Empty
    else Step(Fold(gs[..|gs| - 1], lowerUser), gs[|gs| - 1], lowerUser)
  }

  /** `analyzeGames(games, username)`. */
  function Analyze(games: seq<Game>, username: string): Summary {
    Fold(games, Lower(username))
  }

  /** The loop of `analyzeGames`, one game at a time. The colour counters,
      every time-format bucket and every opening tally equal the number of
      games that count towards them. */
  method AnalyzeGames(games: seq<Game>, username: string) returns (s: Summary)
    ensures s == Analyze(games, username)
    ensures s.whiteWins == Count(games, Lower(username), CreditedToWhite)
    ensures s.blackWins == Count(games, Lower(username), CreditedToBlack)
    ensures s.draws == Count(games, Lower(username), DrawnGame)
    ensures forall k :: Tally(s.timeFormatCounts, k) == Count(games, Lower(username), InTimeClass(k))
  {
    var lowerUser := Lower(username);
    s := Empty;
    var i := 0;
    while i < |games|
      invariant 0 <= i <= |games|
      invariant s == Fold(games[..i], lowerUser)
    {
      assert games[..i + 1][..i] == games[..i];
      s := Step(s, games[i], lowerUser);
      i := i + 1;
    }
    assert games[..|games|] == games;
    FoldCounts(games, lowerUser);
  }

  /** Every counter of the summary is the number of games that count towards
      it: the fold agrees, key by key, with counting the games directly. */
  lemma {:induction false} FoldCounts(gs: seq<Game>, lowerUser: string)
    ensures Fold(gs, lowerUser).whiteWins == Count(gs, lowerUser, CreditedToWhite)
    ensures Fold(gs, lowerUser).blackWins == Count(gs, lowerUser, CreditedToBlack)
    ensures Fold(gs, lowerUser).draws == Count(gs, lowerUser, DrawnGame)
    ensures forall k :: Tally(Fold(gs, lowerUser).timeFormatCounts, k) == Count(gs, lowerUser, InTimeClass(k))
    ensures forall eco :: StatsAt(Fold(gs, lowerUser).openingStats, eco) == OpeningStats(
              Count(gs, lowerUser, InOpening(eco)),
              Count(gs, lowerUser, OpeningWith(eco, WhiteWon)),
              Count(gs, lowerUser, OpeningWith(eco, BlackWon)),
              Count(gs, lowerUser, OpeningWith(eco, Drawn)))
    decreases |gs|
  {
    if gs != [] {
      var p, g := gs[..|gs| - 1], gs[|gs| - 1];
      FoldCounts(p, lowerUser);
      assert gs == p + [g];
      ColourStep(p, g, lowerUser);
      forall k
        ensures Tally(Fold(gs, lowerUser).timeFormatCounts, k) == Count(gs, lowerUser, InTimeClass(k))
      {
        TimeClassStep(p, g, lowerUser, k);
      }
      forall eco
        ensures StatsAt(Fold(gs, lowerUser).openingStats, eco) == OpeningStats(
              Count(gs, lowerUser, InOpening(eco)),
              Count(gs, lowerUser, OpeningWith(eco, WhiteWon)),
              Count(gs, lowerUser, OpeningWith(eco, BlackWon)),
              Count(gs, lowerUser, OpeningWith(eco, Drawn)))
      {
        OpeningStep(p, g, lowerUser, eco);
      }
    }
  }

  /** One more game changes the colour counters as it changes the counts. */
  lemma ColourStep(p: seq<Game>, g: Game, lowerUser: string)
    requires Fold(p, lowerUser).whiteWins == Count(p, lowerUser, CreditedToWhite)
    requires Fold(p, lowerUser).blackWins == Count(p, lowerUser, CreditedToBlack)
    requires Fold(p, lowerUser).draws == Count(p, lowerUser, DrawnGame)
    ensures Fold(p + [g], lowerUser).whiteWins == Count(p + [g], lowerUser, CreditedToWhite)
    ensures Fold(p + [g], lowerUser).blackWins == Count(p + [g], lowerUser, CreditedToBlack)
    ensures Fold(p + [g], lowerUser).draws == Count(p + [g], lowerUser, DrawnGame)
  {
    FoldAppend(p, g, lowerUser);
    CountAppend(p, g, lowerUser, CreditedToWhite);
    CountAppend(p, g, lowerUser, CreditedToBlack);
    CountAppend(p, g, lowerUser, DrawnGame);
  }

  /** One more game changes the tally of time class `k` as it changes the count. */
  lemma TimeClassStep(p: seq<Game>, g: Game, lowerUser: string, k: string)
    requires Tally(Fold(p, lowerUser).timeFormatCounts, k) == Count(p, lowerUser, InTimeClass(k))
    ensures Tally(Fold(p + [g], lowerUser).timeFormatCounts, k) == Count(p + [g], lowerUser, InTimeClass(k))
  {
    FoldAppend(p, g, lowerUser);
    CountAppend(p, g, lowerUser, InTimeClass(k));
  }

  /** One more game changes the tally of `eco` as it changes the counts. */
  lemma OpeningStep(p: seq<Game>, g: Game, lowerUser: string, eco: string)
    requires StatsAt(Fold(p, lowerUser).openingStats, eco) == OpeningStats(
              Count(p, lowerUser, InOpening(eco)),
              Count(p, lowerUser, OpeningWith(eco, WhiteWon)),
              Count(p, lowerUser, OpeningWith(eco, BlackWon)),
              Count(p, lowerUser, OpeningWith(eco, Drawn)))
    ensures StatsAt(Fold(p + [g], lowerUser).openingStats, eco) == OpeningStats(
              Count(p + [g], lowerUser, InOpening(eco)),
              Count(p + [g], lowerUser, OpeningWith(eco, WhiteWon)),
              Count(p + [g], lowerUser, OpeningWith(eco, BlackWon)),
              Count(p + [g], lowerUser, OpeningWith(eco, Drawn)))
  {
    var a, b := Fold(p, lowerUser), Fold(p + [g], lowerUser);
    FoldOpening(p, g, lowerUser, eco);
    TallyStep(StatsAt(a.openingStats, eco), StatsAt(b.openingStats, eco), g, lowerUser, eco);
    CountAppend(p, g, lowerUser, InOpening(eco));
    CountAppend(p, g, lowerUser, OpeningWith(eco, WhiteWon));
    CountAppend(p, g, lowerUser, OpeningWith(eco, BlackWon));
    CountAppend(p, g, lowerUser, OpeningWith(eco, Drawn));
  }

  /** The tally of `eco` after one more game, as the loop computes it. */
  lemma FoldOpening(p: seq<Game>, g: Game, lowerUser: string, eco: string)
    ensures StatsAt(Fold(p + [g], lowerUser).openingStats, eco)
         == if Matches(g, lowerUser, InOpening(eco))
            then Record(StatsAt(Fold(p, lowerUser).openingStats, eco), ResultOf(g))
            else StatsAt(Fold(p, lowerUser).openingStats, eco)
  {
    FoldAppend(p, g, lowerUser);
  }

  /** One game changes the tally of `eco` by one for each of its counts it matches. */
  lemma TallyStep(before: OpeningStats, after: OpeningStats, g: Game, lowerUser: string, eco: string)
    requires after == if Matches(g, lowerUser, InOpening(eco)) then Record(before, ResultOf(g)) else before
    ensures after == OpeningStats(
              before.playCount + Ind(Matches(g, lowerUser, InOpening(eco))),
              before.whiteWins + Ind(Matches(g, lowerUser, OpeningWith(eco, WhiteWon))),
              before.blackWins + Ind(Matches(g, lowerUser, OpeningWith(eco, BlackWon))),
              before.draws + Ind(Matches(g, lowerUser, OpeningWith(eco, Drawn))))
  {
  }

  lemma FoldAppend(p: seq<Game>, g: Game, lowerUser: string)
    ensures Fold(p + [g], lowerUser) == Step(Fold(p, lowerUser), g, lowerUser)
  {
    var gs := p + [g];
    assert gs[..|gs| - 1] == p && gs[|gs| - 1] == g;
  }

  lemma CountAppend(p: seq<Game>, g: Game, lowerUser: string, q: Query)
    ensures Count(p + [g], lowerUser, q) == Count(p, lowerUser, q) + Ind(Matches(g, lowerUser, q))
  {
    var gs := p + [g];
    assert gs[..|gs| - 1] == p && gs[|gs| - 1] == g;
  }

  /** The games that are analysed, in order. */
  function WithPgn(gs: seq<Game>): (r: seq<Game>)
    ensures |r| <= |gs|
    ensures forall i :: 0 <= i < |r| ==> HasPgn(r[i])
    ensures forall g :: g in r <==> g in gs && HasPgn(g)
  {
    if gs == [] then []
    else
      var g := gs[|gs| - 1];
      WithPgn(gs[..|gs| - 1]) + (if HasPgn(g) then [g] else [])
  }

  /** A game without a PGN contributes to no counter, bucket or tally: the
      summary is the one for the analysed games alone. */
  lemma {:induction false} SkippedGamesIgnored(gs: seq<Game>, username: string)
    ensures Analyze(gs, username) == Analyze(WithPgn(gs), username)
  {
    FoldWithPgn(gs, Lower(username));
  }

  lemma {:induction false} FoldWithPgn(gs: seq<Game>, lowerUser: string)
    ensures Fold(gs, lowerUser) == Fold(WithPgn(gs), lowerUser)
    decreases |gs|
  {
    if gs != [] {
      var p, g := gs[..|gs| - 1], gs[|gs| - 1];
      FoldWithPgn(p, lowerUser);
      assert Fold(gs, lowerUser) == Step(Fold(p, lowerUser), g, lowerUser);
      if HasPgn(g) {
        assert WithPgn(gs) == WithPgn(p) + [g];
        FoldAppend(WithPgn(p), g, lowerUser);
      } else {
        assert WithPgn(gs) == WithPgn(p);
      }
    }
  }

  /** Every analysed game lands in exactly one time-format bucket and exactly
      one opening: both the histogram and the play counts add up to the
      number of analysed games. */
  lemma {:induction false} TotalsCountAnalysedGames(gs: seq<Game>, lowerUser: string)
    ensures Total(Fold(gs, lowerUser).timeFormatCounts) == Count(gs, lowerUser, Played)
    ensures TotalPlays(Fold(gs, lowerUser).openingStats) == Count(gs, lowerUser, Played)
    ensures Count(gs, lowerUser, Played) == |WithPgn(gs)|
    decreases |gs|
  {
    if gs != [] {
      var p, g := gs[..|gs| - 1], gs[|gs| - 1];
      TotalsCountAnalysedGames(p, lowerUser);
      if HasPgn(g) {
        var os := Fold(p, lowerUser).openingStats;
        var eco := EcoOf(g);
        PutSum(os, eco, Record(StatsAt(os, eco), ResultOf(g)), PlayCountOf);
        assert WeightAt(os, eco, PlayCountOf) == StatsAt(os, eco).playCount;
      }
    }
  }

  /** The histogram's buckets and the openings appear in the order in which
      their first game was met, each once. */
  lemma {:induction false} KeysInFirstSeenOrder(gs: seq<Game>, lowerUser: string)
    ensures Keys(Fold(gs, lowerUser).timeFormatCounts) == FirstSeen(TimeClasses(gs))
    ensures Keys(Fold(gs, lowerUser).openingStats) == FirstSeen(Ecos(gs))
    ensures DistinctKeys(Fold(gs, lowerUser).timeFormatCounts)
    ensures DistinctKeys(Fold(gs, lowerUser).openingStats)
    decreases |gs|
  {
    if gs != [] {
      var p, g := gs[..|gs| - 1], gs[|gs| - 1];
      KeysInFirstSeenOrder(p, lowerUser);
      assert Fold(gs, lowerUser) == Step(Fold(p, lowerUser), g, lowerUser);
      if HasPgn(g) {
        var tcs := TimeClasses(gs);
        assert tcs == TimeClasses(p) + [TimeClassOf(g)];
        assert tcs[..|tcs| - 1] == TimeClasses(p);
        var ecos := Ecos(gs);
        assert ecos == Ecos(p) + [EcoOf(g)];
        assert ecos[..|ecos| - 1] == Ecos(p);
      } else {
        assert TimeClasses(gs) == TimeClasses(p);
        assert Ecos(gs) == Ecos(p);
      }
    }
  }

  /** Every opening's tally, looked up or enumerated, has no more decided
      games than games played, so the loss numerator of the table is never
      negative. */
  lemma {:induction false} OpeningsConsistent(gs: seq<Game>, lowerUser: string)
    ensures forall eco :: Consistent(StatsAt(Fold(gs, lowerUser).openingStats, eco))
    ensures forall i :: 0 <= i < |Fold(gs, lowerUser).openingStats| ==>
              Consistent(Fold(gs, lowerUser).openingStats[i].1)
    decreases |gs|
  {
    var os := Fold(gs, lowerUser).openingStats;
    if gs != [] {
      OpeningsConsistent(gs[..|gs| - 1], lowerUser);
    }
    KeysInFirstSeenOrder(gs, lowerUser);
    forall i | 0 <= i < |os|
      ensures Consistent(os[i].1)
    {
      GetEntry(os, i);
      assert StatsAt(os, os[i].0) == os[i].1;
    }
  }

  /** The subject's counters never exceed the analysed games: each game adds
      to at most one of them. */
  lemma {:induction false} SubjectCountersBounded(gs: seq<Game>, lowerUser: string)
    ensures var s := Fold(gs, lowerUser);
      s.whiteWins + s.blackWins + s.draws <= Count(gs, lowerUser, Played)
    decreases |gs|
  {
    if gs != [] {
      SubjectCountersBounded(gs[..|gs| - 1], lowerUser);
    }
  }

  /** The subject's counters account for every analysed game exactly when
      each one carries one of the three result strings and the subject
      played in each of them. */
  lemma {:induction false} SubjectCountersCoverAll(gs: seq<Game>, lowerUser: string)
    requires forall i :: 0 <= i < |gs| && HasPgn(gs[i]) ==>
               && ResultOf(gs[i]) in {WhiteWon, BlackWon, Drawn}
               && (PlaysWhite(gs[i], lowerUser) || PlaysBlack(gs[i], lowerUser))
    ensures var s := Fold(gs, lowerUser);
      s.whiteWins + s.blackWins + s.draws == Count(gs, lowerUser, Played)
    decreases |gs|
  {
    if gs != [] {
      var p := gs[..|gs| - 1];
      assert forall i :: 0 <= i < |p| ==> p[i] == gs[i];
      SubjectCountersCoverAll(p, lowerUser);
      ResultsDistinct();
    }
  }

  /** When all analysed games carry one of the three result strings, every
      opening's decided games account for all its games: the loss numerator
      `playCount - whiteWins - blackWins - draws` is zero. */
  lemma {:induction false} RecognisedResultsLeaveNoResidue(gs: seq<Game>, lowerUser: string)
    requires forall i :: 0 <= i < |gs| && HasPgn(gs[i]) ==>
               ResultOf(gs[i]) in {WhiteWon, BlackWon, Drawn}
    ensures forall eco :: var o := StatsAt(Fold(gs, lowerUser).openingStats, eco);
              o.whiteWins + o.blackWins + o.draws == o.playCount
    decreases |gs|
  {
    if gs != [] {
      RecognisedResultsLeaveNoResidue(gs[..|gs| - 1], lowerUser);
    }
  }

  /** The subject's name is compared without regard to case. */
  lemma SubjectCaseInsensitive(gs: seq<Game>, username: string, username': string)
    requires Lower(username) == Lower(username')
    ensures Analyze(gs, username) == Analyze(gs, username')
  {
  }

  /** Writing either player's name in the header in another case changes
      nothing in the summary. */
  lemma {:induction false} PlayerCaseInsensitive(gs: seq<Game>, gs': seq<Game>, username: string)
    requires |gs| == |gs'|
    requires forall i :: 0 <= i < |gs| ==> SameUpToPlayerCase(gs[i], gs'[i])
    ensures Analyze(gs, username) == Analyze(gs', username)
  {
    FoldPlayerCase(gs, gs', Lower(username));
  }

  lemma {:induction false} FoldPlayerCase(gs: seq<Game>, gs': seq<Game>, lowerUser: string)
    requires |gs| == |gs'|
    requires forall i :: 0 <= i < |gs| ==> SameUpToPlayerCase(gs[i], gs'[i])
    ensures Fold(gs, lowerUser) == Fold(gs', lowerUser)
    decreases |gs|
  {
    if gs != [] {
      var n := |gs| - 1;
      FoldPlayerCase(gs[..n], gs'[..n], lowerUser);
      StepPlayerCase(Fold(gs[..n], lowerUser), gs[n], gs'[n], lowerUser);
    }
  }

  lemma StepPlayerCase(a: Summary, g: Game, g': Game, lowerUser: string)
    requires SameUpToPlayerCase(g, g')
    ensures Step(a, g, lowerUser) == Step(a, g', lowerUser)
  {
    assert HasPgn(g) == HasPgn(g');
    assert ResultOf(g) == ResultOf(g') && EcoOf(g) == EcoOf(g') && TimeClassOf(g) == TimeClassOf(g');
    assert PlaysWhite(g, lowerUser) == PlaysWhite(g', lowerUser);
    assert PlaysBlack(g, lowerUser) == PlaysBlack(g', lowerUser);
  }

  /** When the two header names differ (after lower-casing), a decisive game
      is credited to the colour the subject played, whichever side won, and
      to neither counter when the subject played neither side. */
  lemma CreditByColour(g: Game, lowerUser: string)
    requires Lower(g.header.white) != Lower(g.header.black)
    ensures Matches(g, lowerUser, CreditedToWhite)
        <==> HasPgn(g) && Decisive(ResultOf(g)) && PlaysWhite(g, lowerUser)
    ensures Matches(g, lowerUser, CreditedToBlack)
        <==> HasPgn(g) && Decisive(ResultOf(g)) && PlaysBlack(g, lowerUser)
  {
  }

  /** Three games of the subject in two openings: a win as White and a win
      as Black in the first, a draw in the second. Each colour counter gets
      one game, and the first opening records one game won by each colour. */
  lemma ThreeGameExample(gs: seq<Game>, username: string)
    requires |gs| == 3 && HasPgn(gs[0]) && HasPgn(gs[1]) && HasPgn(gs[2])
    requires ResultOf(gs[0]) == WhiteWon && PlaysWhite(gs[0], Lower(username)) && !PlaysBlack(gs[0], Lower(username))
    requires ResultOf(gs[1]) == BlackWon && PlaysBlack(gs[1], Lower(username)) && !PlaysWhite(gs[1], Lower(username))
    requires ResultOf(gs[2]) == Drawn
    requires EcoOf(gs[0]) == EcoOf(gs[1]) != EcoOf(gs[2])
    ensures var s := Analyze(gs, username);
      && s.whiteWins == 1 && s.blackWins == 1 && s.draws == 1
      && StatsAt(s.openingStats, EcoOf(gs[0])) == OpeningStats(2, 1, 1, 0)
      && StatsAt(s.openingStats, EcoOf(gs[2])) == OpeningStats(1, 0, 0, 1)
  {
    var lu := Lower(username);
    ResultsDistinct();
    FoldCounts(gs, lu);
    ThreeGameColours(gs, lu);
    ThreeGameOpening(gs, lu, EcoOf(gs[0]));
    ThreeGameOpening(gs, lu, EcoOf(gs[2]));
  }

  lemma ThreeGameColours(gs: seq<Game>, lu: string)
    requires |gs| == 3 && HasPgn(gs[0]) && HasPgn(gs[1]) && HasPgn(gs[2])
    requires ResultOf(gs[0]) == WhiteWon && PlaysWhite(gs[0], lu) && !PlaysBlack(gs[0], lu)
    requires ResultOf(gs[1]) == BlackWon && PlaysBlack(gs[1], lu) && !PlaysWhite(gs[1], lu)
    requires ResultOf(gs[2]) == Drawn
    ensures Count(gs, lu, CreditedToWhite) == 1
    ensures Count(gs, lu, CreditedToBlack) == 1
    ensures Count(gs, lu, DrawnGame) == 1
  {
    ResultsDistinct();
    CountThree(gs, lu, CreditedToWhite);
    CountThree(gs, lu, CreditedToBlack);
    CountThree(gs, lu, DrawnGame);
  }

  lemma ThreeGameOpening(gs: seq<Game>, lu: string, eco: string)
    requires |gs| == 3 && HasPgn(gs[0]) && HasPgn(gs[1]) && HasPgn(gs[2])
    requires ResultOf(gs[0]) == WhiteWon && ResultOf(gs[1]) == BlackWon && ResultOf(gs[2]) == Drawn
    ensures Count(gs, lu, InOpening(eco))
         == Ind(EcoOf(gs[0]) == eco) + Ind(EcoOf(gs[1]) == eco) + Ind(EcoOf(gs[2]) == eco)
    ensures Count(gs, lu, OpeningWith(eco, WhiteWon)) == Ind(EcoOf(gs[0]) == eco)
    ensures Count(gs, lu, OpeningWith(eco, BlackWon)) == Ind(EcoOf(gs[1]) == eco)
    ensures Count(gs, lu, OpeningWith(eco, Drawn)) == Ind(EcoOf(gs[2]) == eco)
  {
    ResultsDistinct();
    CountThree(gs, lu, InOpening(eco));
    CountThree(gs, lu, OpeningWith(eco, WhiteWon));
    CountThree(gs, lu, OpeningWith(eco, BlackWon));
    CountThree(gs, lu, OpeningWith(eco, Drawn));
  }

  lemma ResultsDistinct()
    ensures WhiteWon != BlackWon && WhiteWon != Drawn && BlackWon != Drawn
  {
    assert WhiteWon[0] != BlackWon[0];
    assert |WhiteWon| != |Drawn| && |BlackWon| != |Drawn|;
  }

  lemma CountThree(gs: seq<Game>, lowerUser: string, q: Query)
    requires |gs| == 3
    ensures Count(gs, lowerUser, q)
         == Ind(Matches(gs[0], lowerUser, q)) + Ind(Matches(gs[1], lowerUser, q)) + Ind(Matches(gs[2], lowerUser, q))
  {
    var p2 := gs[..2];
    var p1 := p2[..1];
    assert p1[..0] == [] && p1[0] == gs[0] && p2[1] == gs[1];
    assert Count(p1, lowerUser, q) == Ind(Matches(gs[0], lowerUser, q));
    assert Count(p2, lowerUser, q) == Count(p1, lowerUser, q) + Ind(Matches(gs[1], lowerUser, q));
    assert Count(gs, lowerUser, q) == Count(p2, lowerUser, q) + Ind(Matches(gs[2], lowerUser, q));
  }

  /** A game the subject lost as Black still raises the black counter and
      leaves the white one alone: the counters count decisive games by the
      subject's colour, not wins. */
  lemma LossAsBlackCounted(g: Game, username: string)
    requires HasPgn(g) && ResultOf(g) == WhiteWon
    requires PlaysBlack(g, Lower(username)) && !PlaysWhite(g, Lower(username))
    ensures Analyze([g], username).blackWins == 1
    ensures Analyze([g], username).whiteWins == 0
  {
    var lu := Lower(username);
    assert [g][..0] == [];
    assert Fold([g], lu) == Step(Empty, g, lu);
  }
}
