/** One archived game as the analysis sees it, after chess.js has read the
    header of its PGN text. */
module Games {
  import opened Wrappers
  import opened Text

  /** The PGN header tags the analysis reads. `White` and `Black` are always
      present: the analysis lower-cases them before any fallback applies. */
  datatype Header = Header(result: Option<string>, white: string, black: string, eco: Option<string>)

  /** One entry of an archive's `games` array: the PGN text (which may be
      missing or empty), the declared `time_class`, and the header parsed
      from the PGN. */
  datatype Game = Game(pgn: Option<string>, timeClass: Option<string>, header: Header)

  const WhiteWon: string := "1-0"
  const BlackWon: string := "0-1"
  const Drawn: string := "1/2-1/2"
  const UnknownTimeClass: string := "unknown"
  const UnknownOpening: string := "Unknown"

  /** Only a game with a non-empty PGN is analysed; the others are skipped. */
  predicate HasPgn(g: Game) {
    Truthy(g.pgn)
  }

  /** `chess.header().Result || ''` */
  function ResultOf(g: Game): string {
    OrElse(g.header.result, "")
  }

  /** `game.time_class || 'unknown'` */
  function TimeClassOf(g: Game): (r: string)
    ensures Truthy(g.timeClass) ==> r == g.timeClass.value
    ensures !Truthy(g.timeClass) ==> r == UnknownTimeClass
  {
    OrElse(g.timeClass, UnknownTimeClass)
  }

  /** `chess.header().ECO || 'Unknown'` */
  function EcoOf(g: Game): (r: string)
    ensures Truthy(g.header.eco) ==> r == g.header.eco.value
    ensures !Truthy(g.header.eco) ==> r == UnknownOpening
  {
    OrElse(g.header.eco, UnknownOpening)
  }

  predicate Decisive(result: string) {
    result == WhiteWon || result == BlackWon
  }

  /** The subject, given by the lower-cased username, is the game's White. */
  predicate PlaysWhite(g: Game, lowerUser: string) {
    Lower(g.header.white) == lowerUser
  }

  /** The subject, given by the lower-cased username, is the game's Black. */
  predicate PlaysBlack(g: Game, lowerUser: string) {
    Lower(g.header.black) == lowerUser
  }

  /** `g'` is `g` with the player names possibly written in another case. */
  predicate SameUpToPlayerCase(g: Game, g': Game) {
    && g'.pgn == g.pgn
    && g'.timeClass == g.timeClass
    && g'.header.result == g.header.result
    && g'.header.eco == g.header.eco
    && Lower(g'.header.white) == Lower(g.header.white)
    && Lower(g'.header.black) == Lower(g.header.black)
  }
}
