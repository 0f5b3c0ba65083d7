/** `displayStats`: one card per rating category of the player's stats that
    carries a win/loss/draw record. */
module Stats {
  import opened Wrappers
  import opened Text
  import opened Numbers

  /** A category's `record`; a missing field reads as 0 (`record.win || 0`). */
  datatype WinLossRecord = WinLossRecord(win: Option<nat>, loss: Option<nat>, draw: Option<nat>)

  /** One value of the stats object. Rating categories carry a record;
      other entries do not. */
  datatype StatValue = StatValue(record: Option<WinLossRecord>)

  /** The text of one stat card. The win rate is the exact percentage; its
      rounding for display is not modelled. */
  datatype StatCard = StatCard(heading: string, wins: string, losses: string, draws: string, winRate: real)

  function Wins(rec: WinLossRecord): nat { ValueOr(rec.win, 0) }
  function Losses(rec: WinLossRecord): nat { ValueOr(rec.loss, 0) }
  function Draws(rec: WinLossRecord): nat { ValueOr(rec.draw, 0) }

  /** `wins + losses + draws` */
  function GamesPlayed(rec: WinLossRecord): nat { Wins(rec) + Losses(rec) + Draws(rec) }

  /** The card of the category `key`. Its win rate is the wins' share of all
      recorded games, between 0 and 100, and 0 for a category without games;
      the counts are shown with thousands separators. */
  function CardOf(key: string, rec: WinLossRecord): (card: StatCard)
    ensures card.heading == StatLabel(key)
    ensures card.wins == NumberWithCommas(Wins(rec))
    ensures card.losses == NumberWithCommas(Losses(rec))
    ensures card.draws == NumberWithCommas(Draws(rec))
    ensures StripCommas(card.wins) == NatToDecimal(Wins(rec))
    ensures StripCommas(card.losses) == NatToDecimal(Losses(rec))
    ensures StripCommas(card.draws) == NatToDecimal(Draws(rec))
    ensures 0.0 <= card.winRate <= 100.0
    ensures card.winRate == Percent(Wins(rec), GamesPlayed(rec))
  {
    var rate := Percent(Wins(rec), GamesPlayed(rec));
    StatCard(StatLabel(key), NumberWithCommas(Wins(rec)), NumberWithCommas(Losses(rec)),
             NumberWithCommas(Draws(rec)), rate)
  }

  /** The win rate of a card is the wins' share of the category's games,
      and "0.0" for a category without games. */
  lemma CardWinRate(key: string, rec: WinLossRecord)
    ensures GamesPlayed(rec) == 0 ==> CardOf(key, rec).winRate == 0.0
    ensures GamesPlayed(rec) > 0 ==> CardOf(key, rec).winRate == (Wins(rec) as real) / (GamesPlayed(rec) as real) * 100.0
  {
  }

  /** The entries that carry a record, with that record, in order: an entry
      is listed exactly when the stats object holds it with a record, and
      `RecordedConcat` keeps the order. */
  function Recorded(stats: seq<(string, StatValue)>): (r: seq<(string, WinLossRecord)>)
    ensures |r| <= |stats|
    ensures forall e :: e in r <==> (e.0, StatValue(Some(e.1))) in stats
  {
    if stats == [] then []
    else
      (match stats[0].1.record
       case Some(rec) => [(stats[0].0, rec)]
       case None => [])
      + Recorded(stats[1..])
  }

  /** The cards of `displayStats`, one per recorded category, in the order of
      the stats object, each with a win rate between 0 and 100. */
  function StatCards(stats: seq<(string, StatValue)>): (cards: seq<StatCard>)
    ensures |cards| == |Recorded(stats)|
    ensures forall i :: 0 <= i < |cards| ==>
      cards[i] == CardOf(Recorded(stats)[i].0, Recorded(stats)[i].1)
  {
    var rs := Recorded(stats);
    seq(|rs|, i requires 0 <= i < |rs| => CardOf(rs[i].0, rs[i].1))
  }

  /** Listing the records of two parts of the stats object one after the
      other gives the records of the whole, so categories keep their order. */
  lemma {:induction false} RecordedConcat(a: seq<(string, StatValue)>, b: seq<(string, StatValue)>)
    ensures Recorded(a + b) == Recorded(a) + Recorded(b)
    decreases |a|
  {
    if a != [] {
      assert (a + b)[0] == a[0];
      assert (a + b)[1..] == a[1..] + b;
      RecordedConcat(a[1..], b);
    } else {
      assert a + b == b;
    }
  }
}
