/** Number formatting: decimal digits with thousands separators
    (`numberWithCommas`) and percentages with a zero-denominator guard
    (`calcWinPercent` and the rate expressions of the opening table). */
module Numbers {

  predicate IsDigit(c: char) {
    '0' <= c <= '9'
  }

  function DigitChar(d: nat): char
    requires d < 10
  {
    ('0' as int + d) as char
  }

  /** `x.toString()` for a natural number: its decimal digits, no leading zero. */
  function NatToDecimal(n: nat): (r: string)
    ensures |r| >= 1
    ensures forall i :: 0 <= i < |r| ==> IsDigit(r[i])
    ensures |r| > 1 ==> r[0] != '0'
    ensures DecimalValue(r) == n
  {
    if n < 10 then [DigitChar(n)]
    else
      var p := NatToDecimal(n / 10);
      var r := p + [DigitChar(n % 10)];
      assert r[..|r| - 1] == p;
      r
  }

  /** The number a string of decimal digits denotes. */
  function DecimalValue(s: string): nat
    requires forall i :: 0 <= i < |s| ==> IsDigit(s[i])
  {
    if s == [] then 0
    else
      assert IsDigit(s[|s| - 1]);
      DecimalValue(s[..|s| - 1]) * 10 + (s[|s| - 1] as int - '0' as int)
  }

  /** The rewrite `s.replace(/\B(?=(\d{3})+(?!\d))/g, ',')` on a string of
      digits. In such a string a position is not a word boundary exactly when
      it lies strictly inside it, and the look-ahead holds exactly when the
      number of digits after it is a positive multiple of three. So a ','
      goes after each character that is followed by a positive multiple of
      three more characters. */
  function InsertCommas(s: string): string {
    if s == [] then []
    else [s[0]] + (if |s| - 1 > 0 && (|s| - 1) % 3 == 0 then [','] else []) + InsertCommas(s[1..])
  }

  /** Length of the leading group of digits: 1 to 3, so that what follows it
      splits into groups of exactly three. */
  function LeadLength(s: string): (k: nat)
    requires |s| >= 1
    ensures 1 <= k <= 3 && k <= |s|
    ensures (|s| - k) % 3 == 0
  {
    (|s| - 1) % 3 + 1
  }

  /** The digit groups of `s`, cut from the right in threes. */
  function Groups(s: string): (gs: seq<string>)
    requires |s| >= 1
    ensures |gs| >= 1
    ensures 1 <= |gs[0]| <= 3
    ensures forall i :: 1 <= i < |gs| ==> |gs[i]| == 3
    ensures Concat(gs) == s
    ensures |s| % 3 == 0 ==> |gs[0]| == 3
    decreases |s|
  {
    var k := LeadLength(s);
    if k == |s| then [s]
    else
      var rest := Groups(s[k..]);
      assert s == s[..k] + s[k..];
      [s[..k]] + rest
  }

  function Concat(gs: seq<string>): string {
    if gs == [] then [] else gs[0] + Concat(gs[1..])
  }

  /** The groups with a ',' between each two. */
  function JoinCommas(gs: seq<string>): string
    requires |gs| >= 1
  {
    if |gs| == 1 then gs[0] else gs[0] + [','] + JoinCommas(gs[1..])
  }

  /** Deletes every ','. */
  function StripCommas(s: string): string {
    if s == [] then [] else (if s[0] == ',' then [] else [s[0]]) + StripCommas(s[1..])
  }

  /** The regex rewrite produces the leading group of 1 to 3 characters,
      then (if anything is left) a ',' and the rewrite of the rest. */
  lemma {:induction false} InsertCommasLead(s: string)
    requires |s| >= 1
    ensures var k := LeadLength(s);
      InsertCommas(s) == s[..k] + (if k < |s| then [','] + InsertCommas(s[k..]) else [])
  {
    var k := LeadLength(s);
    if k == 1 {
      assert s[..1] == [s[0]];
    } else if k == 2 {
      assert InsertCommas(s) == [s[0]] + InsertCommas(s[1..]);
      assert s[1..][1..] == s[2..];
      assert s[..2] == [s[0], s[1]];
    } else {
      assert InsertCommas(s) == [s[0]] + InsertCommas(s[1..]);
      assert InsertCommas(s[1..]) == [s[1]] + InsertCommas(s[2..]);
      assert s[1..][1..] == s[2..] && s[2..][1..] == s[3..];
      assert s[..3] == [s[0], s[1], s[2]];
    }
  }

  /** The regex rewrite of a digit string is its groups joined by commas. */
  lemma {:induction false} InsertCommasIsGrouping(s: string)
    requires |s| >= 1
    ensures InsertCommas(s) == JoinCommas(Groups(s))
    decreases |s|
  {
    InsertCommasLead(s);
    var k := LeadLength(s);
    if k < |s| {
      InsertCommasIsGrouping(s[k..]);
    }
  }

  /** Joining comma-free groups and then deleting the commas gives the groups
      back side by side. */
  lemma {:induction false} StripJoin(gs: seq<string>)
    requires |gs| >= 1
    requires forall i :: 0 <= i < |gs| ==> ',' !in gs[i]
    ensures StripCommas(JoinCommas(gs)) == Concat(gs)
    decreases |gs|
  {
    if |gs| == 1 {
      StripCommaFree(gs[0]);
      assert Concat(gs) == gs[0] + Concat([]);
    } else {
      var tail := gs[1..];
      assert forall i :: 0 <= i < |tail| ==> ',' !in tail[i] by {
        forall i | 0 <= i < |tail| ensures ',' !in tail[i] {
          assert tail[i] == gs[i + 1];
        }
      }
      StripJoin(tail);
      StripSeparated(gs[0], JoinCommas(tail));
      assert JoinCommas(gs) == gs[0] + ([','] + JoinCommas(tail));
      assert Concat(gs) == gs[0] + Concat(tail);
    }
  }

  lemma StripSeparated(g: string, rest: string)
    requires ',' !in g
    ensures StripCommas(g + ([','] + rest)) == g + StripCommas(rest)
  {
    var tail := [','] + rest;
    StripCommaFree(g);
    StripAppend(g, tail);
    assert tail[0] == ',' && tail[1..] == rest;
    assert StripCommas(tail) == StripCommas(rest);
  }

  lemma {:induction false} StripCommaFree(s: string)
    requires ',' !in s
    ensures StripCommas(s) == s
    decreases |s|
  {
    if s != [] {
      StripCommaFree(s[1..]);
    }
  }

  lemma {:induction false} StripAppend(a: string, b: string)
    ensures StripCommas(a + b) == StripCommas(a) + StripCommas(b)
    decreases |a|
  {
    if a != [] {
      var head: string := if a[0] == ',' then [] else [a[0]];
      assert (a + b)[0] == a[0];
      assert (a + b)[1..] == a[1..] + b;
      assert StripCommas(a + b) == head + StripCommas(a[1..] + b);
      assert StripCommas(a) == head + StripCommas(a[1..]);
      StripAppend(a[1..], b);
    } else {
      assert a + b == b;
    }
  }

  lemma {:induction false} ConcatDigits(gs: seq<string>, s: string)
    requires Concat(gs) == s
    requires forall i :: 0 <= i < |s| ==> IsDigit(s[i])
    ensures forall i :: 0 <= i < |gs| ==> ',' !in gs[i]
    decreases |gs|
  {
    if gs != [] {
      assert forall j :: 0 <= j < |gs[0]| ==> s[j] == gs[0][j];
      assert Concat(gs[1..]) == s[|gs[0]|..];
      ConcatDigits(gs[1..], s[|gs[0]|..]);
    }
  }

  /** `numberWithCommas(n)`: the decimal digits of `n` grouped in threes from
      the right. The leading group has 1 to 3 digits, every later group
      exactly 3, and deleting the commas gives back the plain decimal string,
      which denotes `n`. */
  function NumberWithCommas(n: nat): (r: string)
    ensures r == JoinCommas(Groups(NatToDecimal(n)))
    ensures StripCommas(r) == NatToDecimal(n)
    ensures var gs := Groups(NatToDecimal(n));
      && 1 <= |gs[0]| <= 3
      && (forall i :: 1 <= i < |gs| ==> |gs[i]| == 3)
      && (forall i :: 0 <= i < |gs| ==> ',' !in gs[i])
    ensures n < 1000 ==> r == NatToDecimal(n)
  {
    var digits := NatToDecimal(n);
    InsertCommasIsGrouping(digits);
    ConcatDigits(Groups(digits), digits);
    StripJoin(Groups(digits));
    SmallNatShort(n);
    InsertCommas(digits)
  }

  lemma {:induction false} SmallNatShort(n: nat)
    ensures n < 1000 ==> |NatToDecimal(n)| <= 3
  {
    if 10 <= n < 1000 {
      SmallNatShort(n / 10);
    }
  }

  /** A percentage with a zero guard: `total ? part / total * 100 : 0`, as
      computed by `calcWinPercent` and by every rate of the opening table and
      chart. The value is the exact ratio; the rounding that `toFixed(1)`
      applies to it for display is not modelled. */
  function Percent(part: int, total: int): (r: real)
    ensures total == 0 ==> r == 0.0
    ensures total != 0 ==> r * (total as real) == (part as real) * 100.0
    ensures 0 <= part <= total ==> 0.0 <= r <= 100.0
  {
    if total == 0 then 0.0
    else
      var q := (part as real) / (total as real);
      assert 0 <= part <= total ==> 0.0 <= q <= 1.0;
      q * 100.0
  }
}
