/** Playing cards: the (rank, suit) pair, its two-character name and the
    inverse name table, and the colour derived from the suit. */
module Cards {
  import opened Wrappers

  /** Suit symbols; the suit of a card is an index into this sequence. */
  const Suits: string := "HDCS"
  /** Rank symbols; rank r (1 = Ace .. 13 = King) is named by RankNames[r - 1]. */
  const RankNames: string := "A" + "23456789" + "TJQK"
  const MaxRank: int := 13
  const DeckSize: int := 52

  /** A card is a pair of integers; the constructor accepts any pair, only
      the 52 pairs of the name table have a name. */
  datatype Card = Card(rank: int, suit: int) {
    predicate Valid() {
      1 <= rank <= MaxRank && 0 <= suit < |Suits|
    }
  }

  /** The position of the first occurrence of x in xs, or None. */
  function Find(xs: string, x: char): (r: Option<nat>)
    ensures r.Some? ==> r.value < |xs| && xs[r.value] == x
                        && forall j :: 0 <= j < r.value ==> xs[j] != x
    ensures r.None? <==> x !in xs
  {
    if |xs| == 0 then None
    else if xs[0] == x then Some(0)
    else match Find(xs[1..], x)
      case None => None
      case Some(i) => Some(i + 1)
  }

  lemma SymbolsDistinct()
    ensures forall i, j :: 0 <= i < j < |RankNames| ==> RankNames[i] != RankNames[j]
    ensures forall i, j :: 0 <= i < j < |Suits| ==> Suits[i] != Suits[j]
  {
  }

  /** ASCII upper-casing of one character, as a byte string's upper() does. */
  function UpperChar(c: char): char {
    if 'a' <= c <= 'z' then (c as int - 32) as char else c
  }

  function Upper(s: string): (u: string)
    ensures |u| == |s|
    ensures forall i :: 0 <= i < |s| ==> u[i] == UpperChar(s[i])
  {
    seq(|s|, i requires 0 <= i < |s| => UpperChar(s[i]))
  }

  /** The name-table entry of a card: rank symbol then suit symbol; None for
      a pair that is not in the table. */
  function Name(c: Card): (r: Option<string>)
    ensures r.Some? <==> c.Valid()
    ensures r.Some? ==> |r.value| == 2 && r.value[0] in RankNames && r.value[1] in Suits
  {
    if c.Valid() then Some([RankNames[c.rank - 1], Suits[c.suit]]) else None
  }

  /** The inverse table: the card whose name is the upper-cased string, or
      None when no card has that name. */
  function FromStr(s: string): (r: Option<Card>)
    ensures r.Some? ==> r.value.Valid() && Name(r.value) == Some(Upper(s))
    ensures r.None? ==> forall c: Card :: c.Valid() ==> Name(c) != Some(Upper(s))
  {
    var u := Upper(s);
    if |u| != 2 then None
    else match (Find(RankNames, u[0]), Find(Suits, u[1]))
      case (Some(rank), Some(suit)) =>
        assert [RankNames[rank], Suits[suit]] == u;
        Some(Card(rank + 1, suit))
      case _ => None
  }

  /** Red exactly for the suits with index below 2, i.e. hearts and diamonds. */
  function IsRed(c: Card): (r: bool)
    ensures c.Valid() ==> (r <==> Suits[c.suit] == 'H' || Suits[c.suit] == 'D')
    ensures Name(c).Some? ==> (r <==> Name(c).value[1] in "HD")
  {
    c.suit < 2
  }

  /** Every name in the table is exactly two characters and no two cards
      share a name. */
  lemma NamesDistinct(a: Card, b: Card)
    requires a.Valid() && b.Valid()
    ensures |Name(a).value| == 2
    ensures Name(a) == Name(b) ==> a == b
  {
    SymbolsDistinct();
    if Name(a) == Name(b) {
      assert Name(a).value[0] == Name(b).value[0];
      assert Name(a).value[1] == Name(b).value[1];
    }
  }

  /** Every name in the table is already upper case. */
  lemma NameIsUpper(c: Card)
    requires c.Valid()
    ensures Upper(Name(c).value) == Name(c).value
  {
    var n := Name(c).value;
    assert UpperChar(n[0]) == n[0] by {
      assert n[0] == RankNames[c.rank - 1];
    }
    assert UpperChar(n[1]) == n[1];
  }

  /** Parsing a card's name gives the card back. */
  lemma RoundTrip(c: Card)
    requires c.Valid()
    ensures FromStr(Name(c).value) == Some(c)
  {
    NameIsUpper(c);
    var r := FromStr(Name(c).value);
    assert r.Some?;
    NamesDistinct(r.value, c);
  }

  /** Parsing ignores letter case. */
  lemma CaseInsensitive(s: string)
    ensures FromStr(s) == FromStr(Upper(s))
  {
    assert Upper(Upper(s)) == Upper(s);
  }

  /** Parsing succeeds exactly on the strings whose upper-case form is one of
      the 52 names. */
  lemma ParseSucceedsIffNamed(s: string)
    ensures FromStr(s).Some? <==> exists c: Card :: c.Valid() && Name(c) == Some(Upper(s))
  {
    if FromStr(s).Some? {
      var c := FromStr(s).value;
      assert c.Valid() && Name(c) == Some(Upper(s));
    }
  }
}
