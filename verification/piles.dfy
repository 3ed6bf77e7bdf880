/** A tableau pile: a stack of cards, bottom first. Equality is equality of
    the card sequences; the hash key is the concatenation of card names. */
module Piles {
  import opened Wrappers
  import opened Cards

  datatype Pile = Pile(cards: seq<Card>)

  function Push(p: Pile, c: Card): (r: Pile)
    ensures Top(r) == Some(c)
    ensures !Empty(r)
  {
    Pile(p.cards + [c])
  }

  /** Whether the pile has no cards. */
  predicate Empty(p: Pile)
    ensures Empty(p) <==> ToStr(p) == Some("")
  {
    |p.cards| == 0
  }

  /** The top-most card; None where the source raises IndexError. */
  function Top(p: Pile): (r: Option<Card>)
    ensures r.None? <==> Empty(p)
    ensures r.Some? ==> r.value in p.cards
  {
    if |p.cards| == 0 then None else Some(p.cards[|p.cards| - 1])
  }

  /** Removes the top-most card; None where the source raises IndexError. */
  function Pop(p: Pile): (r: Option<(Card, Pile)>)
    ensures r.None? <==> Empty(p)
    ensures r.Some? ==> Some(r.value.0) == Top(p) && Push(r.value.1, r.value.0) == p
    ensures r.Some? ==> |r.value.1.cards| + 1 == |p.cards|
  {
    if |p.cards| == 0 then None
    else
      var n := |p.cards| - 1;
      assert p.cards[..n] + [p.cards[n]] == p.cards;
      Some((p.cards[n], Pile(p.cards[..n])))
  }

  /** The concatenated card names; None when some card has no name. */
  function ToStr(p: Pile): (r: Option<string>)
    ensures r.Some? ==> |r.value| == 2 * |p.cards|
    ensures r.Some? ==> forall i :: 0 <= i < |p.cards| ==> Name(p.cards[i]) == Some(r.value[2 * i..2 * i + 2])
    decreases |p.cards|
  {
    if |p.cards| == 0 then Some("")
    else
      var n := |p.cards| - 1;
      var below := ToStr(Pile(p.cards[..n]));
      var top := Name(p.cards[n]);
      if below.Some? && top.Some? then
        NamesOfSnoc(p.cards, below.value, top.value);
        Some(below.value + top.value)
      else None
  }

  /** Appending the top card's name to the names of the cards below it
      gives the names of all the cards, two characters each. */
  lemma NamesOfSnoc(cards: seq<Card>, below: string, top: string)
    requires |cards| > 0 && |below| == 2 * (|cards| - 1)
    requires forall i :: 0 <= i < |cards| - 1 ==> Name(cards[..|cards| - 1][i]) == Some(below[2 * i..2 * i + 2])
    requires Name(cards[|cards| - 1]) == Some(top)
    ensures forall i :: 0 <= i < |cards| ==> Name(cards[i]) == Some((below + top)[2 * i..2 * i + 2])
  {
    var n := |cards| - 1;
    var r := below + top;
    forall i | 0 <= i < |cards| ensures Name(cards[i]) == Some(r[2 * i..2 * i + 2]) {
      if i < n {
        assert cards[..n][i] == cards[i];
        assert r[2 * i..2 * i + 2] == below[2 * i..2 * i + 2];
      } else {
        assert r[2 * n..2 * n + 2] == top;
      }
    }
  }

  /** A pile has a string exactly when every card in it has a name. */
  lemma {:induction false} ToStrDefined(p: Pile)
    ensures ToStr(p).Some? <==> forall i :: 0 <= i < |p.cards| ==> p.cards[i].Valid()
    decreases |p.cards|
  {
    if |p.cards| > 0 {
      var n := |p.cards| - 1;
      var p' := Pile(p.cards[..n]);
      ToStrDefined(p');
      assert ToStr(p).Some? <==> ToStr(p').Some? && p.cards[n].Valid();
      assert (forall i :: 0 <= i < |p.cards| ==> p.cards[i].Valid())
        <==> (forall i :: 0 <= i < n ==> p'.cards[i].Valid()) && p.cards[n].Valid();
    }
  }

  /** Pushing then popping returns the pushed card and the original pile. */
  lemma PushThenPop(p: Pile, c: Card)
    ensures Pop(Push(p, c)) == Some((c, p))
  {
    assert Push(p, c).cards[..|p.cards|] == p.cards;
  }

  /** Equal pile strings imply equal piles, so hashing by the string never
      identifies two piles that compare unequal. */
  lemma ToStrInjective(p: Pile, q: Pile)
    requires ToStr(p).Some? && ToStr(p) == ToStr(q)
    ensures p == q
  {
    var s := ToStr(p).value;
    assert |p.cards| == |q.cards|;
    forall i | 0 <= i < |p.cards| ensures p.cards[i] == q.cards[i] {
      assert Name(p.cards[i]) == Some(s[2 * i..2 * i + 2]) == Name(q.cards[i]);
      NamesDistinct(p.cards[i], q.cards[i]);
    }
  }
}
