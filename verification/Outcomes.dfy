/** How calls end, and how a loop over a Go map ends whose rounds may end the call. */
module Outcomes {

  /** How a Go call ends: with a result, or in a run-time panic. */
  datatype Ran = Ran(result: bool) | Panicked

  /** The loop body, by key, in the order of the visits: the first round that does not pass ends the call. */
  function Visit(rounds: map<string, Ran>, order: seq<string>): Ran
    requires forall k | k in order :: k in rounds
  {
    if order == [] then Ran(true)
    else if rounds[order[0]] != Ran(true) then rounds[order[0]]
    else Visit(rounds, order[1..])
  }

  /** An order in which a map with these keys can be visited. */
  predicate Orders(order: seq<string>, keys: set<string>) {
    && (forall k | k in order :: k in keys) && (forall k | k in keys :: k in order)
    && forall i, j | 0 <= i < j < |order| :: order[i] != order[j]
  }

  /** Some order of the visits ends in `r`. */
  ghost predicate CanEnd(rounds: map<string, Ran>, r: Ran) {
    exists order :: Orders(order, rounds.Keys) && Visit(rounds, order) == r
  }

  /** Any round that does not pass can come first, and nothing else keeps the loop from passing. */
  lemma CanEndIff(rounds: map<string, Ran>, r: Ran)
    ensures CanEnd(rounds, r)
       <==> if r == Ran(true) then forall k | k in rounds :: rounds[k] == Ran(true)
            else exists k | k in rounds :: rounds[k] == r
  {
    forall order | Orders(order, rounds.Keys) && Visit(rounds, order) == r
      ensures if r == Ran(true) then forall k | k in rounds :: rounds[k] == Ran(true)
              else exists k | k in rounds :: rounds[k] == r
    {
      VisitEnds(rounds, order);
    }
    if r == Ran(true) {
      var order := OrderOf(rounds.Keys);
      VisitEnds(rounds, order);
    } else if exists k | k in rounds :: rounds[k] == r {
      var k :| k in rounds && rounds[k] == r;
      var tail := OrderOf(rounds.Keys - {k});
      First(k, tail, rounds.Keys);
      assert ([k] + tail)[0] == k;
    }
  }

  lemma RoundEnds(rounds: map<string, Ran>, k: string, r: Ran)
    requires k in rounds && rounds[k] == r != Ran(true)
    ensures CanEnd(rounds, r)
  {
    CanEndIff(rounds, r);
  }

  lemma AllRoundsPass(rounds: map<string, Ran>)
    requires forall k | k in rounds :: rounds[k] == Ran(true)
    ensures CanEnd(rounds, Ran(true))
  {
    CanEndIff(rounds, Ran(true));
  }

  lemma {:induction false} VisitEnds(rounds: map<string, Ran>, order: seq<string>)
    requires forall k | k in order :: k in rounds
    ensures Visit(rounds, order) == Ran(true) <==> forall k | k in order :: rounds[k] == Ran(true)
    ensures Visit(rounds, order) != Ran(true) ==> exists k | k in order :: rounds[k] == Visit(rounds, order)
  {
    if order == [] {
    } else {
      assert forall k :: k in order <==> k == order[0] || k in order[1..];
      VisitEnds(rounds, order[1..]);
    }
  }

  lemma OrderOf(keys: set<string>) returns (order: seq<string>)
    ensures Orders(order, keys)
  {
    if keys == {} {
      order := [];
    } else {
      var k :| k in keys;
      var tail := OrderOf(keys - {k});
      First(k, tail, keys);
      order := [k] + tail;
    }
  }

  lemma First(k: string, tail: seq<string>, keys: set<string>)
    requires k in keys && Orders(tail, keys - {k})
    ensures Orders([k] + tail, keys)
  {
    var order := [k] + tail;
    assert order[0] == k && order[1..] == tail;
  }
}
