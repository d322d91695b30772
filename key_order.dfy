/**
 * Ascending order of a finite set of integer keys: the order in which the
 * engine's sorted keys come out.
 */
module KeyOrder {

  lemma {:induction false} LeastExists(s: set<int>)
    requires s != {}
    ensures exists k | k in s :: forall j | j in s :: k <= j
    decreases s
  {
    if forall x :: x !in s {
      assert false;
    }
    var x :| x in s;
    if s != {x} {
      LeastExists(s - {x});
      var y :| y in s - {x} && forall j | j in s - {x} :: y <= j;
      var k := if x < y then x else y;
      forall j | j in s
        ensures k <= j
      {
        if j != x {
          assert j in s - {x};
        }
      }
    } else {
      assert forall j | j in s :: x <= j;
    }
  }

  /** The smallest key. */
  function Least(s: set<int>): (k: int)
    requires s != {}
    ensures k in s && forall j | j in s :: k <= j
  {
    LeastExists(s);
    var k :| k in s && forall j | j in s :: k <= j;
    k
  }

  /** The keys in ascending order: the day-number order the source's string sort gives. */
  function SortedKeys(s: set<int>): (r: seq<int>)
    ensures forall i, j | 0 <= i < j < |r| :: r[i] < r[j]
    ensures forall k :: k in r <==> k in s
    decreases s
  {
    if s == {} then []
    else
      var k := Least(s);
      [k] + SortedKeys(s - {k})
  }
}
