/** A few facts about sequences and sets that several modules share. */
module Collections {

  function Copies<T>(x: T, n: nat): (r: seq<T>)
    ensures |r| == n && forall i | 0 <= i < n :: r[i] == x
  {
    seq(n, i => x)
  }

  lemma Regroup<T>(a: seq<T>, b: seq<T>, c: seq<T>)
    ensures (a + b) + c == a + (b + c)
  {
  }

  /** A set with elements has one to pick. */
  lemma HasElement<T>(s: set<T>)
    requires |s| > 0
    ensures exists x: T :: x in s
  {
    if forall x: T :: x !in s {
      assert false;
    }
  }

  ghost function Pick<T>(s: set<T>): (x: T)
    requires |s| > 0
    ensures x in s
  {
    HasElement(s);
    var x: T :| x in s;
    x
  }
}
