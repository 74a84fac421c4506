/**
 * Token ids, the two reserved sentinels (src/lz.hpp:17-18) and the ordered
 * `VocabSet` (a `std::set<int>`, src/lz.hpp:24), whose `*begin()` is its
 * numerically smallest element.
 */
module VocabSets {

  /** Id of the zero-length codeword. */
  const EMPTY_TOKEN: int := -1
  /** Reserved symbol id; the coders never use it. */
  const UNKNOWN_SYMBOL: int := 0

  /** The ids `[lo, hi)`. */
  function IdsBetween(lo: int, hi: int): (r: set<int>)
    ensures forall i :: i in r <==> lo <= i < hi
    decreases hi - lo
  {
    if hi <= lo then {} else IdsBetween(lo, hi - 1) + {hi - 1}
  }

  /** The ids a coder with bound `n` may assign: `[0, n)`. */
  function IdRange(n: int): (r: set<int>)
    ensures forall i :: i in r <==> 0 <= i < n
    ensures EMPTY_TOKEN !in r
  {
    IdsBetween(0, n)
  }

  lemma {:induction false} IdRangeSize(n: nat)
    ensures |IdRange(n)| == n
  {
    if n > 0 {
      IdRangeSize(n - 1);
      assert IdRange(n) == IdRange(n - 1) + {n - 1};
    }
  }

  /** A non-empty set has an element. */
  lemma HasElement(s: set<int>)
    requires s != {}
    ensures exists z :: z in s
  {
    if forall z :: z !in s { assert false; }
  }

  lemma {:induction false} LeastElement(s: set<int>) returns (m: int)
    requires s != {}
    ensures m in s && forall x | x in s :: m <= x
  {
    HasElement(s);
    var y :| y in s;
    if s == {y} {
      m := y;
    } else {
      var rest := s - {y};
      assert s == rest + {y};
      m := LeastElement(rest);
      if y < m { m := y; }
    }
  }

  lemma HasLeast(s: set<int>)
    requires s != {}
    ensures exists m :: m in s && forall x | x in s :: m <= x
  {
    var m := LeastElement(s);
  }

  /** `*s.begin()` on a non-empty `std::set<int>`: its smallest element. */
  function Min(s: set<int>): (m: int)
    requires s != {}
    ensures m in s
    ensures forall x | x in s :: m <= x
  {
    HasLeast(s);
    var m :| m in s && forall x | x in s :: m <= x; m
  }

  /** Number of elements of `s` below `x`: the position of `x` in ascending order. */
  function Rank(s: set<int>, x: int): nat
  {
    |set y | y in s && y < x|
  }
}
