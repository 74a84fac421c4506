/**
 * The sequence transforms byte pair encoding is built from
 * (src/bpe.py:5-46): the adjacent pairs of a token list and their counts,
 * the choice of the most frequent pair, and the left-to-right merge of a
 * pair into a new token. A token list expands, through a table of token
 * values, into the symbols it stands for; merging a pair whose new token
 * stands for the two halves keeps that expansion.
 */
module BpeMerge {

  type Pair = (int, int)

  /** No element occurs twice: a Python set listed in its iteration order (src/bpe.py:89, 186). */
  predicate Distinct(xs: seq<int>)
  {
    forall i, j | 0 <= i < j < |xs| :: xs[i] != xs[j]
  }

  /** The adjacent pairs of `tokens` in order, `zip(tokens[:-1], tokens[1:])`. */
  function Pairs(tokens: seq<int>): (r: seq<Pair>)
    ensures |r| == if tokens == [] then 0 else |tokens| - 1
    ensures forall i | 0 <= i < |r| :: r[i] == (tokens[i], tokens[i + 1])
  {
    if |tokens| < 2 then [] else [(tokens[0], tokens[1])] + Pairs(tokens[1..])
  }

  /** How often `x` occurs in `xs`. */
  function Count<T(==)>(xs: seq<T>, x: T): nat
  {
    if xs == [] then 0 else (if xs[0] == x then 1 else 0) + Count(xs[1..], x)
  }

  /** An element is counted exactly when it occurs. */
  lemma {:induction false} CountPositive<T>(xs: seq<T>, x: T)
    ensures Count(xs, x) > 0 <==> x in xs
    decreases |xs|
  {
    if xs != [] {
      CountPositive(xs[1..], x);
      assert xs == [xs[0]] + xs[1..];
    }
  }

  /** No element occurs more often than the list is long. */
  lemma {:induction false} CountBound<T>(xs: seq<T>, x: T)
    ensures Count(xs, x) <= |xs|
    decreases |xs|
  {
    if xs != [] {
      CountBound(xs[1..], x);
    }
  }

  /** Counting in a list with one more element. */
  lemma {:induction false} CountSnoc<T>(xs: seq<T>, y: T, x: T)
    ensures Count(xs + [y], x) == Count(xs, x) + if y == x then 1 else 0
    decreases |xs|
  {
    if xs == [] {
      assert [] + [y] == [y];
      assert [y][1..] == [];
    } else {
      assert (xs + [y])[1..] == xs[1..] + [y];
      CountSnoc(xs[1..], y, x);
    }
  }

  /** `stats` maps exactly the elements of `xs` to the number of times each occurs. */
  ghost predicate IsCountOf(stats: map<Pair, nat>, xs: seq<Pair>)
  {
    && (forall p :: p in stats <==> p in xs)
    && (forall p | p in stats :: stats[p] == Count(xs, p))
  }

  /**
   * `get_stats` (src/bpe.py:5-18): each adjacent pair mapped to the number
   * of places it occurs; as `Pairs` has one entry per position but the
   * last, the counts add up to `len(tokens) - 1`.
   */
  method GetStats(tokens: seq<int>) returns (stats: map<Pair, nat>)
    ensures IsCountOf(stats, Pairs(tokens))
  {
    stats := map[];
    var i := 0;
    while i + 1 < |tokens|
      invariant 0 <= i <= |Pairs(tokens)|
      invariant IsCountOf(stats, Pairs(tokens)[..i])
    {
      var pair := (tokens[i], tokens[i + 1]);
      assert Pairs(tokens)[..i + 1] == Pairs(tokens)[..i] + [pair];
      forall p ensures Count(Pairs(tokens)[..i + 1], p) == Count(Pairs(tokens)[..i], p) + if pair == p then 1 else 0 {
        CountSnoc(Pairs(tokens)[..i], pair, p);
      }
      CountPositive(Pairs(tokens)[..i], pair);
      stats := stats[pair := (if pair in stats then stats[pair] else 0) + 1];
      i := i + 1;
    }
    assert Pairs(tokens)[..i] == Pairs(tokens);
  }

  /** The pair counts of test/test_bpe.cpp:46-53. */
  lemma StatsExample()
    ensures var ps := Pairs([1, 2, 1, 2, 3, 4]);
      Count(ps, (1, 2)) == 2 && Count(ps, (2, 1)) == 1 && Count(ps, (2, 3)) == 1 && Count(ps, (3, 4)) == 1 && |ps| == 5
  {
    var ps := Pairs([1, 2, 1, 2, 3, 4]);
    assert ps == [(1, 2), (2, 1), (1, 2), (2, 3), (3, 4)];
    assert ps[1..] == [(2, 1), (1, 2), (2, 3), (3, 4)];
    assert ps[2..] == [(1, 2), (2, 3), (3, 4)];
    assert ps[3..] == [(2, 3), (3, 4)];
    assert ps[4..] == [(3, 4)];
    assert ps[5..] == [];
  }

  /** `max(..., key=...)` over the elements of `xs` from position `i` on, keeping the first of equal counts. */
  function MaxCountFrom<T(==)>(xs: seq<T>, i: nat, best: T): T
    requires i <= |xs|
    decreases |xs| - i
  {
    if i == |xs| then best
    else if Count(xs, xs[i]) > Count(xs, best) then MaxCountFrom(xs, i + 1, xs[i])
    else MaxCountFrom(xs, i + 1, best)
  }

  /**
   * `max(stats, key=stats.get)` (src/bpe.py:113, 233-236): the dictionary is
   * built in order of first occurrence, and `max` keeps the first of equal
   * counts, so this is the most frequent element seen first.
   */
  function MostFrequent<T(==)>(xs: seq<T>): T
    requires xs != []
  {
    MaxCountFrom(xs, 1, xs[0])
  }

  lemma {:induction false} MaxCountFromMeaning<T>(xs: seq<T>, i: nat, best: T, k0: nat) returns (k: nat)
    requires k0 < i <= |xs| && xs[k0] == best
    requires forall j | 0 <= j < i :: Count(xs, xs[j]) <= Count(xs, best)
    requires forall j | 0 <= j < k0 :: Count(xs, xs[j]) < Count(xs, best)
    ensures k < |xs| && xs[k] == MaxCountFrom(xs, i, best)
    ensures forall j | 0 <= j < |xs| :: Count(xs, xs[j]) <= Count(xs, xs[k])
    ensures forall j | 0 <= j < k :: Count(xs, xs[j]) < Count(xs, xs[k])
    decreases |xs| - i
  {
    if i == |xs| {
      k := k0;
    } else if Count(xs, xs[i]) > Count(xs, best) {
      k := MaxCountFromMeaning(xs, i + 1, xs[i], i);
    } else {
      k := MaxCountFromMeaning(xs, i + 1, best, k0);
    }
  }

  /**
   * The most frequent element sits at a position `k` of `xs`: no element
   * occurs more often, and every element before position `k` occurs less
   * often, so among equally frequent elements it is the one seen first.
   */
  lemma MostFrequentMeaning<T>(xs: seq<T>) returns (k: nat)
    requires xs != []
    ensures k < |xs| && xs[k] == MostFrequent(xs)
    ensures forall j | 0 <= j < |xs| :: Count(xs, xs[j]) <= Count(xs, xs[k])
    ensures forall j | 0 <= j < k :: Count(xs, xs[j]) < Count(xs, xs[k])
  {
    k := MaxCountFromMeaning(xs, 1, xs[0], 0);
  }

  /** `merge_pairs` (src/bpe.py:21-46): every occurrence of `pair`, scanning from the left without overlap, becomes `t`. */
  function Merged(tokens: seq<int>, pair: Pair, t: int): seq<int>
    decreases |tokens|
  {
    if tokens == [] then []
    else if |tokens| >= 2 && tokens[0] == pair.0 && tokens[1] == pair.1 then [t] + Merged(tokens[2..], pair, t)
    else [tokens[0]] + Merged(tokens[1..], pair, t)
  }

  /** The loop of `merge_pairs` (src/bpe.py:32-46). */
  method MergePairs(tokens: seq<int>, pair: Pair, t: int) returns (merged: seq<int>)
    ensures merged == Merged(tokens, pair, t)
  {
    merged := [];
    var cur := 0;
    while cur < |tokens|
      invariant 0 <= cur <= |tokens|
      invariant merged + Merged(tokens[cur..], pair, t) == Merged(tokens, pair, t)
    {
      if cur < |tokens| - 1 && tokens[cur] == pair.0 && tokens[cur + 1] == pair.1 {
        assert tokens[cur..][2..] == tokens[cur + 2..];
        assert Merged(tokens[cur..], pair, t) == [t] + Merged(tokens[cur + 2..], pair, t);
        assert (merged + [t]) + Merged(tokens[cur + 2..], pair, t) == merged + ([t] + Merged(tokens[cur + 2..], pair, t));
        merged := merged + [t];
        cur := cur + 1;
      } else {
        assert tokens[cur..][1..] == tokens[cur + 1..];
        assert Merged(tokens[cur..], pair, t) == [tokens[cur]] + Merged(tokens[cur + 1..], pair, t);
        assert (merged + [tokens[cur]]) + Merged(tokens[cur + 1..], pair, t) == merged + ([tokens[cur]] + Merged(tokens[cur + 1..], pair, t));
        merged := merged + [tokens[cur]];
      }
      cur := cur + 1;
    }
  }

  /** The merge of test/test_bpe.cpp:62-69. */
  lemma MergeExample()
    ensures Merged([1, 2, 3, 1, 2, 4], (1, 2), 5) == [5, 3, 5, 4]
  {
    assert [1, 2, 3, 1, 2, 4][2..] == [3, 1, 2, 4];
    assert [3, 1, 2, 4][1..] == [1, 2, 4];
    assert [1, 2, 4][2..] == [4];
    assert [4][1..] == [];
  }

  /**
   * Merging never lengthens the list, shortens it exactly when the pair
   * occurs, and at most halves it, since each output token stands for at
   * most two input tokens. With a new token distinct from both halves, the
   * list loses exactly one token per replacement.
   */
  lemma {:induction false} MergedLength(tokens: seq<int>, pair: Pair, t: int)
    ensures |Merged(tokens, pair, t)| <= |tokens| <= 2 * |Merged(tokens, pair, t)|
    ensures |Merged(tokens, pair, t)| < |tokens| <==> pair in Pairs(tokens)
    ensures t != pair.0 && t != pair.1 ==>
      |tokens| - |Merged(tokens, pair, t)| == Count(Merged(tokens, pair, t), t) - Count(tokens, t)
    decreases |tokens|
  {
    if tokens != [] {
      if |tokens| >= 2 && tokens[0] == pair.0 && tokens[1] == pair.1 {
        MergedLength(tokens[2..], pair, t);
        assert tokens[1..][1..] == tokens[2..];
      } else {
        MergedLength(tokens[1..], pair, t);
        if |tokens| >= 2 {
          assert Pairs(tokens) == [(tokens[0], tokens[1])] + Pairs(tokens[1..]);
        }
      }
    }
  }

  /** Every token of `s` is a key of `values`. */
  predicate AllIn(s: seq<int>, keys: set<int>)
  {
    forall i | 0 <= i < |s| :: s[i] in keys
  }

  /** The merged list holds only tokens of the input and the new token. */
  lemma {:induction false} MergedTokens(tokens: seq<int>, pair: Pair, t: int, keys: set<int>)
    requires AllIn(tokens, keys) && t in keys
    ensures AllIn(Merged(tokens, pair, t), keys)
    decreases |tokens|
  {
    if tokens != [] {
      if |tokens| >= 2 && tokens[0] == pair.0 && tokens[1] == pair.1 {
        MergedTokens(tokens[2..], pair, t, keys);
      } else {
        MergedTokens(tokens[1..], pair, t, keys);
      }
    }
  }

  /** With a new token distinct from both halves, no occurrence of the pair is left. */
  lemma {:induction false} MergedRemovesPair(tokens: seq<int>, pair: Pair, t: int)
    requires t != pair.0 && t != pair.1
    ensures pair !in Pairs(Merged(tokens, pair, t))
    decreases |tokens|
  {
    if tokens != [] {
      var m := Merged(tokens, pair, t);
      if |tokens| >= 2 && tokens[0] == pair.0 && tokens[1] == pair.1 {
        MergedRemovesPair(tokens[2..], pair, t);
        var rest := Merged(tokens[2..], pair, t);
        if rest != [] {
          assert Pairs(m) == [(t, rest[0])] + Pairs(rest);
        }
      } else {
        MergedRemovesPair(tokens[1..], pair, t);
        var rest := Merged(tokens[1..], pair, t);
        if rest != [] {
          assert Pairs(m) == [(tokens[0], rest[0])] + Pairs(rest);
          if |tokens[1..]| >= 2 && tokens[1] == pair.0 && tokens[2] == pair.1 {
            assert rest[0] == t;
          } else {
            assert rest[0] == tokens[1];
          }
        }
      }
    }
  }

  /** The symbols a token list stands for: each token's value, concatenated (src/bpe.py:161). */
  function Expand(values: map<int, seq<int>>, tokens: seq<int>): seq<int>
    requires AllIn(tokens, values.Keys)
    decreases |tokens|
  {
    if tokens == [] then [] else values[tokens[0]] + Expand(values, tokens[1..])
  }

  /** Expanding a concatenation. */
  lemma {:induction false} ExpandAppend(values: map<int, seq<int>>, a: seq<int>, b: seq<int>)
    requires AllIn(a, values.Keys) && AllIn(b, values.Keys)
    ensures AllIn(a + b, values.Keys)
    ensures Expand(values, a + b) == Expand(values, a) + Expand(values, b)
    decreases |a|
  {
    if a == [] {
      assert a + b == b;
    } else {
      assert (a + b)[1..] == a[1..] + b;
      ExpandAppend(values, a[1..], b);
    }
  }

  /**
   * Merging a pair into a token that stands for the two halves together
   * keeps the symbols the list stands for: what makes BPE decoding undo
   * encoding.
   */
  lemma {:induction false} MergedExpands(values: map<int, seq<int>>, tokens: seq<int>, pair: Pair, t: int)
    requires AllIn(tokens, values.Keys)
    requires pair.0 in values && pair.1 in values && t in values
    requires values[t] == values[pair.0] + values[pair.1]
    ensures AllIn(Merged(tokens, pair, t), values.Keys)
    ensures Expand(values, Merged(tokens, pair, t)) == Expand(values, tokens)
    decreases |tokens|
  {
    MergedTokens(tokens, pair, t, values.Keys);
    if tokens != [] {
      if |tokens| >= 2 && tokens[0] == pair.0 && tokens[1] == pair.1 {
        MergedExpands(values, tokens[2..], pair, t);
        assert tokens[1..][1..] == tokens[2..];
      } else {
        MergedExpands(values, tokens[1..], pair, t);
      }
    }
  }
}
