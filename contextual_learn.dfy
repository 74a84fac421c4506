/**
 * Learning a contextual tokenizer (src/bpe.py:167-239). For every pair of
 * vocabulary ids `x`, `y`, the statistics gather the strings that follow
 * an `x` up to and including a `y`, starting after the last `x` before
 * that `y`. The tokenizer maps `y` in context `x` to the most frequent of
 * them, every context's 0 to the empty string, and context 0 maps each
 * vocabulary id to itself.
 *
 * A dict of counts kept in insertion order is modelled by the list of the
 * strings it counts, in the order they were met: the count of a string is
 * its number of occurrences, and the dict's order is the order of first
 * occurrences.
 */
module ContextualLearn {
  import opened Results
  import opened Errors
  import opened BpeMerge
  import opened Contextual

  /** `stats[x][y]` as the strings counted there, in order. */
  type Stats = map<int, map<int, seq<seq<int>>>>

  /** The last position of `x` among the first `n` symbols, or -1: `start_idx[x]` (src/bpe.py:185-198). */
  function LastBefore(tokens: seq<int>, x: int, n: int): (r: int)
    requires 0 <= n <= |tokens|
    ensures -1 <= r < n
    decreases n
  {
    if n == 0 then -1 else if tokens[n - 1] == x then n - 1 else LastBefore(tokens, x, n - 1)
  }

  /** The last position holds `x` and no later one before `n` does; -1 means `x` does not occur there. */
  lemma {:induction false} LastBeforeMeaning(tokens: seq<int>, x: int, n: int)
    requires 0 <= n <= |tokens|
    ensures LastBefore(tokens, x, n) >= 0 ==> tokens[LastBefore(tokens, x, n)] == x
    ensures forall j | LastBefore(tokens, x, n) < j < n :: tokens[j] != x
    decreases n
  {
    if n > 0 && tokens[n - 1] != x {
      LastBeforeMeaning(tokens, x, n - 1);
    }
  }

  /**
   * The strings `get_context_stats` counts under `[x][y]` over the first
   * `n` symbols, in the order it meets them: at each position holding `y`
   * after some `x`, the symbols after the last earlier `x` up to and
   * including that `y`.
   */
  function SpansUpTo(tokens: seq<int>, x: int, y: int, n: int): seq<seq<int>>
    requires 0 <= n <= |tokens|
    decreases n
  {
    if n == 0 then []
    else
      var start := LastBefore(tokens, x, n - 1);
      SpansUpTo(tokens, x, y, n - 1) + (if tokens[n - 1] == y && start >= 0 then [tokens[start + 1..n]] else [])
  }

  /** The strings counted under `[x][y]` over the whole input. */
  function Spans(tokens: seq<int>, x: int, y: int): seq<seq<int>>
  {
    SpansUpTo(tokens, x, y, |tokens|)
  }

  /** `s` ends with `y`, holds no `x` before that, and follows the `x` at position `i` of `tokens`. */
  ghost predicate SpanAt(tokens: seq<int>, x: int, y: int, s: seq<int>, i: int)
  {
    && |s| >= 1 && s[|s| - 1] == y
    && (forall j | 0 <= j < |s| - 1 :: s[j] != x)
    && 0 <= i && i + |s| < |tokens| && tokens[i] == x && tokens[i + 1..i + 1 + |s|] == s
  }

  /** `s` ends with `y`, holds no `x` before that, and follows an `x` somewhere in `tokens`. */
  ghost predicate IsSpan(tokens: seq<int>, x: int, y: int, s: seq<int>)
  {
    exists i :: SpanAt(tokens, x, y, s, i)
  }

  /** The position of the `x` the `k`-th string counted over the first `n` symbols follows. */
  lemma {:induction false} SpanPosition(tokens: seq<int>, x: int, y: int, n: int, k: int) returns (i: int)
    requires 0 <= n <= |tokens| && 0 <= k < |SpansUpTo(tokens, x, y, n)|
    ensures SpanAt(tokens, x, y, SpansUpTo(tokens, x, y, n)[k], i)
    decreases n
  {
    assert n > 0;
    var start := LastBefore(tokens, x, n - 1);
    var pre := SpansUpTo(tokens, x, y, n - 1);
    if k < |pre| {
      i := SpanPosition(tokens, x, y, n - 1, k);
      assert SpansUpTo(tokens, x, y, n)[k] == pre[k];
    } else {
      assert tokens[n - 1] == y && start >= 0 && SpansUpTo(tokens, x, y, n)[k] == tokens[start + 1..n] by {
        assert |pre| == k && SpansUpTo(tokens, x, y, n) == pre + if tokens[n - 1] == y && start >= 0 then [tokens[start + 1..n]] else [];
      }
      i := start;
      LastSpanAt(tokens, x, y, n);
    }
  }

  /** The string met at position `n - 1`, when that position holds `y` after an `x`. */
  lemma LastSpanAt(tokens: seq<int>, x: int, y: int, n: int)
    requires 0 < n <= |tokens| && tokens[n - 1] == y && LastBefore(tokens, x, n - 1) >= 0
    ensures var start := LastBefore(tokens, x, n - 1); SpanAt(tokens, x, y, tokens[start + 1..n], start)
  {
    var start := LastBefore(tokens, x, n - 1);
    LastBeforeMeaning(tokens, x, n - 1);
    var s := tokens[start + 1..n];
    assert tokens[start + 1..start + 1 + |s|] == s;
    forall j | 0 <= j < |s| - 1 ensures s[j] != x {
      assert s[j] == tokens[start + 1 + j];
    }
  }

  /**
   * Every counted string ends with `y`, holds `x` nowhere before its end,
   * and follows an `x` in the input. It may hold `y` before its end: the
   * code resets only the start of `x`, so the docstring's "Y does not
   * appear in the interior" is not what it computes.
   */
  lemma SpansMeaning(tokens: seq<int>, x: int, y: int)
    ensures forall k | 0 <= k < |Spans(tokens, x, y)| :: IsSpan(tokens, x, y, Spans(tokens, x, y)[k])
  {
    forall k | 0 <= k < |Spans(tokens, x, y)| ensures IsSpan(tokens, x, y, Spans(tokens, x, y)[k]) {
      var i := SpanPosition(tokens, x, y, |tokens|, k);
    }
  }

  /** No string ends with an id that none of the first `n` symbols is. */
  lemma {:induction false} SpansOfAbsent(tokens: seq<int>, x: int, y: int, n: int)
    requires 0 <= n <= |tokens|
    requires forall i | 0 <= i < n :: tokens[i] != y
    ensures SpansUpTo(tokens, x, y, n) == []
    decreases n
  {
    if n > 0 {
      SpansOfAbsent(tokens, x, y, n - 1);
    }
  }

  /** `row` is `stats[x]` after the first `n` symbols: for every vocabulary id `y`, it counts `SpansUpTo(tokens, x, y, n)`. */
  ghost predicate RowOf(row: map<int, seq<seq<int>>>, tokens: seq<int>, n: int, x: int, vocab: seq<int>)
    requires 0 <= n <= |tokens|
  {
    && (forall y :: y in row <==> y in vocab)
    && forall y {:trigger row[y]} | y in vocab :: row[y] == SpansUpTo(tokens, x, y, n)
  }

  /** `stats` is what `get_context_stats` builds from the first `n` symbols: a row per vocabulary id. */
  ghost predicate StatsOf(stats: Stats, tokens: seq<int>, n: int, vocab: seq<int>)
    requires 0 <= n <= |tokens|
  {
    && (forall x :: x in stats <==> x in vocab)
    && forall x {:trigger stats[x]} | x in vocab :: RowOf(stats[x], tokens, n, x, vocab)
  }

  /** The statistics before any symbol: every row counts nothing. */
  function EmptyStats(tokens: seq<int>, vocab: seq<int>): (r: Stats)
    ensures StatsOf(r, tokens, 0, vocab)
  {
    map x | x in vocab :: map y | y in vocab :: []
  }

  /**
   * `stats[v][token]` raises at position `i` (src/bpe.py:192-196): the id
   * there is outside the vocabulary while some vocabulary id came before it.
   */
  ghost predicate FailsAt(tokens: seq<int>, vocab: seq<int>, i: int)
    requires 0 <= i < |tokens|
  {
    tokens[i] !in vocab && VocabBefore(tokens, vocab, i)
  }

  /** Some vocabulary id occurs among the first `n` symbols. */
  ghost predicate VocabBefore(tokens: seq<int>, vocab: seq<int>, n: int)
    requires 0 <= n <= |tokens|
    decreases n
  {
    n > 0 && (tokens[n - 1] in vocab || VocabBefore(tokens, vocab, n - 1))
  }

  /** `VocabBefore` holds exactly when one of the first `n` symbols is in the vocabulary. */
  lemma VocabBeforeMeaning(tokens: seq<int>, vocab: seq<int>, n: int)
    requires 0 <= n <= |tokens|
    ensures VocabBefore(tokens, vocab, n) <==> exists j | 0 <= j < n :: tokens[j] in vocab
  {
    if j :| 0 <= j < n && tokens[j] in vocab {
      VocabAt(tokens, vocab, j, n);
    } else {
      NoVocab(tokens, vocab, n);
    }
  }

  /** A vocabulary id at position `i` is one before any later `n`. */
  lemma {:induction false} VocabAt(tokens: seq<int>, vocab: seq<int>, i: int, n: int)
    requires 0 <= i < n <= |tokens| && tokens[i] in vocab
    ensures VocabBefore(tokens, vocab, n)
    decreases n
  {
    if i < n - 1 {
      VocabAt(tokens, vocab, i, n - 1);
    }
  }

  /** With no vocabulary id among the first `n` symbols, `VocabBefore` fails. */
  lemma {:induction false} NoVocab(tokens: seq<int>, vocab: seq<int>, n: int)
    requires 0 <= n <= |tokens| && forall i | 0 <= i < n :: tokens[i] !in vocab
    ensures !VocabBefore(tokens, vocab, n)
    decreases n
  {
    if n > 0 {
      NoVocab(tokens, vocab, n - 1);
    }
  }

  /** Context `x` counts the symbol at `idx`, a vocabulary id, under its own key. */
  lemma RowStep(row: map<int, seq<seq<int>>>, tokens: seq<int>, idx: int, x: int, vocab: seq<int>,
                 start: int, next: map<int, seq<seq<int>>>)
    requires 0 <= idx < |tokens| && tokens[idx] in vocab && RowOf(row, tokens, idx, x, vocab)
    requires start == LastBefore(tokens, x, idx) && start >= 0
    requires tokens[idx] in row && next == row[tokens[idx] := row[tokens[idx]] + [tokens[start + 1..idx + 1]]]
    ensures RowOf(next, tokens, idx + 1, x, vocab)
  {
    var token := tokens[idx];
    forall y | y in vocab ensures next[y] == SpansUpTo(tokens, x, y, idx + 1) {
      if y == token {
        assert next[y] == SpansUpTo(tokens, x, y, idx) + [tokens[start + 1..idx + 1]];
      } else {
        assert next[y] == row[y] == SpansUpTo(tokens, x, y, idx) + [];
      }
    }
    assert forall y :: y in next <==> y in vocab;
  }

  /** With no `x` so far, a symbol adds nothing to `x`'s statistics. */
  lemma RowUnchanged(row: map<int, seq<seq<int>>>, tokens: seq<int>, idx: int, x: int, vocab: seq<int>)
    requires 0 <= idx < |tokens| && LastBefore(tokens, x, idx) < 0 && RowOf(row, tokens, idx, x, vocab)
    ensures RowOf(row, tokens, idx + 1, x, vocab)
  {
    forall y | y in vocab ensures row[y] == SpansUpTo(tokens, x, y, idx + 1) {
      assert SpansUpTo(tokens, x, y, idx + 1) == SpansUpTo(tokens, x, y, idx) + [];
    }
  }

  /** `start_idx` after the first `idx` symbols: every vocabulary id's last position so far. */
  ghost predicate StartsAt(startIdx: map<int, int>, tokens: seq<int>, idx: int, vocab: seq<int>)
    requires 0 <= idx <= |tokens|
  {
    && (forall v | v in vocab :: v in startIdx)
    && forall v {:trigger startIdx[v]} | v in vocab :: startIdx[v] == LastBefore(tokens, v, idx)
  }

  /**
   * What one position of the loop needs of its state: every vocabulary id
   * has a row in `stats` and a start in `startIdx` (`-1` or a position
   * before `idx`).
   */
  ghost predicate Ready(stats: Stats, startIdx: map<int, int>, idx: int, vocab: seq<int>) {
    forall k | 0 <= k < |vocab| ::
      vocab[k] in stats && vocab[k] in startIdx && -1 <= startIdx[vocab[k]] < idx
  }

  /**
   * A context's row once the symbol at `idx` is counted: when the context
   * was seen at `start`, the span after it up to here is appended under
   * that symbol (a symbol the row has no key for is left to raise).
   */
  ghost function AdvancedRow(row: map<int, seq<seq<int>>>, tokens: seq<int>, idx: int, start: int): map<int, seq<seq<int>>>
    requires 0 <= idx < |tokens|
  {
    var token := tokens[idx];
    if 0 <= start < idx && token in row then row[token := row[token] + [tokens[start + 1..idx + 1]]] else row
  }

  /** The statistics once the first `j` contexts of `vocab` have counted the symbol at `idx`. */
  ghost function AdvancedUpTo(stats: Stats, startIdx: map<int, int>, tokens: seq<int>, idx: int, vocab: seq<int>, j: int): (r: Stats)
    requires 0 <= idx < |tokens| && 0 <= j <= |vocab|
    ensures r.Keys == stats.Keys
    decreases j
  {
    if j == 0 then stats
    else
      var before := AdvancedUpTo(stats, startIdx, tokens, idx, vocab, j - 1);
      var v := vocab[j - 1];
      if v in before && v in startIdx && 0 <= startIdx[v] < idx && tokens[idx] in before[v]
      then before[v := AdvancedRow(before[v], tokens, idx, startIdx[v])]
      else before
  }

  /** Advancing keeps every row's keys, so whether the symbol at `idx` is one of them. */
  lemma {:induction false} AdvancedUpToKeys(stats: Stats, startIdx: map<int, int>, tokens: seq<int>, idx: int, vocab: seq<int>, j: int, x: int)
    requires 0 <= idx < |tokens| && 0 <= j <= |vocab| && x in stats
    ensures x in AdvancedUpTo(stats, startIdx, tokens, idx, vocab, j)
    ensures tokens[idx] in AdvancedUpTo(stats, startIdx, tokens, idx, vocab, j)[x] <==> tokens[idx] in stats[x]
    decreases j
  {
    if j > 0 {
      AdvancedUpToKeys(stats, startIdx, tokens, idx, vocab, j - 1, x);
    }
  }

  /**
   * With distinct contexts, context `vocab[k]`'s row in `AdvancedUpTo` is
   * its original row, advanced once when it is among the first `j`.
   */
  lemma {:induction false} AdvancedUpToAt(stats: Stats, startIdx: map<int, int>, tokens: seq<int>, idx: int, vocab: seq<int>, j: int, k: int)
    requires Distinct(vocab) && 0 <= idx < |tokens| && 0 <= j <= |vocab| && 0 <= k < |vocab| && vocab[k] in stats
    ensures vocab[k] in AdvancedUpTo(stats, startIdx, tokens, idx, vocab, j)
    ensures AdvancedUpTo(stats, startIdx, tokens, idx, vocab, j)[vocab[k]]
      == if k < j && vocab[k] in startIdx then AdvancedRow(stats[vocab[k]], tokens, idx, startIdx[vocab[k]]) else stats[vocab[k]]
    decreases j
  {
    if j > 0 {
      AdvancedUpToAt(stats, startIdx, tokens, idx, vocab, j - 1, k);
      if k != j - 1 {
        assert vocab[k] != vocab[j - 1];
      }
    }
  }

  /**
   * One pass of the inner loop of src/bpe.py:192-196 at position `idx`:
   * every context seen before counts the string from after its last
   * occurrence up to here, and an id outside the vocabulary raises there.
   */
  method CountPosition(stats0: Stats, startIdx: map<int, int>, tokens: seq<int>, idx: int, vocab: seq<int>)
    returns (r: Result<Stats, Error>)
    requires Distinct(vocab) && 0 <= idx < |tokens|
    requires StatsOf(stats0, tokens, idx, vocab) && StartsAt(startIdx, tokens, idx, vocab)
    ensures r.Failure? <==> FailsAt(tokens, vocab, idx)
    ensures r.Failure? ==> r.error == KeyNotFound
    ensures r.Success? ==> StatsOf(r.value, tokens, idx + 1, vocab)
  {
    assert Ready(stats0, startIdx, idx, vocab) by {
      forall k | 0 <= k < |vocab|
        ensures vocab[k] in stats0 && vocab[k] in startIdx && -1 <= startIdx[vocab[k]] < idx
      {
        var v := vocab[k];
        assert v in vocab;
        assert startIdx[v] == LastBefore(tokens, v, idx);
      }
    }
    r := CountContexts(stats0, startIdx, tokens, idx, vocab);
    QuietFails(stats0, startIdx, tokens, idx, vocab);
    if r.Success? {
      AdvancedCounts(r.value, stats0, startIdx, tokens, idx, vocab);
    }
  }

  /** The loop over the contexts of src/bpe.py:192-196 at position `idx`. */
  method CountContexts(stats0: Stats, startIdx: map<int, int>, tokens: seq<int>, idx: int, vocab: seq<int>)
    returns (r: Result<Stats, Error>)
    requires 0 <= idx < |tokens| && Ready(stats0, startIdx, idx, vocab)
    ensures r.Failure? <==> !QuietUpTo(stats0, startIdx, tokens[idx], vocab, |vocab|)
    ensures r.Failure? ==> r.error == KeyNotFound
    ensures r.Success? ==> r.value == AdvancedUpTo(stats0, startIdx, tokens, idx, vocab, |vocab|)
  {
    var stats := stats0;
    var j := 0;
    while j < |vocab|
      invariant 0 <= j <= |vocab|
      invariant stats == AdvancedUpTo(stats0, startIdx, tokens, idx, vocab, j)
      invariant QuietUpTo(stats0, startIdx, tokens[idx], vocab, j)
    {
      var next := CountContext(stats, stats0, startIdx, tokens, idx, vocab, j);
      if next.Failure? {
        LoudAt(stats0, startIdx, tokens[idx], vocab, j);
        return next;
      }
      stats := next.value;
      j := j + 1;
    }
    return Success(stats);
  }

  /**
   * One iteration of the loop of src/bpe.py:192-196, for context
   * `vocab[j]`: when that context has been seen, its row gains the span
   * ending here, or the lookup of the current id raises.
   */
  method CountContext(stats: Stats, stats0: Stats, startIdx: map<int, int>, tokens: seq<int>, idx: int, vocab: seq<int>, j: int)
    returns (r: Result<Stats, Error>)
    requires 0 <= idx < |tokens| && 0 <= j < |vocab| && Ready(stats0, startIdx, idx, vocab)
    requires stats == AdvancedUpTo(stats0, startIdx, tokens, idx, vocab, j)
    ensures r.Failure? <==> !QuietAt(stats0, startIdx, tokens[idx], vocab[j])
    ensures r.Failure? ==> r.error == KeyNotFound
    ensures r.Success? ==> r.value == AdvancedUpTo(stats0, startIdx, tokens, idx, vocab, j + 1)
  {
    var token := tokens[idx];
    var v := vocab[j];
    var start := startIdx[v];
    if start != -1 {
      assert token in stats[v] <==> token in stats0[v] by {
        AdvancedUpToKeys(stats0, startIdx, tokens, idx, vocab, j, v);
      }
      if token !in stats[v] {
        return Failure(KeyNotFound);
      }
      var row := stats[v][token := stats[v][token] + [tokens[start + 1..idx + 1]]];
      assert AdvancedRow(stats[v], tokens, idx, start) == row;
      return Success(stats[v := row]);
    }
    return Success(stats);
  }

  /** Context `v`, when seen before, has a key for `token`: its lookup does not raise. */
  ghost predicate QuietAt(stats: Stats, startIdx: map<int, int>, token: int, v: int) {
    v in startIdx && startIdx[v] != -1 && v in stats ==> token in stats[v]
  }

  /** None of the first `j` contexts raises on `token`. */
  ghost predicate QuietUpTo(stats: Stats, startIdx: map<int, int>, token: int, vocab: seq<int>, j: int)
    requires 0 <= j <= |vocab|
    decreases j
  {
    j == 0 || (QuietUpTo(stats, startIdx, token, vocab, j - 1) && QuietAt(stats, startIdx, token, vocab[j - 1]))
  }

  /** `QuietUpTo` holds exactly when every one of the first `j` contexts is quiet. */
  lemma {:induction false} QuietMeaning(stats: Stats, startIdx: map<int, int>, token: int, vocab: seq<int>, j: int)
    requires 0 <= j <= |vocab|
    ensures QuietUpTo(stats, startIdx, token, vocab, j) <==> forall k | 0 <= k < j :: QuietAt(stats, startIdx, token, vocab[k])
    decreases j
  {
    if j > 0 {
      QuietMeaning(stats, startIdx, token, vocab, j - 1);
    }
  }

  /** A context that raises makes the whole pass raise. */
  lemma LoudAt(stats: Stats, startIdx: map<int, int>, token: int, vocab: seq<int>, j: int)
    requires 0 <= j < |vocab| && !QuietAt(stats, startIdx, token, vocab[j])
    ensures !QuietUpTo(stats, startIdx, token, vocab, |vocab|)
  {
    QuietMeaning(stats, startIdx, token, vocab, |vocab|);
  }

  /** A context seen before while the current id is outside the vocabulary: the lookup raises at this position. */
  lemma FailsHere(tokens: seq<int>, idx: int, vocab: seq<int>, v: int)
    requires 0 <= idx < |tokens| && v in vocab
    requires LastBefore(tokens, v, idx) >= 0 && tokens[idx] !in vocab
    ensures FailsAt(tokens, vocab, idx)
  {
    var i := LastBefore(tokens, v, idx);
    LastBeforeMeaning(tokens, v, idx);
    VocabAt(tokens, vocab, i, idx);
  }

  /** Position `idx` raises exactly when some context seen before has no key for its id. */
  lemma QuietFails(stats: Stats, startIdx: map<int, int>, tokens: seq<int>, idx: int, vocab: seq<int>)
    requires 0 <= idx < |tokens| && StatsOf(stats, tokens, idx, vocab) && StartsAt(startIdx, tokens, idx, vocab)
    ensures FailsAt(tokens, vocab, idx) <==> !QuietUpTo(stats, startIdx, tokens[idx], vocab, |vocab|)
  {
    var token := tokens[idx];
    QuietMeaning(stats, startIdx, token, vocab, |vocab|);
    if QuietUpTo(stats, startIdx, token, vocab, |vocab|) {
      if token !in vocab {
        forall v | v in vocab ensures LastBefore(tokens, v, idx) == -1 {
          var k :| 0 <= k < |vocab| && vocab[k] == v;
          assert QuietAt(stats, startIdx, token, vocab[k]);
          assert RowOf(stats[v], tokens, idx, v, vocab);
          LastBeforeMeaning(tokens, v, idx);
        }
        NoneBefore(tokens, idx, vocab);
      }
    } else {
      var k :| 0 <= k < |vocab| && !QuietAt(stats, startIdx, token, vocab[k]);
      var v := vocab[k];
      assert v in vocab;
      assert RowOf(stats[v], tokens, idx, v, vocab);
      LastBeforeMeaning(tokens, v, idx);
      FailsHere(tokens, idx, vocab, v);
    }
  }

  /** No vocabulary id came before `idx` when none has a last position yet. */
  lemma NoneBefore(tokens: seq<int>, idx: int, vocab: seq<int>)
    requires 0 <= idx <= |tokens|
    requires forall v | v in vocab :: LastBefore(tokens, v, idx) == -1
    ensures !VocabBefore(tokens, vocab, idx)
  {
    forall i | 0 <= i < idx ensures tokens[i] !in vocab {
      LastBeforeMeaning(tokens, tokens[i], idx);
    }
    NoVocab(tokens, vocab, idx);
  }

  /**
   * Once every context has counted position `idx` without raising, the
   * statistics are those after it.
   */
  lemma AdvancedCounts(stats: Stats, before: Stats, startIdx: map<int, int>, tokens: seq<int>, idx: int, vocab: seq<int>)
    requires Distinct(vocab) && 0 <= idx < |tokens| && StatsOf(before, tokens, idx, vocab)
    requires StartsAt(startIdx, tokens, idx, vocab)
    requires QuietUpTo(before, startIdx, tokens[idx], vocab, |vocab|)
    requires stats == AdvancedUpTo(before, startIdx, tokens, idx, vocab, |vocab|)
    ensures StatsOf(stats, tokens, idx + 1, vocab)
  {
    QuietMeaning(before, startIdx, tokens[idx], vocab, |vocab|);
    forall x | x in vocab ensures x in stats && RowOf(stats[x], tokens, idx + 1, x, vocab) {
      var k :| 0 <= k < |vocab| && vocab[k] == x;
      AdvancedUpToAt(before, startIdx, tokens, idx, vocab, |vocab|, k);
      assert QuietAt(before, startIdx, tokens[idx], vocab[k]);
      assert startIdx[x] == LastBefore(tokens, x, idx);
      AdvancedRowCounts(before[x], tokens, idx, x, vocab);
    }
  }

  /** Advancing a row that counts the first `idx` symbols makes it count the first `idx + 1`, unless the lookup raises. */
  lemma AdvancedRowCounts(row: map<int, seq<seq<int>>>, tokens: seq<int>, idx: int, x: int, vocab: seq<int>)
    requires 0 <= idx < |tokens| && RowOf(row, tokens, idx, x, vocab)
    requires LastBefore(tokens, x, idx) >= 0 ==> tokens[idx] in row
    ensures RowOf(AdvancedRow(row, tokens, idx, LastBefore(tokens, x, idx)), tokens, idx + 1, x, vocab)
  {
    var start := LastBefore(tokens, x, idx);
    if start >= 0 {
      assert forall y :: y in row <==> y in vocab;
      assert tokens[idx] in vocab;
      RowStep(row, tokens, idx, x, vocab, start, AdvancedRow(row, tokens, idx, start));
    } else {
      RowUnchanged(row, tokens, idx, x, vocab);
    }
  }

  /** No position among the first `n` raises. */
  ghost predicate NoFailureBefore(tokens: seq<int>, vocab: seq<int>, n: int)
    requires 0 <= n <= |tokens|
    decreases n
  {
    n == 0 || (NoFailureBefore(tokens, vocab, n - 1) && !FailsAt(tokens, vocab, n - 1))
  }

  /** `NoFailureBefore` holds exactly when none of the first `n` positions raises. */
  lemma {:induction false} NoFailureBeforeMeaning(tokens: seq<int>, vocab: seq<int>, n: int)
    requires 0 <= n <= |tokens|
    ensures NoFailureBefore(tokens, vocab, n) <==> forall i | 0 <= i < n :: !FailsAt(tokens, vocab, i)
    decreases n
  {
    if n > 0 {
      NoFailureBeforeMeaning(tokens, vocab, n - 1);
    }
  }

  /** Setting `start_idx[token] = idx` (src/bpe.py:198) keeps every last position up to date. */
  lemma StartsStep(startIdx: map<int, int>, tokens: seq<int>, idx: int, vocab: seq<int>)
    requires 0 <= idx < |tokens| && StartsAt(startIdx, tokens, idx, vocab)
    ensures StartsAt(startIdx[tokens[idx] := idx], tokens, idx + 1, vocab)
  {
  }

  /**
   * `get_context_stats` (src/bpe.py:167-200) over the vocabulary `vocab`,
   * listed in the order the set is iterated. It raises a `KeyError` at the
   * first id outside the vocabulary that follows one inside it; otherwise
   * `stats[x][y]` counts the strings of `Spans(tokens, x, y)`.
   */
  method GetContextStats(tokens: seq<int>, vocab: seq<int>) returns (r: Result<Stats, Error>)
    requires Distinct(vocab)
    ensures r.Failure? <==> exists i | 0 <= i < |tokens| :: FailsAt(tokens, vocab, i)
    ensures r.Failure? ==> r.error == KeyNotFound
    ensures r.Success? ==> StatsOf(r.value, tokens, |tokens|, vocab)
  {
    var stats := EmptyStats(tokens, vocab);
    var startIdx := map v | v in vocab :: -1;
    r := CountAll(stats, startIdx, tokens, vocab);
  }

  /** The loop over the input of src/bpe.py:188-199, from the empty statistics. */
  method CountAll(stats0: Stats, startIdx0: map<int, int>, tokens: seq<int>, vocab: seq<int>) returns (r: Result<Stats, Error>)
    requires Distinct(vocab) && StatsOf(stats0, tokens, 0, vocab) && StartsAt(startIdx0, tokens, 0, vocab)
    ensures r.Failure? <==> exists i | 0 <= i < |tokens| :: FailsAt(tokens, vocab, i)
    ensures r.Failure? ==> r.error == KeyNotFound
    ensures r.Success? ==> StatsOf(r.value, tokens, |tokens|, vocab)
  {
    var stats := stats0;
    var startIdx := startIdx0;
    var idx := 0;
    while idx < |tokens|
      invariant 0 <= idx <= |tokens|
      invariant StatsOf(stats, tokens, idx, vocab)
      invariant StartsAt(startIdx, tokens, idx, vocab)
      invariant NoFailureBefore(tokens, vocab, idx)
    {
      var next := CountPosition(stats, startIdx, tokens, idx, vocab);
      if next.Failure? {
        return Failure(next.error);
      }
      stats := next.value;
      StartsStep(startIdx, tokens, idx, vocab);
      startIdx := startIdx[tokens[idx] := idx];
      idx := idx + 1;
    }
    NoFailureBeforeMeaning(tokens, vocab, |tokens|);
    return Success(stats);
  }

  /**
   * `row[k] = v` on a dict: an existing entry for `k` keeps its place and
   * takes the new string, otherwise the entry is appended.
   */
  function Upsert(row: Row, k: int, v: seq<int>): (r: Row)
    ensures Lookup(r, k) == Some(v)
    ensures forall j | j != k :: Lookup(r, j) == Lookup(row, j)
    decreases |row|
  {
    if row == [] then [(k, v)]
    else if row[0].0 == k then [(k, v)] + row[1..]
    else [row[0]] + Upsert(row[1..], k, v)
  }

  /**
   * The row `learn_contextual_tokenizer` builds for `context`
   * (src/bpe.py:228-237) once it has visited the end ids `ys`: it starts as
   * `{0: ()}`, and each end id with counted strings maps to the most
   * frequent of them, the first met among equals, as `max` with the counts
   * as key picks.
   */
  function LearnedRow(tokens: seq<int>, context: int, ys: seq<int>): Row
    decreases |ys|
  {
    if ys == [] then [(0, [])]
    else
      var n := |ys| - 1;
      var row := LearnedRow(tokens, context, ys[..n]);
      var spans := Spans(tokens, context, ys[n]);
      if |spans| > 0 then Upsert(row, ys[n], MostFrequent(spans)) else row
  }

  /** `{v: (v,) for v in vocab}`: context 0 maps every vocabulary id to itself (src/bpe.py:239). */
  function Singletons(vocab: seq<int>): Row
  {
    seq(|vocab|, i requires 0 <= i < |vocab| => (vocab[i], [vocab[i]]))
  }

  /** The tokenizer `learn_contextual_tokenizer` returns when the statistics succeed (src/bpe.py:203-239). */
  function Learned(tokens: seq<int>, vocab: seq<int>): Table
  {
    (map c | c in vocab :: LearnedRow(tokens, c, vocab))[0 := Singletons(vocab)]
  }

  /** The inner loop of src/bpe.py:231-237 for one context, over the statistics of that context. */
  method LearnRow(counts: map<int, seq<seq<int>>>, tokens: seq<int>, context: int, vocab: seq<int>) returns (row: Row)
    requires RowOf(counts, tokens, |tokens|, context, vocab)
    ensures row == LearnedRow(tokens, context, vocab)
  {
    row := [(0, [])];
    var j := 0;
    while j < |vocab|
      invariant 0 <= j <= |vocab|
      invariant row == LearnedRow(tokens, context, vocab[..j])
    {
      var endToken := vocab[j];
      assert vocab[..j + 1][..j] == vocab[..j];
      if |counts[endToken]| > 0 {
        row := Upsert(row, endToken, MostFrequent(counts[endToken]));
      }
      j := j + 1;
    }
    assert vocab[..j] == vocab;
  }

  /** The tokenizer once the first `i` contexts of `vocab` have their rows, the others still `{0: ()}`. */
  ghost predicate LearnedUpTo(table: Table, tokens: seq<int>, vocab: seq<int>, i: int)
    requires 0 <= i <= |vocab|
  {
    && (forall x :: x in table <==> x in vocab)
    && forall x | x in vocab :: table[x] == if x in vocab[..i] then LearnedRow(tokens, x, vocab) else [(0, [])]
  }

  /** Filling in the row of context `vocab[i]` advances the tokenizer by one context. */
  lemma LearnedStep(table: Table, tokens: seq<int>, vocab: seq<int>, i: int)
    requires 0 <= i < |vocab| && LearnedUpTo(table, tokens, vocab, i)
    ensures LearnedUpTo(table[vocab[i] := LearnedRow(tokens, vocab[i], vocab)], tokens, vocab, i + 1)
  {
    var next := table[vocab[i] := LearnedRow(tokens, vocab[i], vocab)];
    assert vocab[..i + 1] == vocab[..i] + [vocab[i]];
    forall x | x in vocab
      ensures next[x] == if x in vocab[..i + 1] then LearnedRow(tokens, x, vocab) else [(0, [])]
    {
      if x != vocab[i] {
        assert (x in vocab[..i + 1]) == (x in vocab[..i]);
      }
    }
  }

  /** Once every context has its row, the tokenizer is `Learned` but for context 0. */
  lemma LearnedAll(table: Table, tokens: seq<int>, vocab: seq<int>)
    requires LearnedUpTo(table, tokens, vocab, |vocab|)
    ensures table[0 := Singletons(vocab)] == Learned(tokens, vocab)
  {
    assert vocab[..|vocab|] == vocab;
    var rows := map c | c in vocab :: LearnedRow(tokens, c, vocab);
    forall x | x in vocab ensures table[x] == rows[x] {
      assert x in vocab[..|vocab|];
    }
    forall x ensures x in table <==> x in rows {
      assert x in table <==> x in vocab;
    }
    assert table == rows;
  }

  /**
   * `learn_contextual_tokenizer` (src/bpe.py:203-239) with the vocabulary
   * given. It fails exactly where `get_context_stats` does, and otherwise
   * returns `Learned(tokens, vocab)`.
   */
  method LearnContextualTokenizer(tokens: seq<int>, vocab: seq<int>) returns (r: Result<Table, Error>)
    requires Distinct(vocab)
    ensures r.Failure? <==> exists i | 0 <= i < |tokens| :: FailsAt(tokens, vocab, i)
    ensures r.Failure? ==> r.error == KeyNotFound
    ensures r.Success? ==> r.value == Learned(tokens, vocab)
  {
    var counts := GetContextStats(tokens, vocab);
    if counts.Failure? {
      return Failure(counts.error);
    }
    var stats := counts.value;
    var table: Table := map v | v in vocab :: [(0, [])];
    var i := 0;
    assert vocab[..0] == [];
    while i < |vocab|
      invariant 0 <= i <= |vocab|
      invariant LearnedUpTo(table, tokens, vocab, i)
    {
      var context := vocab[i];
      var row := LearnRow(stats[context], tokens, context, vocab);
      LearnedStep(table, tokens, vocab, i);
      table := table[context := row];
      i := i + 1;
    }
    LearnedAll(table, tokens, vocab);
    table := table[0 := Singletons(vocab)];
    return Success(table);
  }

  /** Every entry of an upserted row is an old entry or the new one, and distinct keys stay distinct. */
  lemma {:induction false} UpsertEntries(row: Row, k: int, v: seq<int>)
    ensures forall e | e in Upsert(row, k, v) :: e in row || e == (k, v)
    ensures DistinctKeys(row) ==> DistinctKeys(Upsert(row, k, v))
    decreases |row|
  {
    if row != [] && row[0].0 != k {
      UpsertEntries(row[1..], k, v);
      var rest := Upsert(row[1..], k, v);
      assert Upsert(row, k, v) == [row[0]] + rest;
      if DistinctKeys(row) {
        forall j | 0 <= j < |rest| ensures rest[j].0 != row[0].0 {
          assert rest[j] in rest;
          if rest[j] != (k, v) {
            var m :| 0 <= m < |row[1..]| && row[1..][m] == rest[j];
            assert row[m + 1] == rest[j];
          }
        }
      }
    }
  }

  /**
   * What a learned row holds: the entry `(0, ())` unless overwritten, and
   * an entry for each end id with counted strings, which is their most
   * frequent one; its keys are distinct.
   */
  lemma {:induction false} LearnedRowLookup(tokens: seq<int>, context: int, ys: seq<int>)
    ensures DistinctKeys(LearnedRow(tokens, context, ys))
    ensures forall e | e in LearnedRow(tokens, context, ys) ::
      e == (0, []) || (e.0 in ys && |Spans(tokens, context, e.0)| > 0 && e.1 == MostFrequent(Spans(tokens, context, e.0)))
    ensures forall y :: Lookup(LearnedRow(tokens, context, ys), y) ==
                (if y in ys && |Spans(tokens, context, y)| > 0 then Some(MostFrequent(Spans(tokens, context, y)))
                 else if y == 0 then Some([]) else None)
    decreases |ys|
  {
    if ys != [] {
      var n := |ys| - 1;
      LearnedRowLookup(tokens, context, ys[..n]);
      assert ys == ys[..n] + [ys[n]];
      var row := LearnedRow(tokens, context, ys[..n]);
      var spans := Spans(tokens, context, ys[n]);
      if |spans| > 0 {
        UpsertEntries(row, ys[n], MostFrequent(spans));
      }
    }
  }

  /**
   * In the learned tokenizer, context `c` of the vocabulary other than 0
   * maps an id `y` to the most frequent string counted under `[c][y]` when
   * there is one, 0 to the empty string otherwise, and nothing else.
   */
  lemma LearnedLookup(tokens: seq<int>, vocab: seq<int>, c: int, y: int)
    requires c in vocab && c != 0
    ensures c in Learned(tokens, vocab)
    ensures Lookup(Learned(tokens, vocab)[c], y) ==
      if y in vocab && |Spans(tokens, c, y)| > 0 then Some(MostFrequent(Spans(tokens, c, y)))
      else if y == 0 then Some([]) else None
  {
    LearnedRowLookup(tokens, c, vocab);
  }

  /** Context 0 of the learned tokenizer maps each vocabulary id to the string of that id alone, and nothing else. */
  lemma {:induction false} SingletonsLookup(vocab: seq<int>, y: int)
    requires Distinct(vocab)
    ensures DistinctKeys(Singletons(vocab))
    ensures Lookup(Singletons(vocab), y) == if y in vocab then Some([y]) else None
    decreases |vocab|
  {
    if vocab != [] {
      SingletonsLookup(vocab[1..], y);
      assert Singletons(vocab)[1..] == Singletons(vocab[1..]);
    }
  }

  /** The learned tokenizer has a row for every vocabulary id and for 0, and for nothing else. */
  lemma LearnedContexts(tokens: seq<int>, vocab: seq<int>, c: int)
    ensures c in Learned(tokens, vocab) <==> c in vocab || c == 0
  {
  }

  /**
   * The string the learned tokenizer maps `y` to in context `c` is one
   * `get_context_stats` counted: it ends with `y`, holds no `c` before
   * that, follows a `c` in the input, and no other counted string was met
   * more often, nor as often before it.
   */
  lemma LearnedEntryMeaning(tokens: seq<int>, vocab: seq<int>, c: int, y: int)
    requires c in vocab && c != 0 && y in vocab && |Spans(tokens, c, y)| > 0
    ensures var spans := Spans(tokens, c, y);
      var s := MostFrequent(spans);
      && Lookup(Learned(tokens, vocab)[c], y) == Some(s)
      && IsSpan(tokens, c, y, s)
      && s in spans
      && (forall t | t in spans :: Count(spans, t) <= Count(spans, s))
      && exists k | 0 <= k < |spans| && spans[k] == s :: forall j | 0 <= j < k :: Count(spans, spans[j]) < Count(spans, s)
  {
    LearnedLookup(tokens, vocab, c, y);
    var spans := Spans(tokens, c, y);
    var k := MostFrequentMeaning(spans);
    SpansMeaning(tokens, c, y);
    assert IsSpan(tokens, c, y, spans[k]);
  }

  /**
   * The learned tokenizer is well formed when 0 is not an id the input
   * ends a counted string with: every row is a dict and every context but
   * 0 keeps `0: ()`.
   */
  lemma LearnedWellFormed(tokens: seq<int>, vocab: seq<int>)
    requires Distinct(vocab)
    requires 0 !in vocab || forall i | 0 <= i < |tokens| :: tokens[i] != 0
    ensures WellFormed(Learned(tokens, vocab))
  {
    var table := Learned(tokens, vocab);
    forall c | c in table ensures DistinctKeys(table[c]) && (c != 0 ==> Lookup(table[c], 0) == Some([])) {
      if c == 0 {
        SingletonsLookup(vocab, 0);
      } else {
        LearnedRowLookup(tokens, c, vocab);
        if 0 in vocab {
          SpansOfAbsent(tokens, c, 0, |tokens|);
        }
      }
    }
  }

  /** Decoding undoes encoding with a learned tokenizer, under the same condition on 0. */
  lemma LearnedRoundTrip(tokens: seq<int>, vocab: seq<int>, input: seq<int>)
    requires Distinct(vocab)
    requires 0 !in vocab || forall i | 0 <= i < |tokens| :: tokens[i] != 0
    requires Encoded(Learned(tokens, vocab), input).Success?
    ensures Decoded(Learned(tokens, vocab), Encoded(Learned(tokens, vocab), input).value) == Success(input)
  {
    LearnedWellFormed(tokens, vocab);
    EncodeRoundTrip(Learned(tokens, vocab), input);
  }

  /** The string a learned entry stands for is never empty. */
  lemma MostFrequentSpan(tokens: seq<int>, c: int, y: int)
    requires |Spans(tokens, c, y)| > 0
    ensures |MostFrequent(Spans(tokens, c, y))| >= 1
  {
    var k := MostFrequentMeaning(Spans(tokens, c, y));
    SpansMeaning(tokens, c, y);
    assert IsSpan(tokens, c, y, Spans(tokens, c, y)[k]);
  }

  /**
   * From a context of the learned tokenizer, encoding an input of
   * vocabulary ids always succeeds: a row either consumes a learned string
   * or falls back to 0, whose row consumes one id.
   */
  lemma {:induction false} EncodeFromLearned(tokens: seq<int>, vocab: seq<int>, rest: seq<int>, context: int, stuck: set<int>)
    requires Distinct(vocab)
    requires (context in vocab || context == 0) && context !in stuck && 0 !in stuck
    requires forall i | 0 <= i < |rest| :: rest[i] in vocab
    ensures EncodeFrom(Learned(tokens, vocab), rest, context, stuck).Success?
    decreases |rest|, |Learned(tokens, vocab).Keys - stuck|
  {
    if rest != [] {
      var table := Learned(tokens, vocab);
      LearnedContexts(tokens, vocab, context);
      var row := table[context];
      var (m, v) := LastMatch(row, rest);
      var k := LastMatchMeaning(row, rest);
      if context == 0 {
        var i0 :| 0 <= i0 < |vocab| && vocab[i0] == rest[0];
        assert row[i0].1 <= rest;
        assert row[k] == (vocab[k], [vocab[k]]);
        EncodeFromLearned(tokens, vocab, rest[1..], m, {});
      } else {
        LearnedRowLookup(tokens, context, vocab);
        if k >= 0 && row[k] != (0, []) {
          assert row[k] in row;
          MostFrequentSpan(tokens, context, m);
          EncodeFromLearned(tokens, vocab, rest[|v|..], m, {});
        } else {
          StuckShrinks(table.Keys, stuck, context);
          EncodeFromLearned(tokens, vocab, rest, 0, stuck + {context});
        }
      }
    }
  }

  /** The learned tokenizer encodes every input over the vocabulary, whether or not 0 is a symbol. */
  lemma LearnedEncodes(tokens: seq<int>, vocab: seq<int>, input: seq<int>)
    requires Distinct(vocab)
    requires forall i | 0 <= i < |input| :: input[i] in vocab
    ensures Encoded(Learned(tokens, vocab), input).Success?
  {
    EncodeFromLearned(tokens, vocab, input, 0, {});
  }
}
