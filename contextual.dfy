/**
 * The contextual tokenizer of src/bpe.py:164-312: a table maps every
 * context id to a row, a dict from ids to the symbol strings they stand
 * for in that context. Encoding starts in context 0 and, at each step,
 * emits the last entry of the current row whose string starts the rest of
 * the input, which becomes the next context; decoding looks every
 * consecutive pair of ids up in the table.
 */
module Contextual {
  import opened Results
  import opened Errors
  import opened BpeMerge

  /** A dict from ids to symbol strings, in insertion order (the order `.items()` visits). */
  type Row = seq<(int, seq<int>)>

  /** The contextual tokenizer: each context's row. */
  type Table = map<int, Row>

  /** `is_prefix` (src/bpe.py:300-312): too long a prefix is refused, otherwise the symbols are compared one by one. */
  function IsPrefix(sequence: seq<int>, prefix: seq<int>): (r: bool)
    ensures r <==> prefix <= sequence
  {
    if |prefix| > |sequence| then false
    else forall i | 0 <= i < |prefix| :: sequence[i] == prefix[i]
  }

  /** No id is a key twice, as in a dict. */
  predicate DistinctKeys(row: Row)
  {
    forall i, j | 0 <= i < j < |row| :: row[i].0 != row[j].0
  }

  /** `row[key]`, or `None` for a missing key. */
  function Lookup(row: Row, key: int): Option<seq<int>>
    decreases |row|
  {
    if row == [] then None
    else if row[0].0 == key then Some(row[0].1)
    else Lookup(row[1..], key)
  }

  /** With distinct keys, looking an entry's key up yields that entry's string. */
  lemma {:induction false} LookupEntry(row: Row, k: int)
    requires DistinctKeys(row) && 0 <= k < |row|
    ensures Lookup(row, row[k].0) == Some(row[k].1)
    decreases |row|
  {
    if k > 0 {
      assert row[0].0 != row[k].0;
      LookupEntry(row[1..], k - 1);
    }
  }

  /** A key that is looked up successfully belongs to an entry. */
  lemma {:induction false} LookupFound(row: Row, key: int) returns (k: int)
    requires Lookup(row, key).Some?
    ensures 0 <= k < |row| && row[k] == (key, Lookup(row, key).value)
    decreases |row|
  {
    if row[0].0 == key {
      k := 0;
    } else {
      k := LookupFound(row[1..], key);
      k := k + 1;
    }
  }

  /**
   * The entry the scan of src/bpe.py:266-272 settles on: the last entry
   * whose string is a prefix of `rest`, or `(0, ())` when none is.
   */
  function LastMatch(row: Row, rest: seq<int>): (r: (int, seq<int>))
    ensures r.1 <= rest
    decreases |row|
  {
    if row == [] then (0, [])
    else if IsPrefix(rest, row[|row| - 1].1) then row[|row| - 1]
    else LastMatch(row[..|row| - 1], rest)
  }

  /**
   * The match is either the default `(0, ())`, when no string of the row
   * starts `rest`, or the entry at a position `k` whose string starts
   * `rest` and after which no entry's string does.
   */
  lemma {:induction false} LastMatchMeaning(row: Row, rest: seq<int>) returns (k: int)
    ensures -1 <= k < |row|
    ensures k == -1 ==> LastMatch(row, rest) == (0, []) && forall j | 0 <= j < |row| :: !(row[j].1 <= rest)
    ensures k >= 0 ==> LastMatch(row, rest) == row[k] && row[k].1 <= rest
    ensures forall j | k < j < |row| :: !(row[j].1 <= rest)
    decreases |row|
  {
    if row == [] {
      k := -1;
    } else if IsPrefix(rest, row[|row| - 1].1) {
      k := |row| - 1;
    } else {
      k := LastMatchMeaning(row[..|row| - 1], rest);
    }
  }

  /** The scan over `contextual_tokens[context].items()` (src/bpe.py:266-272). */
  method FindMatch(row: Row, rest: seq<int>) returns (bestMatch: int, bestValue: seq<int>)
    ensures (bestMatch, bestValue) == LastMatch(row, rest)
  {
    bestMatch, bestValue := 0, [];
    var i := 0;
    while i < |row|
      invariant 0 <= i <= |row|
      invariant (bestMatch, bestValue) == LastMatch(row[..i], rest)
    {
      assert row[..i + 1][..i] == row[..i];
      if IsPrefix(rest, row[i].1) {
        bestMatch, bestValue := row[i].0, row[i].1;
      }
      i := i + 1;
    }
    assert row[..i] == row;
  }

  /** `x` in front of a successful result. */
  function Prepend(x: int, r: Result<seq<int>, Error>): Result<seq<int>, Error>
  {
    if r.Success? then Success([x] + r.value) else r
  }

  /** Adding the current context to the contexts visited without progress leaves fewer unvisited ones. */
  lemma StuckShrinks(keys: set<int>, stuck: set<int>, context: int)
    requires context in keys && context !in stuck
    ensures |keys - (stuck + {context})| < |keys - stuck|
  {
    assert keys - (stuck + {context}) == (keys - stuck) - {context};
  }

  /**
   * The loop of `contextual_encode` (src/bpe.py:265-276) from context
   * `context` on `rest`; `stuck` holds the contexts already visited at this
   * position without consuming anything. A step that consumes nothing and
   * leads back to one of them repeats forever in the source, which the model
   * reports as `NoProgress`; a missing context is a `KeyError`.
   */
  function EncodeFrom(table: Table, rest: seq<int>, context: int, stuck: set<int>): Result<seq<int>, Error>
    requires context !in stuck
    decreases |rest|, |table.Keys - stuck|
  {
    if rest == [] then Success([])
    else if context !in table then Failure(ContextNotFound)
    else
      var (m, v) := LastMatch(table[context], rest);
      if v != [] then Prepend(m, EncodeFrom(table, rest[|v|..], m, {}))
      else if m in stuck + {context} then Failure(NoProgress)
      else
        StuckShrinks(table.Keys, stuck, context);
        Prepend(m, EncodeFrom(table, rest, m, stuck + {context}))
  }

  /** `contextual_encode` (src/bpe.py:246-276): the output starts with the empty context 0. */
  function Encoded(table: Table, tokens: seq<int>): Result<seq<int>, Error>
  {
    Prepend(0, EncodeFrom(table, tokens, 0, {}))
  }

  /**
   * `contextual_decode` (src/bpe.py:281-297): the string of each
   * consecutive pair `(context, id)`, concatenated; a missing context or id
   * is a `KeyError`.
   */
  function Decoded(table: Table, ids: seq<int>): Result<seq<int>, Error>
    decreases |ids|
  {
    if |ids| < 2 then Success([])
    else if ids[0] !in table then Failure(ContextNotFound)
    else
      match Lookup(table[ids[0]], ids[1])
      case None => Failure(TokenNotFound)
      case Some(v) =>
        var rest := Decoded(table, ids[1..]);
        if rest.Success? then Success(v + rest.value) else rest
  }

  /**
   * The shape `learn_contextual_tokenizer` gives a table (src/bpe.py:228-237):
   * every row is a dict, and every row but context 0's maps 0 to the empty
   * string.
   */
  ghost predicate WellFormed(table: Table)
  {
    forall c | c in table :: DistinctKeys(table[c]) && (c != 0 ==> Lookup(table[c], 0) == Some([]))
  }

  /** In a well-formed table a step always lands on an entry, whose key looks up its string. */
  lemma StepEntry(table: Table, rest: seq<int>, context: int)
    requires WellFormed(table) && context in table
    requires context == 0 ==> LastMatch(table[context], rest) != (0, [])
    ensures var (m, v) := LastMatch(table[context], rest); Lookup(table[context], m) == Some(v)
  {
    var row := table[context];
    var k := LastMatchMeaning(row, rest);
    if k == -1 {
      if context == 0 {
        assert false;
      } else {
        var e := LookupFound(row, 0);
        assert false;
      }
    }
    LookupEntry(row, k);
  }

  /** Decoding the ids encoding emits, from the context encoding started in, yields what was encoded. */
  lemma {:induction false} EncodeFromRoundTrip(table: Table, rest: seq<int>, context: int, stuck: set<int>)
    requires WellFormed(table) && context !in stuck && EncodeFrom(table, rest, context, stuck).Success?
    ensures Decoded(table, [context] + EncodeFrom(table, rest, context, stuck).value) == Success(rest)
    decreases |rest|, |table.Keys - stuck|
  {
    if rest != [] {
      var (m, v) := LastMatch(table[context], rest);
      var next := if v != [] then EncodeFrom(table, rest[|v|..], m, {}) else EncodeFrom(table, rest, m, stuck + {context});
      if v != [] {
        EncodeFromRoundTrip(table, rest[|v|..], m, {});
      } else {
        StuckShrinks(table.Keys, stuck, context);
        EncodeFromRoundTrip(table, rest, m, stuck + {context});
      }
      StepEntry(table, rest, context);
      var ids := [context] + ([m] + next.value);
      assert ids[1..] == [m] + next.value;
      assert rest == v + rest[|v|..];
    }
  }

  /** `contextual_decode` undoes `contextual_encode` on a well-formed table. */
  lemma EncodeRoundTrip(table: Table, tokens: seq<int>)
    requires WellFormed(table) && Encoded(table, tokens).Success?
    ensures Decoded(table, Encoded(table, tokens).value) == Success(tokens)
  {
    EncodeFromRoundTrip(table, tokens, 0, {});
  }

  /**
   * `contextual_encode` (src/bpe.py:246-276) as a loop. `stuck` records the
   * contexts visited at the current position without consuming anything;
   * where the source would cycle through them forever the loop stops with
   * `NoProgress`.
   */
  method ContextualEncode(tokens: seq<int>, table: Table) returns (r: Result<seq<int>, Error>)
    ensures r == Encoded(table, tokens)
  {
    var encoded := [0];
    var context := 0;
    var curIdx := 0;
    var stuck: set<int> := {};
    while curIdx < |tokens|
      invariant 0 <= curIdx <= |tokens| && context !in stuck
      invariant Prepend(0, EncodeFrom(table, tokens, 0, {})) ==
        (var rest := EncodeFrom(table, tokens[curIdx..], context, stuck);
         if rest.Success? then Success(encoded + rest.value) else rest)
      decreases |tokens| - curIdx, |table.Keys - stuck|
    {
      if context !in table {
        return Failure(ContextNotFound);
      }
      var bestMatch, bestValue := FindMatch(table[context], tokens[curIdx..]);
      if bestValue == [] && bestMatch in stuck + {context} {
        return Failure(NoProgress);
      }
      ghost var rest := tokens[curIdx..];
      ghost var next := if bestValue != [] then EncodeFrom(table, rest[|bestValue|..], bestMatch, {})
        else EncodeFrom(table, rest, bestMatch, stuck + {context});
      if next.Success? {
        assert encoded + ([bestMatch] + next.value) == (encoded + [bestMatch]) + next.value;
      }
      if bestValue == [] {
        StuckShrinks(table.Keys, stuck, context);
        stuck := stuck + {context};
      } else {
        assert tokens[curIdx..][|bestValue|..] == tokens[curIdx + |bestValue|..];
        stuck := {};
      }
      encoded := encoded + [bestMatch];
      context := bestMatch;
      curIdx := curIdx + |bestValue|;
    }
    assert encoded + [] == encoded;
    return Success(encoded);
  }
}
