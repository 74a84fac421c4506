/**
 * A concrete run of `LZCoder::update_vocab` as written (src/lz.cpp:244-258)
 * after a learning encode, showing a round trip that fails.
 */
module LZFindings {
  import opened VocabSets
  import opened Errors
  import opened Results
  import opened Tries
  import opened LZState

  /** The coder `LZCoder(2)`: ids 0 and 1 free. */
  const Start := CoderState(3, {}, {0, 1}, map[EMPTY_TOKEN := []], Trie({[]}, map[[] := EMPTY_TOKEN]))

  /** After encoding `[5]` with learning: `[5]` has id 0. */
  const Learned := CoderState(3, {}, {1}, map[EMPTY_TOKEN := [], 0 := [5]], Trie({[], [5]}, map[[] := EMPTY_TOKEN, [5] := 0]))

  /** After `update_vocab([5])` as written: `[5]` has been rebound to id 1, and id 0 still decodes to `[5]`. */
  const Rebound := CoderState(3, {5}, {}, map[EMPTY_TOKEN := [], 0 := [5], 1 := [5]], Trie({[], [5]}, map[[] := EMPTY_TOKEN, [5] := 1]))

  lemma StartIsNewCoder()
    ensures NewCoder(2, {}) == Success(Start)
  {
    assert IdRange(2) == {0, 1};
    assert Unregistered(2, {}) == Start;
  }

  lemma FirstEncode()
    ensures EncodeFrom(Start, [5], true) == (Success([0]), Learned)
  {
    assert [5][..1] == [5] && [5][..0] == [];
    assert LongestPrefix(Start.tokenMap, [5]) == ([], EMPTY_TOKEN);
    assert Min({0, 1}) == 0;
    assert |Start.tokenMap.ends| == 1;
    assert [] + [5] == [5];
    assert Propose(Start, [5], true) == ([5], 0);
    assert Steps([5], 1) == {[5]};
    assert AddToken(Start, [5], 0) == Learned;
    assert EncodeStep(Start, [5], true) == (Success(([5], 0)), Learned);
    assert [5][1..] == [];
    assert EncodeFrom(Learned, [], true) == (Success([]), Learned);
    assert [0] + [] == [0];
  }

  lemma Reregister()
    ensures UpdateVocabAsWritten(Learned, [5]) == (Success(()), Rebound)
  {
    assert [5][..1] == [5];
    assert Min({1}) == 1;
    assert Steps([5], 1) == {[5]};
    assert Registered(Learned, 5) == Rebound;
    assert RegisterSymbolAsWritten(Learned, 5) == (Success(()), Rebound);
    assert [5][1..] == [];
  }

  lemma SecondEncode()
    ensures EncodeFrom(Rebound, [5, 5], true) == (Success([1]), Rebound)
  {
    var s := [5, 5];
    assert s[..1] == [5] && s[..2] == [5, 5] && s[..0] == [];
    assert LongestPrefix(Rebound.tokenMap, s) == ([5], 1);
    assert Rebound.tokenMap.ends.Keys == {[], [5]};
    assert |Rebound.tokenMap.ends| == 2;
    assert [5] + [s[1]] == [5, 5];
    assert Propose(Rebound, s, true) == ([5, 5], 1);
    assert EncodeStep(Rebound, s, true) == (Success(([5, 5], 1)), Rebound);
    assert s[2..] == [];
    assert EncodeFrom(Rebound, [], true) == (Success([]), Rebound);
    assert [1] + [] == [1];
  }

  lemma ReboundDecodes()
    ensures DecodeIds(Rebound.encodedVocab, [1]) == Success([5])
  {
    assert [1][1..] == [];
    assert DecodeIds(Rebound.encodedVocab, []) == Success([]);
    assert [5] + [] == [5];
  }

  /**
   * With two output ids and no alphabet, encoding `[5]` with learning
   * emits `[0]`; `update_vocab([5])` as written then binds `[5]` to id 1
   * as well; encoding `[5, 5]` emits `[1]`, which decodes to `[5]`.
   */
  lemma UpdateVocabAsWrittenBreaksRoundTrip()
    ensures NewCoder(2, {}) == Success(Start)
    ensures EncodeFrom(Start, [5], true) == (Success([0]), Learned)
    ensures UpdateVocabAsWritten(Learned, [5]) == (Success(()), Rebound)
    ensures !RoundTrips(Rebound, [5, 5], true)
  {
    StartIsNewCoder();
    FirstEncode();
    Reregister();
    SecondEncode();
    ReboundDecodes();
  }
}
