/**
 * A run of the contextual tokenizer as written in src/bpe.py:203-297 that
 * does not round-trip. When 0 is a vocabulary symbol and also occurs in the
 * learning input, a learned entry for end symbol 0 overwrites a context's
 * `0: ()` escape (src/bpe.py:228, 236). An encoding that falls back to 0 in
 * that context is then decoded through the learned string instead of the
 * empty one.
 */
module ContextualFindings {
  import opened Results
  import opened BpeMerge
  import opened Contextual
  import opened ContextualLearn

  /** The tokenizer learned from `[1, 0]` over the vocabulary `[0, 1]`: context 1 lost its escape. */
  const Clash: Table := map[0 := [(0, [0]), (1, [1])], 1 := [(0, [0])]]

  /** In context 1, end symbol 0 has the one counted string `(0,)`. */
  lemma ClashSpansZero()
    ensures Spans([1, 0], 1, 0) == [[0]]
  {
    var tokens := [1, 0];
    assert SpansUpTo(tokens, 1, 0, 1) == [] by {
      assert tokens[0] != 0;
    }
    assert LastBefore(tokens, 1, 1) == 0;
    assert tokens[1] == 0 && tokens[1..2] == [0];
  }

  /** In context 1, end symbol 1 has no counted string. */
  lemma ClashSpansOne()
    ensures Spans([1, 0], 1, 1) == []
  {
    var tokens := [1, 0];
    assert SpansUpTo(tokens, 1, 1, 1) == [];
    assert tokens[1] != 1;
  }

  /** Context 1's row: the learned `(0,)` replaced the `0: ()` escape. */
  lemma ClashRowOne()
    ensures LearnedRow([1, 0], 1, [0, 1]) == [(0, [0])]
  {
    var tokens := [1, 0];
    ClashSpansZero();
    ClashSpansOne();
    assert MostFrequent([[0]]) == [0];
    assert [0][..0] == [];
    assert LearnedRow(tokens, 1, [0]) == [(0, [0])];
    assert [0, 1][..1] == [0];
  }

  /** The only string counted is `(0,)` in context 1, so context 1 maps 0 to `(0,)`. */
  lemma ClashLearned()
    ensures Learned([1, 0], [0, 1]) == Clash
  {
    ClashRowOne();
    assert Singletons([0, 1]) == [(0, [0]), (1, [1])];
    var t := Learned([1, 0], [0, 1]);
    assert t.Keys == Clash.Keys;
    assert t[1] == Clash[1];
    assert t[0] == Clash[0];
  }

  /** Encoding `[1, 1]` emits 1 from context 0, falls back to 0 in context 1, and emits 1 again. */
  lemma ClashEncodes()
    ensures Encoded(Clash, [1, 1]) == Success([0, 1, 0, 1])
  {
    var row0: Row := [(0, [0]), (1, [1])];
    var row1: Row := [(0, [0])];
    assert Clash[0] == row0 && Clash[1] == row1;
    assert LastMatch(row0, [1, 1]) == (1, [1]) by {
      assert IsPrefix([1, 1], [1]);
    }
    assert LastMatch(row0, [1]) == (1, [1]) by {
      assert IsPrefix([1], [1]);
    }
    assert LastMatch(row1, [1]) == (0, []) by {
      assert !IsPrefix([1], [0]) by {
        assert [1][0] != [0][0];
      }
      assert row1[..0] == [];
    }
    assert [1, 1][1..] == [1];
    assert [1][1..] == [];
    var e3 := EncodeFrom(Clash, [], 1, {});
    assert e3 == Success([]);
    var e2 := EncodeFrom(Clash, [1], 0, {1});
    assert e2 == Prepend(1, e3);
    assert [1] + [] == [1] && [0] + [1] == [0, 1] && [1] + [0, 1] == [1, 0, 1] && [0] + [1, 0, 1] == [0, 1, 0, 1];
    assert e2 == Success([1]);
    var e1 := EncodeFrom(Clash, [1], 1, {});
    assert e1 == Prepend(0, e2);
    var e0 := EncodeFrom(Clash, [1, 1], 0, {});
    assert e0 == Prepend(1, e1);
    assert Encoded(Clash, [1, 1]) == Prepend(0, e0);
  }

  /** The pair (1, 0) decodes through the learned `(0,)`, not the empty string. */
  lemma ClashDecodes()
    ensures Decoded(Clash, [0, 1, 0, 1]) == Success([1, 0, 1])
  {
    var row0: Row := [(0, [0]), (1, [1])];
    var row1: Row := [(0, [0])];
    assert Clash[0] == row0 && Clash[1] == row1;
    assert Lookup(row0, 1) == Some([1]) by {
      assert row0[1..] == [(1, [1])];
    }
    assert Lookup(row1, 0) == Some([0]);
    assert [0, 1, 0, 1][1..] == [1, 0, 1];
    assert [1, 0, 1][1..] == [0, 1];
    assert [0, 1][1..] == [1];
    assert [1] + [] == [1] && [0] + [1] == [0, 1] && [1] + [0, 1] == [1, 0, 1];
    assert Decoded(Clash, [1]) == Success([]);
    assert Decoded(Clash, [0, 1]) == Success([1]);
    assert Decoded(Clash, [1, 0, 1]) == Success([0, 1]);
  }

  /** The tokenizer learned from `[1, 0]` over `[0, 1]` encodes `[1, 1]` into ids that decode to `[1, 0, 1]`. */
  lemma LearnedAsWrittenBreaksRoundTrip()
    ensures Learned([1, 0], [0, 1]) == Clash
    ensures Encoded(Clash, [1, 1]) == Success([0, 1, 0, 1])
    ensures Decoded(Clash, Encoded(Clash, [1, 1]).value) != Success([1, 1])
  {
    ClashLearned();
    ClashEncodes();
    ClashDecodes();
    assert [1, 0, 1] != [1, 1];
  }
}
