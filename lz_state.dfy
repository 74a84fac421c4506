/**
 * The state of one `LZCoder` (src/lz.hpp:166-171) as a value, and its
 * operations as functions: the LZ78-style dictionary learner of
 * src/lz.cpp:207-362. The class `LZCoders.LZCoder` and the per-context
 * coders of the hierarchical coder are proved against these functions.
 */
module LZState {
  import opened VocabSets
  import opened Errors
  import opened Results
  import opened Tries

  /**
   * `vocabSize` is `output_vocab_size + 1` for a bounded coder and -1 for an
   * unbounded one; `unused` holds the free ids, `encodedVocab` maps ids to
   * codewords and `tokenMap` maps codewords to ids.
   */
  datatype CoderState = CoderState(
    vocabSize: int,
    inputVocab: set<int>,
    unused: set<int>,
    encodedVocab: map<int, seq<int>>,
    tokenMap: Trie)

  /** A coder built with `output_vocab_size > 0`. */
  predicate Bounded(s: CoderState)
  {
    s.vocabSize > 1
  }

  /** The codeword/id tables are inverse to each other. */
  ghost predicate Inverse(s: CoderState)
  {
    && (forall c | c in s.tokenMap.ends ::
          s.tokenMap.ends[c] in s.encodedVocab && s.encodedVocab[s.tokenMap.ends[c]] == c)
    && (forall t | t in s.encodedVocab ::
          s.encodedVocab[t] in s.tokenMap.ends && s.tokenMap.ends[s.encodedVocab[t]] == t)
  }

  /** The ids in use and the free ids split `[0, output_vocab_size)` plus the empty-token id. */
  ghost predicate IdsCovered(s: CoderState)
  {
    && s.unused !! s.encodedVocab.Keys
    && s.unused + s.encodedVocab.Keys == IdRange(s.vocabSize - 1) + {EMPTY_TOKEN}
  }

  /** The invariant of a bounded coder. */
  ghost predicate Inv(s: CoderState)
  {
    && Bounded(s)
    && AllTerminal(s.tokenMap)
    && EMPTY_TOKEN in s.encodedVocab && s.encodedVocab[EMPTY_TOKEN] == []
    && Inverse(s)
    && IdsCovered(s)
    && |s.tokenMap.ends| == |s.encodedVocab|
  }

  /** Every alphabet symbol is a single-symbol codeword. */
  ghost predicate AlphabetKnown(s: CoderState)
  {
    forall c | c in s.inputVocab :: [c] in s.tokenMap.ends
  }

  /** Registered ids keep their codewords and the bound is unchanged. */
  ghost predicate Extends(s: CoderState, s': CoderState)
  {
    && s'.vocabSize == s.vocabSize
    && forall t | t in s.encodedVocab :: t in s'.encodedVocab && s'.encodedVocab[t] == s.encodedVocab[t]
  }

  lemma ExtendsTransitive(s0: CoderState, s1: CoderState, s2: CoderState)
    requires Extends(s0, s1) && Extends(s1, s2)
    ensures Extends(s0, s2)
  {
  }

  /** Under the invariant, a coder has room for another codeword exactly when it has a free id. */
  lemma CapacityIffUnused(s: CoderState)
    requires Inv(s)
    ensures |s.tokenMap.ends| < s.vocabSize <==> s.unused != {}
  {
    var n := s.vocabSize - 1;
    IdRangeSize(n);
    assert |IdRange(n) + {EMPTY_TOKEN}| == n + 1;
    assert s.unused * s.encodedVocab.Keys == {};
    assert |s.unused| + |s.encodedVocab.Keys| == n + 1;
  }

  /** Under the invariant the codewords only grow along `Extends`. */
  lemma ExtendsKeepsCodewords(s: CoderState, s': CoderState)
    requires Inv(s) && Inv(s') && Extends(s, s')
    ensures s.tokenMap.ends.Keys <= s'.tokenMap.ends.Keys
  {
    forall c | c in s.tokenMap.ends ensures c in s'.tokenMap.ends {
      var t := s.tokenMap.ends[c];
      assert s'.encodedVocab[t] == c;
    }
  }

  /** `_add_new_token` (src/lz.cpp:358-362): bind `c` to `t` in both tables and take `t` out of the free ids. */
  function AddToken(s: CoderState, c: seq<int>, t: int): (r: CoderState)
    ensures r.encodedVocab == s.encodedVocab[t := c]
    ensures r.tokenMap.ends == s.tokenMap.ends[c := t]
    ensures r.unused == s.unused - {t}
    ensures r.vocabSize == s.vocabSize && r.inputVocab == s.inputVocab
  {
    s.(encodedVocab := s.encodedVocab[t := c],
       tokenMap := Inserted(s.tokenMap, c, t),
       unused := s.unused - {t})
  }

  /** Adding a codeword whose parent is a codeword keeps every trie node a codeword. */
  lemma AddTokenKeepsTrie(s: CoderState, c: seq<int>, t: int)
    requires AllTerminal(s.tokenMap)
    requires |c| > 0 && c[..|c| - 1] in s.tokenMap.ends
    ensures AllTerminal(AddToken(s, c, t).tokenMap)
  {
    var r := AddToken(s, c, t);
    var parent := c[..|c| - 1];
    assert r.tokenMap.nodes == s.tokenMap.nodes + Steps(c, |c|);
    StepsMembers(c, |c|);
    forall p | p in Steps(c, |c|) ensures p in r.tokenMap.ends {
      var j :| 1 <= j <= |c| && p == c[..j];
      if j < |c| {
        assert p == parent[..j];
        assert p in s.tokenMap.nodes;
      } else {
        assert p == c;
      }
    }
    assert r.tokenMap.nodes == r.tokenMap.ends.Keys;
  }

  /** Adding a fresh codeword under a fresh id keeps the tables inverse. */
  lemma AddTokenKeepsInverse(s: CoderState, c: seq<int>, t: int)
    requires Inverse(s)
    requires t !in s.encodedVocab && c !in s.tokenMap.ends
    ensures Inverse(AddToken(s, c, t))
  {
  }

  /**
   * Binding a free id to a codeword that extends an existing codeword by
   * one symbol keeps the coder's invariant, in particular keeps the trie
   * prefix-closed, and changes no earlier binding.
   */
  lemma AddTokenKeepsInv(s: CoderState, c: seq<int>, t: int)
    requires Inv(s)
    requires t in s.unused
    requires |c| > 0 && c[..|c| - 1] in s.tokenMap.ends && c !in s.tokenMap.ends
    ensures Inv(AddToken(s, c, t))
    ensures Extends(s, AddToken(s, c, t))
    ensures AlphabetKnown(s) ==> AlphabetKnown(AddToken(s, c, t))
  {
    assert t !in s.encodedVocab;
    AddTokenKeepsTrie(s, c, t);
    AddTokenKeepsInverse(s, c, t);
    AddTokenKeepsIds(s, c, t);
    AddTokenKeepsSizes(s, c, t);
  }

  /** Moving a free id into use keeps the split of the ids. */
  lemma AddTokenKeepsIds(s: CoderState, c: seq<int>, t: int)
    requires IdsCovered(s) && t in s.unused
    ensures IdsCovered(AddToken(s, c, t))
  {
    var r := AddToken(s, c, t);
    assert r.encodedVocab.Keys == s.encodedVocab.Keys + {t};
    assert r.unused + r.encodedVocab.Keys == s.unused + s.encodedVocab.Keys;
  }

  /** Binding a new codeword to a new id grows both tables by one. */
  lemma AddTokenKeepsSizes(s: CoderState, c: seq<int>, t: int)
    requires |s.tokenMap.ends| == |s.encodedVocab|
    requires t !in s.encodedVocab && c !in s.tokenMap.ends
    ensures |AddToken(s, c, t).tokenMap.ends| == |AddToken(s, c, t).encodedVocab|
  {
    var r := AddToken(s, c, t);
    assert r.encodedVocab.Keys == s.encodedVocab.Keys + {t};
    assert r.tokenMap.ends.Keys == s.tokenMap.ends.Keys + {c};
  }

  /**
   * `_propose_next_token` (src/lz.cpp:336-352): the longest match; when
   * learning, when the match leaves input over and the trie has room, the
   * match extended by the next symbol, with the smallest free id (or the
   * matched id when no id is free).
   */
  function Propose(s: CoderState, input: seq<int>, learn: bool): (r: (seq<int>, int))
    ensures r.0 <= input
    ensures |r.0| <= |LongestPrefix(s.tokenMap, input).0| + 1
  {
    var (prefix, token) := LongestPrefix(s.tokenMap, input);
    if learn && |prefix| < |input| && (s.vocabSize < 0 || |s.tokenMap.ends| < s.vocabSize) then
      assert input[..|prefix| + 1] == prefix + [input[|prefix|]];
      (prefix + [input[|prefix|]], if s.unused != {} then Min(s.unused) else token)
    else
      (prefix, token)
  }

  /**
   * What a proposal means in a coder that keeps its invariant: either a
   * registered id whose codeword is the longest codeword starting the input
   * (and, when learning could have extended it, the coder is full), or the
   * smallest free id for that codeword extended by the next input symbol.
   */
  lemma ProposeMeaning(s: CoderState, input: seq<int>, learn: bool)
    requires Inv(s)
    ensures var (p, t) := Propose(s, input, learn);
      var m := LongestPrefix(s.tokenMap, input).0;
      && m in s.tokenMap.ends
      && (forall q | q in s.tokenMap.ends && q <= input :: |q| <= |m|)
      && (t in s.encodedVocab ==>
            p == m && s.encodedVocab[t] == p && (p == [] <==> t == EMPTY_TOKEN)
            && (learn && |m| < |input| ==> s.unused == {}))
      && (t !in s.encodedVocab ==>
            learn && |m| < |input| && s.unused != {} && t == Min(s.unused)
            && p == m + [input[|m|]] && p !in s.tokenMap.ends && p[..|p| - 1] == m)
  {
    var (p, t) := Propose(s, input, learn);
    var (m, v) := LongestPrefix(s.tokenMap, input);
    LongestPrefixIsCodeword(s.tokenMap, input);
    CapacityIffUnused(s);
    assert [] in s.tokenMap.ends;
    assert s.tokenMap.ends[[]] == EMPTY_TOKEN;
    assert m in s.tokenMap.ends;
    if learn && |m| < |input| && |s.tokenMap.ends| < s.vocabSize {
      var q := m + [input[|m|]];
      assert q == input[..|m| + 1];
      assert q[..|q| - 1] == m;
    }
  }

  /**
   * `LZCoder::encode_one_token` (src/lz.cpp:288-305): a proposal with an
   * unregistered id is registered under the smallest free id, after the
   * learning and capacity checks.
   */
  function EncodeStep(s: CoderState, input: seq<int>, learn: bool): (r: (Result<(seq<int>, int), Error>, CoderState))
    ensures r.0.Success? ==> r.0.value.0 <= input
    ensures !learn ==> r.1 == s
  {
    var (prefix, token) := Propose(s, input, learn);
    if token !in s.encodedVocab then
      if !learn then (Failure(LearningDisabled), s)
      else if s.vocabSize > 0 && |s.tokenMap.ends| >= s.vocabSize then (Failure(DictionaryFull), s)
      else if s.unused == {} then (Failure(NoUnusedTokens), s)
      else
        var t := Min(s.unused);
        (Success((prefix, t)), AddToken(s, prefix, t))
    else
      (Success((prefix, token)), s)
  }

  /**
   * One step in a coder that keeps its invariant never fails, keeps the
   * invariant, and emits an id whose codeword is exactly the consumed prefix.
   */
  lemma EncodeStepMeaning(s: CoderState, input: seq<int>, learn: bool)
    requires Inv(s)
    ensures var (r, s') := EncodeStep(s, input, learn);
      && r.Success?
      && Inv(s') && Extends(s, s')
      && (AlphabetKnown(s) ==> AlphabetKnown(s'))
      && r.value.1 in s'.encodedVocab && s'.encodedVocab[r.value.1] == r.value.0
      && (r.value.0 == [] <==> r.value.1 == EMPTY_TOKEN)
      && (r.value.0 != [] ==> 0 <= r.value.1 < s.vocabSize - 1)
  {
    ProposeMeaning(s, input, learn);
    var (p, t) := Propose(s, input, learn);
    var (r, s') := EncodeStep(s, input, learn);
    if t !in s.encodedVocab {
      CapacityIffUnused(s);
      AddTokenKeepsInv(s, p, t);
    } else {
      assert r.value.1 in s.encodedVocab.Keys;
    }
    assert r.value.1 in s'.encodedVocab;
    if r.value.0 != [] {
      assert r.value.1 != EMPTY_TOKEN;
      assert r.value.1 in s.unused + s.encodedVocab.Keys;
    }
  }

  /**
   * `LZCoder::encode` (src/lz.cpp:264-282): repeat steps until the input is
   * consumed; a step that consumes nothing fails. Learned steps are kept
   * when a later step fails, so the final state is returned either way.
   */
  function EncodeFrom(s: CoderState, input: seq<int>, learn: bool): (r: (Result<seq<int>, Error>, CoderState))
    decreases |input|
  {
    if input == [] then (Success([]), s)
    else
      var (step, s1) := EncodeStep(s, input, learn);
      match step
      case Failure(e) => (Failure(e), s1)
      case Success((prefix, token)) =>
        if prefix == [] then
          (Failure(if learn then DictionaryFull else LearningDisabled), s1)
        else
          var (rest, s2) := EncodeFrom(s1, input[|prefix|..], learn);
          (if rest.Success? then Success([token] + rest.value) else rest, s2)
  }

  /** `LZCoder::decode` (src/lz.cpp:311-330): concatenate the codewords; an unknown id fails. */
  function DecodeIds(vocab: map<int, seq<int>>, ids: seq<int>): (r: Result<seq<int>, Error>)
    ensures r.Failure? <==> exists i | 0 <= i < |ids| :: ids[i] !in vocab
    ensures r.Failure? ==> r.error == TokenNotFound
  {
    if ids == [] then Success([])
    else if ids[0] !in vocab then Failure(TokenNotFound)
    else
      var rest := DecodeIds(vocab, ids[1..]);
      assert forall i | 1 <= i < |ids| :: ids[i] == ids[1..][i - 1];
      if rest.Failure? then rest else Success(vocab[ids[0]] + rest.value)
  }

  /** Decoding one more id appends its codeword, or fails when that id is unknown. */
  lemma {:induction false} DecodeIdsSnoc(v: map<int, seq<int>>, ids: seq<int>, t: int)
    ensures DecodeIds(v, ids + [t]) ==
      if DecodeIds(v, ids).Success? && t in v then Success(DecodeIds(v, ids).value + v[t])
      else Failure(TokenNotFound)
  {
    if ids != [] {
      assert (ids + [t])[1..] == ids[1..] + [t];
      DecodeIdsSnoc(v, ids[1..], t);
      if DecodeIds(v, ids).Success? && t in v {
        assert v[ids[0]] + (DecodeIds(v, ids[1..]).value + v[t]) == (v[ids[0]] + DecodeIds(v, ids[1..]).value) + v[t];
      }
    } else {
      assert [] + [t] == [t];
      assert [t][1..] == [];
      if t in v {
        assert [] + v[t] == v[t] + [];
      }
    }
  }

  /** Decoding with a vocabulary that only gained bindings gives the same result. */
  lemma {:induction false} DecodeIdsMonotone(v: map<int, seq<int>>, v': map<int, seq<int>>, ids: seq<int>)
    requires forall t | t in v :: t in v' && v'[t] == v[t]
    requires DecodeIds(v, ids).Success?
    ensures DecodeIds(v', ids) == DecodeIds(v, ids)
  {
    if ids != [] {
      DecodeIdsMonotone(v, v', ids[1..]);
    }
  }

  /** Encoding keeps the invariant and never rebinds a registered id. */
  lemma {:induction false} EncodeKeepsInv(s: CoderState, input: seq<int>, learn: bool)
    requires Inv(s)
    ensures var (r, s') := EncodeFrom(s, input, learn);
      Inv(s') && Extends(s, s') && (AlphabetKnown(s) ==> AlphabetKnown(s'))
    decreases |input|
  {
    if input != [] {
      EncodeStepMeaning(s, input, learn);
      var (step, s1) := EncodeStep(s, input, learn);
      var (prefix, token) := step.value;
      if prefix != [] {
        EncodeKeepsInv(s1, input[|prefix|..], learn);
        var s2 := EncodeFrom(s1, input[|prefix|..], learn).1;
        ExtendsTransitive(s, s1, s2);
      }
    }
  }

  /** Encoding never rebinds an id that was registered before it. */
  lemma EncodeExtends(s: CoderState, input: seq<int>, learn: bool)
    requires Inv(s)
    ensures Extends(s, EncodeFrom(s, input, learn).1)
  {
    EncodeKeepsInv(s, input, learn);
  }

  /** What the round trip needs from one successful step. */
  lemma EncodeStepBinds(s: CoderState, input: seq<int>, learn: bool)
    requires Inv(s)
    ensures EncodeStep(s, input, learn).0.Success?
    ensures Inv(EncodeStep(s, input, learn).1)
    ensures var (prefix, token) := EncodeStep(s, input, learn).0.value;
      EncodeStep(s, input, learn).1.encodedVocab[token] == prefix
  {
    EncodeStepMeaning(s, input, learn);
  }

  /** Decoding an id bound to a prefix of the input, then ids that decode to the rest of it. */
  lemma DecodeIdsCons(v: map<int, seq<int>>, t: int, ids: seq<int>, input: seq<int>)
    requires t in v && v[t] <= input
    requires DecodeIds(v, ids) == Success(input[|v[t]|..])
    ensures DecodeIds(v, [t] + ids) == Success(input)
  {
    assert ([t] + ids)[1..] == ids;
    assert input == v[t] + input[|v[t]|..];
  }

  /** One unfolding of `EncodeFrom` after a successful step that consumed `prefix`. */
  lemma EncodeFromUnfold(s: CoderState, input: seq<int>, learn: bool)
    requires input != [] && EncodeStep(s, input, learn).0.Success?
    requires EncodeStep(s, input, learn).0.value.0 != []
    ensures var step := EncodeStep(s, input, learn);
      var rest := EncodeFrom(step.1, input[|step.0.value.0|..], learn);
      && EncodeFrom(s, input, learn).1 == rest.1
      && (EncodeFrom(s, input, learn).0.Success? <==> rest.0.Success?)
      && (rest.0.Success? ==> EncodeFrom(s, input, learn).0.value == [step.0.value.1] + rest.0.value)
  {
  }

  /** A successful encoding of `input` from `s` decodes, with the final tables, to `input`. */
  ghost predicate RoundTrips(s: CoderState, input: seq<int>, learn: bool)
  {
    var (r, s') := EncodeFrom(s, input, learn);
    r.Success? ==> DecodeIds(s'.encodedVocab, r.value) == Success(input)
  }

  /** The inductive step of the round trip: one step, then a round trip of the rest. */
  lemma RoundTripStep(s: CoderState, input: seq<int>, learn: bool)
    requires Inv(s) && input != []
    requires var step := EncodeStep(s, input, learn);
      step.0.Success? && step.0.value.0 != [] ==> RoundTrips(step.1, input[|step.0.value.0|..], learn)
    ensures RoundTrips(s, input, learn)
  {
    EncodeStepBinds(s, input, learn);
    var step := EncodeStep(s, input, learn);
    var prefix := step.0.value.0;
    if prefix != [] {
      var tail := input[|prefix|..];
      EncodeFromUnfold(s, input, learn);
      EncodeExtends(step.1, tail, learn);
      var rest := EncodeFrom(step.1, tail, learn);
      if rest.0.Success? {
        DecodeIdsCons(rest.1.encodedVocab, step.0.value.1, rest.0.value, input);
      }
    }
  }

  /**
   * The round trip: in a bounded coder, a successful encoding decodes, with
   * the coder's final tables, to the input.
   */
  lemma {:induction false} EncodeRoundTrip(s: CoderState, input: seq<int>, learn: bool)
    requires Inv(s)
    ensures EncodeFrom(s, input, learn).0.Success? ==>
      DecodeIds(EncodeFrom(s, input, learn).1.encodedVocab, EncodeFrom(s, input, learn).0.value) == Success(input)
    decreases |input|
  {
    if input != [] {
      EncodeStepBinds(s, input, learn);
      var step := EncodeStep(s, input, learn);
      if step.0.value.0 != [] {
        EncodeRoundTrip(step.1, input[|step.0.value.0|..], learn);
      }
      RoundTripStep(s, input, learn);
    }
  }

  /** Encoding without learning leaves the coder untouched. */
  lemma {:induction false} EncodeWithoutLearningIsPure(s: CoderState, input: seq<int>)
    ensures EncodeFrom(s, input, false).1 == s
    decreases |input|
  {
    if input != [] {
      var (step, s1) := EncodeStep(s, input, false);
      if step.Success? && step.value.0 != [] {
        EncodeWithoutLearningIsPure(s1, input[|step.value.0|..]);
      }
    }
  }

  /** The single-symbol codewords of a suffix's symbols are among those of the whole input. */
  lemma SuffixSymbolsKnown(input: seq<int>, k: nat, codewords: set<seq<int>>)
    requires k <= |input|
    requires forall i | 0 <= i < |input| :: [input[i]] in codewords
    ensures forall i | 0 <= i < |input[k..]| :: [input[k..][i]] in codewords
  {
    forall i | 0 <= i < |input[k..]| ensures [input[k..][i]] in codewords {
      assert input[k..][i] == input[k + i];
    }
  }

  /** A step whose input starts with a known symbol consumes at least that symbol. */
  lemma EncodeStepProgress(s: CoderState, input: seq<int>, learn: bool)
    requires Inv(s)
    requires input != [] && [input[0]] in s.tokenMap.ends
    ensures EncodeStep(s, input, learn).0.Success?
    ensures EncodeStep(s, input, learn).0.value.0 != []
    ensures Inv(EncodeStep(s, input, learn).1) && Extends(s, EncodeStep(s, input, learn).1)
  {
    EncodeStepMeaning(s, input, learn);
    ProposeMeaning(s, input, learn);
    assert [input[0]] == input[..1];
  }

  /**
   * Encoding fails only when a step consumes nothing: in a coder that
   * keeps its invariant and already knows every input symbol as a
   * single-symbol codeword, encoding always succeeds.
   */
  lemma {:induction false} EncodeOverKnownSymbolsSucceeds(s: CoderState, input: seq<int>, learn: bool)
    requires Inv(s)
    requires forall i | 0 <= i < |input| :: [input[i]] in s.tokenMap.ends
    ensures EncodeFrom(s, input, learn).0.Success?
    decreases |input|
  {
    if input != [] {
      EncodeStepProgress(s, input, learn);
      var step := EncodeStep(s, input, learn);
      var s1 := step.1;
      var prefix := step.0.value.0;
      ExtendsKeepsCodewords(s, s1);
      SuffixSymbolsKnown(input, |prefix|, s1.tokenMap.ends.Keys);
      EncodeOverKnownSymbolsSucceeds(s1, input[|prefix|..], learn);
    }
  }

  /** A successful encoding emits only ids in `[0, output_vocab_size)`, never the empty token. */
  lemma {:induction false} EncodeIdsInRange(s: CoderState, input: seq<int>, learn: bool)
    requires Inv(s)
    ensures EncodeFrom(s, input, learn).0.Success? ==>
      forall i | 0 <= i < |EncodeFrom(s, input, learn).0.value| ::
        0 <= EncodeFrom(s, input, learn).0.value[i] < s.vocabSize - 1
    decreases |input|
  {
    if input != [] {
      EncodeStepMeaning(s, input, learn);
      var step := EncodeStep(s, input, learn);
      var s1 := step.1;
      var prefix := step.0.value.0;
      if prefix != [] {
        EncodeIdsInRange(s1, input[|prefix|..], learn);
        var rest := EncodeFrom(s1, input[|prefix|..], learn).0;
        if rest.Success? {
          InRangeCons(step.0.value.1, rest.value, s.vocabSize - 1);
        }
      }
    }
  }

  /** Once every id is in use, a learning step proposes exactly what a plain step does. */
  lemma FullProposeIgnoresLearning(s: CoderState, input: seq<int>)
    requires Inv(s) && s.unused == {}
    ensures EncodeStep(s, input, true) == EncodeStep(s, input, false)
  {
    CapacityIffUnused(s);
    ProposeMeaning(s, input, true);
    assert Propose(s, input, true) == Propose(s, input, false);
  }

  /**
   * Once every id is in use the dictionary is frozen: encoding with
   * learning gives the same ids and the same coder as encoding without.
   */
  lemma {:induction false} FullCoderIgnoresLearning(s: CoderState, input: seq<int>)
    requires Inv(s) && s.unused == {}
    ensures EncodeFrom(s, input, true).1 == s
    ensures EncodeFrom(s, input, true).0.Success? <==> EncodeFrom(s, input, false).0.Success?
    ensures EncodeFrom(s, input, true).0.Success? ==> EncodeFrom(s, input, true).0 == EncodeFrom(s, input, false).0
    decreases |input|
  {
    if input != [] {
      FullProposeIgnoresLearning(s, input);
      var step := EncodeStep(s, input, false);
      if step.0.Success? && step.0.value.0 != [] {
        FullCoderIgnoresLearning(s, input[|step.0.value.0|..]);
      }
    }
  }

  /** A full coder refuses an input whose first symbol it has never seen. */
  lemma FullCoderRejectsUnknownSymbol(s: CoderState, input: seq<int>)
    requires Inv(s) && s.unused == {}
    requires input != [] && [input[0]] !in s.tokenMap.ends
    ensures EncodeFrom(s, input, true).0 == Failure(DictionaryFull)
  {
    FullProposeIgnoresLearning(s, input);
    EncodeStepMeaning(s, input, false);
    assert input[..1] == [input[0]];
  }

  /** Prepending an id in `[0, n)` to ids in `[0, n)`. */
  lemma InRangeCons(t: int, ids: seq<int>, n: int)
    requires 0 <= t < n
    requires forall i | 0 <= i < |ids| :: 0 <= ids[i] < n
    ensures forall i | 0 <= i < |[t] + ids| :: 0 <= ([t] + ids)[i] < n
  {
  }

  /** The tables every coder starts from (src/lz.cpp:210-215): the empty codeword under `EMPTY_TOKEN`. */
  function Fresh(alphabet: set<int>): (r: CoderState)
    ensures r.tokenMap.ends == map[[] := EMPTY_TOKEN] && r.encodedVocab == map[EMPTY_TOKEN := []]
    ensures r.tokenMap.nodes == {[]} && AllTerminal(r.tokenMap)
  {
    CoderState(-1, alphabet, {}, map[EMPTY_TOKEN := []], Inserted(EmptyTrie(), [], EMPTY_TOKEN))
  }

  /**
   * The registration loop of the constructor (src/lz.cpp:229-233): every
   * pending symbol, in ascending order, becomes a single-symbol codeword
   * under the smallest free id.
   */
  function RegisterAll(s: CoderState, pending: set<int>): (r: CoderState)
    requires |pending| <= |s.unused|
    ensures r.inputVocab == s.inputVocab && r.vocabSize == s.vocabSize
    decreases pending
  {
    if pending == {} then s
    else
      var c := Min(pending);
      RegisterAll(AddToken(s, [c], Min(s.unused)), pending - {c})
  }

  /** Registration does not look at the bound. */
  lemma {:induction false} RegisterAllIgnoresBound(s: CoderState, k: int, pending: set<int>)
    requires |pending| <= |s.unused|
    ensures RegisterAll(s, pending).(vocabSize := k) == RegisterAll(s.(vocabSize := k), pending)
    decreases pending
  {
    if pending != {} {
      var c := Min(pending);
      assert AddToken(s, [c], Min(s.unused)).(vocabSize := k) == AddToken(s.(vocabSize := k), [c], Min(s.unused));
      RegisterAllIgnoresBound(AddToken(s, [c], Min(s.unused)), k, pending - {c});
    }
  }

  /** A bounded coder before its alphabet is registered: ids `0 .. n-1` free (src/lz.cpp:224-227). */
  function Unregistered(n: int, alphabet: set<int>): (r: CoderState)
    ensures r.unused == IdRange(n) && r.vocabSize == n + 1 && r.inputVocab == alphabet
  {
    Fresh(alphabet).(vocabSize := n + 1, unused := IdRange(n))
  }

  /**
   * `LZCoder::LZCoder` (src/lz.cpp:210-238): with `output_vocab_size > 0`
   * an alphabet larger than the bound is refused, otherwise ids
   * `0 .. output_vocab_size-1` are free and the alphabet is registered;
   * without a bound the coder keeps only the empty codeword.
   */
  function NewCoder(n: int, alphabet: set<int>): (r: Result<CoderState, Error>)
    ensures r.Failure? <==> n > 0 && |alphabet| > n
    ensures r.Failure? ==> r.error == VocabTooLarge
    ensures r.Success? ==> r.value.inputVocab == alphabet
  {
    if n > 0 then
      if |alphabet| > n then Failure(VocabTooLarge)
      else
        IdRangeSize(n);
        Success(RegisterAll(Unregistered(n, alphabet), alphabet))
    else
      Success(Fresh(alphabet))
  }

  /** The registered symbols `done` all precede the `pending` ones. */
  ghost predicate InOrder(done: set<int>, pending: set<int>)
  {
    && done !! pending
    && forall d, p | d in done && p in pending :: d < p
  }

  /** The only non-empty codewords are the registered symbols. */
  ghost predicate OnlySingletons(ends: map<seq<int>, int>, done: set<int>)
  {
    forall c | c in ends :: c == [] || (|c| == 1 && c[0] in done)
  }

  /** The registered symbols are the codewords of their ranks and the only non-empty codewords. */
  ghost predicate RanksRegistered(ends: map<seq<int>, int>, alphabet: set<int>, done: set<int>)
  {
    && (forall d | d in done :: [d] in ends && ends[[d]] == Rank(alphabet, d))
    && OnlySingletons(ends, done)
  }

  /** The symbols below the smallest pending one are exactly the registered ones. */
  lemma RankOfNext(alphabet: set<int>, done: set<int>, pending: set<int>)
    requires alphabet == done + pending && InOrder(done, pending) && pending != {}
    ensures Rank(alphabet, Min(pending)) == |done|
  {
    var c := Min(pending);
    assert (set y | y in alphabet && y < c) == done;
  }

  /** Moving the smallest pending symbol to the registered ones keeps the order. */
  lemma InOrderNext(done: set<int>, pending: set<int>)
    requires InOrder(done, pending) && pending != {}
    ensures InOrder(done + {Min(pending)}, pending - {Min(pending)})
    ensures Min(pending) !in done
    ensures |done + {Min(pending)}| == |done| + 1
  {
    var c := Min(pending);
    forall d, p | d in done + {c} && p in pending - {c} ensures d < p {
      if d == c {
        assert c <= p;
      } else {
        assert d in done;
      }
    }
  }

  /** Binding the next symbol to its rank keeps the registered codewords. */
  lemma RanksNext(ends: map<seq<int>, int>, alphabet: set<int>, done: set<int>, c: int)
    requires RanksRegistered(ends, alphabet, done) && c !in done
    ensures RanksRegistered(ends[[c] := Rank(alphabet, c)], alphabet, done + {c})
  {
  }

  /** Taking the smallest free id `k` leaves the ids from `k + 1` on free. */
  lemma NextFreeId(u: set<int>, k: nat, n: int)
    requires u == IdsBetween(k, n) && u != {}
    ensures Min(u) == k
    ensures u - {k} == IdsBetween(k + 1, n)
  {
    var x :| x in u;
    assert k in u;
  }

  /** One turn of the registration loop keeps the order, the free ids and the ranks. */
  lemma RegisterStepRanks(s: CoderState, alphabet: set<int>, done: set<int>, pending: set<int>)
    requires alphabet == done + pending && InOrder(done, pending)
    requires s.unused == IdsBetween(|done|, s.vocabSize - 1)
    requires RanksRegistered(s.tokenMap.ends, alphabet, done)
    requires pending != {} && |pending| <= |s.unused|
    ensures s.unused != {} && Min(s.unused) == |done|
    ensures var c := Min(pending);
      var s1 := AddToken(s, [c], Min(s.unused));
      && alphabet == (done + {c}) + (pending - {c})
      && InOrder(done + {c}, pending - {c})
      && s1.unused == IdsBetween(|done + {c}|, s.vocabSize - 1)
      && RanksRegistered(s1.tokenMap.ends, alphabet, done + {c})
      && |pending - {c}| <= |s1.unused|
  {
    var c := Min(pending);
    NextFreeId(s.unused, |done|, s.vocabSize - 1);
    RankOfNext(alphabet, done, pending);
    InOrderNext(done, pending);
    RanksNext(s.tokenMap.ends, alphabet, done, c);
  }

  /** One turn of the registration loop keeps the coder's invariant. */
  lemma RegisterStepInv(s: CoderState, done: set<int>, pending: set<int>)
    requires Inv(s)
    requires InOrder(done, pending) && OnlySingletons(s.tokenMap.ends, done)
    requires pending != {} && |pending| <= |s.unused|
    ensures var c := Min(pending);
      var s1 := AddToken(s, [c], Min(s.unused));
      && Inv(s1)
      && InOrder(done + {c}, pending - {c})
      && OnlySingletons(s1.tokenMap.ends, done + {c})
      && |pending - {c}| <= |s1.unused|
  {
    var c := Min(pending);
    var x :| x in pending;
    assert s.unused != {};
    assert [c][..0] == [];
    InOrderNext(done, pending);
    AddTokenKeepsInv(s, [c], Min(s.unused));
  }

  /** The registration loop keeps the coder's invariant. */
  lemma {:induction false} RegisterAllInv(s: CoderState, done: set<int>, pending: set<int>)
    requires Inv(s)
    requires InOrder(done, pending) && OnlySingletons(s.tokenMap.ends, done)
    requires |pending| <= |s.unused|
    ensures Inv(RegisterAll(s, pending))
    decreases pending
  {
    if pending != {} {
      RegisterStepInv(s, done, pending);
      var c := Min(pending);
      RegisterAllInv(AddToken(s, [c], Min(s.unused)), done + {c}, pending - {c});
    }
  }

  /** The registration loop gives the `k`-th smallest symbol id `k`. */
  lemma {:induction false} RegisterAllRanks(s: CoderState, alphabet: set<int>, done: set<int>, pending: set<int>)
    requires alphabet == done + pending && InOrder(done, pending)
    requires s.unused == IdsBetween(|done|, s.vocabSize - 1)
    requires RanksRegistered(s.tokenMap.ends, alphabet, done)
    requires |pending| <= |s.unused|
    ensures RanksRegistered(RegisterAll(s, pending).tokenMap.ends, alphabet, alphabet)
    decreases pending
  {
    if pending != {} {
      RegisterStepRanks(s, alphabet, done, pending);
      var c := Min(pending);
      RegisterAllRanks(AddToken(s, [c], Min(s.unused)), alphabet, done + {c}, pending - {c});
    }
  }

  /** The registration loop leaves the ids from `|alphabet|` on free. */
  lemma {:induction false} RegisterAllFree(s: CoderState, alphabet: set<int>, done: set<int>, pending: set<int>)
    requires alphabet == done + pending && InOrder(done, pending)
    requires s.unused == IdsBetween(|done|, s.vocabSize - 1)
    requires RanksRegistered(s.tokenMap.ends, alphabet, done)
    requires |pending| <= |s.unused|
    ensures RegisterAll(s, pending).unused == IdsBetween(|alphabet|, s.vocabSize - 1)
    decreases pending
  {
    if pending != {} {
      RegisterStepRanks(s, alphabet, done, pending);
      var c := Min(pending);
      RegisterAllFree(AddToken(s, [c], Min(s.unused)), alphabet, done + {c}, pending - {c});
    }
  }

  /** A bounded coder starts valid and knows its whole alphabet. */
  lemma NewCoderValid(n: int, alphabet: set<int>)
    requires n > 0 && |alphabet| <= n
    ensures var s := NewCoder(n, alphabet).value;
      Inv(s) && AlphabetKnown(s) && s.vocabSize == n + 1
  {
    var s0 := Unregistered(n, alphabet);
    UnregisteredIsValid(n, alphabet);
    var none: set<int> := {};
    RegisterAllInv(s0, none, alphabet);
    RegisterAllRanks(s0, alphabet, none, alphabet);
    var s := RegisterAll(s0, alphabet);
    assert NewCoder(n, alphabet) == Success(s);
    assert AlphabetKnown(s);
  }

  /**
   * The constructor numbers the alphabet in ascending order: the `k`-th
   * smallest symbol is the codeword of id `k`, no other non-empty codeword
   * exists, and the ids `|alphabet| .. n-1` are free.
   */
  lemma NewCoderIds(n: int, alphabet: set<int>)
    requires n > 0 && |alphabet| <= n
    ensures var s := NewCoder(n, alphabet).value;
      && s.unused == IdsBetween(|alphabet|, n)
      && (forall c | c in alphabet :: [c] in s.tokenMap.ends && s.tokenMap.ends[[c]] == Rank(alphabet, c))
      && (forall c | c in s.tokenMap.ends :: c == [] || (|c| == 1 && c[0] in alphabet))
  {
    var s0 := Unregistered(n, alphabet);
    UnregisteredIsValid(n, alphabet);
    var none: set<int> := {};
    assert |none| == 0;
    RegisterAllRanks(s0, alphabet, none, alphabet);
    RegisterAllFree(s0, alphabet, none, alphabet);
    assert NewCoder(n, alphabet) == Success(RegisterAll(s0, alphabet));
  }

  /** Before the registration loop the coder is valid with every id free and no symbol registered. */
  lemma UnregisteredIsValid(n: int, alphabet: set<int>)
    requires n > 0 && |alphabet| <= n
    ensures var s0 := Unregistered(n, alphabet);
      && Inv(s0)
      && s0.unused == IdsBetween(0, n)
      && RanksRegistered(s0.tokenMap.ends, alphabet, {})
      && |alphabet| <= |s0.unused|
  {
    var s0 := Unregistered(n, alphabet);
    IdRangeSize(n);
    assert Inverse(s0);
    assert IdsCovered(s0);
  }

  /**
   * Without a bound (`output_vocab_size <= 0`) no id is ever free, so a
   * learning encode binds nothing: each step proposes the next symbol with
   * the matched id `EMPTY_TOKEN`, which is registered, and the coder emits
   * `EMPTY_TOKEN` once per input symbol; those decode to nothing.
   */
  lemma {:induction false} UnboundedEncodeEmitsEmpty(n: int, alphabet: set<int>, input: seq<int>)
    requires n <= 0
    ensures var s := NewCoder(n, alphabet).value;
      && EncodeFrom(s, input, true) == (Success(seq(|input|, _ => EMPTY_TOKEN)), s)
      && DecodeIds(s.encodedVocab, seq(|input|, _ => EMPTY_TOKEN)) == Success([])
    decreases |input|
  {
    var s := NewCoder(n, alphabet).value;
    assert s == Fresh(alphabet);
    if input != [] {
      assert input[..1] != [];
      assert input[..0] == [];
      assert LongestPrefix(s.tokenMap, input) == ([], EMPTY_TOKEN);
      assert s.vocabSize < 0 && s.unused == {};
      assert [] + [input[0]] == [input[0]];
      assert Propose(s, input, true) == ([input[0]], EMPTY_TOKEN);
      assert EncodeStep(s, input, true) == (Success(([input[0]], EMPTY_TOKEN)), s);
      UnboundedEncodeEmitsEmpty(n, alphabet, input[1..]);
      var rest := seq(|input[1..]|, _ => EMPTY_TOKEN);
      var all := seq(|input|, _ => EMPTY_TOKEN);
      assert all == [EMPTY_TOKEN] + rest;
      assert input[|[input[0]]|..] == input[1..];
      assert EncodeFrom(s, input[1..], true) == (Success(rest), s);
      assert EncodeFrom(s, input, true) == (Success([EMPTY_TOKEN] + rest), s);
      DecodeIdsCons(s.encodedVocab, EMPTY_TOKEN, rest, []);
      assert DecodeIds(s.encodedVocab, all) == Success([]);
    } else {
      assert seq(|input|, _ => EMPTY_TOKEN) == [];
    }
  }

  /**
   * In a coder with no free id whose codewords are single symbols, a step on
   * an input whose first symbol is a codeword emits that symbol's id and
   * keeps the coder.
   */
  lemma SingletonStep(s: CoderState, input: seq<int>, learn: bool)
    requires Inv(s) && s.unused == {}
    requires forall c | c in s.tokenMap.ends :: |c| <= 1
    requires input != [] && [input[0]] in s.tokenMap.ends
    ensures EncodeFrom(s, input, learn) == Prefixed([s.tokenMap.ends[[input[0]]]], EncodeFrom(s, input[1..], learn))
  {
    ProposeMeaning(s, input, learn);
    assert [input[0]] <= input;
    var (p, t) := Propose(s, input, learn);
    assert p == [input[0]];
    assert EncodeStep(s, input, learn) == (Success((p, t)), s);
    EncodeFromUnfold(s, input, learn);
  }

  /**
   * A coder with no free id whose codewords are single symbols emits, for an
   * input over those symbols, the id of each symbol in turn and changes
   * nothing, whether or not it learns.
   */
  lemma {:induction false} SingletonCoderEncodes(s: CoderState, input: seq<int>, learn: bool)
    requires Inv(s) && s.unused == {}
    requires forall c | c in s.tokenMap.ends :: |c| <= 1
    requires forall i | 0 <= i < |input| :: [input[i]] in s.tokenMap.ends
    ensures var (r, s') := EncodeFrom(s, input, learn);
      && s' == s && r.Success? && |r.value| == |input|
      && forall i | 0 <= i < |input| :: r.value[i] == s.tokenMap.ends[[input[i]]]
    decreases |input|
  {
    if input != [] {
      SingletonStep(s, input, learn);
      var tail := input[1..];
      assert forall i | 0 <= i < |tail| :: tail[i] == input[i + 1];
      SingletonCoderEncodes(s, tail, learn);
    }
  }

  /**
   * A coder built with an alphabet that takes every id emits, for an input
   * over the alphabet, each symbol's rank in ascending order and learns
   * nothing.
   */
  lemma FullAlphabetEncodesRanks(n: int, alphabet: set<int>, input: seq<int>)
    requires n > 0 && |alphabet| == n
    requires forall i | 0 <= i < |input| :: input[i] in alphabet
    ensures var s := NewCoder(n, alphabet).value;
      var (r, s') := EncodeFrom(s, input, true);
      && s' == s && r.Success? && |r.value| == |input|
      && forall i | 0 <= i < |input| :: r.value[i] == Rank(alphabet, input[i])
  {
    var s := NewCoder(n, alphabet).value;
    NewCoderValid(n, alphabet);
    NewCoderIds(n, alphabet);
    assert s.unused == {};
    SingletonCoderEncodes(s, input, true);
  }

  /** In a prefix-closed trie, a non-empty codeword that starts the input means the input's first symbol is a codeword. */
  lemma FirstSymbolCodeword(t: Trie, input: seq<int>, m: seq<int>)
    requires AllTerminal(t) && m in t.ends && m != [] && m <= input
    ensures [input[0]] in t.ends
  {
    assert m[..1] == [input[0]];
    assert m[..1] in t.nodes;
  }

  /**
   * A learning step on a symbol that is not yet a codeword, in a coder with a
   * free id: the symbol alone becomes a codeword under the smallest free id
   * and is emitted, and encoding goes on with the rest of the input.
   */
  lemma LearnsFreshSymbol(s: CoderState, input: seq<int>)
    requires Inv(s) && s.unused != {} && input != [] && [input[0]] !in s.tokenMap.ends
    ensures var t := Min(s.unused);
      var s1 := AddToken(s, [input[0]], t);
      && Inv(s1)
      && EncodeFrom(s, input, true) == Prefixed([t], EncodeFrom(s1, input[1..], true))
  {
    var t := Min(s.unused);
    ProposeMeaning(s, input, true);
    CapacityIffUnused(s);
    var m := LongestPrefix(s.tokenMap, input).0;
    if m != [] {
      FirstSymbolCodeword(s.tokenMap, input, m);
      assert false;
    }
    assert [] + [input[0]] == [input[0]];
    assert t !in s.encodedVocab;
    assert Propose(s, input, true) == ([input[0]], t);
    assert EncodeStep(s, input, true) == (Success(([input[0]], t)), AddToken(s, [input[0]], t));
    assert [input[0]][..0] == [];
    AddTokenKeepsInv(s, [input[0]], t);
    EncodeFromUnfold(s, input, true);
  }

  /** The result of encoding the rest of the input, after `ids` were already emitted. */
  function Prefixed(ids: seq<int>, rest: (Result<seq<int>, Error>, CoderState)): (Result<seq<int>, Error>, CoderState)
  {
    (if rest.0.Success? then Success(ids + rest.0.value) else rest.0, rest.1)
  }

  /** A new symbol `c` bound as a single-symbol codeword to the smallest free id and added to the alphabet (src/lz.cpp:250-252). */
  function Registered(s: CoderState, c: int): (r: CoderState)
    requires s.unused != {}
    ensures r.tokenMap.ends == s.tokenMap.ends[[c] := Min(s.unused)]
    ensures r.inputVocab == s.inputVocab + {c}
  {
    AddToken(s, [c], Min(s.unused)).(inputVocab := s.inputVocab + {c})
  }

  /**
   * One turn of `LZCoder::update_vocab` as written (src/lz.cpp:245-256): a
   * symbol not yet in the alphabet takes the smallest free id as a
   * single-symbol codeword, even when that codeword is already bound;
   * registering the last free id fails.
   */
  function RegisterSymbolAsWritten(s: CoderState, c: int): (r: (Result<(), Error>, CoderState))
  {
    if c in s.inputVocab then (Success(()), s)
    else if s.unused == {} then (Failure(NoUnusedTokens), s)
    else
      var s1 := Registered(s, c);
      if s.vocabSize > 0 && |s1.tokenMap.ends| >= s.vocabSize then (Failure(VocabOverflow), s1)
      else (Success(()), s1)
  }

  /** `LZCoder::update_vocab` as written (src/lz.cpp:244-258): register the symbols in input order, stopping at the first failure. */
  function UpdateVocabAsWritten(s: CoderState, input: seq<int>): (r: (Result<(), Error>, CoderState))
    decreases |input|
  {
    if input == [] then (Success(()), s)
    else
      var (r, s1) := RegisterSymbolAsWritten(s, input[0]);
      if r.Failure? then (r, s1) else UpdateVocabAsWritten(s1, input[1..])
  }

  /**
   * One turn of `update_vocab` with the intended guard: a new symbol whose
   * single-symbol codeword was already learned is only added to the
   * alphabet; otherwise as written.
   */
  function RegisterSymbol(s: CoderState, c: int): (r: (Result<(), Error>, CoderState))
  {
    if c in s.inputVocab then (Success(()), s)
    else if [c] in s.tokenMap.ends then (Success(()), s.(inputVocab := s.inputVocab + {c}))
    else if s.unused == {} then (Failure(NoUnusedTokens), s)
    else
      var s1 := Registered(s, c);
      if s.vocabSize > 0 && |s1.tokenMap.ends| >= s.vocabSize then (Failure(VocabOverflow), s1)
      else (Success(()), s1)
  }

  /** `update_vocab` with the intended guard, over the whole input. */
  function UpdateVocab(s: CoderState, input: seq<int>): (r: (Result<(), Error>, CoderState))
    decreases |input|
  {
    if input == [] then (Success(()), s)
    else
      var (r, s1) := RegisterSymbol(s, input[0]);
      if r.Failure? then (r, s1) else UpdateVocab(s1, input[1..])
  }

  /** Registering a symbol that is not yet a codeword under the smallest free id keeps the invariant. */
  lemma RegisterFreshSymbol(s: CoderState, c: int)
    requires Inv(s)
    requires [c] !in s.tokenMap.ends && s.unused != {}
    ensures Inv(Registered(s, c)) && Extends(s, Registered(s, c))
    ensures |Registered(s, c).tokenMap.ends| >= s.vocabSize <==> Registered(s, c).unused == {}
  {
    var t := Min(s.unused);
    assert [c][..0] == [];
    AddTokenKeepsInv(s, [c], t);
    var s0 := AddToken(s, [c], t);
    CapacityIffUnused(s0);
    InvIgnoresAlphabet(s0, s.inputVocab + {c});
  }

  /** Registering a symbol makes it and keeps every earlier symbol a codeword. */
  lemma RegisterFreshSymbolKnown(s: CoderState, c: int)
    requires AlphabetKnown(s) && s.unused != {}
    ensures AlphabetKnown(Registered(s, c))
  {
  }

  /** The invariant does not depend on the alphabet. */
  lemma InvIgnoresAlphabet(s: CoderState, alphabet: set<int>)
    requires Inv(s)
    ensures Inv(s.(inputVocab := alphabet))
  {
    var s1 := s.(inputVocab := alphabet);
    assert Inverse(s1) && IdsCovered(s1);
  }

  /**
   * Registering one symbol keeps the invariant, rebinds nothing, and fails
   * only because no id is left free.
   */
  lemma RegisterSymbolSpec(s: CoderState, c: int)
    requires Inv(s)
    ensures Inv(RegisterSymbol(s, c).1)
    ensures Extends(s, RegisterSymbol(s, c).1)
    ensures RegisterSymbol(s, c).0.Failure? ==>
      && RegisterSymbol(s, c).1.unused == {}
      && (RegisterSymbol(s, c).0.error == NoUnusedTokens || RegisterSymbol(s, c).0.error == VocabOverflow)
  {
    if c in s.inputVocab {
    } else if [c] in s.tokenMap.ends {
      InvIgnoresAlphabet(s, s.inputVocab + {c});
    } else if s.unused != {} {
      RegisterFreshSymbol(s, c);
      assert RegisterSymbol(s, c).1 == Registered(s, c);
    }
  }

  /** Registering one symbol keeps every known symbol a codeword, and makes the new one a codeword. */
  lemma RegisterSymbolKnown(s: CoderState, c: int)
    requires AlphabetKnown(s)
    ensures AlphabetKnown(RegisterSymbol(s, c).1)
  {
    if c !in s.inputVocab && [c] !in s.tokenMap.ends && s.unused != {} {
      RegisterFreshSymbolKnown(s, c);
    }
  }

  /**
   * `update_vocab` keeps the invariant, rebinds nothing, and fails only
   * once no id is free.
   */
  lemma {:induction false} UpdateVocabSpec(s: CoderState, input: seq<int>)
    requires Inv(s)
    ensures Inv(UpdateVocab(s, input).1)
    ensures Extends(s, UpdateVocab(s, input).1)
    ensures UpdateVocab(s, input).0.Failure? ==>
      && UpdateVocab(s, input).1.unused == {}
      && (UpdateVocab(s, input).0.error == NoUnusedTokens || UpdateVocab(s, input).0.error == VocabOverflow)
    decreases |input|
  {
    if input != [] {
      RegisterSymbolSpec(s, input[0]);
      var step := RegisterSymbol(s, input[0]);
      if step.0.Success? {
        UpdateVocabSpec(step.1, input[1..]);
        ExtendsTransitive(s, step.1, UpdateVocab(step.1, input[1..]).1);
      }
    }
  }

  /** `update_vocab` keeps every symbol of the alphabet a single-symbol codeword. */
  lemma {:induction false} UpdateVocabKnown(s: CoderState, input: seq<int>)
    requires AlphabetKnown(s)
    ensures AlphabetKnown(UpdateVocab(s, input).1)
    decreases |input|
  {
    if input != [] {
      RegisterSymbolKnown(s, input[0]);
      var step := RegisterSymbol(s, input[0]);
      if step.0.Success? {
        UpdateVocabKnown(step.1, input[1..]);
      }
    }
  }

  /** A successful `update_vocab` adds every input symbol to the alphabet and drops none. */
  lemma {:induction false} UpdateVocabRecords(s: CoderState, input: seq<int>)
    ensures s.inputVocab <= UpdateVocab(s, input).1.inputVocab
    ensures UpdateVocab(s, input).0.Success? ==>
      forall i | 0 <= i < |input| :: input[i] in UpdateVocab(s, input).1.inputVocab
    decreases |input|
  {
    if input != [] {
      var step := RegisterSymbol(s, input[0]);
      if step.0.Success? {
        UpdateVocabRecords(step.1, input[1..]);
        assert forall i | 1 <= i < |input| :: input[i] == input[1..][i - 1];
      }
    }
  }

  lemma KnownSymbol(s: CoderState, c: int)
    requires AlphabetKnown(s) && c in s.inputVocab
    ensures [c] in s.tokenMap.ends
  {
  }

  /** Inputs encode without learning once their symbols were registered by `update_vocab`. */
  lemma UpdateThenEncodeSucceeds(s: CoderState, input: seq<int>)
    requires Inv(s) && AlphabetKnown(s)
    requires UpdateVocab(s, input).0.Success?
    ensures EncodeFrom(UpdateVocab(s, input).1, input, false).0.Success?
  {
    UpdateVocabSpec(s, input);
    UpdateVocabKnown(s, input);
    UpdateVocabRecords(s, input);
    var s' := UpdateVocab(s, input).1;
    forall i | 0 <= i < |input| ensures [input[i]] in s'.tokenMap.ends {
      KnownSymbol(s', input[i]);
    }
    EncodeOverKnownSymbolsSucceeds(s', input, false);
  }

  /**
   * With the intended guard, `update_vocab` keeps every later encoding
   * decodable to its input, whatever was learned before it.
   */
  lemma UpdateVocabKeepsRoundTrip(s: CoderState, symbols: seq<int>, input: seq<int>, learn: bool)
    requires Inv(s)
    ensures RoundTrips(UpdateVocab(s, symbols).1, input, learn)
  {
    UpdateVocabSpec(s, symbols);
    EncodeRoundTrip(UpdateVocab(s, symbols).1, input, learn);
  }
}
