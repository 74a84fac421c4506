/**
 * The `BPE` tokenizer of src/bpe.py:49-161: `merges` lists, for every id
 * from 1 on, the pair it was made of (the alphabet symbols come first as
 * pairs `(0, x)`), `token_values` maps every id to the symbols it stands
 * for, and `input_vocab` maps every alphabet symbol to its id. Learning
 * repeatedly merges the most frequent adjacent pair into a new id;
 * encoding replays the learned merges in order; decoding expands every id.
 */
module Bpe {
  import opened Results
  import opened Errors
  import opened BpeMerge
  import opened VocabSets

  /** The fields of a `BPE` object as a value. */
  datatype BpeState = BpeState(merges: seq<Pair>, tokenValues: map<int, seq<int>>, inputVocab: map<int, int>)

  /** The ids `1 .. n`. */
  function IdsUpTo(n: int): set<int>
  {
    IdsBetween(1, n + 1)
  }

  /**
   * The state `learn` starts from (src/bpe.py:92-99): the `i`-th alphabet
   * symbol `x` is the merge `(0, x)`, gets id `i + 1`, and that id stands
   * for `x` alone.
   */
  function Seeded(alphabet: seq<int>): (r: BpeState)
    requires Distinct(alphabet)
  {
    BpeState(
      seq(|alphabet|, i requires 0 <= i < |alphabet| => (0, alphabet[i])),
      map j | j in IdsUpTo(|alphabet|) :: [alphabet[j - 1]],
      map i | 0 <= i < |alphabet| :: alphabet[i] := i + 1)
  }

  /** Every symbol looked up in `vocab`; a missing symbol is a `KeyError` (src/bpe.py:103, 140). */
  function ToIds(vocab: map<int, int>, tokens: seq<int>): Result<seq<int>, Error>
  {
    if forall i | 0 <= i < |tokens| :: tokens[i] in vocab
    then Success(seq(|tokens|, i requires 0 <= i < |tokens| && tokens[i] in vocab => vocab[tokens[i]]))
    else Failure(KeyNotFound)
  }

  /** One merge of `encode` (src/bpe.py:141-146): the alphabet's pairs `(0, x)` are skipped, the `i`-th merge makes id `i + 1`. */
  function ApplyMerge(tokens: seq<int>, m: Pair, i: int): seq<int>
  {
    if m.0 == 0 then tokens else Merged(tokens, m, i + 1)
  }

  /** The merges from position `i` on, in order. */
  function ApplyMerges(tokens: seq<int>, merges: seq<Pair>, i: nat): seq<int>
    requires i <= |merges|
    decreases |merges| - i
  {
    if i == |merges| then tokens else ApplyMerges(ApplyMerge(tokens, merges[i], i), merges, i + 1)
  }

  /** `BPE.encode` (src/bpe.py:129-147). */
  function Encoded(s: BpeState, tokens: seq<int>): (r: Result<seq<int>, Error>)
    ensures r.Failure? <==> exists i | 0 <= i < |tokens| :: tokens[i] !in s.inputVocab
    ensures r.Failure? ==> r.error == KeyNotFound
  {
    var ids := ToIds(s.inputVocab, tokens);
    if ids.Failure? then Failure(KeyNotFound) else Success(ApplyMerges(ids.value, s.merges, 0))
  }

  /** `BPE.decode` (src/bpe.py:150-161): every id's value, concatenated; an unknown id is a `KeyError`. */
  function Decoded(values: map<int, seq<int>>, tokens: seq<int>): (r: Result<seq<int>, Error>)
    ensures r.Failure? <==> exists i | 0 <= i < |tokens| :: tokens[i] !in values
  {
    if AllIn(tokens, values.Keys) then Success(Expand(values, tokens)) else Failure(TokenNotFound)
  }

  /**
   * The loop of `learn` (src/bpe.py:109-124): while fewer than
   * `maxVocab` merges are known and the most frequent pair occurs more than
   * once, it becomes the merge with the next id, whose value is the two
   * values concatenated.
   */
  function LearnLoop(s: BpeState, tokens: seq<int>, maxVocab: int): (BpeState, seq<int>)
    requires |tokens| >= 2 && AllIn(tokens, s.tokenValues.Keys)
    decreases maxVocab - |s.merges|
  {
    if |s.merges| >= maxVocab then (s, tokens)
    else
      var best := MostFrequent(Pairs(tokens));
      if Count(Pairs(tokens), best) == 1 then (s, tokens)
      else
        LearnStepPre(tokens, s.tokenValues.Keys);
        var t := |s.merges| + 1;
        MergedTokens(tokens, best, t, s.tokenValues.Keys + {t});
        MergedLength(tokens, best, t);
        LearnLoop(LearnStep(s, best), Merged(tokens, best, t), maxVocab)
  }

  /** One round of the learning loop, with what makes the next round well defined. */
  lemma LearnLoopUnfold(s: BpeState, tokens: seq<int>, maxVocab: int)
    requires |tokens| >= 2 && AllIn(tokens, s.tokenValues.Keys) && |s.merges| < maxVocab
    requires Count(Pairs(tokens), MostFrequent(Pairs(tokens))) != 1
    ensures var best := MostFrequent(Pairs(tokens));
      var t := |s.merges| + 1;
      && best.0 in s.tokenValues && best.1 in s.tokenValues
      && Count(Pairs(tokens), best) >= 2
      && |Merged(tokens, best, t)| >= 2 && AllIn(Merged(tokens, best, t), LearnStep(s, best).tokenValues.Keys)
      && LearnLoop(s, tokens, maxVocab) == LearnLoop(LearnStep(s, best), Merged(tokens, best, t), maxVocab)
  {
    var best := MostFrequent(Pairs(tokens));
    var t := |s.merges| + 1;
    LearnStepPre(tokens, s.tokenValues.Keys);
    MergedTokens(tokens, best, t, s.tokenValues.Keys + {t});
    MergedLength(tokens, best, t);
  }

  /** `LearnLoopUnfold` for a given merged list and next state. */
  lemma LearnRound(s: BpeState, tokens: seq<int>, maxVocab: int, merged: seq<int>, s1: BpeState)
    requires |tokens| >= 2 && AllIn(tokens, s.tokenValues.Keys) && |s.merges| < maxVocab
    requires Count(Pairs(tokens), MostFrequent(Pairs(tokens))) != 1
    requires merged == Merged(tokens, MostFrequent(Pairs(tokens)), |s.merges| + 1)
    requires var best := MostFrequent(Pairs(tokens));
      best.0 in s.tokenValues && best.1 in s.tokenValues && s1 == LearnStep(s, best)
    ensures |merged| >= 2 && AllIn(merged, s1.tokenValues.Keys)
    ensures LearnLoop(s, tokens, maxVocab) == LearnLoop(s1, merged, maxVocab)
  {
    LearnLoopUnfold(s, tokens, maxVocab);
  }

  /** The state after learning `best` as the next merge (src/bpe.py:118-124). */
  function LearnStep(s: BpeState, best: Pair): (r: BpeState)
    requires best.0 in s.tokenValues && best.1 in s.tokenValues
    ensures r.tokenValues.Keys == s.tokenValues.Keys + {|s.merges| + 1}
  {
    var t := |s.merges| + 1;
    s.(merges := s.merges + [best], tokenValues := s.tokenValues[t := s.tokenValues[best.0] + s.tokenValues[best.1]])
  }

  /**
   * What makes a learning step well defined: the most frequent pair is made
   * of two tokens of the list, and when it occurs more than once the list
   * has at least three tokens, so that the merged list still has two.
   */
  lemma LearnStepPre(tokens: seq<int>, keys: set<int>)
    requires |tokens| >= 2 && AllIn(tokens, keys)
    ensures var best := MostFrequent(Pairs(tokens));
      && best.0 in keys && best.1 in keys
      && Count(Pairs(tokens), best) >= 1
      && (Count(Pairs(tokens), best) != 1 ==> |tokens| >= 3)
  {
    var ps := Pairs(tokens);
    var k := MostFrequentMeaning(ps);
    assert ps[k] == (tokens[k], tokens[k + 1]);
    assert tokens[k] in keys && tokens[k + 1] in keys;
    CountPositive(ps, ps[k]);
    CountBound(ps, ps[k]);
  }

  /** `BPE.learn` (src/bpe.py:67-126) on an alphabet given in the order `list(input_vocab)` fixes. */
  function Learned(tokens: seq<int>, maxVocab: int, alphabet: seq<int>): (Result<seq<int>, Error>, BpeState)
    requires Distinct(alphabet)
  {
    var s0 := Seeded(alphabet);
    var ids := ToIds(s0.inputVocab, tokens);
    if ids.Failure? then (Failure(KeyNotFound), s0)
    else if |ids.value| < 2 then (Success(ids.value), s0)
    else
      SeededIdsKnown(alphabet, tokens);
      var (s, r) := LearnLoop(s0, ids.value, maxVocab);
      (Success(r), s)
  }

  /** The ids of known symbols are all ids of the seeded state. */
  lemma SeededIdsKnown(alphabet: seq<int>, tokens: seq<int>)
    requires Distinct(alphabet)
    requires ToIds(Seeded(alphabet).inputVocab, tokens).Success?
    ensures AllIn(ToIds(Seeded(alphabet).inputVocab, tokens).value, Seeded(alphabet).tokenValues.Keys)
  {
    var s0 := Seeded(alphabet);
    var ids := ToIds(s0.inputVocab, tokens).value;
    forall i | 0 <= i < |ids| ensures ids[i] in s0.tokenValues {
      var x := tokens[i];
      var j :| 0 <= j < |alphabet| && alphabet[j] == x;
      assert s0.inputVocab[alphabet[j]] == j + 1;
    }
  }

  /**
   * What a learned tokenizer looks like: the `i`-th merge makes id `i + 1`,
   * ids `1 .. |merges|` and no others have values, an alphabet pair
   * `(0, x)` stands for `x`, a learned pair joins two earlier ids and
   * stands for their values concatenated, and every alphabet symbol's id
   * stands for that symbol.
   */
  ghost predicate Valid(s: BpeState)
  {
    && s.tokenValues.Keys == IdsUpTo(|s.merges|)
    && (forall i | 0 <= i < |s.merges| :: MergeOk(s, i))
    && (forall x | x in s.inputVocab :: s.inputVocab[x] in s.tokenValues && s.tokenValues[s.inputVocab[x]] == [x])
  }

  /** The `i`-th merge and the value of the id it makes. */
  ghost predicate MergeOk(s: BpeState, i: int)
    requires 0 <= i < |s.merges|
  {
    var m := s.merges[i];
    && i + 1 in s.tokenValues
    && (m.0 == 0 ==> s.tokenValues[i + 1] == [m.1])
    && (m.0 != 0 ==>
          && m.0 in IdsUpTo(i) && m.1 in IdsUpTo(i) && m.0 in s.tokenValues && m.1 in s.tokenValues
          && s.tokenValues[i + 1] == s.tokenValues[m.0] + s.tokenValues[m.1])
  }

  /** The seeded state is a tokenizer: each symbol is its own token. */
  lemma SeededValid(alphabet: seq<int>)
    requires Distinct(alphabet)
    ensures Valid(Seeded(alphabet))
  {
    var s := Seeded(alphabet);
    forall i | 0 <= i < |s.merges| ensures MergeOk(s, i) {
      assert s.tokenValues[i + 1] == [alphabet[i]];
    }
    forall x | x in s.inputVocab ensures s.inputVocab[x] in s.tokenValues && s.tokenValues[s.inputVocab[x]] == [x] {
      var j :| 0 <= j < |alphabet| && alphabet[j] == x;
      assert s.inputVocab[alphabet[j]] == j + 1;
    }
  }

  /** A learning step keeps the tokenizer well formed. */
  lemma LearnStepValid(s: BpeState, best: Pair)
    requires Valid(s) && best.0 in s.tokenValues && best.1 in s.tokenValues
    ensures Valid(LearnStep(s, best))
  {
    var s1 := LearnStep(s, best);
    var n := |s.merges|;
    assert n + 1 !in s.tokenValues;
    forall i | 0 <= i < |s1.merges| ensures MergeOk(s1, i) {
      if i < n {
        assert MergeOk(s, i);
      }
    }
  }

  /** The learning loop keeps the tokenizer well formed. */
  lemma {:induction false} LearnLoopValid(s: BpeState, tokens: seq<int>, maxVocab: int)
    requires Valid(s) && |tokens| >= 2 && AllIn(tokens, s.tokenValues.Keys)
    ensures Valid(LearnLoop(s, tokens, maxVocab).0)
    decreases maxVocab - |s.merges|
  {
    if |s.merges| < maxVocab {
      var best := MostFrequent(Pairs(tokens));
      if Count(Pairs(tokens), best) != 1 {
        LearnLoopUnfold(s, tokens, maxVocab);
        var t := |s.merges| + 1;
        LearnStepValid(s, best);
        LearnLoopValid(LearnStep(s, best), Merged(tokens, best, t), maxVocab);
      }
    }
  }

  /** Giving a new id a value leaves the expansion of lists without it unchanged. */
  lemma {:induction false} ExpandExtend(values: map<int, seq<int>>, t: int, v: seq<int>, tokens: seq<int>)
    requires t !in values && AllIn(tokens, values.Keys)
    ensures AllIn(tokens, values[t := v].Keys)
    ensures Expand(values[t := v], tokens) == Expand(values, tokens)
    decreases |tokens|
  {
    if tokens != [] {
      ExpandExtend(values, t, v, tokens[1..]);
    }
  }

  /** The learning loop keeps what the token list stands for. */
  lemma {:induction false} LearnLoopExpands(s: BpeState, tokens: seq<int>, maxVocab: int)
    requires Valid(s) && |tokens| >= 2 && AllIn(tokens, s.tokenValues.Keys)
    ensures var (s1, r) := LearnLoop(s, tokens, maxVocab);
      AllIn(r, s1.tokenValues.Keys) && Expand(s1.tokenValues, r) == Expand(s.tokenValues, tokens)
    decreases maxVocab - |s.merges|
  {
    if |s.merges| < maxVocab {
      var best := MostFrequent(Pairs(tokens));
      if Count(Pairs(tokens), best) != 1 {
        LearnLoopUnfold(s, tokens, maxVocab);
        var t := |s.merges| + 1;
        var s1 := LearnStep(s, best);
        LearnStepValid(s, best);
        ExpandExtend(s.tokenValues, t, s.tokenValues[best.0] + s.tokenValues[best.1], tokens);
        MergedExpands(s1.tokenValues, tokens, best, t);
        LearnLoopExpands(s1, Merged(tokens, best, t), maxVocab);
      }
    }
  }

  /** One more merge at the end of the list is one more step of `encode`. */
  lemma {:induction false} ApplyMergesSnoc(tokens: seq<int>, merges: seq<Pair>, m: Pair, i: nat)
    requires i <= |merges|
    ensures ApplyMerges(tokens, merges + [m], i) == ApplyMerge(ApplyMerges(tokens, merges, i), m, |merges|)
    decreases |merges| - i
  {
    if i < |merges| {
      assert (merges + [m])[i] == merges[i];
      ApplyMergesSnoc(ApplyMerge(tokens, merges[i], i), merges, m, i + 1);
    } else {
      var t := ApplyMerges(tokens, merges + [m], i + 1);
      assert (merges + [m])[i] == m;
    }
  }

  /** The learning loop emits what `encode` makes of the same input with the merges it learned. */
  lemma {:induction false} LearnLoopEncodes(s: BpeState, ids: seq<int>, tokens: seq<int>, maxVocab: int)
    requires Valid(s) && |tokens| >= 2 && AllIn(tokens, s.tokenValues.Keys)
    requires tokens == ApplyMerges(ids, s.merges, 0)
    ensures var (s1, r) := LearnLoop(s, tokens, maxVocab); r == ApplyMerges(ids, s1.merges, 0)
    decreases maxVocab - |s.merges|
  {
    if |s.merges| < maxVocab {
      var best := MostFrequent(Pairs(tokens));
      if Count(Pairs(tokens), best) != 1 {
        LearnLoopUnfold(s, tokens, maxVocab);
        var t := |s.merges| + 1;
        var s1 := LearnStep(s, best);
        LearnStepValid(s, best);
        ApplyMergesSnoc(ids, s.merges, best, 0);
        assert best.0 != 0;
        LearnLoopEncodes(s1, ids, Merged(tokens, best, t), maxVocab);
      }
    }
  }

  /** The learning loop stops at the bound or when no pair occurs twice. */
  lemma {:induction false} LearnLoopStops(s: BpeState, tokens: seq<int>, maxVocab: int)
    requires |tokens| >= 2 && AllIn(tokens, s.tokenValues.Keys)
    ensures var (s1, r) := LearnLoop(s, tokens, maxVocab);
      |s1.merges| >= maxVocab || forall j | 0 <= j < |Pairs(r)| :: Count(Pairs(r), Pairs(r)[j]) <= 1
    decreases maxVocab - |s.merges|
  {
    if |s.merges| < maxVocab {
      var ps := Pairs(tokens);
      var best := MostFrequent(ps);
      if Count(ps, best) != 1 {
        LearnLoopUnfold(s, tokens, maxVocab);
        var t := |s.merges| + 1;
        LearnLoopStops(LearnStep(s, best), Merged(tokens, best, t), maxVocab);
      } else {
        var k := MostFrequentMeaning(ps);
      }
    }
  }

  /**
   * The learning loop adds merges only below the bound, and each merge it
   * adds shortens the token list by at least one.
   */
  lemma {:induction false} LearnLoopBounds(s: BpeState, tokens: seq<int>, maxVocab: int)
    requires |tokens| >= 2 && AllIn(tokens, s.tokenValues.Keys)
    ensures var (s1, r) := LearnLoop(s, tokens, maxVocab);
      && |s.merges| <= |s1.merges|
      && (|s1.merges| <= maxVocab || s1 == s)
      && |r| + (|s1.merges| - |s.merges|) <= |tokens|
    decreases maxVocab - |s.merges|
  {
    if |s.merges| < maxVocab {
      var ps := Pairs(tokens);
      var best := MostFrequent(ps);
      if Count(ps, best) != 1 {
        LearnLoopUnfold(s, tokens, maxVocab);
        var t := |s.merges| + 1;
        MergedLength(tokens, best, t);
        CountPositive(ps, best);
        LearnLoopBounds(LearnStep(s, best), Merged(tokens, best, t), maxVocab);
      }
    }
  }

  /** The alphabet's merges do nothing in `encode`. */
  lemma {:induction false} ApplySeeds(tokens: seq<int>, merges: seq<Pair>, i: nat)
    requires i <= |merges| && forall j | 0 <= j < |merges| :: merges[j].0 == 0
    ensures ApplyMerges(tokens, merges, i) == tokens
    decreases |merges| - i
  {
    if i < |merges| {
      ApplySeeds(tokens, merges, i + 1);
    }
  }

  /** Replaying well-formed merges keeps what the token list stands for. */
  lemma {:induction false} ApplyMergesExpands(s: BpeState, tokens: seq<int>, i: nat)
    requires Valid(s) && i <= |s.merges| && AllIn(tokens, s.tokenValues.Keys)
    ensures AllIn(ApplyMerges(tokens, s.merges, i), s.tokenValues.Keys)
    ensures Expand(s.tokenValues, ApplyMerges(tokens, s.merges, i)) == Expand(s.tokenValues, tokens)
    decreases |s.merges| - i
  {
    if i < |s.merges| {
      assert MergeOk(s, i);
      var m := s.merges[i];
      if m.0 != 0 {
        MergedExpands(s.tokenValues, tokens, m, i + 1);
      }
      ApplyMergesExpands(s, ApplyMerge(tokens, m, i), i + 1);
    }
  }

  /** Ids that each stand for one symbol expand to those symbols. */
  lemma {:induction false} ExpandSymbols(values: map<int, seq<int>>, ids: seq<int>, symbols: seq<int>)
    requires |ids| == |symbols|
    requires forall i | 0 <= i < |ids| :: ids[i] in values && values[ids[i]] == [symbols[i]]
    ensures AllIn(ids, values.Keys) && Expand(values, ids) == symbols
    decreases |ids|
  {
    if ids != [] {
      ExpandSymbols(values, ids[1..], symbols[1..]);
      assert symbols == [symbols[0]] + symbols[1..];
    }
  }

  /** An alphabet symbol's id stands for the symbol. */
  lemma ValidSymbol(s: BpeState, x: int)
    requires Valid(s) && x in s.inputVocab
    ensures s.inputVocab[x] in s.tokenValues && s.tokenValues[s.inputVocab[x]] == [x]
  {
  }

  /** The ids of the input symbols stand for the input. */
  lemma IdsExpand(s: BpeState, tokens: seq<int>)
    requires Valid(s) && ToIds(s.inputVocab, tokens).Success?
    ensures AllIn(ToIds(s.inputVocab, tokens).value, s.tokenValues.Keys)
    ensures Expand(s.tokenValues, ToIds(s.inputVocab, tokens).value) == tokens
  {
    var ids := ToIds(s.inputVocab, tokens).value;
    forall i | 0 <= i < |ids| ensures ids[i] in s.tokenValues && s.tokenValues[ids[i]] == [tokens[i]] {
      assert tokens[i] in s.inputVocab;
      assert ids[i] == s.inputVocab[tokens[i]];
      ValidSymbol(s, tokens[i]);
    }
    ExpandSymbols(s.tokenValues, ids, tokens);
  }

  /** On a well-formed tokenizer `decode` (src/bpe.py:150-161) undoes `encode` (src/bpe.py:129-147). */
  lemma EncodeRoundTrip(s: BpeState, tokens: seq<int>)
    requires Valid(s) && Encoded(s, tokens).Success?
    ensures Decoded(s.tokenValues, Encoded(s, tokens).value) == Success(tokens)
  {
    var ids := ToIds(s.inputVocab, tokens).value;
    IdsExpand(s, tokens);
    ApplyMergesExpands(s, ids, 0);
  }

  /** `learn` fails exactly when the input holds a symbol outside the alphabet, and leaves a well-formed tokenizer. */
  lemma LearnValid(tokens: seq<int>, maxVocab: int, alphabet: seq<int>)
    requires Distinct(alphabet)
    ensures Learned(tokens, maxVocab, alphabet).0.Failure? <==> exists i | 0 <= i < |tokens| :: tokens[i] !in alphabet
    ensures Valid(Learned(tokens, maxVocab, alphabet).1)
  {
    var s0 := Seeded(alphabet);
    SeededValid(alphabet);
    var ids := ToIds(s0.inputVocab, tokens);
    if ids.Success? && |ids.value| >= 2 {
      SeededIdsKnown(alphabet, tokens);
      LearnLoopValid(s0, ids.value, maxVocab);
    }
  }

  /** The tokens `learn` emits decode, with the learned values, to its input. */
  lemma LearnRoundTrip(tokens: seq<int>, maxVocab: int, alphabet: seq<int>)
    requires Distinct(alphabet)
    ensures var (r, s) := Learned(tokens, maxVocab, alphabet);
      r.Success? ==> Decoded(s.tokenValues, r.value) == Success(tokens)
  {
    var s0 := Seeded(alphabet);
    SeededValid(alphabet);
    var ids := ToIds(s0.inputVocab, tokens);
    if ids.Success? {
      IdsExpand(s0, tokens);
      if |ids.value| >= 2 {
        LearnLoopExpands(s0, ids.value, maxVocab);
      }
    }
  }

  /** The tokens `learn` emits are what the learned tokenizer's `encode` makes of the same input. */
  lemma LearnMatchesEncode(tokens: seq<int>, maxVocab: int, alphabet: seq<int>)
    requires Distinct(alphabet)
    ensures var (r, s) := Learned(tokens, maxVocab, alphabet); r == Encoded(s, tokens)
  {
    var s0 := Seeded(alphabet);
    SeededValid(alphabet);
    var ids := ToIds(s0.inputVocab, tokens);
    if ids.Success? {
      ApplySeeds(ids.value, s0.merges, 0);
      if |ids.value| >= 2 {
        SeededIdsKnown(alphabet, tokens);
        LearnLoopEncodes(s0, ids.value, ids.value, maxVocab);
        var (s, r) := LearnLoop(s0, ids.value, maxVocab);
        assert s.inputVocab == s0.inputVocab by {
          LearnLoopKeepsVocab(s0, ids.value, maxVocab);
        }
      }
    }
  }

  /** Learning never changes the alphabet's ids. */
  lemma {:induction false} LearnLoopKeepsVocab(s: BpeState, tokens: seq<int>, maxVocab: int)
    requires |tokens| >= 2 && AllIn(tokens, s.tokenValues.Keys)
    ensures LearnLoop(s, tokens, maxVocab).0.inputVocab == s.inputVocab
    decreases maxVocab - |s.merges|
  {
    if |s.merges| < maxVocab {
      var best := MostFrequent(Pairs(tokens));
      if Count(Pairs(tokens), best) != 1 {
        LearnLoopUnfold(s, tokens, maxVocab);
        var t := |s.merges| + 1;
        LearnLoopKeepsVocab(LearnStep(s, best), Merged(tokens, best, t), maxVocab);
      }
    }
  }

  /**
   * `learn` stops only when the vocabulary has reached `max_output_vocab`
   * or no adjacent pair of the output occurs twice (src/bpe.py:109-116).
   */
  lemma LearnStops(tokens: seq<int>, maxVocab: int, alphabet: seq<int>)
    requires Distinct(alphabet)
    ensures var (r, s) := Learned(tokens, maxVocab, alphabet);
      r.Success? ==> |s.merges| >= maxVocab || forall j | 0 <= j < |Pairs(r.value)| :: Count(Pairs(r.value), Pairs(r.value)[j]) <= 1
  {
    var s0 := Seeded(alphabet);
    var ids := ToIds(s0.inputVocab, tokens);
    if ids.Success? && |ids.value| >= 2 {
      SeededIdsKnown(alphabet, tokens);
      LearnLoopStops(s0, ids.value, maxVocab);
    }
  }

  /**
   * `learn` starts from one merge per alphabet symbol, adds merges only
   * while fewer than `max_output_vocab` are known (src/bpe.py:109), and
   * each merge it adds saves at least one token of output.
   */
  lemma LearnBounds(tokens: seq<int>, maxVocab: int, alphabet: seq<int>)
    requires Distinct(alphabet)
    ensures var (r, s) := Learned(tokens, maxVocab, alphabet);
      && |alphabet| <= |s.merges|
      && (|s.merges| <= maxVocab || |s.merges| == |alphabet|)
      && (r.Success? ==> |r.value| + (|s.merges| - |alphabet|) <= |tokens|)
  {
    var s0 := Seeded(alphabet);
    var ids := ToIds(s0.inputVocab, tokens);
    if ids.Success? && |ids.value| >= 2 {
      SeededIdsKnown(alphabet, tokens);
      LearnLoopBounds(s0, ids.value, maxVocab);
    }
  }

  /**
   * The pair `learn` picks and its count (src/bpe.py:111-115): the pair
   * counts, then the pair `max(stats, key=stats.get)` names.
   */
  method MostFrequentPair(tokens: seq<int>) returns (best: Pair, count: nat)
    requires |tokens| >= 2
    ensures best == MostFrequent(Pairs(tokens)) && count == Count(Pairs(tokens), best)
    ensures count >= 1
  {
    var stats := GetStats(tokens);
    best := MostFrequent(Pairs(tokens));
    var k := MostFrequentMeaning(Pairs(tokens));
    CountPositive(Pairs(tokens), best);
    count := stats[best];
  }

  /** `BPE` (src/bpe.py:49-161): the tables are fields that `learn` rebuilds. */
  class BPE {
    var merges: seq<Pair>
    var tokenValues: map<int, seq<int>>
    var inputVocab: map<int, int>

    /** The fields as a value of the model. */
    function State(): BpeState
      reads this
    {
      BpeState(merges, tokenValues, inputVocab)
    }

    /** `BPE.__init__` (src/bpe.py:61-64). */
    constructor (m: seq<Pair>, values: map<int, seq<int>>, vocab: map<int, int>)
      ensures State() == BpeState(m, values, vocab)
    {
      merges := m;
      tokenValues := values;
      inputVocab := vocab;
    }

    /**
     * `BPE.learn` (src/bpe.py:67-126). The tables are first reset to the
     * seeded ones, and the symbols are looked up in the seeded ids, which
     * is what `inverse_token_values[(token,)]` holds for a symbol.
     */
    method Learn(tokens: seq<int>, maxVocab: int, alphabet: seq<int>) returns (r: Result<seq<int>, Error>)
      requires Distinct(alphabet)
      modifies this
      ensures (r, State()) == Learned(tokens, maxVocab, alphabet)
    {
      var s0 := Seeded(alphabet);
      merges, tokenValues, inputVocab := s0.merges, s0.tokenValues, s0.inputVocab;
      var ids := ToIds(inputVocab, tokens);
      if ids.Failure? {
        return Failure(KeyNotFound);
      }
      var cur := ids.value;
      if |cur| < 2 {
        return Success(cur);
      }
      SeededIdsKnown(alphabet, tokens);
      cur := LearnMerges(cur, maxVocab);
      return Success(cur);
    }

    /** The loop of `learn` (src/bpe.py:109-124). */
    method LearnMerges(tokens: seq<int>, maxVocab: int) returns (r: seq<int>)
      requires |tokens| >= 2 && AllIn(tokens, tokenValues.Keys)
      modifies this
      ensures (State(), r) == LearnLoop(old(State()), tokens, maxVocab)
    {
      r := tokens;
      while |merges| < maxVocab
        invariant |r| >= 2 && AllIn(r, tokenValues.Keys)
        invariant LearnLoop(State(), r, maxVocab) == LearnLoop(old(State()), tokens, maxVocab)
        decreases maxVocab - |merges|
      {
        var stop;
        stop, r := MergeMostFrequent(r, maxVocab);
        if stop {
          break;
        }
      }
    }

    /**
     * One round of the loop of `learn` (src/bpe.py:111-124): it stops when
     * the most frequent pair occurs once, and otherwise merges it into the
     * next id.
     */
    method MergeMostFrequent(tokens: seq<int>, maxVocab: int) returns (stop: bool, r: seq<int>)
      requires |tokens| >= 2 && AllIn(tokens, tokenValues.Keys) && |merges| < maxVocab
      modifies this
      ensures |r| >= 2 && AllIn(r, tokenValues.Keys)
      ensures LearnLoop(State(), r, maxVocab) == LearnLoop(old(State()), tokens, maxVocab)
      ensures stop ==> LearnLoop(State(), r, maxVocab) == (State(), r)
      ensures !stop ==> |merges| == old(|merges|) + 1
    {
      var best, count := MostFrequentPair(tokens);
      if count == 1 {
        return true, tokens;
      }
      LearnLoopUnfold(State(), tokens, maxVocab);
      var merged := MergePairs(tokens, best, |merges| + 1);
      var next := LearnStep(State(), best);
      LearnRound(State(), tokens, maxVocab, merged, next);
      merges, tokenValues := next.merges, next.tokenValues;
      return false, merged;
    }

    /**
     * `BPE.encode` (src/bpe.py:129-147). On a well-formed tokenizer the
     * output decodes to the input.
     */
    method Encode(tokens: seq<int>) returns (r: Result<seq<int>, Error>)
      ensures r == Encoded(State(), tokens)
      ensures Valid(State()) && r.Success? ==> Decoded(tokenValues, r.value) == Success(tokens)
    {
      if Valid(State()) && Encoded(State(), tokens).Success? {
        EncodeRoundTrip(State(), tokens);
      }
      var ids := ToIds(inputVocab, tokens);
      if ids.Failure? {
        return Failure(KeyNotFound);
      }
      var cur := ids.value;
      var i := 0;
      while i < |merges|
        invariant 0 <= i <= |merges|
        invariant ApplyMerges(cur, merges, i) == ApplyMerges(ids.value, merges, 0)
      {
        var pair := merges[i];
        if pair.0 != 0 {
          cur := MergePairs(cur, pair, i + 1);
        }
        i := i + 1;
      }
      return Success(cur);
    }

    /** `BPE.decode` (src/bpe.py:150-161). */
    function Decode(tokens: seq<int>): Result<seq<int>, Error>
      reads this
    {
      Decoded(tokenValues, tokens)
    }
  }
}
