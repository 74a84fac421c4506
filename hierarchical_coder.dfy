/**
 * The class `HierarchicalLZCoder` (src/lz.hpp:178-193, src/lz.cpp:367-497):
 * the bound and the map from contexts to coders are fields that its methods
 * update in place. The per-context coders are held by value in the map, as
 * `std::map<TokenType, LZCoder>` holds them; the loops of the class itself
 * (encoding, counting recommendations, picking the id, decoding) are loops
 * here, each proved against the value model of module `HierarchicalState`.
 */
module HierarchicalCoders {
  import opened VocabSets
  import opened Errors
  import opened Results
  import opened LZState
  import opened HierarchicalState
  import LZCoders

  /** The result of encoding the rest of the input, after `ids` were already emitted. */
  function HPrefixed(ids: seq<int>, rest: (Result<seq<int>, Error>, HCoderState)): (Result<seq<int>, Error>, HCoderState)
  {
    (if rest.0.Success? then Success(ids + rest.0.value) else rest.0, rest.1)
  }

  /** One step of the encoding loop: the emitted id moves from the rest of the encoding to the ids already emitted. */
  lemma PrefixedStep(h: HCoderState, input: seq<int>, ctx: int, learn: bool, encoded: seq<int>,
                     prefix: seq<int>, token: int, h1: HCoderState)
    requires input != [] && HStep(h, input, ctx, learn) == (Success((prefix, token)), h1)
    requires prefix != [] || (ctx != EMPTY_TOKEN && token == EMPTY_TOKEN)
    ensures HPrefixed(encoded + [token], HEncodeFrom(h1, input[|prefix|..], token, learn)) ==
      HPrefixed(encoded, HEncodeFrom(h, input, ctx, learn))
  {
    HEncodeFromUnfold(h, input, ctx, learn);
    var step := HStep(h, input, ctx, learn).0;
    assert step.value == (prefix, token);
    assert (if prefix == [] then EMPTY_TOKEN else token) == token;
    var rest := HEncodeFrom(h1, input[|prefix|..], token, learn);
    assert HEncodeFrom(h, input, ctx, learn) == (if rest.0.Success? then Success([token] + rest.0.value) else rest.0, rest.1);
    PrefixedCons(encoded, token, rest);
  }

  /** Emitting `token` before the rest of the encoding is the same as appending it to the ids already emitted. */
  lemma PrefixedCons(encoded: seq<int>, token: int, rest: (Result<seq<int>, Error>, HCoderState))
    ensures HPrefixed(encoded + [token], rest) ==
      HPrefixed(encoded, (if rest.0.Success? then Success([token] + rest.0.value) else rest.0, rest.1))
  {
    if rest.0.Success? {
      assert encoded + ([token] + rest.0.value) == (encoded + [token]) + rest.0.value;
    }
  }

  /** The selection loop of src/lz.cpp:466-474, over `symbol_counts` in ascending id order. */
  method Arbitrate(counts: map<int, nat>, unused: set<int>, proposed: int) returns (best: int)
    ensures best == ArbitrateFrom(counts, unused, counts.Keys, proposed, 0)
  {
    best := proposed;
    var bestCount: nat := 0;
    var pending := counts.Keys;
    while pending != {}
      invariant ArbitrateFrom(counts, unused, pending, best, bestCount) == ArbitrateFrom(counts, unused, counts.Keys, proposed, 0)
      decreases pending
    {
      var k := Min(pending);
      if CountOf(counts, k) > bestCount && k in unused {
        best := k;
        bestCount := CountOf(counts, k);
      }
      pending := pending - {k};
    }
  }

  class HierarchicalLZCoder {
    var vocabSize: int
    var coders: map<int, CoderState>

    /** The fields as a value of the model. */
    function State(): HCoderState
      reads this
    {
      HCoderState(vocabSize, coders)
    }

    /**
     * `HierarchicalLZCoder::HierarchicalLZCoder` (src/lz.cpp:372-381) once
     * the size check has passed: the root context gets a coder over the
     * whole alphabet.
     */
    constructor (n: int, alphabet: set<int>)
      requires !(alphabet != {} && n >= 0 && |alphabet| > n)
      ensures State() == HNew(n, alphabet).value
    {
      var root := new LZCoders.LZCoder(n, alphabet);
      vocabSize := n;
      coders := map[EMPTY_TOKEN := root.State()];
    }

    /** The constructor with its size check (src/lz.cpp:375-377): a non-empty alphabet larger than a non-negative bound is refused; a negative bound, cast to `size_t`, never is. */
    static method New(n: int, alphabet: set<int>) returns (r: Result<HierarchicalLZCoder, Error>)
      ensures r.Failure? <==> HNew(n, alphabet).Failure?
      ensures r.Failure? ==> r.error == VocabTooLarge
      ensures r.Success? ==> fresh(r.value) && r.value.State() == HNew(n, alphabet).value
    {
      if alphabet != {} && n >= 0 && |alphabet| > n {
        return Failure(VocabTooLarge);
      }
      var coder := new HierarchicalLZCoder(n, alphabet);
      return Success(coder);
    }

    /** `HierarchicalLZCoder::update_vocab` (src/lz.cpp:387-389): the root coder learns the symbols. */
    method UpdateVocab(symbols: seq<int>) returns (r: Result<(), Error>)
      requires EMPTY_TOKEN in coders
      modifies this
      ensures (r, State()) == HUpdateVocab(old(State()), symbols)
      ensures HInv(old(State())) ==> HInv(State()) && HExtends(old(State()), State())
    {
      if HInv(State()) {
        HUpdateVocabSpec(State(), symbols);
        HUpdateVocabExtends(State(), symbols);
      }
      var (res, root) := LZState.UpdateVocab(coders[EMPTY_TOKEN], symbols);
      coders := coders[EMPTY_TOKEN := root];
      return res;
    }

    /** The counting loop of src/lz.cpp:453-464: for each other context in ascending order, its registered proposal gains a vote. */
    method Tally(ctx: int, input: seq<int>, learn: bool, proposed: int) returns (counts: map<int, nat>)
      ensures counts == TallyFrom(coders, ctx, input, learn, coders.Keys, map[proposed := 0])
    {
      counts := map[proposed := 0];
      var pending := coders.Keys;
      while pending != {}
        invariant pending <= coders.Keys
        invariant TallyFrom(coders, ctx, input, learn, pending, counts) ==
          TallyFrom(coders, ctx, input, learn, coders.Keys, map[proposed := 0])
        decreases pending
      {
        var other := Min(pending);
        if other != ctx {
          var (_, token) := Propose(coders[other], input, learn);
          if token in coders[other].encodedVocab {
            counts := counts[token := CountOf(counts, token) + 1];
          }
        }
        pending := pending - {other};
      }
    }

    /**
     * `HierarchicalLZCoder::encode_one_token` with a context
     * (src/lz.cpp:422-478). Under the invariant it fails only for a missing
     * context without learning, and otherwise keeps the invariant and
     * binds the emitted id to the consumed prefix (`HStepMeaning`).
     */
    method EncodeOneToken(input: seq<int>, ctx: int, learn: bool) returns (r: Result<(seq<int>, int), Error>)
      modifies this
      ensures (r, State()) == HStep(old(State()), input, ctx, learn)
    {
      if input == [] {
        return Success(([], EMPTY_TOKEN));
      }
      if ctx !in coders {
        if !learn {
          return Failure(ContextNotFound);
        }
        coders := coders[ctx := NewCoder(vocabSize, {}).value];
      }
      var c := coders[ctx];
      var (prefix, token) := Propose(c, input, learn);
      if token in c.encodedVocab {
        return Success((prefix, token));
      }
      if !learn {
        return Failure(NewTokenWithoutLearning);
      }
      if c.unused == {} {
        return Failure(NoUnusedTokens);
      }
      var proposed := Min(c.unused);
      var counts := Tally(ctx, input, learn, proposed);
      var best := Arbitrate(counts, c.unused, proposed);
      coders := coders[ctx := AddToken(c, prefix, best)];
      return Success((prefix, best));
    }

    /** `HierarchicalLZCoder::encode_one_token` without a context (src/lz.cpp:413-416): the root context. */
    method EncodeOneTokenAtRoot(input: seq<int>, learn: bool) returns (r: Result<(seq<int>, int), Error>)
      modifies this
      ensures (r, State()) == HStep(old(State()), input, EMPTY_TOKEN, learn)
    {
      r := EncodeOneToken(input, EMPTY_TOKEN, learn);
    }

    /**
     * `HierarchicalLZCoder::encode` (src/lz.cpp:395-408): each step in the
     * context of the id emitted before. On a coder that keeps the invariant
     * the emitted ids decode, with the coders afterwards, to the input.
     */
    method Encode(input: seq<int>, learn: bool) returns (r: Result<seq<int>, Error>)
      modifies this
      ensures (r, State()) == HEncodeFrom(old(State()), input, EMPTY_TOKEN, learn)
      ensures HInv(old(State())) ==> HInv(State()) && HExtends(old(State()), State())
      ensures HInv(old(State())) && r.Success? ==> HDecodeFrom(coders, EMPTY_TOKEN, r.value) == Success(input)
    {
      ghost var h0 := State();
      r := EncodeSteps(input, learn);
      if HInv(h0) {
        HEncodeKeepsInv(h0, input, EMPTY_TOKEN, learn);
        HEncodeRoundTrip(h0, input, EMPTY_TOKEN, learn);
      }
    }

    /** The loop of src/lz.cpp:399-405. */
    method EncodeSteps(input: seq<int>, learn: bool) returns (r: Result<seq<int>, Error>)
      modifies this
      ensures (r, State()) == HEncodeFrom(old(State()), input, EMPTY_TOKEN, learn)
    {
      ghost var h0 := State();
      var encoded: seq<int> := [];
      var context := EMPTY_TOKEN;
      var remaining := input;
      ghost var all := HEncodeFrom(h0, input, EMPTY_TOKEN, learn);
      if all.0.Success? {
        assert [] + all.0.value == all.0.value;
      }
      while remaining != []
        invariant HPrefixed(encoded, HEncodeFrom(State(), remaining, context, learn)) == all
        decreases |remaining|, if context == EMPTY_TOKEN then 0 else 1
      {
        ghost var before := State();
        var step := EncodeOneToken(remaining, context, learn);
        if step.Failure? {
          return Failure(step.error);
        }
        var (prefix, token) := step.value;
        if prefix == [] && (context == EMPTY_TOKEN || token != EMPTY_TOKEN) {
          return Failure(NoProgress);
        }
        PrefixedStep(before, remaining, context, learn, encoded, prefix, token, State());
        encoded := encoded + [token];
        context := token;
        remaining := remaining[|prefix|..];
      }
      assert encoded + [] == encoded;
      return Success(encoded);
    }

    /** `HierarchicalLZCoder::decode` (src/lz.cpp:484-497): each id looked up in the context set by the id before it. */
    method Decode(ids: seq<int>) returns (r: Result<seq<int>, Error>)
      ensures r == HDecodeFrom(coders, EMPTY_TOKEN, ids)
    {
      var decoded: seq<int> := [];
      var context := EMPTY_TOKEN;
      var i := 0;
      if HDecodeFrom(coders, EMPTY_TOKEN, ids).Success? {
        assert [] + HDecodeFrom(coders, EMPTY_TOKEN, ids).value == HDecodeFrom(coders, EMPTY_TOKEN, ids).value;
      }
      while i < |ids|
        invariant 0 <= i <= |ids|
        invariant var rest := HDecodeFrom(coders, context, ids[i..]);
          (if rest.Success? then Success(decoded + rest.value) else rest) == HDecodeFrom(coders, EMPTY_TOKEN, ids)
      {
        assert ids[i..][1..] == ids[i + 1..];
        if context !in coders {
          return Failure(ContextNotFound);
        }
        var token := ids[i];
        if token !in coders[context].encodedVocab {
          return Failure(TokenNotFound);
        }
        var piece := coders[context].encodedVocab[token];
        ghost var rest := HDecodeFrom(coders, token, ids[i + 1..]);
        if rest.Success? {
          assert decoded + (piece + rest.value) == (decoded + piece) + rest.value;
        }
        decoded := decoded + piece;
        context := token;
        i := i + 1;
      }
      assert decoded + [] == decoded;
      return Success(decoded);
    }
  }
}
