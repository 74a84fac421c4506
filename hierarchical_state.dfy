/**
 * The state of a `HierarchicalLZCoder` (src/lz.hpp:178-193) as a value and
 * its operations as functions (src/lz.cpp:367-497): one `LZCoder` per
 * context, the context being the id emitted just before; a coder for a new
 * context is created on demand, and a new id for a context is chosen by
 * asking the other contexts' coders which id they would emit.
 */
module HierarchicalState {
  import opened VocabSets
  import opened Errors
  import opened Results
  import opened Tries
  import opened LZState

  /** `vocabSize` is the bound `output_vocab_size` itself; `coders` maps each context to its coder. */
  datatype HCoderState = HCoderState(vocabSize: int, coders: map<int, CoderState>)

  /**
   * The invariant of a bounded hierarchical coder: the root context exists
   * and every coder keeps the `LZCoder` invariant with the common bound.
   */
  ghost predicate HInv(h: HCoderState)
  {
    && h.vocabSize > 0
    && EMPTY_TOKEN in h.coders
    && forall ctx | ctx in h.coders :: CoderOk(h.coders[ctx], h.vocabSize)
  }

  /** One context's coder keeps the `LZCoder` invariant, knows its alphabet and has the common bound. */
  ghost predicate CoderOk(c: CoderState, n: int)
  {
    Inv(c) && AlphabetKnown(c) && c.vocabSize == n + 1
  }

  /** Every context keeps its coder, and every coder only gains bindings. */
  ghost predicate HExtends(h: HCoderState, h': HCoderState)
  {
    && h'.vocabSize == h.vocabSize
    && forall ctx | ctx in h.coders :: ctx in h'.coders && Extends(h.coders[ctx], h'.coders[ctx])
  }

  lemma HExtendsTransitive(h0: HCoderState, h1: HCoderState, h2: HCoderState)
    requires HExtends(h0, h1) && HExtends(h1, h2)
    ensures HExtends(h0, h2)
  {
    forall ctx | ctx in h0.coders ensures ctx in h2.coders && Extends(h0.coders[ctx], h2.coders[ctx]) {
      ExtendsTransitive(h0.coders[ctx], h1.coders[ctx], h2.coders[ctx]);
    }
  }

  /**
   * `HierarchicalLZCoder::HierarchicalLZCoder` (src/lz.cpp:372-381): a
   * non-empty alphabet larger than the bound is refused. The bound is
   * compared as a `size_t`, so a negative bound is never exceeded and
   * yields an unbounded root. Otherwise the root context gets an `LZCoder`
   * over the whole alphabet.
   */
  function HNew(n: int, alphabet: set<int>): (r: Result<HCoderState, Error>)
    ensures r.Failure? <==> alphabet != {} && n >= 0 && |alphabet| > n
    ensures r.Failure? ==> r.error == VocabTooLarge
    ensures r.Success? ==> r.value.coders.Keys == {EMPTY_TOKEN} && r.value.coders[EMPTY_TOKEN].inputVocab == alphabet
  {
    if alphabet != {} && n >= 0 && |alphabet| > n then Failure(VocabTooLarge)
    else Success(HCoderState(n, map[EMPTY_TOKEN := NewCoder(n, alphabet).value]))
  }

  /** A new bounded hierarchical coder keeps the invariant. */
  lemma HNewValid(n: int, alphabet: set<int>)
    requires n > 0 && |alphabet| <= n
    ensures HNew(n, alphabet).Success? && HInv(HNew(n, alphabet).value)
  {
    NewCoderValid(n, alphabet);
  }

  /** `HierarchicalLZCoder::update_vocab` (src/lz.cpp:387-389): the root coder's `update_vocab`. */
  function HUpdateVocab(h: HCoderState, symbols: seq<int>): (r: (Result<(), Error>, HCoderState))
    requires EMPTY_TOKEN in h.coders
    ensures r.1.vocabSize == h.vocabSize && r.1.coders.Keys == h.coders.Keys
    ensures r.1.coders[EMPTY_TOKEN] == UpdateVocab(h.coders[EMPTY_TOKEN], symbols).1
    ensures forall c | c in h.coders && c != EMPTY_TOKEN :: r.1.coders[c] == h.coders[c]
  {
    var (res, root) := UpdateVocab(h.coders[EMPTY_TOKEN], symbols);
    (res, h.(coders := h.coders[EMPTY_TOKEN := root]))
  }

  /** `update_vocab` keeps the invariant. */
  lemma HUpdateVocabSpec(h: HCoderState, symbols: seq<int>)
    requires HInv(h)
    ensures HInv(HUpdateVocab(h, symbols).1)
  {
    var root := h.coders[EMPTY_TOKEN];
    UpdateVocabSpec(root, symbols);
    UpdateVocabKnown(root, symbols);
    ReplaceCoderValid(h, EMPTY_TOKEN, UpdateVocab(root, symbols).1);
  }

  /** `update_vocab` rebinds nothing. */
  lemma HUpdateVocabExtends(h: HCoderState, symbols: seq<int>)
    requires HInv(h)
    ensures HExtends(h, HUpdateVocab(h, symbols).1)
  {
    var root := h.coders[EMPTY_TOKEN];
    UpdateVocabSpec(root, symbols);
    ReplaceCoderExtends(h, EMPTY_TOKEN, UpdateVocab(root, symbols).1);
  }

  /** The id another context's coder recommends: its proposal, when that id is already registered there. */
  function Vote(c: CoderState, input: seq<int>, learn: bool): Option<int>
  {
    var t := Propose(c, input, learn).1;
    if t in c.encodedVocab then Some(t) else None
  }

  /** A count in `symbol_counts`, zero when absent. */
  function CountOf(counts: map<int, nat>, t: int): nat
  {
    if t in counts then counts[t] else 0
  }

  /** The contexts in `pending`, other than `ctx`, whose coder recommends `t`. */
  function Voters(coders: map<int, CoderState>, ctx: int, input: seq<int>, learn: bool, pending: set<int>, t: int): (r: set<int>)
    ensures r <= pending
  {
    set o | o in pending && o != ctx && o in coders && Vote(coders[o], input, learn) == Some(t)
  }

  /** The counting loop of src/lz.cpp:453-464, over the contexts `pending` in ascending order. */
  function TallyFrom(coders: map<int, CoderState>, ctx: int, input: seq<int>, learn: bool,
                     pending: set<int>, counts: map<int, nat>): (r: map<int, nat>)
    requires pending <= coders.Keys
    decreases pending
  {
    if pending == {} then counts
    else
      var o := Min(pending);
      var vote := Vote(coders[o], input, learn);
      var counts' := if o != ctx && vote.Some? then counts[vote.value := CountOf(counts, vote.value) + 1] else counts;
      TallyFrom(coders, ctx, input, learn, pending - {o}, counts')
  }

  /** Splitting off one context from a set of voters. */
  lemma VotersSplit(coders: map<int, CoderState>, ctx: int, input: seq<int>, learn: bool, pending: set<int>, o: int, t: int)
    requires o in pending
    ensures var rest := Voters(coders, ctx, input, learn, pending - {o}, t);
      |Voters(coders, ctx, input, learn, pending, t)| ==
        |rest| + if o != ctx && o in coders && Vote(coders[o], input, learn) == Some(t) then 1 else 0
  {
    var all := Voters(coders, ctx, input, learn, pending, t);
    var rest := Voters(coders, ctx, input, learn, pending - {o}, t);
    if o != ctx && o in coders && Vote(coders[o], input, learn) == Some(t) {
      assert all == rest + {o};
    } else {
      assert all == rest;
    }
  }

  /** The count of every id is its starting count plus the number of other contexts recommending it. */
  lemma {:induction false} TallyFromCounts(coders: map<int, CoderState>, ctx: int, input: seq<int>, learn: bool,
                                           pending: set<int>, counts: map<int, nat>, t: int)
    requires pending <= coders.Keys
    ensures CountOf(TallyFrom(coders, ctx, input, learn, pending, counts), t) ==
      CountOf(counts, t) + |Voters(coders, ctx, input, learn, pending, t)|
    decreases pending
  {
    if pending == {} {
      assert Voters(coders, ctx, input, learn, pending, t) == {};
    } else {
      var o := Min(pending);
      var vote := Vote(coders[o], input, learn);
      var counts' := if o != ctx && vote.Some? then counts[vote.value := CountOf(counts, vote.value) + 1] else counts;
      assert TallyFrom(coders, ctx, input, learn, pending, counts) == TallyFrom(coders, ctx, input, learn, pending - {o}, counts');
      assert CountOf(counts', t) == CountOf(counts, t) + if o != ctx && vote == Some(t) then 1 else 0;
      TallyFromCounts(coders, ctx, input, learn, pending - {o}, counts', t);
      VotersSplit(coders, ctx, input, learn, pending, o, t);
    }
  }

  /** Counting never drops an id. */
  lemma {:induction false} TallyFromKeeps(coders: map<int, CoderState>, ctx: int, input: seq<int>, learn: bool,
                                          pending: set<int>, counts: map<int, nat>)
    requires pending <= coders.Keys
    ensures counts.Keys <= TallyFrom(coders, ctx, input, learn, pending, counts).Keys
    decreases pending
  {
    if pending != {} {
      var o := Min(pending);
      var vote := Vote(coders[o], input, learn);
      var counts' := if o != ctx && vote.Some? then counts[vote.value := CountOf(counts, vote.value) + 1] else counts;
      TallyFromKeeps(coders, ctx, input, learn, pending - {o}, counts');
    }
  }

  /**
   * The selection loop of src/lz.cpp:466-474, over the ids `pending` in
   * ascending order: an id replaces the best so far when it is still free
   * and strictly more recommended.
   */
  function ArbitrateFrom(counts: map<int, nat>, unused: set<int>, pending: set<int>, best: int, bestCount: nat): int
    decreases pending
  {
    if pending == {} then best
    else
      var k := Min(pending);
      if CountOf(counts, k) > bestCount && k in unused then ArbitrateFrom(counts, unused, pending - {k}, k, CountOf(counts, k))
      else ArbitrateFrom(counts, unused, pending - {k}, best, bestCount)
  }

  /**
   * What the selection loop computes: a free id; no free id is more
   * recommended; among the most recommended free ids the smallest; and the
   * proposed id when no free id is recommended at all.
   */
  lemma {:induction false} ArbitrateFromMeaning(counts: map<int, nat>, unused: set<int>, pending: set<int>,
                                                best: int, bestCount: nat, proposed: int)
    requires pending <= counts.Keys
    requires proposed in counts && proposed in unused && best in unused
    requires forall d, p | d in counts && d !in pending && p in pending :: d < p
    requires forall t | t in unused && t in counts && t !in pending :: CountOf(counts, t) <= bestCount
    requires bestCount > 0 ==> CountOf(counts, best) == bestCount && best in counts && best !in pending
    requires bestCount > 0 ==> forall t | t in unused && t in counts && t !in pending && CountOf(counts, t) == bestCount :: best <= t
    requires bestCount == 0 ==> best == proposed
    ensures var r := ArbitrateFrom(counts, unused, pending, best, bestCount);
      && r in unused
      && (forall t | t in unused :: CountOf(counts, t) <= CountOf(counts, r))
      && (CountOf(counts, r) > 0 ==> forall t | t in unused && CountOf(counts, t) == CountOf(counts, r) :: r <= t)
      && (CountOf(counts, r) == 0 ==> r == proposed)
    decreases pending
  {
    if pending != {} {
      var k := Min(pending);
      if CountOf(counts, k) > bestCount && k in unused {
        ArbitrateFromMeaning(counts, unused, pending - {k}, k, CountOf(counts, k), proposed);
      } else {
        ArbitrateFromMeaning(counts, unused, pending - {k}, best, bestCount, proposed);
      }
    }
  }

  /**
   * The id given to a new codeword in context `ctx` (src/lz.cpp:436-477):
   * count, over the other contexts, the registered ids their coders would
   * emit for this input; take the most counted id that is still free in
   * this context, the smallest on a tie, or this coder's smallest free id
   * when no free id is counted.
   */
  function Choose(coders: map<int, CoderState>, ctx: int, input: seq<int>, learn: bool, c: CoderState): int
    requires c.unused != {}
  {
    var proposed := Min(c.unused);
    var counts := TallyFrom(coders, ctx, input, learn, coders.Keys, map[proposed := 0]);
    ArbitrateFrom(counts, c.unused, counts.Keys, proposed, 0)
  }

  /** The number of other contexts whose coder would emit `t` for this input. */
  function Recommendations(coders: map<int, CoderState>, ctx: int, input: seq<int>, learn: bool, t: int): nat
  {
    |Voters(coders, ctx, input, learn, coders.Keys, t)|
  }

  /**
   * The chosen id is free in this context; no free id is recommended by
   * more contexts; among the most recommended free ids it is the
   * smallest; with no recommended free id it is the smallest free id.
   */
  lemma ChooseMeaning(coders: map<int, CoderState>, ctx: int, input: seq<int>, learn: bool, c: CoderState)
    requires c.unused != {}
    ensures var r := Choose(coders, ctx, input, learn, c);
      && r in c.unused
      && (forall t | t in c.unused :: Recommendations(coders, ctx, input, learn, t) <= Recommendations(coders, ctx, input, learn, r))
      && (Recommendations(coders, ctx, input, learn, r) > 0 ==>
            forall t | t in c.unused && Recommendations(coders, ctx, input, learn, t) == Recommendations(coders, ctx, input, learn, r) :: r <= t)
      && (Recommendations(coders, ctx, input, learn, r) == 0 ==> r == Min(c.unused))
  {
    var proposed := Min(c.unused);
    var start: map<int, nat> := map[proposed := 0];
    var counts := TallyFrom(coders, ctx, input, learn, coders.Keys, start);
    forall t ensures CountOf(counts, t) == Recommendations(coders, ctx, input, learn, t) {
      TallyFromCounts(coders, ctx, input, learn, coders.Keys, start, t);
    }
    TallyFromKeeps(coders, ctx, input, learn, coders.Keys, start);
    ArbitrateFromMeaning(counts, c.unused, counts.Keys, proposed, 0, proposed);
  }

  /** The chosen id is free in this context. */
  lemma ChooseIsFree(coders: map<int, CoderState>, ctx: int, input: seq<int>, learn: bool, c: CoderState)
    requires c.unused != {}
    ensures Choose(coders, ctx, input, learn, c) in c.unused
  {
    var proposed := Min(c.unused);
    var start: map<int, nat> := map[proposed := 0];
    var counts := TallyFrom(coders, ctx, input, learn, coders.Keys, start);
    TallyFromKeeps(coders, ctx, input, learn, coders.Keys, start);
    ArbitrateFromMeaning(counts, c.unused, counts.Keys, proposed, 0, proposed);
  }

  /** The state after `encode_one_token` has made sure context `ctx` has a coder (src/lz.cpp:426-432). */
  function WithContext(h: HCoderState, ctx: int): (r: HCoderState)
    ensures ctx in r.coders && r.vocabSize == h.vocabSize && r.coders.Keys == h.coders.Keys + {ctx}
  {
    if ctx in h.coders then h
    else h.(coders := h.coders[ctx := NewCoder(h.vocabSize, {}).value])
  }

  /**
   * `HierarchicalLZCoder::encode_one_token` with a context
   * (src/lz.cpp:422-478): an empty input gives the empty token; a missing
   * context is created when learning and refused otherwise; a registered
   * proposal is emitted as is; a new codeword gets the id chosen by
   * `Choose`.
   */
  function HStep(h: HCoderState, input: seq<int>, ctx: int, learn: bool): (r: (Result<(seq<int>, int), Error>, HCoderState))
    ensures r.0.Success? ==> r.0.value.0 <= input
  {
    if input == [] then (Success(([], EMPTY_TOKEN)), h)
    else if ctx !in h.coders && !learn then (Failure(ContextNotFound), h)
    else
      var h1 := WithContext(h, ctx);
      var c := h1.coders[ctx];
      var (prefix, token) := Propose(c, input, learn);
      if token in c.encodedVocab then (Success((prefix, token)), h1)
      else if !learn then (Failure(NewTokenWithoutLearning), h1)
      else if c.unused == {} then (Failure(NoUnusedTokens), h1)
      else
        var best := Choose(h1.coders, ctx, input, learn, c);
        (Success((prefix, best)), h1.(coders := h1.coders[ctx := AddToken(c, prefix, best)]))
  }

  /** Setting one context's coder to a valid one keeps the invariant. */
  lemma ReplaceCoderValid(h: HCoderState, ctx: int, c: CoderState)
    requires HInv(h)
    requires CoderOk(c, h.vocabSize)
    ensures HInv(h.(coders := h.coders[ctx := c]))
  {
  }

  /** Replacing a coder by one over the same alphabet keeps the root alphabet. */
  lemma ReplaceCoderRoot(h: HCoderState, ctx: int, c: CoderState)
    requires EMPTY_TOKEN in h.coders
    requires ctx == EMPTY_TOKEN ==> c.inputVocab == h.coders[ctx].inputVocab
    ensures h.(coders := h.coders[ctx := c]).coders[EMPTY_TOKEN].inputVocab == h.coders[EMPTY_TOKEN].inputVocab
  {
  }

  /** Replacing one context's coder by an extension of it rebinds nothing. */
  lemma ReplaceCoderExtends(h: HCoderState, ctx: int, c: CoderState)
    requires ctx in h.coders && Extends(h.coders[ctx], c)
    ensures HExtends(h, h.(coders := h.coders[ctx := c]))
  {
    var h' := h.(coders := h.coders[ctx := c]);
    forall o | o in h.coders ensures o in h'.coders && Extends(h.coders[o], h'.coders[o]) {
      if o != ctx {
        ExtendsReflexive(h.coders[o]);
      }
    }
  }

  lemma ExtendsReflexive(s: CoderState)
    ensures Extends(s, s)
  {
  }

  /**
   * What a successful step promises: the invariant is kept, nothing is
   * rebound, the root alphabet is unchanged, and the emitted id decodes in
   * context `ctx` to exactly the consumed prefix.
   */
  ghost predicate HStepOk(h: HCoderState, ctx: int, r: Result<(seq<int>, int), Error>, h': HCoderState)
  {
    && EMPTY_TOKEN in h.coders
    && r.Success?
    && HInv(h') && HExtends(h, h')
    && ctx in h'.coders
    && h'.coders[EMPTY_TOKEN].inputVocab == h.coders[EMPTY_TOKEN].inputVocab
    && r.value.1 in h'.coders[ctx].encodedVocab && h'.coders[ctx].encodedVocab[r.value.1] == r.value.0
    && (r.value.0 == [] <==> r.value.1 == EMPTY_TOKEN)
    && (r.value.0 != [] ==> 0 <= r.value.1 < h.vocabSize)
  }

  /** A step whose proposal is already registered emits it and changes nothing. */
  lemma HStepRegistered(h: HCoderState, input: seq<int>, ctx: int, learn: bool)
    requires HInv(h) && input != [] && ctx in h.coders
    requires Propose(h.coders[ctx], input, learn).1 in h.coders[ctx].encodedVocab
    ensures HStepOk(h, ctx, HStep(h, input, ctx, learn).0, HStep(h, input, ctx, learn).1)
  {
    var c := h.coders[ctx];
    ProposeMeaning(c, input, learn);
    var token := Propose(c, input, learn).1;
    assert HStep(h, input, ctx, learn) == (Success(Propose(c, input, learn)), h);
    assert token in c.unused + c.encodedVocab.Keys;
  }

  /** Binding a new codeword to a free id in one context keeps every promise of `HStepOk`. */
  lemma NewTokenOk(h: HCoderState, ctx: int, prefix: seq<int>, best: int)
    requires HInv(h) && ctx in h.coders
    requires var c := h.coders[ctx];
      best in c.unused && |prefix| > 0 && prefix[..|prefix| - 1] in c.tokenMap.ends && prefix !in c.tokenMap.ends
    ensures HStepOk(h, ctx, Success((prefix, best)), h.(coders := h.coders[ctx := AddToken(h.coders[ctx], prefix, best)]))
  {
    var c := h.coders[ctx];
    var c' := AddToken(c, prefix, best);
    AddTokenKeepsInv(c, prefix, best);
    ReplaceCoderValid(h, ctx, c');
    ReplaceCoderExtends(h, ctx, c');
    ReplaceCoderRoot(h, ctx, c');
    assert best in c.unused + c.encodedVocab.Keys;
  }

  /** A step that needs a new id binds the proposed codeword to the id `Choose` picks, one the context had not registered. */
  lemma HStepNewToken(h: HCoderState, input: seq<int>, ctx: int, learn: bool)
    requires HInv(h) && input != [] && ctx in h.coders
    requires Propose(h.coders[ctx], input, learn).1 !in h.coders[ctx].encodedVocab
    ensures HStepOk(h, ctx, HStep(h, input, ctx, learn).0, HStep(h, input, ctx, learn).1)
    ensures HStep(h, input, ctx, learn).0.value.1 == Choose(h.coders, ctx, input, learn, h.coders[ctx])
    ensures HStep(h, input, ctx, learn).0.value.1 !in h.coders[ctx].encodedVocab
  {
    var c := h.coders[ctx];
    assert CoderOk(c, h.vocabSize);
    ProposeMeaning(c, input, learn);
    var prefix := Propose(c, input, learn).0;
    var best := Choose(h.coders, ctx, input, learn, c);
    ChooseIsFree(h.coders, ctx, input, learn, c);
    NewTokenOk(h, ctx, prefix, best);
    assert HStep(h, input, ctx, learn) == (Success((prefix, best)), h.(coders := h.coders[ctx := AddToken(c, prefix, best)]));
  }

  /** Creating a missing context keeps the invariant. */
  lemma WithContextValid(h: HCoderState, ctx: int)
    requires HInv(h)
    ensures HInv(WithContext(h, ctx))
  {
    if ctx !in h.coders {
      var c := NewCoder(h.vocabSize, {}).value;
      NewCoderValid(h.vocabSize, {});
      ReplaceCoderValid(h, ctx, c);
    }
  }

  /** Creating a missing context changes no existing coder. */
  lemma WithContextExtends(h: HCoderState, ctx: int)
    ensures HExtends(h, WithContext(h, ctx))
    ensures forall o | o in h.coders :: WithContext(h, ctx).coders[o] == h.coders[o]
  {
    var h1 := WithContext(h, ctx);
    forall o | o in h.coders ensures h1.coders[o] == h.coders[o] && Extends(h.coders[o], h1.coders[o]) {
      ExtendsReflexive(h.coders[o]);
    }
  }

  /** A step in an existing context, or one that may create it, keeps every promise of `HStepOk`. */
  lemma HStepSucceeds(h: HCoderState, input: seq<int>, ctx: int, learn: bool)
    requires HInv(h) && input != [] && (ctx in h.coders || learn)
    ensures HStepOk(h, ctx, HStep(h, input, ctx, learn).0, HStep(h, input, ctx, learn).1)
  {
    WithContextValid(h, ctx);
    WithContextExtends(h, ctx);
    var h1 := WithContext(h, ctx);
    assert HStep(h, input, ctx, learn) == HStep(h1, input, ctx, learn);
    if Propose(h1.coders[ctx], input, learn).1 in h1.coders[ctx].encodedVocab {
      HStepRegistered(h1, input, ctx, learn);
    } else {
      HStepNewToken(h1, input, ctx, learn);
    }
    HExtendsTransitive(h, h1, HStep(h1, input, ctx, learn).1);
  }

  /**
   * A step on non-empty input under the invariant fails only when the
   * context has no coder and learning is off, and then changes nothing;
   * otherwise it keeps every promise of `HStepOk`.
   */
  lemma HStepMeaning(h: HCoderState, input: seq<int>, ctx: int, learn: bool)
    requires HInv(h) && input != []
    ensures var (r, h') := HStep(h, input, ctx, learn);
      && (r.Failure? <==> ctx !in h.coders && !learn)
      && (r.Failure? ==> r.error == ContextNotFound && h' == h)
      && (r.Success? ==> HStepOk(h, ctx, r, h'))
  {
    if ctx in h.coders || learn {
      HStepSucceeds(h, input, ctx, learn);
    }
  }

  /**
   * `HierarchicalLZCoder::encode` (src/lz.cpp:395-408): steps, each in the
   * context of the id emitted before. A step that consumes nothing moves
   * to the root context; one that consumes nothing in the root context
   * would repeat forever in the source and is reported as `NoProgress`.
   */
  function HEncodeFrom(h: HCoderState, input: seq<int>, ctx: int, learn: bool): (r: (Result<seq<int>, Error>, HCoderState))
    decreases |input|, if ctx == EMPTY_TOKEN then 0 else 1
  {
    if input == [] then (Success([]), h)
    else
      var (step, h1) := HStep(h, input, ctx, learn);
      match step
      case Failure(e) => (Failure(e), h1)
      case Success((prefix, token)) =>
        if prefix == [] then
          if ctx == EMPTY_TOKEN || token != EMPTY_TOKEN then (Failure(NoProgress), h1)
          else
            var (rest, h2) := HEncodeFrom(h1, input, EMPTY_TOKEN, learn);
            (if rest.Success? then Success([token] + rest.value) else rest, h2)
        else
          var (rest, h2) := HEncodeFrom(h1, input[|prefix|..], token, learn);
          (if rest.Success? then Success([token] + rest.value) else rest, h2)
  }

  /**
   * `HierarchicalLZCoder::decode` (src/lz.cpp:484-497): each id is looked
   * up in the coder of the context set by the id before it.
   */
  function HDecodeFrom(coders: map<int, CoderState>, ctx: int, ids: seq<int>): (r: Result<seq<int>, Error>)
    ensures r.Failure? ==> r.error == ContextNotFound || r.error == TokenNotFound
    decreases |ids|
  {
    if ids == [] then Success([])
    else if ctx !in coders then Failure(ContextNotFound)
    else if ids[0] !in coders[ctx].encodedVocab then Failure(TokenNotFound)
    else
      var rest := HDecodeFrom(coders, ids[0], ids[1..]);
      if rest.Failure? then rest else Success(coders[ctx].encodedVocab[ids[0]] + rest.value)
  }

  /** Decoding with coders that only gained bindings gives the same result. */
  lemma {:induction false} HDecodeMonotone(h: HCoderState, h': HCoderState, ctx: int, ids: seq<int>)
    requires HExtends(h, h')
    requires HDecodeFrom(h.coders, ctx, ids).Success?
    ensures HDecodeFrom(h'.coders, ctx, ids) == HDecodeFrom(h.coders, ctx, ids)
    decreases |ids|
  {
    if ids != [] {
      HDecodeMonotone(h, h', ids[0], ids[1..]);
    }
  }

  /** Encoding from `h` keeps the invariant and rebinds no id in any context. */
  ghost predicate HKeeps(h: HCoderState, input: seq<int>, ctx: int, learn: bool)
  {
    HInv(HEncodeFrom(h, input, ctx, learn).1) && HExtends(h, HEncodeFrom(h, input, ctx, learn).1)
  }

  /** Every coder extends itself. */
  lemma HExtendsReflexive(h: HCoderState)
    ensures HExtends(h, h)
  {
    forall o | o in h.coders ensures Extends(h.coders[o], h.coders[o]) {
      ExtendsReflexive(h.coders[o]);
    }
  }

  /** The inductive step of `HEncodeKeepsInv`. */
  lemma HKeepsStep(h: HCoderState, input: seq<int>, ctx: int, learn: bool)
    requires HInv(h) && input != []
    requires var (step, h1) := HStep(h, input, ctx, learn);
      step.Success? && (step.value.0 != [] || ctx != EMPTY_TOKEN) ==>
        HKeeps(h1, input[|step.value.0|..], if step.value.0 == [] then EMPTY_TOKEN else step.value.1, learn)
    ensures HKeeps(h, input, ctx, learn)
  {
    HStepMeaning(h, input, ctx, learn);
    var (step, h1) := HStep(h, input, ctx, learn);
    if step.Failure? {
      HExtendsReflexive(h);
    } else if step.value.0 != [] || ctx != EMPTY_TOKEN {
      var next := if step.value.0 == [] then EMPTY_TOKEN else step.value.1;
      HEncodeFromUnfold(h, input, ctx, learn);
      HExtendsTransitive(h, h1, HEncodeFrom(h1, input[|step.value.0|..], next, learn).1);
    }
  }

  /** Encoding keeps the invariant and never rebinds an id in any context. */
  lemma {:induction false} HEncodeKeepsInv(h: HCoderState, input: seq<int>, ctx: int, learn: bool)
    requires HInv(h)
    ensures HKeeps(h, input, ctx, learn)
    decreases |input|, if ctx == EMPTY_TOKEN then 0 else 1
  {
    if input == [] {
      HExtendsReflexive(h);
    } else {
      var (step, h1) := HStep(h, input, ctx, learn);
      if step.Success? && (step.value.0 != [] || ctx != EMPTY_TOKEN) {
        HStepMeaning(h, input, ctx, learn);
        HEncodeKeepsInv(h1, input[|step.value.0|..], if step.value.0 == [] then EMPTY_TOKEN else step.value.1, learn);
      }
      HKeepsStep(h, input, ctx, learn);
    }
  }

  /** A successful hierarchical encoding of `input` from context `ctx` decodes, with the final coders, to `input`. */
  ghost predicate HRoundTrips(h: HCoderState, input: seq<int>, ctx: int, learn: bool)
  {
    var (r, h') := HEncodeFrom(h, input, ctx, learn);
    r.Success? ==> HDecodeFrom(h'.coders, ctx, r.value) == Success(input)
  }

  /** Decoding an id bound in context `ctx` to a prefix of the input, then ids that decode to the rest. */
  lemma HDecodeCons(coders: map<int, CoderState>, ctx: int, t: int, ids: seq<int>, input: seq<int>)
    requires ctx in coders && t in coders[ctx].encodedVocab && coders[ctx].encodedVocab[t] <= input
    requires HDecodeFrom(coders, t, ids) == Success(input[|coders[ctx].encodedVocab[t]|..])
    ensures HDecodeFrom(coders, ctx, [t] + ids) == Success(input)
  {
    assert ([t] + ids)[1..] == ids;
    assert input == coders[ctx].encodedVocab[t] + input[|coders[ctx].encodedVocab[t]|..];
  }

  /** One unfolding of `HEncodeFrom` after a successful step that moves on to context `next`. */
  lemma HEncodeFromUnfold(h: HCoderState, input: seq<int>, ctx: int, learn: bool)
    requires input != [] && HStep(h, input, ctx, learn).0.Success?
    requires var p := HStep(h, input, ctx, learn).0.value;
      p.0 != [] || (ctx != EMPTY_TOKEN && p.1 == EMPTY_TOKEN)
    ensures var (step, h1) := HStep(h, input, ctx, learn);
      var next := if step.value.0 == [] then EMPTY_TOKEN else step.value.1;
      var rest := HEncodeFrom(h1, input[|step.value.0|..], next, learn);
      HEncodeFrom(h, input, ctx, learn) ==
        (if rest.0.Success? then Success([step.value.1] + rest.0.value) else rest.0, rest.1)
  {
    var step := HStep(h, input, ctx, learn).0;
    if step.value.0 == [] {
      assert input[|step.value.0|..] == input;
    }
  }

  /** The inductive step of the hierarchical round trip. */
  lemma HRoundTripStep(h: HCoderState, input: seq<int>, ctx: int, learn: bool)
    requires HInv(h) && input != []
    requires var (step, h1) := HStep(h, input, ctx, learn);
      step.Success? && (step.value.0 != [] || ctx != EMPTY_TOKEN) ==>
        HRoundTrips(h1, input[|step.value.0|..], if step.value.0 == [] then EMPTY_TOKEN else step.value.1, learn)
    ensures HRoundTrips(h, input, ctx, learn)
  {
    HStepMeaning(h, input, ctx, learn);
    var (step, h1) := HStep(h, input, ctx, learn);
    if step.Success? && (step.value.0 != [] || ctx != EMPTY_TOKEN) {
      var (prefix, token) := step.value;
      var next := if prefix == [] then EMPTY_TOKEN else token;
      var tail := input[|prefix|..];
      HEncodeFromUnfold(h, input, ctx, learn);
      HEncodeKeepsInv(h1, tail, next, learn);
      var rest := HEncodeFrom(h1, tail, next, learn);
      if rest.0.Success? {
        HDecodeCons(rest.1.coders, ctx, token, rest.0.value, input);
      }
    }
  }

  /**
   * The round trip: under the invariant, a successful hierarchical
   * encoding decodes, with the final coders and from the same starting
   * context, to the input.
   */
  lemma {:induction false} HEncodeRoundTrip(h: HCoderState, input: seq<int>, ctx: int, learn: bool)
    requires HInv(h)
    ensures HRoundTrips(h, input, ctx, learn)
    decreases |input|, if ctx == EMPTY_TOKEN then 0 else 1
  {
    if input != [] {
      var (step, h1) := HStep(h, input, ctx, learn);
      if step.Success? && (step.value.0 != [] || ctx != EMPTY_TOKEN) {
        HStepMeaning(h, input, ctx, learn);
        HEncodeRoundTrip(h1, input[|step.value.0|..], if step.value.0 == [] then EMPTY_TOKEN else step.value.1, learn);
      }
      HRoundTripStep(h, input, ctx, learn);
    }
  }

  /**
   * A step in the root context that consumes nothing changes nothing: the
   * source's loop would repeat it forever, which `NoProgress` stands for.
   */
  lemma HStuckIsFixpoint(h: HCoderState, input: seq<int>, learn: bool)
    requires HInv(h) && input != []
    requires HStep(h, input, EMPTY_TOKEN, learn).0.Success? && HStep(h, input, EMPTY_TOKEN, learn).0.value.0 == []
    ensures HStep(h, input, EMPTY_TOKEN, learn) == (Success(([], EMPTY_TOKEN)), h)
  {
    HStepMeaning(h, input, EMPTY_TOKEN, learn);
    ProposeMeaning(h.coders[EMPTY_TOKEN], input, learn);
  }

  /** A successful step in an existing context consumes exactly the prefix its coder proposes. */
  lemma HStepPrefix(h: HCoderState, input: seq<int>, ctx: int, learn: bool)
    requires input != [] && ctx in h.coders
    ensures HStep(h, input, ctx, learn).0.Success? ==> HStep(h, input, ctx, learn).0.value.0 == Propose(h.coders[ctx], input, learn).0
  {
  }

  /**
   * In the root context, a step over input starting with an alphabet
   * symbol succeeds (by `HStepMeaning`) and consumes something.
   */
  lemma HRootStepProgress(h: HCoderState, input: seq<int>, learn: bool)
    requires HInv(h) && input != [] && input[0] in h.coders[EMPTY_TOKEN].inputVocab
    ensures HStep(h, input, EMPTY_TOKEN, learn).0.Success? ==> HStep(h, input, EMPTY_TOKEN, learn).0.value.0 != []
  {
    HStepPrefix(h, input, EMPTY_TOKEN, learn);
    var root := h.coders[EMPTY_TOKEN];
    KnownSymbol(root, input[0]);
    ProposeMeaning(root, input, learn);
    assert [input[0]] <= input;
  }

  /** Every symbol of `input` is in the root coder's alphabet. */
  ghost predicate OverAlphabet(h: HCoderState, input: seq<int>)
    requires EMPTY_TOKEN in h.coders
  {
    forall i | 0 <= i < |input| :: input[i] in h.coders[EMPTY_TOKEN].inputVocab
  }

  /** A suffix of an input over the alphabet is over the same alphabet. */
  lemma OverAlphabetSuffix(h: HCoderState, h': HCoderState, input: seq<int>, k: int)
    requires EMPTY_TOKEN in h.coders && EMPTY_TOKEN in h'.coders
    requires h'.coders[EMPTY_TOKEN].inputVocab == h.coders[EMPTY_TOKEN].inputVocab
    requires OverAlphabet(h, input) && 0 <= k <= |input|
    ensures OverAlphabet(h', input[k..])
  {
    forall i | 0 <= i < |input[k..]| ensures input[k..][i] in h'.coders[EMPTY_TOKEN].inputVocab {
      assert input[k..][i] == input[k + i];
    }
  }

  /** The inductive step of `HEncodeOverAlphabetSucceeds`. */
  lemma HSucceedsStep(h: HCoderState, input: seq<int>, ctx: int)
    requires HInv(h) && input != [] && OverAlphabet(h, input)
    requires var (step, h1) := HStep(h, input, ctx, true);
      step.Success? && (step.value.0 != [] || ctx != EMPTY_TOKEN) ==>
        HEncodeFrom(h1, input[|step.value.0|..], if step.value.0 == [] then EMPTY_TOKEN else step.value.1, true).0.Success?
    ensures HEncodeFrom(h, input, ctx, true).0.Success?
  {
    HStepMeaning(h, input, ctx, true);
    if ctx == EMPTY_TOKEN {
      HRootStepProgress(h, input, true);
    }
    HEncodeFromUnfold(h, input, ctx, true);
  }

  /**
   * What the source relies on when a context's coder fills up: under the
   * invariant, a learning encoding of an input made of root-alphabet
   * symbols never fails, since a step that consumes nothing moves to the
   * root context, whose coder knows every alphabet symbol.
   */
  lemma {:induction false} HEncodeOverAlphabetSucceeds(h: HCoderState, input: seq<int>, ctx: int)
    requires HInv(h) && OverAlphabet(h, input)
    ensures HEncodeFrom(h, input, ctx, true).0.Success?
    decreases |input|, if ctx == EMPTY_TOKEN then 0 else 1
  {
    if input != [] {
      var (step, h1) := HStep(h, input, ctx, true);
      HStepMeaning(h, input, ctx, true);
      if ctx == EMPTY_TOKEN {
        HRootStepProgress(h, input, true);
      }
      if step.value.0 != [] || ctx != EMPTY_TOKEN {
        OverAlphabetSuffix(h, h1, input, |step.value.0|);
        HEncodeOverAlphabetSucceeds(h1, input[|step.value.0|..], if step.value.0 == [] then EMPTY_TOKEN else step.value.1);
      }
      HSucceedsStep(h, input, ctx);
    }
  }
}
