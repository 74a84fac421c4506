/**
 * The class `LZCoder` (src/lz.hpp:127-172, src/lz.cpp:207-362): the coder's
 * tables are fields that its methods update in place. Every method is
 * proved against the value model of module `LZState`, whose lemmas carry
 * the round trip and the invariants over to the class.
 */
module LZCoders {
  import opened VocabSets
  import opened Errors
  import opened Results
  import opened Tries
  import opened LZState

  /** One step of the encoding loop: the emitted id moves from the rest of the encoding to the ids already emitted. */
  lemma PrefixedStep(s: CoderState, input: seq<int>, learn: bool, encoded: seq<int>,
                     prefix: seq<int>, token: int, s1: CoderState)
    requires input != [] && prefix != [] && EncodeStep(s, input, learn) == (Success((prefix, token)), s1)
    ensures Prefixed(encoded + [token], EncodeFrom(s1, input[|prefix|..], learn)) ==
      Prefixed(encoded, EncodeFrom(s, input, learn))
  {
    var rest := EncodeFrom(s1, input[|prefix|..], learn);
    assert EncodeFrom(s, input, learn) == (if rest.0.Success? then Success([token] + rest.0.value) else rest.0, rest.1);
    if rest.0.Success? {
      assert encoded + ([token] + rest.0.value) == (encoded + [token]) + rest.0.value;
    }
  }

  class LZCoder {
    var vocabSize: int
    var inputVocab: set<int>
    var unused: set<int>
    var encodedVocab: map<int, seq<int>>
    var tokenMap: Trie

    /** The fields as a value of the model. */
    function State(): CoderState
      reads this
    {
      CoderState(vocabSize, inputVocab, unused, encodedVocab, tokenMap)
    }

    /**
     * `LZCoder::LZCoder` (src/lz.cpp:210-238) once the size check has
     * passed: the empty codeword, then ids `0 .. n-1` free, then every
     * alphabet symbol in ascending order under the smallest free id.
     */
    constructor (n: int, alphabet: set<int>)
      requires !(n > 0 && |alphabet| > n)
      ensures State() == NewCoder(n, alphabet).value
    {
      var root := Insert(EmptyTrie(), [], EMPTY_TOKEN);
      vocabSize := -1;
      inputVocab := alphabet;
      unused := {};
      encodedVocab := map[EMPTY_TOKEN := []];
      tokenMap := root;
      new;
      if n > 0 {
        FreeIds(n);
        IdRangeSize(n);
        RegisterAlphabet(alphabet);
        RegisterAllIgnoresBound(Fresh(alphabet).(unused := IdRange(n)), n + 1, alphabet);
        vocabSize := n + 1;
      }
    }

    /** The loop of src/lz.cpp:224-227: ids `0 .. n-1` become free. */
    method FreeIds(n: int)
      requires n > 0 && unused == {}
      modifies this
      ensures State() == old(State()).(unused := IdRange(n))
    {
      var i := 0;
      while i < n
        invariant 0 <= i <= n
        invariant unused == IdRange(i)
        invariant State() == old(State()).(unused := IdRange(i))
        decreases n - i
      {
        unused := unused + {i};
        i := i + 1;
      }
    }

    /** The loop of src/lz.cpp:229-233: each symbol, in ascending order, under the smallest free id. */
    method RegisterAlphabet(alphabet: set<int>)
      requires |alphabet| <= |unused|
      modifies this
      ensures State() == RegisterAll(old(State()), alphabet)
    {
      var pending := alphabet;
      while pending != {}
        invariant |pending| <= |unused|
        invariant RegisterAll(State(), pending) == RegisterAll(old(State()), alphabet)
        decreases pending
      {
        var c := Min(pending);
        AddNewToken([c], Min(unused));
        pending := pending - {c};
      }
    }

    /** The constructor with its size check (src/lz.cpp:218-221): an alphabet larger than the bound is refused. */
    static method New(n: int, alphabet: set<int>) returns (r: Result<LZCoder, Error>)
      ensures r.Failure? <==> NewCoder(n, alphabet).Failure?
      ensures r.Failure? ==> r.error == VocabTooLarge
      ensures r.Success? ==> fresh(r.value) && r.value.State() == NewCoder(n, alphabet).value
    {
      if n > 0 && |alphabet| > n {
        return Failure(VocabTooLarge);
      }
      var coder := new LZCoder(n, alphabet);
      return Success(coder);
    }

    /** `LZCoder::_add_new_token` (src/lz.cpp:358-362). */
    method AddNewToken(prefix: seq<int>, token: int)
      modifies this
      ensures State() == AddToken(old(State()), prefix, token)
    {
      encodedVocab := encodedVocab[token := prefix];
      tokenMap := Insert(tokenMap, prefix, token);
      unused := unused - {token};
    }

    /** `LZCoder::_propose_next_token` (src/lz.cpp:336-352). */
    method ProposeNextToken(input: seq<int>, learn: bool) returns (prefix: seq<int>, token: int)
      ensures (prefix, token) == Propose(State(), input, learn)
    {
      prefix, token := FindLongestPrefix(tokenMap, input);
      if learn && |prefix| < |input| {
        if vocabSize < 0 || Size(tokenMap) < vocabSize {
          prefix := prefix + [input[|prefix|]];
          if unused != {} {
            token := Min(unused);
          }
        }
      }
    }

    /** `LZCoder::encode_one_token` (src/lz.cpp:288-305). */
    method EncodeOneToken(input: seq<int>, learn: bool) returns (r: Result<(seq<int>, int), Error>)
      modifies this
      ensures (r, State()) == EncodeStep(old(State()), input, learn)
    {
      var prefix, token := ProposeNextToken(input, learn);
      if token !in encodedVocab {
        if !learn {
          return Failure(LearningDisabled);
        }
        if vocabSize > 0 && Size(tokenMap) >= vocabSize {
          return Failure(DictionaryFull);
        }
        if unused == {} {
          return Failure(NoUnusedTokens);
        }
        var newToken := Min(unused);
        AddNewToken(prefix, newToken);
        return Success((prefix, newToken));
      }
      return Success((prefix, token));
    }

    /**
     * `LZCoder::encode` (src/lz.cpp:264-282). On a coder that keeps the
     * invariant the emitted ids decode, with the tables afterwards, to the
     * input.
     */
    method Encode(input: seq<int>, learn: bool) returns (r: Result<seq<int>, Error>)
      modifies this
      ensures (r, State()) == EncodeFrom(old(State()), input, learn)
      ensures Inv(old(State())) ==> Inv(State()) && Extends(old(State()), State())
      ensures Inv(old(State())) && r.Success? ==> DecodeIds(encodedVocab, r.value) == Success(input)
    {
      ghost var s0 := State();
      r := EncodeSteps(input, learn);
      if Inv(s0) {
        EncodeKeepsInv(s0, input, learn);
        EncodeRoundTrip(s0, input, learn);
      }
    }

    /** The loop of src/lz.cpp:268-279. */
    method EncodeSteps(input: seq<int>, learn: bool) returns (r: Result<seq<int>, Error>)
      modifies this
      ensures (r, State()) == EncodeFrom(old(State()), input, learn)
    {
      ghost var s0 := State();
      var encoded: seq<int> := [];
      var remaining := input;
      ghost var all := EncodeFrom(s0, input, learn);
      if all.0.Success? {
        assert [] + all.0.value == all.0.value;
      }
      while remaining != []
        invariant Prefixed(encoded, EncodeFrom(State(), remaining, learn)) == all
        decreases |remaining|
      {
        ghost var before := State();
        var step := EncodeOneToken(remaining, learn);
        if step.Failure? {
          return Failure(step.error);
        }
        var (prefix, token) := step.value;
        if prefix == [] {
          return Failure(if learn then DictionaryFull else LearningDisabled);
        }
        PrefixedStep(before, remaining, learn, encoded, prefix, token, State());
        encoded := encoded + [token];
        remaining := remaining[|prefix|..];
      }
      assert encoded + [] == encoded;
      return Success(encoded);
    }

    /** `LZCoder::decode_one_token` (src/lz.cpp:324-330): the codeword of one id, or an error for an unknown id. */
    method DecodeOneToken(token: int) returns (r: Result<seq<int>, Error>)
      ensures r == DecodeIds(encodedVocab, [token])
      ensures r.Success? ==> r.value == encodedVocab[token]
    {
      if token !in encodedVocab {
        return Failure(TokenNotFound);
      }
      assert [token][1..] == [];
      assert encodedVocab[token] + [] == encodedVocab[token];
      return Success(encodedVocab[token]);
    }

    /** `LZCoder::decode` (src/lz.cpp:311-318): the codewords of the ids, concatenated. */
    method Decode(ids: seq<int>) returns (r: Result<seq<int>, Error>)
      ensures r == DecodeIds(encodedVocab, ids)
    {
      var decoded: seq<int> := [];
      var i := 0;
      while i < |ids|
        invariant 0 <= i <= |ids|
        invariant DecodeIds(encodedVocab, ids[..i]) == Success(decoded)
      {
        var piece := DecodeOneToken(ids[i]);
        DecodeIdsSnoc(encodedVocab, ids[..i], ids[i]);
        assert ids[..i + 1] == ids[..i] + [ids[i]];
        if piece.Failure? {
          assert ids[i] !in encodedVocab;
          return piece;
        }
        decoded := decoded + piece.value;
        i := i + 1;
      }
      assert ids[..i] == ids;
      return Success(decoded);
    }

    /**
     * `LZCoder::update_vocab` (src/lz.cpp:244-258) with the guard the
     * round trip needs: a symbol whose single-symbol codeword was already
     * learned is only added to the alphabet.
     */
    method UpdateVocab(symbols: seq<int>) returns (r: Result<(), Error>)
      modifies this
      ensures (r, State()) == LZState.UpdateVocab(old(State()), symbols)
      ensures Inv(old(State())) ==> Inv(State()) && Extends(old(State()), State())
      ensures AlphabetKnown(old(State())) ==> AlphabetKnown(State())
    {
      ghost var s0 := State();
      if Inv(s0) {
        UpdateVocabSpec(s0, symbols);
      }
      if AlphabetKnown(s0) {
        UpdateVocabKnown(s0, symbols);
      }
      var i := 0;
      while i < |symbols|
        invariant 0 <= i <= |symbols|
        invariant LZState.UpdateVocab(State(), symbols[i..]) == LZState.UpdateVocab(s0, symbols)
      {
        assert symbols[i..][1..] == symbols[i + 1..];
        var step := RegisterSymbol(symbols[i]);
        if step.Failure? {
          return step;
        }
        i := i + 1;
      }
      return Success(());
    }

    /** One symbol of `update_vocab` (src/lz.cpp:247-256), with the intended guard. */
    method RegisterSymbol(c: int) returns (r: Result<(), Error>)
      modifies this
      ensures (r, State()) == LZState.RegisterSymbol(old(State()), c)
    {
      if c !in inputVocab {
        if [c] in tokenMap.ends {
          inputVocab := inputVocab + {c};
        } else {
          if unused == {} {
            return Failure(NoUnusedTokens);
          }
          AddNewToken([c], Min(unused));
          inputVocab := inputVocab + {c};
          if vocabSize > 0 && Size(tokenMap) >= vocabSize {
            return Failure(VocabOverflow);
          }
        }
      }
      return Success(());
    }
  }
}
