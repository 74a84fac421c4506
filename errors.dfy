/** The failures the coders and tokenizers raise, one constructor per distinct condition in the source. */
module Errors {

  datatype Error =
    /** `Trie::get` on a path that is missing or ends at a non-terminal node, or a Python dict lookup of a missing key. */
    | KeyNotFound
    /** Constructor: the alphabet is larger than the output bound. */
    | VocabTooLarge
    /** `*unused_tokens.begin()` needed but no id is free. */
    | NoUnusedTokens
    /** `update_vocab`: the trie filled the whole id space. */
    | VocabOverflow
    /** Encoding made no progress (or had to mint) while learning, with the dictionary full. */
    | DictionaryFull
    /** Encoding made no progress (or had to mint) with learning disabled. */
    | LearningDisabled
    /** Decoding an id that has no codeword or entry. */
    | TokenNotFound
    /** A context without a coder (and learning disabled), or without a row in a contextual tokenizer. */
    | ContextNotFound
    /** Hierarchical coder: a new id is needed but learning is disabled. */
    | NewTokenWithoutLearning
    /** Encoding cannot consume input and would repeat the same steps forever in the source. */
    | NoProgress
}
