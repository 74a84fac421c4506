/**
 * The prefix trie of src/lz.hpp:82-121 and src/lz.cpp:117-201, as a value.
 *
 * A node is identified by the path of symbols leading to it from the root, so
 * the tree is the set `nodes` of those paths; `ends` maps the path of every
 * node with `is_end` set to its `value`. Copying a trie copies every node
 * (src/lz.hpp:108-114), so a trie has value semantics here.
 */
module Tries {
  import opened VocabSets
  import opened Errors
  import opened Results

  datatype Trie = Trie(nodes: set<seq<int>>, ends: map<seq<int>, int>)

  /** Every node's ancestors exist, the root exists, and terminal nodes are nodes. */
  ghost predicate WellFormed(t: Trie)
  {
    && [] in t.nodes
    && (forall p, i {:trigger p[..i]} | p in t.nodes && 0 <= i <= |p| :: p[..i] in t.nodes)
    && t.ends.Keys <= t.nodes
  }

  /** A fresh trie: only the root, which is not terminal (src/lz.hpp:103-104, src/lz.cpp:87). */
  function EmptyTrie(): (t: Trie)
    ensures WellFormed(t)
    ensures t.ends == map[]
  {
    Trie({[]}, map[])
  }

  /** Paths of the nodes strictly below the root on the way to `key`, down to depth `upTo`. */
  function Steps(key: seq<int>, upTo: nat): (r: set<seq<int>>)
    requires upTo <= |key|
  {
    if upTo == 0 then {} else Steps(key, upTo - 1) + {key[..upTo]}
  }

  /** The nodes on the way to `key` are its non-empty prefixes up to depth `upTo`. */
  lemma {:induction false} StepsMembers(key: seq<int>, upTo: nat)
    requires upTo <= |key|
    ensures forall p :: p in Steps(key, upTo) <==> exists j :: 1 <= j <= upTo && p == key[..j]
  {
    if upTo > 0 {
      StepsMembers(key, upTo - 1);
    }
  }

  /**
   * The trie after `insert(key, value)`: all missing nodes on the path exist,
   * the last one is terminal with `value`.
   */
  function Inserted(t: Trie, key: seq<int>, value: int): (r: Trie)
    ensures WellFormed(t) ==> WellFormed(r)
  {
    var r := Trie(t.nodes + Steps(key, |key|), t.ends[key := value]);
    assert WellFormed(t) ==> WellFormed(r) by {
      if WellFormed(t) {
        StepsMembers(key, |key|);
        forall p, i | p in r.nodes && 0 <= i <= |p| ensures p[..i] in r.nodes {
          if p !in t.nodes {
            var j :| 1 <= j <= |key| && p == key[..j];
            if i > 0 { assert p[..i] == key[..i]; } else { assert p[..i] == []; }
          }
        }
      }
    }
    r
  }

  /** `size` grows by one on an insert exactly when `key` was not yet a terminal node. */
  lemma InsertedSize(t: Trie, key: seq<int>, value: int)
    ensures Size(Inserted(t, key, value)) == if key in t.ends then Size(t) else Size(t) + 1
  {
  }

  /**
   * Inserting binds `key` to `value`, makes `key` a node, leaves every other
   * key's binding and every existing node in place.
   */
  lemma InsertedMeaning(t: Trie, key: seq<int>, value: int)
    ensures var r := Inserted(t, key, value);
      && key in r.ends && r.ends[key] == value
      && key in r.nodes + {[]}
      && (forall k | k != key :: (k in r.ends <==> k in t.ends) && (k in t.ends ==> r.ends[k] == t.ends[k]))
      && t.nodes <= r.nodes
  {
    StepsMembers(key, |key|);
    if key != [] {
      assert key == key[..|key|];
    }
  }

  /**
   * `Trie::insert` (src/lz.cpp:120-130): walk down `key`, creating each missing
   * child, then mark the last node terminal with `value`.
   */
  method Insert(t: Trie, key: seq<int>, value: int) returns (r: Trie)
    ensures r == Inserted(t, key, value)
  {
    var nodes := t.nodes;
    var current: seq<int> := [];
    var i := 0;
    while i < |key|
      invariant 0 <= i <= |key|
      invariant current == key[..i]
      invariant nodes == t.nodes + Steps(key, i)
    {
      var child := current + [key[i]];
      assert child == key[..i + 1];
      if child !in nodes {
        nodes := nodes + {child};
      }
      current := child;
      i := i + 1;
    }
    assert current == key;
    r := Trie(nodes, t.ends[current := value]);
  }

  /**
   * `Trie::get` (src/lz.cpp:135-148): the walk fails at a missing child and
   * at a node that is not terminal; in a well-formed trie a path reaches a
   * node exactly when that path is in `nodes`.
   */
  function Get(t: Trie, key: seq<int>): (r: Result<int, Error>)
    ensures WellFormed(t) ==> (r.Success? <==> key in t.ends)
    ensures r.Success? ==> key in t.nodes && key in t.ends && r.value == t.ends[key]
    ensures r.Failure? ==> r.error == KeyNotFound
  {
    if key !in t.nodes then Failure(KeyNotFound)
    else if key !in t.ends then Failure(KeyNotFound)
    else Success(t.ends[key])
  }

  /**
   * The walk of `Trie::get` (src/lz.cpp:135-148): step down one child per
   * symbol, failing at the first missing child, then require the reached
   * node to be terminal.
   */
  method Lookup(t: Trie, key: seq<int>) returns (r: Result<int, Error>)
    requires WellFormed(t)
    ensures r == Get(t, key)
  {
    var i := 0;
    while i < |key|
      invariant 0 <= i <= |key|
      invariant key[..i] in t.nodes
    {
      if key[..i + 1] !in t.nodes {
        return Failure(KeyNotFound);
      }
      i := i + 1;
    }
    assert key[..i] == key;
    if key !in t.ends {
      return Failure(KeyNotFound);
    }
    return Success(t.ends[key]);
  }

  /** `Trie::contains` (src/lz.cpp:153-160): `get` without raising. */
  function Contains(t: Trie, key: seq<int>): (b: bool)
    ensures WellFormed(t) ==> (b <==> key in t.ends)
  {
    Get(t, key).Success?
  }

  /** `Trie::size` (src/lz.cpp:189-201): the number of terminal nodes. */
  function Size(t: Trie): nat
  {
    |t.ends|
  }

  /** `value` is the id of the deepest terminal node among the nodes `s[..1]`, ..., `s[..len]`, or `EMPTY_TOKEN` when there is none. */
  ghost predicate DeepestTerminal(t: Trie, s: seq<int>, len: nat, value: int)
    requires len <= |s|
  {
    || (value == EMPTY_TOKEN && forall j | 1 <= j <= len :: s[..j] !in t.ends)
    || (exists j | 1 <= j <= len :: s[..j] in t.ends && value == t.ends[s[..j]]
          && forall k | j < k <= len :: s[..k] !in t.ends)
  }

  /** One step deeper, the deepest terminal node is the new node when it is terminal, and the old one otherwise. */
  lemma DeeperTerminal(t: Trie, s: seq<int>, i: nat, value: int)
    requires i < |s| && DeepestTerminal(t, s, i, value)
    ensures DeepestTerminal(t, s, i + 1, if s[..i + 1] in t.ends then t.ends[s[..i + 1]] else value)
  {
    if s[..i + 1] !in t.ends && value != EMPTY_TOKEN {
      var j :| 1 <= j <= i && s[..j] in t.ends && value == t.ends[s[..j]] && forall k | j < k <= i :: s[..k] !in t.ends;
      assert forall k | j < k <= i + 1 :: s[..k] !in t.ends;
    }
  }

  /** The loop of `longest_prefix` from step `i`, with `value` the id recorded so far. */
  function Walk(t: Trie, s: seq<int>, i: nat, value: int): (r: (seq<int>, int))
    requires i <= |s|
    requires DeepestTerminal(t, s, i, value)
    requires forall j | 1 <= j <= i :: s[..j] in t.nodes
    ensures i <= |r.0| <= |s| && r.0 == s[..|r.0|]
    ensures forall j | 1 <= j <= |r.0| :: s[..j] in t.nodes
    ensures |r.0| < |s| ==> s[..|r.0| + 1] !in t.nodes
    ensures DeepestTerminal(t, s, |r.0|, r.1)
    decreases |s| - i
  {
    if i < |s| && s[..i + 1] in t.nodes then
      var next := s[..i + 1];
      if next in t.ends then
        Walk(t, s, i + 1, t.ends[next])
      else
        Walk(t, s, i + 1, value)
    else
      (s[..i], value)
  }

  /**
   * `Trie::longest_prefix` (src/lz.cpp:166-184): follow `s` down existing
   * edges as far as possible; return the walked path and the id of the
   * deepest terminal node visited. The root is never inspected, so an
   * empty match gives `EMPTY_TOKEN`.
   */
  function LongestPrefix(t: Trie, s: seq<int>): (r: (seq<int>, int))
    ensures r.0 <= s
    ensures forall j | 1 <= j <= |r.0| :: s[..j] in t.nodes
    ensures |r.0| < |s| ==> s[..|r.0| + 1] !in t.nodes
    ensures DeepestTerminal(t, s, |r.0|, r.1)
  {
    Walk(t, s, 0, EMPTY_TOKEN)
  }

  /**
   * The loop of `Trie::longest_prefix` (src/lz.cpp:166-184): follow `s`
   * while the next child exists, remembering the id of the last terminal
   * node passed.
   */
  method FindLongestPrefix(t: Trie, s: seq<int>) returns (prefix: seq<int>, value: int)
    ensures (prefix, value) == LongestPrefix(t, s)
  {
    prefix := [];
    value := EMPTY_TOKEN;
    var i := 0;
    while i < |s|
      invariant 0 <= i <= |s| && prefix == s[..i]
      invariant DeepestTerminal(t, s, i, value)
      invariant forall j | 1 <= j <= i :: s[..j] in t.nodes
      invariant Walk(t, s, i, value) == LongestPrefix(t, s)
      decreases |s| - i
    {
      var next := prefix + [s[i]];
      assert next == s[..i + 1];
      if next !in t.nodes {
        break;
      }
      DeeperTerminal(t, s, i, value);
      prefix := next;
      if next in t.ends {
        value := t.ends[next];
      }
      i := i + 1;
    }
  }

  /** Every node terminates a codeword: then the terminal paths are prefix-closed. */
  ghost predicate AllTerminal(t: Trie)
  {
    WellFormed(t) && t.nodes == t.ends.Keys
  }

  /**
   * In a trie whose every node is terminal the walked path is itself the
   * codeword of the returned id.
   */
  lemma LongestPrefixIsCodeword(t: Trie, s: seq<int>)
    requires AllTerminal(t)
    ensures var (p, v) := LongestPrefix(t, s);
      (p == [] ==> v == EMPTY_TOKEN) && (p != [] ==> p in t.ends && v == t.ends[p])
    ensures var (p, v) := LongestPrefix(t, s);
      forall q | q in t.ends && q <= s :: |q| <= |p|
  {
    var (p, v) := LongestPrefix(t, s);
    if p != [] {
      assert s[..|p|] == p;
    }
    forall q | q in t.ends && q <= s ensures |q| <= |p| {
      var k := if |q| > |p| then |p| + 1 else |q|;
      assert q[..k] == s[..k];
      assert q[..k] in t.nodes;
    }
  }
}
