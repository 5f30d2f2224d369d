/**
 * The binding trie: a prefix tree over integer-encoded keys mapping bound
 * key sequences to command strings, with the three-way match verdict of
 * Qt's key sequences (exact, partial, none).
 */
module BindingTrie {
  import opened Wrappers
  import opened Keys

  /** A trie node: the children by next key, and the command bound here, if any. */
  datatype Trie = Trie(child: map<Key, Trie>, command: Option<string>)

  /** A fresh node: no children and no command. */
  const Empty: Trie := Trie(map[], None)

  /** The match kinds of `QKeySequence`. */
  datatype MatchType = ExactMatch | PartialMatch | NoMatch

  /** The `(matchtype, binding)` pair a lookup returns. */
  datatype Lookup = Lookup(matchType: MatchType, binding: Option<string>)

  /** A node that has a command or at least one child. */
  predicate Populated(t: Trie)
  {
    t.command.Some? || |t.child| > 0
  }

  /** Below the root, no node is without both a command and children. */
  predicate WellFormed(t: Trie)
  {
    forall k | k in t.child :: Populated(t.child[k]) && WellFormed(t.child[k])
  }

  /**
   * `_set`: bind `command` to the keys `sequence[index..]` below `t`,
   * creating the missing nodes on the way.
   */
  function Set(t: Trie, sequence: seq<Key>, index: nat, command: string): Trie
    requires index <= |sequence|
    decreases |sequence| - index
  {
    if index == |sequence| then t.(command := Some(command))
    else
      var key := sequence[index];
      var sub := if key in t.child then t.child[key] else Empty;
      t.(child := t.child[key := Set(sub, sequence, index + 1, command)])
  }

  /** `__setitem__`: bind `command` to the whole of `sequence`. */
  function Insert(t: Trie, sequence: seq<Key>, command: string): Trie
  {
    Set(t, sequence, 0, command)
  }

  /** The verdict for a node at which the whole sequence has been consumed. */
  function EndVerdict(t: Trie): Lookup
  {
    if t.command.Some? then Lookup(ExactMatch, t.command)
    else if |t.child| > 0 then Lookup(PartialMatch, None)
    else Lookup(NoMatch, None)
  }

  /**
   * `_matches`: walk `sequence[index..]` down from `t`. A binding comes
   * back exactly with an exact match.
   */
  function Matches(t: Trie, sequence: seq<Key>, index: nat): (r: Lookup)
    requires index <= |sequence|
    ensures r.binding.Some? <==> r.matchType == ExactMatch
    decreases |sequence| - index
  {
    if index == |sequence| then EndVerdict(t)
    else if sequence[index] in t.child then Matches(t.child[sequence[index]], sequence, index + 1)
    else Lookup(NoMatch, None)
  }

  /** `matches`: look up a whole key sequence. */
  function Match(t: Trie, sequence: seq<Key>): (r: Lookup)
    ensures r.binding.Some? <==> r.matchType == ExactMatch
  {
    Matches(t, sequence, 0)
  }

  /** `update`: insert every pair of a binding table in its iteration order. */
  function Update(t: Trie, table: seq<(seq<Key>, string)>): Trie
    decreases |table|
  {
    if |table| == 0 then t
    else
      var last := table[|table| - 1];
      Insert(Update(t, table[..|table| - 1]), last.0, last.1)
  }

  /** The node reached by following `sequence[index..]` from `t`, if there is one. */
  function Walk(t: Trie, sequence: seq<Key>, index: nat): Option<Trie>
    requires index <= |sequence|
    decreases |sequence| - index
  {
    if index == |sequence| then Some(t)
    else if sequence[index] in t.child then Walk(t.child[sequence[index]], sequence, index + 1)
    else None
  }

  // ---------------------------------------------------------------------
  // Insertion and lookup
  // ---------------------------------------------------------------------

  /** Nothing matches in a trie without bindings. */
  lemma {:induction false} EmptyMatchesNothing(sequence: seq<Key>, index: nat)
    requires index <= |sequence|
    ensures Matches(Empty, sequence, index) == Lookup(NoMatch, None)
  {
  }

  /** After binding a sequence, looking it up finds exactly that command. */
  lemma {:induction false} SetThenMatches(t: Trie, sequence: seq<Key>, index: nat, command: string)
    requires index <= |sequence|
    ensures Matches(Set(t, sequence, index, command), sequence, index) == Lookup(ExactMatch, Some(command))
    decreases |sequence| - index
  {
    if index < |sequence| {
      var key := sequence[index];
      var sub := if key in t.child then t.child[key] else Empty;
      SetThenMatches(sub, sequence, index + 1, command);
    }
  }

  /** Binding the same sequence twice keeps only the second command. */
  lemma {:induction false} SetOverwrites(t: Trie, sequence: seq<Key>, index: nat, first: string, second: string)
    requires index <= |sequence|
    ensures Set(Set(t, sequence, index, first), sequence, index, second) == Set(t, sequence, index, second)
    decreases |sequence| - index
  {
    if index < |sequence| {
      var key := sequence[index];
      var sub := if key in t.child then t.child[key] else Empty;
      SetOverwrites(sub, sequence, index + 1, first, second);
    }
  }

  /** Last write wins: re-inserting a sequence replaces its command. */
  lemma InsertOverwrites(t: Trie, sequence: seq<Key>, first: string, second: string)
    ensures Insert(Insert(t, sequence, first), sequence, second) == Insert(t, sequence, second)
    ensures Match(Insert(Insert(t, sequence, first), sequence, second), sequence)
      == Lookup(ExactMatch, Some(second))
  {
    SetOverwrites(t, sequence, 0, first, second);
    SetThenMatches(t, sequence, 0, second);
  }

  /** Binding `sequence` leaves the lookup of any key list that is not a prefix of it unchanged. */
  lemma {:induction false} SetFrame(t: Trie, sequence: seq<Key>, query: seq<Key>, index: nat, command: string)
    requires index <= |sequence| && index <= |query|
    requires !(query[index..] <= sequence[index..])
    ensures Matches(Set(t, sequence, index, command), query, index) == Matches(t, query, index)
    decreases |sequence| - index
  {
    if index < |sequence| {
      assert index < |query|;
      var key := sequence[index];
      var sub := if key in t.child then t.child[key] else Empty;
      if query[index] == key {
        assert query[index..] == [key] + query[index + 1..];
        assert sequence[index..] == [key] + sequence[index + 1..];
        SetFrame(sub, sequence, query, index + 1, command);
        if key !in t.child {
          EmptyMatchesNothing(query, index + 1);
        }
      }
    } else {
      assert index < |query|;
    }
  }

  /**
   * Binding `sequence` turns the lookup of a strict prefix of it into a
   * partial match, unless that prefix is itself bound.
   */
  lemma {:induction false} SetStrictPrefix(t: Trie, sequence: seq<Key>, query: seq<Key>, index: nat, command: string)
    requires index <= |sequence| && index <= |query|
    requires query[index..] < sequence[index..]
    ensures Matches(Set(t, sequence, index, command), query, index)
      == if Matches(t, query, index).matchType == ExactMatch then Matches(t, query, index)
         else Lookup(PartialMatch, None)
    decreases |sequence| - index
  {
    assert index < |sequence|;
    var key := sequence[index];
    var sub := if key in t.child then t.child[key] else Empty;
    if index < |query| {
      assert query[index] == sequence[index] by {
        assert query[index..][0] == sequence[index..][0];
      }
      assert query[index + 1..] == query[index..][1..];
      assert sequence[index + 1..] == sequence[index..][1..];
      SetStrictPrefix(sub, sequence, query, index + 1, command);
      if key !in t.child {
        EmptyMatchesNothing(query, index + 1);
      }
    }
  }

  // ---------------------------------------------------------------------
  // The no-dangling-leaf invariant
  // ---------------------------------------------------------------------

  /** Inserting keeps every node below the root populated, and the node it returns is populated. */
  lemma {:induction false} SetWellFormed(t: Trie, sequence: seq<Key>, index: nat, command: string)
    requires index <= |sequence|
    requires WellFormed(t)
    ensures WellFormed(Set(t, sequence, index, command))
    ensures Populated(Set(t, sequence, index, command))
    decreases |sequence| - index
  {
    if index < |sequence| {
      var key := sequence[index];
      var sub := if key in t.child then t.child[key] else Empty;
      SetWellFormed(sub, sequence, index + 1, command);
    }
  }

  /** A table of bindings builds a trie without dangling leaves. */
  lemma {:induction false} UpdateWellFormed(t: Trie, table: seq<(seq<Key>, string)>)
    requires WellFormed(t)
    ensures WellFormed(Update(t, table))
    decreases |table|
  {
    if |table| > 0 {
      var last := table[|table| - 1];
      UpdateWellFormed(t, table[..|table| - 1]);
      SetWellFormed(Update(t, table[..|table| - 1]), last.0, 0, last.1);
    }
  }

  /** The verdict of a lookup is the verdict of the node its walk ends at. */
  lemma {:induction false} MatchesViaWalk(t: Trie, sequence: seq<Key>, index: nat)
    requires index <= |sequence|
    ensures Matches(t, sequence, index)
      == match Walk(t, sequence, index)
         case None => Lookup(NoMatch, None)
         case Some(n) => EndVerdict(n)
    decreases |sequence| - index
  {
    if index < |sequence| && sequence[index] in t.child {
      MatchesViaWalk(t.child[sequence[index]], sequence, index + 1);
    }
  }

  /** In a well-formed trie every node a non-empty walk reaches is populated. */
  lemma {:induction false} WalkReachesPopulated(t: Trie, sequence: seq<Key>, index: nat)
    requires index < |sequence|
    requires WellFormed(t)
    requires Walk(t, sequence, index).Some?
    ensures Populated(Walk(t, sequence, index).value)
    decreases |sequence| - index
  {
    var key := sequence[index];
    assert key in t.child;
    var sub := t.child[key];
    assert Populated(sub) && WellFormed(sub);
    if index + 1 < |sequence| {
      WalkReachesPopulated(sub, sequence, index + 1);
    }
  }

  /**
   * In a trie built by insertions a non-empty sequence fails to match
   * exactly when its walk falls off the trie: a command-less, childless
   * end node can only be the root.
   */
  lemma NoMatchIsDeadEnd(t: Trie, sequence: seq<Key>)
    requires WellFormed(t)
    requires |sequence| > 0
    ensures Match(t, sequence).matchType == NoMatch <==> Walk(t, sequence, 0).None?
  {
    MatchesViaWalk(t, sequence, 0);
    if Walk(t, sequence, 0).Some? {
      WalkReachesPopulated(t, sequence, 0);
    }
  }

  // ---------------------------------------------------------------------
  // A binding table as a reference for the trie built from it
  // ---------------------------------------------------------------------

  /** The command a table binds to `sequence`: that of its last entry for it. */
  function BoundTo(table: seq<(seq<Key>, string)>, sequence: seq<Key>): Option<string>
    decreases |table|
  {
    if |table| == 0 then None
    else if table[|table| - 1].0 == sequence then Some(table[|table| - 1].1)
    else BoundTo(table[..|table| - 1], sequence)
  }

  /** Some entry of the table continues `sequence` with at least one more key. */
  predicate Extends(table: seq<(seq<Key>, string)>, sequence: seq<Key>)
  {
    exists i | 0 <= i < |table| :: sequence < table[i].0
  }

  /**
   * The lookup expected after adding `table` on top of `t`: the table's
   * own binding first, a partial match if the table extends the sequence
   * and `t` does not bind it, and otherwise whatever `t` said.
   */
  function Expected(t: Trie, table: seq<(seq<Key>, string)>, sequence: seq<Key>): Lookup
  {
    match BoundTo(table, sequence)
    case Some(c) => Lookup(ExactMatch, Some(c))
    case None =>
      if Extends(table, sequence) && Match(t, sequence).matchType != ExactMatch
      then Lookup(PartialMatch, None)
      else Match(t, sequence)
  }

  /** `update` agrees with the table read as a reference, for every sequence. */
  lemma {:induction false} UpdateMatches(t: Trie, table: seq<(seq<Key>, string)>, sequence: seq<Key>)
    ensures Match(Update(t, table), sequence) == Expected(t, table, sequence)
    decreases |table|
  {
    if |table| > 0 {
      var init := table[..|table| - 1];
      var last := table[|table| - 1];
      var before := Update(t, init);
      UpdateMatches(t, init, sequence);
      if sequence == last.0 {
        SetThenMatches(before, sequence, 0, last.1);
      } else if sequence < last.0 {
        SetStrictPrefix(before, last.0, sequence, 0, last.1);
        assert Extends(table, sequence) by {
          assert sequence < table[|table| - 1].0;
        }
      } else {
        SetFrame(before, last.0, sequence, 0, last.1);
        assert Extends(table, sequence) <==> Extends(init, sequence) by {
          if Extends(table, sequence) {
            var i :| 0 <= i < |table| && sequence < table[i].0;
            assert i < |init| && init[i] == table[i];
          }
          if Extends(init, sequence) {
            var i :| 0 <= i < |init| && sequence < init[i].0;
            assert table[i] == init[i];
          }
        }
      }
    }
  }

  /** The verdict a table alone gives a sequence, read as a specification. */
  function TableVerdict(table: seq<(seq<Key>, string)>, sequence: seq<Key>): Lookup
  {
    match BoundTo(table, sequence)
    case Some(c) => Lookup(ExactMatch, Some(c))
    case None =>
      if Extends(table, sequence) then Lookup(PartialMatch, None)
      else Lookup(NoMatch, None)
  }

  /**
   * The trie `_read_config` builds from a table: exact with the last
   * command bound to the sequence, partial for a strict prefix of a bound
   * sequence, no match otherwise.
   */
  lemma BuildMatches(table: seq<(seq<Key>, string)>, sequence: seq<Key>)
    ensures Match(Update(Empty, table), sequence) == TableVerdict(table, sequence)
  {
    UpdateMatches(Empty, table, sequence);
    EmptyMatchesNothing(sequence, 0);
  }

  /**
   * In a trie rebuilt from a table, a partial match means exactly that the
   * sequence is not bound itself and is a strict prefix of some bound
   * sequence.
   */
  lemma PartialIsUnboundPrefix(table: seq<(seq<Key>, string)>, sequence: seq<Key>)
    ensures Match(Update(Empty, table), sequence).matchType == PartialMatch
      <==> Extends(table, sequence) && BoundTo(table, sequence) == None
  {
    BuildMatches(table, sequence);
  }
}
