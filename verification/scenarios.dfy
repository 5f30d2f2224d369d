/**
 * Concrete key-press sequences fed to `handle`, proved with a small made-up key
 * encoding: a key code plus 1000 for a strippable modifier, and
 * characters as their code points.
 */
module Scenarios {
  import opened Wrappers
  import opened Keys
  import opened Count
  import opened BindingTrie
  import opened KeyParser
  import opened HandleProperties

  const KeyTwo: Key := 50
  const KeyThree: Key := 51
  const KeyZero: Key := 48
  const KeyOne: Key := 49
  const KeyD: Key := 100
  const KeyG: Key := 103
  const KeyX: Key := 120

  /** Texts of the keys used below; anything else reads as "?". */
  function TextOf(k: Key): string
  {
    if k == KeyTwo then "2" else if k == KeyThree then "3" else if k == KeyZero then "0"
    else if k == KeyOne then "1" else if k == KeyD then "d" else if k == KeyG then "g" else "?"
  }

  /** Key utilities where every event decodes to its key code and 1000 marks a modifier. */
  function ExampleKeys(): KeyUtils
  {
    KeyUtils(
      (code: int) => false,
      (e: KeyEvent) => Some(e.qtKey),
      (k: Key) => k % 1000,
      TextOf,
      (s: seq<Key>) => "")
  }

  function Press(k: Key): KeyEvent
  {
    KeyEvent(k, 0)
  }

  /** A parser in normal mode whose bindings are read from `table`. */
  function ParserWith(table: seq<(seq<Key>, string)>): Parser
  {
    Parser(Update(Empty, table), Some("normal"), [], "", true)
  }

  /** The trie of a single binding of one key. */
  lemma SingleKeyTrie(k: Key, command: string)
    ensures Update(Empty, [([k], command)]) == Trie(map[k := Trie(map[], Some(command))], None)
  {
    var table := [([k], command)];
    assert table[..0] == [];
    assert Update(Empty, table) == Set(Empty, [k], 0, command);
    assert Set(Empty, [k], 1, command) == Trie(map[], Some(command));
  }

  /** The trie of a single binding of two keys. */
  lemma TwoKeyTrie(k1: Key, k2: Key, command: string)
    ensures Update(Empty, [([k1, k2], command)])
      == Trie(map[k1 := Trie(map[k2 := Trie(map[], Some(command))], None)], None)
  {
    var table := [([k1, k2], command)];
    assert table[..0] == [];
    assert Update(Empty, table) == Set(Empty, [k1, k2], 0, command);
    assert Set(Empty, [k1, k2], 2, command) == Trie(map[], Some(command));
    assert Set(Empty, [k1, k2], 1, command) == Trie(map[k2 := Trie(map[], Some(command))], None);
  }

  /** Lookups in the trie of a single binding. */
  lemma SingleBindingMatches(bound: seq<Key>, command: string, query: seq<Key>)
    ensures Match(Update(Empty, [(bound, command)]), query)
      == if query == bound then Lookup(ExactMatch, Some(command))
         else if query < bound then Lookup(PartialMatch, None)
         else Lookup(NoMatch, None)
  {
    var table := [(bound, command)];
    assert table[..0] == [];
    BuildMatches(table, query);
    if query != bound {
      assert BoundTo(table, query) == None;
      if query < bound {
        assert query < table[0].0;
      } else {
        assert !Extends(table, query) by {
          forall i | 0 <= i < |table|
            ensures !(query < table[i].0)
          {
            assert i == 0;
          }
        }
      }
    }
  }

  /** A plain key (below 1000) is its own stripped form and is fixed by an empty mapping. */
  lemma PlainKey(s: seq<Key>)
    requires forall i | 0 <= i < |s| :: 0 <= s[i] < 1000
    ensures StripModifiers(ExampleKeys(), s) == s
    ensures WithMappings(map[], s) == s
  {
  }

  /** Typing "2", "3", then a bound "d" executes its command with count 23. */
  lemma CountThenCommand()
    ensures var p0 := ParserWith([([KeyD], "delete")]);
      var r1 := Handle(ExampleKeys(), map[], p0, Press(KeyTwo), false);
      var r2 := Handle(ExampleKeys(), map[], r1.parser, Press(KeyThree), false);
      var r3 := Handle(ExampleKeys(), map[], r2.parser, Press(KeyD), false);
      && r1.verdict == ExactMatch && r1.parser.count == "2"
      && r2.verdict == ExactMatch && r2.parser.count == "23"
      && r3.verdict == ExactMatch
      && r3.signals == [KeystringUpdated(""), Execute("delete", Some(23))]
      && Idle(r3.parser)
  {
    var ku := ExampleKeys();
    var p0 := ParserWith([([KeyD], "delete")]);
    PlainKey([KeyTwo]);
    PlainKey([KeyThree]);
    PlainKey([KeyD]);
    SingleBindingMatches([KeyD], "delete", [KeyTwo]);
    SingleBindingMatches([KeyD], "delete", [KeyThree]);
    SingleBindingMatches([KeyD], "delete", [KeyD]);

    assert Typed(ku, p0, Press(KeyTwo)) == [KeyTwo];
    assert Found(ku, map[], p0, Press(KeyTwo)) == Candidate(Lookup(NoMatch, None), [KeyTwo]);
    HandleCountDigit(ku, map[], p0, Press(KeyTwo), false);
    var p1 := p0.(count := "2");
    assert Handle(ku, map[], p0, Press(KeyTwo), false).parser == p1;

    assert Typed(ku, p1, Press(KeyThree)) == [KeyThree];
    assert Found(ku, map[], p1, Press(KeyThree)) == Candidate(Lookup(NoMatch, None), [KeyThree]);
    HandleCountDigit(ku, map[], p1, Press(KeyThree), false);
    var p2 := p0.(count := "23");
    assert Handle(ku, map[], p1, Press(KeyThree), false).parser == p2;

    assert Typed(ku, p2, Press(KeyD)) == [KeyD];
    assert Found(ku, map[], p2, Press(KeyD)) == Candidate(Lookup(ExactMatch, Some("delete")), [KeyD]);
    HandleCommitsExactMatch(ku, map[], p2, Press(KeyD));
    assert ParseCount("23") == Some(23) by {
      assert "23"[..1] == "2";
    }
  }

  /** A '0' before any count digit is not a count: unbound, it is no match and the count stays empty. */
  lemma LeadingZeroIsNotCount()
    ensures var p0 := ParserWith([([KeyD], "delete")]);
      var r := Handle(ExampleKeys(), map[], p0, Press(KeyZero), false);
      r.verdict == NoMatch && r.parser.count == ""
    ensures var p1 := ParserWith([([KeyD], "delete")]).(count := "1");
      var r := Handle(ExampleKeys(), map[], p1, Press(KeyZero), false);
      r.verdict == ExactMatch && r.parser.count == "10"
  {
    var ku := ExampleKeys();
    var p0 := ParserWith([([KeyD], "delete")]);
    PlainKey([KeyZero]);
    SingleBindingMatches([KeyD], "delete", [KeyZero]);
    assert Typed(ku, p0, Press(KeyZero)) == [KeyZero];
    assert Found(ku, map[], p0, Press(KeyZero)) == Candidate(Lookup(NoMatch, None), [KeyZero]);
    assert !CountHit(ku, map[], p0, Press(KeyZero));
    HandleCommitsNoMatch(ku, map[], p0, Press(KeyZero));
    var p1 := p0.(count := "1");
    assert Typed(ku, p1, Press(KeyZero)) == [KeyZero];
    assert Found(ku, map[], p1, Press(KeyZero)) == Candidate(Lookup(NoMatch, None), [KeyZero]);
    HandleCountDigit(ku, map[], p1, Press(KeyZero), false);
  }

  /** With "g g" bound, "g" is a partial match and the second "g" executes. */
  lemma TwoKeyChain()
    ensures var p0 := ParserWith([([KeyG, KeyG], "scroll-to-perc 0")]);
      var r1 := Handle(ExampleKeys(), map[], p0, Press(KeyG), false);
      var r2 := Handle(ExampleKeys(), map[], r1.parser, Press(KeyG), false);
      && r1.verdict == PartialMatch && r1.parser.sequence == [KeyG]
      && r2.verdict == ExactMatch
      && r2.signals == [KeystringUpdated(""), Execute("scroll-to-perc 0", None)]
  {
    var ku := ExampleKeys();
    var p0 := ParserWith([([KeyG, KeyG], "scroll-to-perc 0")]);
    PlainKey([KeyG]);
    assert [KeyG] < [KeyG, KeyG];
    SingleBindingMatches([KeyG, KeyG], "scroll-to-perc 0", [KeyG]);
    SingleBindingMatches([KeyG, KeyG], "scroll-to-perc 0", [KeyG, KeyG]);
    assert Typed(ku, p0, Press(KeyG)) == [KeyG];
    assert Found(ku, map[], p0, Press(KeyG)) == Candidate(Lookup(PartialMatch, None), [KeyG]);
    HandleCommitsPartialMatch(ku, map[], p0, Press(KeyG));
    var p1 := p0.(sequence := [KeyG]);
    assert Handle(ku, map[], p0, Press(KeyG), false).parser == p1;
    assert Typed(ku, p1, Press(KeyG)) == [KeyG, KeyG];
    assert Found(ku, map[], p1, Press(KeyG))
      == Candidate(Lookup(ExactMatch, Some("scroll-to-perc 0")), [KeyG, KeyG]);
    HandleCommitsExactMatch(ku, map[], p1, Press(KeyG));
  }

  /** An unbound modified key falls back to its stripped form, which becomes the chain. */
  lemma StrippedFallback()
    ensures var p0 := ParserWith([([KeyG, KeyX], "hint")]);
      var r := Handle(ExampleKeys(), map[], p0, Press(1000 + KeyG), false);
      r.verdict == PartialMatch && r.parser.sequence == [KeyG]
  {
    var ku := ExampleKeys();
    var p0 := ParserWith([([KeyG, KeyX], "hint")]);
    assert StripModifiers(ku, [1000 + KeyG]) == [KeyG];
    assert [KeyG] < [KeyG, KeyX];
    SingleBindingMatches([KeyG, KeyX], "hint", [1000 + KeyG]);
    SingleBindingMatches([KeyG, KeyX], "hint", [KeyG]);
    assert Typed(ku, p0, Press(1000 + KeyG)) == [1000 + KeyG];
    assert Found(ku, map[], p0, Press(1000 + KeyG)) == Candidate(Lookup(PartialMatch, None), [KeyG]);
    HandleCommitsPartialMatch(ku, map[], p0, Press(1000 + KeyG));
  }

  /** A remapped key matches through its image, and the chain keeps the image. */
  lemma MappedFallback()
    ensures var p0 := ParserWith([([KeyG, KeyX], "hint")]);
      var r := Handle(ExampleKeys(), map[KeyD := KeyG], p0, Press(KeyD), false);
      r.verdict == PartialMatch && r.parser.sequence == [KeyG]
  {
    var ku := ExampleKeys();
    var mappings := map[KeyD := KeyG];
    var p0 := ParserWith([([KeyG, KeyX], "hint")]);
    PlainKey([KeyD]);
    assert WithMappings(mappings, [KeyD]) == [KeyG];
    assert [KeyG] < [KeyG, KeyX];
    SingleBindingMatches([KeyG, KeyX], "hint", [KeyD]);
    SingleBindingMatches([KeyG, KeyX], "hint", [KeyG]);
    assert Typed(ku, p0, Press(KeyD)) == [KeyD];
    assert Found(ku, mappings, p0, Press(KeyD)) == Candidate(Lookup(PartialMatch, None), [KeyG]);
    HandleCommitsPartialMatch(ku, mappings, p0, Press(KeyD));
  }
}
