/**
 * What one call of `handle` promises: the ignored and aborted keys, the
 * count digit, the three commit branches, the dry run, the order of the
 * signals around `execute`, and the state invariants it keeps.
 */
module HandleProperties {
  import opened Wrappers
  import opened Keys
  import opened Count
  import opened BindingTrie
  import opened KeyParser

  /** The key chain with the event's key appended (when the event decodes). */
  function Typed(ku: KeyUtils, p: Parser, e: KeyEvent): (s: seq<Key>)
    requires ku.keyOf(e).Some?
    ensures |s| == |p.sequence| + 1
  {
    p.sequence + [ku.keyOf(e).value]
  }

  /** The candidate the fallbacks settle on for this key press. */
  function Found(ku: KeyUtils, mappings: map<Key, Key>, p: Parser, e: KeyEvent): Candidate
    requires ku.keyOf(e).Some?
  {
    FindCandidate(ku, mappings, p, Typed(ku, p, e))
  }

  /** The text of the last key of the candidate: what the count-digit test reads. */
  function LastText(ku: KeyUtils, mappings: map<Key, Key>, p: Parser, e: KeyEvent): string
    requires ku.keyOf(e).Some?
  {
    var c := Found(ku, mappings, p, e);
    ku.keyText(c.sequence[|c.sequence| - 1])
  }

  /** The key press is read as a count digit. */
  predicate CountHit(ku: KeyUtils, mappings: map<Key, Key>, p: Parser, e: KeyEvent)
    requires ku.keyOf(e).Some?
  {
    && Found(ku, mappings, p, e).lookup.matchType == NoMatch
    && IsCountKey(p, LastText(ku, mappings, p, e))
  }

  /** `command` is bound to the typed sequence, its stripped form or the mapped stripped form. */
  predicate BoundForm(ku: KeyUtils, mappings: map<Key, Key>, t: Trie, s: seq<Key>, command: string)
  {
    || Match(t, s) == Lookup(ExactMatch, Some(command))
    || Match(t, StripModifiers(ku, s)) == Lookup(ExactMatch, Some(command))
    || Match(t, WithMappings(mappings, StripModifiers(ku, s))) == Lookup(ExactMatch, Some(command))
  }

  // ---------------------------------------------------------------------
  // Keys that never reach the bindings
  // ---------------------------------------------------------------------

  /** A bare modifier key is ignored: no match, no change, no signal, dry run or not. */
  lemma HandleIgnoresModifierKeys(ku: KeyUtils, mappings: map<Key, Key>, p: Parser, e: KeyEvent, dryRun: bool)
    requires AllDigits(p.count)
    requires ku.isModifierKey(e.qtKey)
    ensures Handle(ku, mappings, p, e, dryRun) == Handled(p, NoMatch, [])
  {
  }

  /**
   * A key that fails to decode aborts the key chain, even on a dry run:
   * no match, and the reset of `clear_keystring` (which keeps a count
   * typed without keys).
   */
  lemma HandleAbortsOnParseError(ku: KeyUtils, mappings: map<Key, Key>, p: Parser, e: KeyEvent, dryRun: bool)
    requires AllDigits(p.count)
    requires !ku.isModifierKey(e.qtKey) && ku.keyOf(e).None?
    ensures var r := Handle(ku, mappings, p, e, dryRun);
      && r.verdict == NoMatch
      && r.parser.sequence == []
      && (p.sequence == [] ==> r.parser == p && r.signals == [])
      && (p.sequence != [] ==> r.parser.count == "" && r.signals == [KeystringUpdated("")])
  {
  }

  // ---------------------------------------------------------------------
  // Count digits
  // ---------------------------------------------------------------------

  /**
   * A count digit is an exact match that neither touches the key chain
   * nor executes anything; outside a dry run the count grows by exactly
   * that digit and the new keystring is announced.
   */
  lemma HandleCountDigit(ku: KeyUtils, mappings: map<Key, Key>, p: Parser, e: KeyEvent, dryRun: bool)
    requires AllDigits(p.count)
    requires !ku.isModifierKey(e.qtKey) && ku.keyOf(e).Some?
    requires CountHit(ku, mappings, p, e)
    ensures var r := Handle(ku, mappings, p, e, dryRun);
      var txt := LastText(ku, mappings, p, e);
      && r.verdict == ExactMatch
      && r.parser.sequence == p.sequence
      && (dryRun ==> r.parser == p && r.signals == [])
      && (!dryRun ==> r.parser.count == p.count + txt
                      && r.signals == [KeystringUpdated(p.count + txt + ku.render(p.sequence))])
  {
  }

  /**
   * The count-digit rule against the program's own test: the text passes
   * `txt in string.digits` and `_match_count`'s `assert len(txt) == 1`,
   * counts are supported, and it is not a '0' typed with an empty count.
   */
  lemma CountKeyRule(p: Parser, txt: string)
    ensures IsCountKey(p, txt)
      <==> InDigitsAsWritten(txt) && |txt| == 1 && p.supportsCount && !(p.count == "" && txt == "0")
  {
    DigitTextMatchesAsWritten(txt);
  }

  // ---------------------------------------------------------------------
  // Committing a verdict
  // ---------------------------------------------------------------------

  /**
   * An exact match reads the count, clears the chain and the count, and
   * then calls `execute` once with the binding and that count.
   */
  lemma HandleCommitsExactMatch(ku: KeyUtils, mappings: map<Key, Key>, p: Parser, e: KeyEvent)
    requires AllDigits(p.count)
    requires !ku.isModifierKey(e.qtKey) && ku.keyOf(e).Some?
    requires Found(ku, mappings, p, e).lookup.matchType == ExactMatch
    ensures Handle(ku, mappings, p, e, false)
      == Handled(p.(sequence := [], count := ""), ExactMatch,
                 [KeystringUpdated(""), Execute(Found(ku, mappings, p, e).lookup.binding.value, ParseCount(p.count))])
  {
  }

  /** A partial match keeps the candidate as the chain and the count as it was, and announces both. */
  lemma HandleCommitsPartialMatch(ku: KeyUtils, mappings: map<Key, Key>, p: Parser, e: KeyEvent)
    requires AllDigits(p.count)
    requires !ku.isModifierKey(e.qtKey) && ku.keyOf(e).Some?
    requires Found(ku, mappings, p, e).lookup.matchType == PartialMatch
    ensures var found := Found(ku, mappings, p, e);
      Handle(ku, mappings, p, e, false)
      == Handled(p.(sequence := found.sequence), PartialMatch,
                 [KeystringUpdated(p.count + ku.render(found.sequence))])
  {
  }

  /** No match and no count digit abandons the chain and the count. */
  lemma HandleCommitsNoMatch(ku: KeyUtils, mappings: map<Key, Key>, p: Parser, e: KeyEvent)
    requires AllDigits(p.count)
    requires !ku.isModifierKey(e.qtKey) && ku.keyOf(e).Some?
    requires Found(ku, mappings, p, e).lookup.matchType == NoMatch
    requires !CountHit(ku, mappings, p, e)
    ensures Handle(ku, mappings, p, e, false)
      == Handled(p.(sequence := [], count := ""), NoMatch, [KeystringUpdated("")])
  {
  }

  /**
   * `execute` is called at most once per key press, never on a dry run,
   * always right after the empty keystring is announced, with the parser
   * already idle, with the count typed before, and with a command bound
   * to the typed keys in one of their three forms.
   */
  lemma {:induction false} ExecuteFollowsClear(ku: KeyUtils, mappings: map<Key, Key>, p: Parser, e: KeyEvent, dryRun: bool)
    requires AllDigits(p.count)
    ensures var r := Handle(ku, mappings, p, e, dryRun);
      forall i | 0 <= i < |r.signals| && r.signals[i].Execute? ::
        && !dryRun
        && i == 1 && |r.signals| == 2
        && r.signals[0] == KeystringUpdated("")
        && Idle(r.parser)
        && r.signals[i].count == ParseCount(p.count)
        && ku.keyOf(e).Some?
        && BoundForm(ku, mappings, p.bindings, Typed(ku, p, e), r.signals[i].command)
  {
    var r := Handle(ku, mappings, p, e, dryRun);
    if !ku.isModifierKey(e.qtKey) && ku.keyOf(e).Some? {
      var s := Typed(ku, p, e);
      var found := Found(ku, mappings, p, e);
      FallbackOrder(ku, mappings, p, s);
      if !dryRun && found.lookup.matchType == ExactMatch {
        assert found.sequence == s || found.sequence == StripModifiers(ku, s)
          || found.sequence == WithMappings(mappings, StripModifiers(ku, s));
        assert BoundForm(ku, mappings, p.bindings, s, found.lookup.binding.value);
      }
    }
  }

  // ---------------------------------------------------------------------
  // Dry runs
  // ---------------------------------------------------------------------

  /**
   * A dry run of a key that decodes changes nothing and emits nothing; its
   * verdict is that of the fallbacks, or an exact match for a count digit.
   */
  lemma DryRunIsPure(ku: KeyUtils, mappings: map<Key, Key>, p: Parser, e: KeyEvent)
    requires AllDigits(p.count)
    requires !ku.isModifierKey(e.qtKey) && ku.keyOf(e).Some?
    ensures var r := Handle(ku, mappings, p, e, true);
      && r.parser == p
      && r.signals == []
      && r.verdict == (if CountHit(ku, mappings, p, e) then ExactMatch
                       else Found(ku, mappings, p, e).lookup.matchType)
  {
  }

  /** Repeating a dry run gives the same verdict and state, and emits nothing more. */
  lemma DryRunRepeatable(ku: KeyUtils, mappings: map<Key, Key>, p: Parser, e: KeyEvent)
    requires AllDigits(p.count)
    ensures var r := Handle(ku, mappings, p, e, true);
      Handle(ku, mappings, r.parser, e, true) == Handled(r.parser, r.verdict, [])
    ensures forall i | 0 <= i < |Handle(ku, mappings, p, e, true).signals| ::
      Handle(ku, mappings, p, e, true).signals[i] == KeystringUpdated("")
  {
  }

  // ---------------------------------------------------------------------
  // Invariants
  // ---------------------------------------------------------------------

  /**
   * A key press keeps the count well formed (digits, no leading zero) and
   * the retained chain either empty or a strict prefix of some binding.
   */
  lemma {:induction false} HandleKeepsInvariant(ku: KeyUtils, mappings: map<Key, Key>, p: Parser, e: KeyEvent, dryRun: bool)
    requires ValidCount(p.count) && Pending(p)
    ensures ValidCount(Handle(ku, mappings, p, e, dryRun).parser.count)
    ensures Pending(Handle(ku, mappings, p, e, dryRun).parser)
  {
    if ku.isModifierKey(e.qtKey) {
      HandleIgnoresModifierKeys(ku, mappings, p, e, dryRun);
    } else if ku.keyOf(e).None? {
      HandleAbortsOnParseError(ku, mappings, p, e, dryRun);
    } else if CountHit(ku, mappings, p, e) {
      HandleCountDigit(ku, mappings, p, e, dryRun);
      if !dryRun {
        CountDigitKeepsValid(p, LastText(ku, mappings, p, e));
      }
    } else if dryRun {
      DryRunIsPure(ku, mappings, p, e);
    } else {
      var found := Found(ku, mappings, p, e);
      match found.lookup.matchType
      case ExactMatch => HandleCommitsExactMatch(ku, mappings, p, e);
      case PartialMatch => HandleCommitsPartialMatch(ku, mappings, p, e);
      case NoMatch => HandleCommitsNoMatch(ku, mappings, p, e);
    }
  }

  /** Appending an accepted count digit keeps the count well formed. */
  lemma CountDigitKeepsValid(p: Parser, txt: string)
    requires ValidCount(p.count) && IsCountKey(p, txt)
    ensures ValidCount(p.count + txt)
  {
    if p.count == "" {
      assert txt == [txt[0]];
    }
  }

  /** A fresh parser satisfies the invariant. */
  lemma NewParserInvariant(supportsCount: bool)
    ensures Idle(NewParser(supportsCount))
    ensures ValidCount(NewParser(supportsCount).count) && Pending(NewParser(supportsCount))
  {
  }

  /**
   * With bindings read from a table, every command `handle` executes is
   * the one the table binds (last entry winning) to the typed keys, to
   * their stripped form, or to the mapped stripped form.
   */
  lemma ExecutesConfiguredCommand(ku: KeyUtils, mappings: map<Key, Key>, p: Parser, e: KeyEvent, dryRun: bool,
                                  table: seq<(seq<Key>, string)>, i: nat)
    requires AllDigits(p.count)
    requires p.bindings == Update(Empty, table)
    requires i < |Handle(ku, mappings, p, e, dryRun).signals|
    requires Handle(ku, mappings, p, e, dryRun).signals[i].Execute?
    ensures ku.keyOf(e).Some?
    ensures var s := Typed(ku, p, e);
      var c := Handle(ku, mappings, p, e, dryRun).signals[i].command;
      || BoundTo(table, s) == Some(c)
      || BoundTo(table, StripModifiers(ku, s)) == Some(c)
      || BoundTo(table, WithMappings(mappings, StripModifiers(ku, s))) == Some(c)
  {
    ExecuteFollowsClear(ku, mappings, p, e, dryRun);
    var s := Typed(ku, p, e);
    BuildMatches(table, s);
    BuildMatches(table, StripModifiers(ku, s));
    BuildMatches(table, WithMappings(mappings, StripModifiers(ku, s)));
  }
}
