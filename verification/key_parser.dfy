/**
 * The per-keystroke state machine of the base key parser: the retained
 * key chain and count, the ordered fallbacks (direct, modifier-stripped,
 * key-mapped, count digit), the commit of a verdict, the explicit reset
 * and the rebuild of the bindings from the configuration.
 *
 * Qt signals and the `execute` hook are modelled as `Signal` values in
 * the order they would be emitted or called.
 */
module KeyParser {
  import opened Wrappers
  import opened Keys
  import opened Count
  import opened BindingTrie

  /** The parser's state: its bindings, its mode, the key chain so far and the count so far. */
  datatype Parser = Parser(
    bindings: Trie,
    modename: Option<string>,
    sequence: seq<Key>,
    count: string,
    supportsCount: bool)

  /** `keystring_updated.emit(text)` or a call `execute(command, count)`. */
  datatype Signal = KeystringUpdated(keystring: string) | Execute(command: string, count: Option<nat>)

  /** A parser state together with the signals emitted reaching it. */
  datatype Emitted = Emitted(parser: Parser, signals: seq<Signal>)

  /** What one call of `handle` returns, with the state it leaves and the signals it emitted. */
  datatype Handled = Handled(parser: Parser, verdict: MatchType, signals: seq<Signal>)

  /** A lookup together with the key sequence it was made for. */
  datatype Candidate = Candidate(lookup: Lookup, sequence: seq<Key>)

  /** The error `_read_config` raises when no mode is known. */
  datatype ConfigError = NoModeKnown

  /** A parser as constructed: empty bindings, no mode, nothing typed. */
  function NewParser(supportsCount: bool): Parser
  {
    Parser(Empty, None, [], "", supportsCount)
  }

  /** No key and no count typed. */
  predicate Idle(p: Parser)
  {
    p.sequence == [] && p.count == ""
  }

  /**
   * The retained key chain is empty or still a partial match. For bindings
   * read from a table this means a strict prefix of some bound sequence
   * that is not bound itself (`BindingTrie.PartialIsUnboundPrefix`).
   */
  predicate Pending(p: Parser)
  {
    p.sequence == [] || Match(p.bindings, p.sequence).matchType == PartialMatch
  }

  // ---------------------------------------------------------------------
  // Resetting
  // ---------------------------------------------------------------------

  /**
   * `clear_keystring`: forget the key chain and the count, and announce
   * the empty keystring, but only when a key chain was in progress; a
   * count typed without keys survives.
   */
  function ClearKeystring(p: Parser): (r: Emitted)
    ensures r.parser.sequence == []
    ensures r.parser.bindings == p.bindings && r.parser.modename == p.modename
    ensures r.parser.supportsCount == p.supportsCount
    ensures p.sequence == [] ==> r == Emitted(p, [])
    ensures p.sequence != [] ==> r.parser.count == "" && r.signals == [KeystringUpdated("")]
  {
    if |p.sequence| > 0 then Emitted(p.(sequence := [], count := ""), [KeystringUpdated("")])
    else Emitted(p, [])
  }

  /** Clearing twice is clearing once: the second call changes nothing and emits nothing. */
  lemma ClearKeystringIdempotent(p: Parser)
    ensures ClearKeystring(ClearKeystring(p).parser) == Emitted(ClearKeystring(p).parser, [])
    ensures |ClearKeystring(p).signals| <= 1
  {
  }

  // ---------------------------------------------------------------------
  // The match strategies, in the order `handle` tries them
  // ---------------------------------------------------------------------

  /** `_match_key`: look the sequence up in the bindings (it must not be empty). */
  function MatchKey(p: Parser, sequence: seq<Key>): (r: Lookup)
    requires |sequence| > 0
    ensures r.binding.Some? <==> r.matchType == ExactMatch
  {
    Match(p.bindings, sequence)
  }

  /** `_match_without_modifiers`: look up the stripped sequence, which becomes the candidate. */
  function MatchWithoutModifiers(ku: KeyUtils, p: Parser, sequence: seq<Key>): (r: Candidate)
    requires |sequence| > 0
    ensures r.sequence == StripModifiers(ku, sequence)
    ensures |r.sequence| == |sequence|
    ensures r.lookup == Match(p.bindings, r.sequence)
  {
    var stripped := StripModifiers(ku, sequence);
    Candidate(MatchKey(p, stripped), stripped)
  }

  /**
   * `_match_key_mapping`: when the key mappings change the sequence, look
   * up the mapped sequence, which becomes the candidate whatever the
   * verdict; otherwise no match and the candidate stays.
   */
  function MatchKeyMapping(p: Parser, mappings: map<Key, Key>, sequence: seq<Key>): (r: Candidate)
    requires |sequence| > 0
    ensures |r.sequence| == |sequence|
    ensures r.sequence == WithMappings(mappings, sequence)
    ensures r.sequence == sequence ==> r.lookup == Lookup(NoMatch, None)
    ensures r.sequence != sequence ==> r.lookup == Match(p.bindings, r.sequence)
  {
    var mapped := WithMappings(mappings, sequence);
    if sequence != mapped then Candidate(MatchKey(p, mapped), mapped)
    else Candidate(Lookup(NoMatch, None), sequence)
  }

  /**
   * The three lookups of `handle`, each tried only when the previous one
   * found nothing. The verdict always describes the candidate returned.
   */
  function FindCandidate(ku: KeyUtils, mappings: map<Key, Key>, p: Parser, sequence: seq<Key>): (r: Candidate)
    requires |sequence| > 0
    ensures |r.sequence| == |sequence|
    ensures r.lookup == Match(p.bindings, r.sequence)
  {
    var direct := Candidate(MatchKey(p, sequence), sequence);
    var stripped :=
      if direct.lookup.matchType == NoMatch then MatchWithoutModifiers(ku, p, sequence) else direct;
    if stripped.lookup.matchType == NoMatch then MatchKeyMapping(p, mappings, stripped.sequence)
    else stripped
  }

  /**
   * The fallback order: the direct form wins when it matches at all; the
   * stripped form is tried next; the mapped form of the stripped sequence
   * is looked up only if the mappings change some key, and otherwise the
   * stripped sequence stays the candidate with no match.
   */
  lemma FallbackOrder(ku: KeyUtils, mappings: map<Key, Key>, p: Parser, sequence: seq<Key>)
    requires |sequence| > 0
    ensures Match(p.bindings, sequence).matchType != NoMatch
      ==> FindCandidate(ku, mappings, p, sequence).sequence == sequence
    ensures (Match(p.bindings, sequence).matchType == NoMatch
             && Match(p.bindings, StripModifiers(ku, sequence)).matchType != NoMatch)
      ==> FindCandidate(ku, mappings, p, sequence).sequence == StripModifiers(ku, sequence)
    ensures (Match(p.bindings, sequence).matchType == NoMatch
             && Match(p.bindings, StripModifiers(ku, sequence)).matchType == NoMatch
             && !FixedByMappings(mappings, StripModifiers(ku, sequence)))
      ==> FindCandidate(ku, mappings, p, sequence).sequence
          == WithMappings(mappings, StripModifiers(ku, sequence))
    ensures (Match(p.bindings, sequence).matchType == NoMatch
             && Match(p.bindings, StripModifiers(ku, sequence)).matchType == NoMatch
             && FixedByMappings(mappings, StripModifiers(ku, sequence)))
      ==> FindCandidate(ku, mappings, p, sequence)
          == Candidate(Lookup(NoMatch, None), StripModifiers(ku, sequence))
  {
    WithMappingsUnchanged(mappings, StripModifiers(ku, sequence));
  }

  /**
   * Whether the text of a key is taken as a count digit: one decimal
   * digit, counts supported, and not a '0' before any other digit.
   */
  predicate IsCountKey(p: Parser, txt: string)
  {
    IsDigitText(txt) && p.supportsCount && !(p.count == "" && txt == "0")
  }

  /**
   * `_match_count`: read the last key of the candidate as a count digit.
   * None when it is not one; otherwise the state after appending the
   * digit (unchanged on a dry run).
   */
  function MatchCount(ku: KeyUtils, p: Parser, sequence: seq<Key>, dryRun: bool): (r: Option<Emitted>)
    requires |sequence| > 0
    ensures r.Some? <==> IsCountKey(p, ku.keyText(sequence[|sequence| - 1]))
    ensures r.Some? ==> r.value.parser.sequence == p.sequence
    ensures r.Some? && dryRun ==> r.value == Emitted(p, [])
    ensures r.Some? && !dryRun ==>
      var txt := ku.keyText(sequence[|sequence| - 1]);
      && r.value.parser == p.(count := p.count + txt)
      && r.value.signals == [KeystringUpdated(p.count + txt + ku.render(p.sequence))]
  {
    var txt := ku.keyText(sequence[|sequence| - 1]);
    if IsCountKey(p, txt) then
      if dryRun then Some(Emitted(p, []))
      else
        var count := p.count + txt;
        Some(Emitted(p.(count := count), [KeystringUpdated(count + ku.render(p.sequence))]))
    else None
  }

  // ---------------------------------------------------------------------
  // One keystroke
  // ---------------------------------------------------------------------

  /**
   * The non-dry tail of `handle`: the candidate becomes the key chain,
   * then an exact match reads the count, clears, and calls `execute`; a
   * partial match announces the keystring; no match clears.
   */
  function Commit(ku: KeyUtils, p: Parser, found: Candidate): (r: Handled)
    requires |found.sequence| > 0
    requires found.lookup.binding.Some? <==> found.lookup.matchType == ExactMatch
    requires AllDigits(p.count)
    ensures r.verdict == found.lookup.matchType
    ensures r.verdict == ExactMatch ==>
      r.parser == p.(sequence := [], count := "") &&
      r.signals == [KeystringUpdated(""), Execute(found.lookup.binding.value, ParseCount(p.count))]
    ensures r.verdict == PartialMatch ==>
      r.parser == p.(sequence := found.sequence) &&
      r.signals == [KeystringUpdated(p.count + ku.render(found.sequence))]
    ensures r.verdict == NoMatch ==>
      r.parser == p.(sequence := [], count := "") && r.signals == [KeystringUpdated("")]
  {
    var p1 := p.(sequence := found.sequence);
    match found.lookup.matchType
    case ExactMatch =>
      var count := ParseCount(p1.count);
      var cleared := ClearKeystring(p1);
      Handled(cleared.parser, ExactMatch, cleared.signals + [Execute(found.lookup.binding.value, count)])
    case PartialMatch =>
      Handled(p1, PartialMatch, [KeystringUpdated(p1.count + ku.render(found.sequence))])
    case NoMatch =>
      var cleared := ClearKeystring(p1);
      Handled(cleared.parser, NoMatch, cleared.signals)
  }

  /**
   * `handle`: process one key press. `mappings` is the configured
   * `bindings.key_mappings` table.
   */
  function Handle(ku: KeyUtils, mappings: map<Key, Key>, p: Parser, e: KeyEvent, dryRun: bool): (r: Handled)
    requires AllDigits(p.count)
    ensures r.parser.bindings == p.bindings && r.parser.modename == p.modename
    ensures r.parser.supportsCount == p.supportsCount
    ensures AllDigits(r.parser.count)
  {
    if ku.isModifierKey(e.qtKey) then Handled(p, NoMatch, [])
    else match AppendEvent(ku, p.sequence, e)
      case None =>
        var cleared := ClearKeystring(p);
        Handled(cleared.parser, NoMatch, cleared.signals)
      case Some(sequence) =>
        var found := FindCandidate(ku, mappings, p, sequence);
        var counted :=
          if found.lookup.matchType == NoMatch then MatchCount(ku, p, found.sequence, dryRun) else None;
        if counted.Some? then Handled(counted.value.parser, ExactMatch, counted.value.signals)
        else if dryRun then Handled(p, found.lookup.matchType, [])
        else Commit(ku, p, found)
  }

  // ---------------------------------------------------------------------
  // Rebuilding the bindings
  // ---------------------------------------------------------------------

  /** Every command of a binding table is non-empty. */
  predicate CommandsNonEmpty(table: seq<(seq<Key>, string)>)
  {
    forall i | 0 <= i < |table| :: table[i].1 != ""
  }

  /** The mode `_read_config` uses: the one given, else the one remembered. */
  function ModeFor(p: Parser, modename: Option<string>): Option<string>
  {
    if modename.Some? then modename else p.modename
  }

  /**
   * `_read_config`: rebuild the bindings from scratch from the table the
   * configuration holds for the mode; fail when no mode is given or known.
   * `bindingsFor` stands for the configuration's `get_bindings_for`, each
   * table in its iteration order.
   */
  function ReadConfig(p: Parser, modename: Option<string>, bindingsFor: string -> seq<(seq<Key>, string)>)
    : (r: Result<Parser, ConfigError>)
    requires ModeFor(p, modename).Some? ==> CommandsNonEmpty(bindingsFor(ModeFor(p, modename).value))
    ensures r.Failure? <==> modename.None? && p.modename.None?
    ensures r.Success? ==> r.value.modename.Some? && r.value.modename == ModeFor(p, modename)
    ensures r.Success? ==> r.value.sequence == p.sequence && r.value.count == p.count
    ensures r.Success? ==> r.value.supportsCount == p.supportsCount
  {
    match ModeFor(p, modename)
    case None => Failure(NoModeKnown)
    case Some(mode) => Success(p.(modename := Some(mode), bindings := Update(Empty, bindingsFor(mode))))
  }

  /**
   * After a successful rebuild the bindings answer every lookup as the
   * mode's table alone says, whatever the bindings were before, and have
   * no dangling leaves.
   */
  lemma ReadConfigRebuilds(p: Parser, modename: Option<string>, bindingsFor: string -> seq<(seq<Key>, string)>)
    requires ModeFor(p, modename).Some? ==> CommandsNonEmpty(bindingsFor(ModeFor(p, modename).value))
    requires ReadConfig(p, modename, bindingsFor).Success?
    ensures var q := ReadConfig(p, modename, bindingsFor).value;
      && WellFormed(q.bindings)
      && forall s :: Match(q.bindings, s) == TableVerdict(bindingsFor(q.modename.value), s)
  {
    var q := ReadConfig(p, modename, bindingsFor).value;
    var table := bindingsFor(q.modename.value);
    UpdateWellFormed(Empty, table);
    forall s
      ensures Match(q.bindings, s) == TableVerdict(table, s)
    {
      BuildMatches(table, s);
    }
  }
}
