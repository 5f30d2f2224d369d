# qutebrowser key-chain matcher, modelled in Dafny

This project models the vim-style key-chain matcher of qutebrowser's
`BaseKeyParser` (`qutebrowser/keyinput/basekeyparser.py`) and proves
properties of the model.

- **Binding trie** (`binding_trie.dfy`, module `BindingTrie`). This is a prefix tree over
  integer-encoded keys. It has insertion (`_set`, `__setitem__`), lookup (`_matches`,
  `matches`) and the table fold `update`. Lookup returns one of the three `QKeySequence`
  match kinds:
  - ExactMatch, with the bound command;
  - PartialMatch;
  - NoMatch.
- **Key parser** (`key_parser.dfy`, module `KeyParser`). This is the per-keystroke step
  `handle` as a pure function. Its input is an explicit parser record: bindings, mode, key
  chain `_sequence` and count `_count`. It returns the new record, the verdict and the
  signals in emission order. The module also has the named match strategies
  (`_match_key`, `_match_without_modifiers`, `_match_key_mapping`, `_match_count`), the
  commit of a verdict, `clear_keystring` and `_read_config`.
- **Properties of `handle`** (`handle_properties.dfy`). These cover:
  - ignored and aborted keys;
  - the count digit;
  - the three commit branches;
  - dry runs;
  - the order in which the keystring is cleared before `execute`;
  - two invariants: the count stays well formed, and the retained chain is always empty or
    a partial match, which for bindings read from a table means a strict prefix of some
    bound sequence.
- **Keys and counts** (`keys.dfy`, `count.dfy`). The key utilities the parser calls are
  opaque functions in a `KeyUtils` record:
  - `is_modifier_key`;
  - the key `append_event` adds, or a parse error;
  - per-key modifier stripping;
  - the text of a key;
  - the text of a key sequence.

  `bindings.key_mappings` is a `map<Key, Key>` parameter. The count string is parsed as
  `int(self._count)`.
- **Scenarios** (`scenarios.dfy`). Concrete key-press sequences are proved with a small made-up key encoding:
  - "2", "3", "d" executes with count 23;
  - a leading "0" is not a count;
  - "g g";
  - the stripped fallback;
  - the mapped fallback.

Signals are values appended to a list:
- `keystring_updated.emit(s)` becomes `KeystringUpdated(s)`;
- a call `execute(cmd, count)` becomes `Execute(cmd, count)`.

The model follows `basekeyparser.py` as written in these places:
- A key-parse error goes through `clear_keystring`, which only resets anything when a key
  chain is in progress. A count typed without keys therefore survives it. This happens even
  on a dry run.
- The modifier-stripped sequence replaces the candidate unconditionally (line 273).
- The mapped sequence replaces the candidate whenever the mapping changes it, even when the
  lookup of the mapped sequence still finds nothing (lines 218-223).
- A '0' is never accepted as the first count digit.
- A count digit returns before the key is added to the chain (line 279). The digit comes
  from the last key of the stripped or mapped candidate.
- `_read_config` keeps the key chain and the count. A chain that was partial under the old
  bindings need not be partial under the new ones.

## Model

| member | source | states |
|---|---|---|
| BindingTrie.Matches | qutebrowser/keyinput/basekeyparser.py:104-121 | a lookup carries a binding exactly when it is an exact match |
| BindingTrie.Match | qutebrowser/keyinput/basekeyparser.py:88-102 | a whole-sequence lookup carries a binding exactly when it is an exact match |
| BindingTrie.EmptyMatchesNothing | qutebrowser/keyinput/basekeyparser.py:110-121 | a trie without bindings answers no match for every sequence |
| BindingTrie.SetThenMatches | qutebrowser/keyinput/basekeyparser.py:61-80 | after binding a sequence, looking it up gives an exact match with that command |
| BindingTrie.SetOverwrites | qutebrowser/keyinput/basekeyparser.py:61-80 | binding one sequence twice gives the same trie as binding only the second command |
| BindingTrie.InsertOverwrites | qutebrowser/keyinput/basekeyparser.py:57-80 | last write wins: re-inserting a sequence replaces its command, and the lookup then finds the new one |
| BindingTrie.SetFrame | qutebrowser/keyinput/basekeyparser.py:61-121 | an insertion does not change the lookup of any sequence that is not a prefix of the inserted one |
| BindingTrie.SetStrictPrefix | qutebrowser/keyinput/basekeyparser.py:61-121 | after an insertion, a strict prefix of the inserted sequence is a partial match, or keeps its exact match if it is bound itself |
| BindingTrie.SetWellFormed | qutebrowser/keyinput/basekeyparser.py:38-80 | insertion keeps every non-root node holding a command or a child, and returns a populated node |
| BindingTrie.UpdateWellFormed | qutebrowser/keyinput/basekeyparser.py:123-125 | inserting a whole table leaves no command-less, childless node below the root |
| BindingTrie.MatchesViaWalk | qutebrowser/keyinput/basekeyparser.py:104-121 | a lookup is no match on a dead end; otherwise it gives the end node's verdict: exact with its command, partial if it has children, no match if it has neither |
| BindingTrie.NoMatchIsDeadEnd | qutebrowser/keyinput/basekeyparser.py:110-121 | in a trie built by insertion, a non-empty sequence gives no match exactly when its walk falls off the trie |
| BindingTrie.UpdateMatches | qutebrowser/keyinput/basekeyparser.py:123-125 | after `update` with a table, a lookup gives: the table's last command for the sequence; else a partial match if the table extends the sequence and the old trie did not bind it; else the old trie's answer |
| BindingTrie.PartialIsUnboundPrefix | qutebrowser/keyinput/basekeyparser.py:110-125 | in a trie built from a table, a sequence is a partial match exactly when it is unbound and a strict prefix of some bound sequence |
| BindingTrie.BuildMatches | qutebrowser/keyinput/basekeyparser.py:328-333 | the trie rebuilt from a table gives: exact with the last command bound to the sequence; partial for a strict prefix of a bound sequence; no match otherwise |
| Keys.AppendEvent | qutebrowser/keyinput/basekeyparser.py:264-269 | appending an event fails exactly on a key-parse error; otherwise it extends the chain by that event's key |
| Keys.StripModifiers | qutebrowser/keyinput/basekeyparser.py:206-211 | stripping keeps the length and strips each key |
| Keys.WithMappings | qutebrowser/keyinput/basekeyparser.py:213-217 | mapping keeps the length and replaces each key by its image in the mapping table |
| Keys.WithMappingsUnchanged | qutebrowser/keyinput/basekeyparser.py:216-224 | the mapped sequence equals the original exactly when the table fixes every key of it, i.e. exactly when the trie is not queried |
| Count.AsWrittenAcceptsNonDigits | qutebrowser/keyinput/basekeyparser.py:228-232 | the substring test `txt in string.digits` accepts the empty text and "12", neither of which is one digit |
| Count.DigitTextMatchesAsWritten | qutebrowser/keyinput/basekeyparser.py:228-232 | on one-character texts the single-digit test and the substring test agree |
| Count.ParseCount | qutebrowser/keyinput/basekeyparser.py:289 | the count is absent exactly when the count string is empty |
| Count.DecimalRoundTrip | qutebrowser/keyinput/basekeyparser.py:289 | `int()` of a number's decimal rendering gives the number back, and the rendering of a positive number is a well-formed count |
| Count.ValidCountRoundTrip | qutebrowser/keyinput/basekeyparser.py:229-234 | every well-formed non-empty count is exactly the decimal rendering of the number `int()` reads from it |
| Count.ValidCountPositive | qutebrowser/keyinput/basekeyparser.py:229-230 | a non-empty count without a leading zero parses to a positive number |
| KeyParser.ClearKeystring | qutebrowser/keyinput/basekeyparser.py:344-351 | clearing with a chain in progress empties chain and count and emits '' once; with no chain it changes nothing and emits nothing, so a bare count survives |
| KeyParser.ClearKeystringIdempotent | qutebrowser/keyinput/basekeyparser.py:344-351 | a second clear changes nothing and emits nothing; one clear emits at most one signal |
| KeyParser.MatchKey | qutebrowser/keyinput/basekeyparser.py:189-204 | looking up a non-empty chain returns a binding exactly on an exact match |
| KeyParser.MatchWithoutModifiers | qutebrowser/keyinput/basekeyparser.py:206-211 | the candidate is the key-by-key modifier-stripped sequence, and the verdict is its lookup |
| KeyParser.MatchKeyMapping | qutebrowser/keyinput/basekeyparser.py:213-224 | the mapped sequence becomes the candidate; it is looked up only when it differs from the input, otherwise the result is no match |
| KeyParser.FindCandidate | qutebrowser/keyinput/basekeyparser.py:271-275 | the fallbacks keep the sequence length, and the final verdict is always the lookup of the final candidate |
| KeyParser.FallbackOrder | qutebrowser/keyinput/basekeyparser.py:271-275 | any direct match wins; the stripped form is used only after no direct match; the mapped form is queried only when both failed and the mapping changes a key; otherwise the stripped sequence stays the candidate with no match |
| KeyParser.MatchCount | qutebrowser/keyinput/basekeyparser.py:226-237 | the last candidate key is a count digit exactly when it is a single digit, counts are on, and it is not a leading '0'; then the chain is kept and, unless dry, the count grows by that digit and count plus old chain is announced |
| KeyParser.Commit | qutebrowser/keyinput/basekeyparser.py:284-303 | the committed verdict is the candidate's; an exact match clears chain and count, announces the empty keystring, then executes the binding with the parsed count; a partial match keeps the candidate as the chain and announces count plus rendered chain; no match clears chain and count and announces the empty keystring |
| KeyParser.Handle | qutebrowser/keyinput/basekeyparser.py:239-303 | a key press never changes bindings, mode or count support, and keeps the count all digits |
| KeyParser.ReadConfig | qutebrowser/keyinput/basekeyparser.py:312-333 | it fails exactly when no mode is given or remembered; otherwise it remembers the mode and keeps chain, count and count support |
| KeyParser.ReadConfigRebuilds | qutebrowser/keyinput/basekeyparser.py:312-333 | after a rebuild, lookups follow the mode's table alone, whatever the old bindings were, and no node dangles |
| HandleProperties.HandleIgnoresModifierKeys | qutebrowser/keyinput/basekeyparser.py:260-262 | a bare modifier key gives no match with no state change and no signal |
| HandleProperties.HandleAbortsOnParseError | qutebrowser/keyinput/basekeyparser.py:264-269 | a key that fails to parse gives no match and clears the chain, even on a dry run; the count and '' signal follow `clear_keystring` |
| HandleProperties.HandleCountDigit | qutebrowser/keyinput/basekeyparser.py:276-279 | a count digit is an exact match that keeps the chain; if dry, nothing changes; otherwise the count grows by exactly the digit and one keystring update is emitted, with no `execute` |
| HandleProperties.CountKeyRule | qutebrowser/keyinput/basekeyparser.py:229-232 | the model's count-digit test holds exactly when the text passes `txt in string.digits` and the one-character assertion, counts are supported, and it is not a '0' typed with an empty count |
| HandleProperties.HandleCommitsExactMatch | qutebrowser/keyinput/basekeyparser.py:286-291 | an exact match reads the count before clearing, then leaves chain and count empty, then emits '' and exactly one `execute(binding, count)` |
| HandleProperties.HandleCommitsPartialMatch | qutebrowser/keyinput/basekeyparser.py:292-295 | a partial match keeps the candidate as the chain, keeps the count, and announces count plus chain |
| HandleProperties.HandleCommitsNoMatch | qutebrowser/keyinput/basekeyparser.py:296-299 | no match and no count digit clears chain and count and emits '' |
| HandleProperties.ExecuteFollowsClear | qutebrowser/keyinput/basekeyparser.py:284-291 | `execute` is called at most once, never on a dry run, only as the second signal, right after ''; it finds the parser idle, gets the old count, and runs a command bound to the typed, stripped or mapped keys |
| HandleProperties.DryRunIsPure | qutebrowser/keyinput/basekeyparser.py:276-282 | a dry run of a decodable key leaves the state unchanged and emits nothing; its verdict is the fallbacks' verdict, or exact for a count digit |
| HandleProperties.DryRunRepeatable | qutebrowser/keyinput/basekeyparser.py:260-282 | repeating a dry run gives the same verdict and state with no signal; a dry run emits at most the cleared keystring |
| HandleProperties.HandleKeepsInvariant | qutebrowser/keyinput/basekeyparser.py:239-303 | a key press keeps the count digits-only without a leading zero, and keeps the chain empty or a partial match of the bindings |
| HandleProperties.CountDigitKeepsValid | qutebrowser/keyinput/basekeyparser.py:229-234 | appending an accepted digit keeps the count well formed |
| HandleProperties.NewParserInvariant | qutebrowser/keyinput/basekeyparser.py:167-174 | a fresh parser is idle and satisfies both invariants |
| HandleProperties.ExecutesConfiguredCommand | qutebrowser/keyinput/basekeyparser.py:271-333 | with bindings read from a table, every executed command is the table's last binding for the typed, stripped or mapped keys |
| Scenarios.CountThenCommand | qutebrowser/keyinput/basekeyparser.py:226-291 | typing "2", "3" and a bound "d" accumulates count "23" and then executes with count 23 after '' |
| Scenarios.LeadingZeroIsNotCount | qutebrowser/keyinput/basekeyparser.py:229-230 | an unbound '0' with no count is no match and leaves the count empty; after "1" it makes the count "10" |
| Scenarios.TwoKeyChain | qutebrowser/keyinput/basekeyparser.py:284-295 | with "g g" bound, "g" is a partial match that keeps [g], and the second "g" clears and executes |
| Scenarios.StrippedFallback | qutebrowser/keyinput/basekeyparser.py:271-273 | an unbound modified key matches through its stripped form, which becomes the chain |
| Scenarios.MappedFallback | qutebrowser/keyinput/basekeyparser.py:274-275 | a remapped key matches through its image, and the chain keeps the image |

## Findings

| source | as written | input that shows it | evidently intended | confidence | as-written member | corrected member |
|---|---|---|---|---|---|---|
| qutebrowser/keyinput/basekeyparser.py:229 | `txt in string.digits` is a substring test | a key whose text is "" or a run of digits such as "12": the test accepts it, and the `assert len(txt) == 1` on line 232 then raises instead of rejecting the key | the key counts only if its text is exactly one decimal digit | low, not executed; whether a key's text can be empty or several digits is decided by key utilities outside this model | Count.AsWrittenAcceptsNonDigits | Count.DigitTextMatchesAsWritten |

`Count.InDigitsAsWritten` is the test as written. `Count.IsDigitText` is the corrected test,
and `KeyParser.IsCountKey` uses it.

## Left out

- Qt plumbing is not modelled: `QObject`, `pyqtSignal`, the `config.instance.changed`
  connection and the `_on_config_changed` filter (lines 162-175, 305-310). Signals are
  entries in a returned list.
- `request_leave` is not modelled. It is declared but never emitted in this file.
- Logging (`_debug_log`) and `__repr__` are not modelled. They have no effect on behaviour.
- The key utilities are not part of this model. Event decoding and the internals of
  `is_modifier_key`, `append_event`, `strip_modifiers`, key texts and sequence rendering are
  opaque functions. Three simplifications are assumed:
  - `append_event` adds exactly one key, or fails;
  - `strip_modifiers` and `with_mappings` act key by key;
  - `bindings.key_mappings` maps single keys to single keys.
- The body of `execute` is not modelled (lines 335-342). It is abstract here and belongs to
  subclasses. Because of this, a re-entrant key press made from inside `execute` is not
  modelled. The model only records that the call comes after the state is cleared.
- The `raise utils.Unreachable` branch (lines 300-301) is not modelled. The model's match
  kind has exactly three values, so that branch cannot occur.
- `__delitem__` and `__getitem__` are not modelled. They only raise `NotImplementedError`.
- KeyParser.IsCountKey: rejects a key whose text is empty or several digits, where the
  program's `assert len(txt) == 1` (line 232) would raise instead; see "## Findings".
- `KeyParser.ReadConfig` turns `_read_config`'s `assert cmd` into a precondition: every
  command in the mode's table is non-empty. The `isinstance(key, str)` assertion is a
  typing matter and is not modelled.
- `KeyParser.MatchKey` turns the `assert sequence` of `_match_key` into a precondition. Every
  candidate has one key more than the retained chain, so the precondition always holds.
- `KeyParser.Handle` requires the retained count to be all digits. That is what
  `int(self._count)` needs, and `HandleProperties.HandleKeepsInvariant` shows every key
  press keeps it.
- `qutebrowser/utils/jinja.py`, `qutebrowser/javascript/greasemonkey_wrapper.js` and
  `qutebrowser/javascript/scroll.js` are not part of this model. They are template, browser
  and DOM glue with no part in key matching.
