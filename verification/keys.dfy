/**
 * Keys and key sequences as the parser sees them.
 *
 * A key is the integer encoding of one keystroke with its modifiers (what
 * `KeyInfo.to_int` yields); a key sequence is a list of such keys. The
 * key utilities the parser calls are not part of this model: they appear
 * as opaque functions bundled in `KeyUtils`.
 */
module Keys {
  import opened Wrappers

  /** One keystroke with its modifiers, in its integer encoding. */
  type Key = int

  /** The parts of a key-press event the parser reads. */
  datatype KeyEvent = KeyEvent(qtKey: int, modifiers: int)

  /**
   * The key utilities, as uninterpreted functions:
   *  - isModifierKey: whether the event's key code is a bare modifier;
   *  - keyOf:         the key `append_event` adds for the event, or None
   *                   when decoding raises a key-parse error;
   *  - stripKey:      one key with its strippable modifiers removed;
   *  - keyText:       the text of one key (`str` of a key info);
   *  - render:        the text of a whole key sequence.
   */
  datatype KeyUtils = KeyUtils(
    isModifierKey: int -> bool,
    keyOf: KeyEvent -> Option<Key>,
    stripKey: Key -> Key,
    keyText: Key -> string,
    render: seq<Key> -> string)

  /** `append_event`: the sequence grown by the event's key, or None on a parse error. */
  function AppendEvent(ku: KeyUtils, s: seq<Key>, e: KeyEvent): (r: Option<seq<Key>>)
    ensures r.None? <==> ku.keyOf(e).None?
    ensures r.Some? ==> |r.value| == |s| + 1 && r.value[..|s|] == s
    ensures r.Some? ==> r.value[|s|] == ku.keyOf(e).value
  {
    match ku.keyOf(e)
    case None => None
    case Some(k) => Some(s + [k])
  }

  /** `strip_modifiers`: every key of the sequence with its modifiers stripped. */
  function StripModifiers(ku: KeyUtils, s: seq<Key>): (r: seq<Key>)
    ensures |r| == |s|
    ensures forall i | 0 <= i < |s| :: r[i] == ku.stripKey(s[i])
  {
    seq(|s|, i requires 0 <= i < |s| => ku.stripKey(s[i]))
  }

  /** The image of one key under the key-mapping table (unmapped keys stay). */
  function MapKey(mappings: map<Key, Key>, k: Key): Key
  {
    if k in mappings then mappings[k] else k
  }

  /** `with_mappings`: every key of the sequence replaced by its mapping. */
  function WithMappings(mappings: map<Key, Key>, s: seq<Key>): (r: seq<Key>)
    ensures |r| == |s|
    ensures forall i | 0 <= i < |s| :: r[i] == MapKey(mappings, s[i])
  {
    seq(|s|, i requires 0 <= i < |s| => MapKey(mappings, s[i]))
  }

  /** No key of `s` is changed by the mapping table. */
  predicate FixedByMappings(mappings: map<Key, Key>, s: seq<Key>)
  {
    forall i | 0 <= i < |s| :: s[i] in mappings ==> mappings[s[i]] == s[i]
  }

  /** Mapping leaves a sequence as it is exactly when it fixes every key of it. */
  lemma WithMappingsUnchanged(mappings: map<Key, Key>, s: seq<Key>)
    ensures WithMappings(mappings, s) == s <==> FixedByMappings(mappings, s)
  {
    if WithMappings(mappings, s) == s {
      forall i | 0 <= i < |s| && s[i] in mappings
        ensures mappings[s[i]] == s[i]
      {
        assert WithMappings(mappings, s)[i] == mappings[s[i]];
      }
    }
  }
}
