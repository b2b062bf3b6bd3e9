/** Protocol identifiers of pokemon. The simulator names a pokemon as
    `<role><slot>: <name>` (`p2a: tapukoko`) when it is active in a slot and as
    `<role>: <name>` (`p2: tapukoko`) otherwise. A team is keyed by the second,
    slot-free form. */
module Identifiers {

  /** An identifier is readable when it reaches index 3, the character the
      slot test inspects. */
  predicate Readable(identifier: string) {
    |identifier| >= 4
  }

  /** The team key of an identifier: when the character after the role and
      slot is not the space of `: `, the slot letter (index 2) is dropped. */
  function Canonical(identifier: string): (key: string)
    requires Readable(identifier)
    ensures |key| >= 3
    ensures key[..2] == identifier[..2]
  {
    if identifier[3] != ' ' then identifier[..2] + identifier[3..] else identifier
  }

  /** The key of a pokemon of role `role` named `name`. */
  function Key(role: string, name: string): string {
    role + ": " + name
  }

  /** The player role a key belongs to (`p1`, `p2`). */
  function RoleOf(key: string): string
    requires |key| >= 2
  {
    key[..2]
  }

  /** The name a key carries: everything after `pX: `, empty if nothing is. */
  function NameOf(key: string): string {
    if |key| >= 4 then key[4..] else ""
  }

  /** A slot-qualified identifier and its slot-free form denote the same key,
      and that key gives back the role and the name. */
  lemma SlotQualifiedSameKey(role: string, slot: char, name: string)
    requires |role| == 2 && slot != ' '
    ensures Canonical(role + [slot] + ": " + name) == Key(role, name)
    ensures Canonical(Key(role, name)) == Key(role, name)
    ensures RoleOf(Key(role, name)) == role && NameOf(Key(role, name)) == name
  {
    var qualified := role + [slot] + ": " + name;
    assert qualified[3] == ':';
    assert qualified[..2] + qualified[3..] == Key(role, name);
    assert Key(role, name)[3] == ' ';
    assert Key(role, name)[4..] == name;
  }
}
