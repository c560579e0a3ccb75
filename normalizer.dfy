/**
 * The record normaliser of app.py, `parse_pokemon_data`: it turns the
 * detail record of one Pokémon into the five fields a combatant is built
 * from.  The record's stat list becomes a dictionary from stat name to base
 * stat, in list order, so a later entry for the same name overwrites an
 * earlier one; the four stats are then read from it with default 0, and a
 * missing name becomes "Unknown".
 */
module Normalizer {
  import opened Wrappers

  /** One entry of the record's stat list: the stat's name and its base value. */
  datatype StatEntry = StatEntry(statName: string, baseStat: int)

  /** The detail record: `None` stands for a key the record does not have. */
  datatype Details = Details(name: Option<string>, stats: Option<seq<StatEntry>>)

  /** The normalised record, the keyword arguments of a combatant. */
  datatype Parsed = Parsed(name: string, hp: int, attack: int, defense: int, speed: int)

  /** The four stats a combatant reads. */
  const StatNames: set<string> := {"hp", "attack", "defense", "speed"}

  /** The dictionary built from the stat list, one entry at a time in list
      order: each entry sets its name's value, replacing any earlier one.
      Its keys are exactly the names in the list. */
  function StatMap(entries: seq<StatEntry>): (m: map<string, int>)
    ensures m.Keys == set i | 0 <= i < |entries| :: entries[i].statName
    decreases |entries|
  {
    if |entries| == 0 then
      map[]
    else
      var last := entries[|entries| - 1];
      StatMap(entries[..|entries| - 1])[last.statName := last.baseStat]
  }

  /** Dictionary lookup with a default, as `.get(key, 0)`. */
  function Lookup(m: map<string, int>, key: string): int
  {
    if key in m then m[key] else 0
  }

  /** `parse_pokemon_data`: a missing stat list counts as empty. */
  function ParsePokemonData(d: Details): Parsed
  {
    var stats := StatMap(d.stats.GetOr([]));
    Parsed(d.name.GetOr("Unknown"), Lookup(stats, "hp"), Lookup(stats, "attack"),
           Lookup(stats, "defense"), Lookup(stats, "speed"))
  }

  /** The field of the normalised record that holds stat `key`. */
  function StatField(p: Parsed, key: string): int
    requires key in StatNames
  {
    if key == "hp" then p.hp
    else if key == "attack" then p.attack
    else if key == "defense" then p.defense
    else p.speed
  }

  /** Entry `i` is the last entry of the list named `key`. */
  ghost predicate LastOf(entries: seq<StatEntry>, key: string, i: int)
  {
    && 0 <= i < |entries|
    && entries[i].statName == key
    && forall j :: i < j < |entries| ==> entries[j].statName != key
  }

  /** The dictionary maps a name to the value of the last entry with that name. */
  lemma {:induction false} StatMapLastWins(entries: seq<StatEntry>, key: string, i: int)
    requires LastOf(entries, key, i)
    ensures key in StatMap(entries) && StatMap(entries)[key] == entries[i].baseStat
    decreases |entries|
  {
    var n := |entries|;
    if i < n - 1 {
      var prefix := entries[..n - 1];
      assert entries[n - 1].statName != key;
      assert LastOf(prefix, key, i) by {
        forall j | i < j < |prefix|
          ensures prefix[j].statName != key
        {
          assert prefix[j] == entries[j];
        }
      }
      StatMapLastWins(prefix, key, i);
    }
  }

  /** A name that no entry carries is not in the dictionary. */
  lemma StatMapAbsent(entries: seq<StatEntry>, key: string)
    requires forall i :: 0 <= i < |entries| ==> entries[i].statName != key
    ensures key !in StatMap(entries)
  {
  }

  /** Entry `e` affects only its own name's value: inserted anywhere in the
      list, it leaves the value of every other name as it was. */
  lemma {:induction false} StatMapIgnores(front: seq<StatEntry>, e: StatEntry, back: seq<StatEntry>, key: string)
    requires key != e.statName
    ensures Lookup(StatMap(front + [e] + back), key) == Lookup(StatMap(front + back), key)
    decreases |back|
  {
    if |back| == 0 {
      assert front + [e] + back == front + [e];
      assert (front + [e])[..|front|] == front;
      assert front + back == front;
    } else {
      var last := back[|back| - 1];
      var rest := back[..|back| - 1];
      StatMapIgnores(front, e, rest, key);
      assert (front + [e] + back)[..|front + [e] + back| - 1] == front + [e] + rest;
      assert (front + back)[..|front + back| - 1] == front + rest;
    }
  }

  /** Each stat of the normalised record is the base value of the last
      entry with that stat's name. */
  lemma ParseLastWins(d: Details, key: string, i: int)
    requires key in StatNames
    requires d.stats.Some? && LastOf(d.stats.value, key, i)
    ensures StatField(ParsePokemonData(d), key) == d.stats.value[i].baseStat
  {
    StatMapLastWins(d.stats.value, key, i);
  }

  /** A stat the list does not mention, or a missing list, gives 0. */
  lemma ParseMissing(d: Details, key: string)
    requires key in StatNames
    requires d.stats.Some? ==> forall i :: 0 <= i < |d.stats.value| ==> d.stats.value[i].statName != key
    ensures StatField(ParsePokemonData(d), key) == 0
  {
    if d.stats.Some? {
      StatMapAbsent(d.stats.value, key);
    }
  }

  /** An entry for any other stat name does not change the result. */
  lemma ParseIgnoresOthers(name: Option<string>, front: seq<StatEntry>, e: StatEntry, back: seq<StatEntry>)
    requires e.statName !in StatNames
    ensures ParsePokemonData(Details(name, Some(front + [e] + back))) == ParsePokemonData(Details(name, Some(front + back)))
  {
    StatMapIgnores(front, e, back, "hp");
    StatMapIgnores(front, e, back, "attack");
    StatMapIgnores(front, e, back, "defense");
    StatMapIgnores(front, e, back, "speed");
  }

  /** The name is the record's name when it has one, "Unknown" otherwise;
      an empty record gives "Unknown" and four zero stats. */
  lemma ParseName(d: Details)
    ensures ParsePokemonData(d).name == (if d.name.Some? then d.name.value else "Unknown")
    ensures ParsePokemonData(Details(None, None)) == Parsed("Unknown", 0, 0, 0, 0)
  {
  }
}
