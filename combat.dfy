/**
 * The combatant of app.py: a mutable object whose hit points fall as it
 * takes damage, and the damage rule of one attack.
 */
module Combat {

  function Max(a: int, b: int): int
  {
    if a >= b then a else b
  }

  function Min(a: int, b: int): int
  {
    if a <= b then a else b
  }

  /** Damage before the critical-hit roll: the attack that gets past the
      target's defense, but never less than one point. */
  function BaseDamage(attack: int, defense: int): (r: int)
    ensures r >= 1
    ensures r >= attack - defense
    ensures r == 1 || r == attack - defense
  {
    Max(1, attack - defense)
  }

  /** Damage of one attack: the base damage, doubled exactly when the
      attack is a critical hit. */
  function Damage(attack: int, defense: int, critical: bool): (r: int)
    ensures r >= 1
    ensures r == BaseDamage(attack, defense) || r == 2 * BaseDamage(attack, defense)
    ensures r == 2 * BaseDamage(attack, defense) <==> critical
  {
    var base := BaseDamage(attack, defense);
    if critical then base * 2 else base
  }

  /** Hit points left after taking `damage`: what is left, clamped at zero. */
  function AfterDamage(hp: int, damage: int): (r: int)
    ensures r >= 0
    ensures r == 0 || r == hp - damage
    ensures r > 0 <==> hp > damage
    ensures damage >= 0 ==> r <= Max(hp, 0)
    ensures 0 <= hp && 0 <= damage ==> hp - r == Min(hp, damage)
  {
    var left := hp - damage;
    if left < 0 then 0 else left
  }

  /** A value snapshot of a combatant, used by the specification of the battle. */
  datatype Fighter = Fighter(name: string, hp: int, attack: int, defense: int, speed: int)

  class Pokemon {
    const name: string
    var hp: int
    const maxHp: int
    const attack: int
    const defense: int
    const speed: int

    /** The combatant's invariant: hit points between zero and the maximum. */
    ghost predicate Valid()
      reads this
    {
      0 <= hp <= maxHp
    }

    /** The combatant is still standing. */
    predicate IsAlive()
      reads this
    {
      hp > 0
    }

    function Snapshot(): Fighter
      reads this
    {
      Fighter(name, hp, attack, defense, speed)
    }

    /** A combatant starts at full health: its maximum is its initial hit points. */
    constructor (name: string, hp: int, attack: int, defense: int, speed: int)
      ensures this.name == name && this.hp == hp && maxHp == hp
      ensures this.attack == attack && this.defense == defense && this.speed == speed
      ensures hp >= 0 ==> Valid()
    {
      this.name := name;
      this.hp := hp;
      this.maxHp := hp;
      this.attack := attack;
      this.defense := defense;
      this.speed := speed;
    }

    /** Subtracts the damage and clamps the hit points at zero. */
    method TakeDamage(damage: int)
      modifies this`hp
      ensures hp == AfterDamage(old(hp), damage)
      ensures IsAlive() <==> old(hp) > damage
      ensures old(Valid()) && damage >= 0 ==> Valid() && hp <= old(hp)
    {
      hp := hp - damage;
      if hp < 0 {
        hp := 0;
      }
    }

    /** Attacks `other`: applies the damage of this attack to it and reports
        the damage and whether the hit was critical.  The source rolls the
        critical hit at random; here the roll is the parameter `critical`. */
    method AttackPokemon(other: Pokemon, critical: bool) returns (damage: int, wasCritical: bool)
      modifies other`hp
      ensures damage == Damage(attack, other.defense, critical) && damage >= 1
      ensures wasCritical == critical
      ensures other.hp == AfterDamage(old(other.hp), damage)
      ensures other != this ==> hp == old(hp)
    {
      damage := Max(1, attack - other.defense);
      wasCritical := critical;
      if wasCritical {
        damage := damage * 2;
      }
      other.TakeDamage(damage);
    }
  }
}
