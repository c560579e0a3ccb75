/**
 * The battle loop of app.py.  `Fight` is the specification: the whole
 * battle between two value snapshots, round by round.  `PokemonBattle`
 * is the loop itself, over two `Pokemon` objects, proved to produce the
 * log and the final hit points that `Fight` gives.
 *
 * The source draws every critical hit at random; here the draws are the
 * oracle `crit`, where `crit(k)` is the roll of the k-th attack of the
 * battle (counting from 0).  The source's log lines are coloured text
 * that tells the two combatants apart by object identity; here each
 * event carries a role tag, `First` for the first combatant passed in
 * and `Second` for the other.
 */
module Battle {
  import opened Combat

  datatype Role = First | Second

  function Other(r: Role): Role
  {
    if r == First then Second else First
  }

  datatype Event =
    | Attack(attacker: Role, attackerName: string, defender: Role, defenderName: string, damage: int, critical: bool)
    | Down(who: Role, name: string)
    | Winner(who: Role, name: string)

  /** The two combatants of a battle, in the order they were passed in. */
  datatype Pair = Pair(first: Fighter, second: Fighter) {

    function Get(r: Role): Fighter
    {
      if r == First then first else second
    }

    predicate BothAlive()
    {
      first.hp > 0 && second.hp > 0
    }

    function Health(): int
    {
      first.hp + second.hp
    }

    /** The combatant that strikes first in every round: the faster one,
        and the first one on a tie. */
    function Leader(): Role
    {
      if first.speed >= second.speed then First else Second
    }

    /** The winner announced when the loop ends: the first combatant if it
        is alive, otherwise the second. */
    function Announce(): Event
    {
      if first.hp > 0 then Winner(First, first.name) else Winner(Second, second.name)
    }
  }

  /** `def` after `att` has hit it with roll `critical`. */
  function Strike(att: Fighter, def: Fighter, critical: bool): Fighter
  {
    def.(hp := AfterDamage(def.hp, Damage(att.attack, def.defense, critical)))
  }

  /** The log entry of that attack, when `att` holds role `r`. */
  function Blow(r: Role, att: Fighter, def: Fighter, critical: bool): Event
  {
    Attack(r, att.name, Other(r), def.name, Damage(att.attack, def.defense, critical), critical)
  }

  /** The pair in which `lead` holds role `r` and `other` the other role. */
  function Orient(r: Role, lead: Fighter, other: Fighter): Pair
  {
    if r == First then Pair(lead, other) else Pair(other, lead)
  }

  /** The rounds of a battle seen from the roles: the combatant that
      strikes first in every round, the other one, and the events. */
  datatype Bout = Bout(lead: Fighter, other: Fighter, log: seq<Event>)

  /** The rounds between `lead`, holding role `r`, and `other`, when `k`
      attacks have already been made.  While both are alive a round is
      played: `lead` strikes; if that fells `other`, the round ends with a
      "down" event; otherwise `other` strikes back, and if that fells
      `lead` a "down" event follows.  Speeds never change, so the leader of
      the first round leads every round. */
  function Rounds(lead: Fighter, other: Fighter, r: Role, crit: nat -> bool, k: nat): Bout
    decreases lead.hp + other.hp
  {
    if lead.hp <= 0 || other.hp <= 0 then
      Bout(lead, other, [])
    else
      var e1 := Blow(r, lead, other, crit(k));
      var hurt := Strike(lead, other, crit(k));
      if hurt.hp <= 0 then
        Bout(lead, hurt, [e1, Down(Other(r), other.name)])
      else
        var e2 := Blow(Other(r), hurt, lead, crit(k + 1));
        var struck := Strike(hurt, lead, crit(k + 1));
        var round := if struck.hp <= 0 then [e1, e2, Down(r, lead.name)] else [e1, e2];
        var rest := Rounds(struck, hurt, r, crit, k + 2);
        Bout(rest.lead, rest.other, round + rest.log)
  }

  /** The final state of the battle. */
  datatype Outcome = Outcome(pair: Pair, log: seq<Event>)

  /** The battle from state `p`, when `k` attacks have already been made:
      the rounds between the faster combatant (the first one on a tie) and
      the other, then the announcement of the winner. */
  function Fight(p: Pair, crit: nat -> bool, k: nat): Outcome
  {
    var r := p.Leader();
    var b := Rounds(p.Get(r), p.Get(Other(r)), r, crit, k);
    var q := Orient(r, b.lead, b.other);
    Outcome(q, b.log + [q.Announce()])
  }

  /** Rounds between two living combatants end with exactly one of them
      alive, and only their hit points have changed. */
  lemma {:induction false} RoundsSurvivor(lead: Fighter, other: Fighter, r: Role, crit: nat -> bool, k: nat)
    requires lead.hp > 0 && other.hp > 0
    ensures var b := Rounds(lead, other, r, crit, k);
      && b.lead == lead.(hp := b.lead.hp) && b.other == other.(hp := b.other.hp)
      && 0 <= b.lead.hp <= lead.hp && 0 <= b.other.hp <= other.hp
      && (b.lead.hp > 0 <==> b.other.hp == 0)
    decreases lead.hp + other.hp
  {
    var hurt := Strike(lead, other, crit(k));
    if hurt.hp > 0 {
      var struck := Strike(hurt, lead, crit(k + 1));
      if struck.hp > 0 {
        RoundsSurvivor(struck, hurt, r, crit, k + 2);
      }
    }
  }

  /** The rounds end after finitely many attacks: every attack takes at
      least one hit point from a living combatant, so there are at most as
      many attacks as the two had hit points together, plus the "down"
      event, and at least one attack. */
  lemma {:induction false} RoundsLength(lead: Fighter, other: Fighter, r: Role, crit: nat -> bool, k: nat)
    requires lead.hp > 0 && other.hp > 0
    ensures 2 <= |Rounds(lead, other, r, crit, k).log| <= lead.hp + other.hp + 1
    decreases lead.hp + other.hp
  {
    var hurt := Strike(lead, other, crit(k));
    if hurt.hp > 0 {
      var struck := Strike(hurt, lead, crit(k + 1));
      if struck.hp > 0 {
        RoundsLength(struck, hurt, r, crit, k + 2);
      }
    }
  }

  /** The log of rounds ends with the attack that felled a combatant and
      the "down" event naming that combatant: the one called `otherName`
      when the leader survives, the one called `leadName` otherwise. */
  predicate EndsFelled(b: Bout, r: Role, leadName: string, otherName: string)
  {
    var n := |b.log|;
    && n >= 2
    && b.log[n - 1] == (if b.lead.hp > 0 then Down(Other(r), otherName) else Down(r, leadName))
    && b.log[n - 2].Attack? && b.log[n - 2].defender == b.log[n - 1].who
  }

  /** A battle whose first round ends it ends as `EndsFelled` says. */
  lemma RoundsLoserLast(lead: Fighter, other: Fighter, r: Role, crit: nat -> bool, k: nat)
    requires lead.hp > 0 && other.hp > 0
    requires var hurt := Strike(lead, other, crit(k)); hurt.hp <= 0 || Strike(hurt, lead, crit(k + 1)).hp <= 0
    ensures EndsFelled(Rounds(lead, other, r, crit, k), r, lead.name, other.name)
  {
    var hurt := Strike(lead, other, crit(k));
    if hurt.hp > 0 {
      var struck := Strike(hurt, lead, crit(k + 1));
      assert Rounds(struck, hurt, r, crit, k + 2) == Bout(struck, hurt, []);
    }
  }

  /** The rounds end with the attack that felled a combatant and the
      "down" event naming that combatant: `other` when `lead` survives,
      `lead` otherwise. */
  lemma {:induction false} RoundsLoser(lead: Fighter, other: Fighter, r: Role, crit: nat -> bool, k: nat)
    requires lead.hp > 0 && other.hp > 0
    ensures EndsFelled(Rounds(lead, other, r, crit, k), r, lead.name, other.name)
    decreases lead.hp + other.hp
  {
    var hurt := Strike(lead, other, crit(k));
    var struck := Strike(hurt, lead, crit(k + 1));
    if hurt.hp <= 0 || struck.hp <= 0 {
      RoundsLoserLast(lead, other, r, crit, k);
    } else {
      RoundsLoser(struck, hurt, r, crit, k + 2);
      assert struck.name == lead.name && hurt.name == other.name;
      var log := Rounds(lead, other, r, crit, k).log;
      var tail := Rounds(struck, hurt, r, crit, k + 2).log;
      assert log == [Blow(r, lead, other, crit(k)), Blow(Other(r), hurt, lead, crit(k + 1))] + tail;
      assert log[|log| - 1] == tail[|tail| - 1] && log[|log| - 2] == tail[|tail| - 2];
      assert Rounds(lead, other, r, crit, k).lead == Rounds(struck, hurt, r, crit, k + 2).lead;
    }
  }

  /** Attack `e` is the one at position `i` of a battle led by role `r`:
      the leader strikes at even positions and the other at odd ones, each
      hitting the other role, named as `leadName` and `otherName`, for at
      least one point. */
  predicate AttackAt(e: Event, i: int, r: Role, leadName: string, otherName: string)
    requires e.Attack?
  {
    if i % 2 == 0 then
      e.attacker == r && e.defender == Other(r) && e.attackerName == leadName && e.defenderName == otherName && e.damage >= 1
    else
      e.attacker == Other(r) && e.defender == r && e.attackerName == otherName && e.defenderName == leadName && e.damage >= 1
  }

  /** Every event of the rounds but the last is an attack, and the attacks
      alternate between the leader and the other combatant. */
  lemma {:induction false} RoundsAttacks(lead: Fighter, other: Fighter, r: Role, crit: nat -> bool, k: nat)
    requires lead.hp > 0 && other.hp > 0
    ensures var log := Rounds(lead, other, r, crit, k).log;
      forall i :: 0 <= i < |log| ==>
        && (log[i].Attack? <==> i < |log| - 1)
        && (log[i].Attack? ==> AttackAt(log[i], i, r, lead.name, other.name))
    decreases lead.hp + other.hp
  {
    var log := Rounds(lead, other, r, crit, k).log;
    var hurt := Strike(lead, other, crit(k));
    var e1 := Blow(r, lead, other, crit(k));
    if hurt.hp <= 0 {
      assert log == [e1, Down(Other(r), other.name)];
    } else {
      var struck := Strike(hurt, lead, crit(k + 1));
      var e2 := Blow(Other(r), hurt, lead, crit(k + 1));
      var rest := Rounds(struck, hurt, r, crit, k + 2);
      if struck.hp <= 0 {
        assert rest.log == [];
        assert log == [e1, e2, Down(r, lead.name)];
      } else {
        RoundsAttacks(struck, hurt, r, crit, k + 2);
        RoundsLength(struck, hurt, r, crit, k + 2);
        assert log == [e1, e2] + rest.log;
        assert struck.name == lead.name && hurt.name == other.name;
        forall i | 0 <= i < |log|
          ensures log[i].Attack? <==> i < |log| - 1
          ensures log[i].Attack? ==> AttackAt(log[i], i, r, lead.name, other.name)
        {
          if i >= 2 {
            assert log[i] == Rounds(struck, hurt, r, crit, k + 2).log[i - 2] && (i - 2) % 2 == i % 2;
          }
        }
      }
    }
  }

  /** Every attack in `log` alternates between the leader (even positions)
      and the other combatant (odd positions), hits the other role, names
      both combatants as in `p`, and deals at least one point. */
  ghost predicate AttacksAlternate(p: Pair, log: seq<Event>)
  {
    forall i :: 0 <= i < |log| && log[i].Attack? ==>
      && log[i].attacker == (if i % 2 == 0 then p.Leader() else Other(p.Leader()))
      && log[i].defender == Other(log[i].attacker)
      && log[i].attackerName == p.Get(log[i].attacker).name
      && log[i].defenderName == p.Get(log[i].defender).name
      && log[i].damage >= 1
  }

  /** Only hit points change in a battle. */
  ghost predicate SameCombatants(p: Pair, q: Pair)
  {
    q.first == p.first.(hp := q.first.hp) && q.second == p.second.(hp := q.second.hp)
  }

  /** A battle between two living combatants ends with exactly one of them
      alive, hit points only fall and never below zero, and only hit points
      change; the log holds at least one attack and at most as many as the
      two had hit points together, a "down" event and the announcement. */
  lemma FightSurvivor(p: Pair, crit: nat -> bool, k: nat)
    requires p.BothAlive()
    ensures var o := Fight(p, crit, k);
      && SameCombatants(p, o.pair)
      && 0 <= o.pair.first.hp <= p.first.hp && 0 <= o.pair.second.hp <= p.second.hp
      && (o.pair.first.hp > 0 <==> o.pair.second.hp == 0)
      && 3 <= |o.log| <= p.Health() + 2
  {
    var r := p.Leader();
    RoundsSurvivor(p.Get(r), p.Get(Other(r)), r, crit, k);
    RoundsLength(p.Get(r), p.Get(Other(r)), r, crit, k);
  }

  /** The log ends with the attack that felled the loser, the loser's
      "down" event, and the announcement of the survivor. */
  lemma FightEnding(p: Pair, crit: nat -> bool, k: nat)
    requires p.BothAlive()
    ensures var o := Fight(p, crit, k); var n := |o.log|;
      && n >= 3
      && o.log[n - 1] == o.pair.Announce()
      && o.pair.Get(o.log[n - 1].who).hp > 0
      && o.log[n - 2] == Down(Other(o.log[n - 1].who), p.Get(Other(o.log[n - 1].who)).name)
      && o.log[n - 3].Attack? && o.log[n - 3].defender == Other(o.log[n - 1].who)
  {
    var r := p.Leader();
    var b := Rounds(p.Get(r), p.Get(Other(r)), r, crit, k);
    RoundsSurvivor(p.Get(r), p.Get(Other(r)), r, crit, k);
    RoundsLoser(p.Get(r), p.Get(Other(r)), r, crit, k);
    var log := Fight(p, crit, k).log;
    assert log == b.log + [Orient(r, b.lead, b.other).Announce()];
    assert log[|log| - 2] == b.log[|b.log| - 1] && log[|log| - 3] == b.log[|b.log| - 2];
  }

  /** Every entry of the log but the last two is an attack, and the attacks
      alternate between the leader and the other combatant. */
  lemma FightAttacks(p: Pair, crit: nat -> bool, k: nat)
    requires p.BothAlive()
    ensures var o := Fight(p, crit, k);
      && (forall i :: 0 <= i < |o.log| ==> (o.log[i].Attack? <==> i < |o.log| - 2))
      && AttacksAlternate(p, o.log)
  {
    var r := p.Leader();
    var b := Rounds(p.Get(r), p.Get(Other(r)), r, crit, k);
    RoundsAttacks(p.Get(r), p.Get(Other(r)), r, crit, k);
    var log := Fight(p, crit, k).log;
    assert log == b.log + [Orient(r, b.lead, b.other).Announce()];
    forall i | 0 <= i < |log|
      ensures log[i].Attack? <==> i < |log| - 2
      ensures log[i].Attack? ==>
        && log[i].attacker == (if i % 2 == 0 then r else Other(r))
        && log[i].defender == Other(log[i].attacker)
        && log[i].attackerName == p.Get(log[i].attacker).name
        && log[i].defenderName == p.Get(log[i].defender).name
        && log[i].damage >= 1
    {
      if i < |b.log| {
        assert log[i] == Rounds(p.Get(r), p.Get(Other(r)), r, crit, k).log[i];
      }
    }
  }

  /** The log holds exactly one "down" event, right before the
      announcement, and exactly one announcement, at its end. */
  lemma FightOneDown(p: Pair, crit: nat -> bool, k: nat)
    requires p.BothAlive()
    ensures var log := Fight(p, crit, k).log;
      forall i :: 0 <= i < |log| ==> (log[i].Down? <==> i == |log| - 2) && (log[i].Winner? <==> i == |log| - 1)
  {
    FightAttacks(p, crit, k);
    FightEnding(p, crit, k);
  }

  /** The battle loop as the source runs it, from state `p` after `k`
      attacks with `log` written so far: the events are appended one by one,
      a felled defender ends the loop at once, and the announcement is
      appended when the loop condition fails. */
  function Run(p: Pair, crit: nat -> bool, k: nat, log: seq<Event>): Outcome
    decreases p.Health()
  {
    if !p.BothAlive() then
      Outcome(p, log + [p.Announce()])
    else
      var r := p.Leader();
      var lead, other := p.Get(r), p.Get(Other(r));
      var hurt := Strike(lead, other, crit(k));
      var log1 := log + [Blow(r, lead, other, crit(k))];
      if hurt.hp <= 0 then
        Run(Orient(r, lead, hurt), crit, k + 1, log1 + [Down(Other(r), other.name)])
      else
        var struck := Strike(hurt, lead, crit(k + 1));
        var log2 := log1 + [Blow(Other(r), hurt, lead, crit(k + 1))];
        Run(Orient(r, struck, hurt), crit, k + 2, if struck.hp <= 0 then log2 + [Down(r, lead.name)] else log2)
  }

  /** `Run` and `Fight` agree on a round in which the leader fells the
      other combatant. */
  lemma RunFelled(p: Pair, crit: nat -> bool, k: nat, log: seq<Event>)
    requires p.BothAlive()
    requires Strike(p.Get(p.Leader()), p.Get(Other(p.Leader())), crit(k)).hp <= 0
    ensures Run(p, crit, k, log) == Outcome(Fight(p, crit, k).pair, log + Fight(p, crit, k).log)
  {
    var r := p.Leader();
    var lead, other := p.Get(r), p.Get(Other(r));
    assert Orient(r, lead, other) == p;
    var hurt := Strike(lead, other, crit(k));
    var e1 := Blow(r, lead, other, crit(k));
    var down := Down(Other(r), other.name);
    var mid := Orient(r, lead, hurt);
    assert Rounds(lead, other, r, crit, k) == Bout(lead, hurt, [e1, down]);
    assert log + [e1] + [down] + [mid.Announce()] == log + ([e1, down] + [mid.Announce()]);
  }

  /** `Run` and `Fight` agree on a round in which the other combatant
      survives the first attack and fells the leader. */
  lemma RunCounterFelled(p: Pair, crit: nat -> bool, k: nat, log: seq<Event>)
    requires p.BothAlive()
    requires var r := p.Leader(); var hurt := Strike(p.Get(r), p.Get(Other(r)), crit(k));
      hurt.hp > 0 && Strike(hurt, p.Get(r), crit(k + 1)).hp <= 0
    ensures Run(p, crit, k, log) == Outcome(Fight(p, crit, k).pair, log + Fight(p, crit, k).log)
  {
    var r := p.Leader();
    var lead, other := p.Get(r), p.Get(Other(r));
    assert Orient(r, lead, other) == p;
    var hurt := Strike(lead, other, crit(k));
    var e1 := Blow(r, lead, other, crit(k));
    var struck := Strike(hurt, lead, crit(k + 1));
    var e2 := Blow(Other(r), hurt, lead, crit(k + 1));
    var after := Orient(r, struck, hurt);
    var down := Down(r, lead.name);
    assert Rounds(struck, hurt, r, crit, k + 2) == Bout(struck, hurt, []);
    assert Run(after, crit, k + 2, log + [e1] + [e2] + [down]) == Outcome(after, log + [e1] + [e2] + [down] + [after.Announce()]);
    assert log + [e1] + [e2] + [down] + [after.Announce()] == log + ([e1, e2, down] + [] + [after.Announce()]);
  }

  /** The loop-shaped `Run` and the round-shaped `Fight` describe the same
      battle: `Run` ends in the state `Fight` ends in, with `Fight`'s log
      after what was already written. */
  lemma {:induction false} RunIsFight(p: Pair, crit: nat -> bool, k: nat, log: seq<Event>)
    ensures Run(p, crit, k, log) == Outcome(Fight(p, crit, k).pair, log + Fight(p, crit, k).log)
    decreases p.Health()
  {
    var r := p.Leader();
    var lead, other := p.Get(r), p.Get(Other(r));
    if !p.BothAlive() {
      assert Orient(r, lead, other) == p;
      return;
    }
    var hurt := Strike(lead, other, crit(k));
    if hurt.hp <= 0 {
      RunFelled(p, crit, k, log);
      return;
    }
    var struck := Strike(hurt, lead, crit(k + 1));
    if struck.hp <= 0 {
      RunCounterFelled(p, crit, k, log);
      return;
    }
    var e1 := Blow(r, lead, other, crit(k));
    var e2 := Blow(Other(r), hurt, lead, crit(k + 1));
    var after := Orient(r, struck, hurt);
    assert after.Leader() == r && after.Get(r) == struck && after.Get(Other(r)) == hurt;
    RunIsFight(after, crit, k + 2, log + [e1] + [e2]);
    var rest := Rounds(struck, hurt, r, crit, k + 2);
    var q := Orient(r, rest.lead, rest.other);
    assert log + [e1] + [e2] + (rest.log + [q.Announce()]) == log + ([e1, e2] + rest.log + [q.Announce()]);
  }

  /** The battle loop run from the start plays out as `Fight`. */
  lemma LoopIsFight(p: Pair, crit: nat -> bool)
    ensures Run(p, crit, 0, []) == Fight(p, crit, 0)
  {
    RunIsFight(p, crit, 0, []);
    assert [] + Fight(p, crit, 0).log == Fight(p, crit, 0).log;
  }

  /** When a combatant is down from the start no round is played: nothing
      changes and the log is the announcement alone. */
  lemma FightNoRounds(p: Pair, crit: nat -> bool, k: nat)
    requires !p.BothAlive()
    ensures Fight(p, crit, k) == Outcome(p, [p.Announce()])
  {
    var r := p.Leader();
    assert Orient(r, p.Get(r), p.Get(Other(r))) == p;
  }

  /** The two objects as a value. */
  function Snap(p1: Pokemon, p2: Pokemon): Pair
    reads p1, p2
  {
    Pair(p1.Snapshot(), p2.Snapshot())
  }

  /** The battle loop over two distinct combatants: it plays rounds while
      both are alive, lowering their hit points in place, and returns the
      log.  The log and the final hit points are those `Run` gives, which
      are those of `Fight` (`LoopIsFight`), so the lemmas about `Fight`
      describe them. */
  method PokemonBattle(p1: Pokemon, p2: Pokemon, crit: nat -> bool) returns (log: seq<Event>)
    requires p1 != p2
    modifies p1`hp, p2`hp
    ensures Run(old(Snap(p1, p2)), crit, 0, []) == Outcome(Snap(p1, p2), log)
    ensures |log| >= 1 && log[|log| - 1] == (if p1.IsAlive() then Winner(First, p1.name) else Winner(Second, p2.name))
  {
    ghost var goal := Run(Snap(p1, p2), crit, 0, []);
    var k: nat := 0;
    log := [];
    while p1.IsAlive() && p2.IsAlive()
      invariant Run(Snap(p1, p2), crit, k, log) == goal
      decreases p1.hp + p2.hp
    {
      var attacker, defender := p1, p2;
      var aRole := First;
      if p1.speed < p2.speed {
        attacker, defender := p2, p1;
        aRole := Second;
      }
      var dRole := Other(aRole);

      // the leader strikes
      var damage, critical := attacker.AttackPokemon(defender, crit(k));
      var e1 := Attack(aRole, attacker.name, dRole, defender.name, damage, critical);
      log := log + [e1];
      k := k + 1;

      if !defender.IsAlive() {
        log := log + [Down(dRole, defender.name)];
        assert Run(Snap(p1, p2), crit, k, log) == goal;
        break;
      }

      // the defender strikes back
      damage, critical := defender.AttackPokemon(attacker, crit(k));
      var e2 := Attack(dRole, defender.name, aRole, attacker.name, damage, critical);
      log := log + [e2];
      k := k + 1;

      if !attacker.IsAlive() {
        log := log + [Down(aRole, attacker.name)];
      }
    }
    var winner, role := p2, Second;
    if p1.IsAlive() {
      winner, role := p1, First;
    }
    log := log + [Winner(role, winner.name)];
  }
}
