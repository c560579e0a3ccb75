# Pokémon battle simulator: a verified model of its core

`app.py` lists every Pokémon from the PokéAPI in fixed-size chunks. It
fetches the detail records of ten randomly chosen Pokémon and normalises
each one into a name and four stats. It then lets two of those ten fight
turn by turn until one of them is down. This
project models these parts in Dafny:

- `wrappers.dfy`: the `Option` and `Result` types used by the other modules.
- `normalizer.dfy` (module `Normalizer`): `parse_pokemon_data`. The
  record's stat list becomes a dictionary in which the last entry for a name
  wins. The four stats default to 0 and the name defaults to "Unknown".
- `combat.dfy` (module `Combat`): the `Pokemon` class, with its hit points
  updated in place. It holds the damage rule: at least one point, the
  attack beyond the target's defense, doubled on a critical hit. Taking
  damage clamps the hit points at zero.
- `battle.dfy` (module `Battle`): `pokemon_battle`. The method
  `PokemonBattle` is the loop over two `Pokemon` objects. It is proved to
  give the log and final hit points of `Run`, a step-by-step function of the
  loop. `Run` in turn equals `Fight`, a round-by-round specification. The
  battle's properties are proved about `Fight`:
  - it always ends, with exactly one survivor;
  - the faster combatant always strikes first, and the first one on a tie;
  - the attacks alternate;
  - the log ends with the felling attack, then exactly one "down" event for
    the loser, then the announcement of the winner.

  Log lines are values of the datatype `Event`. Each event tags the
  combatants with a role: `First` is the first argument and `Second` the
  second.
- `chunkplan.dfy` (module `ChunkPlan`): `read_pokemons` once the total is
  known. Its parts are:
  - the offsets of `range(0, total, chunk_size)`; for a positive chunk size
    they ascend, there are ceil(total / chunk_size) of them, and there are
    none for a total of 0;
  - one request per offset;
  - the responses, kept in request order;
  - the responses joined in order.

  When the server slices one collection, the joined listing is that
  collection, complete and in order.

The critical-hit roll is random in the source. Here it is a parameter: a
`bool` for one attack, and an oracle `crit: nat -> bool` for a battle,
where `crit(k)` is the roll of the k-th attack. The network is the function
`fetch`, from a request to the entries it returns.

## Model

| member | source | states |
|---|---|---|
| Combat.BaseDamage | app.py:85 | The base damage is at least 1 and at least attack minus defense. It is exactly one of the two. |
| Combat.Damage | app.py:85-88 | The damage is the base damage or twice it. It is doubled exactly when the hit is critical, and it is never below 1. |
| Combat.AfterDamage | app.py:76-79 | The hit points left are never negative. They are 0 or the old hit points minus the damage, and they stay positive exactly when the hit points exceeded the damage. Non-negative damage never raises them above max(hp, 0). For non-negative inputs, the loss is the smaller of the hit points and the damage. |
| Combat.Pokemon.IsAlive | app.py:81-82 | The definition of being alive: positive hit points. TakeDamage states when a hit leaves the combatant alive, and PokemonBattle's loop runs while both are alive. |
| Combat.Pokemon.constructor | app.py:68-74 | Every field takes its argument, and the maximum hit points equal the initial hit points. Non-negative initial hit points satisfy the invariant 0 <= hp <= maxHp. |
| Combat.Pokemon.TakeDamage | app.py:76-79 | The hit points become the old ones minus the damage, clamped at 0. The combatant stays alive exactly when its hit points exceeded the damage. Non-negative damage keeps the invariant and never raises the hit points. |
| Combat.Pokemon.AttackPokemon | app.py:84-90 | It returns the damage of the rule and the critical flag it was given. It applies that damage to the target, and it changes only the target. |
| Battle.PokemonBattle | app.py:93-127 | The loop ends with the log and final hit points of `Run` from the initial state. The log's last entry announces the first combatant if it is alive and the second otherwise. |
| Battle.Rounds | app.py:96-123 | The definition of the rounds of the battle, seen from the leader's role. RoundsSurvivor, RoundsLength, RoundsLoser and RoundsAttacks state its properties. |
| Battle.Fight | app.py:93-127 | The definition of the whole battle: the rounds, then the announcement of the winner. FightSurvivor, FightEnding, FightAttacks, FightOneDown and FightNoRounds state its properties. |
| Battle.Run | app.py:96-126 | The definition of the loop as the source runs it, one event at a time. RunIsFight and LoopIsFight prove it equal to Fight, and PokemonBattle is proved to compute it. |
| Battle.RunIsFight | app.py:96-126 | The step-by-step loop function `Run` gives the same final state and log as the round-by-round specification `Fight`, from any state and any log written so far. |
| Battle.LoopIsFight | app.py:93-127 | A battle that starts with an empty log and no attacks made is exactly `Fight`. |
| Battle.RunFelled | app.py:103-112 | When the leader's first strike fells the other, `Run` agrees with `Fight`. |
| Battle.RunCounterFelled | app.py:114-125 | When the other combatant survives the first strike and its counter-attack fells the leader, `Run` agrees with `Fight`. |
| Battle.FightNoRounds | app.py:96-126 | If one combatant is already down, no round is played and the log is only the announcement. It names the first combatant if that one is alive, otherwise the second. |
| Battle.RoundsSurvivor | app.py:96-123 | Rounds between two living combatants end with exactly one alive. Hit points only fall, never below 0, and nothing but hit points changes. |
| Battle.RoundsLength | app.py:96-123 | The rounds log has at least 2 entries and at most the two combatants' hit points together plus 1, so the loop terminates. |
| Battle.RoundsLoserLast | app.py:103-123 | In a round where one strike fells its target, the log ends with that attack followed by the target's "down" event. |
| Battle.RoundsLoser | app.py:103-123 | The rounds log always ends with an attack on the loser followed by the loser's "down" event. |
| Battle.RoundsAttacks | app.py:97-119 | Every rounds-log entry but the last is an attack. Even positions are the leader's attacks and odd positions the other's. Each attack names both combatants and deals at least 1 damage. |
| Battle.FightSurvivor | app.py:93-127 | Between two living combatants, exactly one is alive at the end. Hit points only fall, never below 0, and nothing but hit points changes. The log has between 3 and total hit points + 2 entries. |
| Battle.FightEnding | app.py:110-126 | The log ends with three entries. First comes an attack on the loser, then the loser's "down" event, then the announcement of the survivor, whose hit points are positive. |
| Battle.FightAttacks | app.py:97-119 | Every entry but the last two is an attack. The faster combatant, or the first one on a tie, makes the even-numbered attacks, and the other makes the odd-numbered ones. |
| Battle.FightOneDown | app.py:110-126 | The log holds exactly one "down" event, just before the end, and exactly one announcement, at the end. |
| Normalizer.ParsePokemonData | app.py:48-64 | The definition of the normaliser. ParseLastWins, ParseMissing, ParseIgnoresOthers and ParseName state its properties. |
| Normalizer.StatMap | app.py:51 | The dictionary's keys are exactly the stat names in the list. |
| Normalizer.StatMapLastWins | app.py:51 | A name maps to the value of its last entry in the list. |
| Normalizer.StatMapAbsent | app.py:51 | A name no entry carries is not a key. |
| Normalizer.StatMapIgnores | app.py:51 | An entry inserted anywhere leaves the value of every other name unchanged. |
| Normalizer.ParseLastWins | app.py:51-56 | Each of hp, attack, defense and speed is the base value of the last entry with that name. |
| Normalizer.ParseMissing | app.py:51-56 | A stat that is not in the list is 0, and so is every stat when the list is missing. |
| Normalizer.ParseIgnoresOthers | app.py:51-64 | Entries for other stat names do not change the normalised record. |
| Normalizer.ParseName | app.py:49-64 | The name is the record's name, or "Unknown" when the record has none. An empty record gives "Unknown" with four zero stats. |
| ChunkPlan.Range | app.py:25 | The definition of Python's `range` for either sign of step. RangeElements and RangeLength state its properties for a positive step. |
| ChunkPlan.Offsets | app.py:25 | The definition of the chunk offsets, `range(0, total, size)`. OffsetsShape and OffsetsExample state its properties. |
| ChunkPlan.RangeElements | app.py:25 | The i-th element of a positive range is start + i * step. Every element lies in [start, stop), and the elements strictly ascend. |
| ChunkPlan.RangeLength | app.py:25 | A positive range has n elements with (n - 1) * step < stop - start <= n * step, which is the ceiling of the quotient. An empty interval gives none. |
| ChunkPlan.OffsetsShape | app.py:24-26 | For a positive chunk size, the offsets are 0, size, 2 * size and so on, all below the total and ascending. There are ceil(total / size) of them, and none when the total is 0 or less. |
| ChunkPlan.OffsetsExample | app.py:16-25 | 250 entries in chunks of 100 are requested at offsets 0, 100 and 200, and a total of 0 gives no request. |
| ChunkPlan.Requests | app.py:25-26 | There is one request per offset, in order, each for a whole chunk. |
| ChunkPlan.Gather | app.py:28 | There is one response per request, and the i-th response is the answer to the i-th request. |
| ChunkPlan.Flatten | app.py:29-30 | The definition of the chunks joined in order. FlattenCons, FlattenLength, FlattenIndex and Collect state its properties. |
| ChunkPlan.FlattenCons | app.py:29-30 | Joining a chunk in front of the others puts its entries first. |
| ChunkPlan.FlattenLength | app.py:29-30 | The joined list's length is the sum of the chunk lengths. |
| ChunkPlan.FlattenIndex | app.py:29-30 | Entry t of chunk j sits in the joined list after all the entries of the chunks before j. |
| ChunkPlan.ListingStep | app.py:24-30 | The listing from one offset is that offset's chunk followed by the listing from the next offset. |
| ChunkPlan.ServedFrom | app.py:24-30 | Chunks answered as slices of a collection join into the collection's suffix from the first offset. |
| ChunkPlan.ListingIsCollection | app.py:16-32 | When the server answers every request by slicing one collection, the listing is that collection, complete and in order. |
| ChunkPlan.PlanChunks | app.py:24-26 | The loop queues exactly the requests for the offsets of range(0, total, size). |
| ChunkPlan.Collect | app.py:29-30 | Extending the list with each chunk in turn gives the chunks joined in order. |
| ChunkPlan.ReadPokemons | app.py:16-32 | A chunk size of 0 fails, as `range` does. Any other size gives the responses to the planned requests, joined in request order. |

## Left out

- The HTTP layer is not modelled: the session, `fetch_pokemon_chunk`, `fetch_pokemon_details` and `get_pokemon_data`. The request for the total count is also left out, so the total is a parameter and the server is the function `fetch`.
- `asyncio.gather` runs its requests concurrently. Only its guarantee that results come back in request order is modelled. Failures of individual requests are not modelled.
- `asyncio.sleep`, `main`, the choice of two random Pokémon with `random.sample`, and printing are left out because they are timing or I/O.
- The ANSI colours of the log lines are left out. They tell the two combatants apart, and the role tag of each event does the same.
- `random.random() < 0.1` is not modelled as a probability. The critical-hit roll is an input (`critical`, or the oracle `crit`).
- Malformed detail records are not modelled. In the source, a stat entry without `stat`, `name` or `base_stat` raises `KeyError`, and a present but null `stats` raises `TypeError`. The model's stat entries always carry a name and a value.
- Combat.Pokemon.AttackPokemon: when a combatant attacks itself, the contract gives only the target's new hit points. The source allows this call.
- Battle.PokemonBattle: requires two distinct objects. The source also accepts one Pokémon fighting itself, and that case is not modelled.
- Battle.FightSurvivor, Battle.FightEnding, Battle.FightAttacks and Battle.FightOneDown: each requires both combatants alive at the start. When one is already down, Battle.FightNoRounds describes the battle.
