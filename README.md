# Wizard duel — a Dafny model of the combat engine

This project models the combat engine of a console spell duel between two wizards, a
human-controlled Player and a rule-based Enemy. It covers the following parts:

- **Config**: starting values, which are also the caps (health 100, mana 50), the six spells'
  costs and magnitudes, and the per-turn regeneration of 4 mana.
- **Rules / Wizards**: a wizard's health, mana and shield as a `Stats` value, the pure rule for
  each mutator (`SpendMana`, `RegenerateMana`, `ChangeMana`, `ReceiveDamage`, `Heal`,
  `AddShield`) and the `Wizard` class, whose methods change its fields in place by exactly those
  rules.
- **Spells**: the five spell classes become one `Spell` datatype (name, cost, kind, magnitude).
  `Spells.Cast` is the pure effect of a cast. `Wizards.Cast` mutates two distinct wizards and is
  proved equal to it. The default spellbook is the six-spell sequence.
- **Strategy**: the rule-based opponent. Each search loop is a method proved equal to a recursive
  specification function. The priority cascade is a function over (own stats, opponent stats,
  spellbook).
- **Duel**: a turn (skip, or cast then regenerate), a round (the enemy does not move once dead),
  the duel loop and the classification of the final result. These are pure functions plus the
  `Game` class whose methods run them on the two wizards.

Invariant proved throughout: 0 ≤ health ≤ 100, 0 ≤ mana ≤ 50 and shield ≥ 0. Every mutator
keeps it for non-negative amounts, and so do every cast, turn, round and duel with well-formed
spellbooks (non-negative costs and magnitudes).

Two facts the code determines, which the game's own messages do not make obvious:

- The caster's mana after Mana Drain counts the paid cost. It is
  min(50, mana − cost + ⌊drained / 2⌋), where drained = min(12, target mana).
- The draw branch of the result message cannot be reached from a valid start. No spell lowers
  its caster's health, and the enemy does not move once it has fallen, so a duel never leaves
  both wizards dead (`Duel.PlayPreservesValid`, `Duel.Game.Run`).

## Model

| member | source | states |
|---|---|---|
| `Rules.SpendMana` | ConsoleApplication1/ConsoleApplication1/ConsoleApplication1.cpp:59-62 | mana never ends below 0; an affordable cost is paid exactly, an unaffordable one empties mana; health and shield untouched; bounds kept for cost ≥ 0 |
| `Rules.RegenerateMana` | ConsoleApplication1/ConsoleApplication1/ConsoleApplication1.cpp:64-69 | mana becomes min(mana + amount, 50), so it never exceeds 50; nothing else changes |
| `Rules.ChangeMana` | ConsoleApplication1/ConsoleApplication1/ConsoleApplication1.cpp:103-109 | mana always ends in [0, 50]: exact when the sum is in range, 0 below, 50 above |
| `Rules.ReceiveDamage` | ConsoleApplication1/ConsoleApplication1/ConsoleApplication1.cpp:71-88 | no-op for amount ≤ 0 or a dead wizard; otherwise the shield absorbs min(shield, amount) first and health falls by the rest, floored at 0; health drops only once the shield is gone; mana untouched; bounds kept |
| `Rules.Heal` | ConsoleApplication1/ConsoleApplication1/ConsoleApplication1.cpp:90-96 | no-op on a dead wizard; otherwise health becomes min(health + amount, 100); never above 100 |
| `Rules.AddShield` | ConsoleApplication1/ConsoleApplication1/ConsoleApplication1.cpp:98-101 | no-op on a dead wizard; otherwise the shield grows by amount, unbounded |
| `Wizards.Wizard.constructor` | ConsoleApplication1/ConsoleApplication1/ConsoleApplication1.cpp:43-47 | a new wizard has the given name, health 100, mana 50, shield 0 and an empty spellbook |
| `Wizards.Wizard.SpendMana` | ConsoleApplication1/ConsoleApplication1/ConsoleApplication1.cpp:59-62 | the fields change exactly as `Rules.SpendMana`; the spellbook is unchanged |
| `Wizards.Wizard.RegenerateMana` | ConsoleApplication1/ConsoleApplication1/ConsoleApplication1.cpp:64-69 | the fields change exactly as `Rules.RegenerateMana`; the spellbook is unchanged |
| `Wizards.Wizard.ReceiveDamage` | ConsoleApplication1/ConsoleApplication1/ConsoleApplication1.cpp:71-88 | the fields change exactly as `Rules.ReceiveDamage`; the spellbook is unchanged |
| `Wizards.Wizard.Heal` | ConsoleApplication1/ConsoleApplication1/ConsoleApplication1.cpp:90-96 | the fields change exactly as `Rules.Heal`; the spellbook is unchanged |
| `Wizards.Wizard.AddShield` | ConsoleApplication1/ConsoleApplication1/ConsoleApplication1.cpp:98-101 | the fields change exactly as `Rules.AddShield`; the spellbook is unchanged |
| `Wizards.Wizard.ChangeMana` | ConsoleApplication1/ConsoleApplication1/ConsoleApplication1.cpp:103-109 | the fields change exactly as `Rules.ChangeMana`; the spellbook is unchanged |
| `Wizards.Wizard.AddSpell` | ConsoleApplication1/ConsoleApplication1/ConsoleApplication1.cpp:111-113 | the spell is appended to the spellbook; the counters are unchanged |
| `Spells.DefaultSpellBook` | ConsoleApplication1/ConsoleApplication1/ConsoleApplication1.cpp:283-306 | six spells with pairwise distinct names, every cost at least 1, all costs and magnitudes non-negative |
| `Spells.Cast` | ConsoleApplication1/ConsoleApplication1/ConsoleApplication1.cpp:156-161 | a caster who cannot pay leaves both caster and target unchanged; no cast brings a dead wizard back |
| `Spells.CastTouchesOnlyItsEffect` | ConsoleApplication1/ConsoleApplication1/ConsoleApplication1.cpp:156-277 | a paid cast first lowers the caster's mana by exactly the cost, then applies one effect. Damage touches only the target's shield and health. Heal touches only the caster's health. Shield touches only the caster's shield. Surge sets the caster's mana to ChangeMana(mana − cost, restore): exact in [0, 50], exactly 50 above. Drain sets the target's mana to ChangeMana(mana, −taken) and the caster's to ChangeMana(mana − cost, taken / 2 toward zero), touching no health or shield |
| `Spells.ManaDrainTransfersHalf` | ConsoleApplication1/ConsoleApplication1/ConsoleApplication1.cpp:237-241 | drained = min(drain, target mana); target mana falls by drained; caster mana becomes min(mana − cost + drained / 2, 50); no health or shield changes |
| `Spells.CastPreservesValid` | ConsoleApplication1/ConsoleApplication1/ConsoleApplication1.cpp:151-277 | a well-formed spell keeps both wizards within bounds, never lowers the caster's health and never raises the target's |
| `Wizards.Cast` | ConsoleApplication1/ConsoleApplication1/ConsoleApplication1.cpp:151-277 | on two distinct wizards the new counters are exactly `Spells.Cast` of the old ones; spellbooks unchanged |
| `Strategy.FirstNamed` | ConsoleApplication1/ConsoleApplication1/ConsoleApplication1.cpp:432-441 | the result is −1 iff no spell has the name; otherwise it is the first index with that name |
| `Strategy.FindByName` | ConsoleApplication1/ConsoleApplication1/ConsoleApplication1.cpp:432-441 | the search loop returns the first exact-name match, or −1 |
| `Strategy.CheapestAffordableDamage` | ConsoleApplication1/ConsoleApplication1/ConsoleApplication1.cpp:443-463 | −1 iff no affordable "Fireball"/"Ice Spike" exists; otherwise an affordable damage spell of minimum cost, the earliest such |
| `Strategy.FindCheapestAffordableDamage` | ConsoleApplication1/ConsoleApplication1/ConsoleApplication1.cpp:443-463 | the accumulator loop returns that earliest cheapest affordable damage index, or −1 |
| `Strategy.CheapestSpell` | ConsoleApplication1/ConsoleApplication1/ConsoleApplication1.cpp:465-476 | an index of minimum cost, ignoring affordability, the earliest such |
| `Strategy.FindCheapestSpell` | ConsoleApplication1/ConsoleApplication1/ConsoleApplication1.cpp:465-476 | on a non-empty book the loop returns that earliest minimum-cost index |
| `Strategy.ChooseSpellIndex` | ConsoleApplication1/ConsoleApplication1/ConsoleApplication1.cpp:391-429 | on a non-empty book the choice is a valid index; the chosen spell is affordable or the cheapest in the book |
| `Strategy.AiChooseSpellIndex` | ConsoleApplication1/ConsoleApplication1/ConsoleApplication1.cpp:391-429 | the cascade run with the search loops returns exactly `ChooseSpellIndex` |
| `Strategy.UnaffordableChoiceMeansBroke` | ConsoleApplication1/ConsoleApplication1/ConsoleApplication1.cpp:423-428 | the opponent picks a spell it cannot pay for only when it can pay for none |
| `Strategy.DefaultChoiceAffordable` | ConsoleApplication1/ConsoleApplication1/ConsoleApplication1.cpp:301-304 | on the default book, with mana ≥ 1 the opponent always picks a castable spell |
| `Strategy.ChoosesHealWhenLow` | ConsoleApplication1/ConsoleApplication1/ConsoleApplication1.cpp:397-403 | health 35, mana 50, shield 0, opponent mana 20 gives index 2 (Healing Light) |
| `Strategy.ChoosesShieldWhenBare` | ConsoleApplication1/ConsoleApplication1/ConsoleApplication1.cpp:405-412 | health 80, mana 50, shield 0, opponent mana 20 gives index 3 (Magic Shield) |
| `Strategy.ChoosesDrainAgainstManaRichOpponent` | ConsoleApplication1/ConsoleApplication1/ConsoleApplication1.cpp:414-421 | health 80, mana 50, shield 5, opponent mana 20 gives index 4 (Mana Drain) |
| `Strategy.ChoosesCheapestDamage` | ConsoleApplication1/ConsoleApplication1/ConsoleApplication1.cpp:423-425 | health 80, mana 50, shield 5, opponent mana 5 gives index 1 (Ice Spike, over Fireball) |
| `Duel.TakeTurn` | ConsoleApplication1/ConsoleApplication1/ConsoleApplication1.cpp:520-524 | a wizard with an empty spellbook skips the turn with no change at all; a dead wizard stays dead |
| `Duel.TurnRegeneratesAfterCast` | ConsoleApplication1/ConsoleApplication1/ConsoleApplication1.cpp:514-538 | an empty book or an out-of-range index changes nothing and gives no regeneration. Otherwise the cast happens and the caster then gets min(mana + 4, 50), even when the cast failed for lack of mana |
| `Duel.TurnPreservesValid` | ConsoleApplication1/ConsoleApplication1/ConsoleApplication1.cpp:514-538 | a turn with a well-formed book keeps both wizards within bounds, never lowers the mover's health and never raises the opponent's |
| `Duel.Round` | ConsoleApplication1/ConsoleApplication1/ConsoleApplication1.cpp:503-507 | if the player's turn leaves the enemy dead, the round ends there and the enemy does not move; a dead wizard stays dead |
| `Rules.Alive` | ConsoleApplication1/ConsoleApplication1/ConsoleApplication1.cpp:53 | alive iff health > 0; within bounds, iff health is not 0 |
| `Wizards.Wizard.IsAlive` | ConsoleApplication1/ConsoleApplication1/ConsoleApplication1.cpp:53 | the wizard is alive iff its health field is positive |
| `Rules.CanAfford` | ConsoleApplication1/ConsoleApplication1/ConsoleApplication1.cpp:55-57 | affordable iff mana ≥ cost; within bounds, nothing costing more than 50 is ever affordable |
| `Wizards.Wizard.HasEnoughMana` | ConsoleApplication1/ConsoleApplication1/ConsoleApplication1.cpp:55-57 | true iff the wizard's mana field is at least the cost |
| `Rules.HalfTowardZero` | ConsoleApplication1/ConsoleApplication1/ConsoleApplication1.cpp:241 | half of the drained amount, rounded toward zero: 0 ≤ 2r ≤ x < 2r + 2 for x ≥ 0, and 2r − 2 < x ≤ 2r ≤ 0 for x < 0 |
| `Spells.DrainTaken` | ConsoleApplication1/ConsoleApplication1/ConsoleApplication1.cpp:239 | the amount drained is at most the drain amount and at most the target's mana, and equals one of them (their minimum) |
| `Strategy.IsDamageSpell` | ConsoleApplication1/ConsoleApplication1/ConsoleApplication1.cpp:452-453 | a damage spell is one named "Fireball" or "Ice Spike"; on the default book this name test selects exactly the Damage-kind spells |
| `Duel.ChosenIndex` | ConsoleApplication1/ConsoleApplication1/ConsoleApplication1.cpp:526 | the human strategy returns the typed choice as it is; the rule-based strategy always returns an index inside the book |
| `Duel.Play` | ConsoleApplication1/ConsoleApplication1/ConsoleApplication1.cpp:503-508 | the duel loop with the player's choices as fuel: nothing happens once either wizard is dead, and a fallen wizard never comes back |
| `Duel.Classify` | ConsoleApplication1/ConsoleApplication1/ConsoleApplication1.cpp:540-551 | player win iff player alive and enemy dead; enemy win iff the reverse; draw iff both alive or both dead |
| `Duel.RoundPreservesValid` | ConsoleApplication1/ConsoleApplication1/ConsoleApplication1.cpp:503-508 | a round from two living wizards keeps bounds and leaves at least one of them alive |
| `Duel.PlayPreservesValid` | ConsoleApplication1/ConsoleApplication1/ConsoleApplication1.cpp:500-511 | over any number of rounds bounds are kept, at least one wizard stays alive, and a finished duel is never a draw |
| `Duel.Game.constructor` | ConsoleApplication1/ConsoleApplication1/ConsoleApplication1.cpp:483-498 | two distinct fresh wizards, "Player" and "Enemy", at full health and mana, each holding the default spellbook |
| `Duel.Game.PlayTurn` | ConsoleApplication1/ConsoleApplication1/ConsoleApplication1.cpp:514-538 | the two wizards' counters change exactly as `TakeTurn`, with the index chosen by the strategy; spellbooks unchanged |
| `Duel.Game.Run` | ConsoleApplication1/ConsoleApplication1/ConsoleApplication1.cpp:500-511 | the wizards end as `Play` of the start state and the player's choices. The status is InProgress only if both still live, else the printed result. From a valid start it is never a draw |

## Left out

- Console output: every status, cast, turn and result message is left out. The result is the `Status` value instead of text.
- The interactive strategy: the status display, the menu, the input retry loop and screen clearing are left out. The human's choice is an arbitrary integer carried by `Human(choice)`. This is a superset of the values the input loop can produce (1..N minus one).
- Termination of the duel loop: with human input the loop need not end. `Run` plays at most one round per entry of `choices` and returns `InProgress` if they run out with both wizards alive.
- The scripted AI-versus-AI regression duel is not modelled: the engine always pits a human against the AI.
- `Strategy.FindCheapestAffordableDamage`: the largest-integer sentinel cost is modelled as "no candidate yet" (index −1). An affordable damage spell whose cost is exactly the largest integer would be skipped by the code but is found by the model.
- Machine integer width: values are unbounded integers. Health and mana stay within their caps. The shield grows by at most 18 per turn, so 32-bit overflow would need hundreds of millions of turns.
- `Wizards.Cast`: requires caster and target to be different wizards. The game always passes the player and the enemy; casting on oneself through one reference is not modelled.
- Shared and unique pointers, virtual dispatch and the entry point are left out. Spells are values and wizards are plain object references.
