/** Fixed tuning constants of the duel: starting values (which are also the caps),
    the six spells' costs and magnitudes, and the per-turn mana regeneration. */
module Config {
  const INITIAL_HEALTH: int := 100
  const INITIAL_MANA: int := 50

  const FIREBALL_DAMAGE: int := 25
  const FIREBALL_COST: int := 10

  const ICE_SPIKE_DAMAGE: int := 15
  const ICE_SPIKE_COST: int := 6

  const HEAL_AMOUNT: int := 20
  const HEAL_COST: int := 8

  const SHIELD_AMOUNT: int := 18
  const SHIELD_COST: int := 7

  const MANA_DRAIN_AMOUNT: int := 12
  const MANA_DRAIN_COST: int := 5

  const MANA_REGEN_PER_TURN: int := 4

  const MANA_REGEN_SPELL_AMOUNT: int := 15
  const MANA_REGEN_SPELL_COST: int := 1
}
