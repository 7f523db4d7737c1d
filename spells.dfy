/** The spell catalogue: one datatype for the five spell kinds, the default spellbook,
    and the pure effect of casting a spell from one wizard at another. */
module Spells {
  import opened Config
  import opened Rules

  /** Which effect a spell has; its strength is the spell's magnitude. */
  datatype Kind = Damage | Heal | Shield | ManaDrain | ManaRegen

  datatype Spell = Spell(name: string, cost: int, kind: Kind, magnitude: int)

  /** Spells whose effect keeps every wizard within its bounds. */
  predicate WellFormed(sp: Spell)
  {
    sp.cost >= 0 && sp.magnitude >= 0
  }

  predicate WellFormedBook(book: seq<Spell>)
  {
    forall i :: 0 <= i < |book| ==> WellFormed(book[i])
  }

  const FIREBALL: string := "Fireball"
  const ICE_SPIKE: string := "Ice Spike"
  const HEALING_LIGHT: string := "Healing Light"
  const MAGIC_SHIELD: string := "Magic Shield"
  const MANA_DRAIN: string := "Mana Drain"
  const MANA_SURGE: string := "Mana Surge"

  /** The six spells each wizard starts with, in menu order. */
  function DefaultSpellBook(): (book: seq<Spell>)
    ensures |book| == 6 && WellFormedBook(book)
    ensures forall i, j :: 0 <= i < j < |book| ==> book[i].name != book[j].name
    ensures forall i :: 0 <= i < |book| ==> book[i].cost >= MANA_REGEN_SPELL_COST
  {
    [ Spell(FIREBALL, FIREBALL_COST, Damage, FIREBALL_DAMAGE),
      Spell(ICE_SPIKE, ICE_SPIKE_COST, Damage, ICE_SPIKE_DAMAGE),
      Spell(HEALING_LIGHT, HEAL_COST, Heal, HEAL_AMOUNT),
      Spell(MAGIC_SHIELD, SHIELD_COST, Shield, SHIELD_AMOUNT),
      Spell(MANA_DRAIN, MANA_DRAIN_COST, ManaDrain, MANA_DRAIN_AMOUNT),
      Spell(MANA_SURGE, MANA_REGEN_SPELL_COST, ManaRegen, MANA_REGEN_SPELL_AMOUNT) ]
  }

  /** The mana a drain takes from its target: the drain amount, or less if the target has less. */
  function DrainTaken(sp: Spell, target: Stats): (taken: int)
    ensures taken <= sp.magnitude && taken <= target.mana
    ensures taken == sp.magnitude || taken == target.mana
  {
    Min(sp.magnitude, target.mana)
  }

  /** Casting `sp` from `caster` at `target` gives the new (caster, target). An unaffordable
      spell changes nothing; otherwise the cost is paid first and then the one effect of
      the spell's kind is applied. */
  function Cast(sp: Spell, caster: Stats, target: Stats): (r: (Stats, Stats))
    ensures !CanAfford(caster, sp.cost) ==> r == (caster, target)
    ensures !Alive(caster) ==> !Alive(r.0)
    ensures !Alive(target) ==> !Alive(r.1)
  {
    if !CanAfford(caster, sp.cost) then (caster, target)
    else
      var paid := SpendMana(caster, sp.cost);
      match sp.kind
      case Damage => (paid, ReceiveDamage(target, sp.magnitude))
      case Heal => (Rules.Heal(paid, sp.magnitude), target)
      case Shield => (AddShield(paid, sp.magnitude), target)
      case ManaDrain =>
        var taken := DrainTaken(sp, target);
        var target' := ChangeMana(target, -taken);
        (ChangeMana(paid, HalfTowardZero(taken)), target')
      case ManaRegen => (ChangeMana(paid, sp.magnitude), target)
  }

  /** A successful cast costs the caster exactly the spell's cost and then touches only
      what its kind names: damage the target's shield and health, heal the caster's health,
      a shield the caster's shield, a surge the caster's mana. */
  lemma CastTouchesOnlyItsEffect(sp: Spell, caster: Stats, target: Stats)
    requires CanAfford(caster, sp.cost)
    ensures var (c, t) := Cast(sp, caster, target);
      match sp.kind
      case Damage =>
        && c == caster.(mana := caster.mana - sp.cost)
        && t.mana == target.mana && t == ReceiveDamage(target, sp.magnitude)
      case Heal =>
        && c.mana == caster.mana - sp.cost && c.shield == caster.shield
        && (Alive(caster) ==> c.health == Min(caster.health + sp.magnitude, INITIAL_HEALTH))
        && (!Alive(caster) ==> c.health == caster.health)
        && t == target
      case Shield =>
        && c.mana == caster.mana - sp.cost && c.health == caster.health
        && (Alive(caster) ==> c.shield == caster.shield + sp.magnitude)
        && (!Alive(caster) ==> c.shield == caster.shield)
        && t == target
      case ManaDrain =>
        && c == ChangeMana(caster.(mana := caster.mana - sp.cost), HalfTowardZero(DrainTaken(sp, target)))
        && t == ChangeMana(target, -DrainTaken(sp, target))
        && c.health == caster.health && c.shield == caster.shield
        && t.health == target.health && t.shield == target.shield
      case ManaRegen =>
        && c == ChangeMana(caster.(mana := caster.mana - sp.cost), sp.magnitude)
        && c.health == caster.health && c.shield == caster.shield
        && 0 <= c.mana <= INITIAL_MANA
        && (0 <= caster.mana - sp.cost + sp.magnitude <= INITIAL_MANA ==>
              c.mana == caster.mana - sp.cost + sp.magnitude)
        && (caster.mana - sp.cost + sp.magnitude > INITIAL_MANA ==> c.mana == INITIAL_MANA)
        && t == target
  {
  }

  /** Mana Drain between two wizards within their bounds: the target loses
      min(drain, its mana) and the caster, after paying, gains half of that (rounded down),
      capped at the maximum mana. */
  lemma ManaDrainTransfersHalf(sp: Spell, caster: Stats, target: Stats)
    requires sp.kind == ManaDrain && CanAfford(caster, sp.cost)
    requires Valid(caster) && Valid(target) && WellFormed(sp)
    ensures var (c, t) := Cast(sp, caster, target);
      var taken := DrainTaken(sp, target);
      && 0 <= taken <= target.mana
      && t.mana == target.mana - taken
      && c.mana == Min(caster.mana - sp.cost + taken / 2, INITIAL_MANA)
      && c.health == caster.health && c.shield == caster.shield
      && t.health == target.health && t.shield == target.shield
  {
  }

  /** Casting a well-formed spell keeps both wizards within their bounds, and never
      lowers the caster's health nor raises the target's. */
  lemma CastPreservesValid(sp: Spell, caster: Stats, target: Stats)
    requires WellFormed(sp) && Valid(caster) && Valid(target)
    ensures var (c, t) := Cast(sp, caster, target);
      Valid(c) && Valid(t) && c.health >= caster.health && t.health <= target.health
  {
  }
}
