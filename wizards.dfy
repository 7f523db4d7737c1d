/** The combatant object: a Wizard whose mutators change its counters in place, and the
    cast of a spell, which mutates two wizards. */
module Wizards {
  import opened Config
  import opened Rules
  import opened Spells

  /** A wizard: a fixed name, three counters changed in place by its mutators, and a
      spellbook that only grows. */
  class Wizard {
    const name: string
    var health: int
    var mana: int
    var shield: int
    var spellBook: seq<Spell>

    /** The counters as a value. */
    function Snapshot(): Stats
      reads this
    {
      Stats(health, mana, shield)
    }

    constructor (name: string)
      ensures this.name == name
      ensures Snapshot() == INITIAL_STATS && Valid(Snapshot())
      ensures spellBook == []
    {
      this.name := name;
      health, mana, shield := INITIAL_HEALTH, INITIAL_MANA, 0;
      spellBook := [];
    }

    predicate IsAlive()
      reads this
      ensures IsAlive() <==> health > 0
    {
      Alive(Snapshot())
    }

    predicate HasEnoughMana(cost: int)
      reads this
      ensures HasEnoughMana(cost) <==> mana >= cost
    {
      CanAfford(Snapshot(), cost)
    }

    method SpendMana(cost: int)
      modifies this
      ensures Snapshot() == Rules.SpendMana(old(Snapshot()), cost)
      ensures spellBook == old(spellBook)
    {
      mana := mana - cost;
      if mana < 0 { mana := 0; }
    }

    method RegenerateMana(amount: int)
      modifies this
      ensures Snapshot() == Rules.RegenerateMana(old(Snapshot()), amount)
      ensures spellBook == old(spellBook)
    {
      mana := mana + amount;
      if mana > INITIAL_MANA { mana := INITIAL_MANA; }
    }

    method ReceiveDamage(amount: int)
      modifies this
      ensures Snapshot() == Rules.ReceiveDamage(old(Snapshot()), amount)
      ensures spellBook == old(spellBook)
    {
      if amount <= 0 || !IsAlive() { return; }
      var remaining := amount;
      if shield > 0 {
        var absorbed := Min(shield, remaining);
        shield := shield - absorbed;
        remaining := remaining - absorbed;
      }
      if remaining > 0 {
        health := health - remaining;
        if health < 0 { health := 0; }
      }
    }

    method Heal(amount: int)
      modifies this
      ensures Snapshot() == Rules.Heal(old(Snapshot()), amount)
      ensures spellBook == old(spellBook)
    {
      if !IsAlive() { return; }
      health := health + amount;
      if health > INITIAL_HEALTH { health := INITIAL_HEALTH; }
    }

    method AddShield(amount: int)
      modifies this
      ensures Snapshot() == Rules.AddShield(old(Snapshot()), amount)
      ensures spellBook == old(spellBook)
    {
      if !IsAlive() { return; }
      shield := shield + amount;
    }

    method ChangeMana(delta: int)
      modifies this
      ensures Snapshot() == Rules.ChangeMana(old(Snapshot()), delta)
      ensures spellBook == old(spellBook)
    {
      mana := mana + delta;
      if mana < 0 { mana := 0; }
      if mana > INITIAL_MANA { mana := INITIAL_MANA; }
    }

    method AddSpell(spell: Spell)
      modifies this
      ensures spellBook == old(spellBook) + [spell]
      ensures Snapshot() == old(Snapshot())
    {
      spellBook := spellBook + [spell];
    }
  }

  /** Casts `sp` from `caster` at `target`, two different wizards: when the caster cannot
      pay nothing happens; otherwise the caster pays and the spell's one effect is applied.
      Spellbooks never change. */
  method Cast(sp: Spell, caster: Wizard, target: Wizard)
    requires caster != target
    modifies caster, target
    ensures (caster.Snapshot(), target.Snapshot())
      == Spells.Cast(sp, old(caster.Snapshot()), old(target.Snapshot()))
    ensures caster.spellBook == old(caster.spellBook) && target.spellBook == old(target.spellBook)
  {
    if !caster.HasEnoughMana(sp.cost) {
      return;
    }
    caster.SpendMana(sp.cost);
    match sp.kind {
      case Damage => target.ReceiveDamage(sp.magnitude);
      case Heal => caster.Heal(sp.magnitude);
      case Shield => caster.AddShield(sp.magnitude);
      case ManaDrain =>
        var actualDrain := DrainTaken(sp, target.Snapshot());
        target.ChangeMana(-actualDrain);
        caster.ChangeMana(HalfTowardZero(actualDrain));
      case ManaRegen => caster.ChangeMana(sp.magnitude);
    }
  }
}
