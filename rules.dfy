/** The counters of a combatant as a value (Stats) and the pure rules by which each of
    the combatant's mutators changes them. */
module Rules {
  import opened Config

  /** Health, mana and shield of one wizard at one moment. */
  datatype Stats = Stats(health: int, mana: int, shield: int)

  /** The bounds every wizard keeps: health in [0, 100], mana in [0, 50], shield non-negative. */
  predicate Valid(s: Stats)
  {
    0 <= s.health <= INITIAL_HEALTH && 0 <= s.mana <= INITIAL_MANA && s.shield >= 0
  }

  const INITIAL_STATS: Stats := Stats(INITIAL_HEALTH, INITIAL_MANA, 0)

  predicate Alive(s: Stats)
    ensures Alive(s) <==> s.health > 0
    ensures Valid(s) ==> (Alive(s) <==> s.health != 0)
  {
    s.health > 0
  }

  predicate CanAfford(s: Stats, cost: int)
    ensures CanAfford(s, cost) <==> s.mana >= cost
    ensures Valid(s) && cost > INITIAL_MANA ==> !CanAfford(s, cost)
  {
    s.mana >= cost
  }

  function Min(a: int, b: int): (r: int)
  {
    if a <= b then a else b
  }

  /** Pays `cost`; the result is floored at 0 rather than refused. */
  function SpendMana(s: Stats, cost: int): (r: Stats)
    ensures r.health == s.health && r.shield == s.shield
    ensures r.mana >= 0
    ensures CanAfford(s, cost) ==> r.mana == s.mana - cost
    ensures !CanAfford(s, cost) ==> r.mana == 0
    ensures Valid(s) && cost >= 0 ==> Valid(r)
  {
    var m := s.mana - cost;
    s.(mana := if m < 0 then 0 else m)
  }

  /** Adds `amount`, capped at the starting mana. */
  function RegenerateMana(s: Stats, amount: int): (r: Stats)
    ensures r.health == s.health && r.shield == s.shield
    ensures r.mana <= INITIAL_MANA
    ensures r.mana == Min(s.mana + amount, INITIAL_MANA)
    ensures Valid(s) && amount >= 0 ==> Valid(r)
  {
    var m := s.mana + amount;
    s.(mana := if m > INITIAL_MANA then INITIAL_MANA else m)
  }

  /** Adds a possibly negative `delta`, clamped to [0, 50]. */
  function ChangeMana(s: Stats, delta: int): (r: Stats)
    ensures r.health == s.health && r.shield == s.shield
    ensures 0 <= r.mana <= INITIAL_MANA
    ensures 0 <= s.mana + delta <= INITIAL_MANA ==> r.mana == s.mana + delta
    ensures s.mana + delta < 0 ==> r.mana == 0
    ensures s.mana + delta > INITIAL_MANA ==> r.mana == INITIAL_MANA
    ensures Valid(s) ==> Valid(r)
  {
    var m := s.mana + delta;
    var m' := if m < 0 then 0 else m;
    s.(mana := if m' > INITIAL_MANA then INITIAL_MANA else m')
  }

  /** Incoming damage: ignored when non-positive or when the wizard is already dead;
      otherwise a positive shield absorbs as much as it can and the rest comes off
      health, floored at 0. */
  function ReceiveDamage(s: Stats, amount: int): (r: Stats)
    ensures r.mana == s.mana
    ensures amount <= 0 || !Alive(s) ==> r == s
    ensures amount > 0 && Alive(s) && s.shield >= 0 ==>
      && r.shield == s.shield - Min(s.shield, amount)
      && r.health == (if s.health - (amount - Min(s.shield, amount)) < 0 then 0
                      else s.health - (amount - Min(s.shield, amount)))
    ensures r.health < s.health ==> r.shield <= 0
    ensures r.health <= s.health && r.shield <= s.shield
    ensures Valid(s) ==> Valid(r)
  {
    if amount <= 0 || !Alive(s) then s
    else
      var absorbed := if s.shield > 0 then Min(s.shield, amount) else 0;
      var remaining := amount - absorbed;
      var h := s.health - remaining;
      s.(shield := s.shield - absorbed,
         health := if remaining > 0 then (if h < 0 then 0 else h) else s.health)
  }

  /** Restores health up to the starting health; a dead wizard stays as it is. */
  function Heal(s: Stats, amount: int): (r: Stats)
    ensures r.mana == s.mana && r.shield == s.shield
    ensures !Alive(s) ==> r == s
    ensures Alive(s) ==> r.health == Min(s.health + amount, INITIAL_HEALTH)
    ensures Alive(s) ==> r.health <= INITIAL_HEALTH
    ensures Valid(s) && amount >= 0 ==> Valid(r) && Alive(r) == Alive(s)
  {
    if !Alive(s) then s
    else
      var h := s.health + amount;
      s.(health := if h > INITIAL_HEALTH then INITIAL_HEALTH else h)
  }

  /** Adds to the shield, without an upper bound; a dead wizard stays as it is. */
  function AddShield(s: Stats, amount: int): (r: Stats)
    ensures r.mana == s.mana && r.health == s.health
    ensures !Alive(s) ==> r == s
    ensures Alive(s) ==> r.shield == s.shield + amount
    ensures Valid(s) && amount >= 0 ==> Valid(r)
  {
    if !Alive(s) then s else s.(shield := s.shield + amount)
  }

  /** Half of `x`, truncated toward zero as C++ integer division does (Dafny's `/` is
      Euclidean, which differs for negative `x`). */
  function HalfTowardZero(x: int): (r: int)
    ensures 0 <= x ==> 0 <= 2 * r <= x < 2 * r + 2
    ensures x < 0 ==> 2 * r - 2 < x <= 2 * r <= 0
  {
    if x >= 0 then x / 2 else -((-x) / 2)
  }
}
