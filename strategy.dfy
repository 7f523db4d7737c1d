/** The rule-based opponent: a fixed priority cascade over the caster's spellbook
    (heal when low, shield when bare, drain a mana-rich opponent, cheapest affordable
    damage spell, else the cheapest spell of all). Spells are recognised by name. */
module Strategy {
  import opened Config
  import opened Rules
  import opened Spells

  /** Index of the first spell called `name`, or -1 when there is none. */
  function FirstNamed(spells: seq<Spell>, name: string): (r: int)
    ensures -1 <= r < |spells|
    ensures r == -1 <==> forall i :: 0 <= i < |spells| ==> spells[i].name != name
    ensures r >= 0 ==> spells[r].name == name && forall i :: 0 <= i < r ==> spells[i].name != name
  {
    if |spells| == 0 then -1
    else if spells[0].name == name then 0
    else
      var k := FirstNamed(spells[1..], name);
      if k == -1 then -1 else k + 1
  }

  /** The linear search the opponent runs for a spell of a given name. */
  method FindByName(spells: seq<Spell>, name: string) returns (r: int)
    ensures r == FirstNamed(spells, name)
  {
    for i := 0 to |spells|
      invariant forall j :: 0 <= j < i ==> spells[j].name != name
    {
      if spells[i].name == name {
        return i;
      }
    }
    return -1;
  }

  /** Damage spells are recognised by name, whatever their kind; on the default book the
      name test picks out exactly the spells of kind Damage. */
  predicate IsDamageSpell(sp: Spell)
    ensures IsDamageSpell(sp) <==> sp.name == FIREBALL || sp.name == ICE_SPIKE
    ensures sp in DefaultSpellBook() ==> (IsDamageSpell(sp) <==> sp.kind == Damage)
  {
    sp.name == FIREBALL || sp.name == ICE_SPIKE
  }

  predicate AffordableDamage(sp: Spell, self: Stats)
  {
    IsDamageSpell(sp) && CanAfford(self, sp.cost)
  }

  /** Among the first `n` spells, the earliest affordable damage spell of least cost,
      or -1 when there is none. */
  function CheapestAffordableDamage(spells: seq<Spell>, self: Stats, n: nat): (r: int)
    requires n <= |spells|
    ensures -1 <= r < n
    ensures r == -1 <==> forall j :: 0 <= j < n ==> !AffordableDamage(spells[j], self)
    ensures r >= 0 ==>
      && AffordableDamage(spells[r], self)
      && (forall j :: 0 <= j < n && AffordableDamage(spells[j], self) ==> spells[r].cost <= spells[j].cost)
      && (forall j :: 0 <= j < r && AffordableDamage(spells[j], self) ==> spells[r].cost < spells[j].cost)
    decreases n
  {
    if n == 0 then -1
    else
      var best := CheapestAffordableDamage(spells, self, n - 1);
      if AffordableDamage(spells[n - 1], self) && (best == -1 || spells[n - 1].cost < spells[best].cost)
      then n - 1
      else best
  }

  /** The opponent's scan for the cheapest affordable damage spell; "no candidate yet"
      is -1 rather than a largest-integer sentinel cost. */
  method FindCheapestAffordableDamage(spells: seq<Spell>, self: Stats) returns (bestIndex: int)
    ensures bestIndex == CheapestAffordableDamage(spells, self, |spells|)
  {
    bestIndex := -1;
    var bestCost := 0;
    for i := 0 to |spells|
      invariant bestIndex == CheapestAffordableDamage(spells, self, i)
      invariant bestIndex >= 0 ==> bestCost == spells[bestIndex].cost
    {
      var s := spells[i];
      if !IsDamageSpell(s) {
        continue;
      }
      if !CanAfford(self, s.cost) {
        continue;
      }
      if bestIndex == -1 || s.cost < bestCost {
        bestCost := s.cost;
        bestIndex := i;
      }
    }
  }

  /** Among the first `n` spells (n >= 1), the earliest one of least cost, affordable or not. */
  function CheapestSpell(spells: seq<Spell>, n: nat): (r: nat)
    requires 1 <= n <= |spells|
    ensures r < n
    ensures forall j :: 0 <= j < n ==> spells[r].cost <= spells[j].cost
    ensures forall j :: 0 <= j < r ==> spells[r].cost < spells[j].cost
    decreases n
  {
    if n == 1 then 0
    else
      var best := CheapestSpell(spells, n - 1);
      if spells[n - 1].cost < spells[best].cost then n - 1 else best
  }

  /** The opponent's last-resort scan: the cheapest spell of the book, starting from the first. */
  method FindCheapestSpell(spells: seq<Spell>) returns (bestIndex: nat)
    requires |spells| > 0
    ensures bestIndex == CheapestSpell(spells, |spells|)
  {
    bestIndex := 0;
    var bestCost := spells[0].cost;
    for i := 1 to |spells|
      invariant bestIndex == CheapestSpell(spells, i)
      invariant bestCost == spells[bestIndex].cost
    {
      if spells[i].cost < bestCost {
        bestCost := spells[i].cost;
        bestIndex := i;
      }
    }
  }

  /** Whether the named spell is present and `self` can pay for it. */
  predicate Usable(spells: seq<Spell>, k: int, self: Stats)
  {
    0 <= k < |spells| && CanAfford(self, spells[k].cost)
  }

  /** The opponent's choice for `self` facing `opponent`, on a non-empty spellbook. The first
      rule that applies wins: heal at 40 health or less, shield when the shield is 0, drain
      an opponent holding at least 15 mana, cast the cheapest affordable damage spell, and
      otherwise pick the cheapest spell even if it cannot be paid for. */
  function ChooseSpellIndex(self: Stats, opponent: Stats, spells: seq<Spell>): (r: int)
    requires |spells| > 0
    ensures 0 <= r < |spells|
    ensures CanAfford(self, spells[r].cost) || forall j :: 0 <= j < |spells| ==> spells[r].cost <= spells[j].cost
  {
    var healIndex := FirstNamed(spells, HEALING_LIGHT);
    if self.health <= 40 && Usable(spells, healIndex, self) then healIndex
    else
      var shieldIndex := FirstNamed(spells, MAGIC_SHIELD);
      if self.shield == 0 && Usable(spells, shieldIndex, self) then shieldIndex
      else
        var drainIndex := FirstNamed(spells, MANA_DRAIN);
        if opponent.mana >= 15 && Usable(spells, drainIndex, self) then drainIndex
        else
          var damageIndex := CheapestAffordableDamage(spells, self, |spells|);
          if damageIndex != -1 then damageIndex
          else CheapestSpell(spells, |spells|)
  }

  /** The same cascade, run with the opponent's searches. */
  method AiChooseSpellIndex(self: Stats, opponent: Stats, spells: seq<Spell>) returns (r: int)
    requires |spells| > 0
    ensures r == ChooseSpellIndex(self, opponent, spells)
  {
    var healIndex := FindByName(spells, HEALING_LIGHT);
    if self.health <= 40 && healIndex != -1 && CanAfford(self, spells[healIndex].cost) {
      return healIndex;
    }
    var shieldIndex := FindByName(spells, MAGIC_SHIELD);
    if self.shield == 0 && shieldIndex != -1 && CanAfford(self, spells[shieldIndex].cost) {
      return shieldIndex;
    }
    var drainIndex := FindByName(spells, MANA_DRAIN);
    if opponent.mana >= 15 && drainIndex != -1 && CanAfford(self, spells[drainIndex].cost) {
      return drainIndex;
    }
    var damageIndex := FindCheapestAffordableDamage(spells, self);
    if damageIndex != -1 {
      return damageIndex;
    }
    r := FindCheapestSpell(spells);
  }

  /** The opponent only ever picks a spell it cannot pay for when it can pay for none. */
  lemma UnaffordableChoiceMeansBroke(self: Stats, opponent: Stats, spells: seq<Spell>)
    requires |spells| > 0
    ensures var r := ChooseSpellIndex(self, opponent, spells);
      !CanAfford(self, spells[r].cost) ==> forall j :: 0 <= j < |spells| ==> !CanAfford(self, spells[j].cost)
  {
  }

  /** On the default spellbook, a wizard with at least 1 mana always picks a spell it can cast
      (Mana Surge costs 1), so the fallback rule never wastes its turn. */
  lemma DefaultChoiceAffordable(self: Stats, opponent: Stats)
    requires self.mana >= MANA_REGEN_SPELL_COST
    ensures CanAfford(self, DefaultSpellBook()[ChooseSpellIndex(self, opponent, DefaultSpellBook())].cost)
  {
    var book := DefaultSpellBook();
    UnaffordableChoiceMeansBroke(self, opponent, book);
    assert CanAfford(self, book[5].cost);
  }

  /** Low on health with mana to spare: Healing Light (index 2). */
  lemma ChoosesHealWhenLow()
    ensures ChooseSpellIndex(Stats(35, 50, 0), Stats(100, 20, 0), DefaultSpellBook()) == 2
  {
  }

  /** Healthy but unshielded: Magic Shield (index 3). */
  lemma ChoosesShieldWhenBare()
    ensures ChooseSpellIndex(Stats(80, 50, 0), Stats(100, 20, 0), DefaultSpellBook()) == 3
  {
  }

  /** Healthy, shielded, opponent holding 20 mana: Mana Drain (index 4). */
  lemma ChoosesDrainAgainstManaRichOpponent()
    ensures ChooseSpellIndex(Stats(80, 50, 5), Stats(100, 20, 0), DefaultSpellBook()) == 4
  {
  }

  /** Healthy, shielded, opponent low on mana: the cheaper damage spell, Ice Spike (index 1),
      over Fireball. */
  lemma ChoosesCheapestDamage()
    ensures ChooseSpellIndex(Stats(80, 50, 5), Stats(100, 5, 0), DefaultSpellBook()) == 1
  {
    var book, self := DefaultSpellBook(), Stats(80, 50, 5);
    assert book[0].name == FIREBALL && book[1].name == ICE_SPIKE;
    assert CheapestAffordableDamage(book, self, 1) == 0;
    assert CheapestAffordableDamage(book, self, 2) == 1;
  }
}
