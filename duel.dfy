/** The duel controller: one turn (choose, cast, regenerate), one round (player, then the
    opponent unless it has fallen), the duel loop, and the classification of its result. */
module Duel {
  import opened Config
  import opened Rules
  import opened Spells
  import opened Strategy
  import opened Wizards

  /** How a side picks its spell: the human's menu choice (any integer, checked by the
      turn) or the rule-based opponent. */
  datatype TurnStrategy = Human(choice: int) | Ai

  /** The states of a duel: still running, or one of the three results. */
  datatype Status = InProgress | PlayerWon | EnemyWon | Draw

  /** The index a strategy returns for `current` facing `opponent`, on a non-empty book. */
  function ChosenIndex(strategy: TurnStrategy, current: Stats, opponent: Stats, book: seq<Spell>): (r: int)
    requires |book| > 0
    ensures strategy.Human? ==> r == strategy.choice
    ensures strategy.Ai? ==> 0 <= r < |book|
  {
    match strategy
    case Human(choice) => choice
    case Ai => ChooseSpellIndex(current, opponent, book)
  }

  /** The new (current, opponent) after `current`'s turn with spellbook `book`. */
  function TakeTurn(current: Stats, opponent: Stats, book: seq<Spell>, strategy: TurnStrategy): (r: (Stats, Stats))
    ensures |book| == 0 ==> r == (current, opponent)
    ensures !Alive(current) ==> !Alive(r.0)
    ensures !Alive(opponent) ==> !Alive(r.1)
  {
    if |book| == 0 then (current, opponent)
    else
      var index := ChosenIndex(strategy, current, opponent, book);
      if index < 0 || index >= |book| then (current, opponent)
      else
        var (c, o) := Spells.Cast(book[index], current, opponent);
        (RegenerateMana(c, MANA_REGEN_PER_TURN), o)
  }

  /** A skipped turn (empty book or an index outside the book) changes nothing and does not
      regenerate; any other turn regenerates 4 mana after the cast, capped at 50, also when
      the cast failed for lack of mana. */
  lemma TurnRegeneratesAfterCast(current: Stats, opponent: Stats, book: seq<Spell>, strategy: TurnStrategy)
    ensures var r := TakeTurn(current, opponent, book, strategy);
      if |book| == 0 || !(0 <= ChosenIndex(strategy, current, opponent, book) < |book|) then
        r == (current, opponent)
      else
        var sp := book[ChosenIndex(strategy, current, opponent, book)];
        && r.0.mana == Min(Spells.Cast(sp, current, opponent).0.mana + MANA_REGEN_PER_TURN, INITIAL_MANA)
        && r.0.health == Spells.Cast(sp, current, opponent).0.health
        && r.0.shield == Spells.Cast(sp, current, opponent).0.shield
        && r.1 == Spells.Cast(sp, current, opponent).1
        && (!CanAfford(current, sp.cost) ==>
              r == (current.(mana := Min(current.mana + MANA_REGEN_PER_TURN, INITIAL_MANA)), opponent))
  {
  }

  /** A turn with a well-formed book keeps both wizards within bounds, never lowers the
      mover's health and never raises the opponent's. */
  lemma TurnPreservesValid(current: Stats, opponent: Stats, book: seq<Spell>, strategy: TurnStrategy)
    requires Valid(current) && Valid(opponent) && WellFormedBook(book)
    ensures var (c, o) := TakeTurn(current, opponent, book, strategy);
      Valid(c) && Valid(o) && c.health >= current.health && o.health <= opponent.health
  {
    if |book| > 0 {
      var index := ChosenIndex(strategy, current, opponent, book);
      if 0 <= index < |book| {
        CastPreservesValid(book[index], current, opponent);
      }
    }
  }

  /** One round: the player moves with the given menu choice; unless that leaves the enemy
      dead, the enemy then moves by the rule-based strategy. Result is (player, enemy). */
  function Round(player: Stats, enemy: Stats, playerBook: seq<Spell>, enemyBook: seq<Spell>, choice: int): (r: (Stats, Stats))
    ensures var (p1, e1) := TakeTurn(player, enemy, playerBook, Human(choice));
      !Alive(e1) ==> r == (p1, e1)
    ensures !Alive(player) ==> !Alive(r.0)
    ensures !Alive(enemy) ==> !Alive(r.1)
  {
    var (p1, e1) := TakeTurn(player, enemy, playerBook, Human(choice));
    if !Alive(e1) then (p1, e1)
    else
      var (e2, p2) := TakeTurn(e1, p1, enemyBook, Ai);
      (p2, e2)
  }

  /** Rounds are played, one per human choice, while both wizards are alive. Nothing happens
      once either is dead, and a fallen wizard never comes back. */
  function Play(player: Stats, enemy: Stats, playerBook: seq<Spell>, enemyBook: seq<Spell>, choices: seq<int>): (r: (Stats, Stats))
    ensures !(Alive(player) && Alive(enemy)) ==> r == (player, enemy)
    ensures !Alive(player) ==> !Alive(r.0)
    ensures !Alive(enemy) ==> !Alive(r.1)
    decreases |choices|
  {
    if !(Alive(player) && Alive(enemy)) || choices == [] then (player, enemy)
    else
      var (p, e) := Round(player, enemy, playerBook, enemyBook, choices[0]);
      Play(p, e, playerBook, enemyBook, choices[1..])
  }

  /** The result announced at the end: a win for the side still standing, a draw otherwise. */
  function Classify(player: Stats, enemy: Stats): (s: Status)
    ensures s != InProgress
    ensures s == PlayerWon <==> Alive(player) && !Alive(enemy)
    ensures s == EnemyWon <==> !Alive(player) && Alive(enemy)
    ensures s == Draw <==> Alive(player) == Alive(enemy)
  {
    if Alive(player) && !Alive(enemy) then PlayerWon
    else if !Alive(player) && Alive(enemy) then EnemyWon
    else Draw
  }

  /** A round keeps both wizards within bounds, and it can never leave both of them dead:
      no spell lowers its caster's health, and the enemy does not move once it has fallen. */
  lemma {:induction false} RoundPreservesValid(player: Stats, enemy: Stats, playerBook: seq<Spell>, enemyBook: seq<Spell>, choice: int)
    requires Valid(player) && Valid(enemy) && WellFormedBook(playerBook) && WellFormedBook(enemyBook)
    requires Alive(player) && Alive(enemy)
    ensures var (p, e) := Round(player, enemy, playerBook, enemyBook, choice);
      Valid(p) && Valid(e) && (Alive(p) || Alive(e))
  {
    var (p1, e1) := TakeTurn(player, enemy, playerBook, Human(choice));
    TurnPreservesValid(player, enemy, playerBook, Human(choice));
    if Alive(e1) {
      TurnPreservesValid(e1, p1, enemyBook, Ai);
    }
  }

  /** Over any number of rounds from two living wizards within bounds, both stay within
      bounds, and the duel ends with at most one of them dead: a draw cannot happen. */
  lemma {:induction false} PlayPreservesValid(player: Stats, enemy: Stats, playerBook: seq<Spell>, enemyBook: seq<Spell>, choices: seq<int>)
    requires Valid(player) && Valid(enemy) && WellFormedBook(playerBook) && WellFormedBook(enemyBook)
    requires Alive(player) || Alive(enemy)
    ensures var (p, e) := Play(player, enemy, playerBook, enemyBook, choices);
      && Valid(p) && Valid(e) && (Alive(p) || Alive(e))
      && (!(Alive(p) && Alive(e)) ==> Classify(p, e) != Draw)
    decreases |choices|
  {
    if Alive(player) && Alive(enemy) && choices != [] {
      var (p, e) := Round(player, enemy, playerBook, enemyBook, choices[0]);
      RoundPreservesValid(player, enemy, playerBook, enemyBook, choices[0]);
      PlayPreservesValid(p, e, playerBook, enemyBook, choices[1..]);
    }
  }

  /** The duel: a human-controlled player and a rule-based enemy, each with its own wizard. */
  class Game {
    const player: Wizard
    const enemy: Wizard

    ghost predicate Valid()
      reads this
    {
      player != enemy
    }

    /** Both wizards start at full health and mana with the default spellbook. */
    constructor ()
      ensures Valid() && fresh(player) && fresh(enemy)
      ensures player.name == "Player" && enemy.name == "Enemy"
      ensures player.Snapshot() == INITIAL_STATS && enemy.Snapshot() == INITIAL_STATS
      ensures player.spellBook == DefaultSpellBook() && enemy.spellBook == DefaultSpellBook()
    {
      var p := new Wizard("Player");
      var playerSpells := DefaultSpellBook();
      for i := 0 to |playerSpells|
        invariant p.spellBook == playerSpells[..i] && p.Snapshot() == INITIAL_STATS
      {
        p.AddSpell(playerSpells[i]);
      }
      var e := new Wizard("Enemy");
      var enemySpells := DefaultSpellBook();
      for i := 0 to |enemySpells|
        invariant e.spellBook == enemySpells[..i] && e.Snapshot() == INITIAL_STATS
        invariant p.spellBook == playerSpells && p.Snapshot() == INITIAL_STATS
      {
        e.AddSpell(enemySpells[i]);
      }
      player, enemy := p, e;
    }

    /** `current`'s turn against `opponent`: skipped on an empty book or an index outside it;
      otherwise the chosen spell is cast and `current` regenerates 4 mana. */
    method PlayTurn(current: Wizard, opponent: Wizard, strategy: TurnStrategy)
      requires current != opponent
      modifies current, opponent
      ensures (current.Snapshot(), opponent.Snapshot())
        == TakeTurn(old(current.Snapshot()), old(opponent.Snapshot()), current.spellBook, strategy)
      ensures current.spellBook == old(current.spellBook) && opponent.spellBook == old(opponent.spellBook)
    {
      var spells := current.spellBook;
      if |spells| == 0 {
        return;
      }
      var index;
      match strategy {
        case Human(choice) => index := choice;
        case Ai => index := AiChooseSpellIndex(current.Snapshot(), opponent.Snapshot(), spells);
      }
      if index < 0 || index >= |spells| {
        return;
      }
      Wizards.Cast(spells[index], current, opponent);
      current.RegenerateMana(MANA_REGEN_PER_TURN);
    }

    /** Plays rounds while both wizards live, one per entry of `choices` (the player's menu
      choices); the result is InProgress only if the choices ran out first. */
    method Run(choices: seq<int>) returns (status: Status)
      requires Valid()
      modifies player, enemy
      ensures (player.Snapshot(), enemy.Snapshot())
        == Play(old(player.Snapshot()), old(enemy.Snapshot()), player.spellBook, enemy.spellBook, choices)
      ensures player.spellBook == old(player.spellBook) && enemy.spellBook == old(enemy.spellBook)
      ensures status == if player.IsAlive() && enemy.IsAlive() then InProgress
                        else Classify(player.Snapshot(), enemy.Snapshot())
      ensures (&& Rules.Valid(old(player.Snapshot())) && Rules.Valid(old(enemy.Snapshot()))
               && WellFormedBook(player.spellBook) && WellFormedBook(enemy.spellBook)
               && (old(player.IsAlive()) || old(enemy.IsAlive())))
        ==> status != Draw
    {
      ghost var p0, e0 := player.Snapshot(), enemy.Snapshot();
      var i := 0;
      while player.IsAlive() && enemy.IsAlive() && i < |choices|
        invariant 0 <= i <= |choices|
        invariant player.spellBook == old(player.spellBook) && enemy.spellBook == old(enemy.spellBook)
        invariant Play(player.Snapshot(), enemy.Snapshot(), player.spellBook, enemy.spellBook, choices[i..])
          == Play(old(player.Snapshot()), old(enemy.Snapshot()), player.spellBook, enemy.spellBook, choices)
        decreases |choices| - i
      {
        assert choices[i..][1..] == choices[i + 1..];
        PlayTurn(player, enemy, Human(choices[i]));
        i := i + 1;
        if !enemy.IsAlive() {
          break;
        }
        PlayTurn(enemy, player, Ai);
      }
      if player.IsAlive() && enemy.IsAlive() {
        assert choices[i..] == [];
        status := InProgress;
      } else {
        status := Classify(player.Snapshot(), enemy.Snapshot());
      }
      if Rules.Valid(p0) && Rules.Valid(e0) && WellFormedBook(player.spellBook)
        && WellFormedBook(enemy.spellBook) && (Alive(p0) || Alive(e0))
      {
        PlayPreservesValid(p0, e0, player.spellBook, enemy.spellBook, choices);
      }
    }
  }
}
