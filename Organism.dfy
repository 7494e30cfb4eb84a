/** The occupant of one board slot. Its position is fixed at construction; its
    liveness, its species and its staged next state change in place. */
module Organisms {
  import opened Wrappers
  import Rules

  /** The three states a step can stage: KILL, GIVE_BIRTH and SKIP. */
  datatype State = Kill | GiveBirth | Skip

  /** A staged transition: the state and the species handed to PrepareNextState.
      Unset, (None, None), means nothing is staged. */
  datatype NextState = NextState(state: Option<State>, species: Option<Rules.Species>)

  const Unset := NextState(None, None)

  class Organism {
    const x: int
    const y: int
    var species: Rules.Species
    var alive: bool
    var nextState: NextState

    /** A new organism stores its position, species and liveness as given, with nothing staged. */
    constructor (x: int, y: int, species: Rules.Species, isAlive: bool)
      ensures GetX() == x && GetY() == y
      ensures GetSpecies() == species && IsAlive() == isAlive
      ensures GetNextState() == Unset
    {
      this.x := x;
      this.y := y;
      this.species := species;
      this.alive := isAlive;
      this.nextState := Unset;
    }

    /** A dead organism comes alive with the given species; a live one is left alone. */
    method GiveBirth(species: Rules.Species)
      modifies this
      ensures IsAlive()
      ensures GetSpecies() == if old(alive) then old(this.species) else species
      ensures old(alive) ==> unchanged(this)
      ensures GetNextState() == old(nextState)
    {
      if !alive {
        alive := true;
        this.species := species;
      }
    }

    function GetX(): int
    {
      x
    }

    function GetY(): int
    {
      y
    }

    function GetSpecies(): Rules.Species
      reads this
    {
      species
    }

    function IsAlive(): bool
      reads this
    {
      alive
    }

    /** Records exactly the given state and species; liveness and species are untouched. */
    method PrepareNextState(state: State, species: Option<Rules.Species>)
      modifies this
      ensures GetNextState() == NextState(Some(state), species)
      ensures IsAlive() == old(alive) && GetSpecies() == old(this.species)
    {
      nextState := NextState(Some(state), species);
    }

    function GetNextState(): NextState
      reads this
    {
      nextState
    }

    /** Clears the staged state; liveness and species are untouched. */
    method ResetNextState()
      modifies this
      ensures GetNextState() == Unset
      ensures IsAlive() == old(alive) && GetSpecies() == old(species)
    {
      nextState := Unset;
    }
  }
}
