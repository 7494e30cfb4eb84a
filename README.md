# Multi-species Game of Life engine, modelled in Dafny

This project models the simulation engine of a multi-species Game of Life. The
engine owns a square board of `cells × cells` optional organism slots, with both
axes numbered from 1.

**Seeding.** The `World` constructor seeds the board from an ordered organism list:

- A cap limits how many distinct species are admitted. An organism of a new species
  that arrives once the cap is full is skipped silently.
- An organism off the board aborts construction. The x bound is checked before y.
- An organism that lands on an occupied slot goes through a coin flip. One organism
  stays in the slot: either the earlier one or the new one.

**Stepping.** Each step has two passes:

- The decide pass visits every slot. It lists the alive neighbours in a fixed
  direction order, with no wrap-around. It tallies them per species, in the order each
  species was first met. It then stages KILL or SKIP on a live organism. On an empty
  slot whose tally has a species counted exactly 3, it stages GIVE_BIRTH on a
  placeholder that is not yet alive.
- The commit pass carries out each staged state and clears it.

`iterate` runs exactly `iterations` steps.

The model has five modules:

- `Wrappers` holds `Option`, `Result` and `Outcome`.
- `Rules` holds one step as pure functions of the board before the step. `Decide`
  chooses a cell's staged state, `Next` builds the board after the step and `Run`
  applies `Next` repeatedly. It also proves the lemmas about neighbours, the tally,
  survival and birth.
- `Seeding` holds the constructor's seeding loop as a pure fold, `Seed`, and the
  lemmas about it.
- `Organisms` holds the class `Organism`. Its position is `const`; its liveness,
  species and staged next state are mutable fields.
- `Worlds` holds the class `World`, an `array2<Organism?>` in which slot
  `[x - 1, y - 1]` holds position `(x, y)`. Its ghost field `Contents` is the board
  of alive occupants as a map. Its ghost field `Repr` holds the array and every
  organism that has sat in it.

The main result:

- `CheckAllElements` runs the decide pass and then the commit pass over the array.
  It is proved to turn `Contents` into `Rules.Next(cells, old(Contents))`. Every slot
  is therefore decided from the board before the step only.
- `Iterate` is proved to leave `Contents == Rules.Run(cells, old(Contents), iterations)`.
- `Create` is proved to build exactly the board that `Seeding.Seed` describes, or to
  return its error.

Where the engine's stated rule and its code disagree, the model follows the code.
The stated rule, also in the comment at classes/World.php:284-285, kills a live
organism with fewer than 2 same-species neighbours. In the code, a kill needs the
organism's species to be a key of the neighbour tally (classes/World.php:280-283).
An organism with no same-species neighbour is therefore staged SKIP and survives.
`Rules.SurvivalRule` states this behaviour: only the counts 1 and 4 or more remove an
organism.

## Model

| member | source | states |
|---|---|---|
| Organisms.Organism.constructor | Organism.php:77-83 | the new organism stores x, y, species and liveness as given, and the getters return them; nothing is staged (state and species both unset) |
| Organisms.Organism.GiveBirth | Organism.php:92-98 | afterwards the organism is alive; a dead one takes the given species, a live one is left entirely unchanged (so a second call changes nothing); the staged state is untouched |
| Organisms.Organism.PrepareNextState | Organism.php:152-156 | GetNextState returns exactly the state and species passed in; liveness and species are unchanged |
| Organisms.Organism.ResetNextState | Organism.php:175-181 | the staged state is back to unset (null, null); liveness and species are unchanged |
| Seeding.Bounds | classes/World.php:156-161 | passes exactly when 1 <= x, y <= cells; a y error is reported only when x is in range |
| Seeding.SeedAdmitted | classes/World.php:74-85 | after k organisms, the admitted species are the first `cap` distinct species of the input, in order of first appearance |
| Seeding.SeedConsistent | classes/World.php:74-92 | after k organisms, every occupant lies on the board and has an admitted species |
| Seeding.SpeciesCap | classes/World.php:74-85 | a successful seeding admits at most `cap` species (none for a negative cap), each once, and every occupant has an admitted species |
| Seeding.SeedSkips | classes/World.php:77-84 | an organism whose species is not admitted is dropped: the state after it equals the state before it, wherever it lies |
| Seeding.SeedFailsIff | classes/World.php:74-92 | seeding fails exactly when some admitted organism lies off the board; a skipped organism never raises the bounds error |
| Seeding.ErrStays | classes/World.php:87-92 | once an organism has raised an error, construction ends with that error |
| Seeding.SeedCollision | classes/World.php:164-174 | an admitted organism on the board occupies its position afterwards; on a taken position exactly one organism stays, the earlier one when the coin is true and the new one otherwise; no other position changes |
| Rules.NeighboursUpToCount | classes/World.php:245-254 | after k directions, the number of listed neighbours of species s is the number of alive s among the first k scanned positions |
| Rules.ScannedIsMoore | classes/World.php:230-242 | the eight fixed directions visit exactly the eight positions around (x, y), with no wrap-around |
| Rules.NeighbourCount | classes/World.php:224-257 | the number of listed neighbours of species s equals the number of alive s in the Moore neighbourhood; at most 8 neighbours are listed |
| Rules.NeighboursAreOccupants | classes/World.php:246-253 | every listed neighbour species is the species of an alive occupant of the board |
| Rules.BumpKeys | classes/World.php:403-407 | one more neighbour adds a key only for a species not met before (at the end) and raises the total by one |
| Rules.BumpLookup | classes/World.php:403-407 | one more neighbour of species e sets e's count to 1 when new and adds 1 otherwise; every other count is unchanged |
| Rules.TallyKeys | classes/World.php:398-411 | the tally's keys are exactly the species among the neighbours, each key once |
| Rules.TallyCount | classes/World.php:398-411 | a species' recorded count is its number of occurrences among the neighbours; a species not met has no entry |
| Rules.TallyTotal | classes/World.php:398-411 | the counts add up to the number of alive neighbours |
| Rules.TallyOrder | classes/World.php:398-411 | the keys appear in the order in which their species were first met in the direction scan |
| Rules.TallyEntry | classes/World.php:398-411 | every tally entry is a neighbour species paired with its number of occurrences |
| Rules.BirthScanIsFirstTriple | classes/World.php:299-312 | the scan of the tally for a count of exactly 3 picks the species of the first neighbour, in direction order, that has exactly three of its kind, and picks none when no species has three |
| Rules.Next | classes/World.php:267-326 | the board after a step has occupants only on the n-by-n board |
| Rules.CommitFate | classes/World.php:280-368 | KILL and SKIP are staged only on a live occupant, GIVE_BIRTH and nothing only on an empty position, and a born species is a neighbour's; committing KILL empties the position, SKIP keeps the occupant and GIVE_BIRTH(s) makes s alive there |
| Rules.SurvivalRule | classes/World.php:280-320 | a live organism is gone after a step if and only if its same-species neighbour count is 1 or at least 4; with 0, 2 or 3 it stays with its species |
| Rules.BirthRule | classes/World.php:297-315 | an empty position takes the species of the first neighbour, in direction order, whose species has exactly 3 neighbours; it becomes occupied if and only if some neighbour species has exactly 3 |
| Rules.NextKeepsSpecies | classes/World.php:297-315 | a step never brings in a species: every occupant afterwards has a species that was on the board before |
| Worlds.World.constructor | classes/World.php:59-71 | the new world stores cells, species and iterations as given; every slot is empty and Contents is the empty board |
| Worlds.World.GetOrganism | classes/World.php:185-193 | an off-board position reads as no organism; an on-board one reads its slot, whose organism carries that position |
| Worlds.World.GetAliveNeighbours | classes/World.php:224-257 | returns exactly Rules.AliveNeighbours of the board the array shows: the species of the alive occupants in the fixed direction order |
| Worlds.World.GetCountOfNeighboursSpecies | classes/World.php:398-411 | returns exactly the tally Rules.CountOfNeighboursSpecies, whose keys, counts, total and order the Tally lemmas state |
| Worlds.World.ScanForBirth | classes/World.php:299-312 | returns the first tally species counted exactly 3, or none (Rules.BirthSpecies; see BirthScanIsFirstTriple) |
| Worlds.World.AddOrganism | classes/World.php:153-175 | outcome is the bounds check; on failure nothing changes; on an occupied slot with the coin true the occupant stays; otherwise a fresh organism with the given position, species and liveness and nothing staged fills the slot; no other slot changes |
| Worlds.World.KillOrganism | classes/World.php:204-214 | succeeds if and only if the slot holds a live organism, and then empties it; otherwise reports the error and changes nothing |
| Worlds.World.StageElement | classes/World.php:270-321 | stages the slot as Rules.Decide asks from the board before the step: KILL or SKIP on the live occupant, a not-yet-alive placeholder with GIVE_BIRTH(s) on an empty slot, nothing otherwise; no other slot changes |
| Worlds.World.CommitElement | classes/World.php:341-372 | leaves the slot holding the next board's occupant (Rules.NextCell), alive with nothing staged, or empty; no other slot changes |
| Worlds.World.CheckAllElements | classes/World.php:267-326 | one step turns Contents into Rules.Next(cells, old Contents), with every slot settled and nothing staged |
| Worlds.World.NextStateOfWorld | classes/World.php:335-389 | from a fully staged array, the commit pass leaves Contents equal to Rules.Next of the board before the step |
| Worlds.World.Iterate | classes/World.php:103-129 | after exactly max(iterations, 0) steps, Contents is Rules.Run of the board before; the returned array is the world's grid |
| Worlds.World.AddSeed | classes/World.php:87-92 | seeding one organism: outcome is the bounds check and Contents gains the organism unless the check fails or the coin keeps the occupant |
| Worlds.World.Create | classes/World.php:59-94 | the world holds exactly the board Seeding.Seed describes, every occupant alive at its own position with nothing staged, or construction returns Seed's error |

## Left out

- Debug tracing: `setDebugMode` and the `echo` output in `iterate` and the commit
  pass only print, so they are not modelled.
- main.php is not part of this model. It reads the configuration and organism list
  and writes the final board; the model takes the list as a `seq<Placement>`.
- `rand(0, 1)` on a collision during seeding is not modelled as a random generator.
  It is a parameter: one boolean per input organism, where true keeps the earlier
  occupant.
- PHP coerces a numeric species string to an integer array key and compares values
  loosely. The model treats species as strings compared exactly.
- Exceptions become error values: `Seeding.Error` (`XOutOfRange`, `YOutOfRange`)
  for seeding and `Worlds.KillError` (`MissingOrDead`) for the commit pass. Their
  message texts are not modelled.
- Worlds.World.GetAliveNeighbours returns the neighbours' species rather than the
  organism objects; the caller uses only their species.
- Worlds.World.CommitElement has two error branches: the kill of a missing or dead
  organism and an unset staged state. Both are proved unreachable. The model does not
  carry an error out of a step.
- A negative `cells` gives an empty board. A negative `iterations` gives zero steps,
  like the source's `while ($i < $this->iterations)`.
- Worlds.World.Iterate returns the world's own `array2`, which the world keeps
  referring to. PHP returns a value copy of the slot matrix (classes/World.php:128),
  so later changes to the world would not show in it. The model does not capture that
  copy; the caller reads the result once.
