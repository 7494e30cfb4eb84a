/** The simulation engine: a square board of optional organism slots, seeded from an
    organism list and stepped by a decide pass followed by a commit pass. The board is
    an array2 whose slot [x - 1, y - 1] holds position (x, y). The ghost field Contents
    is the board as a Rules.Grid, and every step is proved to turn it into
    Rules.Next(cells, Contents). */
module Worlds {
  import opened Wrappers
  import opened Rules
  import opened Seeding
  import O = Organisms

  /** The error of the commit pass: a kill staged on a slot without a live organism. */
  datatype KillError = MissingOrDead

  /** Side of the board array: a negative configured size leaves the board without positions. */
  function Side(cells: int): nat
  {
    if cells < 0 then 0 else cells
  }

  /** (a, b) comes before (i, j) in the row-by-row scan of the board. */
  predicate Before(a: int, b: int, i: int, j: int)
  {
    a < i || (a == i && b < j)
  }

  /** The alive view of a slot: the species of a live occupant, None otherwise. */
  function AliveSpecies(o: O.Organism?): Option<Species>
    reads o
  {
    if o != null && o.alive then Some(o.species) else None
  }

  /** A slot between steps: empty for an empty position, otherwise a live organism of
      the position's species with nothing staged. */
  ghost predicate Settled(o: O.Organism?, v: Option<Species>)
    reads o
  {
    match v
    case None => o == null
    case Some(s) => o != null && o.alive && o.species == s && o.nextState == O.Unset
  }

  /** A slot after the decide pass: what it holds is what Rules.Decide asks for (x, y). */
  ghost predicate Staged(o: O.Organism?, x: int, y: int, g: Grid)
    reads o
  {
    match Decide(g, x, y)
    case Kill =>
      o != null && o.alive && At(g, x, y) == Some(o.species) && o.nextState == O.NextState(Some(O.Kill), None)
    case Skip =>
      o != null && o.alive && At(g, x, y) == Some(o.species) && o.nextState == O.NextState(Some(O.Skip), None)
    case GiveBirth(s) =>
      o != null && !o.alive && o.species == s && o.nextState == O.NextState(Some(O.GiveBirth), Some(s))
    case Unstaged =>
      o == null
  }

  /** A staged slot still shows the board before the step to the neighbour scan. */
  lemma StagedAlive(o: O.Organism?, x: int, y: int, g: Grid)
    requires Staged(o, x, y, g)
    ensures AliveSpecies(o) == At(g, x, y)
  {
  }

  class World {
    const cells: int
    const species: int
    const iterations: int
    const grid: array2<O.Organism?>
    /** The live occupants of the board, by position. */
    ghost var Contents: Grid
    /** The board array and every organism it has held. */
    ghost var Repr: set<object>

    ghost predicate Shaped()
      reads this
    {
      grid.Length0 == Side(cells) && grid.Length1 == Side(cells)
    }

    /** Every organism in a slot carries the position of that slot. */
    ghost predicate Placed()
      reads this, grid
    {
      forall a, b | 0 <= a < grid.Length0 && 0 <= b < grid.Length1 && grid[a, b] != null ::
        grid[a, b].x == a + 1 && grid[a, b].y == b + 1
    }

    /** The array and all its occupants belong to Repr. */
    ghost predicate Framed()
      reads this, Repr
    {
      && grid in Repr
      && forall a, b | 0 <= a < grid.Length0 && 0 <= b < grid.Length1 && grid[a, b] != null ::
           grid[a, b] in Repr
    }

    /** Between steps: the array holds exactly Contents, every occupant alive with
        nothing staged. */
    ghost predicate Valid()
      reads this, Repr
    {
      && Framed() && Shaped() && Placed() && OnBoard(cells, Contents)
      && forall a, b | 0 <= a < grid.Length0 && 0 <= b < grid.Length1 ::
           Settled(grid[a, b], At(Contents, a + 1, b + 1))
    }

    /** The alive view of the array is the board g. */
    ghost predicate Shows(g: Grid)
      reads this, Repr
      requires Framed()
    {
      && OnBoard(cells, g)
      && forall a, b | 0 <= a < grid.Length0 && 0 <= b < grid.Length1 ::
           AliveSpecies(grid[a, b]) == At(g, a + 1, b + 1)
    }

    /** Decide pass progress: slots before (i, j) are staged from g, the others settled in g. */
    ghost predicate StagedUpTo(g: Grid, i: int, j: int)
      reads this, Repr
      requires Framed()
    {
      forall a, b | 0 <= a < grid.Length0 && 0 <= b < grid.Length1 ::
        if Before(a, b, i, j) then Staged(grid[a, b], a + 1, b + 1, g)
        else Settled(grid[a, b], At(g, a + 1, b + 1))
    }

    /** Commit pass progress: slots before (i, j) are settled in the next board, the others staged. */
    ghost predicate CommittedUpTo(g: Grid, i: int, j: int)
      reads this, Repr
      requires Framed()
    {
      forall a, b | 0 <= a < grid.Length0 && 0 <= b < grid.Length1 ::
        if Before(a, b, i, j) then Settled(grid[a, b], NextCell(g, a + 1, b + 1))
        else Staged(grid[a, b], a + 1, b + 1, g)
    }

    /** An empty board of the configured size. */
    constructor (cells: int, species: int, iterations: int)
      ensures this.cells == cells && this.species == species && this.iterations == iterations
      ensures Valid() && Contents == map[]
      ensures fresh(Repr)
    {
      var n := Side(cells);
      var board := new O.Organism?[n, n];
      var i := 0;
      while i < n
        invariant 0 <= i <= n
        invariant forall a, b | 0 <= a < i && 0 <= b < n :: board[a, b] == null
      {
        var j := 0;
        while j < n
          invariant 0 <= j <= n
          invariant forall a, b | 0 <= a < n && 0 <= b < n && Before(a, b, i, j) :: board[a, b] == null
        {
          board[i, j] := null;
          j := j + 1;
        }
        i := i + 1;
      }
      this.cells := cells;
      this.species := species;
      this.iterations := iterations;
      grid := board;
      Contents := map[];
      Repr := {board};
    }

    /** The organism at (x, y); a position off the board reads as empty. */
    function GetOrganism(x: int, y: int): (o: O.Organism?)
      reads this, grid
      requires Shaped()
      ensures !InRange(cells, x, y) ==> o == null
      ensures InRange(cells, x, y) ==> o == grid[x - 1, y - 1]
      ensures Placed() && o != null ==> o.GetX() == x && o.GetY() == y
    {
      if 1 <= x <= grid.Length0 && 1 <= y <= grid.Length1 then grid[x - 1, y - 1] else null
    }

    /** Reading any position, on the board or off it, through GetOrganism shows g. */
    lemma ShowsAt(g: Grid, x: int, y: int)
      requires Framed() && Shaped() && Shows(g)
      ensures AliveSpecies(GetOrganism(x, y)) == At(g, x, y)
    {
      if !InRange(cells, x, y) {
        assert (x, y) !in g;
      }
    }

    /** The species of the alive organisms around (x, y), in the fixed direction order. */
    method GetAliveNeighbours(ghost g: Grid, x: int, y: int) returns (neighbours: seq<Species>)
      requires Framed() && Shaped() && Shows(g)
      ensures neighbours == AliveNeighbours(g, x, y)
    {
      neighbours := [];
      var k := 0;
      while k < |Directions|
        invariant 0 <= k <= |Directions|
        invariant neighbours == NeighboursUpTo(g, x, y, k)
      {
        var d := Directions[k];
        var possibleNeighbour := GetOrganism(x + d.0, y + d.1);
        ghost var q := Around(x, y, k);
        ShowsAt(g, q.0, q.1);
        assert NeighboursUpTo(g, x, y, k + 1) == neighbours + (if q in g then [g[q]] else []);
        if possibleNeighbour != null && possibleNeighbour.IsAlive() {
          assert q in g && g[q] == possibleNeighbour.GetSpecies();
          neighbours := neighbours + [possibleNeighbour.GetSpecies()];
        } else {
          assert q !in g;
        }
        k := k + 1;
      }
    }

    /** The per-species counts of a neighbour list, in first-met order. */
    static method GetCountOfNeighboursSpecies(neighbours: seq<Species>) returns (count: Tally)
      ensures count == CountOfNeighboursSpecies(neighbours)
    {
      count := [];
      var k := 0;
      while k < |neighbours|
        invariant 0 <= k <= |neighbours|
        invariant count == CountOfNeighboursSpecies(neighbours[..k])
      {
        assert neighbours[..k + 1][..k] == neighbours[..k];
        count := Bump(count, neighbours[k]);
        k := k + 1;
      }
      assert neighbours[..k] == neighbours;
    }

    /** The birth scan: the first tallied species, in order, counted exactly 3. */
    static method ScanForBirth(count: Tally) returns (birth: Option<Species>)
      ensures birth == BirthSpecies(count)
    {
      var k := 0;
      while k < |count|
        invariant 0 <= k <= |count|
        invariant BirthSpecies(count[k..]) == BirthSpecies(count)
      {
        if count[k].1 == 3 {
          return Some(count[k].0);
        }
        assert count[k..][1..] == count[k + 1..];
        k := k + 1;
      }
      return None;
    }

    /** Places a new organism at (x, y) after the bounds check (x first, then y). On an
        occupied position the coin keepExisting decides whether the occupant stays. */
    method AddOrganism(x: int, y: int, species: Species, isAlive: bool, keepExisting: bool) returns (r: Outcome<Error>)
      requires Shaped()
      modifies grid
      ensures r == Bounds(cells, x, y)
      ensures r.Fail? ==> unchanged(grid)
      ensures r.Pass? && old(grid[x - 1, y - 1]) != null && keepExisting ==>
        grid[x - 1, y - 1] == old(grid[x - 1, y - 1])
      ensures r.Pass? && (old(grid[x - 1, y - 1]) == null || !keepExisting) ==>
        && fresh(grid[x - 1, y - 1])
        && grid[x - 1, y - 1].GetX() == x && grid[x - 1, y - 1].GetY() == y
        && grid[x - 1, y - 1].GetSpecies() == species && grid[x - 1, y - 1].IsAlive() == isAlive
        && grid[x - 1, y - 1].GetNextState() == O.Unset
      ensures forall a, b | 0 <= a < grid.Length0 && 0 <= b < grid.Length1 && (a != x - 1 || b != y - 1) ::
        grid[a, b] == old(grid[a, b])
    {
      if x > cells || x < 1 {
        return Fail(XOutOfRange);
      }
      if y > cells || y < 1 {
        return Fail(YOutOfRange);
      }
      if GetOrganism(x, y) != null && keepExisting {
        return Pass;
      }
      var organism := new O.Organism(x, y, species, isAlive);
      grid[x - 1, y - 1] := organism;
      return Pass;
    }

    /** Empties (x, y) when it holds a live organism; anything else is an error and
        changes nothing. */
    method KillOrganism(x: int, y: int) returns (r: Outcome<KillError>)
      requires Shaped()
      modifies grid
      ensures r.Pass? <==> InRange(cells, x, y) && old(grid[x - 1, y - 1]) != null && old(grid[x - 1, y - 1].alive)
      ensures r.Pass? ==> grid[x - 1, y - 1] == null
      ensures forall a, b | 0 <= a < grid.Length0 && 0 <= b < grid.Length1 && (r.Fail? || a != x - 1 || b != y - 1) ::
        grid[a, b] == old(grid[a, b])
    {
      var organism := GetOrganism(x, y);
      if organism != null && organism.IsAlive() {
        grid[x - 1, y - 1] := null;
        return Pass;
      }
      return Fail(MissingOrDead);
    }

    /** The decide step for slot [i, j]: stage KILL, SKIP or a not-yet-alive GIVE_BIRTH
        placeholder from the neighbours on the board g, which the array still shows. */
    method StageElement(ghost g: Grid, i: int, j: int)
      requires Framed() && Shaped() && Placed() && Shows(g)
      requires 0 <= i < grid.Length0 && 0 <= j < grid.Length1
      requires Settled(grid[i, j], At(g, i + 1, j + 1))
      modifies grid, grid[i, j]
      ensures Placed()
      ensures Staged(grid[i, j], i + 1, j + 1, g)
      ensures grid[i, j] == old(grid[i, j]) || fresh(grid[i, j])
      ensures forall a, b | 0 <= a < grid.Length0 && 0 <= b < grid.Length1 && (a != i || b != j) ::
        grid[a, b] == old(grid[a, b])
    {
      var x, y := i + 1, j + 1;
      var organism := grid[i, j];
      var aliveNeighbours := GetAliveNeighbours(g, x, y);
      var speciesOfNeighbours := GetCountOfNeighboursSpecies(aliveNeighbours);
      if organism != null && organism.IsAlive() && Lookup(speciesOfNeighbours, organism.GetSpecies()).Some? {
        var count := Lookup(speciesOfNeighbours, organism.GetSpecies()).value;
        if count < 2 || count >= 4 {
          organism.PrepareNextState(O.Kill, None);
          return;
        }
      }
      if organism == null {
        var birth := ScanForBirth(speciesOfNeighbours);
        if birth.Some? {
          var r := AddOrganism(x, y, birth.value, false, false);
          var placeholder := GetOrganism(x, y);
          placeholder.PrepareNextState(O.GiveBirth, birth);
        }
        return;
      }
      organism.PrepareNextState(O.Skip, None);
    }

    /** The commit step for slot [i, j]: carry out the staged state, then clear it. */
    method CommitElement(ghost g: Grid, i: int, j: int)
      requires Shaped() && Placed()
      requires 0 <= i < grid.Length0 && 0 <= j < grid.Length1
      requires Staged(grid[i, j], i + 1, j + 1, g)
      modifies grid, grid[i, j]
      ensures Placed()
      ensures Settled(grid[i, j], NextCell(g, i + 1, j + 1))
      ensures grid[i, j] == null || grid[i, j] == old(grid[i, j])
      ensures forall a, b | 0 <= a < grid.Length0 && 0 <= b < grid.Length1 && (a != i || b != j) ::
        grid[a, b] == old(grid[a, b])
    {
      var organism := grid[i, j];
      if organism != null {
        var nextState := organism.GetNextState();
        match nextState.state {
          case Some(state) =>
            if state == O.Skip {
            } else if state == O.Kill {
              var r := KillOrganism(i + 1, j + 1);
              if r.Fail? {
                assert false;
              }
            } else {
              organism.GiveBirth(nextState.species.value);
            }
          case None =>
            assert false;
        }
        organism.ResetNextState();
      }
    }

    /** The footprint a slot adds to Repr. */
    static ghost function Footprint(o: O.Organism?): set<object>
    {
      if o == null then {} else {o}
    }

    /** One step: decide every slot from the board before the step, then commit. */
    method CheckAllElements()
      requires Valid()
      modifies this, Repr
      ensures Valid() && Contents == Next(cells, old(Contents))
      ensures fresh(Repr - old(Repr))
    {
      ghost var g := Contents;
      var i := 0;
      while i < grid.Length0
        invariant 0 <= i <= grid.Length0
        invariant Contents == g && Framed() && Shaped() && Placed() && OnBoard(cells, g)
        invariant StagedUpTo(g, i, 0)
        invariant fresh(Repr - old(Repr))
      {
        var j := 0;
        while j < grid.Length1
          invariant 0 <= j <= grid.Length1
          invariant Contents == g && Framed() && Shaped() && Placed() && OnBoard(cells, g)
          invariant StagedUpTo(g, i, j)
          invariant fresh(Repr - old(Repr))
        {
          AdvanceStaging(g, i, j);
          j := j + 1;
        }
        i := i + 1;
      }
      NextStateOfWorld(g);
    }

    /** The decide pass moves past slot [i, j]: it is staged, the slots after it still
        hold the board g, and the only new object is a birth placeholder. */
    method AdvanceStaging(ghost g: Grid, i: int, j: int)
      requires 0 <= i < grid.Length0 && 0 <= j < grid.Length1
      requires Contents == g && Framed() && Shaped() && Placed() && OnBoard(cells, g)
      requires StagedUpTo(g, i, j)
      modifies this, Repr
      ensures Contents == g && Framed() && Shaped() && Placed()
      ensures StagedUpTo(g, i, j + 1)
      ensures fresh(Repr - old(Repr))
    {
      StagedShows(g, i, j);
      ghost var prev := grid[i, j];
      assert prev != null ==> prev.x == i + 1 && prev.y == j + 1;
      StageElement(g, i, j);
      ghost var o := grid[i, j];
      if o != null && o != prev {
        assert fresh(o);
      }
      Repr := Repr + Footprint(o);
      forall a, b | 0 <= a < grid.Length0 && 0 <= b < grid.Length1
        ensures if Before(a, b, i, j + 1) then Staged(grid[a, b], a + 1, b + 1, g)
          else Settled(grid[a, b], At(g, a + 1, b + 1))
      {
        if a != i || b != j {
          var p := grid[a, b];
          assert p == old(grid[a, b]);
          if p != null {
            assert p.x == a + 1 && p.y == b + 1;
            assert p != prev && unchanged(p);
          }
          assert Before(a, b, i, j + 1) == Before(a, b, i, j);
          if Before(a, b, i, j) {
            assert old(Staged(p, a + 1, b + 1, g));
          } else {
            assert old(Settled(p, At(g, a + 1, b + 1)));
          }
        }
      }
    }

    lemma StagedShows(g: Grid, i: int, j: int)
      requires Framed() && OnBoard(cells, g) && StagedUpTo(g, i, j)
      ensures Shows(g)
    {
      forall a, b | 0 <= a < grid.Length0 && 0 <= b < grid.Length1
        ensures AliveSpecies(grid[a, b]) == At(g, a + 1, b + 1)
      {
        if Before(a, b, i, j) {
          StagedAlive(grid[a, b], a + 1, b + 1, g);
        }
      }
    }

    /** The commit pass: every staged slot is switched to its next state, after which
        the array holds Next(cells, g). */
    method NextStateOfWorld(ghost g: Grid)
      requires Framed() && Shaped() && Placed() && StagedUpTo(g, grid.Length0, 0)
      modifies this, Repr
      ensures Valid() && Contents == Next(cells, g) && Repr == old(Repr)
    {
      var i := 0;
      while i < grid.Length0
        invariant 0 <= i <= grid.Length0
        invariant Repr == old(Repr) && Framed() && Shaped() && Placed()
        invariant CommittedUpTo(g, i, 0)
      {
        var j := 0;
        while j < grid.Length1
          invariant 0 <= j <= grid.Length1
          invariant Repr == old(Repr) && Framed() && Shaped() && Placed()
          invariant CommittedUpTo(g, i, j)
        {
          AdvanceCommit(g, i, j);
          j := j + 1;
        }
        i := i + 1;
      }
      Contents := Next(cells, g);
      CommittedSettles(g);
    }

    /** Once every slot is committed, each holds its occupant on the next board. */
    lemma CommittedSettles(g: Grid)
      requires Framed() && Shaped() && CommittedUpTo(g, grid.Length0, 0) && Contents == Next(cells, g)
      ensures forall a, b | 0 <= a < grid.Length0 && 0 <= b < grid.Length1 ::
        Settled(grid[a, b], At(Contents, a + 1, b + 1))
    {
      forall a, b | 0 <= a < grid.Length0 && 0 <= b < grid.Length1
        ensures Settled(grid[a, b], At(Contents, a + 1, b + 1))
      {
        assert Before(a, b, grid.Length0, 0);
        NextAt(cells, g, a + 1, b + 1);
      }
    }

    /** The commit pass moves past slot [i, j]: it now holds its next state and the
        slots after it are still staged. */
    method AdvanceCommit(ghost g: Grid, i: int, j: int)
      requires 0 <= i < grid.Length0 && 0 <= j < grid.Length1
      requires Framed() && Shaped() && Placed() && CommittedUpTo(g, i, j)
      modifies Repr
      ensures Repr == old(Repr) && Framed() && Shaped() && Placed()
      ensures CommittedUpTo(g, i, j + 1)
    {
      ghost var prev := grid[i, j];
      assert prev != null ==> prev.x == i + 1 && prev.y == j + 1;
      CommitElement(g, i, j);
      forall a, b | 0 <= a < grid.Length0 && 0 <= b < grid.Length1
        ensures if Before(a, b, i, j + 1) then Settled(grid[a, b], NextCell(g, a + 1, b + 1))
          else Staged(grid[a, b], a + 1, b + 1, g)
      {
        if a != i || b != j {
          var p := grid[a, b];
          assert p == old(grid[a, b]);
          if p != null {
            assert p.x == a + 1 && p.y == b + 1;
            assert p != prev && unchanged(p);
          }
          assert Before(a, b, i, j + 1) == Before(a, b, i, j);
          if Before(a, b, i, j) {
            assert old(Settled(p, NextCell(g, a + 1, b + 1)));
          } else {
            assert old(Staged(p, a + 1, b + 1, g));
          }
        }
      }
    }

    /** Runs exactly `iterations` steps (none when it is not positive) and returns the board. */
    method Iterate() returns (world: array2<O.Organism?>)
      requires Valid()
      modifies this, Repr
      ensures Valid() && world == grid
      ensures Contents == Run(cells, old(Contents), if iterations < 0 then 0 else iterations)
      ensures fresh(Repr - old(Repr))
    {
      ghost var n := if iterations < 0 then 0 else iterations;
      var i := 0;
      while i < iterations
        invariant 0 <= i <= n
        invariant Valid()
        invariant Contents == Run(cells, old(Contents), i)
        invariant fresh(Repr - old(Repr))
      {
        ghost var before := Contents;
        CheckAllElements();
        RunStep(cells, old(Contents), i, before, Contents);
        i := i + 1;
      }
      assert i == n;
      world := grid;
    }

    /** One organism of the seed list, added alive on a settled board; Contents follows
        the array. */
    method AddSeed(x: int, y: int, species: Species, keepExisting: bool) returns (r: Outcome<Error>)
      requires Valid()
      modifies this, Repr
      ensures r == Bounds(cells, x, y)
      ensures Valid() && fresh(Repr - old(Repr))
      ensures Contents ==
        if r.Fail? || ((x, y) in old(Contents) && keepExisting) then old(Contents)
        else old(Contents)[(x, y) := species]
    {
      r := AddOrganism(x, y, species, true, keepExisting);
      if r.Pass? {
        ghost var before := Contents;
        Contents := if (x, y) in before && keepExisting then before else before[(x, y) := species];
        Repr := Repr + Footprint(grid[x - 1, y - 1]);
        assert Framed() && Placed() && OnBoard(cells, Contents);
        forall a, b | 0 <= a < grid.Length0 && 0 <= b < grid.Length1
          ensures Settled(grid[a, b], At(Contents, a + 1, b + 1))
        {
          if a != x - 1 || b != y - 1 {
            assert At(Contents, a + 1, b + 1) == At(before, a + 1, b + 1);
          }
        }
      }
    }

    /** Builds the world: an empty board, then every organism of the list in order. An
        organism of a new species is skipped once `species` species are admitted; one off
        the board aborts construction with the bounds error. */
    static method Create(cells: int, species: int, iterations: int, organisms: seq<Placement>, coins: seq<bool>)
      returns (r: Result<World, Error>)
      requires |coins| == |organisms|
      ensures Seed(cells, species, organisms, coins).Err? ==> r == Err(Seed(cells, species, organisms, coins).error)
      ensures Seed(cells, species, organisms, coins).Ok? ==>
        && r.Ok? && fresh(r.value) && fresh(r.value.Repr) && r.value.Valid()
        && r.value.Contents == Seed(cells, species, organisms, coins).value
        && r.value.cells == cells && r.value.species == species && r.value.iterations == iterations
    {
      var world := new World(cells, species, iterations);
      var admitted: seq<Species> := [];
      var k := 0;
      while k < |organisms|
        invariant 0 <= k <= |organisms|
        invariant fresh(world) && fresh(world.Repr) && world.Valid()
        invariant world.cells == cells && world.species == species && world.iterations == iterations
        invariant SeedPrefix(cells, species, organisms, coins, k) == Ok(SeedState(world.Contents, admitted))
      {
        ghost var st := SeedState(world.Contents, admitted);
        assert SeedPrefix(cells, species, organisms, coins, k + 1) == SeedStep(cells, species, st, organisms[k], coins[k]);
        var organism := organisms[k];
        if organism.species !in admitted {
          if |admitted| < species {
            admitted := admitted + [organism.species];
          } else {
            assert SeedStep(cells, species, st, organism, coins[k]) == Ok(st);
            k := k + 1;
            continue;
          }
        }
        assert Admit(species, st.admitted, organism.species) == Some(admitted);
        var added := world.AddSeed(organism.x, organism.y, organism.species, coins[k]);
        if added.Fail? {
          assert SeedStep(cells, species, st, organism, coins[k]) == Err(added.error);
          ErrStays(cells, species, organisms, coins, k + 1, |organisms|);
          return Err(added.error);
        }
        assert SeedStep(cells, species, st, organism, coins[k]) == Ok(SeedState(world.Contents, admitted));
        k := k + 1;
      }
      return Ok(world);
    }
  }
}
