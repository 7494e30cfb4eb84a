/** Seeding the board from the input organism list, as a pure function of that list:
    species admission under the cap, the bounds check and the coin-flip tie-break on a
    shared position. World.Create (World.dfy) is proved to build exactly Seed's board. */
module Seeding {
  import opened Wrappers
  import opened Rules

  /** The errors of seeding: an organism off the board, x checked before y. */
  datatype Error = XOutOfRange | YOutOfRange

  /** One entry of the input organism list (x_pos, y_pos, species). */
  datatype Placement = Placement(x: int, y: int, species: Species)

  /** The bounds check of adding an organism: x first, then y. */
  function Bounds(cells: int, x: int, y: int): (r: Outcome<Error>)
    ensures r.Pass? <==> InRange(cells, x, y)
    ensures r == Fail(YOutOfRange) ==> 1 <= x <= cells
  {
    if x > cells || x < 1 then Fail(XOutOfRange)
    else if y > cells || y < 1 then Fail(YOutOfRange)
    else Pass
  }

  /** The seeding loop's state: the board so far and the species admitted so far. */
  datatype SeedState = SeedState(board: Grid, admitted: seq<Species>)

  /** Species admission: a known species passes, a new one is admitted while fewer than
      cap species are, otherwise the organism is skipped (None). */
  function Admit(cap: int, admitted: seq<Species>, s: Species): Option<seq<Species>>
  {
    if s in admitted then Some(admitted)
    else if |admitted| < cap then Some(admitted + [s])
    else None
  }

  /** One organism of the input list; `keepExisting` is the coin flipped when its
      position is already occupied (true keeps the occupant). */
  function SeedStep(cells: int, cap: int, st: SeedState, o: Placement, keepExisting: bool): Result<SeedState, Error>
  {
    match Admit(cap, st.admitted, o.species)
    case None => Ok(st)
    case Some(admitted) =>
      match Bounds(cells, o.x, o.y)
      case Fail(e) => Err(e)
      case Pass =>
        if (o.x, o.y) in st.board && keepExisting then Ok(SeedState(st.board, admitted))
        else Ok(SeedState(st.board[(o.x, o.y) := o.species], admitted))
  }

  /** The state after the first k organisms, or the error that stopped seeding. */
  function SeedPrefix(cells: int, cap: int, os: seq<Placement>, coins: seq<bool>, k: nat): Result<SeedState, Error>
    requires |coins| == |os| && k <= |os|
  {
    if k == 0 then Ok(SeedState(map[], []))
    else
      match SeedPrefix(cells, cap, os, coins, k - 1)
      case Err(e) => Err(e)
      case Ok(st) => SeedStep(cells, cap, st, os[k - 1], coins[k - 1])
  }

  /** The seeded board, or the error that aborts construction. */
  function Seed(cells: int, cap: int, os: seq<Placement>, coins: seq<bool>): Result<Grid, Error>
    requires |coins| == |os|
  {
    match SeedPrefix(cells, cap, os, coins, |os|)
    case Ok(st) => Ok(st.board)
    case Err(e) => Err(e)
  }

  function SpeciesOf(os: seq<Placement>): (ss: seq<Species>)
    ensures |ss| == |os| && forall i | 0 <= i < |os| :: ss[i] == os[i].species
  {
    if os == [] then [] else SpeciesOf(os[..|os| - 1]) + [os[|os| - 1].species]
  }

  /** The distinct species of ss, in the order they are first met. */
  function Dedup(ss: seq<Species>): (d: seq<Species>)
    ensures forall s :: s in d <==> s in ss
    ensures forall i, j | 0 <= i < j < |d| :: d[i] != d[j]
  {
    if ss == [] then []
    else
      var d := Dedup(ss[..|ss| - 1]);
      var s := ss[|ss| - 1];
      assert ss == ss[..|ss| - 1] + [s];
      if s in d then d else d + [s]
  }

  /** The first cap elements of ss (none when cap is not positive). */
  function Take(ss: seq<Species>, cap: int): (r: seq<Species>)
    ensures |r| <= |ss| && (cap <= 0 ==> r == [])
    ensures |r| == if cap <= 0 then 0 else if cap < |ss| then cap else |ss|
  {
    if cap <= 0 then [] else if cap >= |ss| then ss else ss[..cap]
  }

  /** Organism k is admitted: its species is among the first cap distinct species of
      the input up to and including it. */
  ghost predicate Admitted(cap: int, os: seq<Placement>, k: nat)
    requires k < |os|
  {
    os[k].species in Take(Dedup(SpeciesOf(os[..k + 1])), cap)
  }

  lemma SpeciesOfPrefix(os: seq<Placement>, k: nat)
    requires k < |os|
    ensures SpeciesOf(os[..k + 1]) == SpeciesOf(os[..k]) + [os[k].species]
  {
    assert os[..k + 1][..k] == os[..k];
  }

  /** Admitting s to the first cap elements of d agrees with taking the first cap
      elements of d extended by s when it is new. */
  lemma AdmitTake(cap: int, d: seq<Species>, s: Species)
    ensures var adm, adm' := Take(d, cap), Take(if s in d then d else d + [s], cap);
      && Admit(cap, adm, s) == (if s in adm' then Some(adm') else None)
      && (s !in adm' ==> adm' == adm)
  {
    var adm := Take(d, cap);
    if cap <= 0 {
      assert adm == [];
    } else if s in d {
      if |adm| < cap {
        assert adm == d;
      }
    } else if cap > |d| {
      assert adm == d;
    } else {
      assert (d + [s])[..cap] == d[..cap] == adm;
      assert forall i | 0 <= i < |adm| :: adm[i] == d[i];
    }
  }

  /** Admitting one more species agrees with taking the first cap distinct species. */
  lemma AdmitIsTake(cap: int, ss: seq<Species>, s: Species)
    ensures var adm, adm' := Take(Dedup(ss), cap), Take(Dedup(ss + [s]), cap);
      && Admit(cap, adm, s) == (if s in adm' then Some(adm') else None)
      && (s !in adm' ==> adm' == adm)
  {
    assert (ss + [s])[..|ss|] == ss;
    assert Dedup(ss + [s]) == if s in Dedup(ss) then Dedup(ss) else Dedup(ss) + [s];
    AdmitTake(cap, Dedup(ss), s);
  }

  /** A state whose occupants are all on the board and of admitted species. */
  ghost predicate Consistent(cells: int, st: SeedState)
  {
    OnBoard(cells, st.board) && forall p | p in st.board :: st.board[p] in st.admitted
  }

  /** One organism keeps the state consistent: admission only grows the admitted list and
      an organism is only placed after its position has passed the bounds check. */
  lemma SeedStepConsistent(cells: int, cap: int, st: SeedState, o: Placement, keepExisting: bool)
    requires Consistent(cells, st) && SeedStep(cells, cap, st, o, keepExisting).Ok?
    ensures Consistent(cells, SeedStep(cells, cap, st, o, keepExisting).value)
  {
    var next := SeedStep(cells, cap, st, o, keepExisting).value;
    match Admit(cap, st.admitted, o.species)
    case None =>
      assert next == st;
    case Some(admitted) =>
      assert o.species in admitted;
      assert forall s | s in st.admitted :: s in admitted;
      assert Bounds(cells, o.x, o.y) == Pass;
      assert InRange(cells, o.x, o.y);
      forall p | p in next.board
        ensures InRange(cells, p.0, p.1) && next.board[p] in next.admitted
      {
        if p != (o.x, o.y) {
          assert p in st.board && next.board[p] == st.board[p];
        }
      }
  }

  /** After k organisms, the admitted species are the first cap distinct species met. */
  lemma {:induction false} SeedAdmitted(cells: int, cap: int, os: seq<Placement>, coins: seq<bool>, k: nat)
    requires |coins| == |os| && k <= |os|
    requires SeedPrefix(cells, cap, os, coins, k).Ok?
    ensures SeedPrefix(cells, cap, os, coins, k).value.admitted == Take(Dedup(SpeciesOf(os[..k])), cap)
  {
    if k > 0 {
      assert SeedPrefix(cells, cap, os, coins, k - 1).Ok?;
      SeedAdmitted(cells, cap, os, coins, k - 1);
      var st, o := SeedPrefix(cells, cap, os, coins, k - 1).value, os[k - 1];
      var next := SeedStep(cells, cap, st, o, coins[k - 1]);
      assert SeedPrefix(cells, cap, os, coins, k) == next;
      SpeciesOfPrefix(os, k - 1);
      AdmitIsTake(cap, SpeciesOf(os[..k - 1]), o.species);
      var adm' := Take(Dedup(SpeciesOf(os[..k])), cap);
      if o.species in adm' {
        assert Admit(cap, st.admitted, o.species) == Some(adm');
        assert next.value.admitted == adm';
      } else {
        assert Admit(cap, st.admitted, o.species) == None;
        assert next.value == st;
      }
    }
  }

  /** After k organisms, every occupant is on the board and of an admitted species. */
  lemma {:induction false} SeedConsistent(cells: int, cap: int, os: seq<Placement>, coins: seq<bool>, k: nat)
    requires |coins| == |os| && k <= |os|
    requires SeedPrefix(cells, cap, os, coins, k).Ok?
    ensures Consistent(cells, SeedPrefix(cells, cap, os, coins, k).value)
  {
    if k > 0 {
      assert SeedPrefix(cells, cap, os, coins, k - 1).Ok?;
      SeedConsistent(cells, cap, os, coins, k - 1);
      SeedStepConsistent(cells, cap, SeedPrefix(cells, cap, os, coins, k - 1).value, os[k - 1], coins[k - 1]);
    }
  }

  /** Seeding admits at most cap distinct species, each at most once. */
  lemma SpeciesCap(cells: int, cap: int, os: seq<Placement>, coins: seq<bool>)
    requires |coins| == |os|
    ensures SeedPrefix(cells, cap, os, coins, |os|).Ok? ==>
      var st := SeedPrefix(cells, cap, os, coins, |os|).value;
      && |st.admitted| <= (if cap < 0 then 0 else cap)
      && (forall i, j | 0 <= i < j < |st.admitted| :: st.admitted[i] != st.admitted[j])
      && (forall p | p in st.board :: st.board[p] in st.admitted)
  {
    if SeedPrefix(cells, cap, os, coins, |os|).Ok? {
      SeedAdmitted(cells, cap, os, coins, |os|);
      SeedConsistent(cells, cap, os, coins, |os|);
    }
  }

  /** Once seeding has failed it stays failed. */
  lemma {:induction false} ErrStays(cells: int, cap: int, os: seq<Placement>, coins: seq<bool>, j: nat, k: nat)
    requires |coins| == |os| && j <= k <= |os|
    requires SeedPrefix(cells, cap, os, coins, j).Err?
    ensures SeedPrefix(cells, cap, os, coins, k) == SeedPrefix(cells, cap, os, coins, j)
  {
    if j < k {
      ErrStays(cells, cap, os, coins, j, k - 1);
    }
  }

  /** Organism j is admitted and lies off the board. */
  ghost predicate Misplaced(cells: int, cap: int, os: seq<Placement>, j: nat)
    requires j < |os|
  {
    Admitted(cap, os, j) && !InRange(cells, os[j].x, os[j].y)
  }

  /** Some organism before k is misplaced. */
  ghost predicate MisplacedBefore(cells: int, cap: int, os: seq<Placement>, k: nat)
    requires k <= |os|
  {
    k > 0 && (MisplacedBefore(cells, cap, os, k - 1) || Misplaced(cells, cap, os, k - 1))
  }

  lemma {:induction false} MisplacedBeforeExists(cells: int, cap: int, os: seq<Placement>, k: nat)
    requires k <= |os|
    ensures MisplacedBefore(cells, cap, os, k) <==> exists j | 0 <= j < k :: Misplaced(cells, cap, os, j)
  {
    if k > 0 {
      MisplacedBeforeExists(cells, cap, os, k - 1);
      if exists j | 0 <= j < k :: Misplaced(cells, cap, os, j) {
        var j :| 0 <= j < k && Misplaced(cells, cap, os, j);
        if j < k - 1 {
          assert exists j' | 0 <= j' < k - 1 :: Misplaced(cells, cap, os, j');
        }
      }
      if MisplacedBefore(cells, cap, os, k - 1) {
        var j :| 0 <= j < k - 1 && Misplaced(cells, cap, os, j);
        assert 0 <= j < k;
      }
    }
  }

  /** From a successful prefix, organism k stops seeding exactly when it is misplaced. */
  lemma SeedStepFails(cells: int, cap: int, os: seq<Placement>, coins: seq<bool>, k: nat)
    requires |coins| == |os| && k < |os|
    requires SeedPrefix(cells, cap, os, coins, k).Ok?
    ensures SeedPrefix(cells, cap, os, coins, k + 1).Err? <==> Misplaced(cells, cap, os, k)
  {
    var st := SeedPrefix(cells, cap, os, coins, k).value;
    var o := os[k];
    SeedAdmitted(cells, cap, os, coins, k);
    SpeciesOfPrefix(os, k);
    AdmitIsTake(cap, SpeciesOf(os[..k]), o.species);
    var adm' := Take(Dedup(SpeciesOf(os[..k + 1])), cap);
    assert Admit(cap, st.admitted, o.species).Some? <==> o.species in adm';
    assert SeedPrefix(cells, cap, os, coins, k + 1) == SeedStep(cells, cap, st, o, coins[k]);
    if o.species in adm' {
      assert Admitted(cap, os, k);
      assert SeedStep(cells, cap, st, o, coins[k]).Err? <==> !InRange(cells, o.x, o.y);
    } else {
      assert !Admitted(cap, os, k);
      assert SeedStep(cells, cap, st, o, coins[k]) == Ok(st);
    }
  }

  lemma {:induction false} SeedPrefixFails(cells: int, cap: int, os: seq<Placement>, coins: seq<bool>, k: nat)
    requires |coins| == |os| && k <= |os|
    ensures SeedPrefix(cells, cap, os, coins, k).Err? <==> MisplacedBefore(cells, cap, os, k)
  {
    if k > 0 {
      SeedPrefixFails(cells, cap, os, coins, k - 1);
      if SeedPrefix(cells, cap, os, coins, k - 1).Err? {
        assert SeedPrefix(cells, cap, os, coins, k).Err?;
        assert MisplacedBefore(cells, cap, os, k - 1);
      } else {
        SeedStepFails(cells, cap, os, coins, k - 1);
        assert !MisplacedBefore(cells, cap, os, k - 1);
      }
    }
  }

  /** Seeding fails exactly when some admitted organism lies off the board; an organism
      that is not admitted never causes an error, wherever it lies. */
  lemma SeedFailsIff(cells: int, cap: int, os: seq<Placement>, coins: seq<bool>)
    requires |coins| == |os|
    ensures Seed(cells, cap, os, coins).Err? <==> exists k | 0 <= k < |os| :: Misplaced(cells, cap, os, k)
  {
    SeedPrefixFails(cells, cap, os, coins, |os|);
    MisplacedBeforeExists(cells, cap, os, |os|);
  }

  /** An organism whose species is not admitted is dropped: nothing changes. */
  lemma SeedSkips(cells: int, cap: int, os: seq<Placement>, coins: seq<bool>, k: nat)
    requires |coins| == |os| && k < |os|
    requires SeedPrefix(cells, cap, os, coins, k).Ok? && !Admitted(cap, os, k)
    ensures SeedPrefix(cells, cap, os, coins, k + 1) == SeedPrefix(cells, cap, os, coins, k)
  {
    SeedAdmitted(cells, cap, os, coins, k);
    SpeciesOfPrefix(os, k);
    AdmitIsTake(cap, SpeciesOf(os[..k]), os[k].species);
  }

  /** One admitted organism on the board: its position is occupied afterwards, by the
      earlier occupant when the coin keeps it, and no other position changes. */
  lemma SeedStepPlaces(cells: int, cap: int, st: SeedState, o: Placement, keepExisting: bool)
    requires Admit(cap, st.admitted, o.species).Some? && InRange(cells, o.x, o.y)
    ensures var p := (o.x, o.y);
      && SeedStep(cells, cap, st, o, keepExisting).Ok?
      && var after := SeedStep(cells, cap, st, o, keepExisting).value.board;
      && after.Keys == st.board.Keys + {p}
      && after[p] == (if p in st.board && keepExisting then st.board[p] else o.species)
      && (forall q | q in st.board && q != p :: after[q] == st.board[q])
  {
  }

  /** An admitted organism on the board lands on its position: an empty position takes
      it; an occupied one keeps exactly one organism, the old one when the coin says so
      and the new one otherwise. No other position changes. */
  lemma SeedCollision(cells: int, cap: int, os: seq<Placement>, coins: seq<bool>, k: nat)
    requires |coins| == |os| && k < |os|
    requires SeedPrefix(cells, cap, os, coins, k).Ok? && Admitted(cap, os, k)
    requires InRange(cells, os[k].x, os[k].y)
    ensures var before, p := SeedPrefix(cells, cap, os, coins, k).value.board, (os[k].x, os[k].y);
      && SeedPrefix(cells, cap, os, coins, k + 1).Ok?
      && var after := SeedPrefix(cells, cap, os, coins, k + 1).value.board;
      && after.Keys == before.Keys + {p}
      && after[p] == (if p in before && coins[k] then before[p] else os[k].species)
      && (forall q | q in before && q != p :: after[q] == before[q])
  {
    SeedAdmitted(cells, cap, os, coins, k);
    SpeciesOfPrefix(os, k);
    AdmitIsTake(cap, SpeciesOf(os[..k]), os[k].species);
    SeedStepPlaces(cells, cap, SeedPrefix(cells, cap, os, coins, k).value, os[k], coins[k]);
  }
}
