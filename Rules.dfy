/** The rules of one step of the multi-species Game of Life, as pure functions of the
    board before the step. The imperative step of class World (World.dfy) is proved
    to compute exactly Next of this module. */
module Rules {
  import opened Wrappers

  /** A species identifier, as it is read from the configuration. */
  type Species = string

  /** A board position (x, y); both axes are numbered from 1. */
  type Pos = (int, int)

  /** The alive occupants of the board by position; a position that is no key is empty. */
  type Grid = map<Pos, Species>

  predicate InRange(n: int, x: int, y: int)
  {
    1 <= x <= n && 1 <= y <= n
  }

  /** Every occupant of `g` sits on the n-by-n board. */
  ghost predicate OnBoard(n: int, g: Grid)
  {
    forall p | p in g :: InRange(n, p.0, p.1)
  }

  function Cells(n: int): set<Pos>
  {
    set x, y | 1 <= x <= n && 1 <= y <= n :: (x, y)
  }

  /** The occupant of (x, y), if any; off-board positions are never keys of a board grid. */
  function At(g: Grid, x: int, y: int): Option<Species>
  {
    if (x, y) in g then Some(g[(x, y)]) else None
  }

  /** The fixed scan order of the eight neighbours: the row above (left to right),
      the two sides, the row below. */
  const Directions: seq<(int, int)> :=
    [(-1, 1), (0, 1), (1, 1), (-1, 0), (1, 0), (-1, -1), (0, -1), (1, -1)]

  /** The position in direction k from (x, y). */
  function Around(x: int, y: int, k: nat): Pos
    requires k < |Directions|
  {
    (x + Directions[k].0, y + Directions[k].1)
  }

  /** The species of the alive neighbours met in the first k directions, in scan order. */
  function NeighboursUpTo(g: Grid, x: int, y: int, k: nat): (ns: seq<Species>)
    requires k <= |Directions|
    ensures |ns| <= k
  {
    if k == 0 then []
    else
      var q := Around(x, y, k - 1);
      NeighboursUpTo(g, x, y, k - 1) + (if q in g then [g[q]] else [])
  }

  /** The species of all alive neighbours of (x, y), in scan order. */
  function AliveNeighbours(g: Grid, x: int, y: int): seq<Species>
  {
    NeighboursUpTo(g, x, y, |Directions|)
  }

  /** The Moore neighbourhood of (x, y): the eight positions around it, without wrap-around. */
  function Moore(x: int, y: int): set<Pos>
  {
    set a, b | x - 1 <= a <= x + 1 && y - 1 <= b <= y + 1 && (a != x || b != y) :: (a, b)
  }

  /** The positions of the first k directions around (x, y). */
  function ScannedUpTo(x: int, y: int, k: nat): set<Pos>
    requires k <= |Directions|
  {
    if k == 0 then {}
    else ScannedUpTo(x, y, k - 1) + {Around(x, y, k - 1)}
  }

  /** Occupants of `cells` in `g` that belong to species s. */
  function OfSpecies(g: Grid, cells: set<Pos>, s: Species): set<Pos>
  {
    set q | q in cells && q in g && g[q] == s
  }

  lemma DirectionsDistinct(i: nat, j: nat)
    requires i < j < |Directions|
    ensures Directions[i] != Directions[j]
  {
  }

  lemma {:induction false} NotYetScanned(x: int, y: int, k: nat, j: nat)
    requires k <= j < |Directions|
    ensures Around(x, y, j) !in ScannedUpTo(x, y, k)
  {
    if k > 0 {
      DirectionsDistinct(k - 1, j);
      NotYetScanned(x, y, k - 1, j);
    }
  }

  lemma OfSpeciesAdd(g: Grid, cells: set<Pos>, q: Pos, s: Species)
    requires q !in cells
    ensures |OfSpecies(g, cells + {q}, s)| ==
      |OfSpecies(g, cells, s)| + (if q in g && g[q] == s then 1 else 0)
  {
    var before := OfSpecies(g, cells, s);
    assert q !in before;
    if q in g && g[q] == s {
      assert OfSpecies(g, cells + {q}, s) == before + {q};
    } else {
      assert OfSpecies(g, cells + {q}, s) == before;
    }
  }

  /** The k-th direction adds one neighbour of species s exactly when it holds an alive s. */
  lemma NeighboursStep(g: Grid, x: int, y: int, k: nat, s: Species)
    requires 0 < k <= |Directions|
    ensures var q := Around(x, y, k - 1);
      multiset(NeighboursUpTo(g, x, y, k))[s] ==
      multiset(NeighboursUpTo(g, x, y, k - 1))[s] + (if q in g && g[q] == s then 1 else 0)
  {
    var q := Around(x, y, k - 1);
    var pre := NeighboursUpTo(g, x, y, k - 1);
    var step := if q in g then [g[q]] else [];
    assert NeighboursUpTo(g, x, y, k) == pre + step;
    assert multiset(pre + step) == multiset(pre) + multiset(step);
  }

  /** The k-th direction adds one position, so one more occupant of species s when it
      holds an s. */
  lemma ScannedStep(g: Grid, x: int, y: int, k: nat, s: Species)
    requires 0 < k <= |Directions|
    ensures var q := Around(x, y, k - 1);
      |OfSpecies(g, ScannedUpTo(x, y, k), s)| ==
      |OfSpecies(g, ScannedUpTo(x, y, k - 1), s)| + (if q in g && g[q] == s then 1 else 0)
  {
    NotYetScanned(x, y, k - 1, k - 1);
    OfSpeciesAdd(g, ScannedUpTo(x, y, k - 1), Around(x, y, k - 1), s);
  }

  lemma {:induction false} NeighboursUpToCount(g: Grid, x: int, y: int, k: nat, s: Species)
    requires k <= |Directions|
    ensures multiset(NeighboursUpTo(g, x, y, k))[s] == |OfSpecies(g, ScannedUpTo(x, y, k), s)|
  {
    if k > 0 {
      NeighboursUpToCount(g, x, y, k - 1, s);
      NeighboursStep(g, x, y, k, s);
      ScannedStep(g, x, y, k, s);
    } else {
      assert OfSpecies(g, {}, s) == {};
    }
  }

  lemma ScannedIsMoore(x: int, y: int)
    ensures ScannedUpTo(x, y, |Directions|) == Moore(x, y)
  {
    var around := {(x - 1, y + 1), (x, y + 1), (x + 1, y + 1), (x - 1, y), (x + 1, y),
                   (x - 1, y - 1), (x, y - 1), (x + 1, y - 1)};
    assert ScannedUpTo(x, y, 1) == {(x - 1, y + 1)};
    assert ScannedUpTo(x, y, 2) == {(x - 1, y + 1), (x, y + 1)};
    assert ScannedUpTo(x, y, 3) == {(x - 1, y + 1), (x, y + 1), (x + 1, y + 1)};
    assert ScannedUpTo(x, y, 4) == {(x - 1, y + 1), (x, y + 1), (x + 1, y + 1), (x - 1, y)};
    assert ScannedUpTo(x, y, 5) == {(x - 1, y + 1), (x, y + 1), (x + 1, y + 1), (x - 1, y), (x + 1, y)};
    assert ScannedUpTo(x, y, 6) == {(x - 1, y + 1), (x, y + 1), (x + 1, y + 1), (x - 1, y), (x + 1, y),
                                    (x - 1, y - 1)};
    assert ScannedUpTo(x, y, 7) == {(x - 1, y + 1), (x, y + 1), (x + 1, y + 1), (x - 1, y), (x + 1, y),
                                    (x - 1, y - 1), (x, y - 1)};
    assert ScannedUpTo(x, y, 8) == around;
    forall p | p in Moore(x, y) ensures p in around {
      var a, b := p.0, p.1;
      assert x - 1 <= a <= x + 1 && y - 1 <= b <= y + 1 && (a != x || b != y);
    }
  }

  /** The number of alive neighbours of species s is the number of positions of the
      Moore neighbourhood that hold an alive s; nothing off the neighbourhood counts. */
  lemma NeighbourCount(g: Grid, x: int, y: int, s: Species)
    ensures multiset(AliveNeighbours(g, x, y))[s] == |OfSpecies(g, Moore(x, y), s)|
    ensures |AliveNeighbours(g, x, y)| <= 8
  {
    NeighboursUpToCount(g, x, y, |Directions|, s);
    ScannedIsMoore(x, y);
  }

  /** The number of times s occurs in ns, or None when it does not occur. */
  function Occurrences(ns: seq<Species>, s: Species): Option<nat>
  {
    if s in ns then Some(multiset(ns)[s]) else None
  }

  /** Per-species counts, in the order in which each species was first met. */
  type Tally = seq<(Species, nat)>

  function Keys(t: Tally): (ks: seq<Species>)
    ensures |ks| == |t| && forall i | 0 <= i < |t| :: ks[i] == t[i].0
  {
    if t == [] then [] else [t[0].0] + Keys(t[1..])
  }

  function Total(t: Tally): nat
  {
    if t == [] then 0 else t[0].1 + Total(t[1..])
  }

  /** The count recorded for s, or None when s is not a key (the source's isset). */
  function Lookup(t: Tally, s: Species): Option<nat>
  {
    if t == [] then None
    else if t[0].0 == s then Some(t[0].1)
    else Lookup(t[1..], s)
  }

  /** One more neighbour of species s: increment its entry in place, or append (s, 1). */
  function Bump(t: Tally, s: Species): Tally
  {
    if t == [] then [(s, 1)]
    else if t[0].0 == s then [(s, t[0].1 + 1)] + t[1..]
    else [t[0]] + Bump(t[1..], s)
  }

  /** The tally of a list of neighbour species, built left to right. */
  function CountOfNeighboursSpecies(ns: seq<Species>): Tally
  {
    if ns == [] then []
    else Bump(CountOfNeighboursSpecies(ns[..|ns| - 1]), ns[|ns| - 1])
  }

  ghost predicate DistinctKeys(t: Tally)
  {
    forall i, j | 0 <= i < j < |t| :: t[i].0 != t[j].0
  }

  lemma {:induction false} BumpKeys(t: Tally, s: Species)
    ensures Keys(Bump(t, s)) == if s in Keys(t) then Keys(t) else Keys(t) + [s]
    ensures Total(Bump(t, s)) == Total(t) + 1
  {
    if t != [] && t[0].0 != s {
      BumpKeys(t[1..], s);
      assert Keys(t) == [t[0].0] + Keys(t[1..]);
    }
  }

  /** Bumping e changes the count of e only. */
  lemma {:induction false} BumpLookup(t: Tally, e: Species, s: Species)
    ensures Lookup(Bump(t, e), s) ==
      if s != e then Lookup(t, s)
      else Some(match Lookup(t, s) case Some(c) => c + 1 case None => 1)
  {
    if t != [] && t[0].0 != e {
      BumpLookup(t[1..], e, s);
    }
  }

  lemma {:induction false} LookupKey(t: Tally, i: nat)
    requires DistinctKeys(t) && i < |t|
    ensures Lookup(t, t[i].0) == Some(t[i].1)
  {
    if i > 0 {
      LookupKey(t[1..], i - 1);
    }
  }

  /** Index of the first occurrence of s in ns. */
  function IndexOf(ns: seq<Species>, s: Species): (i: nat)
    requires s in ns
    ensures i < |ns| && ns[i] == s && s !in ns[..i]
  {
    if ns[0] == s then 0 else 1 + IndexOf(ns[1..], s)
  }

  lemma {:induction false} IndexOfPrefix(ns: seq<Species>, e: Species, s: Species)
    requires s in ns
    ensures IndexOf(ns + [e], s) == IndexOf(ns, s)
  {
    if ns[0] != s {
      assert (ns + [e])[1..] == ns[1..] + [e];
      IndexOfPrefix(ns[1..], e, s);
    }
  }

  lemma {:induction false} TallyKeys(ns: seq<Species>)
    ensures forall s :: s in Keys(CountOfNeighboursSpecies(ns)) <==> s in ns
    ensures DistinctKeys(CountOfNeighboursSpecies(ns))
  {
    if ns != [] {
      var pre, e := ns[..|ns| - 1], ns[|ns| - 1];
      assert ns == pre + [e];
      TallyKeys(pre);
      var t0, t := CountOfNeighboursSpecies(pre), CountOfNeighboursSpecies(ns);
      BumpKeys(t0, e);
      forall i, j | 0 <= i < j < |t| ensures t[i].0 != t[j].0 {
        assert Keys(t)[i] == t[i].0 && Keys(t)[j] == t[j].0;
        if e !in Keys(t0) && j == |t| - 1 {
          assert Keys(t0)[i] in Keys(t0);
        } else {
          assert Keys(t0)[i] == t0[i].0 && Keys(t0)[j] == t0[j].0;
        }
      }
    }
  }

  /** Each species met is recorded with its number of occurrences; one not met is absent. */
  lemma {:induction false} TallyCount(ns: seq<Species>, s: Species)
    ensures Lookup(CountOfNeighboursSpecies(ns), s) == Occurrences(ns, s)
  {
    if ns != [] {
      var pre, e := ns[..|ns| - 1], ns[|ns| - 1];
      assert ns == pre + [e];
      var t := CountOfNeighboursSpecies(pre);
      TallyCount(pre, s);
      BumpLookup(t, e, s);
      assert multiset(ns) == multiset(pre) + multiset{e};
      if s == e {
        assert s in ns;
        if s in pre {
          assert Lookup(t, s) == Some(multiset(pre)[s]);
        } else {
          assert Lookup(t, s) == None && multiset(pre)[s] == 0;
        }
        assert multiset(ns)[s] == multiset(pre)[s] + 1;
      } else {
        assert (s in ns) == (s in pre) && multiset(ns)[s] == multiset(pre)[s];
      }
    }
  }

  lemma TallyCounts(ns: seq<Species>)
    ensures forall s :: Lookup(CountOfNeighboursSpecies(ns), s) == Occurrences(ns, s)
  {
    forall s {
      TallyCount(ns, s);
    }
  }

  /** The counts add up to the number of alive neighbours. */
  lemma {:induction false} TallyTotal(ns: seq<Species>)
    ensures Total(CountOfNeighboursSpecies(ns)) == |ns|
  {
    if ns != [] {
      var pre, e := ns[..|ns| - 1], ns[|ns| - 1];
      TallyTotal(pre);
      BumpKeys(CountOfNeighboursSpecies(pre), e);
    }
  }

  /** The keys of t appear in the order in which their species were first met in ns. */
  ghost predicate FirstMetOrder(ns: seq<Species>, t: Tally)
  {
    forall i, j | 0 <= i < j < |t| :: t[i].0 in ns && t[j].0 in ns && IndexOf(ns, t[i].0) < IndexOf(ns, t[j].0)
  }

  /** The keys appear in the order in which their species were first met. */
  lemma {:induction false} TallyOrder(ns: seq<Species>)
    ensures FirstMetOrder(ns, CountOfNeighboursSpecies(ns))
  {
    if ns != [] {
      var pre, e := ns[..|ns| - 1], ns[|ns| - 1];
      assert ns == pre + [e];
      TallyOrder(pre);
      var t := CountOfNeighboursSpecies(ns);
      forall i, j | 0 <= i < j < |t|
        ensures t[i].0 in ns && t[j].0 in ns && IndexOf(ns, t[i].0) < IndexOf(ns, t[j].0)
      {
        TallyOrderStep(pre, e, i, j);
      }
    }
  }

  lemma {:induction false} IndexOfLast(ns: seq<Species>, e: Species)
    requires e !in ns
    ensures IndexOf(ns + [e], e) == |ns|
  {
    if ns != [] {
      assert (ns + [e])[1..] == ns[1..] + [e];
      IndexOfLast(ns[1..], e);
    }
  }

  /** A species has a tally entry exactly when it is among the neighbours. */
  lemma TallyKey(ns: seq<Species>, s: Species)
    ensures s in Keys(CountOfNeighboursSpecies(ns)) <==> s in ns
  {
    TallyKeys(ns);
  }

  /** One more neighbour e keeps two tally entries in first-met order. */
  lemma TallyOrderStep(pre: seq<Species>, e: Species, i: nat, j: nat)
    requires FirstMetOrder(pre, CountOfNeighboursSpecies(pre))
    requires i < j < |CountOfNeighboursSpecies(pre + [e])|
    ensures var ns, t := pre + [e], CountOfNeighboursSpecies(pre + [e]);
      t[i].0 in ns && t[j].0 in ns && IndexOf(ns, t[i].0) < IndexOf(ns, t[j].0)
  {
    var ns := pre + [e];
    assert ns[..|ns| - 1] == pre;
    var t0, t := CountOfNeighboursSpecies(pre), CountOfNeighboursSpecies(ns);
    assert t == Bump(t0, e);
    BumpKeys(t0, e);
    var ki, kj := t[i].0, t[j].0;
    assert Keys(t)[i] == ki && Keys(t)[j] == kj;
    assert Keys(t0)[i] == ki && ki in Keys(t0);
    TallyKey(pre, ki);
    IndexOfPrefix(pre, e, ki);
    if e !in Keys(t0) && j == |t| - 1 {
      TallyKey(pre, e);
      assert kj == e && ns[..|pre|] == pre;
      IndexOfLast(pre, e);
    } else {
      assert Keys(t0)[j] == kj && kj in Keys(t0);
      TallyKey(pre, kj);
      IndexOfPrefix(pre, e, kj);
      assert t0[i].0 == ki && t0[j].0 == kj;
    }
  }

  /** The source's birth scan: the first tally entry, in order, with a count of exactly 3. */
  function BirthSpecies(t: Tally): Option<Species>
  {
    if t == [] then None
    else if t[0].1 == 3 then Some(t[0].0)
    else BirthSpecies(t[1..])
  }

  /** Reference definition of the birth tie-break on the neighbour list itself: the index
      of the first neighbour (from i on) whose species occurs exactly three times. */
  function TripleFrom(ns: seq<Species>, i: nat): (k: nat)
    requires i <= |ns|
    ensures i <= k <= |ns|
    ensures k < |ns| ==> multiset(ns)[ns[k]] == 3
    ensures forall j | i <= j < k :: multiset(ns)[ns[j]] != 3
    decreases |ns| - i
  {
    if i == |ns| then i
    else if multiset(ns)[ns[i]] == 3 then i
    else TripleFrom(ns, i + 1)
  }

  /** The species of the first neighbour, in scan order, with exactly three of its kind. */
  function FirstTriple(ns: seq<Species>): Option<Species>
  {
    var k := TripleFrom(ns, 0);
    if k < |ns| then Some(ns[k]) else None
  }

  lemma {:induction false} BirthSpeciesAt(t: Tally, k: nat)
    requires k < |t| && t[k].1 == 3
    requires forall i | 0 <= i < k :: t[i].1 != 3
    ensures BirthSpecies(t) == Some(t[k].0)
  {
    if k > 0 {
      BirthSpeciesAt(t[1..], k - 1);
    }
  }

  lemma {:induction false} BirthSpeciesNone(t: Tally)
    requires forall i | 0 <= i < |t| :: t[i].1 != 3
    ensures BirthSpecies(t) == None
  {
    if t != [] {
      BirthSpeciesNone(t[1..]);
    }
  }

  /** Every tally entry is a neighbour species paired with its number of occurrences. */
  lemma TallyEntry(ns: seq<Species>, i: nat)
    requires i < |CountOfNeighboursSpecies(ns)|
    ensures var e := CountOfNeighboursSpecies(ns)[i];
      e.0 in ns && e.1 == multiset(ns)[e.0]
  {
    var t := CountOfNeighboursSpecies(ns);
    TallyKeys(ns);
    TallyCounts(ns);
    assert Keys(t)[i] == t[i].0;
    LookupKey(t, i);
  }

  /** No neighbour species occurs three times: the tally scan finds no birth. */
  lemma BirthNoTriple(ns: seq<Species>)
    requires TripleFrom(ns, 0) == |ns|
    ensures BirthSpecies(CountOfNeighboursSpecies(ns)) == None
  {
    var t := CountOfNeighboursSpecies(ns);
    forall i | 0 <= i < |t| ensures t[i].1 != 3 {
      TallyEntry(ns, i);
      var f := IndexOf(ns, t[i].0);
      assert multiset(ns)[ns[f]] != 3;
    }
    BirthSpeciesNone(t);
  }

  /** Every neighbour species has an entry in the tally. */
  lemma TallyIndex(ns: seq<Species>, s: Species) returns (m: nat)
    requires s in ns
    ensures m < |CountOfNeighboursSpecies(ns)| && CountOfNeighboursSpecies(ns)[m].0 == s
  {
    var t := CountOfNeighboursSpecies(ns);
    TallyKeys(ns);
    assert s in Keys(t);
    m :| 0 <= m < |t| && Keys(t)[m] == s;
  }

  /** Of two tally entries, the earlier one was met first in the neighbour list. */
  lemma TallyOrderAt(ns: seq<Species>, i: nat, j: nat)
    requires i < j < |CountOfNeighboursSpecies(ns)|
    ensures var t := CountOfNeighboursSpecies(ns);
      t[i].0 in ns && t[j].0 in ns && IndexOf(ns, t[i].0) < IndexOf(ns, t[j].0)
  {
    var t := CountOfNeighboursSpecies(ns);
    TallyOrder(ns);
    assert FirstMetOrder(ns, t);
    assert t[i].0 in ns && t[j].0 in ns && IndexOf(ns, t[i].0) < IndexOf(ns, t[j].0);
  }

  /** The first neighbour whose species occurs three times is k: the tally scan picks
      its species. */
  lemma BirthTriple(ns: seq<Species>, k: nat)
    requires k == TripleFrom(ns, 0) < |ns|
    ensures BirthSpecies(CountOfNeighboursSpecies(ns)) == Some(ns[k])
  {
    var t := CountOfNeighboursSpecies(ns);
    var s := ns[k];
    var m := TallyIndex(ns, s);
    TallyEntry(ns, m);
    assert t[m].1 == 3;
    var first := IndexOf(ns, s);
    assert multiset(ns)[ns[first]] == 3;
    assert first >= k;
    forall i | 0 <= i < m ensures t[i].1 != 3 {
      TallyEntry(ns, i);
      TallyOrderAt(ns, i, m);
      var f := IndexOf(ns, t[i].0);
      assert f < k;
      assert multiset(ns)[ns[f]] != 3;
    }
    BirthSpeciesAt(t, m);
  }

  /** The tally scan of the source picks exactly the reference FirstTriple. */
  lemma BirthScanIsFirstTriple(ns: seq<Species>)
    ensures BirthSpecies(CountOfNeighboursSpecies(ns)) == FirstTriple(ns)
  {
    var k := TripleFrom(ns, 0);
    if k == |ns| {
      BirthNoTriple(ns);
    } else {
      BirthTriple(ns, k);
    }
  }

  /** What the first pass stages for one position (None of the three states: nothing staged). */
  datatype Decision = Kill | Skip | GiveBirth(species: Species) | Unstaged

  /** The decision for (x, y), taken from the board before the step only. A live occupant
      is killed when its species is in the tally with a count below 2 or from 4 on; in
      every other case (its species absent from the tally included) it is skipped. An
      empty position is given birth by the first tallied species counted exactly 3. */
  function Decide(g: Grid, x: int, y: int): Decision
  {
    var tally := CountOfNeighboursSpecies(AliveNeighbours(g, x, y));
    if (x, y) in g then
      match Lookup(tally, g[(x, y)])
      case Some(c) => if c < 2 || c >= 4 then Kill else Skip
      case None => Skip
    else
      match BirthSpecies(tally)
      case Some(s) => GiveBirth(s)
      case None => Unstaged
  }

  /** The occupant of (x, y) once the decision has been committed. */
  function NextCell(g: Grid, x: int, y: int): Option<Species>
  {
    match Decide(g, x, y)
    case Kill => None
    case Skip => At(g, x, y)
    case GiveBirth(s) => Some(s)
    case Unstaged => None
  }

  /** What the commit pass meets and does. KILL and SKIP are staged only on a live
      occupant, GIVE_BIRTH and nothing only on an empty position, and the species born
      is one of the neighbours'. Committing KILL empties the position, SKIP keeps the
      occupant and GIVE_BIRTH(s) makes s alive there. */
  lemma CommitFate(g: Grid, x: int, y: int)
    ensures Decide(g, x, y).Kill? ==> (x, y) in g && NextCell(g, x, y) == None
    ensures Decide(g, x, y).Skip? ==> (x, y) in g && NextCell(g, x, y) == Some(g[(x, y)])
    ensures Decide(g, x, y).GiveBirth? ==>
      && (x, y) !in g
      && Decide(g, x, y).species in AliveNeighbours(g, x, y)
      && NextCell(g, x, y) == Some(Decide(g, x, y).species)
    ensures Decide(g, x, y).Unstaged? ==> (x, y) !in g && NextCell(g, x, y) == None
  {
    if Decide(g, x, y).GiveBirth? {
      BirthScanIsFirstTriple(AliveNeighbours(g, x, y));
    }
  }

  /** The board after one step: every position of the n-by-n board decided from g. */
  function Next(n: int, g: Grid): (r: Grid)
    ensures OnBoard(n, r)
  {
    map p | p in Cells(n) && NextCell(g, p.0, p.1).Some? :: NextCell(g, p.0, p.1).value
  }

  lemma NextAt(n: int, g: Grid, x: int, y: int)
    requires InRange(n, x, y)
    ensures At(Next(n, g), x, y) == NextCell(g, x, y)
  {
    assert (x, y) in Cells(n);
  }

  /** The board after k steps. */
  function Run(n: int, g: Grid, k: nat): Grid
  {
    if k == 0 then g else Next(n, Run(n, g, k - 1))
  }

  /** One more step after k steps. */
  lemma RunStep(n: int, g: Grid, k: nat, before: Grid, after: Grid)
    requires before == Run(n, g, k) && after == Next(n, before)
    ensures after == Run(n, g, k + 1)
  {
  }

  /** Survival: a live occupant whose species has c alive neighbours is removed exactly
      when c is 1 or at least 4; with 0, 2 or 3 it stays as it is. */
  lemma SurvivalRule(n: int, g: Grid, x: int, y: int)
    requires InRange(n, x, y) && (x, y) in g
    ensures var c := |OfSpecies(g, Moore(x, y), g[(x, y)])|;
      && ((x, y) in Next(n, g) <==> c != 1 && c < 4)
      && ((x, y) in Next(n, g) ==> Next(n, g)[(x, y)] == g[(x, y)])
  {
    var ns := AliveNeighbours(g, x, y);
    TallyCounts(ns);
    NeighbourCount(g, x, y, g[(x, y)]);
    NextAt(n, g, x, y);
  }

  /** Birth: an empty position becomes alive with the species of the first neighbour,
      in scan order, whose species has exactly 3 alive neighbours, and stays empty
      when no species has exactly 3. */
  lemma BirthRule(n: int, g: Grid, x: int, y: int)
    requires InRange(n, x, y) && (x, y) !in g
    ensures At(Next(n, g), x, y) == FirstTriple(AliveNeighbours(g, x, y))
    ensures (x, y) in Next(n, g) <==>
      exists s :: s in AliveNeighbours(g, x, y) && |OfSpecies(g, Moore(x, y), s)| == 3
  {
    var ns := AliveNeighbours(g, x, y);
    BirthScanIsFirstTriple(ns);
    NextAt(n, g, x, y);
    var k := TripleFrom(ns, 0);
    if k < |ns| {
      NeighbourCount(g, x, y, ns[k]);
    } else {
      forall s | s in ns ensures |OfSpecies(g, Moore(x, y), s)| != 3 {
        NeighbourCount(g, x, y, s);
        var j := IndexOf(ns, s);
      }
    }
  }

  /** A step never invents a species: every occupant afterwards has a species that
      was on the board before. */
  lemma NextKeepsSpecies(n: int, g: Grid)
    ensures forall p | p in Next(n, g) :: Next(n, g)[p] in g.Values
  {
    forall p | p in Next(n, g) ensures Next(n, g)[p] in g.Values {
      var ns := AliveNeighbours(g, p.0, p.1);
      if p !in g {
        BirthScanIsFirstTriple(ns);
        var k := TripleFrom(ns, 0);
        NeighboursAreOccupants(g, p.0, p.1, |Directions|, ns[k]);
      }
    }
  }

  lemma {:induction false} NeighboursAreOccupants(g: Grid, x: int, y: int, k: nat, s: Species)
    requires k <= |Directions| && s in NeighboursUpTo(g, x, y, k)
    ensures s in g.Values
  {
    var q := Around(x, y, k - 1);
    if s !in NeighboursUpTo(g, x, y, k - 1) {
      assert q in g && g[q] == s;
    } else {
      NeighboursAreOccupants(g, x, y, k - 1, s);
    }
  }
}
