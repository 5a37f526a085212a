/** Placement of the immovable pollution obstacles (plastics and nets).
    The coordinates the source draws at random are a supplied candidate list,
    consumed in order; the validity check reads the obstacle lists held before
    placement began, never the lists being built. */
module Pollution {
  import opened Common
  import opened Board

  const TotalPlastic := 10
  const TotalNet := 5

  /** The band where obstacles may lie: two cells in from every edge. */
  predicate InInterior(p: Pos)
  {
    1 < p.x < GridSize - 2 && 1 < p.y < GridSize - 2
  }

  /** A candidate is accepted when it lies in the band and is not one of the
      obstacles already in `plastics` or `nets`. */
  predicate IsValidPollutionPosition(x: int, y: int, plastics: seq<Pos>, nets: seq<Pos>)
  {
    InInterior(Pos(x, y)) && Pos(x, y) !in plastics && Pos(x, y) !in nets
  }

  /** The validity check as a predicate on candidates. */
  function ValidAgainst(plastics: seq<Pos>, nets: seq<Pos>): Pos -> bool
  {
    (p: Pos) => IsValidPollutionPosition(p.x, p.y, plastics, nets)
  }

  lemma ValidAgainstAt(plastics: seq<Pos>, nets: seq<Pos>, p: Pos)
    ensures ValidAgainst(plastics, nets)(p) == IsValidPollutionPosition(p.x, p.y, plastics, nets)
  {
  }

  /** Every candidate the check accepts, in drawing order. */
  function Accepted(plastics: seq<Pos>, nets: seq<Pos>, candidates: seq<Pos>): seq<Pos>
  {
    Filter(candidates, ValidAgainst(plastics, nets))
  }

  /** The first `TotalPlastic` accepted candidates (fewer if the list runs out). */
  function PlacedPlastics(plastics: seq<Pos>, nets: seq<Pos>, candidates: seq<Pos>): seq<Pos>
  {
    var a := Accepted(plastics, nets, candidates);
    a[..Min(|a|, TotalPlastic)]
  }

  /** The next `TotalNet` accepted candidates (fewer if the list runs out). */
  function PlacedNets(plastics: seq<Pos>, nets: seq<Pos>, candidates: seq<Pos>): seq<Pos>
  {
    var a := Accepted(plastics, nets, candidates);
    a[Min(|a|, TotalPlastic)..Min(|a|, TotalPlastic + TotalNet)]
  }

  /** The candidates sufficed to fill both lists. */
  predicate PlacementComplete(plastics: seq<Pos>, nets: seq<Pos>, candidates: seq<Pos>)
  {
    |Accepted(plastics, nets, candidates)| >= TotalPlastic + TotalNet
  }

  /** Fills the plastic list, then the net list, by rejection sampling over
      `candidates`. `complete` is false when the candidates ran out first,
      where the source would keep drawing. */
  method PlacePollution(plastics: seq<Pos>, nets: seq<Pos>, candidates: seq<Pos>)
    returns (newPlastics: seq<Pos>, newNets: seq<Pos>, complete: bool)
    ensures newPlastics == PlacedPlastics(plastics, nets, candidates)
    ensures newNets == PlacedNets(plastics, nets, candidates)
    ensures complete == PlacementComplete(plastics, nets, candidates)
  {
    var i;
    newPlastics, i := SampleUntil(TotalPlastic, plastics, nets, candidates, 0);
    assert candidates[..0] == [];
    assert candidates[0..i] == candidates[..i];
    var j;
    newNets, j := SampleUntil(TotalNet, plastics, nets, candidates, i);
    assert candidates[..j] == candidates[..i] + candidates[i..j];
    FilterAppend(candidates[..i], candidates[i..j], ValidAgainst(plastics, nets));
    complete := |newPlastics| == TotalPlastic && |newNets| == TotalNet;
    PlacementFromPrefix(plastics, nets, candidates, j, newPlastics, newNets);
  }

  /** One sampling loop: from candidate `start` on, accepts valid candidates
      until `target` are accepted or the candidates run out. */
  method SampleUntil(target: nat, plastics: seq<Pos>, nets: seq<Pos>, candidates: seq<Pos>, start: nat)
    returns (accepted: seq<Pos>, next: nat)
    requires start <= |candidates|
    ensures start <= next <= |candidates|
    ensures accepted == Filter(candidates[start..next], ValidAgainst(plastics, nets))
    ensures |accepted| <= target
    ensures |accepted| < target ==> next == |candidates|
    ensures next > start ==> |Filter(candidates[start..next - 1], ValidAgainst(plastics, nets))| < target
  {
    ghost var valid := ValidAgainst(plastics, nets);
    // `prior` is what had been accepted before the last candidate was read
    ghost var prior: seq<Pos> := [];
    accepted, next := [], start;
    assert candidates[start..start] == [];
    while |accepted| < target && next < |candidates|
      invariant start <= next <= |candidates|
      invariant accepted == Filter(candidates[start..next], valid)
      invariant |accepted| <= target
      invariant next > start ==> prior == Filter(candidates[start..next - 1], valid) && |prior| < target
    {
      prior := accepted;
      var c := candidates[next];
      FilterSliceSnoc(candidates, start, next, valid);
      ValidAgainstAt(plastics, nets, c);
      if IsValidPollutionPosition(c.x, c.y, plastics, nets) {
        accepted := accepted + [c];
      }
      next := next + 1;
    }
  }

  /** Once the plastic list is full, or the candidates are used up, and then
      the same holds for the net list, what was accepted from the first `i`
      candidates is the placement of the whole list. */
  lemma PlacementFromPrefix(plastics: seq<Pos>, nets: seq<Pos>, candidates: seq<Pos>, i: int,
                            newPlastics: seq<Pos>, newNets: seq<Pos>)
    requires 0 <= i <= |candidates|
    requires newPlastics + newNets == Filter(candidates[..i], ValidAgainst(plastics, nets))
    requires |newPlastics| <= TotalPlastic && |newNets| <= TotalNet
    requires |newPlastics| < TotalPlastic ==> i == |candidates| && newNets == []
    requires |newNets| < TotalNet ==> i == |candidates|
    ensures newPlastics == PlacedPlastics(plastics, nets, candidates)
    ensures newNets == PlacedNets(plastics, nets, candidates)
    ensures (|newPlastics| == TotalPlastic && |newNets| == TotalNet) == PlacementComplete(plastics, nets, candidates)
  {
    var valid := ValidAgainst(plastics, nets);
    assert candidates == candidates[..i] + candidates[i..];
    FilterAppend(candidates[..i], candidates[i..], valid);
    var a := Accepted(plastics, nets, candidates);
    assert a == newPlastics + newNets + Filter(candidates[i..], valid);
    assert i == |candidates| ==> candidates[i..] == [];
  }

  /** Accepted cells of a grid of side 10 are exactly those with both
      coordinates in 2..7 that are not yet an obstacle. */
  lemma ValidPositionBand(x: int, y: int, plastics: seq<Pos>, nets: seq<Pos>)
    ensures IsValidPollutionPosition(x, y, plastics, nets)
        <==> 2 <= x <= 7 && 2 <= y <= 7 && Pos(x, y) !in plastics && Pos(x, y) !in nets
  {
  }

  /** Every placed obstacle passed the validity check against the lists held
      before placement, so it lies in the interior band. */
  lemma PlacementSatisfiesRule(plastics: seq<Pos>, nets: seq<Pos>, candidates: seq<Pos>)
    ensures forall p :: p in PlacedPlastics(plastics, nets, candidates) + PlacedNets(plastics, nets, candidates) ==>
      IsValidPollutionPosition(p.x, p.y, plastics, nets) && InInterior(p) && p in candidates
  {
    var a := Accepted(plastics, nets, candidates);
    var k1, k2 := Min(|a|, TotalPlastic), Min(|a|, TotalPlastic + TotalNet);
    assert PlacedPlastics(plastics, nets, candidates) + PlacedNets(plastics, nets, candidates) == a[..k2];
    forall p | p in a[..k2]
      ensures IsValidPollutionPosition(p.x, p.y, plastics, nets) && p in candidates
    {
      assert p in a;
    }
  }

  /** The lists hold `TotalPlastic` and `TotalNet` obstacles exactly when the
      candidates sufficed, and are otherwise everything accepted, in order. */
  lemma PlacementCounts(plastics: seq<Pos>, nets: seq<Pos>, candidates: seq<Pos>)
    ensures var a := Accepted(plastics, nets, candidates);
      && PlacedPlastics(plastics, nets, candidates) + PlacedNets(plastics, nets, candidates)
         == a[..Min(|a|, TotalPlastic + TotalNet)]
      && (PlacementComplete(plastics, nets, candidates) <==>
          |PlacedPlastics(plastics, nets, candidates)| == TotalPlastic && |PlacedNets(plastics, nets, candidates)| == TotalNet)
  {
  }

  /** The stale check lets one coordinate be accepted many times: fifteen
      draws of (2, 2) fill both lists with that single cell, so the plastic
      list repeats it and the net list shares it with the plastic list. */
  lemma StaleCheckAdmitsDuplicates()
    ensures var c := seq(TotalPlastic + TotalNet, _ => Pos(2, 2));
      && PlacementComplete([], [], c)
      && PlacedPlastics([], [], c)[0] == PlacedPlastics([], [], c)[1] == Pos(2, 2)
      && PlacedNets([], [], c)[0] == Pos(2, 2)
  {
    var c := seq(TotalPlastic + TotalNet, _ => Pos(2, 2));
    FilterKeepsAll(c, ValidAgainst([], []));
  }
}
