/** Target selection of the hitscan weapons: `raycastFirstHit` and
    `raycastAllHits` (server/index.js:100-129). A player is hit when its
    distance to the shot's segment is at most `PLAYER_RADIUS` (compared
    squared) and its projection on the shot lies in `[0, range]`. */
module Raycast {
  import opened Options
  import opened Seqs
  import opened Geometry
  import opened Combat

  const PlayerRadius: real := 0.6

  /** The `{ target, forward }` records the two raycasts return; the target
      is named by its id. */
  datatype RayHit = RayHit(target: PlayerId, forward: real)

  /** A point the shot from `o` along `d` reaches within `range`. */
  predicate Qualifies(p: Vec, o: Vec, d: Vec, range: real) {
    && DistSqToRay(p, o, d, range) <= PlayerRadius * PlayerRadius
    && 0.0 <= Forward(p, o, d) <= range
  }

  /** `excludeId && otherId === excludeId`: the shooter is skipped, unless
      its id is the empty (falsy) string. */
  predicate Excluded(id: PlayerId, exclude: PlayerId) {
    exclude != "" && id == exclude
  }

  /** A registered player, not excluded, that the shot reaches. */
  predicate Eligible(ps: map<PlayerId, Player>, id: PlayerId, o: Vec, d: Vec, range: real, exclude: PlayerId) {
    id in ps && !Excluded(id, exclude) && Qualifies(ps[id].position, o, d, range)
  }

  function FwdOf(ps: map<PlayerId, Player>, id: PlayerId, o: Vec, d: Vec): real
    requires id in ps
  {
    Forward(ps[id].position, o, d)
  }

  predicate AllRegistered(ps: map<PlayerId, Player>, ids: seq<PlayerId>) {
    forall k :: 0 <= k < |ids| ==> ids[k] in ps
  }

  // ---------------------------------------------------------------------
  // raycastFirstHit

  /** The loop of `raycastFirstHit` over the players `ids`, as a left fold:
      a later player replaces the best so far only when strictly nearer. */
  function FirstHitIn(ps: map<PlayerId, Player>, ids: seq<PlayerId>, o: Vec, d: Vec, range: real, exclude: PlayerId): (r: Option<RayHit>)
    ensures r.Some? ==>
      && r.value.target in ids
      && Eligible(ps, r.value.target, o, d, range, exclude)
      && r.value.forward == FwdOf(ps, r.value.target, o, d)
  {
    if ids == [] then None
    else
      var best := FirstHitIn(ps, ids[..|ids| - 1], o, d, range, exclude);
      var id := ids[|ids| - 1];
      if Eligible(ps, id, o, d, range, exclude) && (best.None? || FwdOf(ps, id, o, d) < best.value.forward)
      then Some(RayHit(id, FwdOf(ps, id, o, d)))
      else best
  }

  /** What `raycastFirstHit` promises: null when no player qualifies;
      otherwise a qualifying player with its forward distance, none nearer,
      and none as near earlier in iteration order. */
  ghost predicate IsFirstHit(r: Option<RayHit>, ps: map<PlayerId, Player>, ids: seq<PlayerId>, o: Vec, d: Vec, range: real, exclude: PlayerId) {
    match r
    case None => forall k :: 0 <= k < |ids| ==> !Eligible(ps, ids[k], o, d, range, exclude)
    case Some(h) =>
      exists k :: 0 <= k < |ids| && FirstAt(h, k, ps, ids, o, d, range, exclude)
  }

  ghost predicate FirstAt(h: RayHit, k: nat, ps: map<PlayerId, Player>, ids: seq<PlayerId>, o: Vec, d: Vec, range: real, exclude: PlayerId)
    requires k < |ids|
  {
    && ids[k] == h.target
    && Eligible(ps, h.target, o, d, range, exclude)
    && h.forward == FwdOf(ps, h.target, o, d)
    && (forall j :: 0 <= j < |ids| && Eligible(ps, ids[j], o, d, range, exclude) ==> h.forward <= FwdOf(ps, ids[j], o, d))
    && (forall j :: 0 <= j < k && Eligible(ps, ids[j], o, d, range, exclude) ==> h.forward < FwdOf(ps, ids[j], o, d))
  }

  lemma {:induction false} FirstHitInCorrect(ps: map<PlayerId, Player>, ids: seq<PlayerId>, o: Vec, d: Vec, range: real, exclude: PlayerId)
    ensures IsFirstHit(FirstHitIn(ps, ids, o, d, range, exclude), ps, ids, o, d, range, exclude)
  {
    if ids != [] {
      var n := |ids| - 1;
      var init := ids[..n];
      var id := ids[n];
      var best := FirstHitIn(ps, init, o, d, range, exclude);
      FirstHitInCorrect(ps, init, o, d, range, exclude);
      assert forall j :: 0 <= j < n ==> ids[j] == init[j];
      if Eligible(ps, id, o, d, range, exclude) && (best.None? || FwdOf(ps, id, o, d) < best.value.forward) {
        var h := RayHit(id, FwdOf(ps, id, o, d));
        if best.Some? {
          var k0 :| 0 <= k0 < n && FirstAt(best.value, k0, ps, init, o, d, range, exclude);
        }
        assert FirstAt(h, n, ps, ids, o, d, range, exclude);
      } else if best.Some? {
        var k0 :| 0 <= k0 < n && FirstAt(best.value, k0, ps, init, o, d, range, exclude);
        assert FirstAt(best.value, k0, ps, ids, o, d, range, exclude);
      }
    }
  }

  /** The characterisation determines the result: two answers that both
      satisfy it are equal. */
  lemma FirstHitUnique(a: Option<RayHit>, b: Option<RayHit>, ps: map<PlayerId, Player>, ids: seq<PlayerId>, o: Vec, d: Vec, range: real, exclude: PlayerId)
    requires IsFirstHit(a, ps, ids, o, d, range, exclude)
    requires IsFirstHit(b, ps, ids, o, d, range, exclude)
    ensures a == b
  {
    if a.Some? && b.Some? {
      var ka :| 0 <= ka < |ids| && FirstAt(a.value, ka, ps, ids, o, d, range, exclude);
      var kb :| 0 <= kb < |ids| && FirstAt(b.value, kb, ps, ids, o, d, range, exclude);
      assert ka == kb;
    }
  }

  /** `raycastFirstHit(origin, direction, range, excludeId)` over the players
      in iteration order `ids`. */
  method RaycastFirstHit(ps: map<PlayerId, Player>, ids: seq<PlayerId>, o: Vec, d: Vec, range: real, exclude: PlayerId)
    returns (best: Option<RayHit>)
    requires AllRegistered(ps, ids)
    ensures IsFirstHit(best, ps, ids, o, d, range, exclude)
    ensures best == FirstHitIn(ps, ids, o, d, range, exclude)
  {
    best := None;
    var i := 0;
    while i < |ids|
      invariant 0 <= i <= |ids|
      invariant best == FirstHitIn(ps, ids[..i], o, d, range, exclude)
    {
      var id := ids[i];
      assert ids[..i + 1][..i] == ids[..i];
      if !Excluded(id, exclude) {
        var dist := DistSqToRay(ps[id].position, o, d, range);
        if dist <= PlayerRadius * PlayerRadius {
          var forward := Forward(ps[id].position, o, d);
          if !(forward < 0.0 || forward > range) {
            if best.None? || forward < best.value.forward {
              best := Some(RayHit(id, forward));
            }
          }
        }
      }
      i := i + 1;
    }
    assert ids[..i] == ids;
    FirstHitInCorrect(ps, ids, o, d, range, exclude);
  }

  // ---------------------------------------------------------------------
  // raycastAllHits

  /** The ids of a list of hits, in order. */
  function Targets(hs: seq<RayHit>): seq<PlayerId> {
    seq(|hs|, k requires 0 <= k < |hs| => hs[k].target)
  }

  /** The loop of `raycastAllHits`: every eligible player, with its forward
      distance, in iteration order. */
  function Collect(ps: map<PlayerId, Player>, ids: seq<PlayerId>, o: Vec, d: Vec, range: real, exclude: PlayerId): (r: seq<RayHit>)
    ensures |r| <= |ids|
    ensures forall h :: h in r ==> h.target in ids && Eligible(ps, h.target, o, d, range, exclude)
  {
    if ids == [] then []
    else
      var hs := Collect(ps, ids[..|ids| - 1], o, d, range, exclude);
      var id := ids[|ids| - 1];
      if Eligible(ps, id, o, d, range, exclude) then hs + [RayHit(id, FwdOf(ps, id, o, d))] else hs
  }

  predicate SortedByForward(s: seq<RayHit>) {
    forall i, j :: 0 <= i < j < |s| ==> s[i].forward <= s[j].forward
  }

  /** Inserts `h` after every element of `s` whose forward distance is at
      most its own. */
  function Insert(h: RayHit, s: seq<RayHit>): (r: seq<RayHit>)
    ensures |r| == |s| + 1
  {
    if s == [] then [h]
    else if h.forward < s[0].forward then [h] + s
    else [s[0]] + Insert(h, s[1..])
  }

  /** `hits.sort((a, b) => a.forward - b.forward)`; the sort of JavaScript
      is stable, and so is this insertion sort. */
  function SortByForward(s: seq<RayHit>): (r: seq<RayHit>)
    ensures |r| == |s|
  {
    if s == [] then [] else Insert(s[|s| - 1], SortByForward(s[..|s| - 1]))
  }

  /** The hits at exactly forward distance `f`, in order. */
  function AtForward(s: seq<RayHit>, f: real): seq<RayHit> {
    if s == [] then []
    else (if s[0].forward == f then [s[0]] else []) + AtForward(s[1..], f)
  }

  /** `raycastAllHits(origin, direction, range, excludeId)`. */
  function AllHitsIn(ps: map<PlayerId, Player>, ids: seq<PlayerId>, o: Vec, d: Vec, range: real, exclude: PlayerId): (r: seq<RayHit>)
    ensures |r| == |Collect(ps, ids, o, d, range, exclude)| <= |ids|
  {
    SortByForward(Collect(ps, ids, o, d, range, exclude))
  }

  lemma {:induction false} InsertElements(h: RayHit, s: seq<RayHit>)
    ensures |Insert(h, s)| == |s| + 1
    ensures forall x :: x in Insert(h, s) <==> x == h || x in s
  {
    if s != [] && h.forward >= s[0].forward {
      InsertElements(h, s[1..]);
      assert s == [s[0]] + s[1..];
    }
  }

  lemma {:induction false} InsertLowerBound(h: RayHit, s: seq<RayHit>, lo: real)
    requires lo <= h.forward
    requires forall k :: 0 <= k < |s| ==> lo <= s[k].forward
    ensures forall k :: 0 <= k < |Insert(h, s)| ==> lo <= Insert(h, s)[k].forward
  {
    if s != [] && h.forward >= s[0].forward {
      InsertLowerBound(h, s[1..], lo);
      var r := Insert(h, s);
      assert forall k :: 1 <= k < |r| ==> r[k] == Insert(h, s[1..])[k - 1];
    }
  }

  lemma {:induction false} InsertSorted(h: RayHit, s: seq<RayHit>)
    requires SortedByForward(s)
    ensures SortedByForward(Insert(h, s))
  {
    if s != [] && h.forward >= s[0].forward {
      var rest := Insert(h, s[1..]);
      InsertSorted(h, s[1..]);
      InsertLowerBound(h, s[1..], s[0].forward);
      var r := [s[0]] + rest;
      forall i, j | 0 <= i < j < |r| ensures r[i].forward <= r[j].forward {
        assert r[j] == rest[j - 1];
        if i > 0 {
          assert r[i] == rest[i - 1];
        }
      }
    }
  }

  lemma {:induction false} InsertTargets(h: RayHit, s: seq<RayHit>)
    requires Distinct(Targets(s)) && h.target !in Targets(s)
    ensures Distinct(Targets(Insert(h, s)))
    ensures forall id :: id in Targets(Insert(h, s)) <==> id == h.target || id in Targets(s)
  {
    InsertElements(h, s);
    var r := Insert(h, s);
    if s == [] {
    } else if h.forward < s[0].forward {
      assert Targets(r) == [h.target] + Targets(s);
      ConsDistinct(h.target, Targets(s));
    } else {
      var rest := Insert(h, s[1..]);
      assert Targets(s) == [s[0].target] + Targets(s[1..]);
      ConsDistinctInverse(s[0].target, Targets(s[1..]));
      InsertTargets(h, s[1..]);
      assert Targets(r) == [s[0].target] + Targets(rest);
      ConsDistinct(s[0].target, Targets(rest));
    }
    forall id ensures id in Targets(r) <==> id == h.target || id in Targets(s) {
      TargetsMember(r, id);
      TargetsMember(s, id);
    }
  }

  lemma ConsDistinct(x: PlayerId, t: seq<PlayerId>)
    requires x !in t && Distinct(t)
    ensures Distinct([x] + t)
  {
    var r := [x] + t;
    forall i, j | 0 <= i < j < |r| ensures r[i] != r[j] {
      assert r[j] == t[j - 1];
      if i > 0 {
        assert r[i] == t[i - 1];
      }
    }
  }

  lemma ConsDistinctInverse(x: PlayerId, t: seq<PlayerId>)
    requires Distinct([x] + t)
    ensures x !in t && Distinct(t)
  {
    var r := [x] + t;
    forall i, j | 0 <= i < j < |t| ensures t[i] != t[j] {
      assert t[i] == r[i + 1] && t[j] == r[j + 1];
    }
    forall k | 0 <= k < |t| ensures t[k] != x {
      assert t[k] == r[k + 1] && r[0] == x;
    }
  }

  lemma {:induction false} SortByForwardProperties(s: seq<RayHit>)
    ensures SortedByForward(SortByForward(s))
    ensures forall x :: x in SortByForward(s) <==> x in s
    ensures Distinct(Targets(s)) ==> Distinct(Targets(SortByForward(s)))
    ensures forall id :: id in Targets(SortByForward(s)) <==> id in Targets(s)
  {
    if s != [] {
      var init := s[..|s| - 1];
      var last := s[|s| - 1];
      var sorted := SortByForward(init);
      SortByForwardProperties(init);
      InsertSorted(last, sorted);
      InsertElements(last, sorted);
      assert s == init + [last];
      assert Targets(s) == Targets(init) + [last.target];
      forall id ensures id in Targets(SortByForward(s)) <==> id in Targets(s) {
        TargetsMember(SortByForward(s), id);
        TargetsMember(s, id);
        TargetsMember(sorted, id);
        TargetsMember(init, id);
      }
      if Distinct(Targets(s)) {
        assert Distinct(Targets(init)) by {
          forall i, j | 0 <= i < j < |Targets(init)| ensures Targets(init)[i] != Targets(init)[j] {
            assert Targets(init)[i] == Targets(s)[i] && Targets(init)[j] == Targets(s)[j];
          }
        }
        forall k | 0 <= k < |init| ensures Targets(init)[k] != last.target {
          assert Targets(init)[k] == Targets(s)[k] && Targets(s)[|s| - 1] == last.target;
        }
        InsertTargets(last, sorted);
      }
    }
  }

  /** Inserting adds exactly `h`: nothing is lost or duplicated. */
  lemma {:induction false} InsertPermutes(h: RayHit, s: seq<RayHit>)
    ensures multiset(Insert(h, s)) == multiset(s) + multiset{h}
  {
    if s != [] && h.forward >= s[0].forward {
      InsertPermutes(h, s[1..]);
      assert s == [s[0]] + s[1..];
    }
  }

  /** Sorting only reorders: the sorted hits are a permutation of the
      input. */
  lemma {:induction false} SortByForwardPermutes(s: seq<RayHit>)
    ensures multiset(SortByForward(s)) == multiset(s)
  {
    if s != [] {
      var init := s[..|s| - 1];
      SortByForwardPermutes(init);
      InsertPermutes(s[|s| - 1], SortByForward(init));
      assert s == init + [s[|s| - 1]];
    }
  }

  /** An id is among the targets exactly when some hit names it. */
  lemma TargetsMember(hs: seq<RayHit>, id: PlayerId)
    ensures id in Targets(hs) <==> exists h :: h in hs && h.target == id
  {
    if id in Targets(hs) {
      var k :| 0 <= k < |hs| && Targets(hs)[k] == id;
      assert hs[k] in hs;
    }
    if exists h :: h in hs && h.target == id {
      var h :| h in hs && h.target == id;
      var k :| 0 <= k < |hs| && hs[k] == h;
      assert Targets(hs)[k] == id;
    }
  }

  lemma {:induction false} AtForwardAppend(a: seq<RayHit>, b: seq<RayHit>, f: real)
    ensures AtForward(a + b, f) == AtForward(a, f) + AtForward(b, f)
  {
    if a != [] {
      assert (a + b)[1..] == a[1..] + b;
      AtForwardAppend(a[1..], b, f);
    } else {
      assert a + b == b;
    }
  }

  lemma AtForwardCons(x: RayHit, s: seq<RayHit>, f: real)
    ensures AtForward([x] + s, f) == (if x.forward == f then [x] else []) + AtForward(s, f)
  {
    assert ([x] + s)[1..] == s;
  }

  lemma {:induction false} AtForwardAbove(s: seq<RayHit>, f: real)
    requires forall k :: 0 <= k < |s| ==> f < s[k].forward
    ensures AtForward(s, f) == []
  {
    if s != [] {
      AtForwardAbove(s[1..], f);
    }
  }

  lemma {:induction false} InsertStable(h: RayHit, s: seq<RayHit>, f: real)
    requires SortedByForward(s)
    ensures AtForward(Insert(h, s), f) == AtForward(s, f) + (if h.forward == f then [h] else [])
  {
    if s == [] {
      AtForwardCons(h, [], f);
    } else if h.forward < s[0].forward {
      AtForwardCons(h, s, f);
      if h.forward == f {
        AtForwardAbove(s, f);
      }
    } else {
      var head := if s[0].forward == f then [s[0]] else [];
      var tail := if h.forward == f then [h] else [];
      assert SortedByForward(s[1..]);
      InsertStable(h, s[1..], f);
      assert Insert(h, s) == [s[0]] + Insert(h, s[1..]);
      AtForwardCons(s[0], Insert(h, s[1..]), f);
      assert s == [s[0]] + s[1..];
      AtForwardCons(s[0], s[1..], f);
      AppendAssoc(head, AtForward(s[1..], f), tail);
    }
  }

  /** Sorting keeps hits at equal forward distance in their original
      order. */
  lemma {:induction false} SortByForwardStable(s: seq<RayHit>, f: real)
    ensures AtForward(SortByForward(s), f) == AtForward(s, f)
  {
    if s != [] {
      var init := s[..|s| - 1];
      var last := s[|s| - 1];
      SortByForwardStable(init, f);
      SortByForwardProperties(init);
      InsertStable(last, SortByForward(init), f);
      assert s == init + [last];
      AtForwardAppend(init, [last], f);
      AtForwardCons(last, [], f);
    }
  }

  lemma {:induction false} CollectCorrect(ps: map<PlayerId, Player>, ids: seq<PlayerId>, o: Vec, d: Vec, range: real, exclude: PlayerId)
    ensures var c := Collect(ps, ids, o, d, range, exclude);
      && (forall h :: h in c ==> Eligible(ps, h.target, o, d, range, exclude) && h.forward == FwdOf(ps, h.target, o, d))
      && (forall id :: id in Targets(c) <==> id in ids && Eligible(ps, id, o, d, range, exclude))
      && (Distinct(ids) ==> Distinct(Targets(c)))
  {
    if ids != [] {
      var init := ids[..|ids| - 1];
      var id := ids[|ids| - 1];
      CollectCorrect(ps, init, o, d, range, exclude);
      assert ids == init + [id];
      var c0 := Collect(ps, init, o, d, range, exclude);
      if Eligible(ps, id, o, d, range, exclude) {
        var c := c0 + [RayHit(id, FwdOf(ps, id, o, d))];
        assert Targets(c) == Targets(c0) + [id];
        if Distinct(ids) {
          assert Distinct(init);
          assert id !in init;
          AppendDistinct(Targets(c0), id);
        }
      } else {
        if Distinct(ids) {
          assert Distinct(init);
        }
      }
    }
  }

  /** What `raycastAllHits` promises: exactly the eligible players, each
      once, with their forward distances, nearest first, and players at
      equal distance in iteration order. */
  lemma AllHitsInCorrect(ps: map<PlayerId, Player>, ids: seq<PlayerId>, o: Vec, d: Vec, range: real, exclude: PlayerId)
    requires Distinct(ids)
    ensures var r := AllHitsIn(ps, ids, o, d, range, exclude);
      && SortedByForward(r)
      && (forall h :: h in r ==> Eligible(ps, h.target, o, d, range, exclude) && h.forward == FwdOf(ps, h.target, o, d))
      && (forall id :: id in Targets(r) <==> id in ids && Eligible(ps, id, o, d, range, exclude))
      && Distinct(Targets(r))
      && (forall f :: AtForward(r, f) == AtForward(Collect(ps, ids, o, d, range, exclude), f))
  {
    var c := Collect(ps, ids, o, d, range, exclude);
    CollectCorrect(ps, ids, o, d, range, exclude);
    SortByForwardProperties(c);
    forall f ensures AtForward(SortByForward(c), f) == AtForward(c, f) {
      SortByForwardStable(c, f);
    }
  }

  /** `raycastAllHits(origin, direction, range, excludeId)` over the players
      in iteration order `ids`. */
  method RaycastAllHits(ps: map<PlayerId, Player>, ids: seq<PlayerId>, o: Vec, d: Vec, range: real, exclude: PlayerId)
    returns (hits: seq<RayHit>)
    requires AllRegistered(ps, ids) && Distinct(ids)
    ensures hits == AllHitsIn(ps, ids, o, d, range, exclude)
    ensures SortedByForward(hits)
    ensures forall id :: id in Targets(hits) <==> id in ids && Eligible(ps, id, o, d, range, exclude)
  {
    hits := [];
    var i := 0;
    while i < |ids|
      invariant 0 <= i <= |ids|
      invariant hits == Collect(ps, ids[..i], o, d, range, exclude)
    {
      var id := ids[i];
      assert ids[..i + 1][..i] == ids[..i];
      if !Excluded(id, exclude) {
        var dist := DistSqToRay(ps[id].position, o, d, range);
        if dist <= PlayerRadius * PlayerRadius {
          var forward := Forward(ps[id].position, o, d);
          if !(forward < 0.0 || forward > range) {
            hits := hits + [RayHit(id, forward)];
          }
        }
      }
      i := i + 1;
    }
    assert ids[..i] == ids;
    hits := SortByForward(hits);
    AllHitsInCorrect(ps, ids, o, d, range, exclude);
  }
}
