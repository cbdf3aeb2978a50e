/**
 * Greedy seed ("star") clustering of scan windows.  Regions are taken in
 * input order; each region not yet used becomes the seed of a new cluster
 * and absorbs every later unused region whose corner lies closer to the
 * seed's corner than the threshold.  Membership is tested against the seed
 * only, never against regions that joined the cluster earlier.
 *
 * The specification works on region indices, so that equal regions at
 * different positions stay distinct; Members turns index clusters back into
 * region clusters.
 */
module Clustering {
  import opened FaceTypes

  /**
   * The seed test.  The detector compares the Euclidean distance
   * sqrt(dx^2 + dy^2) with the threshold; since the distance is never
   * negative this is dx^2 + dy^2 < threshold^2 for a positive threshold and
   * false otherwise (see DistanceTestExact).
   */
  predicate Near(a: Region, b: Region, threshold: int)
    ensures Near(a, b, threshold) ==>
              -threshold < a.x - b.x < threshold && -threshold < a.y - b.y < threshold
  {
    var dx := a.x - b.x;
    var dy := a.y - b.y;
    SquareBelowBounds(dx, dy, threshold);
    0 < threshold && dx * dx + dy * dy < threshold * threshold
  }

  /** Squaring is monotone on natural numbers. */
  lemma SquareMonotone(u: nat, t: nat)
    ensures t <= u ==> t * t <= u * u
  {
    if t <= u {
      assert t * t <= t * u <= u * u;
    }
  }

  /** A squared distance below t * t keeps each offset strictly between -t and t. */
  lemma SquareBelowBounds(dx: int, dy: int, t: int)
    ensures 0 < t && dx * dx + dy * dy < t * t ==> -t < dx < t && -t < dy < t
  {
    if 0 < t {
      var ax: nat := if dx < 0 then -dx else dx;
      var ay: nat := if dy < 0 then -dy else dy;
      assert ax * ax == dx * dx && ay * ay == dy * dy;
      SquareMonotone(ax, t);
      SquareMonotone(ay, t);
    }
  }

  /** With dist the exact square root of dx^2 + dy^2, Near is the test dist < threshold. */
  lemma DistanceTestExact(a: Region, b: Region, threshold: int, dist: real)
    requires 0.0 <= dist
    requires dist * dist == ((a.x - b.x) * (a.x - b.x) + (a.y - b.y) * (a.y - b.y)) as real
    ensures Near(a, b, threshold) <==> dist < threshold as real
  {
    var t := threshold as real;
    var d2 := (a.x - b.x) * (a.x - b.x) + (a.y - b.y) * (a.y - b.y);
    assert (threshold * threshold) as real == t * t;
    if 0.0 < t && dist < t {
      assert dist * dist <= dist * t < t * t;
    }
    if 0.0 < t && t <= dist {
      assert t * t <= t * dist <= dist * dist;
    }
    assert Near(a, b, threshold) <==> 0.0 < t && (d2 as real) < t * t;
  }

  /** Every element lies strictly between lo and hi, checked front to back (see AllBetweenMeaning). */
  predicate AllBetween(s: seq<nat>, lo: int, hi: int) {
    s == [] || (lo < s[0] < hi && AllBetween(s[1..], lo, hi))
  }

  lemma {:induction false} AllBetweenMeaning(s: seq<nat>, lo: int, hi: int)
    ensures AllBetween(s, lo, hi) <==> forall p :: 0 <= p < |s| ==> lo < s[p] < hi
  {
    if s != [] {
      AllBetweenMeaning(s[1..], lo, hi);
      assert forall p :: 1 <= p < |s| ==> s[p] == s[1..][p - 1];
    }
  }

  lemma AllBetweenWiden(s: seq<nat>, lo: int, hi: int, lo': int, hi': int)
    requires AllBetween(s, lo, hi) && lo' <= lo && hi <= hi'
    ensures AllBetween(s, lo', hi')
  {
    AllBetweenMeaning(s, lo, hi);
    AllBetweenMeaning(s, lo', hi');
  }

  lemma AllBetweenAppend(s: seq<nat>, x: nat, lo: int, hi: int)
    requires AllBetween(s, lo, hi) && lo < x < hi
    ensures AllBetween(s + [x], lo, hi)
  {
    AllBetweenMeaning(s, lo, hi);
    AllBetweenMeaning(s + [x], lo, hi);
  }

  predicate Increasing(s: seq<nat>) {
    forall p, q :: 0 <= p < q < |s| ==> s[p] < s[q]
  }

  /** The indices a sequence contains. */
  function Elems(s: seq<nat>): set<nat> {
    if s == [] then {} else Elems(s[..|s| - 1]) + {s[|s| - 1]}
  }

  lemma {:induction false} ElemsMembership(s: seq<nat>)
    ensures forall k :: k in Elems(s) <==> k in s
  {
    if s != [] {
      ElemsMembership(s[..|s| - 1]);
      assert s == s[..|s| - 1] + [s[|s| - 1]];
    }
  }

  /** A sequence of indices below j does not contain j. */
  lemma ElemsBelow(s: seq<nat>, lo: int, j: nat)
    requires AllBetween(s, lo, j)
    ensures j !in Elems(s)
  {
    AllBetweenMeaning(s, lo, j);
    ElemsMembership(s);
  }

  /**
   * The regions that seed i absorbs among the candidates i < k < j: the
   * unused ones near the seed, in scan order (see AbsorbedMeaning).
   */
  function Absorbed(rs: seq<Region>, threshold: int, used: set<nat>, i: nat, j: nat): seq<nat>
    requires i < |rs| && j <= |rs|
  {
    if j <= i + 1 then []
    else
      var m := Absorbed(rs, threshold, used, i, j - 1);
      if j - 1 !in used && Near(rs[i], rs[j - 1], threshold) then m + [j - 1] else m
  }

  /** Every absorbed candidate lies strictly between the seed and the scan bound. */
  lemma {:induction false} AbsorbedRange(rs: seq<Region>, threshold: int, used: set<nat>, i: nat, j: nat)
    requires i < |rs| && j <= |rs|
    ensures AllBetween(Absorbed(rs, threshold, used, i, j), i, j)
  {
    if j > i + 1 {
      var m := Absorbed(rs, threshold, used, i, j - 1);
      AbsorbedRange(rs, threshold, used, i, j - 1);
      AllBetweenWiden(m, i, j - 1, i, j);
      if j - 1 !in used && Near(rs[i], rs[j - 1], threshold) {
        AllBetweenAppend(m, j - 1, i, j);
      }
    }
  }

  /** Absorbed lists exactly the unused near candidates below j, each once and in increasing order. */
  lemma {:induction false} AbsorbedMeaning(rs: seq<Region>, threshold: int, used: set<nat>, i: nat, j: nat)
    requires i < |rs| && j <= |rs|
    ensures forall k :: k in Absorbed(rs, threshold, used, i, j) <==>
                        (i < k < j && k !in used && Near(rs[i], rs[k], threshold))
    ensures Increasing(Absorbed(rs, threshold, used, i, j))
  {
    if j > i + 1 {
      AbsorbedMeaning(rs, threshold, used, i, j - 1);
      AbsorbedRange(rs, threshold, used, i, j - 1);
      AllBetweenMeaning(Absorbed(rs, threshold, used, i, j - 1), i, j - 1);
    }
  }

  /** The clusters the greedy pass emits from index i on, given the indices already used. */
  function StarFrom(rs: seq<Region>, threshold: int, used: set<nat>, i: nat): seq<seq<nat>>
    requires i <= |rs|
    decreases |rs| - i
  {
    if i == |rs| then []
    else if i in used then StarFrom(rs, threshold, used, i + 1)
    else
      var m := Absorbed(rs, threshold, used, i, |rs|);
      [[i] + m] + StarFrom(rs, threshold, used + {i} + Elems(m), i + 1)
  }

  /** The index clusters of a whole region list. */
  function StarClusters(rs: seq<Region>, threshold: int): (cs: seq<seq<nat>>)
    ensures IndicesIn(cs, |rs|)
  {
    StarFromShape(rs, threshold, {}, 0);
    StarFrom(rs, threshold, {}, 0)
  }

  /** Every index in a cluster the pass emits from i on lies in [i, |rs|). */
  lemma {:induction false} StarFromShape(rs: seq<Region>, threshold: int, used: set<nat>, i: nat)
    requires i <= |rs|
    decreases |rs| - i
    ensures forall c :: 0 <= c < |StarFrom(rs, threshold, used, i)| ==>
              AllBetween(StarFrom(rs, threshold, used, i)[c], i - 1, |rs|)
  {
    if i < |rs| {
      var cs := StarFrom(rs, threshold, used, i);
      if i in used {
        StarFromShape(rs, threshold, used, i + 1);
        assert cs == StarFrom(rs, threshold, used, i + 1);
        forall c | 0 <= c < |cs|
          ensures AllBetween(cs[c], i - 1, |rs|)
        {
          AllBetweenWiden(cs[c], i, |rs|, i - 1, |rs|);
        }
      } else {
        var m := Absorbed(rs, threshold, used, i, |rs|);
        var rest := StarFrom(rs, threshold, used + {i} + Elems(m), i + 1);
        StarFromShape(rs, threshold, used + {i} + Elems(m), i + 1);
        AbsorbedRange(rs, threshold, used, i, |rs|);
        AllBetweenWiden(m, i, |rs|, i - 1, |rs|);
        assert cs == [[i] + m] + rest;
        assert ([i] + m)[1..] == m;
        forall c | 0 <= c < |cs|
          ensures AllBetween(cs[c], i - 1, |rs|)
        {
          if c > 0 {
            assert cs[c] == rest[c - 1];
            AllBetweenWiden(rest[c - 1], i, |rs|, i - 1, |rs|);
          }
        }
      }
    }
  }

  /** Every index in the clusters is a position of a list of n regions. */
  predicate IndicesIn(cs: seq<seq<nat>>, n: nat) {
    forall c :: 0 <= c < |cs| ==> AllBetween(cs[c], -1, n)
  }

  /** The regions at the given indices, in the same order (see PickIndex). */
  function Pick(rs: seq<Region>, ks: seq<nat>): (c: seq<Region>)
    requires AllBetween(ks, -1, |rs|)
    ensures |c| == |ks|
  {
    if ks == [] then [] else [rs[ks[0]]] + Pick(rs, ks[1..])
  }

  /** Position p of the picked regions holds the region at index ks[p]. */
  lemma {:induction false} PickIndex(rs: seq<Region>, ks: seq<nat>)
    requires AllBetween(ks, -1, |rs|)
    ensures forall p :: 0 <= p < |ks| ==> ks[p] < |rs| && Pick(rs, ks)[p] == rs[ks[p]]
  {
    if ks != [] {
      PickIndex(rs, ks[1..]);
      assert forall p :: 1 <= p < |ks| ==> ks[p] == ks[1..][p - 1];
    }
  }

  lemma {:induction false} PickAppend(rs: seq<Region>, ks: seq<nat>, k: nat)
    requires AllBetween(ks, -1, |rs|) && k < |rs|
    ensures AllBetween(ks + [k], -1, |rs|) && Pick(rs, ks + [k]) == Pick(rs, ks) + [rs[k]]
  {
    AllBetweenAppend(ks, k, -1, |rs|);
    if ks != [] {
      assert (ks + [k])[1..] == ks[1..] + [k];
      PickAppend(rs, ks[1..], k);
    }
  }

  /** The region clusters named by index clusters (see MembersPick). */
  function Members(rs: seq<Region>, cs: seq<seq<nat>>): (out: seq<seq<Region>>)
    requires IndicesIn(cs, |rs|)
    ensures |out| == |cs|
  {
    if cs == [] then [] else Members(rs, cs[..|cs| - 1]) + [Pick(rs, cs[|cs| - 1])]
  }

  lemma MembersAppend(rs: seq<Region>, cs: seq<seq<nat>>, h: seq<nat>)
    requires IndicesIn(cs, |rs|) && AllBetween(h, -1, |rs|)
    ensures IndicesIn(cs + [h], |rs|) && Members(rs, cs + [h]) == Members(rs, cs) + [Pick(rs, h)]
  {
    assert (cs + [h])[..|cs|] == cs;
    assert (cs + [h])[|cs|] == h;
  }

  /** Cluster c of the region clusters holds the regions named by index cluster c. */
  lemma {:induction false} MembersPick(rs: seq<Region>, cs: seq<seq<nat>>)
    requires IndicesIn(cs, |rs|)
    ensures forall c :: 0 <= c < |cs| ==> Members(rs, cs)[c] == Pick(rs, cs[c])
  {
    if cs != [] {
      MembersPick(rs, cs[..|cs| - 1]);
    }
  }

  /** Some cluster holds index k. */
  predicate InSome(cs: seq<seq<nat>>, k: nat) {
    exists c :: 0 <= c < |cs| && k in cs[c]
  }

  /** The indices held by a list of clusters. */
  function Covered(cs: seq<seq<nat>>): set<nat> {
    if cs == [] then {} else Elems(cs[0]) + Covered(cs[1..])
  }

  lemma {:induction false} CoveredMeaning(cs: seq<seq<nat>>)
    ensures forall k :: k in Covered(cs) <==> InSome(cs, k)
  {
    if cs != [] {
      CoveredMeaning(cs[1..]);
      ElemsMembership(cs[0]);
      assert forall d :: 1 <= d < |cs| ==> cs[d] == cs[1..][d - 1];
    }
  }

  /**
   * The rule that built cluster h, given the indices already placed (used
   * before the pass, or in an earlier cluster): its seed h[0] is the
   * smallest index from lo on that is not yet placed, and a later index
   * joins it exactly when it is not yet placed and lies near the seed.
   */
  predicate SeedRule(rs: seq<Region>, threshold: int, placed: set<nat>, lo: nat, h: seq<nat>) {
    h != [] && h[0] < |rs| &&
    h[0] !in placed &&
    (forall k :: lo <= k < h[0] ==> k in placed) &&
    (forall k :: h[0] < k < |rs| ==> (k in h <==> k !in placed && Near(rs[h[0]], rs[k], threshold)))
  }

  lemma ElemsCons(i: nat, m: seq<nat>)
    ensures Elems([i] + m) == {i} + Elems(m)
  {
    ElemsMembership([i] + m);
    ElemsMembership(m);
  }

  /** The clusters before position c + 1 of [h] + rest are h and the clusters before position c of rest. */
  lemma CoveredCons(h: seq<nat>, rest: seq<seq<nat>>, c: nat)
    requires c <= |rest|
    ensures Covered(([h] + rest)[..c + 1]) == Elems(h) + Covered(rest[..c])
  {
    var cs := ([h] + rest)[..c + 1];
    assert cs[0] == h && cs[1..] == rest[..c];
  }

  /** A seed rule from lo + 1 on is one from lo on when lo is already placed. */
  lemma SeedRuleLower(rs: seq<Region>, threshold: int, placed: set<nat>, lo: nat, h: seq<nat>)
    requires SeedRule(rs, threshold, placed, lo + 1, h) && lo in placed
    ensures SeedRule(rs, threshold, placed, lo, h)
  {
  }

  lemma {:induction false} StarFromSeedRule(rs: seq<Region>, threshold: int, used: set<nat>, i: nat, c: nat)
    requires i <= |rs| && c < |StarFrom(rs, threshold, used, i)|
    decreases |rs| - i
    ensures SeedRule(rs, threshold, used + Covered(StarFrom(rs, threshold, used, i)[..c]), i,
                     StarFrom(rs, threshold, used, i)[c])
  {
    var cs := StarFrom(rs, threshold, used, i);
    if i in used {
      assert cs == StarFrom(rs, threshold, used, i + 1);
      StarFromSeedRule(rs, threshold, used, i + 1, c);
      SeedRuleLower(rs, threshold, used + Covered(cs[..c]), i, cs[c]);
    } else {
      var m := Absorbed(rs, threshold, used, i, |rs|);
      var used' := used + {i} + Elems(m);
      var rest := StarFrom(rs, threshold, used', i + 1);
      assert cs == [[i] + m] + rest;
      if c == 0 {
        AbsorbedMeaning(rs, threshold, used, i, |rs|);
        assert cs[..0] == [];
        assert used + Covered(cs[..0]) == used;
      } else {
        StarFromSeedRule(rs, threshold, used', i + 1, c - 1);
        assert cs[c] == rest[c - 1];
        CoveredCons([i] + m, rest, c - 1);
        ElemsCons(i, m);
        assert used + Covered(cs[..c]) == used' + Covered(rest[..c - 1]);
        SeedRuleLower(rs, threshold, used' + Covered(rest[..c - 1]), i, rest[c - 1]);
      }
    }
  }

  lemma {:induction false} StarFromAvoidsUsed(rs: seq<Region>, threshold: int, used: set<nat>, i: nat)
    requires i <= |rs|
    decreases |rs| - i
    ensures forall c, k :: 0 <= c < |StarFrom(rs, threshold, used, i)| && k in StarFrom(rs, threshold, used, i)[c]
              ==> k !in used
  {
    if i < |rs| {
      var cs := StarFrom(rs, threshold, used, i);
      if i in used {
        StarFromAvoidsUsed(rs, threshold, used, i + 1);
      } else {
        var m := Absorbed(rs, threshold, used, i, |rs|);
        var used' := used + {i} + Elems(m);
        var rest := StarFrom(rs, threshold, used', i + 1);
        assert cs == [[i] + m] + rest;
        AbsorbedMeaning(rs, threshold, used, i, |rs|);
        StarFromAvoidsUsed(rs, threshold, used', i + 1);
        assert forall c :: 1 <= c < |cs| ==> cs[c] == rest[c - 1];
      }
    }
  }

  lemma {:induction false} StarFromDisjoint(rs: seq<Region>, threshold: int, used: set<nat>, i: nat)
    requires i <= |rs|
    decreases |rs| - i
    ensures forall c1, c2, k ::
              (0 <= c1 < c2 < |StarFrom(rs, threshold, used, i)| && k in StarFrom(rs, threshold, used, i)[c1])
              ==> k !in StarFrom(rs, threshold, used, i)[c2]
  {
    if i < |rs| {
      var cs := StarFrom(rs, threshold, used, i);
      if i in used {
        StarFromDisjoint(rs, threshold, used, i + 1);
      } else {
        var m := Absorbed(rs, threshold, used, i, |rs|);
        var used' := used + {i} + Elems(m);
        var rest := StarFrom(rs, threshold, used', i + 1);
        assert cs == [[i] + m] + rest;
        StarFromDisjoint(rs, threshold, used', i + 1);
        StarFromAvoidsUsed(rs, threshold, used', i + 1);
        ElemsMembership(m);
        assert forall c :: 1 <= c < |cs| ==> cs[c] == rest[c - 1];
        assert forall k :: k in cs[0] ==> k in used';
      }
    }
  }

  lemma {:induction false} StarFromCovers(rs: seq<Region>, threshold: int, used: set<nat>, i: nat)
    requires i <= |rs|
    decreases |rs| - i
    ensures forall k :: i <= k < |rs| && k !in used ==> InSome(StarFrom(rs, threshold, used, i), k)
  {
    if i < |rs| {
      var cs := StarFrom(rs, threshold, used, i);
      if i in used {
        StarFromCovers(rs, threshold, used, i + 1);
        assert cs == StarFrom(rs, threshold, used, i + 1);
      } else {
        var m := Absorbed(rs, threshold, used, i, |rs|);
        var used' := used + {i} + Elems(m);
        var rest := StarFrom(rs, threshold, used', i + 1);
        assert cs == [[i] + m] + rest;
        StarFromCovers(rs, threshold, used', i + 1);
        ElemsMembership(m);
        forall k | i <= k < |rs| && k !in used
          ensures InSome(cs, k)
        {
          if k !in cs[0] {
            assert k !in used' && i + 1 <= k;
            assert InSome(rest, k);
            var c :| 0 <= c < |rest| && k in rest[c];
            assert cs[c + 1] == rest[c];
          }
        }
      }
    }
  }

  lemma {:induction false} StarFromIncreasing(rs: seq<Region>, threshold: int, used: set<nat>, i: nat)
    requires i <= |rs|
    decreases |rs| - i
    ensures forall c :: 0 <= c < |StarFrom(rs, threshold, used, i)| ==>
              StarFrom(rs, threshold, used, i)[c] != [] && Increasing(StarFrom(rs, threshold, used, i)[c])
  {
    if i < |rs| {
      var cs := StarFrom(rs, threshold, used, i);
      if i in used {
        StarFromIncreasing(rs, threshold, used, i + 1);
      } else {
        var m := Absorbed(rs, threshold, used, i, |rs|);
        var used' := used + {i} + Elems(m);
        var rest := StarFrom(rs, threshold, used', i + 1);
        assert cs == [[i] + m] + rest;
        StarFromIncreasing(rs, threshold, used', i + 1);
        AbsorbedMeaning(rs, threshold, used, i, |rs|);
        AbsorbedRange(rs, threshold, used, i, |rs|);
        AllBetweenMeaning(m, i, |rs|);
        var h := [i] + m;
        assert forall q :: 1 <= q < |h| ==> h[q] == m[q - 1];
        assert Increasing(h);
        assert forall c :: 1 <= c < |cs| ==> cs[c] == rest[c - 1];
      }
    }
  }

  /**
   * The clusters partition the region indices 0 .. n - 1: each cluster is
   * non-empty and lists its indices once each in increasing order, every
   * index lies in some cluster, and no index lies in two.
   */
  predicate Partition(cs: seq<seq<nat>>, n: nat) {
    IndicesIn(cs, n) &&
    (forall c :: 0 <= c < |cs| ==> cs[c] != [] && Increasing(cs[c])) &&
    (forall k :: 0 <= k < n ==> InSome(cs, k)) &&
    (forall c1, c2, k :: 0 <= c1 < c2 < |cs| && k in cs[c1] ==> k !in cs[c2])
  }

  /** Every region ends up in exactly one cluster. */
  lemma ClusterPartition(rs: seq<Region>, threshold: int)
    ensures Partition(StarClusters(rs, threshold), |rs|)
  {
    StarFromIncreasing(rs, threshold, {}, 0);
    StarFromCovers(rs, threshold, {}, 0);
    StarFromDisjoint(rs, threshold, {}, 0);
  }

  /**
   * Cluster c is seeded by the first region that no earlier cluster holds,
   * and a later region joins it exactly when no earlier cluster holds it and
   * it lies near that seed; nearness to other members plays no part.
   */
  lemma ClusterSeedRule(rs: seq<Region>, threshold: int, c: nat)
    requires c < |StarClusters(rs, threshold)|
    ensures SeedRule(rs, threshold, Covered(StarClusters(rs, threshold)[..c]), 0, StarClusters(rs, threshold)[c])
  {
    StarFromSeedRule(rs, threshold, {}, 0, c);
    assert {} + Covered(StarClusters(rs, threshold)[..c]) == Covered(StarClusters(rs, threshold)[..c]);
  }

  /**
   * A non-empty region list has a first cluster; it is seeded by region 0
   * and holds exactly the later regions near region 0.
   */
  lemma FirstCluster(rs: seq<Region>, threshold: int)
    requires rs != []
    ensures |StarClusters(rs, threshold)| > 0
    ensures StarClusters(rs, threshold)[0] != [] && StarClusters(rs, threshold)[0][0] == 0
    ensures forall k :: 0 < k < |rs| ==> (k in StarClusters(rs, threshold)[0] <==> Near(rs[0], rs[k], threshold))
  {
    var cs := StarClusters(rs, threshold);
    ClusterPartition(rs, threshold);
    assert InSome(cs, 0);
    ClusterSeedRule(rs, threshold, 0);
    assert cs[..0] == [];
  }

  /** An index held by some cluster of a list is covered by the list. */
  lemma {:induction false} CoveredHolds(cs: seq<seq<nat>>, c: nat, k: nat)
    requires c < |cs| && k in cs[c]
    ensures k in Covered(cs)
  {
    if c == 0 {
      ElemsMembership(cs[0]);
    } else {
      assert cs[1..][c - 1] == cs[c];
      CoveredHolds(cs[1..], c - 1, k);
    }
  }

  /** Clusters come out in increasing order of their seeds. */
  lemma ClusterSeedsIncrease(rs: seq<Region>, threshold: int, c1: nat, c2: nat)
    requires c1 < c2 < |StarClusters(rs, threshold)|
    ensures StarClusters(rs, threshold)[c1] != [] && StarClusters(rs, threshold)[c2] != []
    ensures StarClusters(rs, threshold)[c1][0] < StarClusters(rs, threshold)[c2][0]
  {
    var cs := StarClusters(rs, threshold);
    var early, late := cs[..c1], cs[..c2];
    ClusterSeedRule(rs, threshold, c1);
    ClusterSeedRule(rs, threshold, c2);
    var s1, s2 := cs[c1][0], cs[c2][0];
    assert s1 != s2 by {
      assert late[c1] == cs[c1];
      CoveredHolds(late, c1, s1);
    }
    if s2 < s1 {
      assert s2 in Covered(early);
      CoveredMeaning(early);
      var d :| 0 <= d < |early| && s2 in early[d];
      assert late[d] == early[d];
      CoveredHolds(late, d, s2);
      assert false;
    }
  }

  /** Three windows in a row, 6 pixels apart. */
  const CHAIN: seq<Region> := [Region(0, 0, 8, 0.5), Region(6, 0, 8, 0.5), Region(12, 0, 8, 0.5)]

  lemma ChainAbsorbed()
    ensures Absorbed(CHAIN, 8, {}, 0, |CHAIN|) == [1]
  {
    assert Near(CHAIN[0], CHAIN[1], 8) && !Near(CHAIN[0], CHAIN[2], 8);
    assert Absorbed(CHAIN, 8, {}, 0, 1) == [];
    assert Absorbed(CHAIN, 8, {}, 0, 2) == [1];
  }

  lemma ChainRest()
    ensures StarFrom(CHAIN, 8, {0, 1}, 1) == [[2]]
  {
    assert StarFrom(CHAIN, 8, {0, 1}, 1) == StarFrom(CHAIN, 8, {0, 1}, 2);
    assert Absorbed(CHAIN, 8, {0, 1}, 2, |CHAIN|) == [];
    assert StarFrom(CHAIN, 8, {0, 1} + {2} + Elems([]), 3) == [];
    assert [2] + [] == [2] && [[2]] + [] == [[2]];
  }

  /**
   * Clustering is not transitive: the middle window is near both others,
   * but the last is not near the seed, so it starts a cluster of its own.
   */
  lemma SeedOnlyExample()
    ensures Near(CHAIN[0], CHAIN[1], 8) && Near(CHAIN[1], CHAIN[2], 8) && !Near(CHAIN[0], CHAIN[2], 8)
    ensures StarClusters(CHAIN, 8) == [[0, 1], [2]]
  {
    ChainAbsorbed();
    ChainRest();
    assert Elems([1]) == Elems([]) + {1};
    assert {} + {0} + Elems([1]) == {0, 1};
    assert [0] + [1] == [0, 1];
    assert StarFrom(CHAIN, 8, {}, 0) == [[0, 1]] + [[2]];
  }

  /** One step of the inner scan: what candidate j adds to the absorbed indices, their set and their regions. */
  lemma AbsorbStep(rs: seq<Region>, threshold: int, used: set<nat>, i: nat, j: nat)
    requires i < j < |rs|
    requires AllBetween(Absorbed(rs, threshold, used, i, j), i, j)
    requires AllBetween(Absorbed(rs, threshold, used, i, j), -1, |rs|)
    ensures j !in Elems(Absorbed(rs, threshold, used, i, j))
    ensures AllBetween(Absorbed(rs, threshold, used, i, j + 1), i, j + 1)
    ensures AllBetween(Absorbed(rs, threshold, used, i, j + 1), -1, |rs|)
    ensures j !in used && Near(rs[i], rs[j], threshold) ==>
              Elems(Absorbed(rs, threshold, used, i, j + 1)) == Elems(Absorbed(rs, threshold, used, i, j)) + {j} &&
              Pick(rs, Absorbed(rs, threshold, used, i, j + 1)) == Pick(rs, Absorbed(rs, threshold, used, i, j)) + [rs[j]]
    ensures !(j !in used && Near(rs[i], rs[j], threshold)) ==>
              Absorbed(rs, threshold, used, i, j + 1) == Absorbed(rs, threshold, used, i, j)
  {
    var m := Absorbed(rs, threshold, used, i, j);
    ElemsBelow(m, i, j);
    AllBetweenWiden(m, i, j, i, j + 1);
    if j !in used && Near(rs[i], rs[j], threshold) {
      assert Absorbed(rs, threshold, used, i, j + 1) == m + [j];
      assert (m + [j])[..|m|] == m;
      AllBetweenAppend(m, j, i, j + 1);
      PickAppend(rs, m, j);
    }
  }

  /**
   * The inner scan of the clustering pass: start a cluster at seed i, then
   * walk the later regions in order, appending and marking as used each one
   * that is not yet used and lies near the seed.
   */
  method GrowCluster(regions: seq<Region>, threshold: int, used: set<nat>, i: nat)
    returns (cluster: seq<Region>, usedAfter: set<nat>)
    requires i < |regions| && i !in used
    ensures AllBetween(Absorbed(regions, threshold, used, i, |regions|), -1, |regions|)
    ensures cluster == [regions[i]] + Pick(regions, Absorbed(regions, threshold, used, i, |regions|))
    ensures usedAfter == used + {i} + Elems(Absorbed(regions, threshold, used, i, |regions|))
  {
    cluster := [regions[i]];
    usedAfter := used + {i};
    var j: nat := i + 1;
    while j < |regions|
      invariant i < j <= |regions|
      invariant AllBetween(Absorbed(regions, threshold, used, i, j), i, j)
      invariant AllBetween(Absorbed(regions, threshold, used, i, j), -1, |regions|)
      invariant usedAfter == used + {i} + Elems(Absorbed(regions, threshold, used, i, j))
      invariant cluster == [regions[i]] + Pick(regions, Absorbed(regions, threshold, used, i, j))
    {
      AbsorbStep(regions, threshold, used, i, j);
      assert j in usedAfter <==> j in used;
      if j !in usedAfter && Near(regions[i], regions[j], threshold) {
        ConcatAssoc([regions[i]], Pick(regions, Absorbed(regions, threshold, used, i, j)), [regions[j]]);
        cluster := cluster + [regions[j]];
        usedAfter := usedAfter + {j};
      }
      j := j + 1;
    }
  }

  /**
   * The clustering pass: every region not yet used seeds a new cluster,
   * which GrowCluster fills from the regions after it.
   */
  method ClusterRegions(regions: seq<Region>, threshold: int) returns (clusters: seq<seq<Region>>)
    ensures clusters == Members(regions, StarClusters(regions, threshold))
  {
    clusters := [];
    var used: set<nat> := {};
    ghost var seeded: seq<seq<nat>> := [];
    var i: nat := 0;
    while i < |regions|
      invariant i <= |regions|
      invariant IndicesIn(seeded, |regions|)
      invariant seeded + StarFrom(regions, threshold, used, i) == StarClusters(regions, threshold)
      invariant clusters == Members(regions, seeded)
    {
      if i !in used {
        ghost var before := used;
        ghost var m := Absorbed(regions, threshold, used, i, |regions|);
        ghost var h := [i] + m;
        var cluster;
        cluster, used := GrowCluster(regions, threshold, used, i);
        assert StarFrom(regions, threshold, before, i) == [h] + StarFrom(regions, threshold, used, i + 1);
        ConcatAssoc(seeded, [h], StarFrom(regions, threshold, used, i + 1));
        assert h[1..] == m;
        assert cluster == Pick(regions, h);
        MembersAppend(regions, seeded, h);
        clusters := clusters + [cluster];
        seeded := seeded + [h];
      } else {
        assert StarFrom(regions, threshold, used, i) == StarFrom(regions, threshold, used, i + 1);
      }
      i := i + 1;
    }
    assert StarFrom(regions, threshold, used, i) == [];
    assert seeded + [] == seeded;
  }
}
