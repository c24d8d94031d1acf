/** The sprite-group operations the game controller performs on its bullets and
    aliens: dropping bullets that left the top of the screen, and removing the
    members that `groupcollide` reports as hit. A group is a sequence in
    insertion order; a member is named by its index. */
module Groups {

  /** The bottoms of the bullets `_update_bullets` keeps: those with `bottom > 0`,
      in their original order. */
  function Survivors(bottoms: seq<int>): (kept: seq<int>)
    ensures |kept| <= |bottoms|
    ensures forall i :: 0 <= i < |kept| ==> kept[i] > 0
  {
    if bottoms == [] then []
    else
      var last := bottoms[|bottoms| - 1];
      Survivors(bottoms[..|bottoms| - 1]) + (if last > 0 then [last] else [])
  }

  /** Pruning one more bullet of a group keeps it exactly when its bottom is below the top edge. */
  lemma SurvivorsStep(bottoms: seq<int>, i: nat)
    requires i < |bottoms|
    ensures Survivors(bottoms[..i + 1]) == Survivors(bottoms[..i]) + (if bottoms[i] > 0 then [bottoms[i]] else [])
  {
    assert bottoms[..i + 1][..i] == bottoms[..i];
  }

  /** Pruning keeps order: pruning a group made of two parts is pruning each part
      and putting the results side by side. */
  lemma {:induction false} SurvivorsAppend(front: seq<int>, back: seq<int>)
    ensures Survivors(front + back) == Survivors(front) + Survivors(back)
  {
    if back != [] {
      var init, last := back[..|back| - 1], back[|back| - 1];
      SurvivorsAppend(front, init);
      assert (front + back)[..|front + back| - 1] == front + init;
    } else {
      assert front + back == front;
    }
  }

  /** Pruning is exact: every bottom `b > 0` keeps its multiplicity and every
      bottom `b <= 0` is gone. */
  lemma {:induction false} SurvivorsCount(bottoms: seq<int>, b: int)
    ensures multiset(Survivors(bottoms))[b] == if b > 0 then multiset(bottoms)[b] else 0
  {
    if bottoms != [] {
      var init, last := bottoms[..|bottoms| - 1], bottoms[|bottoms| - 1];
      assert bottoms == init + [last];
      SurvivorsCount(init, b);
    }
  }

  /** Pruning a group with nothing above the top edge changes nothing, so pruning twice
      is the same as pruning once. */
  lemma {:induction false} SurvivorsKeepsAll(bottoms: seq<int>)
    requires forall i :: 0 <= i < |bottoms| ==> bottoms[i] > 0
    ensures Survivors(bottoms) == bottoms
  {
    if bottoms != [] {
      var init := bottoms[..|bottoms| - 1];
      SurvivorsKeepsAll(init);
      assert bottoms == init + [bottoms[|bottoms| - 1]];
    }
  }

  lemma SurvivorsIdempotent(bottoms: seq<int>)
    ensures Survivors(Survivors(bottoms)) == Survivors(bottoms)
  {
    SurvivorsKeepsAll(Survivors(bottoms));
  }

  /** One step of the in-place pruning loop: with the first `i` bullets of `copy`
      already pruned, the group is `done + copy[i..]`; removing its element at
      `|done|` (when `copy[i] <= 0`) or keeping it gives the group for `i + 1`. */
  lemma PruneStep(copy: seq<int>, i: nat, done: seq<int>)
    requires i < |copy| && done == Survivors(copy[..i])
    ensures var group := done + copy[i..];
      && |done| < |group| && group[|done|] == copy[i]
      && (copy[i] <= 0 ==> Survivors(copy[..i + 1]) == done && group[..|done|] + group[|done| + 1..] == done + copy[i + 1..])
      && (copy[i] > 0 ==> Survivors(copy[..i + 1]) == done + [copy[i]] && group == Survivors(copy[..i + 1]) + copy[i + 1..])
  {
    SurvivorsStep(copy, i);
    var group := done + copy[i..];
    assert copy[i..] == [copy[i]] + copy[i + 1..];
    assert group[..|done|] == done;
    assert group[|done| + 1..] == copy[i + 1..];
  }

  /** The group `s` with the members at the indices in `drop` removed, the others
      keeping their order. */
  function Without<T>(s: seq<T>, drop: set<nat>): (r: seq<T>)
    ensures |r| <= |s|
  {
    if s == [] then []
    else Without(s[..|s| - 1], drop) + (if |s| - 1 in drop then [] else [s[|s| - 1]])
  }

  /** Removing `k` distinct members leaves `|s| - k`. */
  lemma {:induction false} WithoutSize<T>(s: seq<T>, drop: set<nat>)
    requires forall i :: i in drop ==> i < |s|
    ensures |Without(s, drop)| == |s| - |drop|
  {
    if s != [] {
      var n := |s| - 1;
      var rest := drop - {n};
      WithoutSize(s[..n], rest);
      WithoutIgnoresOutside(s[..n], drop, rest);
    }
  }

  /** Indices at or beyond the end of the group do not matter. */
  lemma {:induction false} WithoutIgnoresOutside<T>(s: seq<T>, drop: set<nat>, drop': set<nat>)
    requires forall i :: 0 <= i < |s| ==> (i in drop <==> i in drop')
    ensures Without(s, drop) == Without(s, drop')
  {
    if s != [] {
      WithoutIgnoresOutside(s[..|s| - 1], drop, drop');
    }
  }

  /** A member survives the removal exactly when some occurrence of it sits at an
      index outside `drop`. */
  lemma {:induction false} WithoutMembers<T>(s: seq<T>, drop: set<nat>, x: T)
    ensures x in Without(s, drop) <==> exists i :: 0 <= i < |s| && i !in drop && s[i] == x
  {
    if s != [] {
      var n := |s| - 1;
      WithoutMembers(s[..n], drop, x);
      if x in Without(s, drop) && x !in Without(s[..n], drop) {
        assert n !in drop && s[n] == x;
      }
      if exists i :: 0 <= i < |s| && i !in drop && s[i] == x {
        var i :| 0 <= i < |s| && i !in drop && s[i] == x;
        if i < n {
          assert s[..n][i] == x;
        }
      }
    }
  }

  // ---------------------------------------------------------------------------
  // The result of `groupcollide(bullets, aliens, True, True)`

  /** Each hit bullet (a key) maps to the non-empty set of aliens it destroyed;
      an alien is destroyed by at most one bullet. */
  predicate WellFormedHits(hits: map<nat, set<nat>>, bulletCount: nat, alienCount: nat)
  {
    && (forall b :: b in hits ==> b < bulletCount && hits[b] != {})
    && (forall b, a :: b in hits && a in hits[b] ==> a < alienCount)
    && (forall b, b' :: b in hits && b' in hits && b != b' ==> hits[b] !! hits[b'])
  }

  /** Every alien some bullet destroyed. */
  function HitAliens(hits: map<nat, set<nat>>): set<nat>
  {
    set b, a | b in hits && a in hits[b] :: a
  }

  /** `groupcollide` destroys only aliens of the group and reports only bullets of
      the group: there are at most `bulletCount` hit bullets and at most
      `alienCount` destroyed aliens, every one of them an index of the group. */
  lemma HitAliensInRange(hits: map<nat, set<nat>>, bulletCount: nat, alienCount: nat)
    requires WellFormedHits(hits, bulletCount, alienCount)
    ensures forall a :: a in HitAliens(hits) ==> a < alienCount
    ensures |hits| <= bulletCount && |HitAliens(hits)| <= alienCount
  {
    forall a | a in HitAliens(hits)
      ensures a < alienCount
    {
      var b :| b in hits && a in hits[b];
    }
    WithoutSize(seq(alienCount, i => 0), HitAliens(hits));
    assert |hits| == |hits.Keys|;
    WithoutSize(seq(bulletCount, i => 0), hits.Keys);
  }

  /** `len(collisions)` counts hit bullets, not destroyed aliens: it is never more than
      the number of aliens destroyed, equal to it exactly when every hit bullet
      destroyed one alien, and smaller as soon as one bullet destroyed two or more. */
  lemma {:induction false} HitBulletsAtMostHitAliens(hits: map<nat, set<nat>>, bulletCount: nat, alienCount: nat)
    requires WellFormedHits(hits, bulletCount, alienCount)
    ensures |hits| <= |HitAliens(hits)|
    ensures (forall b :: b in hits ==> |hits[b]| == 1) ==> |HitAliens(hits)| == |hits|
    ensures (exists b :: b in hits && |hits[b]| > 1) ==> |hits| < |HitAliens(hits)|
    ensures |HitAliens(hits)| == |hits| <==> (forall b :: b in hits ==> |hits[b]| == 1)
    decreases |hits|
  {
    if hits != map[] {
      var k :| k in hits;
      var rest := hits - {k};
      assert rest.Keys == hits.Keys - {k};
      assert |rest| == |hits| - 1 by {
        assert |rest| == |rest.Keys| && |hits| == |hits.Keys|;
      }
      HitBulletsAtMostHitAliens(rest, bulletCount, alienCount);
      HitAliensSplit(hits, k, bulletCount, alienCount);
      assert |HitAliens(hits)| == |HitAliens(rest)| + |hits[k]|;
      assert hits[k] != {};
      if exists b :: b in hits && |hits[b]| > 1 {
        var b :| b in hits && |hits[b]| > 1;
        if b != k {
          assert b in rest && |rest[b]| > 1;
        }
      }
      assert forall b :: b in hits ==> |hits[b]| >= 1 by {
        forall b | b in hits ensures |hits[b]| >= 1 { assert hits[b] != {}; }
      }
    }
  }

  /** Taking out one hit bullet splits the destroyed aliens into two disjoint parts. */
  lemma HitAliensSplit(hits: map<nat, set<nat>>, k: nat, bulletCount: nat, alienCount: nat)
    requires WellFormedHits(hits, bulletCount, alienCount) && k in hits
    ensures HitAliens(hits) == HitAliens(hits - {k}) + hits[k]
    ensures HitAliens(hits - {k}) !! hits[k]
  {
    var rest := hits - {k};
    forall a | a in HitAliens(rest)
      ensures a in HitAliens(hits) && a !in hits[k]
    {
      var b :| b in rest && a in rest[b];
      assert b in hits && a in hits[b];
      assert hits[b] !! hits[k];
    }
    forall a | a in hits[k]
      ensures a in HitAliens(hits)
    {
      assert k in hits && a in hits[k];
    }
    forall a | a in HitAliens(hits) && a !in hits[k]
      ensures a in HitAliens(rest)
    {
      var b :| b in hits && a in hits[b];
      assert b != k;
      assert b in rest && a in rest[b];
    }
  }
}
