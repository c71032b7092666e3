/** Overlap removal in the ground truth (`large_process_overlap`,
    graph.cpp:1327-1375): every id listed in several communities is kept
    only in the one that is largest when the id is processed, and removed
    from the others.  The `QMap<int,int>` built with `insertMulti` is modelled
    by what it answers: `values(id)` lists the communities of `id` most
    recent first, and `keys()` lists the ids in ascending order, an id with
    several values as many times. */
module Overlap {
  import opened Lists

  /** How many times `x` is listed in `s`. */
  function Count(s: seq<nat>, x: nat): nat
  {
    multiset(s)[x]
  }

  /** `k` copies of `v`. */
  function Repeat(v: nat, k: nat): (r: seq<nat>)
    ensures |r| == k && forall i :: 0 <= i < k ==> r[i] == v
  {
    seq(k, _ => v)
  }

  /** `map.values(id)` after the insertion loop: one entry per occurrence of
      `id`, naming its community, the most recently inserted first. */
  function Values(gt: seq<seq<nat>>, id: nat): seq<nat>
  {
    if gt == [] then []
    else Repeat(|gt| - 1, Count(gt[|gt| - 1], id)) + Values(gt[..|gt| - 1], id)
  }

  /** `map.keys()` for the ids below `b`: ascending, each id once per value. */
  function SortedKeys(m: map<nat, seq<nat>>, b: nat): seq<nat>
  {
    if b == 0 then []
    else SortedKeys(m, b - 1) + (if b - 1 in m then Repeat(b - 1, |m[b - 1]|) else [])
  }

  /** A number above every element of `s`. */
  function Bound(s: seq<nat>): (b: nat)
    ensures forall i :: 0 <= i < |s| ==> s[i] < b
  {
    if s == [] then 0
    else
      var b := Bound(s[..|s| - 1]);
      var x := s[|s| - 1];
      if x + 1 > b then x + 1 else b
  }

  // ---------------------------------------------------------------------
  // Building the map (graph.cpp:1328-1340)
  // ---------------------------------------------------------------------

  /** The map from each id to the communities listing it: `insert` for a new
      id and `insertMulti` for a known one both put the community in front. */
  method GroupByMember(gt: seq<seq<nat>>) returns (m: map<nat, seq<nat>>)
    ensures forall id :: id in m <==> |Values(gt, id)| > 0
    ensures forall id :: id in m ==> m[id] == Values(gt, id)
  {
    m := map[];
    var i := 0;
    while i < |gt|
      invariant 0 <= i <= |gt|
      invariant Grouped(m, gt[..i], [])
    {
      var c := gt[i];
      ghost var prev := gt[..i];
      var j := 0;
      while j < |c|
        invariant 0 <= j <= |c|
        invariant Grouped(m, prev, c[..j])
      {
        ghost var m0 := m;
        var id := c[j];
        if id !in m {
          m := m[id := [i]];
        } else {
          m := m[id := [i] + m[id]];
        }
        GroupInsert(m0, m, prev, c, j);
        j := j + 1;
      }
      assert c[..j] == c;
      GroupNext(m, prev, c, gt[..i + 1]);
      i := i + 1;
    }
    assert gt[..i] == gt;
  }

  /** `m` holds the values of the communities `prev` followed by the first
      ids `part` of the community being read. */
  ghost predicate Grouped(m: map<nat, seq<nat>>, prev: seq<seq<nat>>, part: seq<nat>)
  {
    && (forall id :: id in m <==> Count(part, id) + |Values(prev, id)| > 0)
    && (forall id :: id in m ==> m[id] == Repeat(|prev|, Count(part, id)) + Values(prev, id))
  }

  /** Inserting the next id of the community being read. */
  lemma GroupInsert(m0: map<nat, seq<nat>>, m: map<nat, seq<nat>>, prev: seq<seq<nat>>, c: seq<nat>, j: nat)
    requires j < |c| && Grouped(m0, prev, c[..j])
    requires m == if c[j] !in m0 then m0[c[j] := [|prev|]] else m0[c[j] := [|prev|] + m0[c[j]]]
    ensures Grouped(m, prev, c[..j + 1])
  {
    CountSnoc(c, j);
    RepeatCons(|prev|, Count(c[..j], c[j]));
  }

  /** A community read to its end joins the finished ones. */
  lemma GroupNext(m: map<nat, seq<nat>>, prev: seq<seq<nat>>, c: seq<nat>, next: seq<seq<nat>>)
    requires Grouped(m, prev, c) && next == prev + [c]
    ensures Grouped(m, next, [])
  {
    forall id ensures Values(next, id) == Repeat(|prev|, Count(c, id)) + Values(prev, id) {
      ValuesSnoc(prev, c, id);
    }
  }

  /** Counting in a list extended by its next element. */
  lemma CountSnoc(c: seq<nat>, j: nat)
    requires j < |c|
    ensures Count(c[..j + 1], c[j]) == Count(c[..j], c[j]) + 1
    ensures forall x :: x != c[j] ==> Count(c[..j + 1], x) == Count(c[..j], x)
  {
    assert c[..j + 1] == c[..j] + [c[j]];
  }

  /** One more copy goes in front. */
  lemma RepeatCons(v: nat, k: nat)
    ensures Repeat(v, k + 1) == [v] + Repeat(v, k)
  {
  }

  /** The values of a partition extended by one community. */
  lemma ValuesSnoc(gt: seq<seq<nat>>, c: seq<nat>, id: nat)
    ensures Values(gt + [c], id) == Repeat(|gt|, Count(c, id)) + Values(gt, id)
  {
    assert (gt + [c])[..|gt|] == gt;
  }

  // ---------------------------------------------------------------------
  // What the map answers
  // ---------------------------------------------------------------------

  /** `values(id)` names exactly the communities that list `id`. */
  lemma {:induction false} ValuesMembership(gt: seq<seq<nat>>, id: nat)
    ensures forall c: nat :: c in Values(gt, id) <==> c < |gt| && id in gt[c]
  {
    if gt != [] {
      var k := |gt| - 1;
      var front := Repeat(k, Count(gt[k], id));
      assert Values(gt, id) == front + Values(gt[..k], id);
      ValuesMembership(gt[..k], id);
      assert id in gt[k] ==> front[0] == k;
      forall c: nat ensures c in Values(gt, id) <==> c < |gt| && id in gt[c] {
        assert c in front <==> c == k && id in gt[k];
        if c < k {
          assert gt[..k][c] == gt[c];
        }
      }
    }
  }

  /** No community lists an id twice. */
  ghost predicate NoRepeats(gt: seq<seq<nat>>)
  {
    forall c, x :: 0 <= c < |gt| ==> Count(gt[c], x) <= 1
  }

  /** Without repeats inside a community, `values(id)` is strictly decreasing,
      so it names each community at most once. */
  lemma {:induction false} ValuesDescending(gt: seq<seq<nat>>, id: nat)
    requires NoRepeats(gt)
    ensures forall i, j :: 0 <= i < j < |Values(gt, id)| ==> Values(gt, id)[i] > Values(gt, id)[j]
  {
    if gt != [] {
      var k := |gt| - 1;
      assert NoRepeats(gt[..k]) by {
        forall c, x | 0 <= c < k ensures Count(gt[..k][c], x) <= 1 {
          assert gt[..k][c] == gt[c];
        }
      }
      var front := Repeat(k, Count(gt[k], id));
      var rest := Values(gt[..k], id);
      assert Values(gt, id) == front + rest;
      assert |front| <= 1;
      ValuesDescending(gt[..k], id);
      ValuesMembership(gt[..k], id);
      forall i, j | 0 <= i < j < |front + rest| ensures (front + rest)[i] > (front + rest)[j] {
        var r: nat := rest[j - |front|];
        assert r in rest;
        if i >= |front| {
          assert (front + rest)[i] == rest[i - |front|];
        }
      }
    }
  }

  /** The keys come in ascending order, each below the bound. */
  lemma {:induction false} KeysSorted(m: map<nat, seq<nat>>, b: nat)
    ensures forall i :: 0 <= i < |SortedKeys(m, b)| ==> SortedKeys(m, b)[i] < b
    ensures forall i, j :: 0 <= i < j < |SortedKeys(m, b)| ==> SortedKeys(m, b)[i] <= SortedKeys(m, b)[j]
  {
    if b > 0 {
      KeysSorted(m, b - 1);
    }
  }

  /** An id is among the keys exactly when it is below the bound and has a value. */
  lemma {:induction false} KeysMembership(m: map<nat, seq<nat>>, b: nat, x: nat)
    ensures x in SortedKeys(m, b) <==> x < b && x in m && |m[x]| > 0
  {
    if b > 0 {
      KeysMembership(m, b - 1, x);
      KeysSorted(m, b - 1);
      var extra := if b - 1 in m then Repeat(b - 1, |m[b - 1]|) else [];
      assert SortedKeys(m, b) == SortedKeys(m, b - 1) + extra;
      if x == b - 1 && x in m && |m[x]| > 0 {
        assert extra[0] == x;
      }
    }
  }

  // ---------------------------------------------------------------------
  // One key (graph.cpp:1345-1368)
  // ---------------------------------------------------------------------

  /** Position `chosen` of `comms` names a community of the largest current
      size, and every earlier position a strictly smaller one: the first
      maximum, which the `>` comparison starting from -1 finds. */
  ghost predicate FirstLargest(gt: seq<seq<nat>>, comms: seq<nat>, chosen: int)
    requires forall i :: 0 <= i < |comms| ==> comms[i] < |gt|
  {
    && 0 <= chosen < |comms|
    && (forall i :: 0 <= i < |comms| ==> |gt[comms[i]]| <= |gt[comms[chosen]]|)
    && (forall i :: 0 <= i < chosen ==> |gt[comms[i]]| < |gt[comms[chosen]]|)
  }

  /** The scan for the largest community among `comms` (graph.cpp:1350-1360). */
  method ChooseLargest(gt: seq<seq<nat>>, comms: seq<nat>) returns (chosen: int)
    requires forall i :: 0 <= i < |comms| ==> comms[i] < |gt|
    ensures |comms| == 0 ==> chosen == -1
    ensures |comms| > 0 ==> FirstLargest(gt, comms, chosen)
  {
    var largest := -1;
    chosen := -1;
    var i := 0;
    while i < |comms|
      invariant 0 <= i <= |comms|
      invariant i == 0 ==> chosen == -1 && largest == -1
      invariant i > 0 ==> 0 <= chosen < i && largest == |gt[comms[chosen]]|
      invariant forall k :: 0 <= k < i ==> |gt[comms[k]]| <= largest
      invariant forall k :: 0 <= k < chosen ==> |gt[comms[k]]| < largest
    {
      var size := |gt[comms[i]]|;
      if size > largest {
        largest := size;
        chosen := i;
      }
      i := i + 1;
    }
  }

  /** `gt` with `id` removed once from every community named in `cs` other than `keep`. */
  function Detach(gt: seq<seq<nat>>, cs: seq<nat>, keep: nat, id: nat): (r: seq<seq<nat>>)
    ensures |r| == |gt|
  {
    seq(|gt|, c requires 0 <= c < |gt| => if c in cs && c != keep then RemoveOne(gt[c], id) else gt[c])
  }

  /** `after` differs from `before` only by copies of `id` taken out. */
  ghost predicate OnlyRemoved(before: seq<seq<nat>>, after: seq<seq<nat>>, id: nat)
  {
    && |after| == |before|
    && (forall c, x :: 0 <= c < |after| && x != id ==> Count(after[c], x) == Count(before[c], x))
    && (forall c :: 0 <= c < |after| ==> Count(after[c], id) <= Count(before[c], id))
  }

  /** The body of the key loop for one id whose communities are `comms`:
      when there are several, the first largest is kept (`chosen` is its
      position) and `id` is removed once from each other one. */
  method ResolveKey(gt: seq<seq<nat>>, id: nat, comms: seq<nat>) returns (gt': seq<seq<nat>>, ghost chosen: int)
    requires forall i :: 0 <= i < |comms| ==> comms[i] < |gt|
    ensures |comms| <= 1 ==> gt' == gt
    ensures |comms| > 1 ==> FirstLargest(gt, comms, chosen)
    ensures |comms| > 1 && Distinct(comms) ==> gt' == Detach(gt, comms, comms[chosen], id)
    ensures OnlyRemoved(gt, gt', id)
  {
    gt' := gt;
    chosen := -1;
    if |comms| > 1 {
      var chosenComm := ChooseLargest(gt, comms);
      chosen := chosenComm;
      var keep := comms[chosenComm];
      var i := 0;
      while i < |comms|
        invariant 0 <= i <= |comms|
        invariant OnlyRemoved(gt, gt', id)
        invariant Distinct(comms) ==> gt' == Detach(gt, comms[..i], keep, id)
      {
        if i != chosenComm {
          var c := comms[i];
          ghost var g0 := gt';
          gt' := gt'[c := RemoveOne(gt'[c], id)];
          OnlyRemovedStep(gt, g0, gt', c, id);
          if Distinct(comms) {
            DetachStep(gt, comms, i, keep, id, g0, gt');
          }
        } else if Distinct(comms) {
          DetachSkip(gt, comms, i, keep, id);
        }
        i := i + 1;
      }
      assert comms[..i] == comms;
    } else {
      assert gt' == gt;
    }
  }

  /** One step of the removal loop keeps `gt'` equal to the detach of the prefix. */
  lemma DetachStep(gt: seq<seq<nat>>, comms: seq<nat>, i: nat, keep: nat, id: nat, g0: seq<seq<nat>>, g1: seq<seq<nat>>)
    requires Distinct(comms) && i < |comms| && comms[i] != keep
    requires forall k :: 0 <= k < |comms| ==> comms[k] < |gt|
    requires g0 == Detach(gt, comms[..i], keep, id)
    requires g1 == g0[comms[i] := RemoveOne(g0[comms[i]], id)]
    ensures g1 == Detach(gt, comms[..i + 1], keep, id)
  {
    var c := comms[i];
    assert comms[..i + 1] == comms[..i] + [c];
    assert c !in comms[..i];
  }

  /** Passing over the kept community changes nothing. */
  lemma DetachSkip(gt: seq<seq<nat>>, comms: seq<nat>, i: nat, keep: nat, id: nat)
    requires i < |comms| && comms[i] == keep
    ensures Detach(gt, comms[..i + 1], keep, id) == Detach(gt, comms[..i], keep, id)
  {
    assert comms[..i + 1] == comms[..i] + [keep];
  }

  /** Removing `id` once more from one community keeps `OnlyRemoved`. */
  lemma OnlyRemovedStep(gt: seq<seq<nat>>, g0: seq<seq<nat>>, g1: seq<seq<nat>>, c: nat, id: nat)
    requires OnlyRemoved(gt, g0, id) && c < |g0|
    requires g1 == g0[c := RemoveOne(g0[c], id)]
    ensures OnlyRemoved(gt, g1, id)
  {
    forall d, x | 0 <= d < |g1| && x != id ensures Count(g1[d], x) == Count(gt[d], x) {
      if d == c {
        assert multiset(g1[d]) == multiset(g0[d]) - multiset{id};
      } else {
        assert g1[d] == g0[d];
      }
    }
    forall d | 0 <= d < |g1| ensures Count(g1[d], id) <= Count(gt[d], id) {
      if d == c {
        assert multiset(g1[d]) == multiset(g0[d]) - multiset{id};
      } else {
        assert g1[d] == g0[d];
      }
    }
  }

  // ---------------------------------------------------------------------
  // The whole key loop
  // ---------------------------------------------------------------------

  /** Only copies of ids were taken out of the communities of `gt0`. */
  ghost predicate Shrunk(gt: seq<seq<nat>>, gt0: seq<seq<nat>>)
  {
    && |gt| == |gt0|
    && forall c, x :: 0 <= c < |gt| ==> Count(gt[c], x) <= Count(gt0[c], x)
  }

  /** `x` is listed by the same communities in `gt` as in `gt0`. */
  ghost predicate Untouched(gt: seq<seq<nat>>, gt0: seq<seq<nat>>, x: nat)
    requires |gt| == |gt0|
  {
    forall c :: 0 <= c < |gt| ==> (x in gt[c] <==> x in gt0[c])
  }

  /** Community `h` is the only one listing `x`. */
  ghost predicate HeldOnlyBy(gt: seq<seq<nat>>, x: nat, h: nat)
  {
    && h < |gt| && x in gt[h]
    && forall c :: 0 <= c < |gt| && c != h ==> x !in gt[c]
  }

  /** Exactly one community lists `x`. */
  ghost predicate Settled(gt: seq<seq<nat>>, x: nat)
  {
    exists h :: HeldOnlyBy(gt, x, h)
  }

  /** Community `h` is strictly larger than every other community of `comms`. */
  ghost predicate StrictlyLargest(gt: seq<seq<nat>>, comms: seq<nat>, h: nat)
    requires h < |gt|
    requires forall i :: 0 <= i < |comms| ==> comms[i] < |gt|
  {
    forall i :: 0 <= i < |comms| && comms[i] != h ==> |gt[comms[i]]| < |gt[h]|
  }

  /** The values of `gt0` all name communities. */
  lemma ValuesWithin(gt0: seq<seq<nat>>, id: nat)
    ensures forall i :: 0 <= i < |Values(gt0, id)| ==> Values(gt0, id)[i] < |gt0|
  {
    ValuesMembership(gt0, id);
  }

  /** The invariant of the key loop after `k` keys: only copies were taken
      out, and when no community repeats an id, the ids processed so far
      stand as `Standing` says. */
  ghost predicate OverlapInv(gt0: seq<seq<nat>>, keys: seq<nat>, k: nat, gt: seq<seq<nat>>)
    requires k <= |keys|
  {
    && Shrunk(gt, gt0)
    && (NoRepeats(gt0) ==> Standing(gt0, keys[..k], gt))
  }

  /** Each processed id is in exactly one community, each unprocessed id is
      where it was, and the last processed id sits in a community strictly
      larger than its other original ones. */
  ghost predicate Standing(gt0: seq<seq<nat>>, done: seq<nat>, gt: seq<seq<nat>>)
  {
    && |gt| == |gt0|
    && (forall x :: x !in done ==> Untouched(gt, gt0, x))
    && (forall x :: x in done ==> Settled(gt, x))
    && (|done| > 0 ==> LastSettled(gt0, done[|done| - 1], gt))
  }

  /** The id processed last is held by one community, strictly the largest of its original ones. */
  ghost predicate LastSettled(gt0: seq<seq<nat>>, id: nat, gt: seq<seq<nat>>)
  {
    && |gt| == |gt0|
    && (forall i :: 0 <= i < |Values(gt0, id)| ==> Values(gt0, id)[i] < |gt0|)
    && exists h :: HeldOnlyBy(gt, id, h) && StrictlyLargest(gt, Values(gt0, id), h)
  }

  /** `large_process_overlap` (graph.cpp:1327-1375): build the map, then
      resolve the keys in ascending order.  Only copies of ids are taken out,
      and when no community lists an id twice, afterwards every id of the
      truth is listed by exactly one community. */
  method ProcessOverlap(gt0: seq<seq<nat>>) returns (gt: seq<seq<nat>>)
    ensures Shrunk(gt, gt0)
    ensures NoRepeats(gt0) ==> forall x :: x in Flatten(gt0) ==> Settled(gt, x)
  {
    var m := GroupByMember(gt0);
    var keys := SortedKeys(m, Bound(Flatten(gt0)));
    KeysSorted(m, Bound(Flatten(gt0)));
    gt := gt0;
    var k := 0;
    while k < |keys|
      invariant 0 <= k <= |keys|
      invariant OverlapInv(gt0, keys, k, gt)
    {
      var id := keys[k];
      KeysMembership(m, Bound(Flatten(gt0)), id);
      var comms := m[id];
      ValuesWithin(gt0, id);
      ghost var before := gt;
      ghost var chosen;
      gt, chosen := ResolveKey(gt, id, comms);
      if id in keys[..k] {
        SortedRepeat(keys, k);
      }
      KeyStep(gt0, keys, k, before, gt, chosen);
      k := k + 1;
    }
    assert keys[..k] == keys;
    AllSettled(gt0, m, gt);
  }

  /** Once every key is processed, every id of the partition is settled. */
  lemma AllSettled(gt0: seq<seq<nat>>, m: map<nat, seq<nat>>, gt: seq<seq<nat>>)
    requires forall id :: id in m ==> m[id] == Values(gt0, id)
    requires forall id :: id in m <==> |Values(gt0, id)| > 0
    requires NoRepeats(gt0) ==> Standing(gt0, SortedKeys(m, Bound(Flatten(gt0))), gt)
    ensures NoRepeats(gt0) ==> forall x :: x in Flatten(gt0) ==> Settled(gt, x)
  {
    forall x: nat | NoRepeats(gt0) && x in Flatten(gt0) ensures Settled(gt, x) {
      FlattenValues(gt0, x);
      KeysMembership(m, Bound(Flatten(gt0)), x);
    }
  }

  /** An id of the partition is below its bound and has a value. */
  lemma FlattenValues(gt0: seq<seq<nat>>, x: nat)
    requires x in Flatten(gt0)
    ensures x < Bound(Flatten(gt0)) && |Values(gt0, x)| > 0
  {
    FlattenMembership(gt0, x);
    var c :| 0 <= c < |gt0| && x in gt0[c];
    ValuesMembership(gt0, x);
    assert c in Values(gt0, x);
  }

  /** One turn of the key loop keeps the invariant. */
  lemma KeyStep(gt0: seq<seq<nat>>, keys: seq<nat>, k: nat, gt: seq<seq<nat>>, gt': seq<seq<nat>>, chosen: int)
    requires k < |keys| && OverlapInv(gt0, keys, k, gt)
    requires keys[k] in keys[..k] ==> k > 0 && keys[k - 1] == keys[k]
    requires |Values(gt0, keys[k])| > 0
    requires forall i :: 0 <= i < |Values(gt0, keys[k])| ==> Values(gt0, keys[k])[i] < |gt|
    requires Turn(gt, Values(gt0, keys[k]), keys[k], gt', chosen)
    ensures OverlapInv(gt0, keys, k + 1, gt')
  {
    var id := keys[k];
    TakeSnoc(keys, k);
    ShrunkStep(gt0, gt, gt', id);
    if NoRepeats(gt0) {
      StandingStep(gt0, keys[..k], id, gt, gt', chosen);
    }
  }

  /** The turn of `id` after the ids `done` keeps every id where it stands. */
  lemma StandingStep(gt0: seq<seq<nat>>, done: seq<nat>, id: nat, gt: seq<seq<nat>>, gt': seq<seq<nat>>, chosen: int)
    requires NoRepeats(gt0) && Shrunk(gt, gt0) && Standing(gt0, done, gt)
    requires id in done ==> |done| > 0 && done[|done| - 1] == id
    requires |Values(gt0, id)| > 0
    requires forall i :: 0 <= i < |Values(gt0, id)| ==> Values(gt0, id)[i] < |gt|
    requires Turn(gt, Values(gt0, id), id, gt', chosen)
    ensures Standing(gt0, done + [id], gt')
  {
    if id in done {
      StandingRepeat(gt0, done, id, gt, gt', chosen);
    } else {
      StandingFresh(gt0, done, id, gt, gt', chosen);
    }
  }

  /** In an ascending list, a value met before position `k` is also at `k - 1`. */
  lemma SortedRepeat(keys: seq<nat>, k: nat)
    requires k < |keys| && keys[k] in keys[..k]
    requires forall i, j :: 0 <= i < j < |keys| ==> keys[i] <= keys[j]
    ensures k > 0 && keys[..k][k - 1] == keys[k]
  {
    var j :| 0 <= j < k && keys[..k][j] == keys[k];
    assert keys[j] <= keys[k - 1] <= keys[k];
  }

  /** The turn of an id met again leaves everything as it stands. */
  lemma StandingRepeat(gt0: seq<seq<nat>>, done: seq<nat>, id: nat, gt: seq<seq<nat>>, gt': seq<seq<nat>>, chosen: int)
    requires NoRepeats(gt0) && Shrunk(gt, gt0) && Standing(gt0, done, gt)
    requires |done| > 0 && done[|done| - 1] == id
    requires forall i :: 0 <= i < |Values(gt0, id)| ==> Values(gt0, id)[i] < |gt|
    requires Turn(gt, Values(gt0, id), id, gt', chosen)
    ensures Standing(gt0, done + [id], gt')
  {
    ValuesDistinct(gt0, id);
    ValuesMembership(gt0, id);
    RepeatKey(gt0, id, gt, gt', chosen);
    assert forall x :: x in done + [id] <==> x in done;
  }

  /** The first turn of an id settles it and leaves the others as they stand. */
  lemma StandingFresh(gt0: seq<seq<nat>>, done: seq<nat>, id: nat, gt: seq<seq<nat>>, gt': seq<seq<nat>>, chosen: int)
    requires NoRepeats(gt0) && Shrunk(gt, gt0) && Standing(gt0, done, gt) && id !in done
    requires |Values(gt0, id)| > 0
    requires forall i :: 0 <= i < |Values(gt0, id)| ==> Values(gt0, id)[i] < |gt|
    requires Turn(gt, Values(gt0, id), id, gt', chosen)
    ensures Standing(gt0, done + [id], gt')
  {
    ValuesDistinct(gt0, id);
    ValuesMembership(gt0, id);
    assert Untouched(gt, gt0, id);
    FreshKey(gt0, id, gt, gt', chosen);
    OthersStay(gt, gt', id);
    FreshOthers(gt0, done, id, gt, gt');
    assert (done + [id])[|done + [id]| - 1] == id;
    forall x | x in done + [id] ensures Settled(gt', x) {
      if x != id {
        assert x in done;
      }
    }
  }

  /** After the first turn of `id`, the other ids keep their standing. */
  lemma FreshOthers(gt0: seq<seq<nat>>, done: seq<nat>, id: nat, gt: seq<seq<nat>>, gt': seq<seq<nat>>)
    requires |gt| == |gt0| == |gt'| && id !in done
    requires forall x :: x !in done ==> Untouched(gt, gt0, x)
    requires forall x :: x in done ==> Settled(gt, x)
    requires forall x, c :: x != id && 0 <= c < |gt'| ==> (x in gt'[c] <==> x in gt[c])
    ensures forall x :: x !in done + [id] ==> Untouched(gt', gt0, x)
    ensures forall x :: x in done ==> Settled(gt', x)
  {
    forall x | x !in done + [id] ensures Untouched(gt', gt0, x) {
      assert Untouched(gt, gt0, x);
    }
    forall x | x in done ensures Settled(gt', x) {
      assert Settled(gt, x);
      var h :| HeldOnlyBy(gt, x, h);
      assert HeldOnlyBy(gt', x, h);
    }
  }

  /** What one turn of the key loop did to `gt`, as `ResolveKey` promises. */
  ghost predicate Turn(gt: seq<seq<nat>>, comms: seq<nat>, id: nat, gt': seq<seq<nat>>, chosen: int)
    requires forall i :: 0 <= i < |comms| ==> comms[i] < |gt|
  {
    && (|comms| <= 1 ==> gt' == gt)
    && (|comms| > 1 ==> FirstLargest(gt, comms, chosen))
    && (|comms| > 1 && Distinct(comms) ==> gt' == Detach(gt, comms, comms[chosen], id))
    && OnlyRemoved(gt, gt', id)
  }

  /** A turn only takes copies out. */
  lemma ShrunkStep(gt0: seq<seq<nat>>, gt: seq<seq<nat>>, gt': seq<seq<nat>>, id: nat)
    requires Shrunk(gt, gt0) && OnlyRemoved(gt, gt', id)
    ensures Shrunk(gt', gt0)
  {
    forall c, x | 0 <= c < |gt'| ensures Count(gt'[c], x) <= Count(gt0[c], x) {
      assert Count(gt'[c], x) <= Count(gt[c], x);
    }
  }

  /** Without repeats inside a community, `values(id)` names each community once. */
  lemma ValuesDistinct(gt: seq<seq<nat>>, id: nat)
    requires NoRepeats(gt)
    ensures Distinct(Values(gt, id))
  {
    ValuesDescending(gt, id);
  }

  /** Ids other than the one of the turn stay where they were. */
  lemma OthersStay(gt: seq<seq<nat>>, gt': seq<seq<nat>>, id: nat)
    requires OnlyRemoved(gt, gt', id)
    ensures forall x, c :: x != id && 0 <= c < |gt'| ==> (x in gt'[c] <==> x in gt[c])
  {
    forall x, c | x != id && 0 <= c < |gt'| ensures x in gt'[c] <==> x in gt[c] {
      assert Count(gt'[c], x) == Count(gt[c], x);
      assert x in gt'[c] <==> x in multiset(gt'[c]);
      assert x in gt[c] <==> x in multiset(gt[c]);
    }
  }

  /** Taking out copies of ids keeps every community free of repeats. */
  lemma ShrunkNoRepeats(gt: seq<seq<nat>>, gt0: seq<seq<nat>>)
    requires Shrunk(gt, gt0) && NoRepeats(gt0)
    ensures NoRepeats(gt)
  {
    forall c, x | 0 <= c < |gt| ensures Count(gt[c], x) <= 1 {
      assert Count(gt[c], x) <= Count(gt0[c], x);
    }
  }

  /** The community at position `c` after a detach. */
  lemma DetachAt(gt: seq<seq<nat>>, cs: seq<nat>, keep: nat, id: nat, c: nat)
    requires c < |gt|
    ensures Detach(gt, cs, keep, id)[c] == if c in cs && c != keep then RemoveOne(gt[c], id) else gt[c]
  {
  }

  /** An id met for the first time is listed by exactly its original
      communities; after the turn it is held only by the chosen one, which is
      then strictly larger than the others. */
  lemma FreshKey(gt0: seq<seq<nat>>, id: nat, gt: seq<seq<nat>>, gt': seq<seq<nat>>, chosen: int)
    requires NoRepeats(gt0) && Shrunk(gt, gt0) && Untouched(gt, gt0, id)
    requires |Values(gt0, id)| > 0
    requires forall c: nat :: c in Values(gt0, id) <==> c < |gt0| && id in gt0[c]
    requires Distinct(Values(gt0, id))
    requires forall i :: 0 <= i < |Values(gt0, id)| ==> Values(gt0, id)[i] < |gt|
    requires Turn(gt, Values(gt0, id), id, gt', chosen)
    ensures LastSettled(gt0, id, gt')
    ensures Settled(gt', id)
  {
    var comms := Values(gt0, id);
    ShrunkNoRepeats(gt, gt0);
    var h: nat := if |comms| > 1 then comms[chosen] else comms[0];
    assert h in comms;
    if |comms| <= 1 {
      FreshSingle(gt0, id, gt, h);
    } else {
      FreshHeld(gt0, id, gt, gt', chosen);
      FreshLargest(gt0, id, gt, gt', chosen);
    }
    assert HeldOnlyBy(gt', id, h) && StrictlyLargest(gt', comms, h);
  }

  /** An id of one community only: nothing moves and that community holds it. */
  lemma FreshSingle(gt0: seq<seq<nat>>, id: nat, gt: seq<seq<nat>>, h: nat)
    requires Shrunk(gt, gt0) && Untouched(gt, gt0, id)
    requires |Values(gt0, id)| == 1 && Values(gt0, id)[0] == h
    requires forall c: nat :: c in Values(gt0, id) <==> c < |gt0| && id in gt0[c]
    ensures HeldOnlyBy(gt, id, h) && StrictlyLargest(gt, Values(gt0, id), h)
  {
    var comms := Values(gt0, id);
    assert comms == [h];
    assert h in comms;
    forall c | 0 <= c < |gt| && c != h ensures id !in gt[c] {
      assert c !in comms;
    }
  }

  /** With several communities, the chosen one alone keeps the id. */
  lemma FreshHeld(gt0: seq<seq<nat>>, id: nat, gt: seq<seq<nat>>, gt': seq<seq<nat>>, chosen: int)
    requires NoRepeats(gt) && Shrunk(gt, gt0) && Untouched(gt, gt0, id)
    requires |Values(gt0, id)| > 1
    requires forall c: nat :: c in Values(gt0, id) <==> c < |gt0| && id in gt0[c]
    requires Distinct(Values(gt0, id))
    requires forall i :: 0 <= i < |Values(gt0, id)| ==> Values(gt0, id)[i] < |gt|
    requires Turn(gt, Values(gt0, id), id, gt', chosen)
    ensures 0 <= chosen < |Values(gt0, id)|
    ensures HeldOnlyBy(gt', id, Values(gt0, id)[chosen])
  {
    var comms := Values(gt0, id);
    var h := comms[chosen];
    assert h in comms;
    DetachAt(gt, comms, h, id, h);
    forall c | 0 <= c < |gt'| && c != h ensures id !in gt'[c] {
      DetachAt(gt, comms, h, id, c);
      if c in comms {
        assert Count(gt[c], id) <= 1;
        assert Count(gt'[c], id) == 0;
      }
    }
  }

  /** With several communities, the chosen one ends strictly the largest:
      it was at least as large as each other, and each other lost the id. */
  lemma FreshLargest(gt0: seq<seq<nat>>, id: nat, gt: seq<seq<nat>>, gt': seq<seq<nat>>, chosen: int)
    requires Shrunk(gt, gt0) && Untouched(gt, gt0, id)
    requires |Values(gt0, id)| > 1
    requires forall c: nat :: c in Values(gt0, id) <==> c < |gt0| && id in gt0[c]
    requires Distinct(Values(gt0, id))
    requires forall i :: 0 <= i < |Values(gt0, id)| ==> Values(gt0, id)[i] < |gt|
    requires Turn(gt, Values(gt0, id), id, gt', chosen)
    ensures 0 <= chosen < |Values(gt0, id)|
    ensures StrictlyLargest(gt', Values(gt0, id), Values(gt0, id)[chosen])
  {
    var comms := Values(gt0, id);
    var h := comms[chosen];
    DetachAt(gt, comms, h, id, h);
    forall i | 0 <= i < |comms| && comms[i] != h ensures |gt'[comms[i]]| < |gt'[h]| {
      var c := comms[i];
      assert c in comms;
      DetachAt(gt, comms, h, id, c);
      assert id in gt[c];
      assert |multiset(gt'[c])| == |multiset(gt[c])| - 1;
    }
  }

  /** An id met again right after its first turn is already held only by the
      community that is strictly the largest of its original ones; the scan
      picks that community again and the removals find nothing. */
  lemma RepeatKey(gt0: seq<seq<nat>>, id: nat, gt: seq<seq<nat>>, gt': seq<seq<nat>>, chosen: int)
    requires Shrunk(gt, gt0) && LastSettled(gt0, id, gt)
    requires forall c: nat :: c in Values(gt0, id) <==> c < |gt0| && id in gt0[c]
    requires Distinct(Values(gt0, id))
    requires forall i :: 0 <= i < |Values(gt0, id)| ==> Values(gt0, id)[i] < |gt|
    requires Turn(gt, Values(gt0, id), id, gt', chosen)
    ensures gt' == gt
  {
    var comms := Values(gt0, id);
    if |comms| > 1 {
      var h: nat :| HeldOnlyBy(gt, id, h) && StrictlyLargest(gt, comms, h);
      assert Count(gt[h], id) <= Count(gt0[h], id);
      assert h in comms;
      SameChoice(gt, comms, h, chosen);
      DetachHeld(gt, comms, h, id);
    }
  }

  /** Detaching an id that only the kept community holds changes nothing. */
  lemma DetachHeld(gt: seq<seq<nat>>, comms: seq<nat>, h: nat, id: nat)
    requires HeldOnlyBy(gt, id, h)
    ensures Detach(gt, comms, h, id) == gt
  {
    forall c | 0 <= c < |gt| ensures Detach(gt, comms, h, id)[c] == gt[c] {
      DetachAt(gt, comms, h, id, c);
      if c in comms && c != h {
        assert id !in gt[c];
      }
    }
  }

  /** The scan picks the community that is strictly the largest. */
  lemma SameChoice(gt: seq<seq<nat>>, comms: seq<nat>, h: nat, chosen: int)
    requires forall i :: 0 <= i < |comms| ==> comms[i] < |gt|
    requires h < |gt| && h in comms && StrictlyLargest(gt, comms, h)
    requires FirstLargest(gt, comms, chosen)
    ensures comms[chosen] == h
  {
    var ih :| 0 <= ih < |comms| && comms[ih] == h;
    assert |gt[comms[ih]]| <= |gt[comms[chosen]]|;
  }
}
