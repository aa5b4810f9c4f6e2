/** Image preloading for carousel navigation (`useImagePreload.js`): the
    neighbours of the current slide are fetched ahead, each URL at most once
    over the life of one hook instance, and a whole row can be fetched in
    one batch. An empty string is a missing (falsy) URL. */
module ImagePreload {
  import opened Common

  /** Distance between two slide indices. */
  function Dist(i: int, j: int): nat {
    if i < j then j - i else i - j
  }

  /** A slot the hook reads: an index inside the list holding a URL. */
  predicate Filled(images: seq<string>, i: int) {
    0 <= i < |images| && images[i] != ""
  }

  /** The indices visited for distances `d` to `count`: for each distance
      the slot before the current one, then the slot after it, each kept
      only when filled. */
  function NeighboursFrom(images: seq<string>, cur: int, d: int, count: int): (r: seq<int>)
    requires d >= 1
    ensures forall i :: i in r <==> Filled(images, i) && d <= Dist(i, cur) <= count
    ensures forall k :: 0 <= k < |r| ==> Filled(images, r[k])
    ensures |r| <= 2 * (if count >= d then count - d + 1 else 0)
    ensures forall k, l :: 0 <= k < l < |r| ==> Dist(r[k], cur) <= Dist(r[l], cur)
    decreases count - d + 1
  {
    if d > count then []
    else
      var before := if Filled(images, cur - d) then [cur - d] else [];
      var after := if Filled(images, cur + d) then [cur + d] else [];
      var rest := NeighboursFrom(images, cur, d + 1, count);
      NeighboursStep(images, cur, d, count, before + after, rest);
      before + after + rest
  }

  /** The filled slots at exactly distance `d`: before, then after. */
  lemma NearSlots(images: seq<string>, cur: int, d: int, near: seq<int>)
    requires d >= 1
    requires near == (if Filled(images, cur - d) then [cur - d] else []) + (if Filled(images, cur + d) then [cur + d] else [])
    ensures forall i :: i in near <==> Filled(images, i) && Dist(i, cur) == d
    ensures forall k :: 0 <= k < |near| ==> Filled(images, near[k]) && Dist(near[k], cur) == d
  {
    forall i | Filled(images, i) && Dist(i, cur) == d ensures i in near {
      assert i == cur - d || i == cur + d;
    }
  }

  /** One distance's slots in front of the farther ones keep the list
      ordered by distance. */
  lemma NeighboursStep(images: seq<string>, cur: int, d: int, count: int, near: seq<int>, rest: seq<int>)
    requires d >= 1 && d <= count
    requires near == (if Filled(images, cur - d) then [cur - d] else []) + (if Filled(images, cur + d) then [cur + d] else [])
    requires forall i :: i in rest <==> Filled(images, i) && d + 1 <= Dist(i, cur) <= count
    requires forall k :: 0 <= k < |rest| ==> Filled(images, rest[k])
    requires forall k, l :: 0 <= k < l < |rest| ==> Dist(rest[k], cur) <= Dist(rest[l], cur)
    ensures forall i :: i in near + rest <==> Filled(images, i) && d <= Dist(i, cur) <= count
    ensures forall k :: 0 <= k < |near + rest| ==> Filled(images, (near + rest)[k])
    ensures forall k, l :: 0 <= k < l < |near + rest| ==> Dist((near + rest)[k], cur) <= Dist((near + rest)[l], cur)
  {
    NearSlots(images, cur, d, near);
    var r := near + rest;
    forall k | 0 <= k < |r| ensures Filled(images, r[k]) && (k < |near| ==> Dist(r[k], cur) == d) && (k >= |near| ==> r[k] == rest[k - |near|] && Dist(r[k], cur) > d) {
      if k >= |near| {
        assert r[k] == rest[k - |near|];
        assert r[k] in rest;
      }
    }
    forall i ensures i in r <==> Filled(images, i) && d <= Dist(i, cur) <= count {
      assert i in r <==> i in near || i in rest;
    }
  }

  /** Ordered by distance from `cur`, and within one distance the slot
      before the current one ahead of the slot after it. */
  predicate NearestFirst(r: seq<int>, cur: int) {
    forall k, l :: 0 <= k < l < |r| ==>
      Dist(r[k], cur) < Dist(r[l], cur) || (Dist(r[k], cur) == Dist(r[l], cur) && r[k] < r[l])
  }

  /** Slots at distance `d` in order, put in front of farther slots in
      order, stay in order. */
  lemma AppendNearestFirst(near: seq<int>, rest: seq<int>, cur: int, d: int)
    requires NearestFirst(near, cur) && NearestFirst(rest, cur)
    requires forall k :: 0 <= k < |near| ==> Dist(near[k], cur) == d
    requires forall k :: 0 <= k < |rest| ==> Dist(rest[k], cur) > d
    ensures NearestFirst(near + rest, cur)
  {
    var r := near + rest;
    forall k, l | 0 <= k < l < |r|
      ensures Dist(r[k], cur) < Dist(r[l], cur) || (Dist(r[k], cur) == Dist(r[l], cur) && r[k] < r[l])
    {
      if l < |near| {
        assert r[k] == near[k] && r[l] == near[l];
      } else if k < |near| {
        assert r[k] == near[k] && r[l] == rest[l - |near|];
      } else {
        assert r[k] == rest[k - |near|] && r[l] == rest[l - |near|];
      }
    }
  }

  /** Slots in visiting order are pairwise different. */
  lemma NearestFirstDistinct(r: seq<int>, cur: int)
    requires NearestFirst(r, cur)
    ensures NoDuplicates(r)
  {
    forall k, l | 0 <= k < l < |r| ensures r[k] != r[l] {
      assert Dist(r[k], cur) < Dist(r[l], cur) || r[k] < r[l];
    }
  }

  /** The visiting order of the preload loop: nearest first, before ahead
      of after, so no index is visited twice. */
  lemma {:induction false} NeighboursOrdered(images: seq<string>, cur: int, d: int, count: int)
    requires d >= 1
    ensures NearestFirst(NeighboursFrom(images, cur, d, count), cur)
    ensures NoDuplicates(NeighboursFrom(images, cur, d, count))
    decreases count - d + 1
  {
    var r := NeighboursFrom(images, cur, d, count);
    if d <= count {
      NeighboursOrdered(images, cur, d + 1, count);
      var near := (if Filled(images, cur - d) then [cur - d] else []) + (if Filled(images, cur + d) then [cur + d] else []);
      var rest := NeighboursFrom(images, cur, d + 1, count);
      NearSlots(images, cur, d, near);
      assert NearestFirst(near, cur);
      forall k | 0 <= k < |rest| ensures Dist(rest[k], cur) > d {
        assert rest[k] in rest;
      }
      AppendNearestFirst(near, rest, cur, d);
      assert r == near + rest;
    }
    NearestFirstDistinct(r, cur);
  }

  /** The candidate indices around `cur`, nearest first. */
  function Neighbours(images: seq<string>, cur: int, count: int): (r: seq<int>)
    ensures forall i :: i in r <==> Filled(images, i) && 1 <= Dist(i, cur) <= count
    ensures cur !in r
    ensures |r| <= 2 * (if count >= 1 then count else 0)
  {
    NeighboursFrom(images, cur, 1, count)
  }

  /** The candidate URLs, nearest first. */
  function Candidates(images: seq<string>, cur: int, count: int): (r: seq<string>)
    ensures forall u :: u in r ==> u != "" && u in images
    ensures forall i :: Filled(images, i) && 1 <= Dist(i, cur) <= count ==> images[i] in r
    ensures |r| <= 2 * (if count >= 1 then count else 0)
  {
    var idx := Neighbours(images, cur, count);
    var r := seq(|idx|, k requires 0 <= k < |idx| => images[idx[k]]);
    assert forall i :: i in idx ==> images[i] in r by {
      forall i | i in idx ensures images[i] in r {
        var k :| 0 <= k < |idx| && idx[k] == i;
        assert r[k] == images[i];
      }
    }
    r
  }

  /** The URLs a pass loads: each non-empty one not loaded before, at its
      first occurrence. */
  function Fresh(urls: seq<string>, seen: set<string>): (r: seq<string>)
    ensures forall u :: u in r <==> u in urls && u != "" && u !in seen
    ensures NoDuplicates(r)
    ensures |r| <= |urls|
    decreases |urls|
  {
    if urls == [] then []
    else if urls[0] == "" || urls[0] in seen then Fresh(urls[1..], seen)
    else
      var rest := Fresh(urls[1..], seen + {urls[0]});
      [urls[0]] + rest
  }

  /** One run of the hook's effect with the set of URLs already loaded:
      the URLs it loads and the set afterwards. Nothing happens on an empty
      list. */
  function PreloadStep(images: seq<string>, cur: int, count: int, seen: set<string>): (r: (seq<string>, set<string>))
    ensures images == [] ==> r == ([], seen)
    ensures forall u :: u in r.0 ==> u !in seen && u in images && u != ""
    ensures NoDuplicates(r.0)
    ensures forall u :: u in r.1 <==> u in seen || u in r.0
    ensures forall i :: Filled(images, i) && 1 <= Dist(i, cur) <= count ==> images[i] in r.1
  {
    if images == [] then ([], seen)
    else
      var loaded := Fresh(Candidates(images, cur, count), seen);
      (loaded, seen + set u | u in loaded)
  }

  /** The early return on an empty list changes nothing: without it the
      pass would load nothing either. */
  lemma EmptyListHasNoCandidates(cur: int, count: int)
    ensures Candidates([], cur, count) == []
  {
    NoNeighboursInEmpty(cur, 1, count);
  }

  lemma {:induction false} NoNeighboursInEmpty(cur: int, d: int, count: int)
    requires d >= 1
    ensures NeighboursFrom([], cur, d, count) == []
    decreases count - d + 1
  {
    if d <= count {
      NoNeighboursInEmpty(cur, d + 1, count);
    }
  }

  /** One effect run: the slide list, the current index and the count. */
  datatype Request = Request(images: seq<string>, cur: int, count: int)

  /** A sequence of effect runs of one hook instance: everything loaded, in
      order, and the set afterwards. */
  function Run(reqs: seq<Request>, seen: set<string>): (r: (seq<string>, set<string>))
    decreases |reqs|
  {
    if reqs == [] then ([], seen)
    else
      var step := PreloadStep(reqs[0].images, reqs[0].cur, reqs[0].count, seen);
      var rest := Run(reqs[1..], step.1);
      (step.0 + rest.0, rest.1)
  }

  /** Over any sequence of runs, no URL is loaded twice and none that was
      loaded before; the set ends as the old one plus everything loaded. */
  lemma {:induction false} LoadedAtMostOnce(reqs: seq<Request>, seen: set<string>)
    ensures NoDuplicates(Run(reqs, seen).0)
    ensures forall u :: u in Run(reqs, seen).0 ==> u !in seen
    ensures forall u :: u in Run(reqs, seen).1 <==> u in seen || u in Run(reqs, seen).0
    decreases |reqs|
  {
    if reqs != [] {
      var step := PreloadStep(reqs[0].images, reqs[0].cur, reqs[0].count, seen);
      LoadedAtMostOnce(reqs[1..], step.1);
      var rest := Run(reqs[1..], step.1);
      DistinctAppend(step.0, rest.0);
    }
  }

  /** `preloadImages`: every non-empty URL is loaded, duplicates included;
      nothing happens on an empty list. */
  function PreloadBatch(urls: seq<string>): (r: seq<string>)
    ensures forall u :: u in r <==> u in urls && u != ""
    ensures |r| == |urls| <==> forall i :: 0 <= i < |urls| ==> urls[i] != ""
  {
    FilterShrinks(urls, (u: string) => u != "");
    Filter(urls, (u: string) => u != "")
  }
}
