/** The cache field policy of the paginated recent-conferences query
    (`conferencesRecent` in `index.jsx` and in `index.js`). The field has no
    key arguments, so every page merges into one list. Incoming conferences
    whose id is already cached are dropped, and the others are written from
    the page's offset onwards, over whatever the copy held there. */
module RecentMerge {
  import opened Common
  import opened Media

  /** The ids of the cached conferences. */
  function Ids(xs: seq<Conference>): (r: set<string>)
    ensures forall i :: 0 <= i < |xs| ==> xs[i].id in r
    ensures forall id :: id in r ==> exists i :: 0 <= i < |xs| && xs[i].id == id
  {
    set i | 0 <= i < |xs| :: xs[i].id
  }

  /** The incoming conferences not yet cached, in incoming order
      (`index.jsx`: a set of known ids). Deduplication is against the cache
      only, not within the page. */
  function NewNodes(existing: seq<Conference>, incoming: seq<Conference>): (r: seq<Conference>)
    ensures forall c :: c in r <==> c in incoming && c.id !in Ids(existing)
    ensures |r| <= |incoming|
  {
    var known := Ids(existing);
    Filter(incoming, (c: Conference) => c.id !in known)
  }

  /** The same selection as `index.js` computes it: the incoming ids not
      among the cached ids, then the incoming nodes whose id is one of them. */
  function NewNodesByIds(existing: seq<Conference>, incoming: seq<Conference>): seq<Conference> {
    var found := Map(existing, (c: Conference) => c.id);
    var incomingIds := Map(incoming, (c: Conference) => c.id);
    var newIds := Filter(incomingIds, (id: string) => id !in found);
    Filter(incoming, (c: Conference) => c.id in newIds)
  }

  /** The two ways of selecting new nodes agree on every input. */
  lemma NewNodesAgree(existing: seq<Conference>, incoming: seq<Conference>)
    ensures NewNodesByIds(existing, incoming) == NewNodes(existing, incoming)
  {
    var found := Map(existing, (c: Conference) => c.id);
    var incomingIds := Map(incoming, (c: Conference) => c.id);
    var newIds := Filter(incomingIds, (id: string) => id !in found);
    var known := Ids(existing);
    forall i | 0 <= i < |incoming|
      ensures (incoming[i].id in newIds) == (incoming[i].id !in known)
    {
      var id := incoming[i].id;
      assert incomingIds[i] == id;
      if id in known {
        var j :| 0 <= j < |existing| && existing[j].id == id;
        assert found[j] == id;
      }
      if id in found {
        var j :| 0 <= j < |found| && found[j] == id;
        assert existing[j].id == id;
      }
    }
    FilterCongruent(incoming, (c: Conference) => c.id in newIds, (c: Conference) => c.id !in known);
  }

  /** `merged[offset + i] = nodes[i]` for every i, on a copy of `existing`:
      entries below the offset are kept, the nodes follow in order, and a
      cached entry past the last node survives. */
  function Placed(existing: seq<Conference>, offset: nat, nodes: seq<Conference>): (r: seq<Conference>)
    requires offset <= |existing|
    ensures |r| == if offset + |nodes| > |existing| then offset + |nodes| else |existing|
    ensures r[..offset] == existing[..offset]
    ensures forall i :: 0 <= i < |nodes| ==> r[offset + i] == nodes[i]
    ensures forall j :: offset + |nodes| <= j < |existing| ==> r[j] == existing[j]
  {
    var tail := if offset + |nodes| < |existing| then existing[offset + |nodes|..] else [];
    existing[..offset] + nodes + tail
  }

  /** The placement loop, one write per node, growing the copy when a write
      lands just past its end. */
  method Place(existing: seq<Conference>, offset: nat, nodes: seq<Conference>) returns (merged: seq<Conference>)
    requires offset <= |existing|
    ensures merged == Placed(existing, offset, nodes)
  {
    merged := existing;
    var i := 0;
    while i < |nodes|
      invariant 0 <= i <= |nodes|
      invariant |merged| == if offset + i > |existing| then offset + i else |existing|
      invariant merged[..offset] == existing[..offset]
      invariant forall k :: 0 <= k < i ==> merged[offset + k] == nodes[k]
      invariant forall j :: offset + i <= j < |existing| ==> merged[j] == existing[j]
    {
      if offset + i < |merged| {
        merged := merged[offset + i := nodes[i]];
      } else {
        merged := merged + [nodes[i]];
      }
      i := i + 1;
    }
    var p := Placed(existing, offset, nodes);
    assert |merged| == |p|;
    forall j | 0 <= j < |merged| ensures merged[j] == p[j] {
      if j < offset {
        assert merged[j] == merged[..offset][j] && p[j] == p[..offset][j];
      } else if j < offset + |nodes| {
        assert merged[offset + (j - offset)] == nodes[j - offset];
      }
    }
  }

  /** The merged list for a page fetched at `offset`. */
  function Merge(existing: seq<Conference>, incoming: seq<Conference>, offset: nat): seq<Conference>
    requires offset <= |existing|
  {
    Placed(existing, offset, NewNodes(existing, incoming))
  }

  /** The `index.jsx` policy. */
  method MergeWithIdSet(existing: seq<Conference>, incoming: seq<Conference>, offset: nat) returns (merged: seq<Conference>)
    requires offset <= |existing|
    ensures merged == Merge(existing, incoming, offset)
  {
    merged := Place(existing, offset, NewNodes(existing, incoming));
  }

  /** The `index.js` policy, with id lists instead of a set: it yields the
      same list as the `index.jsx` policy. */
  method MergeWithIdList(existing: seq<Conference>, incoming: seq<Conference>, offset: nat) returns (merged: seq<Conference>)
    requires offset <= |existing|
    ensures merged == Merge(existing, incoming, offset)
  {
    NewNodesAgree(existing, incoming);
    merged := Place(existing, offset, NewNodesByIds(existing, incoming));
  }

  /** A page fetched at the end of the list (the home screen's `fetchMore`)
      appends its new conferences. */
  lemma PageAtEndAppends(existing: seq<Conference>, incoming: seq<Conference>)
    ensures Merge(existing, incoming, |existing|) == existing + NewNodes(existing, incoming)
  {
    var r := Merge(existing, incoming, |existing|);
    var nodes := NewNodes(existing, incoming);
    assert existing[..|existing|] == existing;
    forall j | |existing| <= j < |r| ensures r[j] == (existing + nodes)[j] {
      assert r[|existing| + (j - |existing|)] == nodes[j - |existing|];
    }
  }

  /** A page of conferences all already cached leaves the list unchanged,
      at any offset. */
  lemma KnownPageChangesNothing(existing: seq<Conference>, incoming: seq<Conference>, offset: nat)
    requires offset <= |existing|
    requires forall i :: 0 <= i < |incoming| ==> incoming[i].id in Ids(existing)
    ensures Merge(existing, incoming, offset) == existing
  {
    var known := Ids(existing);
    FilterNone(incoming, (c: Conference) => c.id !in known);
    assert NewNodes(existing, incoming) == [];
    assert existing[..offset] + existing[offset..] == existing;
  }

  /** Merging never shortens the cached list. */
  lemma MergeKeepsLength(existing: seq<Conference>, incoming: seq<Conference>, offset: nat)
    requires offset <= |existing|
    ensures |Merge(existing, incoming, offset)| >= |existing|
    ensures Merge(existing, incoming, offset)[..offset] == existing[..offset]
  {
  }

  predicate DistinctIds(xs: seq<Conference>) {
    forall i, j :: 0 <= i < j < |xs| ==> xs[i].id != xs[j].id
  }

  /** Appending a page whose own ids are distinct keeps the cached ids
      distinct. */
  lemma AppendKeepsIdsDistinct(existing: seq<Conference>, incoming: seq<Conference>)
    requires DistinctIds(existing) && DistinctIds(incoming)
    ensures DistinctIds(Merge(existing, incoming, |existing|))
  {
    PageAtEndAppends(existing, incoming);
    var nodes := NewNodes(existing, incoming);
    var r := existing + nodes;
    FilterSubsequence(incoming, (c: Conference) => c.id !in Ids(existing));
    forall i, j | 0 <= i < j < |r| ensures r[i].id != r[j].id {
      if j >= |existing| {
        assert r[j] == nodes[j - |existing|];
        assert r[j] in nodes;
        if i < |existing| {
          assert r[i].id in Ids(existing);
        }
      }
    }
  }

  lemma DistinctIdsTail(xs: seq<Conference>)
    requires xs != [] && DistinctIds(xs)
    ensures DistinctIds(xs[1..])
    ensures forall c :: c in xs[1..] ==> c.id != xs[0].id
  {
    forall i, j | 0 <= i < j < |xs[1..]| ensures xs[1..][i].id != xs[1..][j].id {
      assert xs[1..][i] == xs[i + 1] && xs[1..][j] == xs[j + 1];
    }
    forall c | c in xs[1..] ensures c.id != xs[0].id {
      var m :| 0 <= m < |xs[1..]| && xs[1..][m] == c;
      assert xs[m + 1] == c;
    }
  }

  lemma ConsDistinctIds(h: Conference, t: seq<Conference>)
    requires DistinctIds(t)
    requires forall c :: c in t ==> c.id != h.id
    ensures DistinctIds([h] + t)
  {
    var r := [h] + t;
    forall i, j | 0 <= i < j < |r| ensures r[i].id != r[j].id {
      assert r[j] == t[j - 1];
      if i > 0 {
        assert r[i] == t[i - 1];
      }
    }
  }

  /** Filtering a list with distinct identifiers keeps them distinct. */
  lemma {:induction false} FilterSubsequence(xs: seq<Conference>, p: Conference -> bool)
    requires DistinctIds(xs)
    ensures DistinctIds(Filter(xs, p))
  {
    if xs != [] {
      DistinctIdsTail(xs);
      FilterSubsequence(xs[1..], p);
      var rest := Filter(xs[1..], p);
      if p(xs[0]) {
        assert Filter(xs, p) == [xs[0]] + rest;
        ConsDistinctIds(xs[0], rest);
      } else {
        FilterSkipHead(xs, p);
      }
    }
  }

  /** Deduplication is against the cache only: a page that repeats a
      conference keeps both copies. */
  lemma RepeatWithinPageSurvives(c: Conference)
    ensures Merge([], [c, c], 0) == [c, c]
  {
    assert Ids([]) == {};
    assert NewNodes([], [c, c]) == [c, c];
  }
}
