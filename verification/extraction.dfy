/** Properties of the feed extraction: it distributes over concatenation, keeps the
    entity order, drops exactly the payloads that are not locatable, and never yields
    more vehicles than there are entities. */
module Extraction {
  import opened Wrappers
  import opened GtfsRealtime
  import opened LiveVehicles

  /** One entity yields its reading, or nothing. */
  lemma ExtractedSingle(e: FeedEntity)
    ensures Locatable(e.vehicle) ==> Extracted([e]) == [Reading(e.vehicle).value]
    ensures !Locatable(e.vehicle) ==> Extracted([e]) == []
  {
    assert [e][1..] == [];
  }

  /** Extracting a concatenation is concatenating the extractions: what one part of
      the feed yields does not depend on the rest. */
  lemma {:induction false} ExtractedAppend(a: seq<FeedEntity>, b: seq<FeedEntity>)
    ensures Extracted(a + b) == Extracted(a) + Extracted(b)
    decreases |a|
  {
    if a == [] {
      assert a + b == b;
    } else {
      assert (a + b)[0] == a[0];
      assert (a + b)[1..] == a[1..] + b;
      ExtractedAppend(a[1..], b);
    }
  }

  /** An entity that yields nothing contributes nothing, and the entities around it
      yield what they would yield without it. */
  lemma ExtractedSkipsUnlocatable(a: seq<FeedEntity>, e: FeedEntity, b: seq<FeedEntity>)
    requires !Locatable(e.vehicle)
    ensures Extracted(a + [e] + b) == Extracted(a) + Extracted(b)
  {
    ExtractedAppend(a + [e], b);
    ExtractedAppend(a, [e]);
    ExtractedSingle(e);
  }

  /** The extraction is exactly as long as the feed when, and only when, every entity
      is locatable. */
  lemma {:induction false} ExtractedKeepsAllIffAllLocatable(s: seq<FeedEntity>)
    ensures |Extracted(s)| == |s| <==> forall i :: 0 <= i < |s| ==> Locatable(s[i].vehicle)
    decreases |s|
  {
    if s != [] {
      ExtractedKeepsAllIffAllLocatable(s[1..]);
      if Locatable(s[0].vehicle) {
        assert forall i :: 1 <= i < |s| ==> s[i] == s[1..][i - 1];
      } else {
        assert |Extracted(s[1..])| <= |s| - 1;
      }
    }
  }

  /** A vehicle is extracted exactly when some entity of the feed reads as it. */
  lemma {:induction false} ExtractedMembership(s: seq<FeedEntity>, v: LiveVehicle)
    ensures v in Extracted(s) <==> exists i :: 0 <= i < |s| && Reading(s[i].vehicle) == Some(v)
    decreases |s|
  {
    if s != [] {
      ExtractedMembership(s[1..], v);
      if exists i :: 1 <= i < |s| && Reading(s[i].vehicle) == Some(v) {
        var i :| 1 <= i < |s| && Reading(s[i].vehicle) == Some(v);
        assert s[1..][i - 1] == s[i];
      }
      if exists j :: 0 <= j < |s| - 1 && Reading(s[1..][j].vehicle) == Some(v) {
        var j :| 0 <= j < |s| - 1 && Reading(s[1..][j].vehicle) == Some(v);
        assert s[j + 1] == s[1..][j];
      }
    }
  }

  /** The k-th extracted vehicle is the reading of the k-th locatable entity: the
      extraction is the order-preserving filter-map of the feed. */
  lemma {:induction false} ExtractedFollowsKeptIndices(s: seq<FeedEntity>)
    ensures |Extracted(s)| == |KeptIndices(s)|
    ensures forall k :: 0 <= k < |KeptIndices(s)| ==>
      Reading(s[KeptIndices(s)[k]].vehicle) == Some(Extracted(s)[k])
    decreases |s|
  {
    if s != [] {
      var n := |s| - 1;
      var p := s[..n];
      assert s == p + [s[n]];
      ExtractedFollowsKeptIndices(p);
      ExtractedAppend(p, [s[n]]);
      ExtractedSingle(s[n]);
      var idx := KeptIndices(s);
      assert idx == KeptIndices(p) + (if Locatable(s[n].vehicle) then [n] else []);
      forall k | 0 <= k < |idx|
        ensures Reading(s[idx[k]].vehicle) == Some(Extracted(s)[k])
      {
        if k < |KeptIndices(p)| {
          assert idx[k] == KeptIndices(p)[k];
          assert s[idx[k]] == p[idx[k]];
        }
      }
    }
  }
}
