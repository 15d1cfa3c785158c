/** The deduplicating filter of the check-emails handler: a candidate message
    is reported only if its message id has not been seen for the account, and
    the filter records each id as it reports it.
 */
module Dedup {
  import opened SeenIds

  /** A message as the mail check produces it. */
  datatype Candidate = Candidate(
    id: string,
    from: string,
    subject: string,
    timestamp: string,
    preview: string,
    messageId: string)

  /** The message ids of a batch, in batch order. */
  function Ids(cs: seq<Candidate>): (ids: seq<string>)
    ensures |ids| == |cs|
    ensures forall k :: 0 <= k < |cs| ==> ids[k] == cs[k].messageId
  {
    seq(|cs|, k requires 0 <= k < |cs| => cs[k].messageId)
  }

  /** The candidate at position `k` is new: its id was not seen before the
      batch, and no earlier candidate of the batch carries the same id. */
  predicate IsFirstUnseen(seen: seq<string>, cs: seq<Candidate>, k: nat)
    requires k < |cs|
  {
    cs[k].messageId !in seen &&
    forall j :: 0 <= j < k ==> cs[j].messageId != cs[k].messageId
  }

  /** The candidates of `cs` that are new with respect to `seen`, in batch
      order: the reference meaning of the filter. */
  function Unseen(seen: seq<string>, cs: seq<Candidate>): seq<Candidate>
  {
    if cs == [] then []
    else
      var n := |cs| - 1;
      Unseen(seen, cs[..n]) + (if IsFirstUnseen(seen, cs, n) then [cs[n]] else [])
  }

  /** The positions of `cs` that the filter reports, in increasing order. */
  function Reported(seen: seq<string>, cs: seq<Candidate>): seq<nat>
  {
    if cs == [] then []
    else
      var n := |cs| - 1;
      Reported(seen, cs[..n]) + (if IsFirstUnseen(seen, cs, n) then [n] else [])
  }

  lemma IdsAppend(cs: seq<Candidate>, c: Candidate)
    ensures Ids(cs + [c]) == Ids(cs) + [c.messageId]
  {
  }

  /** An id is reported iff it was unseen before and occurs in the batch. */
  lemma {:induction false} UnseenIds(seen: seq<string>, cs: seq<Candidate>, x: string)
    ensures x in Ids(Unseen(seen, cs)) <==> x !in seen && x in Ids(cs)
  {
    if cs != [] {
      var n := |cs| - 1;
      var prefix := cs[..n];
      UnseenIds(seen, prefix, x);
      assert cs == prefix + [cs[n]];
      IdsAppend(prefix, cs[n]);
      assert x in Ids(cs) <==> x in Ids(prefix) || x == cs[n].messageId;
      if IsFirstUnseen(seen, cs, n) {
        IdsAppend(Unseen(seen, prefix), cs[n]);
      } else {
        assert Unseen(seen, cs) == Unseen(seen, prefix);
        if x == cs[n].messageId && x !in seen {
          var j :| 0 <= j < n && cs[j].messageId == cs[n].messageId;
          assert Ids(prefix)[j] == x;
        }
      }
    }
  }

  /** Every reported candidate had an id absent from the seen-set before the
      call, and after filtering every candidate's id is in the seen-set. */
  lemma UnseenSeparatesSeen(seen: seq<string>, cs: seq<Candidate>)
    ensures forall c :: c in Unseen(seen, cs) ==> c.messageId !in seen
    ensures forall k :: 0 <= k < |cs| ==> cs[k].messageId in seen + Ids(Unseen(seen, cs))
  {
    var r := Unseen(seen, cs);
    forall c | c in r
      ensures c.messageId !in seen
    {
      var m :| 0 <= m < |r| && r[m] == c;
      UnseenIds(seen, cs, Ids(r)[m]);
    }
    forall k | 0 <= k < |cs|
      ensures cs[k].messageId in seen + Ids(r)
    {
      UnseenIds(seen, cs, Ids(cs)[k]);
    }
  }

  /** Recording the reported ids keeps the seen-set free of duplicates; in
      particular the reported candidates carry pairwise distinct ids. */
  lemma {:induction false} UnseenExtendsSet(seen: seq<string>, cs: seq<Candidate>)
    requires NoDuplicates(seen)
    ensures NoDuplicates(seen + Ids(Unseen(seen, cs)))
  {
    if cs != [] {
      var n := |cs| - 1;
      var prefix := cs[..n];
      UnseenExtendsSet(seen, prefix);
      if IsFirstUnseen(seen, cs, n) {
        var before := Unseen(seen, prefix);
        UnseenIds(seen, prefix, cs[n].messageId);
        assert cs[n].messageId !in seen + Ids(before);
        IdsAppend(before, cs[n]);
        assert Unseen(seen, cs) == before + [cs[n]];
        assert seen + Ids(before + [cs[n]]) == Add(seen + Ids(before), cs[n].messageId);
      } else {
        assert Unseen(seen, cs) == Unseen(seen, prefix);
      }
    }
  }

  /** The filter is an order-preserving selection from the batch: the
      reported candidates are those at the increasing positions `Reported`,
      and a position is reported iff its candidate is new and is the first of
      the batch to carry its id. */
  lemma {:induction false} UnseenIsOrderedSelection(seen: seq<string>, cs: seq<Candidate>)
    ensures var r, pos := Unseen(seen, cs), Reported(seen, cs);
      |pos| == |r| &&
      (forall m :: 0 <= m < |pos| ==> pos[m] < |cs| && r[m] == cs[pos[m]]) &&
      (forall m, m' :: 0 <= m < m' < |pos| ==> pos[m] < pos[m']) &&
      (forall k :: 0 <= k < |cs| ==> (k in pos <==> IsFirstUnseen(seen, cs, k)))
  {
    if cs != [] {
      var n := |cs| - 1;
      var prefix := cs[..n];
      UnseenIsOrderedSelection(seen, prefix);
      forall k | 0 <= k < n
        ensures IsFirstUnseen(seen, prefix, k) == IsFirstUnseen(seen, cs, k)
      {
      }
    }
  }

  /** The dedup filter (route.ts, lines 38-46) for a batch that is checked:
      each candidate is tested against the account's seen-set, and an unseen
      one is added to the set and kept. */
  method FilterUnseen(seen0: seq<string>, candidates: seq<Candidate>)
    returns (kept: seq<Candidate>, seen: seq<string>)
    ensures kept == Unseen(seen0, candidates)
    ensures seen == seen0 + Ids(kept)
    ensures NoDuplicates(seen0) ==> NoDuplicates(seen)
  {
    kept, seen := [], seen0;
    for i := 0 to |candidates|
      invariant kept == Unseen(seen0, candidates[..i])
      invariant seen == seen0 + Ids(kept)
      invariant NoDuplicates(seen0) ==> NoDuplicates(seen)
    {
      var c := candidates[i];
      UnseenIds(seen0, candidates[..i], c.messageId);
      assert candidates[..i + 1][..i] == candidates[..i];
      assert IsFirstUnseen(seen0, candidates[..i + 1], i) <==> c.messageId !in seen by {
        if c.messageId in Ids(candidates[..i]) {
          var j :| 0 <= j < i && Ids(candidates[..i])[j] == c.messageId;
          assert candidates[..i + 1][j].messageId == c.messageId;
        }
      }
      if c.messageId !in seen {
        seen := Add(seen, c.messageId);
        IdsAppend(kept, c);
        kept := kept + [c];
      }
    }
    assert candidates[..|candidates|] == candidates;
  }
}
