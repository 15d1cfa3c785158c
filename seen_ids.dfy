/** The per-account set of message ids already reported.

    A JavaScript `Set` iterates in insertion order (ECMA-262, section 24.2,
    Set Objects), and the cleanup step depends on that order, so a set is
    modelled here as a duplicate-free sequence, oldest id first.
 */
module SeenIds {

  /** How many ids one account keeps after cleanup. */
  const MaxSeen: nat := 1000

  /** The representation invariant of a `Set`: no id occurs twice. */
  predicate NoDuplicates(s: seq<string>)
  {
    forall i, j :: 0 <= i < j < |s| ==> s[i] != s[j]
  }

  /** `Set.prototype.add`: an id already present leaves the set as it is;
      a new one goes to the end of the insertion order. */
  function Add(s: seq<string>, x: string): (r: seq<string>)
    ensures x in r
    ensures forall y :: y in r <==> y in s || y == x
    ensures x in s ==> r == s
    ensures x !in s ==> r == s + [x]
    ensures NoDuplicates(s) ==> NoDuplicates(r)
  {
    if x in s then s else s + [x]
  }

  /** `Set.prototype.delete`: removes the id and keeps the order of the rest. */
  function Delete(s: seq<string>, x: string): (r: seq<string>)
    ensures x !in s ==> r == s
    ensures x in s ==> |r| == |s| - 1
    ensures NoDuplicates(s) ==> NoDuplicates(r) && forall y :: y in r <==> y in s && y != x
  {
    if s == [] then []
    else if s[0] == x then s[1..]
    else
      var rest := Delete(s[1..], x);
      assert NoDuplicates(s) ==> s[0] !in s[1..];
      [s[0]] + rest
  }

  /** Deleting keeps the insertion order of the other ids: it cuts out the
      first occurrence of the id and nothing else. */
  lemma {:induction false} DeleteCutsFirstOccurrence(s: seq<string>, x: string, i: nat)
    requires i < |s| && s[i] == x && x !in s[..i]
    ensures Delete(s, x) == s[..i] + s[i + 1..]
  {
    if i > 0 {
      assert s[1..][..i - 1] == s[1..i];
      DeleteCutsFirstOccurrence(s[1..], x, i - 1);
      assert s == [s[0]] + s[1..];
    }
  }

  /** What the cleanup leaves of a set: its `cap` most recently inserted ids. */
  function Trim(s: seq<string>, cap: nat): (r: seq<string>)
    ensures |r| <= cap
    ensures |s| <= cap ==> r == s
    ensures |s| > cap ==> |r| == cap && s == s[..|s| - cap] + r
  {
    if |s| > cap then s[|s| - cap..] else s
  }

  /** Trimming a set gives a set. */
  lemma TrimKeepsNoDuplicates(s: seq<string>, cap: nat)
    requires NoDuplicates(s)
    ensures NoDuplicates(Trim(s, cap))
  {
  }

  /** Ids inserted by the latest batch are never evicted by the cleanup that
      follows it, as long as the batch itself fits in the capacity. */
  lemma TrimKeepsLatestBatch(before: seq<string>, added: seq<string>, cap: nat)
    requires |added| <= cap
    ensures var r := Trim(before + added, cap);
      |r| >= |added| && r[|r| - |added|..] == added
  {
  }

  /** Eviction is oldest first: an id is evicted iff at least `cap` ids were
      inserted after it. */
  lemma TrimEvictsOldestFirst(s: seq<string>, cap: nat, i: nat)
    requires NoDuplicates(s) && i < |s|
    ensures s[i] !in Trim(s, cap) <==> i + cap < |s|
  {
  }

  /** The cleanup step (route.ts, lines 48-52): when the set holds more than
      `MaxSeen` ids, the oldest `size - MaxSeen` are listed first and then
      deleted one by one. */
  method EvictOldest(seen: seq<string>) returns (kept: seq<string>)
    requires NoDuplicates(seen)
    ensures kept == Trim(seen, MaxSeen)
    ensures NoDuplicates(kept) && |kept| <= MaxSeen
  {
    kept := seen;
    if |kept| > MaxSeen {
      var toDelete := kept[..|kept| - MaxSeen];
      for i := 0 to |toDelete|
        invariant kept == seen[i..]
      {
        kept := Delete(kept, toDelete[i]);
      }
    }
    TrimKeepsNoDuplicates(seen, MaxSeen);
  }
}
