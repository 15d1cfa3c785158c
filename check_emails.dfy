/** The `POST /api/check-emails` handler and the module-level cache of
    message ids it has already reported, per account.

    The mock mail check is not modelled: the batch of candidate messages and
    the random decision whether the batch counts as new mail are inputs.
 */
module CheckEmails {
  import opened SeenIds
  import opened Dedup

  datatype Option<T> = None | Some(value: T)

  /** The configuration fields of the request body; `None` is a field that is
      absent or null. */
  datatype Request = Request(
    email: Option<string>,
    password: Option<string>,
    imapHost: Option<string>,
    imapPort: Option<string>)

  datatype Response =
    | BadRequest(status: int, error: string)
    | Success(newEmails: seq<Candidate>, totalChecked: nat)

  const MissingConfiguration: string := "Missing required configuration"

  /** JavaScript truthiness of a string field: absent, null and "" are false. */
  predicate Present(f: Option<string>)
  {
    f.Some? && f.value != ""
  }

  /** The validation of route.ts, lines 9-14. */
  predicate HasRequiredConfig(req: Request)
  {
    Present(req.email) && Present(req.password) && Present(req.imapHost) && Present(req.imapPort)
  }

  /** What the cache keeps between requests: every account's ids form a set
      of at most `MaxSeen` entries. */
  predicate CacheInvariant(cache: map<string, seq<string>>)
  {
    forall key :: key in cache ==> NoDuplicates(cache[key]) && |cache[key]| <= MaxSeen
  }

  /** The seen-set of an account, empty when the account has none yet. */
  function SeenBefore(cache: map<string, seq<string>>, key: string): seq<string>
  {
    if key in cache then cache[key] else []
  }

  datatype Outcome = Outcome(response: Response, cache: map<string, seq<string>>)

  /** One request as a function of the cache before it: the response and the
      cache after it. */
  function Poll(cache: map<string, seq<string>>, req: Request, hasNewEmail: bool,
                candidates: seq<Candidate>): (o: Outcome)
    ensures o.response.BadRequest? <==> !HasRequiredConfig(req)
    ensures o.response.BadRequest? ==>
      o.response == BadRequest(400, MissingConfiguration) && o.cache == cache
    ensures o.response.Success? ==>
      req.email.value in o.cache &&
      o.response.totalChecked == |o.cache[req.email.value]| <= MaxSeen &&
      forall key :: key != req.email.value ==>
        (key in o.cache <==> key in cache) && (key in cache ==> o.cache[key] == cache[key])
  {
    if !HasRequiredConfig(req) then
      Outcome(BadRequest(400, MissingConfiguration), cache)
    else
      var key := req.email.value;
      var seen := SeenBefore(cache, key);
      var newEmails := if hasNewEmail then Unseen(seen, candidates) else [];
      var after := Trim(seen + Ids(newEmails), MaxSeen);
      Outcome(Success(newEmails, |after|), cache[key := after])
  }

  /** A request keeps the cache invariant. */
  lemma PollKeepsCacheInvariant(cache: map<string, seq<string>>, req: Request,
                                hasNewEmail: bool, candidates: seq<Candidate>)
    requires CacheInvariant(cache)
    ensures CacheInvariant(Poll(cache, req, hasNewEmail, candidates).cache)
  {
    if HasRequiredConfig(req) {
      var seen := SeenBefore(cache, req.email.value);
      var newEmails := if hasNewEmail then Unseen(seen, candidates) else [];
      if hasNewEmail {
        UnseenExtendsSet(seen, candidates);
      }
      TrimKeepsNoDuplicates(seen + Ids(newEmails), MaxSeen);
    }
  }

  /** The first valid request for an account creates its seen-set; with no
      new mail that set stays empty. */
  lemma PollCreatesSeenSet(cache: map<string, seq<string>>, req: Request,
                           candidates: seq<Candidate>)
    requires HasRequiredConfig(req) && req.email.value !in cache
    ensures var o := Poll(cache, req, false, candidates);
      o.cache == cache[req.email.value := []] && o.response == Success([], 0)
  {
  }

  /** When the batch does not count as new mail, or every candidate's id is
      already in the account's seen-set (an empty batch included), nothing is
      reported and the cache is left as it was. */
  lemma PollWithoutNewMail(cache: map<string, seq<string>>, req: Request,
                           hasNewEmail: bool, candidates: seq<Candidate>)
    requires CacheInvariant(cache) && HasRequiredConfig(req) && req.email.value in cache
    requires !hasNewEmail || forall c :: c in candidates ==> c.messageId in cache[req.email.value]
    ensures var o := Poll(cache, req, hasNewEmail, candidates);
      o.cache == cache && o.response == Success([], |cache[req.email.value]|)
  {
    var key := req.email.value;
    var seen := cache[key];
    var reported := if hasNewEmail then Unseen(seen, candidates) else [];
    assert reported == [] by {
      if reported != [] {
        UnseenIds(seen, candidates, Ids(reported)[0]);
        assert false;
      }
    }
    assert seen + Ids([]) == seen;
    assert cache[key := seen] == cache;
  }

  /** Every reported message is one of the candidates, and its id was not in
      the account's seen-set before the request. */
  lemma PollReportsOnlyNew(cache: map<string, seq<string>>, req: Request,
                           hasNewEmail: bool, candidates: seq<Candidate>)
    requires HasRequiredConfig(req)
    ensures var o := Poll(cache, req, hasNewEmail, candidates);
      forall c :: c in o.response.newEmails ==>
        c in candidates && c.messageId !in SeenBefore(cache, req.email.value)
  {
    if hasNewEmail {
      var seen := SeenBefore(cache, req.email.value);
      var reported := Unseen(seen, candidates);
      UnseenSeparatesSeen(seen, candidates);
      UnseenIsOrderedSelection(seen, candidates);
      forall c | c in reported
        ensures c in candidates
      {
        var m :| 0 <= m < |reported| && reported[m] == c;
        assert candidates[Reported(seen, candidates)[m]] == c;
      }
    }
  }

  /** The ids of the reported messages are recorded: when at most `MaxSeen`
      are reported, they are the newest entries of the account's seen-set
      after the cleanup, in report order. */
  lemma PollRecordsReported(cache: map<string, seq<string>>, req: Request,
                            hasNewEmail: bool, candidates: seq<Candidate>)
    requires HasRequiredConfig(req)
    ensures var o := Poll(cache, req, hasNewEmail, candidates);
      var reported, after := o.response.newEmails, o.cache[req.email.value];
      |reported| <= MaxSeen ==>
        |after| >= |reported| && after[|after| - |reported|..] == Ids(reported)
  {
  }

  /** A message reported by one request is not reported again by the next
      request for the same account, unless the cleanup evicted its id. */
  lemma PollNoRedelivery(cache: map<string, seq<string>>, req1: Request, has1: bool,
                         batch1: seq<Candidate>, req2: Request, has2: bool,
                         batch2: seq<Candidate>, c: Candidate)
    requires HasRequiredConfig(req1) && req2.email == req1.email
    requires var o1 := Poll(cache, req1, has1, batch1);
      c in o1.response.newEmails && c.messageId in o1.cache[req1.email.value]
    ensures var o1 := Poll(cache, req1, has1, batch1);
      var o2 := Poll(o1.cache, req2, has2, batch2);
      o2.response.Success? ==> forall d :: d in o2.response.newEmails ==> d.messageId != c.messageId
  {
    var o1 := Poll(cache, req1, has1, batch1);
    if HasRequiredConfig(req2) {
      PollReportsOnlyNew(o1.cache, req2, has2, batch2);
    }
  }

  /** The module-level cache of route.ts, line 3. */
  class EmailCache {
    var entries: map<string, seq<string>>

    ghost predicate Valid()
      reads this
    {
      CacheInvariant(entries)
    }

    constructor ()
      ensures Valid() && entries == map[]
    {
      entries := map[];
    }

    /** The handler (route.ts, lines 7-57): validate the configuration,
        create the account's seen-set if needed, filter the batch when it
        counts as new mail, then trim the set back to `MaxSeen` ids. */
    method Check(req: Request, hasNewEmail: bool, candidates: seq<Candidate>)
      returns (resp: Response)
      requires Valid()
      modifies this
      ensures Valid()
      ensures Outcome(resp, entries) == Poll(old(entries), req, hasNewEmail, candidates)
    {
      if !HasRequiredConfig(req) {
        return BadRequest(400, MissingConfiguration);
      }
      var key := req.email.value;
      if key !in entries {
        entries := entries[key := []];
      }
      var seen := entries[key];
      assert seen == SeenBefore(old(entries), key);
      var newEmails: seq<Candidate> := [];
      if hasNewEmail {
        newEmails, seen := FilterUnseen(seen, candidates);
      } else {
        assert seen + Ids(newEmails) == seen;
      }
      seen := EvictOldest(seen);
      entries := entries[key := seen];
      resp := Success(newEmails, |seen|);
    }
  }
}
