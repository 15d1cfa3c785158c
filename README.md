# Email check cache: a Dafny model

This project models the server side of a demo email-notification app: the
`POST /api/check-emails` handler and the module-level cache it keeps between
requests. The cache maps an account (its email address) to the set of message
ids already reported for that account. Each request:

1. rejects the call with status 400 when `email`, `password`, `imapHost` or
   `imapPort` is missing or empty;
2. creates an empty seen-set for a new account;
3. when the batch counts as new mail, keeps only the candidates whose
   `messageId` is not yet in the set, and records each kept id as it goes;
4. trims the set back to its 1000 most recently inserted ids;
5. answers with the new messages and the set's size (`totalChecked`).

A JavaScript `Set` iterates in insertion order (ECMA-262, section 24.2, Set
Objects), and step 4 relies on that order. So a seen-set is modelled as a
duplicate-free `seq<string>` with the oldest id first.

Modules:

- `SeenIds` (`seen_ids.dfy`): the Set operations (`Add`, `Delete`), the cleanup
  as a specification (`Trim`), and the cleanup loop (`EvictOldest`).
- `Dedup` (`dedup.dfy`): the candidate message, the reference meaning of the
  dedup filter (`Unseen`: a candidate is reported iff its id was unseen and no
  earlier candidate of the batch carries it), and the filter loop
  (`FilterUnseen`), which is proved equal to it.
- `CheckEmails` (`check_emails.dfy`): request and response, the whole request
  as a function of the cache (`Poll`), the lemmas about it, and the
  `EmailCache` class whose `Check` method is proved to do what `Poll` says.

The mock mail check in the handler produces a batch of exactly one candidate
from the clock, and decides by `Math.random() < 0.2` whether the batch counts
as new mail. Both become inputs of `Check` and `Poll`: `candidates` and
`hasNewEmail`. The model generalises the batch to any sequence of candidates,
as a real mail fetch would return, so statements below about batches larger
than one (or than 1000) describe the filter and the cleanup, not something the
mock handler can produce.

Eviction follows insertion order, which ECMA-262 guarantees for `Set`. Ids
recorded by a request are safe from that request's cleanup only when it
reports at most 1000 messages: a batch with more than 1000 new ids evicts some
of its own ids. `SeenIds.TrimKeepsLatestBatch` and
`CheckEmails.PollRecordsReported` carry that condition.

## Model

| member | source | states |
|---|---|---|
| `SeenIds.Add` | app/api/check-emails/route.ts:41 | adding an id puts it in the set and adds nothing else; an id already present leaves the set as it is; a new id goes last in insertion order; the result is still duplicate-free |
| `SeenIds.Delete` | app/api/check-emails/route.ts:51 | deleting an id removes exactly that id: the size drops by one when it was present and the set is unchanged otherwise; the result is still duplicate-free |
| `SeenIds.DeleteCutsFirstOccurrence` | app/api/check-emails/route.ts:51 | deleting an id cuts out exactly its occurrence, so the other ids keep their insertion order |
| `SeenIds.Trim` | app/api/check-emails/route.ts:48-52 | the cleaned set has at most `cap` ids; a set within the bound is unchanged; a larger set loses exactly its `size - cap` oldest ids, and the survivors are the rest in their original order |
| `SeenIds.TrimKeepsNoDuplicates` | app/api/check-emails/route.ts:48-52 | the cleanup keeps a set duplicate-free |
| `SeenIds.TrimKeepsLatestBatch` | app/api/check-emails/route.ts:48-52 | ids added by the latest batch survive the cleanup that follows it, and stay its most recent entries, when the batch has at most `cap` ids |
| `SeenIds.TrimEvictsOldestFirst` | app/api/check-emails/route.ts:50-51 | an id is evicted iff at least `cap` ids were inserted after it |
| `SeenIds.EvictOldest` | app/api/check-emails/route.ts:48-52 | listing the `size - 1000` oldest ids and deleting them one by one gives `Trim(seen, 1000)`: a duplicate-free set of at most 1000 ids |
| `Dedup.UnseenIds` | app/api/check-emails/route.ts:38-46 | an id is among the reported ones iff it was not in the seen-set before and occurs in the batch |
| `Dedup.UnseenSeparatesSeen` | app/api/check-emails/route.ts:39-45 | every reported candidate's id was absent from the seen-set before the call; after filtering, every candidate's id is in the seen-set |
| `Dedup.UnseenExtendsSet` | app/api/check-emails/route.ts:39-45 | appending the reported ids to a duplicate-free seen-set keeps it duplicate-free, so the reported ids are pairwise distinct |
| `Dedup.UnseenIsOrderedSelection` | app/api/check-emails/route.ts:38-46 | the reported candidates are the candidates at strictly increasing positions, and a position is reported iff its id is unseen and no earlier candidate of the batch has it; a repeated id is reported at its first occurrence only |
| `Dedup.FilterUnseen` | app/api/check-emails/route.ts:38-46 | the side-effecting filter loop returns exactly the first-unseen candidates in batch order, and leaves the seen-set as the old set followed by their ids, duplicate-free if it was |
| `CheckEmails.Poll` | app/api/check-emails/route.ts:9-57 | a request is rejected with status 400 and "Missing required configuration", leaving the cache unchanged, iff a config field is missing or empty; otherwise the account has a seen-set afterwards, `totalChecked` equals its size and is at most 1000, and every other account's entry is unchanged |
| `CheckEmails.PollKeepsCacheInvariant` | app/api/check-emails/route.ts:16-52 | every request keeps every account's seen-set duplicate-free and at most 1000 ids |
| `CheckEmails.PollCreatesSeenSet` | app/api/check-emails/route.ts:16-20 | the first valid request for an account without new mail adds an empty seen-set for it and nothing else, and answers with no messages and `totalChecked` 0 |
| `CheckEmails.PollWithoutNewMail` | app/api/check-emails/route.ts:36-52 | when the batch does not count as new mail, or every candidate's id is already in the account's seen-set (an empty batch included), no message is reported and the cache is left unchanged; in particular, re-polling a batch whose ids all survived the previous cleanup changes nothing |
| `CheckEmails.PollReportsOnlyNew` | app/api/check-emails/route.ts:38-46 | every reported message is one of the candidates, and its id was not in the account's seen-set before the request |
| `CheckEmails.PollRecordsReported` | app/api/check-emails/route.ts:38-52 | when at most 1000 messages are reported, their ids are the newest entries of the account's seen-set after cleanup, in report order |
| `CheckEmails.PollNoRedelivery` | app/api/check-emails/route.ts:38-52 | a message reported by one request is not reported by the next request for the same account unless its id was evicted |
| `CheckEmails.EmailCache.constructor` | app/api/check-emails/route.ts:3 | the cache starts empty and satisfies the invariant |
| `CheckEmails.EmailCache.Check` | app/api/check-emails/route.ts:7-57 | the handler keeps the cache invariant, and its response and new cache are exactly those of `Poll` on the old cache |

## Left out

- The mock data (route.ts, lines 22-36): `Date.now()`, `Math.random()` and `toLocaleString()` are clock and randomness sources. The candidate batch and the `hasNewEmail` decision are inputs instead; the batch is generalised from the source's single mock candidate to any sequence.
- `request.json()`, `NextResponse.json` and the `catch` that answers with status 500 (route.ts, lines 7 and 54-66): framework and JSON I/O. The response is a datatype, and the 500 path, reachable when the body cannot be parsed or is JSON `null` (the destructuring at line 7 then throws), is not modelled.
- Configuration fields of a JSON type other than string: they are modelled as absent, null or a string. The truthiness of numbers, booleans and objects, and a non-string `email` used as a cache key, are not modelled.
- The per-account `Set` object is modelled as a value: it is read from the map, transformed, and written back. Nothing else holds a reference to it during a request, so the aliasing is not observable.
- Concurrent requests: each `Check` runs to completion, as the synchronous part of the JavaScript handler does.
- `console.error` logging (route.ts, line 61).
- The commented-out IMAP implementation (route.ts, lines 69-128): it is not live code, and it is network and parsing plumbing over external libraries.
- `app/page.tsx`: React state and rendering, the polling timer, `fetch` and browser notifications. Its one input check (page.tsx, line 73) tests `email` and `password`, a subset of the fields the modelled server-side validation tests.
- A scheduled polling engine with start, stop and single-flight cycles: it does not exist in the code.
