# A verified model of websub-sub

This project models the subscriber side of the `websub-sub` crate and proves what it
keeps over whole runs. It follows the W3C WebSub Recommendation where the crate does:
section 5.1 (subscription request), section 5.3 (verification of intent) and section 7.1
(authenticated content distribution).

Check it with `dafny verify dfyconfig.toml` (Dafny 4.11).

## Parts

- `Subscriptions.dfy` holds the table as a value, with what each SQL query selects and each
  statement leaves. `Db.dfy` is the connection: a class over the table, with the id retry loop.
- `Protocol.dfy` states the two transactions, renewal and commit, as functions on the table and
  proves what they mean. `Hub.dfy` and `Service.dfy` are the methods that carry them out; their
  contracts equate the new table with those functions.
- `Handle.dfy` and `Scheduler.dfy` are the renewal task as classes with `Hasten` and `Poll`.
  `Interleaving.dfy` is the same task access by access, against any number of hastening threads.
- `Runs.dfy` is a machine over the table, the next tick and what is in flight. Verification and
  tick come in it both as one step and split: a check and a commit, and a renewal, a query and a
  store. `Continuity.dfy`, `Conservation.dfy` and `Coverage.dfy` prove its run properties,
  `Timed.dfy` adds the clock, the armed sleep and the wake flag, and `Refinement.dfy` shows that
  the contracts of the methods, and the accesses of `Interleaving.dfy`, are steps of these machines.
- `Answers.dfy` says of the rows alone what a hub is answered, for one request and over runs.
- `Base64Url.dfy`, `CallbackId.dfy` and `CallbackUrl.dfy` are the callback URL, there and back.
- `Signatures.dfy` and `Content.dfy` are the choice of a signature and the streamed verification.
- `Backoff.dfy` and `Accept.dfy` are the accept loop and its pauses.

A `Form` carries the id whose callback URL it names; that URL is
`CallbackUrl.MakeCallback(prefix, id)`.

## Assumptions

- Database transactions are atomic and succeed, and so do the other database calls.
- `Runs` never hands out an id twice: the code draws 64 random bits and retries only when a row
  present has the id. `Refinement.NeverReused` is where a run asks this of the draws.
- The random stream is fair: it leaves any set of ids that is not all of them.
- One integer clock of seconds, which never goes back. At every moment the margin is not after
  `now` (the code subtracts it from an expiry without saturation) and `now + margin + 1` fits
  an `i64` (the code unwraps that conversion). `Protocol.RefreshNeverUnderflowsIff` says for which
  `now` and margin the subtraction is safe for every lease.
- In `Timed` a woken task is polled before time passes, every poll comes within a given delay of
  the armed deadline, and a tick that is split takes no longer than that delay.
- Accesses to the atomics are sequentially consistent. The code uses relaxed ordering for the
  next tick and relies on the waker for the rest.
- `prepare_callback_prefix` gets an absolute URI, so its path and query is empty or starts with
  a slash or a question mark.

## Where the code does not do what one would expect

- `encode` says it strips the most significant zeroes, but cuts at the last zero byte. An id
  survives its round trip exactly when it is under 2^56 or has no zero byte
  (`CallbackId.RoundTripIff`); 2^56, for one, comes back as 0 (`CallbackId.IdIsLost`). With the
  encoding the comment describes every id would (`CallbackId.IntendedRoundTrip`).
- With a query in the callback prefix every callback is routed to id 0
  (`CallbackUrl.RoutesBackIff`).
- The check for an inactive row is outside the transaction that follows. When two rows of one
  pair are checked before either is committed, both challenges are returned and no row is left
  (`Continuity.SplitVerificationLeavesGap`). In any run a served pair that no caller unsubscribes
  stays served exactly if each commit for it finds its row (`Continuity.PairStaysServedIff`).
- `hasten` runs before the commit, and a tick stores its answer unconditionally. In any run every
  active row stays covered by the next tick exactly if each commit finds the next tick not after
  the refresh time it hastened to, and each store holds an answer not after the refresh time of
  any row activated since its query (`Coverage.CoveredThroughoutIff`). Where a run breaks this,
  a row can be left with no tick at all (`Coverage.HastenIsLost`), and then no bound on its
  renewal holds (`Timed.UncoveredRowCanBeLate`) until a next tick (`Coverage.TickRestoresCoverage`).
  Verifications and ticks that do not overlap never break it (`Coverage.CoveredWhenKeptApart`).
- A public `unsubscribe` of an id that was never handed out is the one unsubscription that a
  later row can contradict (`Continuity.UnsubscriptionIsFinalIff`).

## Model

| member | source | states |
|---|---|---|
| Db.Connection.CreateSubscription | src/db/diesel2.rs:289-310 | the id is the first draw that no row has, and the row is added inactive with the given columns |
| Db.Connection.GetSubscriptionsExpireBefore | src/db/diesel2.rs:329-339 | every row with an expiry at or before the threshold, once, with its hub and topic |
| Db.Connection.GetOldSubscriptions | src/db/diesel2.rs:355-364 | every other row of the pair, active or not, once |
| Db.Connection.ActivateSubscription | src/db/diesel2.rs:366-371 | sets the expiry of the row if there is one, and tells whether there was |
| Db.Connection.DeactivateSubscriptionsExpireBefore | src/db/diesel2.rs:373-378 | clears the expiry of exactly the rows at or under the threshold |
| Db.Connection.GetNextExpiry | src/db/diesel2.rs:386-398 | the least expiry of an active row, none if no row is active |
| Protocol.RenewalExact | src/subscriber/service.rs:58-88 | after a renewal no active row is at or under the threshold, old rows keep hub, topic and secret, rows over the threshold do not change, additions are inactive with ids never used |
| Protocol.RenewalFormsExact | src/subscriber/service.rs:72-83 | as many Subscribe forms as rows that expired and as rows added, each announcing a row in the table with the form's columns, and every row added announced |
| Protocol.RenewalSucceeds | src/subscriber/service.rs:63-88 | the expiring rows correspond one to one, injective and onto, to the rows added, each to one of its own hub and topic |
| Protocol.RenewalAsksOncePerPair | src/subscriber/service.rs:72-83 | with one active row a pair, no pair is asked for twice in a renewal |
| Protocol.DueIsAskedFor | src/subscriber/service.rs:72-83 | the pair of every expiring row is asked for |
| Protocol.CommitExact | src/subscriber/service.rs:259-271 | an accepted verification leaves its pair one row, active with the computed expiry, exactly if the verified row is still there, and no row otherwise; every other pair is unchanged |
| Protocol.ExpiryInRange | src/subscriber/service.rs:250-257 | over all u64, the stored expiry is the minimum of now + lease and i64::MAX, and its cast to u64 is lossless |
| Protocol.RefreshNeverUnderflowsIff | src/subscriber/service.rs:289-293 | the refresh time exists for every lease exactly if the margin is not after now; it is then never u64::MAX |
| Hub.CreateSubscription | src/hub.rs:186-196 | an inactive row under an id no row has, with the generated secret, and both as they were drawn |
| Hub.Subscribe | src/hub.rs:87-115 | the form carries the new row's id, hub, topic and generated secret |
| Hub.Unsubscribe | src/hub.rs:117-143 | the row is deleted before the form that names it is handed out |
| Handle.Handle.constructor | src/subscriber/scheduler.rs:107-112 | no first tick is stored as the sentinel |
| Handle.Handle.Hasten | src/subscriber/scheduler.rs:117-123 | the next tick becomes the minimum, and the task is woken exactly if it got earlier and a waker is registered |
| Handle.Handle.DecodeNextTick | src/subscriber/scheduler.rs:125-128 | the decoded tick encodes to the stored value |
| Service.Service.constructor | src/subscriber.rs:271-297 | the handle starts with the first tick of the table found at start-up |
| Service.FirstTickCovers | src/subscriber.rs:273-279 | the first tick is the least refresh time of an active row, saturating at 0, is none exactly if no row is active, and is never the sentinel |
| Answers.UnsubscribeAnswer | src/subscriber/service.rs:276-284 | an unsubscription is confirmed exactly if no row of that id has that topic, and changes nothing |
| Answers.SubscribeAnswer | src/subscriber/service.rs:247-273 | a subscription is confirmed exactly if the row of that id has that topic and is inactive; then it is active until the computed expiry, every other row of its pair is gone with exactly one Unsubscribe form of its own, and all else is as before |
| Answers.HeldRowRefusesUnsubscription | src/subscriber/service.rs:276-284 | in every run, no unsubscription is confirmed for a row still held with its topic |
| Answers.SentUnsubscriptionIsConfirmed | src/hub.rs:133-142 | in every run, after an Unsubscribe form for an id that had been in use each check of it is confirmed |
| Answers.HeldRowIsDelivered | src/subscriber/service.rs:195-229 | in every run, signed content for a held row is passed on once, under the row's own topic and secret with the signature chosen; unsigned content is dropped |
| Answers.UnsubscribedIsGone | src/subscriber/service.rs:205-214 | in every run, signed content for an unsubscribed id is answered as gone and passed on to no one |
| Service.Service.RenewSubscriptions | src/subscriber/service.rs:54-89 | the table and the spawned requests are those of the specified renewal, and the secret and id of each new row come from places of the generator's stream used for nothing else |
| Service.SuccessorSecret | src/hub.rs:186-196 | after a renewal each row added has the hub and topic of its predecessor and a secret drawn for it alone |
| Service.Service.VerifyIntent | src/subscriber/service.rs:232-286 | acceptance, table, requests, hastened tick, wake-up and response for every query and table, including the refusals |
| Service.Service.Call | src/subscriber/service.rs:124-230 | the answer to any request by path, query and signatures, with its not-found and gone cases, what it passes on, and what it changes, the wake-up included |
| Service.Service.Tick | src/subscriber/renew_subscriptions.rs:80-92 | renews, with ids and secrets drawn as they come, then answers the refresh time of the least expiry left, at least two seconds ahead, or none |
| Service.RenewedExpiryIsLate | src/subscriber/renew_subscriptions.rs:86-91 | after a renewal the fallback to 0 is unreachable, nothing underflows, the answer is at least now + 2 and not the sentinel, and it is none exactly if no row is active |
| Scheduler.Scheduler.constructor | src/subscriber/scheduler.rs:45-56 | the first sleep follows the first tick |
| Scheduler.Scheduler.Poll | src/subscriber/scheduler.rs:58-104 | a poll ticks exactly if its deadline has come, then stores and sleeps until the answer; otherwise it only re-arms; it ends once the service is gone |
| Scheduler.RearmedFollowsNextTick | src/subscriber/scheduler.rs:75-89 | re-arming leaves the sleep at the next tick exactly if the next tick was not behind the sleep |
| Scheduler.RearmedIsEarlier | src/subscriber/scheduler.rs:75-89 | in any state the deadline is the earlier of sleep and next tick |
| Interleaving.InvariantInEveryRun | src/subscriber/scheduler.rs:61-103 | the invariant of poll against hasten over every interleaving of their accesses |
| Interleaving.NoLostWakeUp | src/subscriber/scheduler.rs:73-123 | a parked task with no wake pending and no thread about to wake it sleeps exactly until the next tick, or has none; the next tick is not after anything hastened since the last store; a dropped service always leaves a wake |
| Interleaving.ScheduledTickHappens | src/subscriber/scheduler.rs:61-103 | from every quiet state with a next tick, when its time has come the timer has the task polled and it ticks |
| Interleaving.DroppedTaskFinishes | src/subscriber/scheduler.rs:66-70 | dropping the service wakes the parked task, and its next poll ends it |
| Runs.StepSound | src/subscriber/service.rs:247-271 | from any table, each step keeps what is in flight consistent with it, and from a renewal to its store no expiry that the margin would underflow |
| Runs.VerificationInTwo | src/subscriber/service.rs:247-271 | a check and its commit with nothing between are the verification as one step |
| Runs.TickInThree | src/subscriber/renew_subscriptions.rs:84-91 | a renewal, a query and a store with nothing between are the tick as one step |
| Runs.OneActiveInEveryRun | src/subscriber/service.rs:247-271 | in every run, with any number of verifications in flight, a (hub, topic) with at most one active row keeps at most one |
| Runs.OneActiveOnceCommitted | src/db/diesel2.rs:355-371 | whatever the table was, after one commit for a pair it has at most one active row for good |
| Continuity.RowLeavesIff | src/subscriber/service.rs:259-271 | a row leaves the table exactly by an unsubscription of it or by a commit for another id of its pair; otherwise its columns stay |
| Continuity.RowLapsesIff | src/subscriber/service.rs:58-88 | an active row stops being active exactly by leaving the table or by a renewal that finds it under the threshold, which asks for its pair again |
| Continuity.HeldRowStaysServed | src/db/diesel2.rs:312-318 | over any run without those events a held row keeps answering with its topic and secret |
| Continuity.VerifiedRowStaysServed | src/subscriber/service.rs:247-271 | the last verified id of a pair stays served through any number of renewals |
| Continuity.PairStaysServedIff | src/subscriber/service.rs:247-271 | in any run without a caller's unsubscription of it, a served pair is served throughout exactly if each commit for it finds its row |
| Continuity.SerialisedFindsRow | src/subscriber/service.rs:247-271 | with verification as one step that holds in every run |
| Continuity.SplitVerificationLeavesGap | src/subscriber/service.rs:247-273 | with the check apart from the transaction, two checked rows of a pair end with no row at all |
| Continuity.UnsubscribedRowIsGone | src/hub.rs:133-142 | the row named by an Unsubscribe form is already gone, and within a commit it was a row of the form's pair |
| Continuity.UnsubscriptionIsFinalIff | src/subscriber/service.rs:276-281 | the id of an Unsubscribe form is absent in every later world, so that the hub's check is confirmed, exactly if it had been in use |
| Conservation.StepBalance | src/subscriber/service.rs:63-88 | the rows that stop being active but stay are as many as the renewal forms of the step, and the forms account for the change in rows |
| Conservation.ActiveRowsBalance | src/subscriber/service.rs:63-88 | over every run, initially active rows plus activations equal renewal forms plus active rows plus active rows deleted |
| Conservation.RowsBalance | src/hub.rs:131-133 | over every run, initial rows plus Subscribe forms equal rows plus Unsubscribe forms, but for forms about ids with no row |
| Conservation.ConfirmationsBalance | src/subscriber/service.rs:247-273 | over every run, split or not, each confirmed subscription is an activation, still in flight, or a commit that found its row gone or active already |
| Coverage.InitialCovered | src/subscriber.rs:273-293 | every active row is covered by the next tick at start-up |
| Coverage.StepCoveredIff | src/subscriber/service.rs:250-271 | each step of any run keeps every row covered exactly if it is not a late commit that finds a later next tick, nor a store of an answer too late for a row activated since its query |
| Coverage.CoveredThroughoutIff | src/subscriber/scheduler.rs:93-100 | in every run with any interleaving, coverage is never lost exactly if every step meets that condition |
| Coverage.StoreCoversIff | src/subscriber/scheduler.rs:93-100 | also where coverage had been lost, a store covers every row exactly if its answer allows for those activated since its query |
| Coverage.TickRestoresCoverage | src/subscriber/renew_subscriptions.rs:80-92 | from any sound world a whole tick covers every row |
| Coverage.CoveredInEverySerialisedRun | src/subscriber/renew_subscriptions.rs:84-91 | in every serialised run every active row has the next tick at or before its refresh time, and with no tick stored no row is active |
| Coverage.CoveredWhenKeptApart | src/subscriber/scheduler.rs:93-100 | verifications and ticks that are split but do not overlap keep every active row covered throughout |
| Coverage.OverlapOutcome | src/subscriber/scheduler.rs:93-100 | one verification and one tick can overlap in four orders; with nothing else between, each ends covered exactly if the tick's answer is not after the verified row's refresh time |
| Coverage.HastenIsLost | src/subscriber/service.rs:257-259 | a run the system can take, with a hasten between a tick's query and store, that leaves the only active row with no tick at all |
| Coverage.NoScheduledTimeIsTheSentinel | src/subscriber/scheduler.rs:107-128 | no hastened time and no tick answer underflows or is u64::MAX, and decoding never loses one |
| Timed.TimelyInEveryRun | src/subscriber/scheduler.rs:61-103 | in every timed run that keeps coverage, whatever is split or interleaved, no row is active more than the delay past the later of its activation and its refresh time |
| Timed.TimelyFromStartUp | src/subscriber.rs:273-297 | the same from start-up with any table, initial rows counting as activated then |
| Timed.TimelyWhenKeptApart | src/subscriber.rs:273-297 | the same where verifications and ticks, split or not, do not overlap |
| Timed.SerialisedMovesAreKeptApart | src/subscriber/scheduler.rs:61-103 | runs in which nothing is split are of that kind |
| Timed.UncoveredRowCanBeLate | src/subscriber/scheduler.rs:93-100 | while the task sleeps past the refresh time of a row, time may pass the row's deadline |
| Timed.NoActiveRowExpires | src/subscriber/service.rs:54-89 | in a run that keeps coverage, with a delay shorter than the margin and than the lease, a row is never active at its expiry |
| Timed.TicksAreSpaced | src/subscriber/renew_subscriptions.rs:84-91 | with nothing hastened, n ticks take at least 2(n-1) seconds from the stored tick, and with no tick stored there is none |
| Refinement.VerifyIntentIsAMove | src/subscriber/service.rs:232-286 | what the method promises is the timed machine's move, with the same forms and the task woken whenever its tick gets earlier |
| Refinement.SubscribeIsAStep | src/hub.rs:87-115 | what subscribing promises is the machine's step, with the same form |
| Refinement.UnsubscribeIsAStep | src/hub.rs:117-143 | what unsubscribing promises is the machine's step, for whatever id |
| Refinement.RenewSubscriptionsIsAStep | src/subscriber/service.rs:54-89 | what a renewal promises is the machine's step, with the same forms |
| Refinement.PollIsAMove | src/subscriber/scheduler.rs:61-103 | what the method promises is the timed machine's move, with the same forms and the waker registered anew |
| Refinement.PollAccessesAreAMove | src/subscriber/scheduler.rs:61-103 | the accesses of one poll, run together, are the timed machine's move |
| Refinement.HastenAccessesAreAMove | src/subscriber/scheduler.rs:117-123 | the accesses of one hasten, run together, do to the next tick and the task what a verification's move does |
| Base64Url.DecodeEncode | src/util/callback_id.rs:8 | base64url without padding round-trips for every byte string (RFC 4648, section 5) |
| Base64Url.EncodeDecode | src/util/callback_id.rs:16-18 | a text that decodes is the one encoding of its bytes |
| Base64Url.SextetIff | src/util/callback_id.rs:8 | a character is decoded exactly to its place in the alphabet of RFC 4648, section 5 |
| Base64Url.EncodeIsBitwise | src/util/callback_id.rs:8 | each four characters spell the same 24 bits as the three bytes they stand for, the most significant first |
| CallbackId.DecodeSlice | src/util/callback_id.rs:15-18 | fills the front of the buffer with the decoded bytes and leaves the rest, or fails as the text does |
| CallbackId.Decode | src/util/callback_id.rs:11-23 | the buffer code computes the specified decoding |
| CallbackId.DecodeIdIff | src/util/callback_id.rs:11-23 | for every text: it decodes to an id exactly if it is the base64url of at most eight little-endian bytes of that value |
| CallbackId.LittleEndian | src/util/callback_id.rs:22 | each byte counts 256 times as much as the one before it |
| CallbackId.AtMostEightBytes | src/util/callback_id.rs:19-21 | no text of at most eleven characters decodes to more than eight bytes, so that branch is dead |
| CallbackId.RoundTripIff | src/util/callback_id.rs:4-23 | an id comes back exactly if it is under 2^56 or has no zero byte |
| CallbackId.ComesBackAs | src/util/callback_id.rs:4-23 | any id comes back as its remainder by the power of 256 at its last zero byte |
| CallbackId.IdIsLost | src/util/callback_id.rs:6 | 2^56 and its multiples come back as 0 |
| CallbackId.SurvivorsAreDistinct | src/util/callback_id.rs:4-9 | two such ids never share an encoding |
| CallbackId.IntendedRoundTrip | src/util/callback_id.rs:5 | stripping every most significant zero byte round-trips for every id |
| CallbackUrl.RoutesBackIff | src/hub.rs:198-206 | the path of a callback is routed to its id exactly if the prefix has no query and the id survives; with a query, exactly for id 0 |
| CallbackUrl.CallbacksAreDistinct | src/hub.rs:198-206 | ids that survive have distinct callback URLs |
| CallbackUrl.Prepare | src/subscriber.rs:308-323 | the prepared prefix ends with a slash and extends the given one |
| CallbackUrl.PrepareIsLeast | src/subscriber.rs:308-323 | nothing shorter does so |
| CallbackUrl.CallbackIsWritten | src/hub.rs:198-206 | the callback is the prefix, with a slash before and after it made sure of, and the encoded id |
| CallbackUrl.RouteIff | src/subscriber/service.rs:131-150 | a path is a callback of an id exactly if it is the prefix followed by a text of that id, is elsewhere exactly if it does not start with the prefix, and is undecodable otherwise |
| CallbackUrl.PathIff | src/subscriber/service.rs:131-132 | the path is all before the first question mark, or the root |
| Signatures.ParseIff | src/signature.rs:75-105 | a header parses exactly as a known method, an equals sign and the hexadecimal digits of a digest of that method's length |
| Signatures.KnownMethodParsesIff | src/signature.rs:94-104 | the four methods as written, each with the length of its digest |
| Signatures.UnknownMethodIff | src/signature.rs:94-104 | any other method is reported by its name |
| Signatures.DecodeHexIff | src/signature.rs:84-92 | a text is decoded exactly if it is two digits for each byte, in either case, the high one first |
| Signatures.HexDigitIff | src/signature.rs:84-92 | each digit has its value, in either case, and nothing else is a digit |
| Signatures.HubHeaderParses | src/signature.rs:75-105 | the header a hub writes for a signature is read back as it |
| Signatures.SelectSignature | src/subscriber/service.rs:163-193 | the chosen value is the last of the parsed ones of greatest discriminant, none exactly if none parses |
| Signatures.ArgmaxIsUnique | src/signature.rs:107-122 | that description fixes the choice |
| Signatures.ArgmaxIff | src/subscriber/service.rs:166-193 | the one chosen has the longest digest, and of those it is the last given |
| Content.Verifier.Update | src/signature.rs:145-156 | the bytes are added to those fed since the last check |
| Content.Verifier.VerifyReset | src/signature.rs:220-227 | accepts exactly if the MAC of all bytes fed is the signature, and starts over |
| Content.Content.Feed | src/subscriber/update/content.rs:84-98 | the chunk loop feeds every byte of the frame once and in order, whatever its chunks |
| Content.Content.PollData | src/subscriber/update/content.rs:78-105 | yields the frame as it came, having fed each of its bytes once and in order whatever its chunks; at the end compares the code |
| Content.StreamingVerification | src/subscriber/update/content.rs:78-105 | every event passes unchanged and in order, and the body ends cleanly exactly if the MAC of all its bytes is the signature |
| Content.CodeIsOfWholeMessage | src/signature.rs:145-156 | the code of a message is that of the state reached byte by byte from the key's, for any description of that state |
| Content.PayloadSplit | src/subscriber/update/content.rs:84-98 | each frame contributes its bytes in its place and nothing else does |
| Content.EveryByteIsVerified | src/subscriber/update/content.rs:78-105 | for a MAC that records what it is fed, a body ends cleanly exactly if its bytes are the signature |
| Content.ChunkingDoesNotMatter | src/subscriber/update/content.rs:84-98 | bodies of the same bytes are accepted or rejected alike |
| Backoff.Backoff.Increase | src/util/backoff.rs:43-65 | the wait becomes 1 from 0 and doubles otherwise; the deadline moves on from now or from the old deadline |
| Backoff.Backoff.Reset | src/util/backoff.rs:68-72 | nothing is waited for after it, and the next error starts over as if it were the first |
| Backoff.Backoff.Poll | src/util/backoff.rs:75-84 | ready exactly if there is no wait or the deadline has come |
| Accept.Subscriber.AcceptAll | src/subscriber.rs:112-150 | the loop computes the specified call on the acceptor |
| Accept.CalledExact | src/subscriber.rs:112-150 | before the deadline a call does nothing; after it the call serves every connection that is ready, in order, and ends as the answer behind them says: finished exactly if closed, failed exactly if an error meets a wait of 128 |
| Accept.DrainedExact | src/subscriber.rs:117-147 | and the wait is then 0 after a connection, and 1 or doubled after an error |
| Accept.EveryConnectionIsServed | src/subscriber.rs:130-145 | in every run, every connection the listener gives is served, once and in order |
| Accept.CallPaces | src/subscriber.rs:117-128 | a call fails exactly when the listener gives it the ninth consecutive error or a later one; before the deadline it does not poll the listener |
| Accept.PacedInEveryRun | src/util/backoff.rs:33-84 | in every run the wait after k errors is 2^(k-1) and the deadline 2^k - 1 after the first, standing still from the eighth; the wait never exceeds 128 and no poll comes early |
| Accept.PacedFromTheStart | src/subscriber.rs:112-150 | that is so from the first call on, whatever the listener answers |

## Left out

- HTTP transport, the hub's responses, form serialisation and logging: I/O.
- Connection pools, diesel's type plumbing and `src/db/diesel1.rs`, which is the same operations behind a macro.
- Rollback after a request was already spawned, and database errors, which end the renewal task.
- The internals of SHA and HMAC: the MAC is any function that absorbs bytes one by one, with the key in its initial state.
- How secrets and ids are drawn; `gen_secret` is a stream of texts.
- Timer and waker internals, sub-second times and the difference between `Instant` and `SystemTime`: one clock of seconds and a wake flag.
- Weak memory orderings of the atomics.
- Wrap-around of an expiry before the margin in an unchecked build is modelled in `Service.TickAnswer` and `Runs.RefreshOf`; the properties over runs exclude it by the clock assumption.
- Trailers and size hints of the body, and the stream of updates behind its sender.
- `example/` and the SQL migrations.
