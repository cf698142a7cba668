# Verified models of the commerce core

Dafny models of the parts of this repository where correctness spans a run, a loop or several
functions, with proofs of what those parts promise.  `dafny verify dfyconfig.toml` checks the
whole project.

- **Bounded compare-and-set** (`cas_machine`, `cas_retry`, `attempt_throttle`, `order_notes`,
  `versioned_doc`).  One versioned document and any number of callers, each in a bounded
  retry loop.  An interleaving is a sequence of actions (read, write, host abort) and every
  theorem ranges over all of them.  The throttle and the order notes are programs of that machine.
- **The payment-secret re-save** (`payment_secrets_host`, `payment_secret_runs`,
  `encrypt_payment_secrets`, `payment_secret_alone`).  The host's rows, copies outside the options table and marker;
  any number of re-save calls step by step among operator saves; and the imperative run itself
  against a host that may interfere or refuse at every call.
- **The keyset window** (`merge_by_id`, `page_trail`, `window_walk`).  The identity merge, the
  cursor stack, and the refresh walk over a collection that changes between requests.
- **The cart ledger** (`cart_ledger`, `cart_runs`).  Eviction, the denormalized deadline, and the
  replay guarantee over whole runs.
- **The Stripe adapter** (`stripe_replay`, `stripe_create_runs`, `call_deadline`).  The same-key
  replay loop, concurrent two-stage creates against an idempotent provider, and one call's time
  bound as a class driven by callbacks.
- **Fast forms and specifications** (`short_id`, `order_number`, `decimal_text`, `money_input`,
  `containment_chains`, `containment_table`, `split_join`, `iso_containment`).

`options`, `sorting` and `ascii_text` are shared.  Where the source keeps state in an object or a
loop, the model is a class or a method proved against a specification function; interleavings are
sequences of actions over immutable worlds.

## What the model shows about the code

Five findings differ from the text around the code.

- `close` on a call's deadline cancels every unread body, but it clears the timer and skips a locked
  body: a read that is still under way when `close` runs is bounded by nothing
  (packages/payments-stripe/src/deadline.ts:61-69 and 142-146).  Nothing leaks exactly when no streamed
  read is under way (`CloseLeaksNothingExactlyWhenNoReadIsUnderWay`), and a run that gets there is
  `ClosingARunningReadLeaks`; the transport awaits its reads first.
- An order whose `customerRequired` was never recorded asks the gateway's resolver in each call, so two
  concurrent calls may send different bodies over one key and one is refused.  Exactly those orders can
  be (`RefusedExactlyWhenNotFixed`); while the resolver keeps its answer they run as fixed ones
  (`SteadyRunsAreFixed`).
- A comment in packages/store-emdash/src/emdash-cart-store.ts at line 776 calls an abandoned record
  never prunable; `pruneMutations` keeps only the newest 16 of them, which is what is modelled.
- The two-parents check of the code generator compares children as written, and `contains` is never
  folded (packages/domain/scripts/generate-iso-3166.ts:163-168), while the emitted text spells them upper
  case.  Children that differ only in case, under two parents, pass every check and one parent is lost
  (`CaseTwinsLoseAParent`); nothing is lost exactly when children spelled alike have parents spelled alike.
- An id, UUID or not, is only sure of a cell of its own under a number that begins it: an extension
  starts after as many characters as the number shows, whichever they are
  (packages/admin-presentation/src/order-number.ts:58-64).  A recorded number that begins neither of two
  ids can print one cell for both (`ForeignNumberCollides`), and so can an id listed under two numbers
  (`TwoNumbersCollide`).

Three conditions are exact rather than sufficient.  Two rows of a shared number are told apart exactly when
their ids begin alike as far as it shows or differ between there and where each stands alone; a refresh of
the whole window keeps the page number if and only if the window fits the stack it stands on; and a re-save
run retries, undisturbed, if and only if a key it must re-save holds a structured value, because the
read-back compares with `!==`.

## Model

| member | source | states |
|---|---|---|
| CasRetry.WithCasRetry | packages/store-emdash/src/cas-retry.ts:190-225 | the loop ends at the first attempt that decides and answers with it; otherwise no attempt within the ceiling decides and the contention error carries the last abort; each pause is the random share of its ceiling, and within the default 24 attempts they total at most 962 ms however the run ends |
| CasRetry.TotalPause | packages/store-emdash/src/cas-retry.ts:69-75 | the backoff ceilings of n failures add up to 2·2^n - 2 ms for the first five and to 62 + 50(n-5) ms from there on |
| CasRetry.FailuresArePaidFor | packages/store-emdash/src/cas-retry.ts:190-225 | in every interleaving each failed attempt is a host abort or is charged to its own peer commit between its read and its write; a contention error means the whole budget went that way and the caller wrote nothing |
| CasRetry.ChargesAreDistinctCommits | packages/store-emdash/src/cas-retry.ts:190-225 | no two lost attempts are charged to one commit, so losses are bounded by peer commits |
| CasRetry.CallerIsTheLoop | packages/store-emdash/src/cas-retry.ts:190-225 | take as outcome of attempt k what the caller's program decides on the document it read then, and whether that revision still stood at its write: the caller finishes on the loop's first deciding attempt with that answer, and is exhausted only when none within the ceiling decides |
| CasRetry.LostAttemptMoved | packages/store-emdash/src/cas-retry.ts:190-225 | an attempt recorded as lost is one whose program decided to write over a revision that had moved on by its write |
| CasRetry.LastAttemptIsDone | packages/store-emdash/src/cas-retry.ts:190-225 | the finishing attempt is the program's own decision on the document it read and, when it writes, the commit right over that document |
| CasMachine.UninterruptedFinishes | packages/store-emdash/src/cas-retry.ts:204-217 | an attempt nobody gets between ends the call with its answer, and its write when it decides one is applied over the value it read |
| CasMachine.FailedAttempts | packages/store-emdash/src/cas-retry.ts:204-221 | an attempt that lost its revision or was aborted writes nothing and is one failure more, and the call tries again until its failures reach the ceiling |
| CasMachine.StepKeeps | packages/store-emdash/src/cas-retry.ts:190-225 | every step keeps the log a serial execution of the callers' programs and every charge inside its own attempt |
| VersionedDocs.VersionedDoc.CompareAndSet | packages/store-emdash/src/emdash-attempt-throttle.ts:80-84 | a write applies exactly at the expected revision and mints a new one; refused, it changes nothing |
| AttemptThrottle.CapHolds | packages/store-emdash/src/emdash-attempt-throttle.ts:73-85 | no written document holds more slots than the cap, at any point of any interleaving and whatever document was there first |
| AttemptThrottle.TrueIffOwnSlotWritten | packages/store-emdash/src/emdash-attempt-throttle.ts:73-85 | a call answers true if and only if its own slot was written, once, retries included; false means its read was full |
| AttemptThrottle.WindowCap | packages/store-emdash/src/emdash-attempt-throttle.ts:65-85 | with clock stamps non-decreasing in commit order, no half-open interval of one window holds more grants than the cap, whatever document the run starts from |
| AttemptThrottle.DocumentIsTheLiveGrants | packages/store-emdash/src/emdash-attempt-throttle.ts:73-85 | each written document is the starting slots followed by the grants so far, in order, those still live at the last grant |
| AttemptThrottle.LiveIsUnexpired | packages/store-emdash/src/identity-documents.ts:420-422 | the live slots are exactly those that expire after now |
| AttemptThrottle.LiveCounts | packages/store-emdash/src/identity-documents.ts:420-422 | each unexpired slot stays as often as it was there and no other slot does |
| AttemptThrottle.LiveSplits | packages/store-emdash/src/identity-documents.ts:420-422 | the filter keeps order: the live slots of two parts put together are the two parts' live slots put together |
| AttemptThrottle.NobodyIsExhausted | packages/store-emdash/src/emdash-attempt-throttle.ts:73-88 | when no slot lapses between the calls (slots lapsed before them may be there), no write aborts and the free slots are fewer than the ceiling, no call throws and each spends at most one attempt more than there are free slots |
| AttemptThrottle.ExactlyTheFreeSlotsAreGranted | packages/store-emdash/src/emdash-attempt-throttle.ts:73-88 | then, once all finished, exactly min(N, max(0, cap - L)) of N calls answered true, L being the slots live when they began, even above a lowered cap |
| AttemptThrottle.EmdashAttemptThrottle.Admit | packages/store-emdash/src/emdash-attempt-throttle.ts:65-90 | the loop over the shared document: what it answers, what it leaves stored, and that each failed attempt had a peer commit under it |
| OrderNotes.AppendIsPutIfAbsent | packages/store-emdash/src/emdash-order-notes-store.ts:105-122 | in every interleaving with one key, all that complete return the one stored note, and exactly one reports having appended it on an absent key, none on a present one |
| OrderNotes.StoredNoteIsTheWinners | packages/store-emdash/src/emdash-order-notes-store.ts:105-122 | what every completing call returns carries one call's own order, author and body, with the id and time that call's winning attempt drew |
| OrderNotes.StoredNoteIsFinal | packages/store-emdash/src/emdash-order-notes-store.ts:105-122 | once stored, the note is the same after any further steps |
| OrderNotes.OneLossAtMost | packages/store-emdash/src/emdash-order-notes-store.ts:118-121 | a refused create happens to a call at most once, so only host aborts can exhaust its retries |
| OrderNotes.ListForOrder | packages/store-emdash/src/emdash-order-notes-store.ts:125-146 | returns every note of the order exactly once, by creation time and then by id, or is refused, exactly when the order has more notes than the pages of 100 can read |
| OrderNotes.NotesOfIsTheOrders | packages/store-emdash/src/emdash-order-notes-store.ts:129-133 | the notes listed are the collection's notes of that order, with multiplicity |
| OrderNotes.NoteOrder | packages/store-emdash/src/order-notes-documents.ts:91-97 | creation time then id is a total order |
| PaymentSecretRuns.ReadersSeeTheLastSave | packages/plugin/src/encrypt-payment-secrets.ts:157-281 | in every interleaving of re-save calls with operator saves, every key reads as its last save, or as at the start |
| PaymentSecretRuns.OnlySavesChangeValues | packages/plugin/src/encrypt-payment-secrets.ts:224-262 | no step of a re-save, its fallback included, changes or hides a readable value |
| PaymentSecretRuns.MarkerNamesSealedRows | packages/plugin/src/encrypt-payment-secrets.ts:199-208 | every marker entry names a revision an encrypting write of that key made, so a matching row is encrypted |
| PaymentSecretRuns.ReturnsAreSealed | packages/plugin/src/encrypt-payment-secrets.ts:199-275 | an already-done return on a matching marker wrote nothing and every key it read was encrypted; an encrypted return recorded every key it read at an encrypting revision |
| PaymentSecretRuns.NoReadableKeyIsLeftOut | packages/plugin/src/encrypt-payment-secrets.ts:175-275 | in every interleaving, each of the three keys, plain or encrypted, that is readable when a call begins is among what it read: an encrypted return recorded it at a revision an encrypting write made, an already-done return on a matching marker read it encrypted |
| PaymentSecretRuns.FailedPreflightWritesNothing | packages/plugin/src/encrypt-payment-secrets.ts:175-197 | a refused preflight read ends the call with no write, whatever happens afterwards |
| PaymentSecretRuns.WhatSettles | packages/plugin/src/encrypt-payment-secrets.ts:182-206 | an isolate is settled by a call that finishes, by one that finds the marker matching, and by one a key problem stopped when a marker is there to be read; by nothing else |
| PaymentSecretRuns.SkippedWasEarned | packages/plugin/src/encrypt-payment-secrets.ts:157-206 | in every interleaving a call skips its preflight only where a call of that isolate re-saved, found the marker matching or was stopped by a key problem with nothing written; and every successful return settles its isolate |
| PaymentSecretRuns.SettledIsolatesSkip | packages/plugin/src/encrypt-payment-secrets.ts:157-162 | a call that begins in a settled isolate reads and writes nothing, whatever happens afterwards |
| PaymentSecretRuns.ProgressIsRecorded | packages/plugin/src/encrypt-payment-secrets.ts:251-267 | as soon as a key is read back, and again at the end, the marker reads as the revisions recorded, that key's included |
| PaymentSecretRuns.RefusalsAre | packages/plugin/src/encrypt-payment-secrets.ts:182-280 | a key problem in the preflight looks at the marker first, any other refusal ends the call in a retry at once; either way nothing is written |
| PaymentSecretRuns.StepKeeps | packages/plugin/src/encrypt-payment-secrets.ts:157-281 | every step keeps the host sound and what each call remembers of it true |
| PaymentSecretsHost.ResaveReadsItsValue | packages/plugin/src/encrypt-payment-secrets.ts:225-226 | the conditional write can apply only while the value read is still readable |
| PaymentSecretsHost.ReReadLicenses | packages/plugin/src/encrypt-payment-secrets.ts:228-239 | a re-read at the preflight revision licenses create-if-absent from then on |
| PaymentSecretsHost.MarkerRoundTrip | packages/plugin/src/encrypt-payment-secrets.ts:141-151 | the marker written reads back as the revisions it records |
| PaymentSecretsHost.OnlyThisKeySet | packages/plugin/src/encrypt-payment-secrets.ts:141-151 | a marker counts if and only if it carries this build's key-set tag and a record of revisions, of which exactly the texts are taken |
| EncryptPaymentSecrets.EncryptStoredPaymentSecrets | packages/plugin/src/encrypt-payment-secrets.ts:157-281 | under any saves and refusals values survive and the marker stays sound; undisturbed, already-done exactly on a settled host with no conditional write, retry exactly when a pending value is structured, and otherwise the host is left settled |
| EncryptPaymentSecrets.SettledMeans | packages/plugin/src/encrypt-payment-secrets.ts:199-206 | a host is settled if and only if the marker's entries are exactly the readable ones of the three keys, each at its current revision |
| EncryptPaymentSecrets.SettledIsSealed | packages/plugin/src/encrypt-payment-secrets.ts:199-206 | on a settled host every one of the three keys that can be read is encrypted |
| EncryptPaymentSecrets.FreshIsolateAfterSuccess | packages/plugin/src/encrypt-payment-secrets.ts:157-281 | after one successful undisturbed run a fresh isolate's run asks for no conditional write and changes nothing |
| PaymentSecretAlone.AloneItSettles | packages/plugin/src/encrypt-payment-secrets.ts:157-275 | a call run step by step with nobody saving and nothing refused returns: already done with the host untouched exactly when it was settled, to be retried exactly when a key to re-save holds a structured value, and otherwise encrypted with the host settled; copies outside the options table included |
| EncryptPaymentSecrets.StopInPreflight | packages/plugin/src/encrypt-payment-secrets.ts:182-197 | the stopped call writes nothing: the host is what operators' saves made of it, the marker as it was; the site is settled in the isolate exactly when it was before, or the problem is the key's and a marker is there to be read |
| EncryptPaymentSecrets.ResaveKey | packages/plugin/src/encrypt-payment-secrets.ts:224-250 | one key's write, fallback and read-back: what is reported written was sealed; undisturbed it is the same value at a fresh revision |
| EncryptPaymentSecrets.ProgressSettles | packages/plugin/src/encrypt-payment-secrets.ts:199-268 | the revisions recorded at the end make the next preflight find every key matching |
| MergeById.MergeById | packages/admin-react/src/accumulate.ts:43-72 | the merge holds each id once, in order of first appearance across old then new, with the last incoming content, otherwise the first old one |
| MergeById.MergeIsUnique | packages/admin-react/src/accumulate.ts:43-72 | that specification determines the result |
| MergeById.NewerRowWins | packages/admin-react/src/accumulate.ts:54-72 | the row shown for an id is the last one the new page has of it, and the first of the old ones when that page has none |
| MergeById.MergeIsAssociative | packages/admin-react/src/accumulate.ts:43-72 | on duplicate-free pages it does not matter in which order loads are folded |
| MergeById.MergeIsIdempotent | packages/admin-react/src/accumulate.ts:43-72 | merging a page again changes nothing |
| PageTrails.PopUndoesPush | packages/admin-react/src/accumulate.ts:498-523 | `Previous` undoes `Next` exactly when the push counted and a page is recorded under it; a swallowed push is undone only on a deep link's own page |
| PageTrails.PreviousIs | packages/admin-react/src/accumulate.ts:516-541 | there is a page to go back to exactly past page one or past a deep link's own page, and going back lands on the entry below or on page one |
| PageTrails.PagesAreCounted | packages/admin-react/src/accumulate.ts:527-529 | pages count from one, a push that counts adds one and a pop takes one away; after a deep link no page has a number |
| PageTrails.NoPushIsSwallowed | packages/admin-react/src/accumulate.ts:689-694 | boundaries that advance are all pushed |
| PageTrails.WhatIsReRead | packages/admin-react/src/accumulate.ts:653-664 | a refresh of a window of 2 to 2^53 - 1 pages re-reads that many, any other span one; it opens on the entry that many pages up, on page one, or on a deep link's own entry, and keeps what is below |
| PageTrails.RefreshKeepsPosition | packages/admin-react/src/accumulate.ts:653-694 | a refresh leaves the kept entries and the boundaries; after a whole window the page number is kept if and only if the window fitted its stack, and the opening page is kept; a deep link's first entry is never lost |
| WindowWalk.Walk | packages/admin-react/src/accumulate.ts:762-804 | the loop answers with the walk's outcome, or nothing exactly when it was superseded while a request was out |
| WindowWalk.WalkIsItsVisits | packages/admin-react/src/accumulate.ts:773-804 | the outcome is built from the visits made, the boundaries they crossed and why they stopped |
| WindowWalk.StopsWhere | packages/admin-react/src/accumulate.ts:773-802 | a walk ends at its depth, at no next page, at no new one, or is stopped exactly where the next request fails, with its words, or has its token refused |
| WindowWalk.WholeWindowIsReRead | packages/admin-react/src/accumulate.ts:773-802 | over a collection that always has a new next page the walk makes exactly as many visits as the window spans |
| WindowWalk.ArrivalsAre | packages/admin-react/src/accumulate.ts:788-792 | the first answer arrives as page one's when the request carried no token and as another page's when it did; every later one extends |
| WindowWalk.WalkAdvances | packages/admin-react/src/accumulate.ts:773-802 | each request begins where the one before it ended and never repeats a token |
| WindowWalk.WalkKeepsPosition | packages/admin-react/src/accumulate.ts:653-804 | after j answered pages the stack is the kept entries plus j-1 boundaries |
| WindowWalk.NoHole | packages/admin-react/src/accumulate.ts:762-804 | whatever changes between requests, a row present at every request the walk made, after the anchor and up to the last boundary, is in the window |
| WindowWalk.WindowIsReRead | packages/admin-react/src/accumulate.ts:762-804 | the window shows nothing no request of this walk returned, and of each id what the last request that returned it returned |
| WindowWalk.WindowShowsEachOnce | packages/admin-react/src/accumulate.ts:762-804 | pages that show no id twice make a window that shows none twice |
| CartLedger.PruneKeepsEntries | packages/store-emdash/src/cart-documents.ts:341-357 | pruning invents nothing and keeps every outstanding record |
| CartLedger.EvictedIsNoNewer | packages/store-emdash/src/cart-documents.ts:360-371 | within a class nothing newer than a kept record is evicted |
| CartLedger.EvictedByTheseTimes | packages/store-emdash/src/cart-documents.ts:360-371 | completed records are evicted by completion time, abandoned ones by the time their expiry began, or else by their claim's |
| CartLedger.PruneKeepsExactly | packages/store-emdash/src/cart-documents.ts:341-366 | exactly min(64, n) completed and min(16, n) abandoned records stay, and the outstanding ones in order |
| CartLedger.PruneKeepsOrder | packages/store-emdash/src/cart-documents.ts:341-357 | what stays, stays in the ledger's order |
| CartLedger.PruneIsIdempotent | packages/store-emdash/src/cart-documents.ts:341-357 | a pruned ledger is not pruned further |
| CartLedger.ComputeHoldExpiresAt | packages/store-emdash/src/cart-documents.ts:301-315 | the deadline is the least of the held lines' deadlines and outstanding add claims, none when there is none |
| CartLedger.PruneKeepsTheDeadline | packages/store-emdash/src/cart-documents.ts:301-357 | pruning never moves the deadline, and a sweep up to now finds the cart exactly when it has work due |
| CartRuns.ReplayWindow | packages/store-emdash/src/cart-documents.ts:341-371 | over whole runs with increasing stamps a key completed for the first time keeps its record, completed, with the line and the quantity of that completion, the kind and time of its claim and no mark of expiry or abandonment, until 64 later completions; the 64th evicts it |
| CartRuns.CompletesExactlyOnce | packages/store-emdash/src/emdash-cart-store.ts:372-377 | a completion event completes its key if and only if no completed record has that key |
| CartRuns.ClaimIsRecorded | packages/store-emdash/src/emdash-cart-store.ts:317-346 | claiming an unclaimed key leaves the claim field by field; claiming it again leaves the ledger alone |
| CartRuns.ClaimOutlives | packages/store-emdash/src/cart-documents.ts:319-357 | whatever else happens and however much, a claim stays as it was made until its own mutation completes, is abandoned or is retired |
| CartRuns.EndedUnfinished | packages/store-emdash/src/emdash-cart-store.ts:356-369 | abandoning or retiring marks an outstanding record and changes nothing else of it; a retirement evicts no key |
| CartRuns.EvictionTakesNewerOnes | packages/store-emdash/src/cart-documents.ts:360-371 | evicting a completed record takes 64 newer completed ones |
| CartRuns.WrittenKeeps | packages/store-emdash/src/emdash-cart-store.ts:319-371 | no claim, completion, abandonment or expiry overwrites a completed record |
| StripeReplay.CreateWithReplay | packages/payments-stripe/src/index.ts:848-857 | the same request is sent once and once per pause begun; exactly the pauses that follow an in-flight refusal and fit 3500 ms begin; the last answer is returned |
| StripeReplay.WaitsOnlyInFlight | packages/payments-stripe/src/index.ts:549-553 | a pause begins if and only if the answer is a 409 with the key-in-use code and the pause ends within 3500 ms of the start |
| StripeReplay.SleepFitsTheBudget | packages/payments-stripe/src/index.ts:538-543 | a call sleeps at most 3500 ms in all, whatever its schedule |
| StripeReplay.DefaultScheduleFits | packages/payments-stripe/src/index.ts:536-543 | on the shipped schedule all four pauses begin exactly when the fourth check comes within 2250 ms |
| StripeCreateRuns.OneOfEachIsMinted | packages/payments-stripe/src/index.ts:801-877 | any number of concurrent calls create at most one Customer and one intent |
| StripeCreateRuns.OneAnswer | packages/payments-stripe/src/index.ts:801-877 | all calls that succeed return the same intent; it was created for the order's own id, amount, currency, key, description and address, and names the Customer created for that order and address exactly when the order wants one |
| StripeCreateRuns.OnlyTheOrderIsSent | packages/payments-stripe/src/index.ts:828-844 | every request any call sends, in any run of any order, carries the order's own fields |
| StripeCreateRuns.RequestsAreOneRequest | packages/payments-stripe/src/index.ts:829-857 | all requests over one key are one request, none is refused for changed parameters, and each call sends each at most 1 + retries times |
| StripeCreateRuns.ReplayReturnsTheIntent | packages/payments-stripe/src/index.ts:801-877 | once the intent exists a retried call ends in it and creates nothing |
| StripeCreateRuns.RefusedExactlyWhenNotFixed | packages/payments-stripe/src/index.ts:808-827 | a run can be refused for changed parameters exactly when the order fixes no Customer answer |
| StripeCreateRuns.WhoDecides | packages/payments-stripe/src/index.ts:807-827 | a recorded Customer is named again; then the order's own answer decides, then a recorded none, and only then the resolver; without an address there is no Customer |
| StripeCreateRuns.SteadyRunsAreFixed | packages/payments-stripe/src/index.ts:807-827 | an order that left the question open runs exactly as one that had it answered, as long as the resolver keeps its answer until a decision is recorded |
| StripeCreateRuns.InFlightIsWaitedOut | packages/payments-stripe/src/index.ts:848-857 | while the key's first request stays in flight a call sends 1 + retries requests, creates nothing and ends still in flight |
| StripeCreateRuns.KeptRefusalIsFinal | packages/payments-stripe/src/index.ts:848-872 | under a key whose refusal the provider keeps nothing is ever created, and every call that asks again is refused |
| StripeCreateRuns.StepKeeps | packages/payments-stripe/src/index.ts:801-955 | every step of a call or of the provider keeps one request per key and every reference right |
| CallDeadlines.CloseLeaksNothingExactlyWhenNoReadIsUnderWay | packages/payments-stripe/src/deadline.ts:61-69 | after close every streamed body, arrived or yet to arrive, ends read or cancelled, if and only if no streamed read was under way |
| CallDeadlines.StalledReadLeaks | packages/payments-stripe/src/deadline.ts:142-146 | a read closed over stays open through any later events but its own end |
| CallDeadlines.ClosingARunningReadLeaks | packages/payments-stripe/src/deadline.ts:142-146 | the leak is reachable: one request, its answer, a read begun and a close, and the body stays open through any later events but that read's own end |
| CallDeadlines.TimedOutCallLeaksNothing | packages/payments-stripe/src/deadline.ts:86-91 | after the bound passed, no read is under way and close leaves nothing |
| CallDeadlines.NothingIsDeliveredAfterExpiry | packages/payments-stripe/src/deadline.ts:86-140 | expiry answers everything racing, cancels what is being read, and no response or text reaches a caller afterwards |
| CallDeadlines.EveryOperationAnswersOnce | packages/payments-stripe/src/deadline.ts:93-140 | an answered request or read never changes its answer |
| CallDeadlines.InTimeItIsDelivered | packages/payments-stripe/src/deadline.ts:93-140 | in time a request gets its response and a read its text, or a failure when it does not parse, and the stream is read to its end |
| CallDeadlines.TooLateIsRefused | packages/payments-stripe/src/deadline.ts:93-146 | after the bound nothing is sent, a late answer's body is cancelled and handed to nobody, and an unread body is refused to readers and cancelled at close |
| CallDeadlines.CallDeadline.OnArrival | packages/payments-stripe/src/deadline.ts:102-110 | an answer in time is tracked, a late one is cancelled unread |
| CallDeadlines.CallDeadline.OnTimer | packages/payments-stripe/src/deadline.ts:86-91 | the timer's callback is the expiry step |
| CallDeadlines.CallDeadline.StartRead | packages/payments-stripe/src/deadline.ts:114-124 | a read throws at once exactly when the bound has passed or the body is not there to be read |
| CallDeadlines.CallDeadline.EndCall | packages/payments-stripe/src/deadline.ts:142-146 | close is the closing step over every body handed out |
| ShortIds.ShortIdsFor | packages/admin-presentation/src/short-id.ts:49-76 | every id gets its prefix of the least workable length at or above the floor |
| ShortIds.FloorOf | packages/admin-presentation/src/short-id.ts:53 | a floor is cut to its whole part, and is raised but never lowered |
| ShortIds.DistinctIdsDiffer | packages/admin-presentation/src/short-id.ts:60-73 | distinct ids get distinct prefixes, even where one id begins another or is below the floor |
| ShortIds.DependsOnTheSetOnly | packages/admin-presentation/src/short-id.ts:56 | the answer depends only on the set of ids |
| ShortIds.LastCharacterIsNeeded | packages/admin-presentation/src/short-id.ts:66-72 | without its last character a longer prefix would read as some other id does |
| OrderNumbers.WithOrderNumberCells | packages/admin-presentation/src/order-number.ts:44-71 | every row's cell on any page: its number, and beside it what its id's shortest prefix adds within the group of the last number the id shares, or nothing when it shares none |
| OrderNumbers.NumberIs | packages/admin-presentation/src/order-number.ts:24-29 | a row shows its number as sent, or else a hash and the id's first five characters in capitals |
| OrderNumbers.DistinctIdsPrintDistinctCells | packages/admin-presentation/src/order-number.ts:44-71 | orders with different hyphen-free folded ids print different cells when their numbers begin their ids and each id carries one number |
| OrderNumbers.DerivedPagesAreToldApart | packages/admin-presentation/src/order-number.ts:24-71 | on a page of derived numbers every two such orders are told apart |
| OrderNumbers.TwoNumbersCollide | packages/admin-presentation/src/order-number.ts:54-66 | why an id has to carry one number: a page whose every number begins its id, where two ids print one cell |
| OrderNumbers.SameHeadsAreToldApart | packages/admin-presentation/src/order-number.ts:54-66 | on any page, whatever number they share: rows whose ids begin with the same characters, as many as the number shows, print different cells |
| OrderNumbers.ToldApartExactlyWhen | packages/admin-presentation/src/order-number.ts:54-66 | on any page, whatever number they share: two rows print different cells if and only if their ids agree on as many characters as it shows, or differ between there and the least lengths at which each stands alone in the group |
| OrderNumbers.UniqueHeadsPrintAlike | packages/admin-presentation/src/order-number.ts:54-66 | on any page: two rows of one number whose heads are unique in its group print one cell exactly when the floor adds the same to the number, so always from four characters shown on |
| OrderNumbers.OneSharedHeadIsToldApart | packages/admin-presentation/src/order-number.ts:54-66 | on any page, from four characters shown on: a row with a unique head and a longer one whose head a third row has too print different cells, though their own heads differ |
| OrderNumbers.PairIsToldApartExactlyWhen | packages/admin-presentation/src/order-number.ts:54-66 | on a page of exactly two rows, of one number: told apart if and only if their ids agree on as many characters as it shows, or differ in what the floor of four adds past them |
| OrderNumbers.ForeignNumberCollides | packages/admin-presentation/src/order-number.ts:54-66 | the colliding input: two different ids under a number that begins neither print one cell |
| OrderNumbers.TypedDigitsFindTheId | packages/domain/src/orders/order-number.ts:70-78 | the first 5 to 32 digits of a UUID, typed as a number, search as a prefix of that id |
| OrderNumbers.TypedDigitsFindExactly | packages/domain/src/orders/order-number.ts:70-78 | typed hex finds nothing below five digits, and otherwise is a prefix of exactly the UUIDs whose digits begin as typed |
| MoneyInput.AcceptsExactlyItsValue | packages/admin-presentation/src/money-input.ts:71-93 | a text is accepted, at exactly its decimal value, if and only if it spells a safe amount in the currency's precision |
| MoneyInput.TrimIs | packages/admin-presentation/src/money-input.ts:77 | what is taken off the two ends of a text is all white space there and nothing else |
| MoneyInput.RoundingNeverMatters | packages/admin-presentation/src/money-input.ts:84-92 | whatever the host's arithmetic does past 2^53, the result is that of exact arithmetic |
| MoneyInput.RoundTrip | packages/admin-presentation/src/money-input.ts:71-110 | every safe amount survives printing and parsing, zero exactly when allowed |
| MoneyInput.NegativeIsRefused | packages/admin-presentation/src/money-input.ts:101-110 | a printed negative amount never parses |
| MoneyInput.PrintersAgree | packages/admin-presentation/src/format-money.ts:132-136 | the slicing printer prints what the dividing printer prints, for every amount and exponent |
| MoneyInput.CanonicalIsIdempotent | packages/admin-presentation/src/money-input.ts:131-134 | the canonical spelling of a canonical spelling is itself |
| MoneyInput.CanonicalComparesAmounts | packages/admin-presentation/src/money-input.ts:131-134 | two entries compare equal exactly when they are one amount, or neither is one and they read the same trimmed |
| IsoContainment.SubdivisionParents | packages/domain/scripts/generate-iso-3166.ts:155-171 | the links are exactly the children subdivisions (ids with no capital) list, under the one that lists them; refused if and only if some child is listed twice; a country's own list counts for neither |
| IsoContainment.LinksAreCounted | packages/domain/scripts/generate-iso-3166.ts:164-168 | a child is read as often as subdivisions list it |
| IsoContainment.ProperIs | packages/domain/scripts/generate-iso-3166.ts:180-188 | a link passes if and only if both ids, upper-cased, are one country's letters and one of its codes, and they begin alike |
| IsoContainment.ContainmentByCountry | packages/domain/scripts/generate-iso-3166.ts:175-212 | returns normally exactly for known codes, one country to a link and no cycle, with a sorted table that holds exactly the links |
| ContainmentChains.ChainRepeats | packages/domain/scripts/generate-iso-3166.ts:190-194 | the chain loop terminates and reports a repeat exactly when the chain never ends |
| ContainmentChains.AcyclicExactlyWhenChainsEnd | packages/domain/scripts/generate-iso-3166.ts:190-194 | checking every child's chain finds a cycle exactly when the relation has one |
| ContainmentTable.AddChildHolds | packages/domain/scripts/generate-iso-3166.ts:195-200 | grouping adds each child under its country and parent, and nothing else |
| ContainmentTable.SortedRowsOk | packages/domain/scripts/generate-iso-3166.ts:202-211 | the output is in order, each country and parent once, none empty |
| Sorting.AtMostIs | packages/domain/scripts/generate-iso-3166.ts:202-211 | the order of codes, and of note ids: one text comes first when it begins the other or is smaller where they first differ |
| SplitJoin.SplitJoined | packages/domain/scripts/generate-iso-3166.ts:253-268 | splitting what was joined gives the parts back |
| IsoContainment.DecodesTheTable | packages/domain/scripts/generate-iso-3166.ts:249-270 | the emitted splitter reads the emitted text back as the table, in order |
| IsoContainment.TextOfARow | packages/domain/scripts/generate-iso-3166.ts:249-256 | what the emitted text of a row looks like, character by character |
| IsoContainment.EmittedTextDecodesToTheLinks | packages/domain/scripts/generate-iso-3166.ts:249-270 | what is decoded is exactly the links the text was made from |
| IsoContainment.DecodedMapIsTheParents | packages/domain/scripts/generate-iso-3166.ts:260-270 | the generated map sends every spelled child to its spelled parent if and only if children spelled alike have parents spelled alike; in any case it has no other key |
| IsoContainment.CaseTwinsLoseAParent | packages/domain/scripts/generate-iso-3166.ts:155-212 | the failing input: two children that differ only in case, under two parents, pass every check, and no table of them decodes to both parents |

## Left out

- Real time, log lines, ids and encryption: instants are integers, ids that are only compared are numbers, and encryption is a tag on a write.
- Operator deletes during the payment-secret re-save: the guarantee about readable values is about saves.
- A storage fault that applies a write and then reports a retryable abort: as in the code, a refused or aborted step wrote nothing.
- CartRuns.ReplayWindow: stamps strictly increase, because ties at one instant are broken by object order and then an older key may outlive a newer one.
- Object keys that look like integers, which the language lists before all others, are not modelled in the cart ledger or the maps of the generator.
- The cart store's other effects (stock, lines, the key index): only what each operation writes to the embedded ledger is modelled.
- Stripe idempotency keys that expire after about a day, and the two keys of one order coinciding.
- The currency gate and amount step before the first request, the offline handle, form encoding, and the HTTP classification of failures.
- StripeCreateRuns.RequestsAreOneRequest: the number of retries stands for the backoff schedule's length; the budget that ends pauses early is the separate loop model, and here a call may give up at any pause.
- CallDeadlines: one read per response, an abort signal for a trusted host, and the text of a body, which is only read or not read.
- Case folding outside ASCII, and strings as UTF-16 units: characters are single values.
- OrderNumbers.DistinctIdsPrintDistinctCells: for ids that carry one number each, as the ids of stored orders do; the cells of other pages are described in full and may collide (`TwoNumbersCollide`).
- The admin search reads more forms than a plain `#` and hex digits; only that form is modelled.
- MoneyInput.AcceptsExactlyItsValue: for exponents up to 3, which are all the currency table has; the table itself is a parameter.
- XML reading, validity ranges and the other generated constants of the code generator; the emitted literal is taken to read back as the same text.
- Pricing, tax, refunds, inventory, order states, coupons and the user interface.
