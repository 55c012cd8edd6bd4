# Mizan Connect: a verified model

A Dafny model of the parts of the Mizan Connect backend that hold state machines, loops or
arithmetic, with proofs of what they keep. `dafny verify dfyconfig.toml` checks all of it.

| file | what it models |
|---|---|
| `Utf8.dfy`, `AiProxy.dfy` | lossy decoding of a chunked byte stream, the streaming loop of the AI proxy, the decision to charge |
| `Credits.dfy` | the charge for a reply, computed in binary64 |
| `Billing.dfy`, `CreditAccounting.dfy` | the billing tables, their transactions (charge, webhook, usage report), and what every run of them keeps |
| `SoftCap.dfy` | admission before the stream, charge after it, and the overshoot between |
| `RateLimit.dfy` | the sliding-window limiter of the login portal |
| `QueryString.dfy` | the query string of signed broker requests |
| `StripeSignature.dfy` | verification of the webhook signature header |
| `Calendar.dfy`, `Reports.dfy` | the reporting month, the report table and its worker |
| `Authorizations.dfy`, `Connections.dfy`, `BrokerCoupling.dfy`, `Interleavings.dfy` | the callback's choice, the connection table under interleaved handlers, the table together with the broker when handlers run whole, and exactly which interleaved writes part the two |
| `Teams.dfy` | team invites under interleaved requests |

How the model is built:

- A table is a map (or a class field holding one) from row id to row. A statement or transaction is one
  atomic step that takes effect under the table's constraints or leaves everything as it was.
  Outside reasons to fail are inputs (`commits`, `failing`, `ok`, `fallback`, a `Stop` step).
- Handlers that read and write separately are several steps, and runs interleave steps of
  any number of requests (`Connections.dfy`, `Interleavings.dfy`, `Teams.dfy`, and the worker ticks of `Reports.dfy`).
- Clocks, random ids, replies of outside services, HMAC, JSON parsing and case folding are
  inputs or function parameters.
- Where the source updates fields in place or loops, the model is a class or a method,
  proved against a specification: the rate limiter against the full call history it does not keep,
  the streaming loop against the whole text framed at once, the header check against a declarative
  meaning.

What the code does differently from its own documentation:

- The login portal is meant to reuse a user's row. Run whole it does (`OneRowPerUser`); interleaved exactly when no portal inserts
  for a user who got a row since it looked (`OneRowEachIff`, `PortalsRace`).
- The callback's documentation says a replay touches nothing (`src/snaptrade/handlers.rs:165-169`). That holds exactly
  when the listing shows at most one authorization id (`ReplayIsIdleIff`, `ReplayCanWrite`);
  otherwise repeated callbacks alternate for ever (`AlternatesForever`).
- An invite is documented as consumed once redeemed (`migrations/0006_team_invites.sql:22`). The write of an acceptance does not
  look again, so it is used once exactly when no other acceptance wrote since the read
  (`SingleUseIff`, `TokenCanBeUsedTwice`).
- A subscription event is meant to promote the row made at checkout (`src/billing/repository.rs:67-69`). An inserted subscription row
  lacks the mandatory `team_id`, so no transaction of the model ever adds a row or changes a row's customer,
  subscription id, user or team (`RunKeepsTable`).
- A repeated disconnect is described as writing no second audit row. Every disconnect that finds its row writes one
  (`src/snaptrade/handlers.rs:606-630`, `EveryDisconnectIsAudited`); table and broker do not change (`RetryConverges`).
- Owners are documented as impossible to invite (`src/teams/invites.rs:40-41`). Only the owner's role is refused; an owner's address
  can be invited, and the upsert then overwrites the role. An owner keeps it exactly as long as no acceptance of that user
  into the team is written (`OwnerKeepsRoleIff`, `OwnerCanBeLowered`).
- A disconnect is meant to leave nothing live behind, and a disconnected authorization is meant to stay so. Both hold of handlers that
  run whole (`RemovedIsNeverLive`, `NeverLinkedAgain`). Interleaved, the first holds all along exactly when no disconnect
  writes to a row that records a live authorization by then (`CleanRunIff`, `InterleavingBreaksCoupling`), which comparing the
  row's authorization at the write would ensure (`RecheckedRunIsClean`); the second exactly when the authorization is off the
  broker at that write and no callback that chose it earlier writes later (`StaysDeadIff`, with a run for each way to fail:
  `RepeatLeavesLive`, `LateCallbackRevives`). A removed row with a live authorization stays so until a callback, the broker or a
  disconnect from before it was disabled mends it (`StaysBrokenIff`); disconnecting again never does (`DisconnectsNeverMend`).
- The credit cap can be overshot, by at most what `OvershootIsBounded` says as long as webhook events activate a row only where
  it has room for the open streams. Where one does not, the streams already open can pass the bound
  (`BoundSurvivesIff`, `MisfitPasses`), and such a state can be reached (`EventsCanPassBound`). This is about the update arm of the upsert;
  PostgreSQL refuses these upserts as long as the insert names no team.
- A failed report is meant to be made again on demand (`migrations/0004_monthly_reports.sql:21-23`). A request for its period
  inserts nothing, so once no worker tick has the row in hand it stays failed for good (`FailedIsNotRemade`, `ClosedStaysClosed`).

## Model

| member | source | states |
|---|---|---|
| `Utf8.DecodeKeepsSkeleton` | src/billing/ai_proxy.rs:211 | lossy decoding keeps every ASCII byte in place and turns each other run into a non-empty non-ASCII run |
| `Utf8.DecodeAtBoundary` | src/billing/ai_proxy.rs:211 | decoding two pieces apart equals decoding them together when the cut is not before a continuation byte, for valid and invalid bytes |
| `Utf8.ChunkedSkeleton` | src/billing/ai_proxy.rs:203-211 | wherever a byte stream is cut, chunk-by-chunk decoding has the skeleton of the uncut stream |
| `Utf8.BoundaryCutsAreInvisible` | src/billing/ai_proxy.rs:203-211 | cut on character boundaries, the chunks decode to exactly the text of the uncut stream |
| `Utf8.CutsAreInvisibleIff` | src/billing/ai_proxy.rs:203-211 | however valid UTF-8 is cut, the chunks decode to its text if and only if every cut is on a character boundary |
| `Utf8.CutInsideCharacter` | src/billing/ai_proxy.rs:211 | an example: the two bytes of one character, together and apart |
| `Utf8.DecodeEncode` | src/billing/ai_proxy.rs:211 | decoding the UTF-8 form of any text gives back that text |
| `Utf8.FirstPieceMeans` | src/billing/ai_proxy.rs:211 | for all bytes: a well-formed character at the front is decoded; otherwise one U+FFFD stands for the longest prefix that begins a well-formed character, or for a single byte if there is none |
| `AiProxy.DrainAppend` | src/billing/ai_proxy.rs:203-253 | framing some text and then more gives what framing both at once gives, until the stream is over |
| `AiProxy.DrainBuffer` | src/billing/ai_proxy.rs:216-249 | the inner loop handles line after line, stopping at the terminator or when the client is gone |
| `AiProxy.FramedMeans` | src/billing/ai_proxy.rs:216-259 | what framing means in terms of the lines alone: the client gets the payloads through the first terminator as far as it takes events, the usage is the last one seen before the end, and the reply is chargeable if and only if a complete line carries the terminator and the client took all payloads before it |
| `AiProxy.FramedUsage` | src/billing/ai_proxy.rs:229-237 | the usage is the last report among the payloads seen before the terminator or the disconnect, and zero if none of them reports any |
| `AiProxy.PayloadIff` | src/billing/ai_proxy.rs:217-222 | a line carries the payload x if and only if it is "data: " and x, not ending in a carriage return, and any number of carriage returns |
| `AiProxy.LinesMean` | src/billing/ai_proxy.rs:216-218 | the lines are the text cut at every newline, without what follows the last one |
| `AiProxy.ReceivedMeans` | src/billing/ai_proxy.rs:203-210 | what is framed is the bytes of the chunks up to the first stream error |
| `AiProxy.RunStream` | src/billing/ai_proxy.rs:190-292 | the loop ends as if all text received before the first stream error had been framed at once, and the tables change exactly by one charge when a complete terminator line was read before the client left, else not at all |
| `AiProxy.AlikeDrain` | src/billing/ai_proxy.rs:216-249 | texts with one skeleton give the same events up to non-ASCII runs, the same terminator and disconnect |
| `AiProxy.SameLineBoundaries` | src/billing/ai_proxy.rs:216-218 | texts with one skeleton break into as many lines, alike one by one |
| `AiProxy.ChunkingDoesNotMatter` | src/billing/ai_proxy.rs:198-261 | any two ways to cut the same bytes give the same lines and the same number of forwarded events, alike one by one, and agree on charging |
| `AiProxy.BoundaryChunkingAgrees` | src/billing/ai_proxy.rs:198-261 | cut on character boundaries, payload texts, usage and the charge agree too |
| `Credits.EstimatedCost` | src/billing/credits.rs:29-37 | every reservation is between 1 and 50 credits, and which kind has which |
| `Credits.DivisionIsNearest` | src/billing/credits.rs:47 | the modelled division (round to nearest, ties to even) yields a finite binary64 value such that no binary64 value is nearer to the exact quotient |
| `Credits.NearestKeepsCeiling` | src/billing/credits.rs:47 | any nearest binary64 value of w / 1000 lies in the same unit interval as w / 1000, for every w below 2^34 |
| `Credits.ChargeIsExact` | src/billing/credits.rs:45-49 | for all 32-bit counts the charge is the integer ceiling of (prompt + 3 completion) / 1000, at least 1, at most 17179870 |
| `Credits.ChargeIsMonotone` | src/billing/credits.rs:45-49 | more tokens never cost less |
| `Credits.SplittingNeverCostsLess` | src/billing/credits.rs:45-49 | two replies cost at least what one with their summed tokens costs |
| `Credits.LargestCharge` | src/billing/credits.rs:45-49 | the bound 17179870 is reached |
| `Billing.BillingStore.RecordUsage` | src/billing/repository.rs:179-203 | appends the entry, or fails on negative units or cost and appends nothing |
| `Billing.BillingStore.AddAiCreditsUsed` | src/billing/repository.rs:208-228 | raises the user's billable row and returns its total, or fails with no effect when there is none or the sum leaves 32 bits |
| `Billing.BillingStore.TryRecordStripeEvent` | src/billing/repository.rs:232-249 | records an unseen event id and says whether it was unseen |
| `Billing.BillingStore.Reconcile` | src/billing/ai_proxy.rs:261-291 | ledger row and counter change together or not at all |
| `Billing.BillingStore.ReceiveWebhook` | src/billing/webhook.rs:45-118 | event id and effect change together or not at all; a seen id changes nothing |
| `CreditAccounting.ReconcileMeans` | src/billing/ai_proxy.rs:261-291 | a reply's charge from its tokens to the tables: they change if and only if it commits, its total fits 32 bits and the user has a billable row with room for the price of the tokens, and then by exactly one ledger row with that price and by it on that row |
| `CreditAccounting.UsageReportMeans` | src/billing/handlers.rs:128-157 | a usage report appends one row at no cost, unless its units are negative, and changes nothing else |
| `CreditAccounting.DeliveryMeans` | src/billing/webhook.rs:45-118 | a delivery from its body to the tables: exactly which bodies are recorded, with the event type, and what the subscriptions are after each |
| `CreditAccounting.TableOkMeans` | migrations/0001_initial.sql:34-50 | the constraints one by one: tiers, 32-bit counters, unique customers and subscription ids, one subscription in good standing per user and per team |
| `CreditAccounting.ApplyKeepsTable` | migrations/0001_initial.sql:34-50 | every transaction keeps the unique columns, both partial unique indexes and the checks, adds or drops no row, and leaves user, team, customer and subscription id of each row alone |
| `CreditAccounting.RunKeepsTable` | migrations/0001_initial.sql:34-50 | the same over every run, from every table that meets the constraints |
| `CreditAccounting.ChargesExactlyOneRow` | src/billing/ai_proxy.rs:262-287 | a transaction that appends a positive cost raises exactly one row, by that cost, billable and of the entry's user |
| `CreditAccounting.CreditsMatchLedger` | src/billing/repository.rs:157-228 | in every run, over any stretch without a reset of the row, a counter grows by exactly the ledger cost charged to it |
| `CreditAccounting.CountSinceReset` | src/billing/repository.rs:157-176 | after a reset the counter equals the ledger cost charged to the row since |
| `CreditAccounting.EventMirrorsSubscription` | src/billing/repository.rs:121-153 | a subscription event that takes effect leaves exactly one row with its subscription id, mirroring status, tier and period, and touches neither credits nor any other row |
| `CreditAccounting.InvoiceResetsItsRow` | src/billing/repository.rs:157-176 | a paid invoice zeroes exactly the row of its subscription and notes the period start |
| `CreditAccounting.RecordedIffCommitted` | src/billing/webhook.rs:45-118 | after any deliveries, an event id is recorded if and only if it was before or some delivery of it reached its commit |
| `CreditAccounting.EffectsAtMostOnce` | src/billing/webhook.rs:45-118 | dropping every delivery that is not the first committed one of its id leaves all tables the same, for every mix of deliveries, charges and usage reports |
| `CreditAccounting.OneDeliveryPerId` | src/billing/repository.rs:232-249 | what is left delivers no id twice |
| `SoftCap.MonthlyCap` | src/billing/entitlements.rs:64-129 | every finite monthly cap is between 1 and 1500 |
| `SoftCap.Admit` | src/billing/ai_proxy.rs:101-122 | only active or trialing rows are admitted, and under a finite cap a request is admitted if and only if used credits plus its reservation fit |
| `SoftCap.MonthlyCapMeans` | src/billing/entitlements.rs:64-129 | which plan has which cap: none, 300, 1500 or unlimited |
| `SoftCap.AdmitMeans` | src/billing/ai_proxy.rs:101-122 | the answer to every request, by status, plan, used credits and kind |
| `SoftCap.RunStaysWithin` | src/billing/ai_proxy.rs:101-122 | a billable row's counter plus the largest charge for every open stream, and every other counter, stay within cap - 1 + atOnce * charge, in every run whose events activate rows only where they fit |
| `SoftCap.OvershootIsBounded` | src/billing/ai_proxy.rs:113-122 | from zero, no counter ever exceeds cap - 1 + atOnce * charge in any run of admissions, settlements, aborted streams, resets, usage reports and subscription events that activate a row only where it has room for the charges of the open streams |
| `SoftCap.CommitKeepsWithinIff` | src/billing/webhook.rs:45-118 | a webhook or usage report keeps the invariant if and only if every row it makes billable has that room |
| `SoftCap.BoundSurvivesIff` | src/billing/webhook.rs:45-118 | after a webhook or usage report, every continuation in which later events fit keeps every counter within the bound if and only if this one fits |
| `SoftCap.MisfitPasses` | src/billing/ai_proxy.rs:261-291 | after an event that does not fit, the streams already open can end so that a counter passes the bound |
| `SoftCap.QuietActivationFits` | src/billing/webhook.rs:58-95 | a row has room when no stream of its user is open, or when it is itself below the cap |
| `SoftCap.AllFitWithoutEvents` | src/billing/webhook.rs:96-110 | runs without subscription events always meet the condition |
| `SoftCap.EventsCanPassBound` | src/billing/webhook.rs:58-95 | an example from zero: two rows of a user change places under an open stream, and the bound is passed |
| `SoftCap.NoOverflowUpTo124` | src/billing/repository.rs:208-228 | with up to 124 streams of a user at once, neither the admission sum nor the charge leaves 32 bits |
| `SoftCap.BoundIsReached` | src/billing/ai_proxy.rs:113-122 | the overshoot bound is the best one: for each number of streams from 1 to 124 some run from zero reaches it |
| `SoftCap.OverflowAt125` | src/billing/repository.rs:208-228 | 124 is the most: a run with 125 streams at once in which a charge leaves 32 bits and is lost |
| `RateLimit.LoginPortalLimiter.Check` | src/snaptrade/rate_limit.rs:36-56 | with clock readings nondecreasing in lock order, answer and wait are those of a limiter that remembers every call; the new state for any readings |
| `RateLimit.LoginPortalLimiter.Sweep` | src/snaptrade/rate_limit.rs:62-69 | sweeping keeps that agreement and drops exactly the users left without entries |
| `RateLimit.AtMostTenPerWindow` | src/snaptrade/rate_limit.rs:43-55 | no half-open one-hour window holds more than ten accepted calls of a user |
| `RateLimit.AllowedIff` | src/snaptrade/rate_limit.rs:43-55 | a call is allowed if and only if the hour before it holds fewer than ten accepted calls |
| `RateLimit.OthersDoNotMatter` | src/snaptrade/rate_limit.rs:40-41 | calls of other users and sweeps never change a user's answer |
| `RateLimit.FullUntilOldestLeaves` | src/snaptrade/rate_limit.rs:46-52 | a refusal has a positive wait, and a later call is accepted if and only if the wait has elapsed |
| `RateLimit.RetryAfterIsExact` | src/snaptrade/rate_limit.rs:44-55 | after a refusal, whatever else happens, every call before the wait elapses is refused and the next one at or after it is accepted |
| `QueryString.BuildQueryString` | src/snaptrade/client.rs:321-333 | the loop builds a string that the standard parser reads back as the same list |
| `QueryString.ParseBuild` | src/snaptrade/client.rs:321-333 | parsing the built string returns every list of byte-string pairs, in order |
| `QueryString.BuildIsInjective` | src/snaptrade/client.rs:244-269 | different parameter lists never give the same query to sign |
| `QueryString.BuildIsUrlSafe` | src/snaptrade/client.rs:321-333 | the built string holds only unreserved bytes, `+`, `%` and the two separators |
| `QueryString.EncodeByteMeans` | src/snaptrade/client.rs:328 | a space becomes `+`, letters, digits and `*-._` stay, every other byte becomes `%` and two upper-case hex digits |
| `QueryString.BuildMeans` | src/snaptrade/client.rs:321-333 | bytes are encoded one by one, keys and values joined by `=`, pairs by `&`, in order |
| `StripeSignature.KeyValue` | src/billing/stripe_client.rs:150-155 | splitting at the first `=` finds the value of a key exactly when the part starts with the key and `=` |
| `StripeSignature.FieldIff` | src/billing/stripe_client.rs:150-155 | a part has the field with value v if and only if it is the key, `=` and v |
| `StripeSignature.ReadParts` | src/billing/stripe_client.rs:147-156 | the loop keeps the parse of the last `t` part, also when it fails to parse, and all `v1` values in order |
| `StripeSignature.SubtleEq` | src/billing/stripe_client.rs:185-194 | the branch-free byte loop yields 1 if and only if the byte strings are equal |
| `StripeSignature.MatchesAny` | src/billing/stripe_client.rs:173-180 | some signature hex-decodes to the expected MAC |
| `StripeSignature.VerifyWebhook` | src/billing/stripe_client.rs:141-181 | a header is accepted with `ts` if and only if its last `t` part parses to `ts`, `ts` is within 300 seconds and some `v1` part decodes to the MAC of `ts`, a dot and the body; each refusal names its reason |
| `StripeSignature.AuthenticMeans` | src/billing/stripe_client.rs:147-179 | acceptance written out on the parts: the last `t=`, 300 seconds, and a `v1=` that is the hex of the MAC of the timestamp in decimal, a dot and the body |
| `StripeSignature.SplitMeans` | src/billing/stripe_client.rs:149 | the parts joined by commas give the header, and none holds a comma |
| `StripeSignature.TrimMeans` | src/billing/stripe_client.rs:152-153 | trimming takes all white space off both ends and nothing else |
| `StripeSignature.WhiteSpace` | src/billing/stripe_client.rs:152-153 | which characters are white space, by code point |
| `StripeSignature.ParseI64Iff` | src/billing/stripe_client.rs:152 | a timestamp parses if and only if it is an optional sign and digits, within 64 bits |
| `StripeSignature.DecimalExamples` | src/billing/stripe_client.rs:169 | the decimal form of some numbers |
| `StripeSignature.HexDecodeIff` | src/billing/stripe_client.rs:174 | a signature decodes if and only if it is two hex digits of either case per byte, high half first |
| `StripeSignature.HexValueMeans` | src/billing/stripe_client.rs:174 | the value of each hex digit, of either case |
| `StripeSignature.SignedHeaderIsAuthentic` | src/billing/stripe_client.rs:298-304 | every header built from a timestamp in tolerance and its MAC is accepted |
| `Calendar.DayBeforeCountsDown` | src/billing/reports.rs:299 | subtracting a day lowers the Gregorian day count by one, across months and leap years |
| `Calendar.WindowIsPreviousMonth` | src/billing/reports.rs:282-301 | for every date the window is the whole previous month and ends the day before the current month; only January of the first year has none |
| `Calendar.WindowMeans` | src/billing/reports.rs:282-301 | the window in figures, with the length of every month and the leap rule written out |
| `Calendar.OrdinalMeans` | src/billing/reports.rs:299 | the day count in figures: the offset of each month in its year, and the length of each year |
| `Calendar.ExistsIff` | src/billing/reports.rs:285-298 | which dates there are |
| `Calendar.SameWindowIff` | src/billing/reports.rs:282-301 | two dates have the same window if and only if they share year and month |
| `Calendar.WindowsTile` | src/billing/reports.rs:282-301 | consecutive windows abut, and windows of different months share no day |
| `Reports.ReportTable.EnqueuePending` | src/billing/reports.rs:61-80 | inserts one pending row unless the user has one with that start day |
| `Reports.ReportTable.EnqueueAll` | src/billing/reports_cron.rs:88-95 | after the loop every listed user whose insert does not error has the row, old rows are kept, and the counter is the number of new rows |
| `Reports.ReportTable.RunEnqueue` | src/billing/reports_cron.rs:69-98 | the same for last month's window, on any date |
| `Reports.ReportTable.RequestMonthlyReport` | src/billing/reports.rs:233-253 | returns the user's row for last month, saying whether it is new; if it is not, the table stays as it is |
| `Reports.PeriodsAreDisjoint` | migrations/0004_monthly_reports.sql:28 | in a table of month windows with the unique start day, no two periods of a user share a day |
| `Reports.PeriodsStayDisjoint` | src/billing/reports.rs:61-80 | in every run from the empty table, of cron and on-demand enqueues on any dates and of worker steps, no two periods of a user share a day |
| `Reports.ReportTable.FetchPending` | src/billing/reports.rs:83-97 | chooses at most five pending rows, all if there are fewer, none later than one passed over |
| `Reports.ReportTable.Mark` | src/billing/reports.rs:121-164 | changes the status of the one row and nothing else |
| `Reports.ReportTable.RunWorkerTick` | src/billing/reports_cron.rs:106-147 | a tick that runs alone settles exactly the chosen rows for which one of the two updates works: succeeded where the first one does, failed otherwise |
| `Reports.TickIsItsSteps` | src/billing/reports_cron.rs:106-147 | such a tick is a fetch and one update per settled row, each with its status, with nothing in between |
| `Reports.NeverPendingAgain` | src/billing/reports.rs:121-164 | in every run of arrivals, fetches and updates, with ticks overlapping, no row is lost or returns to pending |
| `Reports.BoundedWaiting` | src/billing/reports_cron.rs:106-147 | a pending row with k pending rows requested no later leaves pending once floor(k / 5) + 1 error-free ticks have run one after another, whatever strictly later rows arrive and whatever other ticks fail, crash or overlap |
| `Reports.SameChoice` | src/billing/reports.rs:83-97 | two fetches from the same rows take the same ones, unless requests share an instant |
| `Reports.OverlappingTicks` | src/billing/reports_cron.rs:106-147 | after any run, any number of error-free ticks that fetch before any of them updates can take the same rows; what then has left pending is what one of them fetched |
| `Reports.OverlapCountsOnce` | src/billing/reports_cron.rs:106-147 | from the empty table, for every backlog above five and every number of overlapping error-free ticks, a run that leaves the last row pending: only ticks in turn count |
| `Reports.ClosedStaysClosed` | src/billing/reports.rs:121-164 | a row that is done, and in the hands of no tick, stays as it is in every run |
| `Reports.FailedIsNotRemade` | src/billing/reports.rs:227-253 | in every run a request for the period of such a failed row changes nothing and leaves it failed |
| `Authorizations.PickIndex` | src/snaptrade/handlers.rs:272-291 | picks the greatest by (date, missing lowest; then position) among the ids other than the recorded one, and nothing only if there is none |
| `Authorizations.PickMeans` | src/snaptrade/handlers.rs:265-291 | the same written out on dates and positions: dated before undated, later before earlier, listed later on a tie |
| `Authorizations.WritesIff` | src/snaptrade/handlers.rs:228-241 | a callback writes if and only if some listed id is not the recorded one |
| `Authorizations.IdleForever` | src/snaptrade/handlers.rs:231-238 | if every listed id is the recorded one, no number of callbacks writes |
| `Authorizations.SettlesAfterOne` | src/snaptrade/handlers.rs:228-248 | with one listed id, not recorded, the first callback writes it and all later ones are idle |
| `Authorizations.AlternatesForever` | src/snaptrade/handlers.rs:228-248 | with two or more ids every callback writes, alternating between the newest and the newest with a different id |
| `Authorizations.ReplayIsIdleIff` | src/snaptrade/handlers.rs:165-169 | a replayed callback writes nothing if and only if the listing shows at most one id |
| `Authorizations.ReplayCanWrite` | src/snaptrade/handlers.rs:165-169 | a listing on which the replay does write |
| `Connections.ConnectionTable.Insert` | src/snaptrade/repository.rs:18-43 | adds a pending row, or fails if the broker user id has one |
| `Connections.ConnectionTable.Complete` | src/snaptrade/repository.rs:141-167 | links the row, a broker name given replacing the old one and a missing one keeping it, or fails if the user has another active row |
| `Connections.ReadsMean` | src/snaptrade/repository.rs:230-259 | which rows the reads of callback and disconnect find |
| `Connections.ConnectionTable.Disable` | src/snaptrade/repository.rs:172-191 | clears active and sets disabled on the user's own row only, and counts it |
| `Connections.StepKeepsInv` | src/snaptrade/handlers.rs:57-262 | every single step of any handler, of the broker, or a crash keeps the invariant |
| `Connections.LifecycleHolds` | migrations/0002_snaptrade.sql:15-23 | in every interleaving each row is exactly pending, linked or removed, never returns to pending, keeps owner and credentials; at most one active row per user and one row per broker user id |
| `BrokerCoupling.HandlerKeepsCoupled` | src/snaptrade/handlers.rs:589-633 | every whole handler and every move of the broker keeps table and broker coupled |
| `BrokerCoupling.RemovedIsNeverLive` | src/snaptrade/handlers.rs:601-623 | in every run of whole handlers a removed row's authorization is not live at the broker |
| `BrokerCoupling.AuthorizationsAreNotShared` | src/snaptrade/repository.rs:230-259 | the lookup by authorization id finds at most one row |
| `BrokerCoupling.NeverLinkedAgain` | src/snaptrade/handlers.rs:601-623 | a disconnected authorization is never live or linked again |
| `BrokerCoupling.RetryConverges` | src/snaptrade/client.rs:202-228 | a disconnect stopped between broker and table is completed by a retry to the same state; repeating it changes neither table nor broker, and writes an audit row again |
| `BrokerCoupling.EveryDisconnectIsAudited` | src/snaptrade/handlers.rs:606-630 | in every run, and for every user and authorization, the audit log gains as many rows as there were disconnects of it that found their row and whose audit insert worked, repeats included |
| `BrokerCoupling.DisconnectIsItsSteps` | src/snaptrade/handlers.rs:601-623 | the whole disconnect is its three interleavable steps with nothing in between, and the stopped one is the first two |
| `BrokerCoupling.CallbackIsItsSteps` | src/snaptrade/handlers.rs:195-248 | the whole callback is its steps with nothing in between |
| `BrokerCoupling.PortalIsItsSteps` | src/snaptrade/handlers.rs:79-109 | the whole login portal is its steps with nothing in between |
| `BrokerCoupling.PortalMeans` | src/snaptrade/handlers.rs:79-109 | it adds a pending row exactly for a user and a broker user id that have none |
| `BrokerCoupling.OneRowPerUser` | src/snaptrade/handlers.rs:77-109 | in every run of whole handlers each user has one row at most |
| `BrokerCoupling.CallbackRecords` | src/snaptrade/handlers.rs:228-248 | where the write goes through, the whole callback leaves the row with the authorization that the iteration results predict |
| `Interleavings.StepKeepsSound` | src/snaptrade/handlers.rs:195-248 | in any interleaving recorded, chosen and removed authorizations were issued to the row's broker user |
| `Interleavings.StepKeepsCleanIff` | src/snaptrade/handlers.rs:622-624 | a step keeps removed rows off the broker if and only if it is not the write of a disconnect whose row by then records a live authorization |
| `Interleavings.CleanRunIff` | src/snaptrade/handlers.rs:601-623 | in every interleaving no removed row's authorization is ever live if and only if no such write happens |
| `Interleavings.RecheckedRunIsClean` | src/snaptrade/repository.rs:172-191 | if every disconnect finds its row still recording the authorization it read, the coupling holds in every interleaving |
| `Interleavings.UndisturbedIsNotStale` | src/snaptrade/handlers.rs:601-623 | a disconnect finds that whenever no callback wrote its row between its read and its write |
| `Interleavings.StaysDeadIff` | src/snaptrade/handlers.rs:228-248 | in every interleaving an authorization whose disconnect is written is never live or linked again if and only if it is off the broker at that write and no callback that chose it earlier writes later |
| `Interleavings.StaysBrokenIff` | src/snaptrade/handlers.rs:601-623 | in every interleaving a removed row with a live authorization stays one exactly until a callback records on it, the broker revokes it, or a disconnect that read the row before it was disabled removes it |
| `Interleavings.DisconnectsNeverMend` | src/snaptrade/handlers.rs:606-618 | with no such earlier disconnect under way, no number of disconnects mends it |
| `Interleavings.CleanRunKeepsTasksDead` | src/snaptrade/handlers.rs:606-618 | as long as the coupling holds, the authorization a disconnect is about to write off is off the broker |
| `Interleavings.InterleavingBreaksCoupling` | src/snaptrade/handlers.rs:601-623 | a run in which a callback between the halves of a disconnect leaves a removed row whose authorization is live |
| `Interleavings.LateCallbackRevives` | src/snaptrade/handlers.rs:228-248 | a run in which a late callback links a disconnected authorization again |
| `Interleavings.RepeatLeavesLive` | src/snaptrade/handlers.rs:606-623 | a run in which a disconnect of a disabled row is written while its authorization is live |
| `Interleavings.OneRowEachIff` | src/snaptrade/handlers.rs:77-109 | in every interleaving each user has one row at most all along if and only if no login portal inserts for a user who got a row since it looked |
| `Interleavings.PortalsRace` | src/snaptrade/handlers.rs:77-109 | a run in which two login portals give a user two rows, the broker answering them with different broker user ids |
| `Teams.TeamStore.CreateInvite` | src/teams/invites.rs:112-130 | adds the invite unless the token is taken |
| `Teams.TeamStore.AcceptInvite` | src/teams/invites.rs:231-262 | member upsert and redemption happen together or not at all |
| `Teams.RunIsTraced` | src/teams/invites.rs:94-130 | in every interleaving each invite goes back to an ownership check and each request to the read it made |
| `Teams.MembershipIsTraced` | src/teams/invites.rs:203-262 | every membership added or changed carries the role of an invite for that team, read unredeemed, unexpired and addressed to the user's lower-cased email, and issued by someone checked to own the team |
| `Teams.RequestsPassIff` | src/teams/invites.rs:94-110 | exactly which creations and acceptances get past their reads, and what they remember |
| `Teams.WritesMean` | src/teams/invites.rs:231-262 | what the writes of both put into the tables |
| `Teams.OwnersNeverGrow` | src/teams/invites.rs:106-110 | no interleaving makes anyone an owner who was not one |
| `Teams.OwnerKeepsRoleIff` | src/teams/invites.rs:235-245 | over any stretch of any run an owner keeps the role if and only if no acceptance of that user into the team is written in it |
| `Teams.RedeemersShareEmail` | src/teams/invites.rs:224-229 | any two redemptions of a token are by users with the same lower-cased email |
| `Teams.SingleUseIff` | src/teams/invites.rs:249-255 | an acceptance finds its invite unused at the write if and only if no other acceptance of the token wrote since the read |
| `Teams.TokenCanBeUsedTwice` | src/teams/invites.rs:203-255 | an interleaving in which one token admits two users |
| `Teams.OwnerCanBeLowered` | src/teams/invites.rs:235-245 | a run in which such a write turns the only owner into a viewer |

## Left out

- HTTP routing, middleware, configuration, telemetry, health, shutdown, the JWKS cache, price lookup and error mapping: wiring or small case tables.
- Cryptography and JSON: HMAC, encryption, token signing and the extraction of usage figures from a payload are parameters or absent.
- Report text, prompts, HTML pages, outbound mail, and the audit log except the rows of disconnects: no state property rests on them.
- Listing, account, holdings and refresh handlers: they read and map, and change no table.
- `upsert_customer_stub`: its insert lacks the mandatory team and cannot succeed; on conflict it changes only a timestamp.
- Row timestamps `created_at` and `updated_at` of the billing tables: not modelled, so results about subscriptions and credits are up to them.
- Billing.BillingStore.ReceiveWebhook: a database that checks mandatory columns of the proposed row before it looks for a conflict rejects every subscription upsert; the model allows that (`commits` false) as well as the update of the matching row. The tier slug of an event is taken as resolved.
- SoftCap.OvershootIsBounded: admissions under an unlimited cap are not in the runs, as there is no cap to overshoot.
- RateLimit.LoginPortalLimiter.Check: the history claims need clock readings that never go back in lock order, since the clock is read before the lock; dates near the end of the representable range, where the subtraction of the window panics, are not modelled.
- StripeSignature.VerifyWebhook: when the time subtraction leaves 64 bits the model answers `Overflow`; the program panics or wraps there, depending on the build.
- AiProxy.RunStream: a payload with an inner carriage return, which the web framework's event builder refuses, is forwarded like any other; back-pressure of the event channel is not modelled.
- Connections.LifecycleHolds: deletion of a user, which cascades to the rows, is not modelled, nor are connection types other than SnapTrade, which nothing creates.
- Concurrent transactions are atomic steps; isolation anomalies of the database are not modelled.
