# Verified model of siphon-smpp

siphon-smpp is an SMPP 3.4 add-on: it answers binds from ESMEs, keeps outbound binds to SMSCs up,
hands every PDU to a script and offers the script send helpers. This project models the parts of it
that hold state, run concurrently or transform text, and proves what they promise.
`dafny verify dfyconfig.toml` checks everything.

| file | what it models |
|---|---|
| `RateLimiting.dfy` | the token bucket behind `max_msg_per_sec`: the object, and its behaviour over every trace of calls |
| `Contention.dfy` | any number of pacing and non-blocking callers on one bucket, as a state machine |
| `Inbound.dfy` | admission, dispatch, response and counters for every inbound request |
| `Text.dfy` | first occurrence, ASCII lower-casing and trimming |
| `Receipts.dfy` | the delivery-receipt parser |
| `ReceiptRewrite.dfy` | the receipt the gateway prints, and what the parser makes of it |
| `Gateway.dfy` | the correlation cache that routes receipts back to the submitting ESME |
| `SendOutcome.dfy` | the registry of outbound sessions, the classifier of failed sends, and the protocol around both |
| `Dispatch.dfy` | the session-handler runner and the exactly-once completion |
| `BindSupervisor.dfy` | the reconnect supervisor and its backoff |
| `Tlv.dfy`, `Relay.dfy`, `Routing.dfy` | optional parameters, relaying one hop, choosing a bind |
| `EnvExpansion.dfy` | `${VAR}` expansion in configuration text |

Main results, in short:

* **Limiter.** A call is admitted exactly when every count of admissions up to it stays within one
  bucket plus the refill (`AdmissionIsExact`), failed calls leave no trace, every window obeys the
  cap (`WindowBound`), and `n` pacing callers at any bucket sleep at most `n(n+1)/2 + nm` times beside
  `m` successful non-blocking ones (`CallersSleepThisOften`), which is the best possible bound
  (`BoundIsAttained`); prompt polling serves them all (`AllCallersFinish`), at exactly the moment
  enough tokens have come (`ServedOnTime`). Inbound, no window lets more of a session through than the
  cap (`AdmissionsStayUnderTheCap`), handlers follow with the delay of the executor
  (`HandlersStayUnderTheCap`), and over every run each message gets the one response, handler call and
  counter increment it deserves (`CountersMatchTheWire`).
* **Receipts.** Keys never overlap, so the parse is a partition of the body (`Parse`); printing and
  parsing round-trips if and only if no printed value hides a later key (`PrintAndParse`); a rewritten receipt
  always carries our id (`RewriteCarriesOurId`), reaches the session that was told that id
  (`ReceiptsReachTheirSenders`) and is sent at most once (`OneReceiptPerMessage`).
* **Sends.** Over every run of binds, rebinds, sends, timers and session ends, each failure is
  reported for what it was (`ReportsAreSound`), and the registry is exact (`RegistryIsExact`); the
  registry object takes exactly the protocol's steps.
* **Handlers, supervisor, relay, configuration.** Suspending and resuming refines plain sequential
  execution (`Session`); backoff has a closed form (`RunBindLoop`), and which sessions the reconnect
  counter counts follows from their lifetimes (`CounterIsExact`); a hop preserves the body
  (`SubmitHop`, `DataHop`); the expansion loop evaluates the only lossless reading of the text that
  misses no reference (`ExpandEnvVars`, `LexIsLossless`, `ReadingIsUnique`).

## Where the code and its description part ways

The model follows the code. Three descriptions do not hold as written; two more hold as written but
not in the stronger sense a reader may take them in. Each has a failing case and the exact condition
under which it holds.

* The parser's documentation says the text always runs to the end of the body. It stops at any other
  key that first occurs later (`TextRunsToTheEnd`, `TextCanBeCutShort`).
* The gateway says the longest matching prefix wins. It does if and only if a rule with that prefix
  names a bind, or nothing else does and the last resort agrees (`LongestDecidesIfUsable`,
  `ShorterPrefixCanDecide`).
* The gateway's cache key joins bind name and upstream id with a colon, so two binds can share a key
  exactly when one name extends the other by a colon, and receipts then go astray (`KeyCollision`,
  `Misroute`).
* A healthy session resets the backoff to one second, as the supervisor's comment says. That does not
  mean that the next failure is retried after a second: the healthy cycle itself uses it, and the next
  failed one sleeps two (`StreakReading`, `TwoSecondsAfterHealthy`).
* The reconnect counter counts only drops of sessions that came up, as its comment says. It does not
  count all of them: a session that came up is missed if and only if it fell between two looks, was
  gone by the look after the one that saw it, or lived only between the last look and the drop of the
  client (`CounterIsExact`, `TooLateIsARace`, `SessionsAreMissed`).

## Model

| member | source | states |
|---|---|---|
| `RateLimiting.New` | src/runtime.rs:164-174 | a new limiter is full, holds one second's worth and refills at the rate; a rate of zero counts as one |
| `RateLimiting.RateLimiter.constructor` | src/runtime.rs:164-174 | the object starts as `New` says, tokens, capacity and refill all equal to the rate |
| `RateLimiting.RateLimiter.Refill` | src/runtime.rs:183-186 | lazy refill from the time elapsed, capped |
| `RateLimiting.RateLimiter.TryAcquire` | src/runtime.rs:204-216 | one critical section: admitted exactly when the refilled level is at least one, and then one token less |
| `RateLimiting.RateLimiter.Acquire` | src/runtime.rs:179-198 | an uncontested caller sleeps at most once, for exactly the missing fraction, and leaves the bucket as one call at the admission instant would |
| `RateLimiting.RefillIsPathIndependent` | src/runtime.rs:183-186 | refilling in two steps is refilling once |
| `RateLimiting.SleepSuffices` | src/runtime.rs:191-196 | after the computed sleep a token is there unless somebody took it |
| `RateLimiting.LevelIsExact` | src/runtime.rs:179-216 | over every trace the level is the least of the capacity and each admission's allowance |
| `RateLimiting.AdmissionIsExact` | src/runtime.rs:179-216 | over every trace, a call is admitted at once if and only if from each earlier admission through the new one the count is within capacity plus refill |
| `RateLimiting.FailedCallsLeaveNoTrace` | src/runtime.rs:179-216 | dropping failed calls from a trace changes no admission and no later level |
| `RateLimiting.BurstBound` | src/runtime.rs:150-216 | any run of consecutive admissions fits capacity plus refill over its span |
| `RateLimiting.WindowBound` | src/runtime.rs:150-216 | admissions in any window never exceed capacity plus refill, and the level stays between zero and the capacity |
| `RateLimiting.RateCap` | src/runtime.rs:150-216 | a limiter of `rate` a second admits in any window at most rate * (1 + its seconds) |
| `RateLimiting.NextToken` | src/runtime.rs:164-196 | an empty limiter admits exactly from 1/rate seconds later on |
| `RateLimiting.BurstIsTheRate` | src/runtime.rs:164-216 | a burst of exactly `rate` passes at once, and not one more |
| `RateLimiting.RateIsSustained` | src/runtime.rs:164-216 | messages 1/rate seconds apart are never held up, even on an empty bucket |
| `Contention.FailedPollWasOvertaken` | src/runtime.rs:179-198 | a sleeper that wakes to less than one token was overtaken by an admission |
| `Contention.StepKeepsRipeness` | src/runtime.rs:179-216 | every step keeps the bucket valid and: a sleeper nobody overtook finds its token when its sleep is over |
| `Contention.StepSpendsBudget` | src/runtime.rs:179-216 | in every step a sleep is paid for out of the budget, an admitted non-blocking call raises it by at most one sleep per waiting caller, and a poll sleeps or serves |
| `Contention.SleepsAreBounded` | src/runtime.rs:179-216 | from any state and over any run, sleeps done and outstanding are covered by the budget plus one per waiting caller and admitted non-blocking call; every poll sleeps or serves |
| `Contention.CallersSleepThisOften` | src/runtime.rs:179-216 | n pacing callers at any bucket beside m admitted non-blocking ones sleep at most n(n+1)/2 + nm times and poll at most n times more, less while one is unserved |
| `Contention.BoundIsAttained` | src/runtime.rs:179-216 | for every n and m some run on an empty bucket sleeps exactly that often and serves everybody |
| `Contention.AllCallersFinish` | src/runtime.rs:179-198 | from any state, polling whoever is ready first serves every waiting caller within one poll per budgeted sleep and one per caller |
| `Contention.ServedOnTime` | src/runtime.rs:179-198 | n prompt callers at any bucket are all served at exactly the moment the bucket has had n tokens, and while one is unserved that moment is still to come |
| `Contention.NoScheduleIsFaster` | src/runtime.rs:179-216 | over any run of any callers, admissions never exceed what was in the bucket and what has come since |
| `Contention.UnservedCallerCanPoll` | src/runtime.rs:179-198 | only the clock holds back an unserved caller |
| `Contention.UncontestedSleepsOnce` | src/runtime.rs:176-198 | a lone caller at any bucket sleeps once if its first poll finds no token and never otherwise, and the next poll serves it |
| `Inbound.FailureStatus` | src/runtime.rs:586-718 | the status for a raised or missing handler, per command, as a number |
| `Inbound.LabelMatchesWire` | src/runtime.rs:1055-1090 | counter label and response status agree on acceptance for every command and handler outcome; the reply's status alone decides; a message id travels exactly on the acceptances of the commands that have one, and is the handler's or empty |
| `Inbound.Listener.Admit` | src/runtime.rs:809-837 | a PDU is held back exactly when it is a submit_sm, data_sm or submit_sm_multi of a limited session and the refilled level is below one; then it waits or is throttled by the configured action; the throttle counter moves once per throttled PDU and once per wait that ends |
| `Inbound.Listener.Arrive` | src/runtime.rs:519-525 | one ask as one step of the run below; a throttled PDU is answered and counted here |
| `Inbound.Listener.Handle` | src/runtime.rs:525-546 | the handler call, the answer and the counter as one step of the run below |
| `Inbound.StepCounts` | src/runtime.rs:513-837 | every step keeps, for each PDU: at most one answer, the throttle status if and only if it was refused and else the verdict of its own handler; the handler calls are those of the answered PDUs that were not refused, in order and none before its PDU was let through; counters agree with the wire, and the throttle counter with the denied PDUs |
| `Inbound.CountersMatchTheWire` | src/runtime.rs:513-942 | all that over every run of all sessions, failed polls of pacing PDUs included; no PDU is lost: it is answered, let through to its handler, or waits under pacing because it was denied |
| `Inbound.LimiterGovernsDispatch` | src/runtime.rs:809-837 | over every run of all sessions, a session's PDUs are let through exactly at the asks its own limiter admits |
| `Inbound.ThrottleIsPerCommand` | src/runtime.rs:519-718 | without a token the three message commands are answered 0x58 under reject and wait under pace; the other five always pass and cost no token |
| `Inbound.AdmissionsStayUnderTheCap` | src/runtime.rs:733-837 | under either throttle action no window sees more submit_sm, data_sm and submit_sm_multi of a session let through than rate * (1 + its seconds) |
| `Inbound.HandlersStayUnderTheCap` | src/runtime.rs:519-837 | handlers that start within d of their token stay, in every window, within rate * (1 + its seconds + d); however late they are, the count since the limiter was made stays within rate * (1 + the seconds since) |
| `Inbound.LateHandlersBunch` | src/runtime.rs:519-527 | a run in which late handlers exceed the cap taken without the delay |
| `Text.FindsEverySpelling` | src/pyclasses.rs:629-639 | searching the lower-cased body finds a key in every spelling of its letters, and nothing else |
| `Text.BlanksAreWhiteSpace` | src/pyclasses.rs:660-660 | the blanks trimmed off are the 25 code points of Unicode White_Space |
| `Receipts.SuffixFree` | src/pyclasses.rs:599-608 | no `key:` is a suffix of another |
| `Receipts.Disjoint` | src/pyclasses.rs:628-647 | occurrences of different keys never overlap |
| `Receipts.NeverClaimed` | src/pyclasses.rs:640-644 | the claimed-span check discards no key |
| `Receipts.FindHits` | src/pyclasses.rs:629-648 | the search finds the first occurrence of every key that occurs, pairwise apart |
| `Receipts.SortSorts` | src/pyclasses.rs:652-652 | sorting by position orders the spans without overlap |
| `Receipts.LayoutGivesEnds` | src/pyclasses.rs:658-661 | each slice has start at most end at most length, and ends at the next first occurrence or the end of the body |
| `Receipts.FillFields` | src/pyclasses.rs:654-662 | slicing sets every field to the trim of its own segment |
| `Receipts.Parse` | src/pyclasses.rs:628-662 | none exactly when none of the eight keys is spelled anywhere, in whatever case; each named field is set exactly when its own key is; values and raw body as specified; the hits it found partition the body into what it returns |
| `Receipts.CaseDoesNotMatter` | src/pyclasses.rs:629-639 | bodies that differ only in the case of letters have the same keys and value ends at the same offsets |
| `Receipts.FieldIsUnique` | src/pyclasses.rs:628-662 | the specification determines every field |
| `Receipts.ParseIsAPartition` | src/pyclasses.rs:652-661 | preamble, key spans and untrimmed values concatenate to the body, each span spells its key, each field of the result trims its segment |
| `Receipts.TextRunsToTheEnd` | src/pyclasses.rs:573-582 | the text runs to the end if and only if every other key that occurs first occurs before it |
| `Receipts.TextCanBeCutShort` | src/pyclasses.rs:573-582 | bodies such as `text:id:` whose text reads as empty although visible characters follow |
| `ReceiptRewrite.Occurrence` | examples/gateway.py:282-288 | in a printed receipt a key occurs only where it was printed or wholly inside one value |
| `ReceiptRewrite.CleanReadsBack` | examples/gateway.py:282-288 | a field reads back unchanged once it and those before it hide no later key, whatever follows |
| `ReceiptRewrite.ReadsBackIsClean` | examples/gateway.py:282-288 | a field that reads back hid no later key |
| `ReceiptRewrite.RoundTrip` | examples/gateway.py:282-288 | every printed field reads back if and only if every value is trimmed and hides no key printed later |
| `ReceiptRewrite.PrintAndParse` | examples/gateway.py:282-288 | the parser returns every printed field unchanged if and only if every value is clean |
| `ReceiptRewrite.RewriteAndParse` | examples/gateway.py:282-288 | parsing the rewritten body returns our id and the fixed counts |
| `ReceiptRewrite.PlainFieldsRoundTrip` | examples/gateway.py:282-288 | trimmed colon-free fields and a trimmed arbitrary text all read back |
| `ReceiptRewrite.RewriteCarriesOurId` | examples/gateway.py:282-288 | for every upstream receipt the rewritten body parses to our id, sub 001 and dlvrd 001 |
| `ReceiptRewrite.RewriteIsPrinted` | examples/gateway.py:282-288 | the rewritten body, letter for letter, with the defaults for missing fields |
| `ReceiptRewrite.Merge` | src/pyclasses.rs:243-279 | a receipt exists when the text or either receipt parameter gives one |
| `ReceiptRewrite.ReadReceipt` | src/pyclasses.rs:243-279 | each field is what the text gives for its key; id and state come from the parameters where the text has no such key |
| `ReceiptRewrite.TextWins` | src/pyclasses.rs:243-279 | parameters never override the text and fill only a missing id and a missing state, the latter by its name |
| `ReceiptRewrite.MessageStateName` | src/pyclasses.rs:614-626 | exactly codes 1 to 8 have a name, each its own |
| `ReceiptRewrite.StateAgreesWithText` | examples/gateway.py:148-167 | a state code is sent exactly when the text's state, trimmed and in whatever case, is the name of that code |
| `ReceiptRewrite.StatesComeBack` | examples/gateway.py:148-167 | every code the parser can name comes back as itself |
| `ReceiptRewrite.RewriteKeepsCanonicalFields` | examples/gateway.py:269-288 | whether the upstream receipt is a text with keys in canonical order, optional parameters alone or both, the ESME reads the dates, state, error code and text the gateway read, or the defaults, with our id |
| `Gateway.Gateway.constructor` | examples/gateway.py:30-35 | an empty cache |
| `Gateway.Gateway.OnSubmitAccepted` | examples/gateway.py:243-255 | stores the correlation when a receipt was asked for and an id came back; every stored correlation and sent receipt still belongs to a message some ESME was told about, and none is spent twice |
| `Gateway.Gateway.RouteDlr` | examples/gateway.py:269-318 | an unknown id is dropped; for a known one exactly the upstream receipt's fields are printed with our id and its state sent as code, to the told session, and the correlation is forgotten whether or not the ESME answers; the invariant says so of everything ever sent |
| `Gateway.RebuiltAnswers` | examples/gateway.py:280-306 | what is sent goes to the session that was told, and its text and its optional parameter carry the id it was told |
| `Gateway.RebuiltConveys` | examples/gateway.py:280-296 | what is sent says what the upstream receipt said, as text, as parameters, and as the ESME parses it |
| `Gateway.KeyCollision` | examples/gateway.py:253-275 | two binds can share a cache key, for upstream ids that are not empty, if and only if one name is the other followed by a colon and more |
| `Gateway.Misroute` | examples/gateway.py:253-306 | for all such names, a run in which a receipt on a bind that relayed nothing is sent to the session that submitted on the other |
| `Gateway.ReceiptsReachTheirSenders` | examples/gateway.py:243-318 | with such names excluded, every receipt ever sent answers for the very message it names |
| `Gateway.OneReceiptPerMessage` | examples/gateway.py:243-318 | with fresh ids, no two receipts are ever sent for one message, however often upstream receipts repeat |
| `SendOutcome.RetainDrops` | src/runtime.rs:1003-1008 | retain drops exactly that session and shortens the list exactly when there was one |
| `SendOutcome.FindBind` | src/sends.rs:271-282 | the first session of that name, or none exactly when none has it |
| `SendOutcome.Registry.constructor` | src/runtime.rs:221-223 | an empty registry, in the initial state of the protocol |
| `SendOutcome.Registry.OnSmscBound` | src/runtime.rs:981-1000 | appends the session: the protocol's bind step |
| `SendOutcome.Registry.OnSmscUnbound` | src/runtime.rs:1002-1020 | drops exactly that session and announces it only if it was there: the protocol's hook step, and nothing for a session never bound |
| `SendOutcome.Registry.BindHandle` | src/sends.rs:271-282 | a name resolves to the session bound earliest under it that has not ended, and to none exactly when all have; the protocol's lookup finds the same |
| `SendOutcome.Registry.BindGone` | src/runtime.rs:114-120 | a handle is gone exactly when its session has ended or never was; the protocol finds the same for any send that asks, in any state with this registry |
| `SendOutcome.ReportStep` | src/outcome.rs:271-305 | the report of a failed send agrees with its cause when the registry is asked |
| `SendOutcome.ReportsAreSound` | src/outcome.rs:271-305 | over every run: a timer release is Timeout; a session end is Closed, or Timeout once the timer elapsed, never Unanswered; a nack other than ESME_RSYSERR keeps its status; and conversely each report pins down its causes |
| `SendOutcome.CausesHappen` | src/outcome.rs:271-305 | for every cause, clock reading, session end and rebind the codec's facts allow there is a run, and what it reports |
| `SendOutcome.RegistryIsExact` | src/runtime.rs:981-1020 | over every run the registry is the bound and not unbound sessions in bind order, each end is announced exactly once, and a name resolves to its earliest live session |
| `SendOutcome.GoneStaysGone` | src/runtime.rs:114-120 | a handle that is gone stays gone over every run |
| `Dispatch.RunSession` | src/dispatch.rs:541-554 | runs handlers in order up to the first coroutine; what was seen, its settling and the rest make up sequential execution |
| `Dispatch.Session` | src/dispatch.rs:564-594 | for any mix of handlers and job failures, what is seen is sequential execution of the matching handlers, cut short only by a job that died; at most one job more than handlers |
| `Dispatch.SequentialIsOneAtATime` | src/dispatch.rs:561-563 | each handler settles before the next starts, in registration order, with its own result, whether it returned or was awaited |
| `Dispatch.MatchingIsAFilter` | src/dispatch.rs:567-571 | the event filter keeps exactly the matching handlers |
| `Dispatch.MatchingKeepsOrder` | src/dispatch.rs:567-571 | the event filter keeps registration order |
| `Dispatch.Completion.Take` | src/dispatch.rs:343-348 | the closure can be taken once |
| `Dispatch.Completion.Report` | src/dispatch.rs:360-371 | only the first call reports |
| `Dispatch.Completion.ReportAll` | src/dispatch.rs:326-371 | any sequence of calls delivers exactly the first, once |
| `Dispatch.Settle` | src/dispatch.rs:210-226 | the value or error reported first is the result; a drop or a deadline that comes first gives its own error; the channel carries at most one report, the first call before any drop |
| `BindSupervisor.Resolution` | src/runtime.rs:305-312 | where the wait ends: alive, refused or past the deadline, and not before |
| `BindSupervisor.RunAttempt` | src/runtime.rs:391-417 | the two polling phases compute how the cycle ended |
| `BindSupervisor.WaitEndsAtOnce` | src/runtime.rs:297-312 | a refused connect or a live session ends the wait at the look that sees it |
| `BindSupervisor.WaitIsBounded` | src/runtime.rs:346-402 | at most fifteen polls, a second apart, before an attempt resolves |
| `BindSupervisor.WaitsFifteenSeconds` | src/runtime.rs:305-348 | the wait is given up at the first look from 15 s on, and not before unless the session is up or refused |
| `BindSupervisor.CounterIsExact` | src/runtime.rs:391-431 | for any session lifetime and look instants, the counter counts an attempt exactly when its session came up if and only if the session neither fell between looks, nor was gone by the next look, nor came up after the wait was given up |
| `BindSupervisor.LongSessionsAreCounted` | src/runtime.rs:391-431 | a session that comes up in time and lasts two gaps between looks is always counted |
| `BindSupervisor.HeldLength` | src/runtime.rs:402-425 | the measured length covers what was left of the session's life, plus at most one gap |
| `BindSupervisor.TooLateIsARace` | src/runtime.rs:402-436 | as dropping the client ends its session, a session came up too late exactly when its whole life lies between the last look and the drop |
| `BindSupervisor.SessionsAreMissed` | src/runtime.rs:391-436 | one attempt of each kind whose session came up and is not counted |
| `BindSupervisor.RunBindLoop` | src/runtime.rs:357-439 | over any number of cycles the sleep is one second doubled once per cycle since the last healthy one, capped at a minute; the counter is the number of bound cycles |
| `BindSupervisor.SinceIs` | src/runtime.rs:419-439 | the count behind each sleep: the cycles since the last healthy one, none of them healthy |
| `BindSupervisor.SleepsInSeconds` | src/runtime.rs:357-439 | 1, 2, 4, 8, 16, 32 and from then on 60 seconds |
| `BindSupervisor.HealthyIsThirtySeconds` | src/runtime.rs:348-353 | healthy is a session held for at least 30 s |
| `BindSupervisor.BoundCyclesAre` | src/runtime.rs:427-431 | the counter is the number of attempts counted |
| `BindSupervisor.StreakReading` | src/runtime.rs:423-439 | counting from the start of each unhealthy streak is right if and only if no healthy cycle came before or the streak is at least six long |
| `BindSupervisor.TwoSecondsAfterHealthy` | src/runtime.rs:423-439 | the first failed cycle after a healthy one sleeps two seconds |
| `Tlv.WidthIsExact` | src/tlv.rs:29-72 | which integer-typed parameters are one, two and four octets wide, by tag, none of them twice |
| `Tlv.StringsAreTerminated` | src/tlv.rs:122-134 | octets go out as they are, a string with one NUL, so that a C-octet-string reader gets it back |
| `Tlv.KeysAreTags` | src/tlv.rs:94-117 | a key is a known name or a number from 0 to 65535 |
| `Tlv.IntegersKeepTheirValue` | src/tlv.rs:135-162 | an integer is accepted if and only if it fits its spec width; its octets have that width and decode to it |
| `Tlv.FromDict` | src/tlv.rs:183-200 | accepted if and only if every entry converts and no two name one tag; one parameter per entry, in order |
| `Tlv.ToDict` | src/tlv.rs:205-211 | inserts the parameters in order |
| `Tlv.DictHoldsTheLast` | src/tlv.rs:205-211 | a tag reads as its last parameter |
| `Tlv.ReadBack` | src/tlv.rs:183-211 | an accepted dictionary reads back with one entry per key holding its encoded octets |
| `Relay.Lookup` | src/pyclasses.rs:142-155 | a parameter is found exactly when present |
| `Relay.RelayArguments` | examples/gateway.py:169-190 | the relayed parameters present, and the body in the one field that can hold it |
| `Relay.FoldMessagePayload` | src/sends.rs:66-83 | refuses a body passed both ways, otherwise keeps body and other parameters |
| `Relay.SubmitHop` | src/sends.rs:390-391 | for every PDU the relay arguments pass the checks; the next hop reads the same body, where the first 0x0424 parameter goes before the short message, and the same nine relayed parameters; up to 254 octets travel as short message, more as 0x0424 |
| `Relay.DataHop` | src/sends.rs:88-117 | the same over data_sm, with no short message, where a second body is never met |
| `Relay.LimitIs254` | src/sends.rs:41-48 | a short message passes the check exactly when it has at most 254 octets |
| `Routing.PickBind` | examples/gateway.py:96-118 | the loop returns the bind of the one winning rule (usable, longest prefix, first among equals) whenever a rule applies; else a non-empty one of the default chain; else the first configured bind, or none |
| `Routing.FirstStepNames` | examples/gateway.py:96-100 | a chain gives the name in its first `bind:` step, and none exactly when it has no such step |
| `Routing.StartsWithIs` | examples/gateway.py:103-109 | a rule matches exactly when the destination continues its prefix |
| `Routing.MatchesAreNested` | examples/gateway.py:103-113 | of two matching prefixes the longer extends the shorter |
| `Routing.LongestDecidesIfUsable` | examples/gateway.py:91-118 | the returned bind is the one a rule with the longest matching prefix names if and only if such a rule is usable, or nothing else is and the last resort agrees with it |
| `Routing.ShorterPrefixCanDecide` | examples/gateway.py:91-118 | rules for which a shorter prefix is chosen |
| `EnvExpansion.LexIsLossless` | src/config.rs:567-597 | the reading of a text as literals and references prints back to it |
| `EnvExpansion.PiecesAreMaximal` | src/config.rs:567-597 | the reading finds every complete reference, up to and including the last literal |
| `EnvExpansion.ReadingIsUnique` | src/config.rs:567-597 | there is no other reading that prints to the text and misses no reference |
| `EnvExpansion.ExpandEnvVars` | src/config.rs:567-597 | the loop terminates and replaces each reference of the reading by its value, which is not read again |
| `EnvExpansion.NothingToExpand` | src/config.rs:570-596 | text without `${` is a fixed point |
| `EnvExpansion.UnclosedIsVerbatim` | src/config.rs:574-582 | from an unclosed `${` on, text is copied verbatim |
| `EnvExpansion.ExpandReference` | src/config.rs:570-595 | p, `${n}` and q expand to p, the value of n and the expansion of q |
| `EnvExpansion.VariableExpands` | src/config.rs:583-594 | `${n}` gives the variable or nothing, `${n:-d}` the variable or the default |

## Left out

- Floating point and clock resolution: tokens and instants of the limiter are exact reals, and an instant read under the mutex is never earlier than the one before.
- RateLimiting.RateLimiter.Acquire: the method runs without competitors; competition between callers is the state machine of `Contention.dfy`, one critical section per step.
- Receipts.Parse: offsets count characters where the code counts UTF-8 bytes, and the body is taken after lossy decoding; needles are ASCII, so both count the same slices.
- SendOutcome.ReportsAreSound: rests on the two ordering facts stated at src/outcome.rs:22-37 and on unique session ids; a nack status outside the codec's table arrives already mapped by the codec.
- The registry of inbound ESME sessions: its lookup and removal are those of the outbound one, but it announces the end of a session on every call of the hook, so exactly one announcement there needs exactly one call.
- Inbound.Listener.Admit: limiters are values in a map rather than shared objects, and a pacing PDU may ask again at any instant, not only after its sleep; a handler's answer goes out in the step that starts it; sessions do not come and go during a run.
- The optional parameters of a `data_sm_resp`, bind requests, `alert_notification` and `on_timeout`: no property beyond what a reading gives.
- Dispatch.Session: logging of handler errors, hot reload of the registry and the interpreter's threads are not modelled; a handler is its outcome.
- BindSupervisor.RunAttempt: a late failure report from an earlier attempt, raised after the flag was cleared, is not modelled; the three values read in one turn of the wait are read at one instant.
- Relay.RelayArguments: the `extra_tlvs` argument, which no caller passes, and the 16-bit length field of a parameter.
- Tlv.FromDict: the codec's table of parameter names is not part of this model; a name carries the tag it resolves to.
- Gateway.Gateway.RouteDlr: runs as one step, so two receipts for the same id handled at once are not covered; a send that fails, over 254 octets or otherwise, counts as one the ESME did not answer; upper-casing a state is ASCII.
- The `smpp34` codec, sockets, TLS, sequence windows and `enquire_link`: not part of this repository's code.
- Script plumbing, YAML loading, environment-defined binds, the status-name table, field-by-field PDU copies, metrics and logging: copies and tables with no property worth a proof.
