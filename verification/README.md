# A verified model of the learning platform's state protocols

This project models, in Dafny, the parts of the platform whose correctness is about whole runs
rather than single calls, and proves what those runs keep:

- **Sessions and refresh tokens** (auth-service): rotation with re-use detection, family
  revocation, the password cut-off and the login lockout, after section 4.14.2 of RFC 9700.
- **Payment to access to certificate** (payment-, enrollment- and certificate-service over the
  shared event bus): at-least-once delivery against a processed-event ledger, cached progress, the
  one completion event, one certificate per learner and course.
- **Catalog ordering** (course-service): the two-phase reorder under a unique key that is checked on
  every write, order and slug allocation, the flat curriculum and its cached counters.
- **Lab sessions** (lab-service): quota, single-use tickets, and the sweep.

`dafny verify dfyconfig.toml` checks everything.

## How the model is built

- A table is a sequence (a row's id is its position, an insert appends, so new ids are fresh) or a
  map keyed by its unique key. Rows are never deleted in the modelled services. A transaction is one
  step; a statement that breaks a unique key makes the whole transaction a no-op.
- The clock is in milliseconds and never goes back: every event carries how long it waited.
- Each service call is a specification function on tables (`AuthTables`, `Enrollments`, `Payments`,
  `Certificates`, `Reorder`, `Catalog`, `Labs`). Theorems over runs are lemmas about those functions.
- The `...Service` classes hold the tables as fields and run the statements and loops of the source.
  `Valid()` is the invariant that the run theorems establish: every token family is a chain with one
  live end; one completion event per finished row; every payment's status is the one announced last;
  every user within the lab quota; unique orders, slugs and exact counters; one signed certificate
  per learner and course. Every method keeps it, leaves exactly the tables its specification function
  gives, and states what its caller may rely on.
- Where calls interleave, the machine is split at the awaits that matter: `AuthRace` (read, signing,
  rotation transaction, revocation), `LoginRaces` (account read and failure count), `EnrollmentRuns`
  (ledger look-up and transaction, entitlement check and completion, failing handlers),
  `ProgressRaces` (reading the lesson records, reading the row, writing it), `CatalogRaces` (edit,
  counter sums, counter update), `LabRaces` (quota count, insert, provisioning), `TicketRaces` (ticket
  read and update), `Platform` (all services together, certificate claims split in three).
- Hashes and the HMAC are injective; randomness, provisioning results and remote answers are
  parameters of the calls.

| file | content |
|---|---|
| `Base` | optional values, `Math.round` on exact rationals, decimal numerals |
| `AuthTables`, `AuthService` | auth tables, calls, and the service object |
| `AuthRace`, `AuthFamilies` | racing refreshes: what a revocation closes, the shape of a raced family |
| `AuthChains`, `AuthLockout` | calls that do not overlap: chains, re-use, lockout bound |
| `LoginRaces` | overlapping logins: what the lockout bound becomes |
| `Enrollments`, `EnrollmentService` | enrollment and progress tables, calls, and the service object |
| `EnrollmentRuns`, `AccessHistory`, `ProgressRuns`, `ProgressRaces`, `Deliveries` | runs of the consumer, of learners and of administrators |
| `EventBus` | the bus object |
| `Payments`, `PaymentService` | payment calls, last announced status, and the service object |
| `Certificates`, `CertificateService` | serials, signatures, verification, and the service object |
| `Platform` | everything composed |
| `Reorder`, `Sorting`, `Slugs`, `Catalog`, `Curriculum`, `CatalogService` | course-service |
| `Labs`, `LabService` | lab-service |
| `LabRaces`, `TicketRaces` | overlapping starts and redemptions: what quota and tickets become, and which sessions can live again |
| `CatalogRaces` | overlapping edits: what the cached counters show |

## Where the code is not quite what one would expect

- One live token per session holds for calls that do not overlap (`AuthChains.FamiliesAreChains`).
  Under races it holds exactly while no token was exchanged twice
  (`AuthFamilies.LiveTokensOfRacedFamily`), and any live token can be (`AuthFamilies.EveryLiveTokenCanFork`).
- Issue times are whole seconds, so a token issued after a password change but within the same
  second is refused too (`AuthRace.CutoffIsRoundedUp`).
- A token past its signed expiry is refused before re-use is looked at, so re-use detection covers
  only tokens whose signature is still in date (`AuthChains.ReuseEndsExactlyOneFamily`).
- A lesson completion that was let through before a revocation and commits after it re-opens access
  (`AccessHistory.RaceReopensAccess`); with prompt completions, history alone decides.
- Overlapping recalculations can announce a completion more than once
  (`ProgressRaces.OverlapAnnouncesTwiceIff`, `ProgressRaces.RepeatsAreInFlight`) and leave a percent
  that lags (`ProgressRaces.CachedPercentCanLag`, `ProgressRaces.CachedPercentShowsItsRead`);
  certificates stay unique regardless. Overlapping counter refreshes leave a course's counters
  behind in the same way (`CatalogRaces.CountersCanLag`, `CatalogRaces.CountersShowTheirRead`).
- A course counts as finished from 99.5% on, so from 200 lessons a lesson may be missing
  (`Enrollments.FinishedMeansAllDone`).
- Completed lessons are counted whether or not they are in the curriculum, so lessons outside it can
  make up for missing ones (`Enrollments.StraysMakeUp`, `Enrollments.StraysFinish`).
- A verification with an empty gateway payment id completes the payment without publishing
  (`Payments.PaidWithoutEvent`, `Payments.SettlingAnnouncesIff`). The request validator accepts such
  an id; a genuine signature over it still needs the gateway's key secret.
- With several payments for one course, refunding one closes access although another is still
  completed (`Payments.SecondPaymentStaysPaid`, `Platform.LastMoverDecides`).
- A forged verification turns a completed payment failed and publishes nothing, so access stays
  (`Payments.PaidThenForged`, `Platform.PaymentAndAccessAgree`).
- Upper-casing is full Unicode, so some texts with letters outside ASCII are accepted spellings of a
  serial: a long s for S, a ligature for FL (`Certificates.VerifyRecognises`).
- A lab session that is stopped while its container is still being provisioned is marked running
  afterwards, and so lives again (`LabRaces.LivesAgainIffStarting`).
- Overlapping failed logins overwrite each other's count, and the lockout bound holds as it stands
  exactly when none may overlap (`LoginRaces.LockoutHoldsIffNoOverlap`). Overlapping starts can exceed
  the lab quota, which holds exactly when none may overlap (`LabRaces.QuotaSurvivesIffNoOverlap`), and
  overlapping redemptions can honour a ticket more than once, likewise
  (`TicketRaces.HonouredOnceIffNoOverlap`).
- Soft-deleted modules and lessons keep their order and count for the unique keys, so a hidden row
  can make a reorder fail (`Reorder.ReorderIsOneAssignment`).
- A handler that loses the race for its ledger row throws and is dead-lettered although its event
  has taken effect (`Deliveries.LostRaceIsDeadLettered`, `Deliveries.LostRacesWereApplied`).

## Model

| member | source | states |
|---|---|---|
| AuthServices.AuthService.Login | apps/auth-service/src/auth/auth.service.ts:144-194 | Success is exactly an undeleted, unlocked, active user with the right password; it opens one session whose only live token is the one handed out and clears the counter; a wrong password adds one and locks from maxAttempts on; no other outcome, and no other account, changes anything |
| AuthServices.AuthService.StartSession | apps/auth-service/src/auth/auth.service.ts:196-228 | The new session is the user's and has exactly one live token, signed now and expiring refreshTtlSeconds later; every earlier row stands |
| AuthServices.AuthService.Refresh | apps/auth-service/src/auth/auth.service.ts:235-313 | A token is issued exactly for one that is stored, unused, unrevoked, before both its expiries, of an unrevoked session and an active undeleted user, and not signed before a password change; past its signed expiry it changes no row, spent or not; an issued token is the one live token of its family; a re-used or cut token ends its session; any other refusal changes nothing, and no other family is touched |
| AuthServices.AuthService.Logout | apps/auth-service/src/auth/auth.service.ts:315-326 | The presented token's session is over, whether the token was live or spent: none of its tokens is live or refreshes; every other session and its tokens stand, and an unknown token changes nothing |
| AuthServices.AuthService.LogoutAll | apps/auth-service/src/auth/auth.service.ts:328-336 | The loop over live sessions amounts to ending all of them at once; none of the user's sessions stays live, and no other user's session or token moves |
| AuthServices.AuthService.RevokeSession | apps/auth-service/src/auth/auth.service.ts:338-350 | The session is over: no live token, no token that refreshes, no valid access token; every other session and its tokens are unchanged |
| AuthServices.AuthService.ResetPassword | apps/auth-service/src/auth/auth.service.ts:396-421 | Every session of the user is over, the counter and lock are cleared, and no row of another user moves |
| AuthServices.AuthService.ChangePassword | apps/auth-service/src/auth/auth.service.ts:427-442 | After a change no token of the user issued in an earlier second refreshes at any later time; without the current password nothing changes |
| AuthServices.AuthService.Validate | apps/auth-service/src/auth/jwt.strategy.ts:34-42 | An access token is accepted exactly while its session is unrevoked |
| AuthTables.ExactlyExchangeablePass | apps/auth-service/src/auth/auth.service.ts:239-272 | The checks of a refresh in order amount to one condition on columns; the cut applies exactly to a token that is otherwise sound and signed before the last password change; past the signed expiry the answer is expired whatever else holds |
| AuthRace.StepConserves | apps/auth-service/src/auth/auth.service.ts:245-297 | Tokens of a family plus refreshes in flight grow only by a read that passes, in every interleaving |
| AuthRace.RevocationIsPermanent | apps/auth-service/src/auth/auth.service.ts:338-350 | A revoked session stays revoked and validates no access token in any continuation |
| AuthRace.NoRefreshAfterRevocation | apps/auth-service/src/auth/auth.service.ts:245-262 | No refresh whose read follows a revocation of its session passes, whatever is in flight or inserted later |
| AuthRace.RevokedFamilyIsClosed | apps/auth-service/src/auth/auth.service.ts:279-297 | After a revocation, tokens inserted plus calls in flight is constant: successes are bounded by the calls already in flight |
| AuthRace.PasswordChangeCutsOff | apps/auth-service/src/auth/auth.service.ts:269-272 | In every run, no token issued before the latest password change passes a later read |
| AuthRace.CutTokenEndsItsFamily | apps/auth-service/src/auth/auth.service.ts:252-272 | First use of a token that was signed before the last password change, and would otherwise be exchanged, ends its session and revokes every token of the family |
| AuthRace.CutoffIsRoundedUp | apps/auth-service/src/auth/tokens.service.ts:57-75 | A token is cut exactly when it was signed before the first whole second at or after the change |
| AuthRace.TokensExpireOnTime | apps/auth-service/src/auth/tokens.service.ts:57-75 | In every interleaving every token, stored or in flight, expires refreshTtlSeconds after its signing, in the token and in the row alike to the second |
| AuthRace.ExpiryIsFinal | apps/auth-service/src/auth/auth.service.ts:239-243 | A token past its signed expiry, spent or not, changes nothing in any continuation of any run |
| AuthRace.AdmitsExactlyExchangeable | apps/auth-service/src/auth/auth.service.ts:245-272 | In the split machine a read passes exactly for a presented token that meets that condition on columns |
| AuthRace.RefreshIsItsSteps | apps/auth-service/src/auth/auth.service.ts:235-313 | The split steps back to back are the atomic call |
| AuthFamilies.ReachableFamilies | apps/auth-service/src/auth/auth.service.ts:196-313 | In every interleaving, token links agree with the rows they name, tokens belong to their session's user, and a family has at most one root |
| AuthFamilies.LiveTokensOfRacedFamily | apps/auth-service/src/auth/auth.service.ts:279-297 | An unrevoked session with tokens has a live one, and exactly one if and only if no token was exchanged twice |
| AuthFamilies.EveryLiveTokenCanFork | apps/auth-service/src/auth/auth.service.ts:245-297 | Two overlapping refreshes of any valid token leave two live successors |
| AuthChains.FamiliesAreChains | apps/auth-service/src/auth/auth.service.ts:196-350 | In every run of calls, a family is one chain from login token to head, exactly the non-head tokens are used, and the head alone is live (nothing once revoked) |
| AuthChains.ReuseEndsExactlyOneFamily | apps/auth-service/src/auth/auth.service.ts:252-259 | Presenting a spent token ends its family for every continuation and touches no row of any other |
| AuthLockout.LockoutBound | apps/auth-service/src/auth/auth.service.ts:144-194 | With no success and no reset, wrong-password checks in any period D are at most maxAttempts + floor(D / lock window) |
| AuthLockout.LockoutBoundIsMet | apps/auth-service/src/auth/auth.service.ts:144-194 | For every period there is a run that reaches the bound |
| LoginRaces.OverlapBound | apps/auth-service/src/auth/auth.service.ts:148-170 | With logins split at the password comparison and any number in flight, the lockout bound grows by at most maxAttempts for each failure that counts from an outdated row |
| LoginRaces.OverlapBoundIsMet | apps/auth-service/src/auth/auth.service.ts:148-170 | For every number of overlaps and every period there is a run that makes exactly that many wrong checks |
| LoginRaces.LockoutHoldsIffNoOverlap | apps/auth-service/src/auth/auth.service.ts:148-170 | The bound for logins that do not overlap holds in every run if and only if no failure may overlap another |
| LoginRaces.LoginIsItsSteps | apps/auth-service/src/auth/auth.service.ts:144-194 | Read and decision back to back are the whole login |
| EnrollmentServices.EnrollmentService.IsEntitled | apps/enrollment-service/src/enrollments/enrollments.service.ts:56-64 | Entitled exactly with a row that is neither revoked nor past its expiry |
| EnrollmentServices.EnrollmentService.Upsert | apps/enrollment-service/src/enrollments/enrollments.service.ts:130-154 | The row is entitled at every later time and carries the given payment; an existing one keeps its source, percent and completion time; no other row moves |
| EnrollmentServices.EnrollmentService.EnrollFree | apps/enrollment-service/src/enrollments/enrollments.service.ts:93-104 | Enrols exactly when the course is free or has no positive price, and then entitles at every later time; a new row is a free one, an existing one only becomes active; no other row moves |
| EnrollmentServices.EnrollmentService.Grant | apps/enrollment-service/src/enrollments/enrollments.service.ts:107-114 | A grant entitles the learner at every later time; an existing row only becomes active again, a new one is a bare administrator grant; no other row moves |
| EnrollmentServices.EnrollmentService.Revoke | apps/enrollment-service/src/enrollments/enrollments.service.ts:116-123 | Whether or not there was a row, the learner is entitled at no later time; completion times stand and no other row moves |
| EnrollmentServices.EnrollmentService.HandlePaymentCompleted | apps/enrollment-service/src/enrollments/enrollments.service.ts:180-206 | A first delivery entitles the learner at every later time under that payment and moves no other row; the event is in the ledger, and delivering it again at any time changes nothing |
| EnrollmentServices.EnrollmentService.HandlePaymentRefunded | apps/enrollment-service/src/enrollments/enrollments.service.ts:209-223 | A first delivery ends entitlement at every later time, keeps what the row earned and moves no other row; the event is in the ledger, and delivering it again at any time changes nothing |
| EnrollmentServices.EnrollmentService.OnMessage | apps/enrollment-service/src/enrollments/enrollments.module.ts:39-49 | After a message its event is in the ledger or its id among the dead letters, and a failing handler has changed no table |
| EnrollmentServices.EnrollmentService.SavePosition | apps/enrollment-service/src/progress/progress.service.ts:21-39 | With entitlement the stored second is the one the position falls in (0 for a negative one), without nothing changes; the completed lessons of every learner stand |
| EnrollmentServices.EnrollmentService.CompleteLesson | apps/enrollment-service/src/progress/progress.service.ts:41-69 | With entitlement exactly that lesson is added to the completed ones, the cached percent is that of the completed lessons, rounded to the nearest, and the completion is announced exactly when this call sets the completion time |
| EnrollmentServices.EnrollmentService.RecalculateCache | apps/enrollment-service/src/progress/progress.service.ts:96-127 | The cached percent is 100 times the completed lessons over the total, to the nearest integer with ties upwards, and 0 without lessons; the row is finished afterwards if and only if it was or 200 times the completed lessons reach 199 times the total; it is announced exactly when it becomes finished |
| Enrollments.PercentIsRounded | apps/enrollment-service/src/progress/progress.service.ts:85-88 | The percent computed is the one integer nearest to the exact percentage, ties upwards, and 0 for a course without lessons |
| Enrollments.FinishLine | apps/enrollment-service/src/progress/progress.service.ts:85-102 | Finished if and only if there are lessons and 200 times the completed ones reach 199 times the total |
| Enrollments.FinishedMeansAllDone | apps/enrollment-service/src/progress/progress.service.ts:77-102 | For completed lessons within the curriculum, finished means exactly every lesson, if and only if the curriculum has fewer than 200 lessons |
| Enrollments.StraysMakeUp | apps/enrollment-service/src/progress/progress.service.ts:77-91 | For any completed lessons, finished implies every curriculum lesson done if and only if none is missing or fewer lie outside the curriculum than are missing |
| Enrollments.StraysFinish | apps/enrollment-service/src/progress/progress.service.ts:41-114 | Two lessons outside a two-lesson curriculum finish the course |
| EnrollmentRuns.TableIsFoldOfLog | apps/enrollment-service/src/enrollments/enrollments.service.ts:180-223 | For every interleaving, redelivery and failing handler, the table is, in every column, the fold of the committed log; each event id is in it at most once, and the ledger is exactly those ids |
| EnrollmentRuns.RedeliveryIsNoAction | apps/enrollment-service/prisma/schema.prisma:85-95 | A handler that lost the race to another delivery changes nothing |
| EnrollmentRuns.DeliveryIsItsSteps | apps/enrollment-service/src/enrollments/enrollments.service.ts:180-223 | Look-up and transaction back to back are the whole handler |
| Deliveries.EveryDeliveryIsAccounted | packages/shared/src/event-bus.ts:45-68 | Every delivery was skipped, took effect, was dead-lettered, or is still being handled; the counts add up |
| Deliveries.LostRacesWereApplied | packages/shared/src/event-bus.ts:57-66 | A dead letter whose handler did not fail otherwise lost its ledger race, and its event took effect exactly once |
| Deliveries.LostRaceIsDeadLettered | apps/enrollment-service/src/enrollments/enrollments.service.ts:180-203 | Two deliveries of any event whose look-ups both come before either transaction leave it applied once and dead-lettered, without any other failure |
| Deliveries.NothingIsLost | packages/shared/src/event-bus.ts:57-66 | Every event ever delivered took effect, is being handled, or is among the dead letters, whatever fails |
| Bus.EventBus.Publish | packages/shared/src/event-bus.ts:24-39 | A fresh id, the event sent, and the audit trail holding the newest 500 |
| AccessHistory.AccessIsDecidedByHistory | apps/enrollment-service/src/enrollments/enrollments.service.ts:56-64 | In every interleaving, entitled if and only if some opening action follows every closing one, or a completion raced past one |
| AccessHistory.AtomicAccessIsDecidedByHistory | apps/enrollment-service/src/progress/progress.service.ts:41-42 | With completions made while entitled, grants, payments, revocations and refunds alone decide access |
| AccessHistory.RaceReopensAccess | apps/enrollment-service/src/progress/progress.service.ts:104-114 | Any finishing completion can let access survive a revocation committed in between |
| ProgressRuns.CachedPercentIsExact | apps/enrollment-service/src/progress/progress.service.ts:71-114 | With completions that do not overlap and a fixed curriculum, the cached percent is the recounted one in every reachable state |
| ProgressRuns.CachedPercentIsRounded | apps/enrollment-service/src/progress/progress.service.ts:85-114 | So in every reachable state the column is 100 times the completed lessons over the lesson count, to the nearest integer |
| ProgressRuns.LessonsNeverRegress | apps/enrollment-service/src/progress/progress.service.ts:21-69 | Completed lessons stay completed under heartbeats, refunds and re-purchases |
| ProgressRuns.CachedPercentNeverFalls | apps/enrollment-service/src/progress/progress.service.ts:96-114 | With completions that do not overlap, the cached percent never decreases |
| ProgressRuns.CompletionAnnouncedOnce | apps/enrollment-service/src/progress/progress.service.ts:116-124 | With completions that do not overlap, course.completed is published at most once per learner and course, exactly for rows with a completion time |
| ProgressRaces.RecalculateIsItsSteps | apps/enrollment-service/src/progress/progress.service.ts:96-127 | The two reads and the write back to back are the whole recalculation |
| ProgressRaces.CachedPercentIsNeverAhead | apps/enrollment-service/src/progress/progress.service.ts:96-114 | However recalculations overlap, the cached percent never exceeds the true one |
| ProgressRaces.CachedPercentShowsItsRead | apps/enrollment-service/src/progress/progress.service.ts:96-114 | However recalculations overlap, the cached percent is the true one of the moment its summary was read, hence exact if and only if that is still the true one |
| ProgressRaces.CachedPercentIsRounded | apps/enrollment-service/src/progress/progress.service.ts:85-114 | So however recalculations overlap, the column is the rounded percentage of the lessons complete at the moment of that read |
| ProgressRaces.CachedPercentCanLag | apps/enrollment-service/src/progress/progress.service.ts:96-114 | Whenever a lesson raises the true percent, an overtaken recalculation can write the old percent over the new one and leave it there |
| ProgressRaces.CachedPercentRisesInOrder | apps/enrollment-service/src/progress/progress.service.ts:96-114 | The cached percent falls only when a summary is written after one that was read later |
| ProgressRaces.RecalculationRepairs | apps/enrollment-service/src/progress/progress.service.ts:96-114 | One recalculation left alone makes any stale percent exact |
| ProgressRaces.RepeatsAreInFlight | apps/enrollment-service/src/progress/progress.service.ts:99-124 | After a finish, further announcements come only from recalculations that had already read the row unfinished, one each |
| ProgressRaces.OverlapAnnouncesTwiceIff | apps/enrollment-service/src/progress/progress.service.ts:99-124 | Two overlapping recalculations announce twice exactly when one would announce at all |
| PaymentServices.PaymentService.Verify | apps/payment-service/src/payments/payments.service.ts:185-272 | Accepted exactly when the payment ends completed under the given id with a genuine signature, and with a non-empty id it is then announced; a refusal publishes nothing |
| PaymentServices.PaymentService.Refund | apps/payment-service/src/payments/payments.service.ts:274-331 | Succeeds exactly for the user's own completed payment with a non-empty gateway id when the gateway accepts; then that payment is refunded and announced closed and no other row moves; otherwise nothing changes and nothing is published |
| PaymentServices.PaymentService.HandleCaptured | apps/payment-service/src/payments/payments.service.ts:372-398 | A payment not yet completed, refunded ones included, ends completed under the id and announced open unless another holds the id; no other row moves |
| PaymentServices.PaymentService.HandleFailed | apps/payment-service/src/payments/payments.service.ts:400-444 | Exactly a payment that is not completed is marked failed, and the last access event of every payment stands |
| PaymentServices.PaymentService.HandleRefundProcessed | apps/payment-service/src/payments/payments.service.ts:446-472 | Every payment holding the id ends refunded and announced closed; no other row moves |
| Payments.StatusIsLastAnnounced | apps/payment-service/src/payments/payments.service.ts:474-526 | In every run, a completed payment's last published access event opened access, a refunded one's closed it, a pending one has none |
| Payments.SettlingAnnouncesIff | apps/payment-service/src/payments/payments.service.ts:474-486 | Completing a payment leaves it announced if and only if its id is not empty or it was announced before |
| Payments.PaidWithoutEvent | apps/payment-service/src/payments/payments.service.ts:234-245 | A verification with an empty id completes a payment and publishes nothing |
| Payments.PaidIsAnnounced | apps/payment-service/src/payments/payments.service.ts:234-245 | When no verification carries an empty id, every completed payment has been announced last |
| Payments.SecondPaymentStaysPaid | apps/payment-service/src/payments/payments.service.ts:274-331 | Refunding one of two payments for a course publishes a closing event last while the other stays completed |
| Payments.PaidThenForged | apps/payment-service/src/payments/payments.service.ts:204-219 | A forged verification of a completed payment marks it failed with its last access event still opening access |
| Platform.ConsumerSeesPublished | packages/shared/src/event-bus.ts:24-68 | Whatever is duplicated or reordered, the consumer only handles and logs events that were published |
| Platform.AccessIsLastConsumed | apps/enrollment-service/src/enrollments/enrollments.service.ts:180-223 | Without administrators, in every interleaving, access is what the last first-time-consumed event says, or a completion re-opened it |
| Platform.PaymentAndAccessAgree | apps/payment-service/src/payments/payments.service.ts:224-323 | End to end, in every interleaving: once the last event has been heard, a completed payment means access, a refunded or pending one means none, a failed one what its last access event says, and apart from the first exactly unless a completion re-opened it |
| Platform.AccessIsLastPublished | apps/enrollment-service/src/enrollments/enrollments.service.ts:180-223 | Whenever the last event consumed is the last one published, access is what it says, or a completion re-opened it |
| Platform.LastMoverDecides | apps/payment-service/src/payments/payments.service.ts:474-526 | With any number of payments for the course, the one whose event was published last decides: completed it means access, refunded it means none unless re-opened |
| Certificates.VerifyRecognises | apps/certificate-service/src/certificates/certificates.service.ts:117-153 | A text is known exactly when it is a spelling that upper-cases to the serial of a row, with any blanks around it; it is then revoked if the row is, and otherwise valid or a mismatch as the signature covers the other columns or not |
| Certificates.EditIsCaught | apps/certificate-service/src/certificates/certificates.service.ts:137-142 | An unrevoked row whose learner, course, serial or issue time was edited under its old signature is a mismatch for every spelling of its serial |
| Certificates.LowerCaseVerifies | apps/certificate-service/src/certificates/certificates.service.ts:117-153 | A minted serial with any of its letters in lower case and blanks around it verifies |
| Certificates.SpellingsOf | apps/certificate-service/src/certificates/certificates.service.ts:117-120 | The texts that normalise to a serial are exactly those that upper-case to it, with blanks around them |
| Certificates.NewSerialIsProper | apps/certificate-service/src/certificates/certificates.service.ts:249-254 | A minted serial is its own normal form |
| Certificates.SerialsDiffer | apps/certificate-service/src/certificates/certificates.service.ts:249-254 | Two mints give the same serial if and only if the year and the twelve letters drawn are the same |
| CertificateServices.CertificateService.Issue | apps/certificate-service/src/certificates/certificates.service.ts:48-100 | Answers with the learner's certificate exactly when there is one afterwards; mints exactly at 100 percent or more with no row for the learner and course and a free serial, and then one signed, unrevoked row |
| CertificateServices.CertificateService.VerifySerial | apps/certificate-service/src/certificates/certificates.service.ts:117-153 | A text that spells no serial is unknown; one that spells a serial is revoked, a signature mismatch or valid exactly as that row is revoked, unrevoked with another signature, or unrevoked with its own |
| CertificateServices.CertificateService.RevokeSerial | apps/certificate-service/src/certificates/certificates.service.ts:155-161 | The row with the serial, if any, is revoked now and keeps every other column; no other row moves; from then on every spelling of the serial verifies as revoked |
| Platform.CertificatesAreUnique | apps/certificate-service/prisma/schema.prisma:28-59 | As the unique keys promise: under any interleaving, one certificate per learner and course, one serial per certificate |
| Platform.CertificateWasObserved | apps/certificate-service/src/certificates/certificates.service.ts:48-83 | In every run, a certificate exists only if its learner was observed entitled with a cached percent of at least 100 |
| Platform.CertificateMeansCompletion | apps/certificate-service/src/certificates/certificates.service.ts:56-59 | With a fixed lesson count, that amounts to an admission and completed lessons, in the curriculum or not, numbering at least 99.5% of the count |
| Platform.IssuedCertificateVerifies | apps/certificate-service/src/certificates/certificates.service.ts:117-153 | In every run, a text is valid if and only if it is a spelling of the serial of an issued, unrevoked certificate; as printed, in particular |
| Platform.RevokedIffCalledFor | apps/certificate-service/src/certificates/certificates.service.ts:155-161 | In every run a certificate keeps its columns and is revoked exactly from the first call that revokes its serial on |
| Platform.RevokedNeverVerifies | apps/certificate-service/src/certificates/certificates.service.ts:117-161 | After any further steps, every spelling of an issued serial verifies as revoked if the certificate was revoked or its revocation is among the steps, and otherwise as valid |
| Reorder.ReorderIsOneAssignment | apps/course-service/src/courses/courses.service.ts:396-404 | For any id list, the transaction commits if and only if every id exists and no row outside the list holds a wanted order, and is then one simultaneous assignment |
| Reorder.EveryWriteKeepsUnique | apps/course-service/prisma/schema.prisma:128-160 | As the unique key demands: it holds after every single write of both phases, so neither relies on a deferred check |
| Reorder.ReorderKeepsTable | apps/course-service/src/courses/courses.service.ts:451-459 | A committed reorder leaves unique, non-negative orders |
| Reorder.NextOrder | apps/course-service/src/courses/courses.service.ts:504-520 | The allocated order is above every order of the parent, deleted rows included, and adjacent to the highest |
| Slugs.UniqueSlug | apps/course-service/src/courses/courses.service.ts:522-542 | The probe stops within one look-up more than there are slugs, at the first free one of base, base-2, base-3 and so on |
| Slugs.CandidatesDiffer | apps/course-service/src/courses/courses.service.ts:522-530 | Different probe numbers try different slugs |
| Slugs.FirstFreeIsUnique | apps/course-service/src/courses/courses.service.ts:522-542 | The allocation is determined by the taken slugs |
| Catalog.RunKeepsConsistent | apps/course-service/src/courses/courses.service.ts:372-502 | In every run of whole calls, orders and slugs are unique, references hold and the cached counters are exact |
| CatalogRaces.RunKeepsKeys | apps/course-service/src/courses/courses.service.ts:372-502 | However edits and counter refreshes overlap, orders and slugs stay unique and references hold |
| CatalogRaces.CountersShowTheirRead | apps/course-service/src/courses/courses.service.ts:489-502 | However edits and refreshes overlap, a course's counters are those of its lessons at the moment the stored sums were read, hence exact if and only if those sums still are |
| CatalogRaces.CountersCanLag | apps/course-service/src/courses/courses.service.ts:489-502 | Adding any lesson can leave the count one short, with nothing left under way |
| CatalogRaces.RefreshRepairs | apps/course-service/src/courses/courses.service.ts:489-502 | One refresh left alone makes any counters exact |
| CatalogRaces.LessonCallIsItsSteps | apps/course-service/src/courses/courses.service.ts:411-449 | Edit, sums and store back to back are the whole call |
| Catalog.DefaultAddLessonSucceeds | apps/course-service/src/courses/courses.service.ts:411-434 | With allocated order and slug, adding a lesson to an existing module never fails and comes after every other |
| Catalog.TotalSecondsOf | apps/course-service/src/courses/courses.service.ts:489-499 | A live lesson adds its own duration to the total of its course, and nothing to any other; a removed one adds nothing |
| Curriculum.CurriculumIsItsBlocks | apps/course-service/src/courses/courses.service.ts:144-151 | The curriculum is the concatenation, in module order, of each module's live lessons in lesson order |
| Curriculum.ReorderModulesMovesBlocks | apps/course-service/src/courses/courses.service.ts:396-409 | Reordering modules permutes whole blocks: the same modules, none lost or repeated, and the listed ones in list order |
| Curriculum.ReorderLessonsStaysInside | apps/course-service/src/courses/courses.service.ts:451-464 | Reordering lessons permutes inside blocks and leaves unlisted blocks alone |
| Curriculum.RemovedLessonIsGone | apps/course-service/src/courses/courses.service.ts:442-449 | A removed lesson is gone from the curriculum, every other lesson keeps its place, and no other course's curriculum changes |
| Curriculum.CountersDescribeCurriculum | apps/course-service/src/courses/courses.service.ts:489-502 | In every state that whole calls reach, the lesson count is the curriculum's length and the minutes are the sum of its lessons' durations, rounded to the nearest minute with halves up |
| Sorting.ListingIsUnique | apps/course-service/src/courses/courses.service.ts:144-151 | A strict order leaves the query only one possible result |
| CatalogServices.CatalogService.ReorderModuleRows | apps/course-service/src/courses/courses.service.ts:396-404 | The two write loops, with rollback, give the simultaneous assignment or change nothing |
| CatalogServices.CatalogService.ReorderLessonRows | apps/course-service/src/courses/courses.service.ts:451-459 | The same for lessons |
| CatalogServices.CatalogService.AddModuleRow | apps/course-service/src/courses/courses.service.ts:372-378 | Fails exactly on a missing course or a taken order; otherwise appends one row, at the given order or above all of its course |
| CatalogServices.CatalogService.UpdateModuleRow | apps/course-service/src/courses/courses.service.ts:380-382 | Fails exactly on a missing module or an order another module of the course has; otherwise only that row moves, to the given order in its own course |
| CatalogServices.CatalogService.RemoveModuleRow | apps/course-service/src/courses/courses.service.ts:384-390 | Exactly that row is marked deleted, and every row keeps its order |
| CatalogServices.CatalogService.AddLessonRow | apps/course-service/src/courses/courses.service.ts:411-434 | Fails exactly on a missing module or a taken order; otherwise appends one row with the given duration, the given order or the next above all of its module, and the first slug free in the course; only that course's counters are new, and describe its live lessons |
| CatalogServices.CatalogService.UpdateLessonRow | apps/course-service/src/courses/courses.service.ts:436-440 | Fails exactly on a missing lesson or an order another lesson of the module has; otherwise only that row changes, to the given order and duration, and the counters of its course describe the lessons again |
| CatalogServices.CatalogService.RemoveLessonRow | apps/course-service/src/courses/courses.service.ts:442-449 | Exactly that row is marked deleted, and the counters of its course describe the lessons that are left |
| LabServices.LabService.StartSession | apps/lab-service/src/labs/labs.service.ts:50-131 | A row exactly when entitled, with an active template and fewer live sessions than the quota; it carries the template's lifetime and idle limit, running if provisioned and failed if not; a ticket exactly in the first case, and it can be redeemed at once |
| LabServices.LabService.RedeemTicket | apps/lab-service/src/labs/labs.service.ts:137-156 | Each answer is characterised on columns: attaching takes a running, unexpired session with an unused ticket, and from then on every presentation at any time is refused as used; a refusal changes nothing |
| LabServices.LabService.TouchSession | apps/lab-service/src/labs/labs.service.ts:158-169 | Only that row's last activity changes: the session is idle again only after a full idle limit from now; lifetimes and live sessions stand |
| LabServices.LabService.StopSession | apps/lab-service/src/labs/labs.service.ts:171-195 | Success is exactly ownership plus a destroyed container or an already ended row; the row ends expired or ended with its end time, or is left stopping when the container will not die; no other row moves |
| LabServices.LabService.ReapExpired | apps/lab-service/src/labs/labs.service.ts:228-250 | A row stands if it is no candidate or is within its lifetime and idle limit; a due candidate ends expired when past its lifetime and otherwise ended, or is left stopping when its container will not die; in any order that is the same as ending all due ones at once |
| Labs.NeverLiveAgain | apps/lab-service/src/labs/labs.service.ts:171-195 | A session that left the live statuses is never live again, and a used ticket stays used |
| Labs.TicketHonouredOnce | apps/lab-service/src/labs/labs.service.ts:137-156 | In any run a ticket is honoured at most once, running and within its lifetime |
| TicketRaces.HonouredAtMostOverlap | apps/lab-service/src/labs/labs.service.ts:137-156 | With redemptions split at their read and update, a ticket is honoured no more often than redemptions of it were under way together |
| TicketRaces.HonouredOnceIffNoOverlap | apps/lab-service/src/labs/labs.service.ts:137-156 | That many redemptions do happen, so a ticket is honoured once in every run if and only if redemptions of it do not overlap |
| TicketRaces.RedeemIsItsSteps | apps/lab-service/src/labs/labs.service.ts:137-156 | Read and update back to back are the whole redemption |
| Labs.QuotaHolds | apps/lab-service/src/labs/labs.service.ts:63-75 | In any run no user has more live sessions than the quota |
| LabRaces.OverlapQuota | apps/lab-service/src/labs/labs.service.ts:63-112 | With starts split at their count, insert and provisioning, and at most k of a user in flight together, the live sessions never exceed the quota by more than k - 1 |
| LabRaces.OverlapQuotaIsMet | apps/lab-service/src/labs/labs.service.ts:63-112 | For every quota and every k there is a run with at most k starts in flight that ends exactly k - 1 above the quota |
| LabRaces.QuotaSurvivesIffNoOverlap | apps/lab-service/src/labs/labs.service.ts:63-112 | The quota holds in every run if and only if no two starts of the user overlap |
| LabRaces.LivesAgainIffStarting | apps/lab-service/src/labs/labs.service.ts:100-121 | In every state of every run, a session that is not live can live again if and only if its own start is still in flight |
| LabRaces.StartIsItsSteps | apps/lab-service/src/labs/labs.service.ts:50-131 | Count, insert and provisioning back to back are the whole start |
| Labs.RowsTellTheRun | apps/lab-service/src/labs/labs.service.ts:82-121 | Lifetime, idle limit and last activity of a row are those of its start and its last activity in the run |
| Labs.LivesUntilStoppedOrDue | apps/lab-service/src/labs/labs.service.ts:171-250 | In any run a live session stays live if and only if it is neither stopped by a permitted call nor found by a sweep past its lifetime since its start or its idle limit since its last activity |
| Labs.SweptInTime | apps/lab-service/src/labs/labs.service.ts:228-250 | With timely sweeps and at most 100 live sessions, none is live more than a period past its lifetime or its idle limit |
| Labs.SweepSeesAllIff | apps/lab-service/src/labs/labs.service.ts:230-238 | A sweep is sure to see a given live session if and only if at most 100 are live |

## Left out

- AuthLockout.LockoutBound: counts logins that do not overlap; `LoginRaces.OverlapBound` is the bound for those that do.
- AuthServices.AuthService.Login: one atomic step of the object, for the same reason.
- AuthServices.AuthService.ResetPassword: starts once the mailed link was accepted; the link table, e-mail verification and mail are not part of this model.
- PaymentServices.PaymentService.Verify: each payment call is atomic; calls overlapping between the update and the publish, and a crash between them, are not modelled (published events are taken to arrive eventually).
- Labs.QuotaHolds: takes a start as one step; `LabRaces.OverlapQuota` says what overlapping starts do.
- Labs.NeverLiveAgain: takes a start as one step; `LabRaces.LivesAgainIffStarting` gives the one exception.
- Labs.LivesUntilStoppedOrDue: takes a start as one step, for the same reason.
- LabServices.LabService.StartSession: one atomic step of the object, for the same reason.
- Labs.TicketHonouredOnce: takes a redemption as one step; `TicketRaces.HonouredOnceIffNoOverlap` says what overlap does.
- LabServices.LabService.RedeemTicket: one atomic step of the object, for the same reason.
- Catalog.RunKeepsConsistent: takes each call with its counter refresh as one step; `CatalogRaces.RunKeepsKeys` and `CatalogRaces.CountersShowTheirRead` are the statements for overlapping ones.
- Curriculum.CountersDescribeCurriculum: holds where whole calls lead, for the same reason.
- ProgressRuns.CompletionAnnouncedOnce: takes marking and recalculating as one step; `ProgressRaces.RepeatsAreInFlight` and `ProgressRaces.OverlapAnnouncesTwiceIff` say what overlap does.
- ProgressRuns.CachedPercentIsExact: takes marking and recalculating as one step and a fixed lesson count; `ProgressRaces.CachedPercentShowsItsRead` is the statement for overlapping ones.
- ProgressRuns.CachedPercentNeverFalls: takes marking and recalculating as one step; `ProgressRaces.CachedPercentRisesInOrder` is the statement for overlapping ones.
- Enrollments.FinishLine: rounding is of the exact rational; the source divides before multiplying by 100 in binary floating point.
- CatalogServices.CatalogService.AddLessonRow: the slug base is given; transliteration and truncation of titles are not modelled, nor are catalog calls overlapping between an allocation and its insert.
- A request that fails half-way through completing a lesson is not modelled in `EnrollmentRuns`; `ProgressRaces` allows a lesson to be marked without a recalculation after it.
- Every lesson id is used with its own course; the source does not check this, so a lesson key carries its course here.
- The database's own time and transaction isolation: transactions are serial, unique keys are checked on every write.
- Audit rows, login-attempt rows, last-used times, byte counters, enrollment-count bumps and coupon redemption: nothing modelled depends on them.
- Order pricing and discounts: a few arithmetic lines; payment-service and course-service name the discount kinds differently, so the composed path has no useful theorem.
- Controllers, validators, guards, the gateway, mail, HTML rendering, catalog search, container drivers, the terminal bridge and orphan sweeping: routing and foreign calls.
- bcrypt, JWT signatures, SHA-256 and HMAC: opaque or injective; no cryptographic claim.
- Infrastructure, seeds and browser or load tests.
