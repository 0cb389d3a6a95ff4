# Verification of the news board

A Dafny model of the news-board service: the poll state machine and its local database, the transactional
notification outbox in the CRM database, and the `x-user-orgs` header parser. `dafny verify dfyconfig.toml` checks
the whole project.

## What is modelled

**The board.** `LocalTables` holds the post, option and vote tables with identity counters that are never rolled
back, the community-scoped queries, and the schema's cascades. `NewsBoard` gives every request as a function
(`Step`) from a database, a request context and a fault to the next database and the answer; `Run` chains steps.
On that machine the project proves

* a relational invariant over every run (`BoardInvariant`), which is what makes the community-scoped
  "options frozen" guard, the scoped vote swap and the unscoped cascades sound;
* that votes keep their meaning and are final after the deadline (`BoardHistory`);
* that the vote table implements a plain map from (post, voter) to a set of options, and that the three separate
  `has_voted` computations agree with it (`Ballots`);
* that communities cannot observe or touch each other, as two-run theorems (`Isolation`);
* that results add up, and what a withheld or aggregate answer cannot depend on (`Results`);
* that what was written is what is read back (`ReadBack`);
* that the announced pages partition the board (`Paging`);
* when each request is accepted or refused, what else it leaves alone, and what every field of an answer says, spelled
  out on the tables (`Answers`, `AnsweredReads`).

`LocalSessions`, `CrmSessions`, `Tallying`, `News` and `NewsRoutes` model the code in its own imperative form: sessions
with a working copy over committed rows, repositories, `NewsService`, and one request from arrival to answer. Any
database call may fail, nondeterministically. `NewsRoutes.Handle` is proved to perform exactly one `Step`, so every
theorem about runs of steps is a theorem about the modelled service.

**The outbox.** `Delivery` gives one publish as a function of the staged rows, the directory and the set of failing
calls, `DeliveryExact` spells out whom it reaches and what it writes, and `DeliveryRuns` interleaves publishes, audit
entries, commits and flushes. `Notifications` is the service and
its repository, statement by statement, on a CRM session with a savepoint, proved equal to that function under every
placement of faults. `DedupeKey` and `CanonicalJson` are the idempotency key and the payload text that feeds it;
`JsonGrammar` shows that text to be in the grammar of sections 3 to 7 of RFC 8259 and to say what the payload means; `Channels` names the realtime
channels.

**The header.** `GatewayAuth` models the regular expression as an explicit scanner, proves it sound and complete
for the pattern with the match a backtracking engine prefers, at the leftmost position, and proves a print/parse
round trip.

`Witnesses` holds one concrete input for each promise of the documentation that the code does not keep, and two texts
read and written.

## Where the code and its documentation differ

The model follows the code.

* `publish` is documented as never aborting the caller's work. A read that fails before the savepoint, the opening of
  the savepoint, or a failed rollback to it, leaves the CRM transaction aborted, and the caller's later commit then
  loses everything it staged. Exactly when: `DeliveryRuns.CallerLosesWorkIff`; an input:
  `Witnesses.FailedLookupLosesAudit`.
* The docstring gives 175 as the longest dedupe key. That holds for account keys; an address key reaches 181. Both fit
  the column (`DedupeKey.DerivedKeyLength`, `Witnesses.AddressKeyIsLonger`).
* A caller-supplied dedupe key is the same for every recipient, so a whole audience shares one queued row
  (`Delivery.OverriddenPublishQueuesOne`). Exactly when every candidate is queued: `Delivery.PublishQueuesAllIff`; an
  input where they are not: `Witnesses.OverrideDropsRecipient`.
* Hints are flushed even when the commit before them was lost (`DeliveryRuns.HintedRowsDurableIff`,
  `Witnesses.HintWithoutRow`).
* An update may move a poll's deadline either way, so a closed poll can be reopened
  (`BoardHistory.LateAfterUpdateIff`, `Witnesses.ReopenedPollChangesVotes`).
* An update whose read-back fails after its commit answers with an error although the rows have changed; it is the
  only request of which that is true (`BoardHistory.FailedMovesIff`, `Witnesses.FailedUpdateMovesRows`).

## Model

| member | source | states |
|---|---|---|
| `BoardInvariant.ScopedCountIsTrueCount` | api/news/repository.py:71-76 | the community-scoped vote count of a visible post is the count over all communities |
| `BoardInvariant.InvImpliesConstraints` | scripts/sql/schema.sql:76-112 | the invariant covers every foreign key and the (option, voter) uniqueness constraint |
| `BoardInvariant.CreateKeeps` | api/news/service.py:67-107 | creating a post or poll keeps ids, communities, polls' options, expiry and matrix related as the invariant says |
| `BoardInvariant.UpdateKeeps` | api/news/service.py:149-178 | so does an update, including one that replaces options or moves the expiry |
| `BoardInvariant.DropOptionsKeeps` | api/news/service.py:374-385 | when the frozen guard lets a replacement through, the cascade from the old options removes no vote and touches no other post |
| `BoardInvariant.DeleteKeeps` | api/news/service.py:180-195 | so does a delete, whose cascade follows only the post id |
| `BoardInvariant.AddVotesUnique` | shared/models/local_models.py:122-124 | inserting a validated selection violates neither the uniqueness constraint nor the one-row rule of single-choice polls |
| `BoardInvariant.CastKeeps` | api/news/service.py:199-235 | so does the vote swap, which deletes only rows of the caller's community |
| `BoardInvariant.StepKeeps` | api/news/service.py:67-259 | one request of any kind, by anyone, with any fault, keeps the invariant |
| `BoardInvariant.RunKeeps` | api/news/service.py:67-259 | the invariant over whole runs |
| `BoardInvariant.ReachableInv` | scripts/sql/schema.sql:38-112 | every database reachable from the empty one satisfies it |
| `BoardHistory.GoneVotesStayGone` | scripts/sql/schema.sql:101-102 | a vote id that is gone never names another vote later |
| `BoardHistory.UpdateSparesVotes` | api/news/service.py:374-385 | no update changes any vote, and options it removes or changes belong to the updated post and no vote at all names that post |
| `BoardHistory.OptionsVanishSafely` | api/news/service.py:374-385 | an option vanishes only with its post or while its poll has no vote of any community |
| `BoardHistory.VotesKeepTheirMeaning` | api/news/service.py:374-385 | over any run, a surviving vote is unchanged and its option keeps its post, text and place |
| `BoardHistory.VotesFinalAfterDeadline` | api/news/service.py:206-207 | over any run of late requests that does not move the deadline, refused and foreign deletes and edits among them, a poll's vote set changes if and only if it had votes and the post is gone |
| `BoardHistory.LateVotesChangeIff` | api/news/service.py:180-259 | a single late request changes the vote set if and only if it is a delete by the poll's own community that reaches its commit, and there are votes |
| `BoardHistory.DeadlineHoldsIff` | api/news/service.py:149-187 | a poll keeps its deadline through a request unless that is such a delete or an accepted update naming another deadline |
| `BoardHistory.UpdateRefusedIff` | api/news/service.py:149-167 | an update is refused exactly when the post is not visible, or a poll's new options are fewer than two or come after a vote |
| `BoardHistory.FailedMovesIff` | api/news/service.py:169-178 | a request answered with a failure has changed a committed row if and only if it is an update that is not refused, has something to change, and lost its read-back |
| `Answers.CastAnswered` | api/news/service.py:199-210 | a cast is accepted if and only if the post is the caller's community's, is a poll, is before its deadline, the caller is known, every id names one of its options, and a single-choice poll gets exactly one; each refusal has its own exact cause |
| `Answers.RetractAnswered` | api/news/service.py:237-246 | the same for a retraction, which has no selection |
| `Answers.CreateAnswered` | api/news/service.py:343-358 | a create is accepted if and only if caller and community are known and a poll comes with two options, a full matrix and a deadline after now |
| `Answers.EveryPollWasOpen` | api/news/service.py:355-357 | every post of a reachable board was created by one request of the run, and every poll's deadline was then after its creation time |
| `Answers.UpdateAnswered` | api/news/service.py:149-167 | each refusal of an update has its exact cause, and frozen options mean that somebody, in any community, has a vote |
| `Answers.DeleteAnswered` | api/news/service.py:180-187 | a delete is accepted exactly for a post of the caller's community, and the post is gone |
| `Answers.OnlyItsPost` | api/news/service.py:67-259 | a request changes no row, option or vote of any post but the one it names or creates |
| `Answers.VotingSparesBoard` | api/news/service.py:199-259 | voting changes no post and no option |
| `AnsweredReads.DetailAnswered` | api/news/mappers.py:40-71 | the detail shows the post's own row, exactly its options, the caller's own ballot, and whether it is over |
| `AnsweredReads.ListAnswered` | api/news/service.py:118-133 | a listing is refused only for a negative window; every line shows its post's row, `has_voted` from the map, whether it is over, and the number of its options |
| `AnsweredReads.AnsweredPagesPartitionBoard` | api/news/service.py:109-133 | the ids shown on the announced pages, one page after another, are the community's posts, each once, by falling creation time and then falling id |
| `AnsweredReads.ResultsAnswered` | api/news/service.py:263-314 | the whole results answer: who is refused, who sees nothing, counts or names, by role, matrix, ballot and clock; one tally per option with its text, its number of vote rows in all communities, its voters and their emails; and the number of distinct voters |
| `AnsweredReads.ShownCountsAddUp` | api/news/service.py:290-313 | the shown counts add up to the poll's vote rows, lie between the shown voters and voters times options, and equal the voters on a single-choice poll |
| `BoardHistory.LateAfterUpdateIff` | api/news/service.py:158-159 | after any update by anyone, options replaced or not, refused or not, voting is refused as too late if and only if the post is a poll the voter sees and the deadline left behind has passed |
| `Ballots.CastBallots` | api/news/service.py:199-227 | an accepted cast sets the voter's ballot to exactly the selected set and changes no other ballot |
| `Ballots.DroppedBallots` | api/news/service.py:246-250 | retracting empties exactly that voter's ballot on that post |
| `Ballots.DeletedBallots` | api/news/service.py:180-187 | deleting a post forgets its ballots and no other, cascades included |
| `Ballots.VoteTableRefinesBox` | api/news/service.py:199-259 | every request moves the vote table as the plain map moves, whatever the fault |
| `Ballots.RunRefinesBox` | api/news/service.py:199-259 | replaying the answered requests of a run on the map gives the vote table |
| `Ballots.HasVotedAgrees` | api/news/service.py:399-405 | list, detail and results compute the same `has_voted`, and it is membership in the map |
| `ReadBack.CreateReadsBack` | api/news/service.py:67-107 | a created post reads back with everything its request asked for, the author's email snapshot, fresh options in order, and nobody's vote |
| `ReadBack.UpdateReadsBack` | api/news/service.py:149-178 | an accepted update shows the requested fields over the old ones, and requested options replace the old ones whole under unused ids |
| `ReadBack.CastReadsBack` | api/news/service.py:199-235 | after an accepted cast the voter reads back exactly the selection and counts as having voted unless it is empty |
| `ReadBack.GonePostsStayGone` | api/news/service.py:135-138 | a post id that is gone answers "not found" after any further run |
| `ReadBack.DeletedForGood` | api/news/service.py:180-187 | a deleted post can never be read again |
| `Isolation.StepOnSlice` | core/database/with_community.py:23-29 | serving a community's request commutes with forgetting every other community |
| `Isolation.CommunityCannotTellApart` | core/database/with_community.py:23-29 | two databases that agree on one community and the counters answer any run of its requests alike and still agree |
| `Isolation.StepSparesOthers` | core/database/with_community.py:23-29 | one request changes no row of another community, even through cascades keyed on ids alone |
| `Isolation.OthersAreUntouched` | core/database/with_community.py:23-29 | nor does any run of requests from elsewhere |
| `Results.TalliesAddUp` | api/news/service.py:281-313 | per-option counts sum to the poll's vote rows, lie between the voters and voters times options, and equal the voters on a single-choice poll |
| `Results.CountAtMostVoters` | api/news/service.py:284-302 | no option counts more than the distinct voters |
| `Results.WithheldHidesVotes` | api/news/service.py:278-279 | a withheld answer is the same for any two vote tables that agree on the requester's own `has_voted` |
| `Results.AggregateHidesVoters` | api/news/service.py:290-314 | an aggregate answer depends on votes only through the counts and the number of voters |
| `Results.IdentitiesShownIff` | api/news/service.py:291-297 | voters are named exactly to those the poll's settings grant full results at that moment |
| `Results.MatrixAlwaysSet` | api/news/service.py:412-432 | on every reachable board each poll has a deadline and a full matrix, so the fallbacks for unset columns are never taken |
| `Paging.PageCountCovers` | api/news/service.py:127-132 | the announced page count is the least that holds every post |
| `Paging.PagesPartitionBoard` | api/news/repository.py:44-57 | the announced pages, end to end, list every visible post once, newest first |
| `LocalSessions.OrderByDisplay` | shared/models/local_models.py:52-59 | options come back each once, by display order, ties in any order |
| `LocalSessions.NewsRepository.AddVotes` | api/news/repository.py:86-88 | an insert fails only on a lost call or a constraint violation |
| `LocalSessions.NewsRepository.DeleteVotes` | api/news/repository.py:90-93 | the deleting loop removes exactly the given rows |
| `LocalSessions.NewsRepository.GetVotesForPost` | api/news/repository.py:95-102 | one pair per vote in scope, in any order |
| `LocalSessions.NewsRepository.ListPosts` | api/news/repository.py:44-57 | one page newest first and the scoped total, refused for a negative offset or limit |
| `Tallying.GroupByOption` | api/news/service.py:281-283 | the grouping loop collects, per option, exactly the voters of its rows |
| `Tallying.GroupingCounts` | api/news/service.py:281-304 | each group has as many entries as the option has vote rows, and the same voters |
| `Paging.CeilingTwoWays` | api/news/service.py:131 | flooring the negated quotient rounds the page count up |
| `News.SwapNeverCollides` | api/news/service.py:212-226 | delete, flush, insert never violates a declared constraint |
| `News.AnnouncementExact` | api/news/service.py:454-475 | a new post is announced in the app to exactly the members who are not the author and whose preference rows for its kind of news do not say off, with one row each naming the post, and emailed to nobody |
| `News.AcceptedCreateReaches` | api/news/service.py:92-107 | when no call is lost, an accepted create leaves one audit entry and one notification for exactly the members to be told, and sends one hint to all of them |
| `News.NewsService.CreatePost` | api/news/service.py:67-107 | one step of the board; only a lost local call or email lookup before the commit can fail it, and nothing in the CRM after the commit can |
| `News.NewsService.SavePost` | api/news/service.py:74-92 | the post, its options and the commit land as one, or no committed row changes |
| `News.NewsService.UpdatePost` | api/news/service.py:149-178 | one step; a refusal leaves no committed trace even after fields were edited |
| `News.NewsService.EditFields` | api/news/service.py:154-165 | the field-by-field edits give the overlay of the request on the post |
| `News.NewsService.ReplaceOptions` | api/news/service.py:374-385 | each refusal has its own cause, and a replacement happens only with no vote in scope |
| `News.NewsService.DeletePost` | api/news/service.py:180-195 | one step, audited exactly when it was accepted |
| `News.NewsService.SwapVotes` | api/news/service.py:214-227 | the swap commits whole or leaves the committed ballots alone |
| `News.NewsService.CastVote` | api/news/service.py:199-235 | one step, audited exactly when it was accepted; with an answering database no insert is ever refused |
| `News.NewsService.RetractVote` | api/news/service.py:237-259 | one step, audited exactly when there was something to retract |
| `News.NewsService.GetPost` | api/news/service.py:135-147 | one step, with the options listed in display order |
| `News.NewsService.ListPosts` | api/news/service.py:109-133 | one step, with the voted posts computed from one query |
| `News.NewsService.VoterSelection` | api/news/service.py:399-405 | the requester's own option ids, none for an anonymous caller or a plain post |
| `News.NewsService.GetResults` | api/news/service.py:263-314 | one step, with one tally per option in display order |
| `News.NewsService.ShowResults` | api/news/service.py:281-314 | the two loops give the specified tallies and voter total |
| `News.NewsService.RecordAudit` | api/news/service.py:442-452 | an audit entry and a commit, whose failures never reach the caller or the local rows |
| `News.NewsService.NotifyPostCreated` | api/news/service.py:454-484 | publish, commit, flush, with no hint left waiting whatever failed |
| `NewsRoutes.Handle` | api/news/routes.py:42-149 | a whole request is one step of the board from a reachable state to a reachable state; committed rows and hints in the CRM are those of the acts its answer calls for; only an update may fail with rows changed |
| `NewsRoutes.HandleCreate` | api/news/routes.py:42-56 | the same end-to-end effect of an accepted create, on the sessions themselves |
| `CrmSessions.CrmRepository.GetEmailsByAuthIds` | shared/crm_repository.py:13-27 | the map gives the directory's email of every non-empty id asked for, and nothing for the others |
| `CrmSessions.AuditLogService.Log` | core/audit_log/service.py:29-82 | one entry is staged or the staged rows are as before |
| `Delivery.AudienceIsDistinct` | core/notifications/service.py:209-231 | nobody is addressed twice and the excluded author not at all |
| `Delivery.ThroughElements` | core/notifications/service.py:122-123 | a channel's recipients are exactly those for whom it is effective |
| `Delivery.InAppExact` | core/notifications/service.py:129-137 | in-app rows go to exactly the recipients with INAPP effective, one each, with consecutive ids |
| `Delivery.EmailExact` | core/notifications/service.py:264-332 | queued candidates are exactly the EMAIL recipients with a usable address, each linked to their own new row or to none |
| `DeliveryExact.AudienceExact` | core/notifications/repository.py:50-71 | who is in an audience: the named users, or the members with a wanted role without the named author |
| `DeliveryExact.DedupeKeepsOrder` | core/notifications/service.py:214-217 | an explicit list of users keeps the order of first mention |
| `DeliveryExact.ChannelsExact` | core/notifications/service.py:252-262 | a recipient is reached on a channel if and only if it was requested and, unless TRANSACTIONAL, the preference rows do not switch it off |
| `DeliveryExact.SpecificRowWins` | core/notifications/repository.py:112-116 | a row for the type's prefix alone decides, whatever the default row says |
| `DeliveryExact.DefaultRowDecides` | core/notifications/repository.py:87-93 | without one the default row decides, and without either the recipient is told |
| `DeliveryExact.RowExact` | core/notifications/service.py:129-137 | each in-app row, field by field |
| `DeliveryExact.MessagesExact` | core/notifications/service.py:293-331 | the messages to queue are exactly those that say, field by field, what the directory, the publication and the recipient's own row require, key text included |
| `DeliveryExact.KeyExact` | core/notifications/dedupe.py:67-78 | the text of every dedupe key, part by part |
| `DeliveryExact.InsertedExact` | core/notifications/repository.py:146-155 | a message is in the table afterwards if and only if it was, or is the first candidate of a key not used before |
| `DeliveryExact.AllOrNothing` | core/notifications/service.py:98-175 | all rows, all messages and the hint if there is somebody to tell and none of the calls needed fails, and otherwise nothing and a count of zero |
| `Delivery.PublishQueuesAllIff` | core/notifications/service.py:264-332 | a publish that lands queues all its candidates if and only if no key was used before and the keys are derived or there is at most one candidate |
| `Delivery.DerivedCandidatesDistinct` | core/notifications/dedupe.py:35-78 | derived keys of one publish never collide |
| `Delivery.OverriddenPublishQueuesOne` | core/notifications/dedupe.py:67-68 | a publish that lands under an override queues one row for its whole audience, or none if the key was used |
| `Delivery.InsertKeepsDistinct` | core/notifications/repository.py:146-155 | conflict skipping never leaves two rows with one key |
| `Delivery.InsertNothing` | core/notifications/repository.py:146-155 | rows whose keys exist change nothing |
| `Delivery.InsertsAllIff` | core/notifications/repository.py:146-155 | every row is inserted if and only if no key was used before and no two rows share one |
| `DeliveryRuns.RunKeepsOutbound` | core/notifications/repository.py:146-155 | no run holds two rows with one key or takes back a committed one |
| `DeliveryRuns.RepublishingIsIdempotent` | core/notifications/dedupe.py:54-62 | once landed and committed, the same publish to the same audience never changes the outbound table again |
| `DeliveryRuns.CallerLosesWorkIff` | core/notifications/service.py:98-175 | a publish never takes staged rows back, and the caller's commit then keeps nothing exactly when a call outside the savepoint failed, or one inside and the rollback with it |
| `DeliveryRuns.HintsAreConserved` | core/notifications/service.py:159-207 | hints sent and waiting equal, as a multiset, the in-app rows of the publishes that succeeded |
| `DeliveryRuns.AuditAllOrNothing` | core/audit_log/service.py:46-82 | an audit entry is staged or nothing is, it is staged when no call fails, and nothing else of the transaction is touched |
| `DeliveryRuns.HintedRowsDurableIff` | api/news/service.py:476-484 | every hinted row is durable if and only if the commit was answered or there was none |
| `Notifications.NotificationRepository.ResolveInternalUserId` | core/notifications/repository.py:44-48 | the one user with that auth id, or none |
| `Notifications.NotificationRepository.FindCommunityRecipientIds` | core/notifications/repository.py:50-71 | each matching member once, in any order |
| `Notifications.NotificationRepository.FindPreferences` | core/notifications/repository.py:84-117 | the fold over rows in any order keeps every specific row, else the default row, else nothing, and says 3 exactly for what the rows switch off |
| `Notifications.NotificationRepository.FindRecipientContacts` | core/notifications/repository.py:119-144 | one contact per known user |
| `Notifications.NotificationRepository.InsertMany` | core/notifications/repository.py:73-82 | all rows with fresh ids or none |
| `Notifications.NotificationRepository.InsertMessages` | core/notifications/repository.py:146-155 | the statement inserts exactly the rows with new keys |
| `Notifications.NotificationService.ResolveAudience` | core/notifications/service.py:209-231 | the audience of the target, or a failure that aborts the transaction |
| `Notifications.NotificationService.EffectiveChannels` | core/notifications/service.py:233-262 | the updating loop leaves each recipient the requested channels minus those resolved OFF, and all of them for TRANSACTIONAL |
| `Notifications.NotificationService.EnqueueEmail` | core/notifications/service.py:264-332 | the row loop queues exactly the specified candidates |
| `Notifications.NotificationService.Publish` | core/notifications/service.py:65-175 | whatever fails, rows and hint land together or not at all and the count says which |
| `Notifications.NotificationService.FlushRealtime` | core/notifications/service.py:177-207 | staged hints go out once, oldest first, and none is left |
| `Channels.HintChannels` | core/realtime/channels.py:63-70 | a hint reaches one distinct channel per user and no community channel |
| `Channels.UserChannelInjective` | core/realtime/channels.py:43-45 | different users have different channels |
| `Channels.CommunityChannelInjective` | core/realtime/channels.py:48-50 | different communities or tiers have different channels |
| `Channels.FamiliesDisjoint` | core/realtime/channels.py:43-50 | no user channel is a community channel |
| `Channels.ChannelTexts` | core/realtime/channels.py:31-50 | the channel names, letter for letter |
| `CanonicalJson.CanonicalIffSameMeaning` | core/notifications/dedupe.py:20-32 | two payloads have the same text if and only if they mean the same, key order ignored at every depth |
| `CanonicalJson.NormaliseKeeps` | core/notifications/dedupe.py:32 | sorting keys keeps the meaning |
| `CanonicalJson.RenderPrefix` | core/notifications/dedupe.py:32 | the compact text of a sorted value can be read back from its front |
| `JsonGrammar.CanonicalIsJson` | core/notifications/dedupe.py:32 | the canonical text of any payload is one value of the RFC 8259 grammar, escapes and numbers included |
| `JsonGrammar.CanonicalSpells` | core/notifications/dedupe.py:32 | read as JSON, every escape undone, the canonical text is the payload with its keys in order |
| `JsonGrammar.LessExact` | core/notifications/dedupe.py:32 | that order compares code points, first difference first |
| `DedupeKey.DerivedKeyDecodes` | core/notifications/dedupe.py:69-78 | the four parts of a derived key can be read back, colons in the type included |
| `DedupeKey.DerivedKeyInjective` | core/notifications/dedupe.py:69-78 | equal keys agree on channel, type, recipient namespace and reference, and payload hash |
| `DedupeKey.SendsCollapseIffSameData` | core/notifications/dedupe.py:54-62 | without a digest collision two sends share a key exactly when channel, type, user and the meaning of the data agree |
| `DedupeKey.UserKeysDistinct` | core/notifications/dedupe.py:72-73 | different users never share a derived key |
| `DedupeKey.DerivedKeyLength` | core/notifications/dedupe.py:64-65 | keys fit the column: at most 175 for an account, at most 181 for an address |
| `DedupeKey.OverrideIgnoresRecipient` | core/notifications/dedupe.py:67-68 | two users share the key of a publish if and only if an override is set or they are one user |
| `DedupeKey.TypePrefixOf` | core/notifications/dedupe.py:81-89 | the prefix is the longest beginning of the type without a dot |
| `GatewayAuth.MatchHereSound` | core/security/gateway_auth.py:14 | a reported match is a match of the pattern |
| `GatewayAuth.MatchHerePreferred` | core/security/gateway_auth.py:14 | where the pattern matches, the scanner reports the only possible id and the shortest possible path |
| `GatewayAuth.FindNextLeftmost` | core/security/gateway_auth.py:20 | the search reports exactly the scanner's match at the least position where the pattern matches, and nothing if and only if it matches nowhere |
| `GatewayAuth.ResolveHighestRole` | core/security/gateway_auth.py:30-45 | the loop returns the highest known role, and none exactly when no name is known |
| `GatewayAuth.ParseUserOrgs` | core/security/gateway_auth.py:17-27 | the match loop gives the tokens of the successive matches, dropping those without a known role |
| `GatewayAuth.RoleListOfJoin` | core/security/gateway_auth.py:23 | splitting roles joined by commas or blanks gives them back |
| `GatewayAuth.RoleListOfSpaced` | core/security/gateway_auth.py:23 | splitting gives the role names back whatever runs of commas and white space stand around them |
| `GatewayAuth.PrintExact` | core/security/gateway_auth.py:8-14 | the printed form that is parsed back, letter for letter |
| `GatewayAuth.HighestRoleExact` | core/security/gateway_auth.py:30-45 | which role a list of names gives, by the names in it |
| `GatewayAuth.ParseOfPrint` | core/security/gateway_auth.py:14-27 | parsing the printed form of any list of orgs gives those orgs, in order, with their highest role |
| `GatewayAuth.ActiveRole` | core/middleware/set_auth_context.py:36-41 | the loop with its early exit gives the first matching org's role |
| `GatewayAuth.ActiveRoleOfPrint` | core/middleware/set_auth_context.py:36-41 | the request role is that of the first listed org with the active id and a known role, and none without one |
| `Witnesses.ReopenedPollChangesVotes` | api/news/service.py:158-159 | from the empty board: a poll turns a voter away at its deadline, is moved on, and takes a different vote at the same instant |
| `Witnesses.FailedUpdateMovesRows` | api/news/service.py:178 | an update answered with a failure whose text is committed |
| `Witnesses.FailedLookupLosesAudit` | core/notifications/service.py:99-107 | a failing member lookup after which a staged audit entry can no longer be committed |
| `Witnesses.OverrideDropsRecipient` | core/notifications/dedupe.py:67-68 | two addressees, one queued message under an override, two under derived keys |
| `Witnesses.HintWithoutRow` | api/news/service.py:476-484 | a lost commit, no notification row, and the hint sent |
| `Witnesses.AddressKeyIsLonger` | core/notifications/dedupe.py:64 | a type of 128 characters and an address: a key of 181 |
| `Witnesses.HeaderIsRead` | core/security/gateway_auth.py:17-27 | one header text and the token it is read as |
| `Witnesses.StringText` | core/notifications/dedupe.py:32 | a line break is escaped and an accented letter is not |

## Left out

- Concurrent requests on one poll: requests are serial, each with one reading of the clock; the service takes no row locks.
- The SQLAlchemy identity map: a loaded post is a value written back once, and the working copy is flat.
- News.NewsService.UpdatePost: promises the set of options it answers with, not their order, because replaced options may come back in request order.
- Flushing the caller's pending rows when a savepoint opens: rows are flushed as they are staged.
- Row order where the query names none: repositories return any enumeration, and answers compare options, voters and selections as sets.
- Delivery.InAppExact: consecutive notification ids hold for a single writer; the CRM `notification` table has other writers, whose rows and ids are not modelled.
- Identity gaps inside the notification table after a failed insert: a failed insert draws no id, a rolled-back one keeps what it drew.
- Naive datetimes, integer widths, string length limits, `updated_at` and Pydantic's own validation: inputs are well-typed values, instants are integers.
- A request that fails to parse, feature and role gates of the routes, HTTP status codes, i18n and error envelopes: plumbing; only the route's own check that a creator is known is modelled.
- Markdown rendering and sanitising: the body is an opaque string.
- Redis, emit timeouts and envelopes: emitting appends to a log.
- SHA-256 and `str.lower`: function parameters; the digest is only assumed to be 64 hexadecimal digits, and where collisions matter the two payloads at hand are assumed not to collide.
- Audit payloads and writer identity: an entry is its action code; what matters is that it may fail and is swallowed.
- JSON numbers other than integers, and keys other than strings: payloads hold JSON primitives with integer numbers.
- Account-less recipients as a delivery path: the service always addresses a user id; address keys appear in the key theorems only.
- Tracing, metrics, logging, settings, health checks and request limits: operational glue.
- NewsRoutes.Handle: a commit that reaches the server but whose answer is lost counts as not committed.
