# Exchange, policy, ontology, audit and label models

A Dafny model of the stateful core of a MIM exchange server. Each module follows one component of the program; code that
changes things step by step is a class or a loop proved against a specification, the rest is functions.

- `Journal`, `Broker`, `Persistence`: the exchange broker (insertion-ordered store, soft deletes, numbered journal, applied
  watermark), and its snapshot file.
- `Replication`, `FilteredReplication`: replaying a publisher's journal into a consumer, whole or as one subject may see it,
  in one process or over a network while the publisher keeps writing.
- `Labeling`, `Policy`, `Downgrade`, `Secured`: confidentiality labels, the access and cross-domain decisions, and the broker
  behind them.
- `PropertyGraph`, `Owl`, `Importer`: closure of ontology properties, the two walks over the class graph, and the import.
- `AuditChain`, `AuditLog`, `Worm`, `WormLog`: the hash chain, the log over a file, the file with its manifest under crashes,
  and the log over that file.
- `LabelXml`, `LabelSpellings`, `LabelJson`, `Filter`, `MimUri`, `RestPath`: the STANAG 4774 label codecs, documents by other
  writers, the filter language, element URIs, and identifiers in paths (sections 2.1 and 2.3 of RFC 3986).
- `Wrappers`, `Text`, `Sequences`, `Instance`: shared values.

The ontology and the importer walk their maps and sets in sorted order; the model walks them in any order, so what it proves
holds for the sorted one too. The broker's store is walked in insertion order, as in the program.

## Where the code does not do what one would expect

- Property resolution stops when a round adds no *domain*; a range that same round found is handed to nobody. The outcome
  therefore need not be closed for ranges, neither under `inverseOf` nor under `subPropertyOf`. When it is can be computed from
  the declarations beforehand (`ResolvedClosesInverseExactly`, `ResolvedClosesInheritanceExactly`); `ResolveChain` and
  `ResolveGenerations` resolve declarations for which it is not. Known domains are always handed on (`ResolvedHandsOnDomains`).
- A filtered consumer keeps showing an object that was put again under a label its subject cannot read, in the older form.
  `ShownRightlyExactly` says exactly when that happens, `StaleCopyArises` is a run in which it does.
- A cross-domain policy that forbids downgrading still downgrades: `allow_downgrade` is stored but no decision reads it
  (`AllowDowngradeIsIgnored`, `DowngradesAgainstPolicy`). `DowngradedExactly` is the condition that counts.
- When a manifest-keeping sink writes its line and then cannot replace the manifest, the append is reported as failed and the
  log above does not take the envelope into its chain, so the next record breaks the chain in the file
  (`UnreportedWriteBreaks`). `FileVerifiesExactly` says after which sequences of append outcomes the file still verifies.
- The same sink opened over a file whose last line is not terminated glues its first envelope to that line.
  `ReopenMatchesExactly` says over which files a reopen always yields a manifest that matches the file;
  `UnterminatedFileDisagrees` is a file over which it does not.
- The sink's check is documented as detecting edits in place (`crates/mim-audit/src/worm.rs:77`), but it compares lengths only
  (`EditReportedExactly`, `WipedFilePasses`).
- The XML reader takes attribute values as they stand in the document, without unescaping, so a category tag name or policy
  OID with a markup character does not come back (`LabelRoundTripsExactly`, `MarkupIsLost`). An alternative label overwrites
  the outer label's policy and adds its categories to the outer label's (`AlternativeLeaks`).
- An import fails when its version is empty or begins with a slash, because the URI of the first element does not parse then
  (`ImportWithoutVersion`); when its action root is not a declared class; and when it has to pad its objects with an enumeration
  that is not one, which happens as soon as there are fewer classes beside the actions than the minimum number of objects.
  `Importer.Import` fails in no other case. An ontology read from a document declares its enumerations as classes
  (`DeclaredEnumerationsFailExactly`), so the last case needs a model put together by hand (`ImportUndeclaredEnumeration`).
- Objects and actions are kept apart by class name, but printed names lose the separators between words, so an object and an
  action can end up under one name (`PrintedStayApartExactly`, `ImportCollidingNames`).
- Opening an existing audit file without reloading it starts a second chain in it, and signing turned on midway makes the
  earlier envelopes fail (`OpenWithoutReloadExactly`, `SigningMidwayExactly`, `SigningMidwayFails`).
- A log over the write-once sink cannot be continued: opening it again starts a second chain in the file, and reloading it
  takes the plain sink, after which the write-once sink reports tampering (`ReloadedLogIsReported`).
- The journal counter saturates at the largest 64-bit number; `SyncIsSuffix` says exactly when that shows, and
  `SaturatedSnapshotHidesWrites` is a snapshot after whose loading it does.

## Assumptions

- Publisher and consumer share one model registry, whose instance validation is an arbitrary predicate. Lemmas about replicas
  assume that the publisher's journal is no longer than the largest 64-bit number.
- The hash is collision free, its output contains no `|` and is never `GENESIS`; records are encoded injectively; what a
  signing key signs, its own public half accepts.
- Which byte strings are blank or an envelope is a parameter of the write-once sink, so that a line that is not UTF-8 is neither.
- Envelopes, snapshots, manifests and JSON values are written and read back faithfully, an envelope on one line that is not
  blank. Time stamps read back as written and contain no markup. The XML library escapes texts and attributes when writing,
  unescapes and trims texts when reading, and drops texts that are only white space.
- Renaming a finished manifest over the old one is atomic; an append may stop after any number of bytes. No proper beginning
  of an envelope's text is an envelope, nor is an envelope with other text before it on its line.
- Full Unicode upper-casing and the validity of UTF-8 are parameters.

## Model

| member | source | states |
|---|---|---|
| Journal.FirstPutsAreFirstMentions | crates/mim-transport/src/broker.rs:305-312 | The keys a journal leaves behind are exactly the objects it mentions, each once, in the order of their first mention. |
| Journal.DeletedByLastEntry | crates/mim-transport/src/broker.rs:289-312 | An object is deleted exactly when its last entry is a Delete. |
| Journal.SuffixBySequence | crates/mim-transport/src/broker.rs:159-170 | Selecting by number gives the journal after a position if and only if the counter has not saturated there. |
| Broker.PutIsWellFormed | crates/mim-transport/src/broker.rs:192-212 | A put, accepted or refused, keeps store, deletions and numbering in agreement with the journal. |
| Broker.DeleteIsWellFormed | crates/mim-transport/src/broker.rs:289-303 | So does a delete, of a known, unknown or already deleted object. |
| Broker.ApplyRemoteIsWellFormed | crates/mim-transport/src/broker.rs:99-141 | So does one replayed entry, whatever instance was fetched for it. |
| Broker.ApplyRemoteExactly | crates/mim-transport/src/broker.rs:99-141 | A replayed entry succeeds exactly when it is a Delete or brings a valid instance, is then the same write with the watermark moved, and otherwise fails with which error. |
| Broker.ApplyFromExactly | crates/mim-transport/src/broker.rs:72-96 | Replayed from a publisher at hand, a Put brings the instance the publisher has now, and fails as unknown when it has none. |
| Broker.RunIsWellFormed | crates/mim-transport/src/broker.rs:192-312 | Any run of writes keeps that agreement, and the old journal stays a prefix of the new one. |
| Broker.WritesExactly | crates/mim-transport/src/broker.rs:192-303 | What one write does to every part of the store: contents, order, deletions, one journal entry, the counter; a refused write changes nothing. |
| Broker.RunPerforms | crates/mim-transport/src/broker.rs:192-303 | A run performs its writes one after the other. |
| Broker.JournalDeterminesStatus | crates/mim-transport/src/broker.rs:192-312 | After any run from an empty broker: entry i is numbered i+1, the keys are the journalled objects in first-put order, and an object is inactive exactly when its last entry is a Delete. |
| Broker.ReadObjectExactly | crates/mim-transport/src/broker.rs:215-228 | A read gives the stored instance exactly while the object is active; deleted and unknown objects are told apart. |
| Broker.SyncIsSuffix | crates/mim-transport/src/broker.rs:159-170 | What sync returns is exactly the journal after the position, if and only if the counter has not saturated there. |
| Broker.NextWriteIsSeenExactly | crates/mim-transport/src/broker.rs:305-312 | In any state, also one loaded with its counter at the end, the next write is synced to whoever holds the latest position if and only if the counter can still grow. |
| Broker.QuerySelectsExactly | crates/mim-transport/src/broker.rs:230-286 | For every request: fails exactly when the filter does not parse or there is neither filter nor class; selects, in store order, exactly the active instances that match; and answers with the slice the page bounds cut out of them and both lengths. |
| Broker.PrintedFilterSelects | crates/mim-transport/src/filter.rs:121-140 | A printed filter selects by exactly its own class and predicates. |
| Broker.ExchangeBroker.FromSnapshot | crates/mim-transport/src/broker.rs:38-58 | The broker built from snapshot parts: later duplicates overwrite in place, order is that of first mention. |
| Broker.ExchangeBroker.RecordJournal | crates/mim-transport/src/broker.rs:305-312 | Appends one entry under the saturating counter and changes nothing else. |
| Broker.ExchangeBroker.PutObject | crates/mim-transport/src/broker.rs:192-212 | The whole new state; succeeds exactly for valid instances, and says whether the object is new. |
| Broker.ExchangeBroker.DeleteObject | crates/mim-transport/src/broker.rs:289-303 | The whole new state; succeeds exactly for known objects, and says whether it was active. |
| Broker.ExchangeBroker.SyncEntries | crates/mim-transport/src/broker.rs:159-170 | The entries numbered beyond the position, in order. |
| Broker.ExchangeBroker.ApplyRemoteEntry | crates/mim-transport/src/broker.rs:99-141 | One entry with its fetched instance: the new state, or the error and no change. |
| Broker.ExchangeBroker.ApplyEntryFrom | crates/mim-transport/src/broker.rs:72-96 | One entry replayed from a publisher at hand: the new state, or the error and no change. |
| Persistence.LoadRestoresSave | crates/mim-transport/src/persistence.rs:41-95 | Loading a saved broker, however it came about, restores it if and only if its watermark is not zero or it has recorded nothing. |
| Persistence.LoadExactly | crates/mim-transport/src/persistence.rs:41-71 | Loading any snapshot: refused exactly for another model version; otherwise the last instance of each identifier, keys in order of first mention, deletions and journal as they stand, and the watermark rule. |
| Persistence.LoadedIsIndexed | crates/mim-transport/src/persistence.rs:41-71 | A broker loaded from any snapshot, consistent or not, holds every key once and every instance under its own identifier, which is all that saving it needs. |
| Persistence.LoadedBrokerSurvivesSave | crates/mim-transport/src/persistence.rs:41-95 | A broker loaded from any snapshot and then written to comes back from a save under the same condition. |
| Persistence.SaturatedSnapshotHidesWrites | crates/mim-transport/src/persistence.rs:59-70 | After loading a snapshot whose counter is at the end, a write is stored but synced to nobody who has its position. |
| Persistence.FileExchangeStore.Save | crates/mim-transport/src/persistence.rs:73-95 | The file holds a snapshot of exactly this broker, its deletions listed in any order without repetition. |
| Persistence.FileExchangeStore.LoadBroker | crates/mim-transport/src/persistence.rs:41-71 | A new broker with the snapshot's state, an empty one without a file. |
| Replication.NextEntryApplies | crates/mim-transport/src/broker.rs:72-96 | On a replica the next entry always applies although a Put takes the publisher's present instance, and the replica invariant is kept. |
| Replication.SliceApplies | crates/mim-transport/src/replication.rs:82-104 | Any slice of the journal that starts at or below the watermark applies, moves the watermark to its end and is counted entry by entry. |
| Replication.ApplyAllStopsExactly | crates/mim-transport/src/replication.rs:82-104 | A replay stops exactly at the first new entry that cannot be applied, with its error, in the state and with the counts of the entries before it. |
| Replication.PullCatchesUp | crates/mim-transport/src/replication.rs:21-29 | A pull from any position at or below the watermark makes the replica equal to the publisher up to its watermark, whatever was applied before; applied plus skipped is what was received. |
| Replication.PullCompleteExactly | crates/mim-transport/src/replication.rs:82-104 | The journals agree after a pull if and only if it started at or below the watermark or nothing was missing. |
| Replication.ReplicaSurvivesRestart | crates/mim-transport/src/persistence.rs:59-70 | The load rule for a zero watermark changes no replica. |
| Replication.RetryAndRestartAgree | crates/mim-transport/src/replication.rs:82-104 | Stopping after any entry, saving, loading, and pulling again from any position at or below the watermark ends in the state of one uninterrupted pull; another pull changes nothing. |
| Replication.CaughtUpAnswersAlike | crates/mim-transport/src/broker.rs:215-286 | After a pull every query page and every read on the replica is the publisher's. |
| Replication.ReplicaAlwaysFollows | crates/mim-transport/src/replication.rs:82-104 | Over every interleaving of publisher writes, fetches, single applications, aborts and restarts: the replica's journal is the publisher's up to the watermark, keys and deletions are what that prefix says, and an object with no later Put has the publisher's instance. |
| Replication.RunThenPull | crates/mim-transport/src/replication.rs:21-29 | After any such run from two empty brokers, one completed pull makes the replica the publisher's copy. |
| Replication.PullAndApply | crates/mim-transport/src/replication.rs:21-29 | The consumer's new state and the report, for brokers in any state, equal the specified pull. |
| Replication.ApplySyncResponse | crates/mim-transport/src/replication.rs:82-104 | The loop stops at the first failing entry, keeps what was applied before it, and reports its error. |
| FilteredReplication.WriteKeeps | crates/mim-transport/src/broker.rs:192-312 | A publisher write between any two steps of a pull keeps the cross-node invariant. |
| FilteredReplication.FetchKeeps | crates/mim-transport/src/secured.rs:206-230 | A filtered response taken now misses no last entry the consumer is owed. |
| FilteredReplication.HeadKeeps | crates/mim-transport/src/broker.rs:99-141 | Applying the head of a response, with what an enforced read gives at that moment, keeps the invariant. |
| FilteredReplication.ApplyAdvances | crates/mim-transport/src/replication.rs:52-80 | One step of the network loop: an entry applied before is passed over; any other moves the watermark to its number and shows or hides its object, unless it is a Put of an object that by now is deleted or unreadable, which ends the pull. |
| FilteredReplication.FilteredPull | crates/mim-transport/src/replication.rs:41-49 | A filtered pull never fails; it counts as applied exactly the entries numbered beyond the old watermark and as skipped the others; it leaves every object of the publisher up to date, and adds only instances that the subject may read now. |
| FilteredReplication.StaleCopyExactly | crates/mim-transport/src/secured.rs:206-230 | After a pull, an object the subject may not read at the publisher is active at the consumer if and only if it was before and no Delete of it came since; it is then the older copy. |
| FilteredReplication.ShownRightlyExactly | crates/mim-transport/src/replication.rs:41-49 | After a pull an object is active at the consumer exactly when the subject may read it at the publisher, if and only if it is not such a stale copy. |
| FilteredReplication.StaleCopyArises | crates/mim-transport/src/secured.rs:206-230 | A run from two empty brokers that leaves a stale copy: readable Put, pull, unreadable Put, pull. |
| FilteredReplication.RunKeepsConsistent | crates/mim-transport/src/replication.rs:52-80 | The invariant holds through every run of writes, fetches, applications, failed fetches, aborts and restarts. |
| FilteredReplication.RemotePullIsFaithful | crates/mim-transport/src/replication.rs:52-80 | After any such run from two empty brokers: an object whose last entry is at or below the watermark is up to date, everything held was released by an enforced read and is readable, and a finished current response leaves every object up to date. |
| FilteredReplication.PullAndApplyForSubject | crates/mim-transport/src/replication.rs:41-49 | Consumer state and report of the in-process filtered pull. |
| FilteredReplication.RemotePublisher.FetchSync | crates/mim-transport/src/remote.rs:11-11 | After arbitrary writes by others, the filtered journal as of now, or a failure. |
| FilteredReplication.RemotePublisher.FetchInstance | crates/mim-transport/src/remote.rs:14-14 | After arbitrary writes by others, the enforced read as of now, or a failure. |
| FilteredReplication.PullAndApplyRemote | crates/mim-transport/src/replication.rs:52-80 | The network loop: faithful at or below the watermark whether or not it completes and wherever writes fall; a completed pull reports as applied exactly the entries of the response beyond the old watermark, as skipped the others, and the position it was taken at; everything is up to date when nothing was written after it; and against a publisher that stays reachable and is not written to it completes at the present position. |
| Labeling.ClassificationRoundTrip | crates/mim-labeling/src/classification.rs:33-62 | The text of every level parses back to it, although parsing trims, ignores case and knows synonyms. |
| Labeling.ParsedExactly | crates/mim-labeling/src/classification.rs:33-49 | A text names a level exactly when, trimmed and in upper case, it is one of that level's listed names; any other text is reported in that form. |
| Labeling.LevelsAscend | crates/mim-labeling/src/classification.rs:64-67 | The order of the levels, all of them. |
| Labeling.ValidExactly | crates/mim-labeling/src/label.rs:105-132 | A label is valid exactly when it names its policy, the policy allows its level, and every category has a tag name and a value. |
| Labeling.CategoryValuesMember | crates/mim-labeling/src/label.rs:134-158 | The values a category query returns are exactly those of the categories it selects. |
| Labeling.CountriesAndCaveatsExactly | crates/mim-labeling/src/label.rs:134-158 | The countries are the values of the categories tagged for release, in whatever case; the caveats are the values of the restrictive ones. |
| Labeling.AcceptsExactly | crates/mim-labeling/src/domain.rs:53-85 | A domain accepts a country or a mission exactly when each of its lists that is not empty has it, in whatever case. |
| Policy.AccessGrantedExactly | crates/mim-policy/src/pdp.rs:80-149 | Local access is granted if and only if the label is valid, the domain registered, and subject and label pass every check; the label is then unchanged. |
| Policy.AccessOutcomeExactly | crates/mim-policy/src/pdp.rs:80-149 | Every local request: which error for an invalid label or an unregistered domain, and otherwise denied for a reason if and only if that reason is true of the request and no earlier check fails. |
| Policy.DenialIsJustified | crates/mim-policy/src/pdp.rs:80-149 | The reason of a denial is true: the named caveat is missing, the named country is not accepted, the clearance is too low. |
| Policy.TransferOutcomeExactly | crates/mim-policy/src/pdp.rs:151-218 | Every cross-domain request: an error exactly for an invalid label, one domain on both sides, an unregistered domain or a pair without policy, each its own, or for a label that cannot be lowered; and denied for a reason if and only if that reason is true of the request and no earlier check fails. |
| Policy.AccessIsMonotone | crates/mim-policy/src/pdp.rs:80-149 | More clearance and more caveats, with the same nationality and mission, never lose access. |
| Policy.ReleaseOutcome | crates/mim-policy/src/pdp.rs:151-218 | The exact outcome of every cross-domain request that passes the earlier checks, and that nothing is released without passing them. |
| Policy.AllowDowngradeIsIgnored | crates/mim-policy/src/store.rs:9-31 | Stores that differ only in whether their policies allow downgrading decide every cross-domain request alike. |
| Policy.DowngradedExactly | crates/mim-policy/src/pdp.rs:151-218 | A label is downgraded if and only if the checks pass, it exceeds the target's maximum, and its own policy allows that maximum. |
| Policy.DowngradesAgainstPolicy | crates/mim-policy/src/pdp.rs:151-218 | A secret label is downgraded across a pair whose only policy forbids it. |
| Policy.ReleaseStaysWithinTarget | crates/mim-policy/src/pdp.rs:151-218 | A released label fits the target's maximum and countries, is valid, differs at most by a lower classification, and is permitted unchanged when evaluated again. |
| Policy.ReleasedLabelDeniedOnlyForSubject | crates/mim-policy/src/pdp.rs:80-149 | In the target domain a released label can be refused only for an attribute of the person asking. |
| Downgrade.DowngradedLabelForTarget | crates/mim-policy/src/downgrade.rs:29-58 | The edited copy: lowered classification, intersected releasability, or the validation error. |
| Downgrade.DowngradedLabelExactly | crates/mim-policy/src/downgrade.rs:29-58 | The level is the lower one, a country stays exactly when the target accepts it or nothing is intersected, all other categories stay as they are, and nothing else changes. |
| Downgrade.DowngradeRefusedExactly | crates/mim-policy/src/downgrade.rs:29-58 | When the copy is a valid label, said of the original, the target and the settings. |
| Downgrade.IntersectionKeepsAccepted | crates/mim-policy/src/downgrade.rs:29-58 | When the target accepts every country of a valid label, the intersection changes no category. |
| Secured.WriterReadsBack | crates/mim-transport/src/secured.rs:86-139 | What a subject may put it reads back unchanged. |
| Secured.PutsExactly | crates/mim-transport/src/secured.rs:86-96 | A subject may put exactly what it may read and what is valid, and that is the broker's put; the error otherwise. |
| Secured.SecurityLabelExactly | crates/mim-labeling/src/label.rs:160-189 | The label made of an instance's metadata: default level and policy, the error for an unknown level, and as countries the words of its releasability in upper case. |
| Secured.DeletesWhatItReads | crates/mim-transport/src/secured.rs:128-197 | A subject may delete exactly what it may read, and then finds it inactive. |
| Secured.ViewsAreMonotone | crates/mim-transport/src/secured.rs:145-230 | For every store, request and position, a less cleared subject's query result and sync entries are subsequences of a more cleared one's, and requests fail alike. |
| Secured.QueryAsSelectsExactly | crates/mim-transport/src/secured.rs:145-175 | A subject's query succeeds exactly when the broker's does and every label on its page can be read; it then answers with exactly the instances of the page that the subject may read, in their order, and their number. |
| Secured.PermittedSinceExactly | crates/mim-transport/src/secured.rs:206-230 | A subject is synced an entry exactly when it is numbered beyond the position and is a Delete or its object is active and readable now; in journal order. |
| Secured.SecuredExchangeBroker.GetByOidAs | crates/mim-transport/src/secured.rs:128-139 | Succeeds if and only if the object is active and the subject may read it, and then returns it; otherwise inactive and unknown objects are reported as such to anyone before the label is looked at, and then the label's or the policy's error. |
| Secured.SecuredExchangeBroker.PutObjectAs | crates/mim-transport/src/secured.rs:86-96 | Writes exactly when policy and validation allow; otherwise no change. |
| Secured.SecuredExchangeBroker.DeleteObjectAs | crates/mim-transport/src/secured.rs:184-197 | Deletes exactly what the subject may read; otherwise no change. |
| Secured.SecuredExchangeBroker.GetByFilterAs | crates/mim-transport/src/secured.rs:145-175 | The loop gives the subject's query, which `QueryAsSelectsExactly` describes: the readable ones of the broker's page, in its order, or the label's error. |
| Secured.SecuredExchangeBroker.SyncSinceAs | crates/mim-transport/src/secured.rs:206-230 | The loop keeps every Delete and the Puts of objects readable now, in order. |
| PropertyGraph.InversePassJustified | crates/mim-import/src/owl.rs:111-139 | An inverse pass overwrites nothing and adds only values reachable from declared ones along inverseOf and subPropertyOf. |
| PropertyGraph.InverseAdds | crates/mim-import/src/owl.rs:111-139 | After an inverse pass a domain or range is known exactly when it was, or its partner's opposite end was; no property has become or ceased to be a data property. |
| PropertyGraph.InheritancePassJustified | crates/mim-import/src/owl.rs:141-171 | So does an inheritance pass. |
| PropertyGraph.InheritanceAdds | crates/mim-import/src/owl.rs:141-171 | After an inheritance pass a domain, a range, or being a data property is known of a property exactly when it was, or was of one of its parents. |
| PropertyGraph.PassKnows | crates/mim-import/src/owl.rs:111-171 | What a pass makes known is one round computed from what was known and the declared links, whatever the order of the walk. |
| PropertyGraph.DataComesFromAbove | crates/mim-import/src/owl.rs:167-169 | A property that is a data property in the end was declared one, or a chain of parents leads up to one that was. |
| PropertyGraph.ResolvedHandsOnDomains | crates/mim-import/src/owl.rs:60-70 | At the end every known domain is handed on: to all children along subPropertyOf, and as a range to the inverse partner. |
| PropertyGraph.ResolvedClosesInheritanceExactly | crates/mim-import/src/owl.rs:60-70 | Ranges, and being a data property, are closed under subPropertyOf if and only if the declarations have no late inheritance: no parent that inherits it only in the last round, over a child that inherits none in it. |
| PropertyGraph.ResolvedClosesInverseExactly | crates/mim-import/src/owl.rs:60-70 | Every known range has become the domain of the inverse partner if and only if the declarations have no late range: none that the last round finds for a property whose partner has no domain then. |
| PropertyGraph.ChainHasLateRange | crates/mim-import/src/owl.rs:60-70 | Two properties chained by inverseOf have a late range. |
| PropertyGraph.InverseClosureCanFail | crates/mim-import/src/owl.rs:60-70 | Whatever their resolution ends with leaves that range unused. |
| PropertyGraph.GenerationsInheritLate | crates/mim-import/src/owl.rs:141-171 | Three generations, only the oldest with a range, have a late inheritance. |
| PropertyGraph.InheritanceClosureCanFail | crates/mim-import/src/owl.rs:60-70 | Whatever their resolution ends with leaves the youngest without the range of its parent. |
| Owl.OwlModel.DescendantsOf | crates/mim-import/src/owl.rs:76-89 | On any class graph, cyclic or not, ends with exactly the declared classes that reach the root upward in one or more steps. |
| Owl.OwlModel.AncestorsOf | crates/mim-import/src/owl.rs:91-108 | On any class graph, ends with exactly the names reached upward other than the start, each once. |
| Owl.WalksAgree | crates/mim-import/src/owl.rs:76-108 | A declared class is a descendant of another name exactly when that name is its ancestor. |
| Owl.OwlModel.PropertiesWithDomainCount | crates/mim-import/src/owl.rs:52-58 | The counting loop gives the size of the set of properties with a known domain, each counted once. |
| Owl.OwlModel.ResolveInverseDomains | crates/mim-import/src/owl.rs:111-139 | The new property map is one inverse pass over the old one, partners inserted where missing. |
| Owl.OwlModel.ResolveSubpropertyDomains | crates/mim-import/src/owl.rs:141-171 | The new property map is one inheritance pass over the old one. |
| Owl.OwlModel.ResolvePropertyDomains | crates/mim-import/src/owl.rs:60-70 | Ends on every property graph; inserts only inverse partners, overwrites nothing, keeps names and captions, adds only derivable values and makes data properties only below declared ones; what is known at the end is determined by the declarations; domains are handed on along subPropertyOf and inverseOf; ranges along either, and data properties along subPropertyOf, if and only if the declarations have no late inheritance, or no late range. |
| Owl.ResolveChain | crates/mim-import/src/owl.rs:60-70 | The method itself, run on the chain of inverses, leaves a range that nobody takes as a domain. |
| Owl.ResolveGenerations | crates/mim-import/src/owl.rs:60-70 | The method itself, run on the three generations, leaves ranges that are not closed under subPropertyOf. |
| Importer.PadClassCoverage | crates/mim-import/src/mapper.rs:302-337 | Padding keeps the partition, ends with a known number of actions, reaches the minimum number of objects and actions or uses every name, and brings in undeclared names exactly when some enumeration is undeclared and the classes beside the actions are too few. |
| Importer.PromoteActions | crates/mim-import/src/mapper.rs:117-136 | Promotion takes only names that pass the test, loses no name, and ends with exactly as many actions as the limit and the candidates allow. |
| Importer.EventLikeExactly | crates/mim-import/src/mapper.rs:117-136 | The test of a promotion: the name contains one of six words. |
| Importer.TaxonomyNames | crates/mim-import/src/mapper.rs:88-143 | Through every padding pass objects and actions partition the regular classes, every declared domain is among them, and all are declared if and only if neither the root nor a padding enumeration is undeclared. |
| Importer.EnsurePropertyDomains | crates/mim-import/src/mapper.rs:282-300 | Every declared class that a property names as domain ends up in the taxonomy, still a partition. |
| Importer.ResolveTaxonomyDomain | crates/mim-import/src/mapper.rs:642-672 | Finds a taxonomy class if and only if the domain or something above it has one, the domain's own first. |
| Importer.NormalizeExactly | crates/mim-import/src/owl.rs:531-545 | The local name of a reference: what follows its last number sign, or else its last slash. |
| Importer.TaxonomyDomainNameExactly | crates/mim-import/src/mapper.rs:642-654 | The taxonomy name of a domain, as it is printed, or else as its local name is. |
| Importer.WordsPrinted | crates/mim-import/src/mapper.rs:703-730 | Words and separators are printed one word after the other; `WordPrinted` and `NothingPrinted` say how one word and none are. |
| Importer.ImportAttributes | crates/mim-import/src/mapper.rs:241-280 | Imports exactly the properties whose domain resolves, each once, as an element of the class that resolution finds, with the multiplicity and representation its kind asks for; imported plus skipped is all; fails if and only if there is one to import and the version makes no URI. |
| Importer.Import | crates/mim-import/src/mapper.rs:84-235 | Fails if and only if the action root is undeclared, undeclared enumerations have to pad the objects, or the version makes no URI, with the error kind of a cause that holds; otherwise objects and actions partition the regular classes, exactly by descent from the root when authoritative, and every property whose resolved domain names a declared class is imported, not skipped, as an element of it. |
| Importer.ClassElements | crates/mim-import/src/mapper.rs:147-157 | One element for each name; fails if and only if a class is missing or there is a name and the version makes no URI. |
| MimUri.ElementUriParsesExactly | crates/mim-core/src/uri.rs:26-50 | The URI of an element parses, wherever the element is, if and only if the version is neither empty nor begins with a slash; the version read back is the part before its first slash. |
| MimUri.NamedExactly | crates/mim-core/src/uri.rs:26-50 | A text is a qualified name exactly when, trimmed, it is the base URL, a version without slash and a path, none of them empty, with slashes in between. |
| MimUri.NormalizedExactly | crates/mim-core/src/uri.rs:52-57 | A path is normalized to the one with the same segments and no empty ones; a normal path stays as it is. |
| Importer.DeclaredEnumerationsFailExactly | crates/mim-import/src/owl.rs:440-460 | With all enumerations declared as classes, only the root and the version can make an import fail. |
| Importer.ImportUndeclaredEnumeration | crates/mim-import/src/mapper.rs:319-326 | The import itself, run on one class and one undeclared enumeration, fails for the missing class. |
| Importer.ImportWithoutVersion | crates/mim-import/src/mapper.rs:576-586 | The import itself, run with an empty version on nothing but its root, fails for the URI. |
| Importer.PrintedStayApartExactly | crates/mim-import/src/mapper.rs:166-170 | However the classes are divided, printed objects and actions stay apart if and only if no two classes print alike. |
| Importer.ImportCollidingNames | crates/mim-import/src/mapper.rs:703-730 | The import itself puts an object and an action under one printed name. |
| AuditChain.LastHashBindsRecords | crates/mim-audit/src/chain.rs:46-88 | Two verified logs that end in the same hash hold the same records in the same order, so any edit, deletion, insertion or reordering breaks the chain or changes the last hash. |
| AuditChain.TruncationVerifies | crates/mim-audit/src/chain.rs:46-55 | Cutting records off the end leaves a log that verifies, with another last hash. |
| AuditChain.ChainExtends | crates/mim-audit/src/chain.rs:25-55 | A log with one more envelope verifies if and only if the log does and the envelope links to its last hash. |
| AuditLog.RecordKeepsConsistent | crates/mim-audit/src/log.rs:215-227 | One record, taken or refused by the sink, keeps file, memory and chain in agreement. |
| AuditLog.PreparedExactly | crates/mim-audit/src/log.rs:215-227 | The envelope of a record: linked to the last hash, hashed over it, signed by the signing key if there is one; none exactly when signing fails. |
| AuditLog.RestartKeepsConsistent | crates/mim-audit/src/log.rs:168-196 | Reloading from the file restores exactly the state that was lost. |
| AuditLog.ReloadedExactly | crates/mim-audit/src/log.rs:168-196 | A file reloads exactly when no line is malformed, into its envelopes in order, the last one's hash, and no keys. |
| AuditLog.AppendedExactly | crates/mim-audit/src/log.rs:102-119 | What a refused and a whole append leave of any file, also of one whose last line was left open. |
| AuditLog.RunStaysVerified | crates/mim-audit/src/log.rs:168-258 | From the empty file, after any mix of records, refused appends and reloads with one key throughout or none: the file is the in-memory envelopes, the chain verifies, and a reload changes nothing. |
| AuditLog.VerifiedExactly | crates/mim-audit/src/log.rs:247-258 | A log verifies exactly when every envelope links to the one before, hashes right, and, with a verifying key, carries a signature with that key's identifier that the key accepts. |
| AuditLog.ForgeryIsRejected | crates/mim-audit/src/chain.rs:57-75 | Any log with one signature replaced by another key's, or by a text the key does not accept, fails to verify. |
| AuditLog.FileVerifiesExactly | crates/mim-audit/src/log.rs:102-258 | With appends that also go wrong halfway, the file reloads and verifies if and only if no write followed an unreported one without a reload between them, none met an open line, and none broke off within an envelope. |
| AuditLog.UnreportedWriteBreaks | crates/mim-audit/src/worm.rs:120-128 | One line written but reported as failed, and one more record, leave a file that does not verify. |
| AuditLog.SigningMidwayExactly | crates/mim-audit/src/log.rs:199-213 | Turning signing on over an unsigned log keeps it verifiable if and only if it is empty. |
| AuditLog.SigningMidwayFails | crates/mim-audit/src/log.rs:199-213 | One unsigned record is enough for that to fail. |
| AuditLog.OpenWithoutReloadExactly | crates/mim-audit/src/log.rs:142-166 | Opening a file without reloading it and recording once leaves it verifiable on reload if and only if it was empty. |
| AuditLog.AuditLog.LoadFromFile | crates/mim-audit/src/log.rs:168-196 | The line loop restores envelopes and last hash, or fails at a malformed line. |
| AuditLog.AuditLog.Record | crates/mim-audit/src/log.rs:215-227 | New memory and file together for every outcome of the append; the memory takes the envelope exactly when the append is reported as done. |
| AuditLog.AuditFile.Append | crates/mim-audit/src/log.rs:102-119 | What each outcome leaves of the file, also behind a line that was left open. |
| AuditLog.AuditLog.VerifyChain | crates/mim-audit/src/log.rs:247-258 | Succeeds if and only if every envelope links, hashes right and, with a key, carries an accepted signature of that key. |
| Worm.AppendDescribedExactly | crates/mim-audit/src/worm.rs:96-129 | After an append the manifest matches a scan of the file, if and only if what followed the last line end was blank and leaves the new line readable. |
| Worm.OpenMatchesScan | crates/mim-audit/src/worm.rs:29-67 | A reopen gives a manifest that matches a scan and leaves the file alone, or fails: over a manifest exactly when the length differs, as tampering; without one exactly when the file cannot be scanned. |
| Worm.OpenOverManifestExactly | crates/mim-audit/src/worm.rs:29-67 | Over any disk with a manifest, an open succeeds exactly when the file has the manifest's length, a missing file counting as empty; every failure is tampering. |
| Worm.AppendRefusedExactly | crates/mim-audit/src/worm.rs:96-129 | An append reports tampering exactly when the length is not the remembered one, a missing file counting as empty, and an I/O error exactly when an expected empty file is missing. |
| Worm.AppendKeepsOk | crates/mim-audit/src/worm.rs:96-129 | Wherever an append is interrupted, disk and surviving sink stay consistent; a completed one strictly grows the file and keeps the agreement. |
| Worm.CrashLosesSink | crates/mim-audit/src/worm.rs:29-129 | What an interruption leaves: never the sink, never a new manifest from an open, and at most an empty file. |
| Worm.ReopenAfterAnyRun | crates/mim-audit/src/worm.rs:29-206 | After any run of opens, appends, failures and crashes over a safe file, a reopen yields a matching manifest; or reports tampering because the file has grown past its manifest; or there is no manifest yet and the initial file cannot be scanned. |
| Worm.ReopenMatchesExactly | crates/mim-audit/src/worm.rs:29-206 | The safe files are exactly those over which every run keeps that promise: none, one that cannot be scanned, or one behind which every envelope stays readable. |
| Worm.UnterminatedFileDisagrees | crates/mim-audit/src/worm.rs:96-129 | Over one envelope without its line end, an open and an append end in a manifest that does not match the file and that a reopen accepts. |
| Worm.EditReportedExactly | crates/mim-audit/src/worm.rs:147-165 | An edit of the file is reported at the next open if and only if it changes the length. |
| Worm.WipedFilePasses | crates/mim-audit/src/worm.rs:77-84 | Every envelope can be overwritten with line ends without being reported. |
| Worm.OutcomeOnDisk | crates/mim-audit/src/worm.rs:96-129 | The text each append outcome leaves on disk, as the audit log above sees it. |
| Worm.WormAuditSink.VerifyImmutable | crates/mim-audit/src/worm.rs:78-84 | Holds exactly when the file has the length the sink remembers, a missing file counting as empty; over a file only the sink wrote to, it then still matches the sink's manifest, and otherwise has grown. |
| Worm.WormAuditSink.AppendEnvelope | crates/mim-audit/src/worm.rs:96-129 | New file, manifest and sink state for every point of interruption, or the error and no change. |
| Worm.ScanEnvelopes | crates/mim-audit/src/worm.rs:167-183 | The line loop counts the envelopes and finds the last hash, or fails at an unreadable line. |
| WormLog.SinkFileVerifiesExactly | crates/mim-audit/src/worm.rs:96-129 | A log over the write-once sink, after any run of records with faults: the file reloads and verifies if and only if no line was written after one whose manifest could not be, and no append broke off within an envelope. |
| WormLog.ScanExactly | crates/mim-audit/src/worm.rs:167-183 | The sink's scan of any text is the number and the last hash of the envelopes a reload of the log would read from it. |
| WormLog.StuckSinkStays | crates/mim-audit/src/worm.rs:103-103 | Once the file has another length than the sink remembers, no record changes anything any more. |
| WormLog.ReloadedLogIsReported | crates/mim-audit/src/log.rs:168-196 | After reloading the log from such a file, one more record makes the next open of the write-once sink report tampering. |
| LabelXml.Serialize | crates/mim-stanag4774/src/xml.rs:20-59 | The events written for any label, alternatives included. |
| LabelXml.WrittenInFull | crates/mim-stanag4774/src/xml.rs:20-59 | The document of a label with both times and an alternative, element by element; `InformationInFull` and `InformationAtLeast` give the blocks within it. |
| LabelXml.WriteConfidentialityInformation | crates/mim-stanag4774/src/xml.rs:61-126 | The events of the information block, marks only where present, categories in order. |
| LabelXml.Deserialize | crates/mim-stanag4774/src/xml.rs:162-356 | The event loop over the reader's state variables, with its errors. |
| LabelXml.XmlTrimExactly | crates/mim-stanag4774/src/xml.rs:162-356 | Texts lose exactly the white space at their ends. |
| LabelXml.WrittenLabelReads | crates/mim-stanag4774/src/xml.rs:20-356 | Writing any label and reading it back gives one described label: texts trimmed, blank ones lost, attributes escaped, alternatives reduced and leaking. |
| LabelXml.LabelRoundTripsExactly | crates/mim-stanag4774/src/xml.rs:20-356 | Every label, with or without alternatives, comes back as it was, up to the policies' lists of levels, if and only if its texts are trimmed and not empty, its attributes contain no markup characters, its alternatives have only classification and marks under the NATO policy, and it is itself under that policy if it has any. |
| LabelXml.MarkupIsLost | crates/mim-stanag4774/src/xml.rs:162-356 | A policy OID with an ampersand does not come back. |
| LabelXml.AlternativeLeaks | crates/mim-stanag4774/src/xml.rs:247-294 | The last alternative's policy identifier replaces the label's own and its categories join the label's own. |
| LabelSpellings.SpelledReads | crates/mim-stanag4774/src/xml.rs:162-356 | A document by any writer, in any of the spellings the reader knows and with any texts in it, reads as its described meaning, errors included. |
| LabelSpellings.UnknownIsIgnored | crates/mim-stanag4774/src/xml.rs:162-356 | An element with an unknown name changes nothing that is read, wherever it stands. |
| LabelSpellings.UnknownAttributeIsIgnored | crates/mim-stanag4774/src/xml.rs:196-246 | An attribute with an unknown name changes nothing, on any element. |
| LabelSpellings.StrayValueIsIgnored | crates/mim-stanag4774/src/xml.rs:276-283 | A value outside any category changes nothing. |
| LabelSpellings.SecondEndAddsNoCategory | crates/mim-stanag4774/src/xml.rs:285-302 | Of a category within a category only the inner one is taken. |
| LabelSpellings.EmptyAlternativeIsDropped | crates/mim-stanag4774/src/xml.rs:247-294 | An alternative without anything in it is no alternative. |
| LabelJson.JsonLabelReadsBack | crates/mim-stanag4774/src/json.rs:20-121 | Every label comes back from JSON without policy OID, colour, marking data and alternatives, and otherwise as it was. |
| LabelJson.ParsedLabelExactly | crates/mim-stanag4774/src/json.rs:20-121 | Any JSON value is read as a label exactly when its information block, classification, categories and times are there as they must be, with defaults for what may be missing. |
| LabelJson.CategoryExactly | crates/mim-stanag4774/src/json.rs:82-121 | A category needs a tag name only; its kind is told by two names in any case, its values by an array's texts or one text. |
| LabelJson.LabelFailsExactly | crates/mim-stanag4774/src/json.rs:20-80 | Which error a value that is no label gives. |
| Filter.ParseFilter | crates/mim-transport/src/filter.rs:26-71 | The cursor loop ends on every text and equals the recursive parser, errors included. |
| Filter.FilterRoundTripsExactly | crates/mim-transport/src/filter.rs:26-119 | A filter printed in any mixture of the documented styles parses back to itself if and only if its names and values respect the delimiters. |
| Filter.ParsedFilterShape | crates/mim-transport/src/filter.rs:26-119 | Whatever parses has a trimmed class name without bracket and predicates whose names and values respect the delimiters. |
| Filter.AcceptedExactly | crates/mim-transport/src/filter.rs:26-119 | The language of the filter: a text parses to a filter exactly when it has the described form, and which error it gives without slashes or without a class. |
| Filter.HoldsExactly | crates/mim-transport/src/filter.rs:121-146 | A predicate holds exactly when the instance's first property of that name carries the value, as a text, or as a number, truth value or anything else is written. |
| RestPath.EncodeOidForPath | crates/mim-transport/src/rest.rs:88-104 | The loop writes each byte as itself or as a percent triple. |
| RestPath.PercentDecodePathSegment | crates/mim-transport-http/src/routes.rs:452-479 | The index loop decodes triples, passes stray percent signs through, and returns the segment itself when the bytes are no UTF-8. |
| RestPath.EncodedIsPathSafe | crates/mim-transport/src/rest.rs:88-104 | The encoding uses only unreserved characters and percent signs, and is empty only for the empty identifier. |
| RestPath.EncodedDecodes | crates/mim-transport-http/src/routes.rs:452-479 | Decoding inverts encoding on every byte string. |
| RestPath.DecodedExactly | crates/mim-transport-http/src/routes.rs:452-479 | One step of decoding any bytes: a percent sign and two hexadecimal digits are one byte, every other byte is itself. |
| RestPath.ObjectPathRoutes | crates/mim-transport/src/rest.rs:35-108 | The path of a non-empty identifier routes to its object for Get and Delete and gives the encoded identifier back; the empty identifier's path is the collection. |
| RestPath.PathExactly | crates/mim-transport/src/rest.rs:170-177 | The path of a request: without white space around it, what follows a question mark, and slashes at its end. |
| RestPath.RoutesExactly | crates/mim-transport/src/rest.rs:35-72 | Which requests reach which operation; every other one is unsupported. |
| RestPath.OidExactly | crates/mim-transport/src/rest.rs:75-86 | The identifier of a path is what is below the collection, when there is something. |
| RestPath.IdentifierSurvivesPath | crates/mim-transport/src/rest.rs:75-108 | From identifier to path, through the route and the decoder, every non-empty identifier comes back. |

## Left out

- HTTP server, TLS, identity headers, federation client, webhooks, LDAP, SAML, SIEM and syslog forwarding: network plumbing. A
  remote publisher is its two requests, either of which may fail and before either of which others may write.
- Hash and signature algorithms, PKI, ZTDF packaging, key access services and STANAG 4778 bindings: foreign code.
- Parsing of OWL and SPIF documents, JSON and XML libraries: values and events are modelled, their text is not.
- Instance validation and `ModelRegistry`: an arbitrary predicate on instances.
- Texts of error messages: errors keep their kind.
- `pull_and_apply_secured`, enveloped puts, `publish_store`, `serialize_active_store`, preset stores: thin wrappers.
- Audit records written by the policy enforcement point: a side effect of the decisions, not part of them.
- Inserting and removing domains, cross-domain policies and SPIF policies in the policy store: plain map and list edits.
- `append_journal_entry` and `read_journal_since` of the exchange store: a second file that loading never reads.
- Code lists, synthetic coverage, merging of seeds, semantic identifiers and node kinds in the importer: fixed tables. Where a
  class goes below the classifiers is a parameter.
- Media type negotiation, request bodies and query strings of the REST binding.
- Compliance checkers, reports, command line, examples and scenarios.
- Secured.SecuredExchangeBroker.GetByFilterAs: `total` counts before policy filtering, so it is passed on as the broker gives
  it, and `ViewsAreMonotone` says nothing about it.
- Labeling.ClassificationRoundTrip: one direction only, since several texts name the same level.
