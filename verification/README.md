# GoreeCloud Feeds Server: verified model

A Dafny model of the five parts of the feeds server that hold state, loops or bounded arithmetic, with
proofs of what they keep over every input and every run.

| Part | Modules |
|---|---|
| Conservative deduplication: one pass over the articles, three first-writer-wins indexes, alias propagation, refusal on conflicting evidence | `DedupSpec`, `DedupComponents`, `DedupIsolation`, `DedupIdempotence`, `ArticleKeys`, `ArticleEvidence`, `ArticleRuns`, `QueryString`, `UrlNormalization`, `Dedup` |
| Durable repository: the tables, one function per SQL statement, the five write operations, a transaction as a working copy | `Schema`, `Repository`, `RepositoryRuns`, `ArticleBatches` |
| XML tree builder: a stack machine over a token stream that builds a mutable tree | `XmlDocument`, `XmlDecoder` |
| Retrieval: configuration, backoff, Retry-After, the attempt loop, and concurrent fetches sharing a semaphore | `Retry`, `FetchConcurrency` |
| Migrations: file names, ordering, bodies, the ledger, and concurrent migrators sharing an advisory lock | `MigrationSources`, `MigrationLedger`, `MigratorInterleaving` |

`Options` and `Text` hold shared datatypes and ASCII models of string functions; `TextLaws` says what those
do, on the characters.

Code that changes state step by step is modelled that way: the deduplication loop over index objects, the
heap tree with its stack, the backoff and attempt loops, the transaction methods, the migration loop. Each
such method is proved against a specification, and what the specification promises is proved as lemmas. Every
lemma carries `{:induction false}`, so that no result rests on an induction the verifier makes up: where
one is needed it is written out.

How the parts are connected:

* `Dedup.DeduplicateArticles` computes `Uniques` and `Matches` of `DedupSpec`, a specification without the
  three maps in which a key belongs to the canonical article of the earliest article carrying it. The
  component, isolation and idempotence theorems are about that specification.
* `Repository.Store` methods compute `Repository.Step` (or, for articles, `ArticleWritten`); `RepositoryRuns`
  and `ArticleBatches` are about runs of `Step`.
* `XmlDecoder.DecodeTree` builds on the heap what `XmlDocument.Decode` computes on values; `XmlDocument` says
  exactly which streams decode to which document.
* `MigrationLedger.MigrationStore.Migrate` and the interleaved system of `MigratorInterleaving` share the turn
  `One` and the relation `Extends`.

Where the code does not do what one would expect of it, the model follows the code, a lemma shows the case,
and the exact condition is proved:

* Deduplicating twice is not always deduplicating once (`NotIdempotent`). It is exactly when no article that
  met a conflict would merge if only retained articles owned keys (`DeduplicatingTwiceExactly`).
* Feeds are not always kept apart: an ID with a `|` can make two articles of different feeds one
  (`BarInFeedIDBreaksIsolation`). Which IDs can is decided by their texts (`FeedsShareKeysExactly`,
  `FeedIsolatedExactly`); IDs without a `|` never do.
* Normalizing a URL is idempotent exactly when something is left of the host (`NormalizeIdempotentExactly`).
* A rejected `UpsertSubscription` stores `disabled`, and a rejected `UpsertUserReference` moves `updated_at`:
  each is one committed statement, checked afterwards (`RefusedPairStoresDisabled`,
  `RefusedSubjectMovesUpdatedAt`). The contracts of the two methods say exactly when.
* The specification says Retry-After is honored within the configured maximum. When that maximum exceeds
  9223372036 seconds, one number of seconds makes the 64-bit product negative, and the header is then ignored
  in favour of the backoff (`WrappingClientExists`, `RetryAfterSecondsExactly`).

## Model

| member | source | states |
|---|---|---|
| `DedupSpec.ResolveExactly` | internal/feed/dedup.go:106-134 | an article merges into `c` for a reason exactly when that kind of key has owner `c`, every key with an owner has owner `c`, and no stronger kind has one; it conflicts exactly when two of its keys have different owners |
| `DedupSpec.MergeWitness` | internal/feed/dedup.go:53-61 | a merged article shares a non-empty key of the reported kind with an earlier article of the same canonical article |
| `DedupSpec.RootIsRetained` | internal/feed/dedup.go:53-66 | the article that stands for another is retained, no later, and stands for itself |
| `DedupSpec.FirstCarrierIsFirst` | internal/feed/dedup.go:149-157 | the carrier the specification names for a key is no later than any article carrying it |
| `DedupSpec.OwnerNeverRebound` | internal/feed/dedup.go:149-157 | a key that belongs to an article belongs to it for the rest of the run |
| `DedupSpec.SameCanonicalIndex` | internal/feed/dedup.go:55-65 | two articles get the same canonical index exactly when the same article stands for both, so indexes into `unique` name articles without ambiguity |
| `DedupSpec.MatchesExact` | internal/feed/dedup.go:54-61 | a match is reported exactly for the articles that merge, with their canonical index and strongest reason |
| `DedupSpec.MatchesCountAndOrder` | internal/feed/dedup.go:42-70 | retained and reported articles add up to the input, and duplicate indexes strictly increase |
| `DedupSpec.OutputsPartitionInput` | internal/feed/dedup.go:42-70 | every article is either retained at its place or reported exactly once as a duplicate of an earlier retained article, which `unique` holds at the canonical index given |
| `DedupComponents.MergedAreConnected` | internal/feed/dedup.go:50-67 | for every input, conflicts included, articles with one canonical index are linked by a chain of shared keys of the same kind |
| `DedupComponents.ConflictSeparatesConnected` | internal/feed/dedup.go:126-131 | every article that meets disagreeing owners links two articles that are kept apart |
| `DedupComponents.ClassesAreComponents` | internal/feed/dedup.go:50-67 | canonical indexes are exactly the connected components of the share-a-key graph if and only if no article met conflicting evidence |
| `DedupIsolation.VerdictAlone` | internal/feed/dedup.go:50-67 | a group that shares no key with the rest gets, member by member, the decision and reason it gets when run alone |
| `DedupIsolation.GroupRunsAlone` | internal/feed/dedup.go:50-67 | keeping a group's results of an interleaved run is running on the group alone, up to a monotone renumbering of canonical indexes |
| `DedupIsolation.GroupOfArticlesRunsAlone` | internal/feed/dedup.go:42-70 | the same for articles whose keys are computed from them |
| `DedupIdempotence.SecondPassExactly` | internal/feed/dedup.go:50-67 | for any list: a pass over it changes nothing exactly when no article's keys were all first carried by one and the same earlier article of the list |
| `DedupIdempotence.FirstKeptInRetained` | internal/feed/dedup.go:149-157 | in the retained list of a run a key is first carried by the first retained article that had it, at its place in `unique` |
| `DedupIdempotence.IdempotentExactly` | internal/feed/dedup.go:50-67 | for any input: a second pass over what a run retained changes nothing exactly when no article that met a conflict would merge if only retained articles owned keys |
| `DedupIdempotence.ConflictFreeIsIdempotent` | internal/feed/dedup.go:53-66 | after a run without conflicts the retained articles have pairwise no key in common and a second pass returns them unchanged without matches |
| `ArticleKeys.TokensExactly` | internal/feed/dedup.go:232-234 | token normalization is idempotent, and the non-empty values it leaves alone are the single-spaced ones without capitals |
| `ArticleKeys.FeedsShareNoKey` | internal/feed/dedup.go:72-93 | two articles of different feeds whose IDs hold no bar share no key |
| `ArticleKeys.ScopesShareNoKey` | internal/feed/dedup.go:72-93 | two articles of different scopes, by feed ID or source URL, that hold no bar share no key |
| `ArticleKeys.FeedRunsAlone` | internal/feed/dedup.go:42-93 | deduplicating many feeds at once and keeping one feed is deduplicating that feed alone, when no feed ID holds a bar |
| `ArticleKeys.ScopeRunsAlone` | internal/feed/dedup.go:42-93 | the same for the articles of one scope when no scope holds a bar |
| `ArticleKeys.UnscopedIsRetained` | internal/feed/dedup.go:73-76 | an article without a source scope is always retained, and nothing merges into it |
| `ArticleKeys.IdentifierKeysCollideExactly` | internal/feed/dedup.go:80-82 | two scope texts can give the same identifier key for some two identifiers exactly when the framed text of one continues that of the other with a normalized token |
| `ArticleKeys.OnlyIdentifiersMeet` | internal/feed/dedup.go:80-90 | articles of different scopes, whatever the scopes hold, can have only identifier keys in common, given that normalized URLs hold no bar and digests have one length |
| `ArticleKeys.FeedsShareKeysExactly` | internal/feed/dedup.go:72-93 | some articles of two feeds have a key of any kind in common exactly when the framed text of one feed continues that of the other with a normalized token |
| `ArticleKeys.BarFreeNeverMeet` | internal/feed/dedup.go:159-162 | two feed IDs that hold no bar never meet in that sense |
| `ArticleRuns.FeedIsolatedExactly` | internal/feed/dedup.go:42-93 | a feed fares in every input from a set of feeds as it does alone exactly when none of the others can meet it in that sense |
| `ArticleRuns.BarInFeedIDBreaksIsolation` | internal/feed/dedup.go:53-61 | for one such pair of feeds, two articles of which the second merges into the first although alone it is retained |
| `ArticleRuns.DeduplicatingTwiceExactly` | internal/feed/dedup.go:42-93 | for any articles: deduplicating what a run retained returns it without matches exactly when no article that met a conflict would merge if only retained articles owned keys |
| `ArticleRuns.NotIdempotent` | internal/feed/dedup.go:42-93 | four articles of any feed, with two URLs that normalize differently, of which a second pass merges the last because an alias is lost |
| `ArticleEvidence.TokensAgreeExactly` | internal/feed/dedup.go:232-234 | two texts have the same token exactly when they have the same words in the same order, letter cases aside, and an empty one exactly when all is space |
| `ArticleEvidence.ContentsExactly` | internal/feed/dedup.go:236-238 | two texts have the same normalized content exactly when they have the same words |
| `ArticleEvidence.ScopesExactly` | internal/feed/dedup.go:159-167 | two articles have the same scope exactly when their feeds agree and, without a feed, their normalized source URLs; there is none exactly when both are missing |
| `ArticleEvidence.IdentifiersExactly` | internal/feed/dedup.go:80-82 | in one scope identifier keys agree exactly when the identifiers have the same words up to case, and some word |
| `ArticleEvidence.NormalizedURLsExactly` | internal/feed/dedup.go:169-203 | two texts normalize to the same URL exactly when, trimmed, both parse into a URL with scheme and host and without user information, and the two agree up to what is ignored, given that printing tells the results apart |
| `ArticleEvidence.HashedAlikeExactly` | internal/feed/dedup.go:205-229 | the text that is hashed is the same exactly when title, author, instant and text agree, whatever the articles hold |
| `ArticleEvidence.FingerprintsExactly` | internal/feed/dedup.go:205-230 | in one scope fingerprint keys agree exactly when both articles have a title, a time and some text, and title, author, time and text agree, the text being the content or for want of one the summary; short of a hash collision of the two |
| `ArticleEvidence.SharesExactly` | internal/feed/dedup.go:72-93 | in one scope two articles have a key in common exactly when identifiers, URLs, or titles, authors, times and texts agree in these senses |
| `ArticleEvidence.SecondMergesExactly` | internal/feed/dedup.go:50-67 | of any two articles the second is merged exactly when the two have a key in common |
| `TextLaws.TrimSpaceExactly` | internal/feed/dedup.go:170 | trimming leaves exactly the text between the spaces around it |
| `TextLaws.BlankExactly` | internal/feed/dedup.go:212 | a text is blank exactly when each character is one of the six spaces |
| `TextLaws.CasesExactly` | internal/feed/dedup.go:180-181 | lowering, and raising, identify exactly the texts that agree letter by letter up to case |
| `TextLaws.FieldsAtSpace` | internal/feed/dedup.go:233 | the words of a text are those before any of its spaces and those after it |
| `TextLaws.FieldsOfWord` | internal/feed/dedup.go:233 | a text without spaces is its only word |
| `QueryString.UnescapeEscape` | internal/feed/dedup.go:200 | decoding an encoded component gives it back, for every byte string |
| `QueryString.ParsePrint` | internal/feed/dedup.go:200 | parsing an encoded query gives the parameters back in order |
| `QueryString.UnescapeByCharacter` | internal/feed/dedup.go:200 | outside of escapes a plus is read as a space and everything else as itself |
| `QueryString.HexValueExactly` | internal/feed/dedup.go:200 | both cases of a hexadecimal digit have its value, and nothing else does |
| `QueryString.EscapedAlphabet` | internal/feed/dedup.go:200 | an encoded component is written in the unreserved characters, plus and percent (section 2.3 of RFC 3986) |
| `QueryString.ParseAtAmpersand` | internal/feed/dedup.go:200 | the parameters of a query are those before any of its ampersands and those after it |
| `QueryString.ParseOnePiece` | internal/feed/dedup.go:200 | a piece is one parameter, named by what stands before its first equals sign or by all of it; an empty piece, one with a semicolon, and one badly escaped are none |
| `QueryString.BeforeExactly` | internal/feed/dedup.go:200 | names are ordered bytewise at their first difference, the shorter first when there is none |
| `QueryString.SortedIsDetermined` | internal/feed/dedup.go:200 | a list sorted by name is determined by the values it gives each name |
| `QueryString.NormalizeQueryIdempotent` | internal/feed/dedup.go:200 | re-encoding a query keeps every name's values in order, and doing it again changes nothing |
| `QueryString.NormalizeQueryIdentifies` | internal/feed/dedup.go:200 | two queries normalize alike exactly when they give each name the same values in the same order |
| `UrlNormalization.SplitHostText` | internal/feed/dedup.go:181-194 | splitting the host text written for a name and port gives them back, colons in the name included |
| `UrlNormalization.NormalizeIdempotentExactly` | internal/feed/dedup.go:169-203 | normalizing twice is normalizing once exactly when a host name or a non-default port is left |
| `UrlNormalization.KeptPortExactly` | internal/feed/dedup.go:183-185 | a port is dropped exactly when it is 80 under http or 443 under https, whatever the case of the scheme |
| `UrlNormalization.NormalExactly` | internal/feed/dedup.go:180-200 | a URL is its own normal form exactly when scheme and host are in lower case, the host is written plainly without a default port, there is a path and no fragment, and the query is encoded and sorted |
| `UrlNormalization.NormalizeIdentifies` | internal/feed/dedup.go:169-203 | two URLs normalize alike exactly when they agree up to case of scheme and host, default port, empty path, fragment, and order of differently named parameters |
| `UrlNormalization.DefaultPortOnlyHost` | internal/feed/dedup.go:183-194 | `http://:80/x` is accepted once and rejected the second time |
| `Dedup.KeyIndex.Register` | internal/feed/dedup.go:149-157 | a non-empty key ends up bound, to the given article if it was free; every key bound before stays bound as it was, and nothing else is added |
| `Dedup.ResolveCanonical` | internal/feed/dedup.go:95-135 | succeeds exactly when the indexes' owners of the keys agree, with that owner and the strongest reason |
| `Dedup.IndexStep` | internal/feed/dedup.go:137-157 | registering an article's key keeps an index in step with the map-free specification, for every key |
| `Dedup.ResolveOnRanks` | internal/feed/dedup.go:95-135 | comparing indexes into `unique` decides as comparing the articles themselves |
| `Dedup.TurnIsSpecified` | internal/feed/dedup.go:50-67 | what one turn of the loop adds to the outputs and indexes is what the specification adds |
| `Dedup.DeduplicateBy` | internal/feed/dedup.go:42-70 | the loop over three maps returns the specification's retained articles and matches, for any keys |
| `Dedup.DeduplicateArticles` | internal/feed/dedup.go:42-93 | the same for the keys the code computes |
| `Repository.ValidateKeysExactly` | internal/storage/postgres/repository.go:415-433 | the loop over identity keys accepts exactly the lists of known types with non-blank values, and otherwise gives the error of the first that is not |
| `Schema.FingerprintExactly` | internal/storage/postgres/migrations/0001_initial.sql:67-70 | a fingerprint is accepted exactly when it is empty or 64 lower-case hexadecimal digits |
| `Repository.OneMoreKey` | internal/storage/postgres/repository.go:267-271 | although it reads its own writes, the key loop meets exactly the conflicts the tables held at the start |
| `Repository.EnsureIdentityKey` | internal/storage/postgres/repository.go:435-469 | succeeds exactly when the key is free or bound to this article, and then it is bound to it and nothing else changed |
| `Repository.EnsureIdentityKeys` | internal/storage/postgres/repository.go:267-271 | succeeds exactly when all keys were free or bound to this article, and then binds all of them |
| `Repository.EnsureSourceHistory` | internal/storage/postgres/repository.go:471-510 | succeeds exactly when the history id is free or names this article and feed, and adds the row only when free |
| `Repository.Store.UpsertArticle` | internal/storage/postgres/repository.go:191-281 | succeeds exactly when the write is valid, its row is accepted, everything it binds is free or bound the same way, and no call fails; then content and retention are those of the write, times take in the new one, its keys name the article, the history has its row, and nothing else changed; otherwise the committed tables are unchanged and the error names the first thing wrong with the input, a constraint of the row, or a foreign binding |
| `Repository.Store.UpsertUserReference` | internal/storage/postgres/repository.go:68-93 | succeeds exactly when the subject is the known user's own, or free for a new user, and then stores it with the current time; a rejected call changes the tables exactly when it is valid, uninterrupted, names a known user with another subject and the time has moved, and then `updated_at` only; which error is returned |
| `Repository.Store.UpsertFeed` | internal/storage/postgres/repository.go:95-148 | succeeds exactly when the input is valid, no other feed has the normalized URL and the call is not interrupted; then all details are the new ones, first and last times take in the new one, and nothing else changed; otherwise nothing changes; which error is returned |
| `Repository.Store.UpsertSubscription` | internal/storage/postgres/repository.go:150-189 | succeeds exactly when a known id keeps its user and feed, or a new one names an existing pair not yet subscribed, and then stores the row, a known one keeping its creation time; a rejected call changes the tables exactly when it is valid, uninterrupted, names a known id with another pair and brings another `disabled` or time, and then those only; which error is returned |
| `Repository.Store.UpsertArticleState` | internal/storage/postgres/repository.go:325-368 | succeeds exactly for an existing state, or existing user and article, with a position in range (NaN is stopped by the table), and otherwise changes nothing; which error is returned |
| `RepositoryRuns.StepKeeps` | internal/storage/postgres/repository.go:68-281 | every write keeps table integrity and every binding |
| `RepositoryRuns.RunKeeps` | internal/storage/postgres/repository.go:68-368 | so does every run of writes from any consistent tables |
| `RepositoryRuns.EveryRunIsWriteOnce` | internal/storage/postgres/migrations/0001_initial.sql:5-128 | in every run from empty tables and every continuation of it: subjects, normalized feed URLs and subscribed pairs are unique, every key and history row names an article of its own feed, and whatever was bound stays bound the same way |
| `RepositoryRuns.RefusedSubjectMovesUpdatedAt` | internal/storage/postgres/repository.go:80-91 | a user registered with one subject and refused with another keeps the first and gets a new `updated_at` |
| `RepositoryRuns.RefusedPairStoresDisabled` | internal/storage/postgres/repository.go:167-187 | a subscription id asked for with another feed is refused, and its old subscription is disabled |
| `ArticleBatches.WriteAfterWrite` | internal/storage/postgres/repository.go:191-281 | what a successful article write adds to the conditions of the next is exactly consistency of the two |
| `ArticleBatches.BatchSucceedsExactly` | internal/storage/postgres/repository.go:191-281 | a batch succeeds in the order given exactly when each write could be made alone and they are pairwise consistent, a condition free of the order |
| `ArticleBatches.BatchExplained` | internal/storage/postgres/repository.go:237-238 | after a batch, retrieval times are the minimum and maximum over the old row and all writes to the article, and bindings are the old ones and those written |
| `ArticleBatches.OrderDoesNotMatter` | internal/storage/postgres/repository.go:191-281 | every permutation of a consistent batch succeeds and leaves the same bindings and retrieval times |
| `ArticleBatches.LastContentStored` | internal/storage/postgres/repository.go:223-240 | after a batch the content and retention of an article are those of the last write to it |
| `ArticleBatches.FirstHistoryStored` | internal/storage/postgres/repository.go:471-480 | after a batch a new history row is that of the first write under its id |
| `ArticleBatches.UnwrittenUnchanged` | internal/storage/postgres/repository.go:208-242 | articles that a batch does not write are as they were |
| `ArticleBatches.BatchIsRun` | internal/storage/postgres/repository.go:191-281 | a successful batch is a run of the repository, so what runs keep holds of it |
| `XmlDocument.ScanRenders` | internal/feed/parser.go:101-144 | at every accepted point of a stream the open and closed elements render back to the tokens that counted, within the depth and node limits, and nodes are counted by start tokens |
| `XmlDocument.DecodedRenders` | internal/feed/parser.go:92-153 | a decoded document renders to the significant tokens with the missing ends, has depth at most 64 and one node per start token, and the warning is given exactly for unclosed streams |
| `XmlDocument.RoundTripExactly` | internal/feed/parser.go:92-153 | decoding the flattened token stream of a document rebuilds exactly that document without a warning, if and only if it is within both limits |
| `XmlDocument.ScanIgnoresNoise` | internal/feed/parser.go:110-143 | safe directives, comments, stray ends and text outside every element change nothing |
| `XmlDocument.MissingEndsOnlyWarn` | internal/feed/parser.go:149-152 | an unclosed stream decodes like the stream with the missing ends appended, errors included, and differs in the warning only |
| `XmlDocument.DecodeExactly` | internal/feed/parser.go:92-153 | a stream decodes to a document exactly when it holds no unsafe directive, its significant tokens and missing ends spell the document, and the document is within the limits |
| `XmlDocument.ScanFailsExactly` | internal/feed/parser.go:101-144 | scanning fails exactly at the first token that is an unsafe directive, starts an element beyond a limit, or starts a second root, told from the counts of tokens before it, and with that error |
| `XmlDocument.DecodeFailsExactly` | internal/feed/parser.go:92-153 | each error is returned exactly for the streams whose first offending token says so; else malformed text, else a stream without a start token |
| `XmlDocument.UnsafeExactly` | internal/feed/parser.go:111-115 | a directive is refused exactly when it holds DOCTYPE or ENTITY in any mix of letter cases |
| `XmlDocument.DirectiveDecides` | internal/feed/parser.go:111-115 | after an accepted beginning a directive with either word ends the decoding with that error, and any other changes nothing, whatever follows |
| `XmlDecoder.Hang` | internal/feed/parser.go:129-134 | appending a node as last child of the top keeps the stack the open rightmost spine of the tree |
| `XmlDecoder.ReadToken` | internal/feed/parser.go:110-143 | one token takes heap and stack to what the machine's next state says, or fails with its error |
| `XmlDecoder.ClosedRepresents` | internal/feed/parser.go:96-144 | a closed node is the root of a heap tree that is the element node by node, every node hanging in one place only |
| `XmlDecoder.TextInOrder` | internal/feed/parser.go:139-142 | a node's text is its pieces one after the other |
| `XmlDecoder.ElementsInOrder` | internal/feed/parser.go:130-133 | a node's children are its elements in order |
| `XmlDecoder.DecodeTree` | internal/feed/parser.go:92-153 | returns the machine's error, or a heap tree of fresh nodes that is the decoded document, with as many nodes as start tokens, and the machine's warning |
| `Retry.NewClientExactly` | internal/retrieval/client.go:94-130 | which configurations are refused and why; a client keeps all values given and satisfies what the loops rely on; the clients are exactly the valid configurations |
| `Retry.DefaultsExactly` | internal/retrieval/client.go:99-122 | what a client has when nothing is asked for, and that each value left out has it whatever the others are |
| `Retry.Backoff` | internal/retrieval/client.go:316-328 | equals min(maximum, base * 2^(attempt-1)) for every attempt and valid client, with no value on the way outside 64 bits |
| `Retry.BackoffMonotone` | internal/retrieval/client.go:316-328 | the delay is positive, never decreases with the attempt and stays within the maximum |
| `Retry.BackoffDoubles` | internal/retrieval/client.go:316-328 | the first delay is the base, and each next one twice the last until the maximum is reached |
| `Retry.RetryAfterSecondsExactly` | internal/retrieval/client.go:416-435 | a non-negative number of seconds comes out as min(seconds, maximum) exactly when the 64-bit product does not wrap, which is one number of seconds for maxima beyond 9223372036 s |
| `Retry.WrappingClientExists` | internal/retrieval/client.go:427-434 | a client with the longest maximum is accepted, and of three adjacent numbers of seconds the middle one wraps while the others come out as they should |
| `Retry.RetryAfterDateExactly` | internal/retrieval/client.go:436-445 | a date comes out as the difference to now clamped between zero and the maximum, though subtraction saturates |
| `Retry.RetryAfterBounded` | internal/retrieval/client.go:411-447 | the result is within the maximum, -1 exactly for an absent, negative or unparsable header, and below -1 exactly in the wrapping case |
| `Retry.DelayBounded` | internal/retrieval/client.go:211-214 | the delay actually slept lies between zero and the maximum, the wrapping case included |
| `Retry.GoesOnExactly` | internal/retrieval/client.go:203-208 | an attempt is followed by another exactly when it failed in passing (statuses 408, 425, 429, 500, 502, 503, 504 or a transient failure), was not the last, was not cancelled and the sleep succeeded |
| `Retry.EndsExactly` | internal/retrieval/client.go:196-221 | which of the ways out the loop takes at an attempt that is not followed by another |
| `Retry.AskedIsHonoured` | internal/retrieval/client.go:211-214 | the delay after a status failure with a number of seconds or a date is that much up to the maximum, and after anything else, or in the wrapping case, the base doubled for each attempt before up to the maximum |
| `Retry.FetchLoop` | internal/retrieval/client.go:195-221 | between 0 and the configured number of attempts, none after the first that succeeds, is not retryable, or follows a cancellation; each delay is the one asked for by Retry-After or the backoff, in full; each delay and their total bounded; the loop never runs off its end |
| `FetchConcurrency.StepKeeps` | internal/retrieval/client.go:180-220 | every step of every call keeps slot bookkeeping and uses up a measure |
| `FetchConcurrency.SlotsAreSafe` | internal/retrieval/client.go:180-186 | in every interleaving occupied slots are the calls between acquiring and returning, at most the capacity; a call cancelled while waiting took none, a call that returned by any exit took one and gave it back once; attempts are bounded for each call and in total |
| `FetchConcurrency.SomethingCanMove` | internal/retrieval/client.go:181-220 | while a call is unfinished some call can step without a cancellation, a failed sleep or a rejected URL: only an attempt ends a call on the way |
| `FetchConcurrency.EveryRunFinishes` | internal/retrieval/client.go:180-220 | every interleaving has bounded length and stops exactly when all calls returned and all slots are free |
| `MigrationSources.VersionExactly` | internal/storage/postgres/migrations.go:84-110 | the accepted file names are exactly four digits from 0001 to 9999, an underscore, a non-empty subject of lower-case letters, digits and underscores, and `.sql` |
| `MigrationSources.ReadMigrations` | internal/storage/postgres/migrations.go:35-63 | reads all sources in directory order, or fails at the first that has a bad name, repeats a version or is empty |
| `MigrationSources.LoadMigrations` | internal/storage/postgres/migrations.go:26-82 | succeeds exactly when the files are well-formed and carry versions 1 to n once each; then each migration is a file with its version, name and trimmed contents, each file is there, and version i + 1 is at position i; otherwise the error is that of the first bad file, or a gap |
| `MigrationSources.ContiguousExactly` | internal/storage/postgres/migrations.go:69-79 | sorted distinct versions are contiguous from 1 exactly when none exceeds their number |
| `MigrationSources.DirectoryOrderIrrelevant` | internal/storage/postgres/migrations.go:65-67 | the order of the directory does not change the list |
| `MigrationSources.NoOverlap` | internal/storage/postgres/apply.go:119-126 | the two guards leave at least thirteen characters, so the slice is in bounds |
| `MigrationSources.BodyExactly` | internal/storage/postgres/apply.go:116-131 | a body is returned exactly when the trimmed text is something between BEGIN and COMMIT in any case, and it is that something, trimmed and not empty |
| `MigrationSources.BodyOfWrapped` | internal/storage/postgres/apply.go:116-131 | wrapping a trimmed body and taking it out again gives it back |
| `MigrationLedger.NextIsAllowed` | internal/storage/postgres/apply.go:94-102 | on a ledger of versions 1 to n the unique constraints never stand in the way of version n + 1 |
| `MigrationLedger.OneExactly` | internal/storage/postgres/apply.go:58-103 | a turn succeeds exactly when the migration is recorded unchanged or is missing with a proper body, and extends the ledger by exactly that |
| `MigrationLedger.ExtensionIsUnique` | internal/storage/postgres/apply.go:58-103 | what a call may leave is determined by the ledger and the list |
| `MigrationLedger.ApplyMissing` | internal/storage/postgres/apply.go:58-103 | the loop applies exactly the missing migrations in order, or stops at the first that drifted or has no body |
| `MigrationLedger.MigrationStore.Migrate` | internal/storage/postgres/apply.go:22-109 | succeeds exactly when nothing drifted, missing bodies are proper and no call fails; then exactly the missing migrations are applied, each with its own body, and recorded with its name and the checksum of its text; otherwise nothing is committed and the error names the first in the way |
| `MigrationLedger.AgreesExactly` | internal/storage/postgres/apply.go:59-80 | on a ledger that one list agrees with, another agrees exactly when all applied migrations have the same name and trimmed text in both, short of a hash collision |
| `MigrationLedger.EditStops` | internal/storage/postgres/apply.go:71-80 | the first applied migration whose name or text was edited stops every later call with a mismatch |
| `MigrationLedger.SecondRunChangesNothing` | internal/storage/postgres/apply.go:69-81 | a repeated run can succeed and changes nothing |
| `MigratorInterleaving.StepKeeps` | internal/storage/postgres/apply.go:32-108 | every step of every migrator keeps the ledger proper; only a commit changes it, and only by adding |
| `MigratorInterleaving.ExactlyOnceInOrder` | internal/storage/postgres/apply.go:32-108 | in every interleaving bodies are committed once each in version order, the committed record only grows, and a migrator that succeeded finds all its migrations there with its names and checksums |
| `MigratorInterleaving.OneAtATime` | internal/storage/postgres/apply.go:40-42 | at most one migrator is past the lock |
| `MigratorInterleaving.SuccessfulListsAgree` | internal/storage/postgres/apply.go:69-81 | any two migrators that succeed agree on name and checksum of every version they have in common |
| `MigratorInterleaving.DriftNeverSucceeds` | internal/storage/postgres/apply.go:71-80 | a migrator whose list differs from a committed row never succeeds afterwards |
| `MigratorInterleaving.NoDriftWithinOneHistory` | internal/storage/postgres/apply.go:58-103 | when lists extend one another, the record is always the longest list up to some version and no migrator holding the lock is stopped by drift, body or constraint |
| `MigratorInterleaving.WholeHistoryApplied` | internal/storage/postgres/apply.go:58-108 | once a migrator with the longest list has succeeded, the record is that list for good |
| `MigratorInterleaving.SomeoneCanMove` | internal/storage/postgres/apply.go:40-108 | while a migrator is unfinished some migrator can step, and without failing unless it has met drift or a bad body |
| `MigratorInterleaving.EveryRunFinishes` | internal/storage/postgres/apply.go:32-108 | every interleaving has at most plan length + 3 steps per migrator, and stops exactly when all have succeeded or failed and the lock is free |

## Left out

Of the deduplication code:

- The model's spaces and letter cases are ASCII; the original also treats Unicode spaces and case mappings.
- URL parsing and printing, SHA-256 and time formatting are parameters (`ArticleKeys.Library`). Each exact result
  names what it assumes of them: that formatted times are lines that tell times apart and digests have 64 digits
  (`TellsTimes`), that the two texts at hand are no hash collision (`NoCollision`), that parsed URLs are byte strings
  and printing shows them and tells the two at hand apart (`ReadsURLs`, `PrintsApart`), and that normalized URLs hold
  no bar (`EscapesAndDigests`).
- Hosts are taken as URL parsing delivers them, with brackets only around the whole name; `path` stands for
  the path in whichever escaping it arrived; the limit on the number of query parameters is not modelled.
- Go groups query values in a map and prints it by sorted name; the model sorts pairs stably by name.

Of the repository:

- Reads (`ArticleByID`, `ArticleStateForUser`) are field-by-field copies; opening and closing the pool is plumbing.
- A transaction is an atomic working copy and repository calls come one at a time: interleaved article
  writes inside PostgreSQL, and a commit that fails after taking effect, are not modelled.
- `created_at` columns (except a subscription's) and the articles' `updated_at` are not modelled; timestamps
  are exact instants, not rounded to microseconds; texts PostgreSQL cannot store are not excluded.
- The not-blank checks of the tables are implied by the validation before each statement and not repeated.

Of the XML tree builder:

- The tokenizer is not part of this model: the token stream, and whether it ended well, is the input.
- `DecodeTree` keeps ghost records on nodes (the closed element, the parent and position) that the original
  has no counterpart for; its loop body is split into methods.
- Picking RSS and Atom fields out of the tree is a series of one-branch lookups.

Of retrieval:

- Trimming and parsing the Retry-After text is an input (`Retry.Header`).
- Destination policy, dialing, TLS, redirects, request headers and response fields are left out; an attempt's
  outcome is arbitrary. The configuration's non-numeric fields are left out.
- In `FetchConcurrency` outcomes, cancellations and sleeps are nondeterministic, so it does not say which
  attempt ends a call; `Retry.FetchLoop` does.

Of the migrations:

- Bodies are assumed to hold no transaction control of their own; what a body does to the schema is the
  record that it was run.
- Errors reading embedded files are left out; `sort.Slice` is a specification function, not its algorithm.
- The ledger's check that a checksum is 64 hexadecimal digits holds of every SHA-256 and is not repeated.

The HTTP server, its capability and health handlers and `main` are static responses and plumbing.
