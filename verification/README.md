# Verified core of project memory capture

A Dafny model of the parts of the system where a mistake loses data or misattributes it: the durable
capture store, the two clusterings, wiki consolidation, statement revision, Markdown chunking, transcript
authorship, JSON extraction, dates, the warm process pool, claim clusters and overlap masking.

| modules | subject |
|---|---|
| `CaptureModel`, `CaptureRuns`, `CaptureSafety`, `CaptureIds`, `CaptureCommit`, `CaptureStore` | the capture store: a machine of interleaved workers with a crash after any durable write, and the store as a class |
| `Connectivity`, `AliasClusters`, `DoctorClusters` | union-find as the connected components of a threshold graph, for nouns and for guides |
| `CitationMarkers`, `LinkRemap`, `DoctorMerge`, `DeadLinks`, `Redirects` | the citation scanner, link rewriting, the merge guard and the write phase of the wiki doctor |
| `Publishing`, `Utf8Text`, `VisibleText`, `SeeAlsoSections`, `CarriageReturns`, `HiddenTwice`, `PublishedTwice` | what saving a guide does to its body: comments, the section it drops, saving again |
| `SavedMarkers`, `LostCitations` | which citations saving keeps, and wikis that lose one |
| `Sentences`, `Statements`, `StatementLines`, `Revisions`, `Supersede` | statement spans and right-to-left revision |
| `Sections`, `Splitter`, `Packer` | heading paths, semantic splitting and overlapping chunks |
| `TranscriptRoles`, `JsonBlob`, `CivilDate` | authorship of lines, JSON extraction, the calendar and monotone date stamps |
| `WarmPool`, `PoolHistory`, `ClaimClusters`, `OverlapMask` | refill tasks over a shared pool and where its children end up, running centroids, the two-pass line mask |
| `Prelude`, `Strings`, `Text` | options and results, the order of strings, trimming, words, lines and searching |

Files, git and the inbox are maps and a linear history; digests, embeddings, cosine, model answers, lower-casing and
the age of a process are arbitrary functions or parameters. Methods carry the loops and the updates in place of the
source and are tied by their contracts to functions or relations, about which the lemmas speak. The statement of a
result never assumes that digests are free of collisions.

Where something the source promises is false of it, the model keeps the code, gives an input and says when it holds:

- `CrashLeaves`, `StagedCrashBlocksForever`: a crash between `git add` and commit stops every later capture.
- `NeverLostIffEnabled`: disabling capture discards inbox entries.
- `NothingLostIff`, `SavingCanLoseACitation`: the doctor's guard runs before a guide is saved, and saving may drop a
  See Also section that holds a citation. Nothing is lost exactly when no citation is left in such sections alone.
- `KeepsMarkersIffPlain`, `SlugCanLoseACitation`: rewriting the links to a slug keeps all citations exactly when a link
  to it holds no citation marker itself.
- `TextGoesIff`, `CarriageReturnsCutProse`, `ShownSectionLosesHeading`: the offsets count no carriage returns. Text that is
  no empty See Also section goes exactly when nothing shows in the part that is scanned and either a carriage return
  precedes the heading and the stretch is not white space, or none does and the section shows text, all of it in as many
  last bytes as there are carriage returns in the section.
- `HidingTwiceIff`, `NestedMarkerIsHiddenTwice`: hiding again changes a hidden text exactly when a marker that was
  wrapped holds another one that a closing mark in it brings out of the comment.
- `PublishedTwiceIff`, `UndroppedTwiceIff`, `TwoEmptySections`: publishing again changes a published body exactly when it
  has a bare marker or dropping changes it, as with two empty See Also sections.
- `NulMergesIds`: capture ids tell captures apart as long as no name holds a NUL.
- `YoungestIffInOrder`, `OlderChildIsTaken`: a checkout pops the child added last, which is the youngest exactly if refill
  tasks end in the order in which they spawned.
- `CrashBeforeLog`, `CrashBeforeMap`: an append of a claim is not one transaction.

## Model

| member | source | states |
|---|---|---|
| CaptureRuns.CommitOfIsTrailer | src/capture_store.rs:391-424 | in the histories the store makes, the newest commit that touched a manifest is the one whose trailer names it |
| CaptureSafety.StepKeeps | src/capture_store.rs:617-690 | every step of every worker, enqueuer, editor or crash keeps the invariant and takes nothing durable back |
| CaptureSafety.RunKeeps | src/capture.rs:2414-2439 | so does every run |
| CaptureSafety.AtMostOneCommit | src/capture_store.rs:617-690 | over every interleaving with crashes, no capture id has two commits |
| CaptureSafety.EnqueuedIsNeverLost | src/capture.rs:2978-3018 | with capturing enabled, in every reachable state an enqueued capture is in the inbox, fit to be loaded, or committed with a manifest of its own session, harness and transcript, unless an enqueued capture with another of these has its id and is committed |
| CaptureSafety.InboxIsLoadable | src/capture_store.rs:246-270 | in every reachable state each inbox entry passes all checks of loading |
| CaptureIds.MessagesTellApart | src/project_store.rs:699-716 | without NUL in the names, what is digested for an id is the same exactly for the same project, harness, session and transcript, for any encoding that loses nothing |
| CaptureIds.SameIdMeans | src/project_store.rs:699-716 | two captures share an id if and only if they are the same one or two texts have digests that agree in 32 digits |
| CaptureIds.ClashIsACollision | src/capture_store.rs:126-142 | so two enqueued captures that clash in a reachable state are such an agreement of two digests |
| CaptureIds.NulMergesIds | src/project_store.rs:706-713 | with a NUL in a name, two captures with different harness and session always share an id |
| CaptureSafety.CommittedNeverChanges | src/capture_store.rs:483-545 | committed objects and manifests keep their bytes in the work tree and in all later commits |
| CaptureSafety.ParentsAreAcyclic | src/capture_store.rs:642-663 | the parent graph of the manifests has no cycle in any reachable state, manifests left by crashes included |
| CaptureSafety.VerifiedUnlessStaged | src/capture_store.rs:463-578 | in a reachable state verification accepts exactly the stores with nothing staged |
| CaptureCommit.PutObjectsStores | src/capture_store.rs:92-124 | writing a snapshot's objects succeeds exactly when no path meets other bytes, and then every object holds its bytes |
| CaptureCommit.SnapshotOutcome | src/capture_store.rs:634-690 | a fresh snapshot commits exactly when no digest clashes, with or without files |
| CaptureCommit.FreshCommit | src/capture_store.rs:634-690 | it adds one commit with every object and one new manifest, which describes the request and names the capture of the commit before as its parent, and touches neither inbox nor workspace |
| CaptureCommit.MaterializeAfterCommit | src/capture_store.rs:711-757 | round trip: materializing after a fresh commit yields the workspace without its derived files, for any digest function |
| CaptureCommit.MaterializeUntilNextCommit | src/capture_store.rs:711-757 | and so it does in every reachable state with that history, whatever was written, edited or left by crashes since |
| CaptureCommit.MaterializesOnlySound | src/capture_store.rs:711-757 | from any store, sound or not, what is materialized is this project's newest capture, and each file has the digest its manifest names |
| CaptureCommit.RecommitFindsFirstCommit | src/capture_store.rs:617-633 | committing again returns the first commit and changes nothing, whatever the workspace holds by then |
| CaptureCommit.RecoveryCompletes | src/capture_store.rs:617-690 | after a crash before staging, a retry commits if and only if no digest or identity clashes |
| CaptureCommit.OutcomeMeansCommitted | src/capture_store.rs:617-690 | an outcome means that the capture is committed as its own at that place; where another capture holds the id nothing changes, and no failure adds a commit |
| CaptureCommit.StagedCrashBlocksForever | src/capture_store.rs:496-502 | once a worker has died with files staged, no run adds a commit, a manifest or an object |
| CaptureCommit.CrashLeaves | src/capture_store.rs:496-502 | a crash of the lock holder leaves a store blocked for good exactly when the index differs from the head, and else one that verifies; before staging never, after the manifest is staged always, between the two if the objects added something |
| CaptureCommit.NeverLostIffEnabled | src/capture.rs:2593-2603 | every run keeps every capture, in the inbox or committed as above, if and only if capturing is enabled |
| CaptureCommit.TransactionIsARun | src/capture_store.rs:617-690 | the transaction as a whole is a run of the machine's steps, with the same disk and outcome |
| CaptureStore.MeetingTwice | src/capture_store.rs:546-577 | meeting an ancestor twice on the parent walk proves a cycle |
| CaptureStore.WalkParents | src/capture_store.rs:560-577 | the walk with a seen set ends, and reports a cycle only if there is one; otherwise the start is not its own ancestor |
| CaptureStore.NoParentCycle | src/capture_store.rs:546-577 | the walks from all manifests accept exactly the acyclic parent maps |
| CaptureStore.CheckManifests | src/capture_store.rs:349-389 | manifests are accepted exactly when each meets every integrity condition |
| CaptureModel.ComponentsMean | src/capture_store.rs:330-339 | the components of a path are the one sequence of parts without a slash that slashes join to the path |
| CaptureModel.IdIsOneName | src/capture_store.rs:63-73 | a valid id is a single path component, not `.` or `..`, and not one that snapshots leave out |
| CaptureModel.CanonicalUnlessDerived | src/capture_store.rs:440-454 | a file is captured unless its path has `.git` between slashes or ends, is one of four names, or has one of two endings |
| CaptureStore.CollectWorkspace | src/capture_store.rs:426-461 | any walk order gives the canonical files in path order |
| CaptureStore.ProjectStore.EnqueueCapture | src/capture_store.rs:126-200 | creates the entry with this transcript, its checksum, session, harness and project, accepts an identical one, fails on another, also one from another worktree, and then changes nothing |
| CaptureStore.ProjectStore.LoadInboxCapture | src/capture_store.rs:246-270 | loads exactly the entries with a valid id, matching identity and matching checksum |
| CaptureStore.ProjectStore.VerifyImmutableObjects | src/capture_store.rs:463-578 | accepts exactly the verified stores |
| CaptureStore.ProjectStore.CommitWorkspaceCaptureLocked | src/capture_store.rs:617-690 | state and outcome are those of the transaction of the machine |
| CaptureStore.ProjectStore.MaterializeLatest | src/capture_store.rs:692-757 | rebuilds the workspace of the newest capture, or fails and leaves the workspace alone |
| Connectivity.LinkedAddEdge | src/alias.rs:193-238 | what one more edge connects: exactly the pairs that pass from one of its ends to the other |
| Connectivity.AttachKeepsForest | src/doctor.rs:125-139 | hanging one root below another unites exactly their two classes, in either direction |
| Connectivity.CompressKeepsForest | src/alias.rs:158-170 | path compression changes no class |
| AliasClusters.DisjointSet.Find | src/alias.rs:158-170 | terminates, returns the root, keeps the partition, and parents never grow |
| AliasClusters.DisjointSet.Union | src/alias.rs:172-179 | the smaller root wins and exactly two classes are united |
| AliasClusters.UniteSimilar | src/alias.rs:193-215 | after the nested loops the classes are the connected components of the similarity graph |
| AliasClusters.RootIsLeastKey | src/alias.rs:217-229 | the key of a root is the smallest key of its component |
| AliasClusters.ClusterNouns | src/alias.rs:193-238 | each noun gets the smallest key of the component of its key, with token similarity |
| AliasClusters.JaccardMeans | src/alias.rs:138-147 | the similarity is symmetric, the part of the tokens that are shared, 1 exactly for equal token sets and 0 exactly for disjoint ones |
| Text.WordIsWhole | src/alias.rs:138-147 | text without white space is one word, whole |
| Text.WordsKeepText | src/alias.rs:138-147 | no word is empty or holds white space, and the words one after the other are the text without its white space |
| Text.WordsAcross | src/context_overlap.rs:475-480 | white space separates: the words of both sides |
| AliasClusters.SameIdIffLinked | src/alias.rs:193-238 | two nouns share an id if and only if a chain of similar keys connects theirs |
| AliasClusters.IdIsSmallestKey | src/alias.rs:217-238 | an id is the key of a noun of its cluster and no key of the cluster is smaller |
| AliasClusters.OrderDoesNotMatter | src/alias.rs:193-238 | order and repetition of the input do not matter |
| AliasClusters.HigherThresholdRefines | src/alias.rs:203-215 | a higher threshold only splits clusters |
| AliasClusters.ExactGroupingAtOne | src/alias.rs:203-215 | with a threshold of one or more, nouns cluster exactly by equal keys |
| DoctorClusters.UfFind | src/doctor.rs:103-116 | terminates although parents are not ordered, returns the root and keeps the partition |
| DoctorClusters.LinkGuides | src/doctor.rs:125-141 | after all comparisons the classes are the components and every similarity is recorded |
| DoctorClusters.LowestPair | src/doctor.rs:150-163 | the cohesion floor is the least similarity of the group, at most one |
| DoctorClusters.ClusterByCosine | src/doctor.rs:125-168 | exactly the components of two guides or more, each with sorted slugs and its floor, larger ones first |
| DoctorClusters.TogetherIffLinked | src/doctor.rs:125-168 | two guides share a cluster if and only if a chain of similar pairs connects them |
| DoctorClusters.GroupsAreDisjoint | src/doctor.rs:142-163 | no guide is in two clusters |
| DoctorClusters.HigherThresholdRefines | src/doctor.rs:125-168 | every cluster at a higher threshold lies within one at the lower threshold |
| DoctorClusters.ResultIsDetermined | src/doctor.rs:142-168 | for distinct slugs the result does not depend on hash-map order |
| CitationMarkers.ListingHolds | src/doctor.rs:204-226 | the listing by start holds exactly the marker substrings |
| CitationMarkers.ForEachMarker | src/doctor.rs:204-226 | the skipping scan calls back for every marker, duplicates included, in order |
| CitationMarkers.DistinctMarkers | src/doctor.rs:189-195 | the set of all marker substrings |
| CitationMarkers.MarkersGrow | src/doctor.rs:352-368 | appending text loses no marker |
| CitationMarkers.MarkersAcross | src/doctor.rs:352-368 | text joined by a line break or a space has the markers of both parts and no other |
| CitationMarkers.ReplaceKeepsMarkers | src/doctor.rs:429-441 | rewriting a bracketed link that holds no marker neither destroys nor invents one |
| LinkRemap.RemapLinkKeepsMarkers | src/doctor.rs:429-441 | the four link forms keep exactly the markers when links to either slug hold none |
| LinkRemap.KeepsMarkersIffPlain | src/doctor.rs:429-441 | remapping a slug keeps the markers of every body if and only if it is remapped to itself or a link to it holds none |
| LinkRemap.RemapSeeAlso | src/doctor.rs:429-441 | in whatever order the map is walked, every slug is remapped once, and the markers stay when the slugs allow it |
| Publishing.HideBareCitationMarkers | src/wiki.rs:1334-1370 | the scan by characters wraps each bare marker outside comments, on every well-formed text |
| Publishing.HidingKeepsMarkers | src/wiki.rs:1334-1370 | hiding neither destroys nor invents a marker |
| Publishing.StripEmptySeeAlso | src/wiki.rs:1377-1450 | the loops drop the section that the definition drops |
| Utf8Text.EncodedIsUtf8 | src/wiki.rs:1334-1370 | the bytes of every text are what the scan by characters expects |
| Utf8Text.TrimmedBytes | src/wiki.rs:1372-1450 | trimming bytes is trimming the text they encode, for the white space of Unicode, and bytes count as empty exactly if the text is blank |
| Utf8Text.LinesByText | src/wiki.rs:1267-1278 | which lines open See Also and which are headings, by their letters in either case |
| Utf8Text.ClosingText | src/wiki.rs:1440-1450 | around a dropped section the text before stays without white space at its end, and the text after as it is unless it is blank, behind an empty line and on a line that ends |
| SavedMarkers.MarkersOfSaved | src/wiki.rs:644-658 | a saved body has exactly its markers, but for those in a dropped section alone |
| SavedMarkers.SavingKeepsMarkersIff | src/wiki.rs:644-658 | saving keeps all markers if and only if none stands in a dropped section alone, and makes none |
| VisibleText.ContentIsVisibleText | src/wiki.rs:1400-1438 | the scan by lines with its carried flag finds content if and only if some line of the section has, outside every comment, more than white space |
| SeeAlsoSections.HeadingIsFoundAt | src/wiki.rs:1267-1278 | the first See Also heading is found at its place less one for each carriage return at the end of a line before it, so where it is if and only if there is none |
| SeeAlsoSections.SectionIsFoundTo | src/wiki.rs:1382-1394 | the section is found to end at the next heading less the carriage returns up to it, or with the text |
| SeeAlsoSections.StretchIsSectionIff | src/wiki.rs:1377-1394 | the counted stretch is the section if and only if neither count falls behind |
| SeeAlsoSections.DropsCountedStretch | src/wiki.rs:1377-1450 | for every body, what is dropped is exactly the counted stretch of the first See Also section, and only if nothing in it is visible |
| SeeAlsoSections.DroppedIffNothingShows | src/wiki.rs:1395-1438 | the counted stretch goes if and only if nothing in it after its first line is visible, and nothing else goes |
| SeeAlsoSections.HarmlessIff | src/wiki.rs:1372-1376 | with a carriage return before the heading the stretch lies before it and is harmless if and only if it is white space; without one it starts the section and is harmless if and only if the whole section shows no text |
| SeeAlsoSections.TextGoesIff | src/wiki.rs:1372-1450 | so for every body with the heading: the exact condition under which text goes that is no empty See Also section |
| SeeAlsoSections.StretchExists | src/wiki.rs:1377-1394 | every body with the heading has such a stretch, and one without keeps its text |
| SavedMarkers.LostIffOnlyInDropped | src/wiki.rs:1327-1329 | for every body, a marker is lost if and only if it stands only in the counted stretch and nothing in that is visible |
| HiddenTwice.HidesNothingIff | src/wiki.rs:1334-1370 | hiding changes a text if and only if there is a bare marker in it |
| HiddenTwice.HidingTwiceIff | src/wiki.rs:1331-1333 | for every text, hiding twice is hiding once if and only if no wrapped marker has a bare marker in it, read as the inside of a comment |
| HiddenTwice.NoCloseNoMarker | src/wiki.rs:1331-1333 | a marker without a closing mark has none |
| HiddenTwice.NestedMarkerIsHiddenTwice | src/wiki.rs:1331-1333 | a text that hiding changes again |
| HiddenTwice.HidingOnlyWraps | src/wiki.rs:1334-1370 | every text is copied but for bare markers, which get a comment around them: nothing else is added, lost or moved |
| PublishedTwice.DroppingUndoesNoHiding | src/wiki.rs:1327-1329 | dropping a section never undoes what hiding did to a text |
| PublishedTwice.PublishedStaysIff | src/wiki.rs:1315-1329 | for every text, publishing changes nothing if and only if it has no bare marker and dropping changes nothing |
| PublishedTwice.PublishedTwiceIff | src/wiki.rs:1315-1329 | for every body, publishing twice is publishing once if and only if that holds of the published body |
| PublishedTwice.UndroppedTwiceIff | src/wiki.rs:1315-1329 | for a body that loses no section, if and only if no marker in it has a bare marker in it, read as the inside of a comment |
| PublishedTwice.StrippedStaysIff | src/wiki.rs:1377-1450 | where no carriage return precedes the heading, dropping changes nothing if and only if no section is dropped |
| PublishedTwice.PublishedTwiceWithoutReturns | src/wiki.rs:1315-1329 | without carriage returns, if and only if the published body has no bare marker and no section to drop |
| PublishedTwice.TwoEmptySections | src/wiki.rs:1372-1376 | a body that publishing changes again: each time one of two empty sections goes |
| SavedMarkers.ReplyLosesMarker | src/wiki.rs:1327-1329 | for every marker and every line of prose, a trimmed body that saving strips of its marker |
| CarriageReturns.CarriageReturnsCutProse | src/wiki.rs:1267-1278 | offsets count no carriage returns, so the last character of the prose is cut, whatever See Also holds |
| CarriageReturns.ShownSectionLosesHeading | src/wiki.rs:1372-1394 | a section that shows text, with no line before it, loses its heading |
| DoctorMerge.PickCanonical | src/doctor.rs:232-249 | no guide of the cluster beats the chosen one: it is newest, of these last verified, of these longest, and of these the one of least slug |
| DoctorMerge.CarryForward | src/doctor.rs:355-368 | the appended section is found again: exactly the missing markers are added |
| DoctorMerge.GuardCitations | src/doctor.rs:341-368 | whatever the model wrote, the body cites its sources' markers and the model's own, no others, and keeps the text |
| DoctorMerge.MergeCluster | src/doctor.rs:335-407 | fails only if the call failed; otherwise markers, tags, sources, dates, canonical slug and absorbed slugs of the merge |
| DoctorMerge.ClusteringSharesNone | src/doctor.rs:125-168 | clustering distinct slugs puts no slug in two clusters, which the write phase relies on |
| DoctorMerge.MergeConfirmed | src/doctor.rs:544-596 | refused and failed clusters are skipped; each other one is recorded as one merge |
| DoctorMerge.WriteWiki | src/doctor.rs:598-619 | every guide not absorbed is written: merged if it was, its links rewritten, its body as saving publishes it |
| DoctorMerge.Consolidate | src/doctor.rs:544-619 | untouched guides stay, each merged cluster becomes one guide, absorbed ones are gone, links to them are rewritten in some order, and what is written is the published form of these |
| DoctorMerge.OneIsLeft | src/doctor.rs:544-596 | a cluster with two guides that the model agreed to merge and wrote a text for leaves exactly one of them, and all links of the others go there |
| DoctorMerge.RefusedStay | src/doctor.rs:544-596 | the guides of a cluster that was refused or whose call failed stay |
| DoctorMerge.PlainSlugsSuffice | src/doctor.rs:544-619 | with slugs whose links hold no marker, the rewriting keeps all markers, as the next results need |
| DeadLinks.MakesNoLink | src/doctor.rs:429-441 | replacing a link form by the same form of another slug makes no link that was not there |
| DeadLinks.LeavesNoLink | src/doctor.rs:429-441 | for slugs without brackets, bars and slashes, remapping leaves no link of any form to the slug |
| DeadLinks.RemapAllLeavesNone | src/doctor.rs:429-441 | in whatever order the slugs are remapped, no link to any of them is left |
| DeadLinks.NoDeadLinks | src/doctor.rs:598-619 | so no guide that is written links to an absorbed one, neither what is handed to the writer nor what is saved |
| Redirects.RemapAllRedirects | src/doctor.rs:429-441 | for every body of text and links to clean slugs, and any order of the slugs, each link follows its slug once, in its form, and every other character stays |
| Redirects.LinksFollow | src/doctor.rs:598-619 | so relinking a guide turns each link to an absorbed slug into the same form of link to the one that stands for it, whatever the order |
| DoctorMerge.EveryGuideIsCarried | src/doctor.rs:544-619 | for any answers, all sources and tags of each input guide are together on one saved guide, with exactly those of its markers that saving does not drop |
| DoctorMerge.CitationsPreserved | src/doctor.rs:544-619 | what is handed to the writer cites every marker of the input, and beyond that only what a model answer holds; the saved wiki cites of that exactly what stands outside dropped sections |
| DoctorMerge.NothingLostIff | src/doctor.rs:598-619 | the saved wiki cites all that the input cited if and only if no citation is left in dropped sections alone |
| LostCitations.SavingCanLoseACitation | src/doctor.rs:341-368 | for every marker, two guides and an answer with which the guard finds nothing missing and the saved wiki has lost the marker |
| LostCitations.SlugCanLoseACitation | src/doctor.rs:429-441 | for every slug whose links hold a marker, a wiki that cites it and cites nothing after the slug is absorbed |
| Sentences.StripInlineMarkers | src/cross_supersede.rs:234-253 | the cursor loop drops everything from an opened marker to the next closing bracket |
| Sentences.FindSegments | src/cross_supersede.rs:145-178 | the cursor loop, which skips ahead, cuts where the position-by-position definition does |
| Sentences.SegmentsEndWhereSentencesDo | src/cross_supersede.rs:149-178 | segments end exactly behind `.`, `?` or `!` and closing marks, where white space and then a capital letter or a backtick follow |
| Sentences.StripMeans | src/cross_supersede.rs:234-253 | a text without `[^` is left alone; of the first one everything up to the next closing bracket goes, or nothing if there is none |
| Sentences.SentencesEndAtLong | src/cross_supersede.rs:180-208 | a sentence ends before the end of its paragraph exactly with a segment of four words or more that is not the last such |
| Sentences.SentencesTile | src/cross_supersede.rs:145-222 | sentences are in order and disjoint, and only white space lies between them |
| Sentences.GroupsHoldLong | src/cross_supersede.rs:180-197 | each merged sentence runs up to a segment of at least four words |
| Sentences.MergeShort | src/cross_supersede.rs:180-208 | short segments go to the next sentence, a trailing one to the last |
| Sentences.SplitSentences | src/cross_supersede.rs:145-222 | each span lies in the body and its text is exactly that part of the body |
| Statements.SplitStatements | src/cross_supersede.rs:71-137 | the line loop yields the prose sentences of the paragraphs of the body |
| Statements.ProseLineMeans | src/cross_supersede.rs:107-134 | a line counts as prose exactly by its own kind and the nearest heading above it |
| Statements.ParagraphsHoldProse | src/cross_supersede.rs:83-137 | paragraphs are in order and hold exactly the prose lines, up to white space at their ends |
| Statements.SentencesPartitionProse | src/cross_supersede.rs:71-137 | every character of a prose line that is not white space is in exactly one sentence, and no other line is touched |
| Statements.StatementsAreExact | src/cross_supersede.rs:71-137 | statements are the sentences that qualify, strictly ordered, disjoint, in bounds, with exact text |
| StatementLines.KindMeans | src/cross_supersede.rs:111-128 | what each kind of line looks like: a heading by its mark, See Also by its letters in either case, a comment by its opener |
| StatementLines.TouchesExactlyProse | src/cross_supersede.rs:67-137 | by the text alone: no statement or sentence touches a heading, a comment line, a blank line or a line whose nearest heading above is See Also; every character but white space of any other line is in exactly one sentence; the statements are the sentences of three words or more |
| Revisions.SortDescending | src/cross_supersede.rs:529-530 | the edits by falling start, those of the same start in the order they came in |
| Revisions.StableSortUnique | src/cross_supersede.rs:529-530 | that determines the order |
| Revisions.ApplyRevisions | src/cross_supersede.rs:529-538 | the edits in turn by falling start, and for disjoint spans in any order that is simultaneous substitution |
| Revisions.SpanRevisedTwice | src/cross_supersede.rs:529-538 | of two revisions of one span, the one that came second is followed by the rest of the other |
| Revisions.LeftToRightUnique | src/cross_supersede.rs:529-538 | the order of substitution is determined by the edits |
| Revisions.OutsideUnchanged | src/cross_supersede.rs:529-538 | a byte outside every span is in the result, moved by what the spans before it gained |
| Revisions.NewTextIsThere | src/cross_supersede.rs:529-538 | the guard skips no edit: every new text is in the result |
| Supersede.EncodeReplaced | src/cross_supersede.rs:529-538 | replacing a span of characters is replacing the span of their bytes, for any encoding |
| Supersede.RevisionKeepsWording | src/cross_supersede.rs:515-524 | a revision starts with the new truth, and the old wording stays inside the note, before the slug of the guide that supersedes it |
| Supersede.SplitIsInOrder | src/cross_supersede.rs:71-137 | the statements of any body are exact, in order and disjoint, as the revision round needs |
| Supersede.EditsAreDisjoint | src/cross_supersede.rs:725-741 | revising each statement at most once gives the disjoint spans that the edits need |
| Supersede.RoundKeepsWording | src/cross_supersede.rs:725-741 | after a round the old and the new wording of every revised statement, the slug it comes from and all other text are there |
| Sections.HeadingOnPath | src/chunker.rs:60-79 | popping the heading stack leaves exactly the headings that still enclose what follows |
| Sections.MarkdownSections | src/chunker.rs:53-90 | the sections are the maximal runs of body blocks, in order, none left out, each under the headings that enclose its place |
| Sections.EveryBodyUnderItsHeadings | src/chunker.rs:53-90 | every body block is in exactly one section, at its own place, and the section carries exactly the headings that enclose the block |
| Sections.HeadingPathIsDetermined | src/chunker.rs:60-79 | a place has one heading path, so a section can carry no other |
| Utf8Text.LenIsBytes | src/chunker.rs:374-410 | the length that budgets are compared with is the number of bytes of the text in UTF-8 |
| Splitter.FittingIsLongest | src/chunker.rs:404-410 | the window is the longest prefix within the byte budget |
| Splitter.LastSentenceBoundary | src/chunker.rs:416-427 | the forward scan finds the last sentence end of the window |
| Splitter.CutIsBest | src/chunker.rs:412-434 | the cut is the last one of the best kind there is, and inside a token only if the window is one |
| Splitter.PartsEndAtBestCuts | src/chunker.rs:374-402 | each part ends at the best cut of the window on what was left before it, the next one starts after white space only, and what fits is the last part |
| Splitter.Step | src/chunker.rs:383-398 | each cut is positive, so the loop ends; the part fits and no character is lost |
| Splitter.PartsKeepText | src/chunker.rs:374-402 | the parts together keep exactly the characters other than white space, in order |
| Splitter.PartsFit | src/chunker.rs:374-402 | each part is non-empty, trimmed and at most the budget or one character |
| Splitter.SplitAtSemanticBoundaries | src/chunker.rs:374-402 | the loop over the shrinking remainder yields those parts |
| Packer.JoinedLenIsLength | src/chunker.rs:282-284 | the length computed for joined units is the length of the text they are joined to |
| Packer.OverlapUnits | src/chunker.rs:263-280 | the overlap is the longest suffix of complete units within its budget |
| Packer.PackUnits | src/chunker.rs:214-240 | the groups are windows over the units: each full when closed, each resuming as the overlap rule says |
| Packer.KeptMeans | src/chunker.rs:219-222 | the units packed are exactly those that are not blank, in order |
| Packer.FollowingWindow | src/chunker.rs:214-240 | windows start later, end later and leave no gap; what they share is empty or the longest suffix that fits |
| Packer.WindowsCover | src/chunker.rs:214-240 | every unit that is not blank is in some window |
| Packer.ChunkSection | src/chunker.rs:199-261 | the chunks are the renderings of those windows under the heading path |
| Packer.GroupsAreChunks | src/chunker.rs:241-261 | each group with substance has its heading path and joined units as a chunk, in the order of the groups; it shares the chunk before only if that shows the same, and there are no other chunks |
| Packer.UnitsAreChunked | src/chunker.rs:199-261 | so every unit that is not blank is in a group, and in a chunk as soon as that group has substance |
| Packer.BudgetIsLargest | src/chunker.rs:199-212 | the units get what the headings leave of the target, never less than 32, and the overlap at most half of that |
| Packer.ClosedChunkIsFull | src/chunker.rs:224-227 | a chunk is closed only if with the next unit it would exceed the target |
| Packer.ChunkFitsTarget | src/chunker.rs:199-213 | a chunk is within its target, or within the heading path and the least budget, or a single unit |
| Packer.SplitRows | src/chunker.rs:332-360 | every row is in one table, in order, and each table fits the budget or has one row |
| TranscriptRoles.AllOwned | src/capture.rs:368-380 | the pieces of the transcript are the lines of the turns with the separators between them |
| TranscriptRoles.TranscriptReads | src/capture.rs:368-380 | the transcript is the turns in order, each behind `User: ` or `Assistant: `, with an empty line between them |
| TranscriptRoles.LinesAndOwners | src/capture.rs:381-411 | there is a role for every line, and one more exactly when the last turn ends with a line break, so padding never happens |
| TranscriptRoles.BuildLineRoles | src/capture.rs:368-411 | one role per line: that of the turn that wrote it, or of the turn before a separator |
| TranscriptRoles.AuthorForRanges | src/capture.rs:599-611 | the role at the first range that starts inside the transcript, else the agent |
| TranscriptRoles.AuthorityOf | src/capture.rs:1579-1584 | explicit if and only if the first such range starts in a line a user turn owns |
| JsonBlob.ScanToClose | src/capture.rs:1177-1200 | the scan returns at the first position that closes the first bracket |
| JsonBlob.ExtractJsonBlob | src/capture.rs:1159-1204 | the balanced piece at the first opener of the response, with and without its fences |
| JsonBlob.FencesDoNotMatter | src/capture.rs:1160-1171 | whatever the response is, stripping white space and code fences changes nothing about what is found |
| JsonBlob.ValuePasses | src/capture.rs:1177-1200 | a JSON value inside the outer bracket leaves the depth as it found it, though other brackets are not counted |
| JsonBlob.WholeValueFound | src/capture.rs:1173-1200 | scanning a printed array or object returns at its last character, whatever follows |
| JsonBlob.PrintedReads | src/capture.rs:1155-1157 | the printed values these results are about read as JSON does |
| JsonBlob.ExtractsTheValue | src/capture.rs:1159-1204 | for every array or object, any prefix without an opener and any suffix, exactly the value is returned |
| CivilDate.YearFormula | src/capture.rs:92-98 | the year formula finds the year of every day of the 400-year era |
| CivilDate.EraFormula | src/capture.rs:93-94 | the adjusted truncating division is floor division, for negative days too |
| CivilDate.Epoch | src/capture.rs:92-104 | day 0 is 1970-01-01 |
| CivilDate.NextDayIsNext | src/capture.rs:92-104 | every count is a Gregorian date, and the next count is the next date, for all integers |
| CivilDate.StringsOrderDays | src/capture.rs:92-104 | for years of four digits the order of the strings is the order of the days |
| CivilDate.DateReads | src/capture.rs:88-104 | for every date, early and late years too, the string is year, month and day in decimal, zero-padded, with dashes between them |
| CivilDate.Frontmatter.StampUpdated | src/capture.rs:3050-3059 | one stamp: the later of the two dates, and no creation date after it |
| CivilDate.StampsKeepTheLatestDay | src/capture.rs:3045-3059 | for years of four digits, stamping on any days in any order leaves the string of the latest day, or the date the guide had if later |
| CivilDate.StampsKeepTheLatest | src/capture.rs:3045-3059 | after any stamps in any order, `updated` is the latest date seen and `created` is not after it |
| WarmPool.Pool.Checkout | src/claude_sidecar.rs:115-119 | takes the youngest child, or none if it is too old, and the slot loses it either way |
| WarmPool.Pool.ReapStale | src/claude_sidecar.rs:121-125 | each slot keeps exactly the children young enough, in order |
| WarmPool.Pool.ReserveRefill | src/claude_sidecar.rs:127-135 | reserves the deficit |
| WarmPool.Pool.FinishRefill | src/claude_sidecar.rs:137-154 | releases the reservation and stores what there is room for |
| WarmPool.NextKeepsBalance | src/claude_sidecar.rs:115-159 | every step keeps the counter equal to the outstanding reservations and the model within the pool size |
| WarmPool.AlwaysBalanced | src/claude_sidecar.rs:378-396 | so does every interleaving of checkouts, reaping and refill tasks |
| WarmPool.SpawnedChildrenAreKept | src/claude_sidecar.rs:137-154 | over every interleaving, no spawned child is discarded |
| WarmPool.RefillReachesTarget | src/claude_sidecar.rs:378-396 | a refill with no other under way brings the pool back to its size |
| PoolHistory.EveryChildIsAccounted | src/claude_sidecar.rs:115-154 | over every interleaving and for every model, as multisets, the children spawned are the idle ones, those handed out and those killed as too old |
| PoolHistory.HandedOutOnce | src/claude_sidecar.rs:115-119 | if processes are distinct, one that was handed out is in no slot ever after and is never handed out again |
| PoolHistory.GivenIsLast | src/claude_sidecar.rs:115-119 | a checkout hands out the last child of the slot, young enough, and the slot and all others keep the rest |
| PoolHistory.YoungestIffInOrder | src/claude_sidecar.rs:115-119 | that child is always the youngest of its slot if and only if refill tasks ended in the order in which they had spawned |
| PoolHistory.OlderChildIsTaken | src/claude_sidecar.rs:117 | an interleaving of two tasks after which the next checkout takes the older child |
| ClaimClusters.ClaimStore.FindOrCreateCluster | src/claims.rs:688-751 | the known cluster, else a closest one above the threshold with its running average, else a new one, failing only on a name clash |
| ClaimClusters.ClaimStore.AppendOnce | src/claims.rs:643-671 | appends exactly when the id is not in the log |
| ClaimClusters.ClaimStore.AppendClaim | src/claims.rs:245-317 | the append as a whole; if it fails nothing changes |
| ClaimClusters.ClaimStore.ConfirmClaim | src/claims.rs:471-496 | confirms exactly the records of the id and reports whether there was one |
| ClaimClusters.NeverClashes | src/claims.rs:745-751 | in a consistent store a new cluster never meets one of its name |
| ClaimClusters.SizeIsCount | src/claims.rs:725-729 | the members counted in the map are the members in the log |
| ClaimClusters.AverageIsMean | src/claims.rs:730-735 | the running average is the mean over one more member |
| ClaimClusters.AppendKeeps | src/claims.rs:245-317 | any append, of a new or a known id, keeps the store consistent |
| ClaimClusters.ConfirmKeeps | src/claims.rs:471-496 | so does a confirmation |
| ClaimClusters.RunsAreConsistent | src/claims.rs:245-317 | after any run, centroids are the means of first embeddings, and each id is in one cluster and once in the log with it |
| ClaimClusters.CrashBeforeLog | src/claims.rs:285-303 | a crash before the claim is logged leaves a consistent store if and only if the claim was known or equals the centroid of the cluster it joins, so never when it founds one |
| ClaimClusters.CrashBeforeMap | src/claims.rs:303-314 | a crash after that and before the claim is mapped leaves one if and only if the claim was known |
| ClaimClusters.AppendPassesThrough | src/claims.rs:285-314 | the states of the two results above are what the writes of an append pass through |
| ClaimClusters.CrashesAreReachable | src/claims.rs:285-314 | a run and its next append for which each of the three crashes leaves a store that is not consistent |
| OverlapMask.LineInParagraph | src/context_overlap.rs:475-480 | what a line normalizes to is part of what its paragraph normalizes to |
| OverlapMask.ParagraphCoversLines | src/context_overlap.rs:333-341 | when a paragraph is in the context, so is each of its lines |
| OverlapMask.CoveredIff | src/context_overlap.rs:333-341 | a line is masked exactly if it is not blank and its words, in lower case with single spaces, occur in some fragment |
| OverlapMask.MaskSourcePreservingLines | src/context_overlap.rs:244-288 | the two passes mask exactly the non-blank lines in the context themselves, with the right count and verdict |
| OverlapMask.MaskKeepsLines | src/context_overlap.rs:244-288 | line count and unmasked lines stay, and masking again changes nothing |

## Left out

- Real files, git, sqlite, locks, processes, sockets and model calls: abstract atomic steps, maps and parameters.
- Machine integers and IEEE rounding: counts and offsets are unbounded, similarities and embeddings are reals, so NaN and overflow are not modelled.
- Capture store: schedules, leases, attempt counts, temporary files, symbolic links, remote synchronization, the local capture markers and the index rebuild after materializing.
- Capture store: a manifest is compared by its fields, not by the bytes of its JSON; file names are the ones that survive the lossy conversion, without backslashes.
- Capture store: an oid is the place of a commit in the linear history, and the workspace is read in one step.
- Capture store: session names that put a second trailer into a commit message.
- CaptureStore.ProjectStore.RemoveCompleted: states the entry is gone; a later failure mark can recreate a directory holding only a schedule, which is not modelled.
- AliasClusters: how a noun becomes its key; the key is any function, because singular forms are not idempotent.
- DoctorMerge.Consolidate: the index and the two-way links that are added to the files once all are written.
- Publishing.NormalizeForPublish: a slice inside a character, which stops the program, is a slice of bytes here.
- PublishedTwice.PublishedTwiceIff: for a body that loses a section the condition is about the published body.
- DeadLinks.NoDeadLinks: slugs with brackets, bars or slashes, where a new link can spell an old one, and for what is saved also slugs with line breaks.
- Redirects.LinksFollow: bodies in which a pair of brackets that opens a link stands elsewhere than at a link to a clean slug.
- LinkRemap.KeepsMarkersIffPlain: the slug remapped to is one whose links hold no marker, as every slug without a caret; if both hold markers, no condition is given.
- DoctorMerge.MergeCluster: the text is the model's answer after fences are stripped; titles, topics and prompts are not modelled.
- Supersede.EditsAreDisjoint: each statement is revised at most once; the answers of the model may name one twice, and `SpanRevisedTwice` says what that does.
- Revisions.SpanRevisedTwice: a program that replaces bytes stops when the second end falls inside a character of the first text; elements are replaced here.
- Supersede.RoundKeepsWording: about the body before it is saved; what saving does to it is the subject of `Publishing`.
- Packer.ChunkSection: the units of a section are a parameter, and so is which text has substance; how code, tables and lists become units is not modelled beyond `SplitRows`.
- Candidate retrieval, rare tokens and status words of cross-guide supersession.
- Splitting a fenced block, recognizing tables, fences and headings, and deciding whether text has substance: predicates and blocks given to the chunker.
- TranscriptRoles.BuildLineRoles: the numbered rendering of the lines and the validity check of evidence are not modelled.
- Time of day, and date strings of years outside 0 to 9999, whose string order is not the order of days.
- ClaimClusters: the vector table keyed by a row id, which is not injective in the claim id, and foreign or malformed lines of the log.
- OverlapMask: how fragments of the context are gathered; suppression of search hits and compiled lines.
- Terminal screens, configuration, cost estimates, event logs and daemon lock files.
