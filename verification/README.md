# Reelix: a verified model of the server's decision and storage logic

Reelix is a media server written in Go. This project models the parts of it whose behaviour can be stated and
proved: how request paths are folded onto routes, how a film is identified, which image is chosen, how artwork and
field locks survive concurrent passes, what scans, playback reports and identifications leave in the tables, how
password hashes and authorization headers are printed and read back, and how schema migrations and the first
connection are driven. `dafny verify dfyconfig.toml` checks everything.

Code that changes state is a class or a method with loops here too, and each such method is proved against a function
on values; what the server promises is then proved about those functions, over every input, every run or every
interleaving.

| file | models |
|---|---|
| `RouteSpec`, `RouteFold`, `RouteWalk`, `RoutePaths`, `RoutePatterns` | the list of patterns as a specification; the trie on the heap; the backtracking walk; aliases, slashes and extensions; what a registered string means, and what the trie built from such strings does |
| `TitleNormaliser`, `Matcher`, `Enrichment` | title normalisation; the three-tier matcher; the second look with alternative titles |
| `ImageChoice` | the order on candidate images |
| `ArtworkStore`, `ArtworkRuns`, `ArtworkTags` | the image store; every interleaving of saves, sweeps, row writes, passes and crashes; tags and bytes in such runs |
| `MetadataRows`, `FieldLocks`, `InterleavedSet`, `LockStatements` | managed fields, genres, images and provenance; locks and edits by hand; an edit others come between; locks statement by statement |
| `Refresh`, `RefreshStores`, `RefreshFixpoint`, `RepeatedRefresh`, `FullRefresh` | the refresh pass; what it stores of each answer; what an ordinary one leaves behind and why the next finds nothing to do; pass after pass over a library of any size; what a full one does to tags |
| `Identity`, `IdentityStatements`, `CorrectionStatements`, `Scan`, `Playback` | identity transitions and passes; passes statement by statement; corrections and resets too; indexing a library; playback reports |
| `PasswordHash`, `AuthHeader`, `Redactor` | the PHC string; the quoted header list; the redactor's output |
| `Decimal`, `Base64`, `Text`, `Lists` | decimal printing and scanning; base64 without padding (section 4 and section 3.2 of RFC 4648); string and list helpers |
| `Migrations`, `Retry` | the migration ledger; the wait for a database |

## Where the code and its comments differ

The model follows the code.

- `internal/repository/identity.go:104` says the status and the ids are written inside the caller's transaction; the
  pass hands the repository the pool (`internal/service/identity.go:164`), so the statements commit one by one. A
  correction then stands exactly when no pass has a statement about the item left that would get through:
  `IdentityStatements.CorrectionStandsExactly`. One that comes between a pass's row and its ids never stands:
  `IdentityStatements.CorrectionBetween`. A correction runs over the pool too (`internal/service/identity.go:103-107`):
  from its row on it ends with exactly its ids, and keeps them, exactly when nobody has a statement about the item left
  (`CorrectionStatements.FreshCorrectionExactly`, and `CorrectionStatements.CorrectionArrivesExactly` for any later
  moment of it). Otherwise a pass's id can stay on an item that is marked as decided by hand, which
  `internal/repository/identity.go:121-127` rules out (`CorrectionStatements.PassInsertStays`), or two corrections can
  leave ids that neither gave (`CorrectionStatements.TwoCorrectionsMix`).
  A pass that dies between a match's row and its ids leaves the match without ids that the comment rules out, and no
  later pass mends it (`IdentityStatements.CutMatchStaysBare`). An item that is reset carries no ids while it is
  undecided exactly when no pass has ids of it still to insert (`IdentityStatements.StaysCleanExactly`).
- `internal/repository/metadata.go:71-76` calls the claim the serialisation point that keeps a locked field from being
  overwritten. The refresh also writes over the pool (`internal/service/metadata.go:210`). Statement by statement a lock
  keeps a field exactly when every claim held on it at that moment would store what is already there
  (`LockStatements.LockKeepsExactly`); an edit of a scalar field that comes whole between a claim and its value is lost
  unless the column makes the same of both values (`LockStatements.EditBetweenStatements`); one of the genres is
  disturbed unless neither list has any (`LockStatements.GenresBetweenStatements`).
- `internal/metadata/match.go:152-160` says the candidate filter discards only what the matcher had ruled out, and that
  the list is capped when the filename has no year. The cap also applies with a year. The claim holds when it is not
  reached (`Enrichment.WindowIsEnough`); when it is, any candidate left out that is not listed a second time may be the
  one match, with a year or without (`Enrichment.CapLosesAMatch`, `Enrichment.CapLosesExactly`).
- `internal/service/identity.go:287-293` says such a lookup cannot produce a wrong match, because a second equally good
  one is refused. What a capped lookup accepts is what a lookup of every candidate accepts, for every answer, exactly
  when no candidate left out is as near to the query's year as one that was asked about (`Enrichment.CapTrustedExactly`,
  which also says what to leave aside where a film is listed twice). A nearer one left out may be the match instead; an equally near one would have made
  the lookup decline as ambiguous (`Enrichment.CrossingDecides`). Without a year all are equally near, so a cap that is
  reached always leaves one out that is as near (`Enrichment.CapWithoutYear`).
- `internal/service/metadata.go:105-109` unlocks before it writes. The first edit of a list that the store refuses leaves
  its field with the old value and without its lock: `FieldLocks.RefusedEditUnlocks`.
- An edit is unlock, write and lock (`internal/service/metadata.go:105-127`), and whether its write was taken is
  discarded (`:117-119`). An edit that somebody locks out between its unlock and its write reports success and stores
  nothing; and until its lock a refresh may write again, so that it reports success and pins the refresh's value
  (`InterleavedSet.RefreshBeforeLock`). Whatever comes between the three calls, `InterleavedSet.StoredExactly` says what
  the field ends with, and so exactly when that is the edit.
- `internal/media/artwork/artwork.go:118-121` and `internal/service/artwork.go:152-157` say that a crash after the bytes
  and before the row leaves an orphan file and no row. In a full refresh the old row is still there, and the new bytes
  have replaced the file it names (`internal/service/artwork.go:111-125`): a crash, a lock or a failing row write then
  leaves the old tag on new bytes. In every reachable state a tag is wrong exactly when what was last moved to its row's
  path has another digest and was not recorded (`ArtworkTags.TagWrongExactly`); ordinary passes never leave one
  (`ArtworkTags.OrdinaryRunsKeepTags`); a run with a full refresh and a crash does (`ArtworkTags.CrashReachable`). For
  one pass that the process survives, `FullRefresh.FullRefreshTags` says exactly which tags are wrong after it, and
  `FullRefresh.TagGoesStale` gives an input.
- The stream extension is dropped wherever the last segment under `/videos/` is spelled `stream.<container>`, also when
  that segment is the value of a parameter (`RoutePaths.ParametersKeptExactly`, `RoutePaths.ParameterBytesLost`). No such
  route is registered: the one route under videos ends in a literal (`internal/compat/jellyfin/api.go:170`), and for
  such lists every parameter byte is kept (`RoutePaths.VideosKeepParameters`).

## Model

| member | source | states |
|---|---|---|
| RouteFold.Descend | internal/compat/jellyfin/routefold.go:82-106 | one segment of the build reuses or adds the right child, and fails only when another spelling of the literal is already there |
| RouteFold.AddPattern | internal/compat/jellyfin/routefold.go:74-108 | adding a registered string to a trie for some routes gives the trie for one route more, or finds an earlier route in conflict |
| RouteFold.BuildFoldTrie | internal/compat/jellyfin/routefold.go:71-111 | the build succeeds exactly when no two literals at one node differ only by case, and the nodes on the heap then hold exactly the registered routes |
| RouteWalk.WalkAnswers | internal/compat/jellyfin/routefold.go:137-169 | from any node, the walk answers exactly when a route through that node matches the rest, with the first match's spelling |
| RouteWalk.WalkRefinesList | internal/compat/jellyfin/routefold.go:137-169 | walking the built trie equals trying every pattern of the list, for every list of segments |
| RouteWalk.FoldRefinesList | internal/compat/jellyfin/routefold.go:118-135 | folding a path through the trie equals the fold stated over the list of patterns |
| RouteSpec.BestRouteIsFirst | internal/compat/jellyfin/routefold.go:137-144 | the list answers exactly when some pattern matches, with one that no matching pattern precedes, literals before parameters from the left |
| RouteSpec.FirstMatchesAgree | internal/compat/jellyfin/routefold.go:137-144 | without casing conflicts all first matches spell the path alike |
| RouteSpec.OrderOfRegistrationIrrelevant | internal/compat/jellyfin/routefold.go:71-111 | any other listing of the same patterns is as conflict-free and answers every path alike |
| RoutePaths.CutLegacyPrefix | internal/compat/jellyfin/routes.go:114-129 | removes one leading alias in any casing, and says whether there was one |
| RoutePaths.NormalizeLegacyPath | internal/compat/jellyfin/routes.go:45-63 | computes the alias-, slash- and extension-free form of a path |
| RoutePaths.StreamSpellingOf | internal/compat/jellyfin/routes.go:91-111 | under `/videos/` a last segment `stream.<container>` becomes `stream`; every other path stays |
| RoutePaths.NormalizedSpelling | internal/compat/jellyfin/routes.go:45-129 | at most one alias, any trailing slashes and one stream extension come off, nothing else |
| RoutePaths.SpellingsAreRewritten | internal/compat/jellyfin/routes.go:45-129 | every casing, alias, slash and extension spelling of a registered route is rewritten to its one canonical path |
| RoutePaths.ParametersKeptExactly | internal/compat/jellyfin/routes.go:91-111 | parameter bytes survive if and only if the segment that loses an extension is not itself a parameter |
| RoutePaths.VideosKeepParameters | internal/compat/jellyfin/routes.go:91-111 | when every route a path under videos can reach ends in a literal, every spelling is rewritten with every parameter byte kept |
| RoutePaths.ParameterBytesLost | internal/compat/jellyfin/routes.go:91-111 | a route under videos that ended in a parameter would lose the extension of its value |
| RoutePaths.SecondAliasKept | internal/compat/jellyfin/routes.go:113-129 | a second alias is an ordinary segment and stays |
| RoutePaths.UnmatchedPathUnchanged | internal/compat/jellyfin/routefold.go:113-128 | folding never invents a match |
| RoutePaths.CanonicalIsFixed | internal/compat/jellyfin/routefold.go:118-169 | walking a canonical spelling again gives the same spelling |
| RoutePaths.FoldIsIdempotent | internal/compat/jellyfin/routefold.go:118-135 | folding a folded path changes nothing, for every path |
| RoutePaths.RegisteredLiteralsProper | internal/compat/jellyfin/routefold.go:82-90 | registered literals are never empty and never contain a slash |
| RoutePatterns.PatternReads | internal/compat/jellyfin/routefold.go:74-93 | a registered string is its method, which plays no part, and its path's non-empty pieces: a braced one is a parameter, any other stands for itself |
| RoutePatterns.RegisteredReads | internal/compat/jellyfin/routefold.go:74-93 | in the usual form, a method and an absolute path, the segments are exactly the pieces |
| RoutePatterns.BareReads | internal/compat/jellyfin/routefold.go:76-79 | without a blank the whole string is the path |
| RoutePatterns.BuildsExactly | internal/compat/jellyfin/routefold.go:71-111 | registering such strings fails if and only if two of their paths lead through one node to two spellings of one literal, whatever the methods |
| RoutePatterns.RegisteredFolds | internal/compat/jellyfin/routefold.go:71-169 | the trie on the heap, built from such strings, folds a path that fits one of them to that one's spelling, parameters byte for byte, unless another that fits it has the literal where they first differ in kind |
| RoutePatterns.LiteralPathFolds | internal/compat/jellyfin/routefold.go:71-169 | every casing of a path registered without parameters folds to that path, whatever else is registered |
| RoutePatterns.UnregisteredStays | internal/compat/jellyfin/routefold.go:118-135 | a path that fits no registered string stays as it is |
| RoutePatterns.BeforeExactly | internal/compat/jellyfin/routefold.go:137-144 | the literal goes first at the first place where two patterns differ in kind |
| RoutePatterns.AliasExactly | internal/compat/jellyfin/routes.go:30 | the legacy aliases are emby and mediabrowser, in any casing |
| RoutePatterns.StreamFileExactly | internal/compat/jellyfin/routes.go:91-111 | the stream spelling is stream in any casing, a dot, and a container without one |
| TitleNormaliser.NormaliseTitle | internal/metadata/match.go:191-212 | the loop computes the single-space join of the maximal letter and digit runs of the folded title |
| TitleNormaliser.WordsOfNormalTitle | internal/metadata/match.go:188-212 | a normalised title reads back as the same words |
| TitleNormaliser.NormalTitleIdempotent | internal/metadata/match.go:188-212 | normalising twice is normalising once |
| TitleNormaliser.SameTitleSameWords | internal/metadata/match.go:188-212 | two titles normalise alike if and only if their word sequences agree |
| TitleNormaliser.FoldTargets | internal/metadata/match.go:222-230 | every fold lands on a letter that folds to itself |
| TitleNormaliser.FoldExactly | internal/metadata/match.go:222-230 | each listed letter folds as listed and no other character changes |
| TitleNormaliser.NormalTitleIs | internal/metadata/match.go:188-212 | a title made of any words with anything but letters and digits between them normalises to those words, folded, with single spaces |
| Matcher.Match | internal/metadata/match.go:30-129 | the loops decide as the tiers do: strongest non-empty tier, one survivor or a refusal |
| Matcher.CollectTitled | internal/metadata/match.go:49-60 | the titled candidates in listing order, and whether any needed an alternative title |
| Matcher.SplitByYear | internal/metadata/match.go:86-94 | the exact and near tiers are the titled candidates at year distance zero and one |
| Matcher.MatchesAnAlternative | internal/metadata/match.go:132-139 | finds an alternative title that normalises to the wanted one, if there is any |
| Matcher.BestTierDecides | internal/metadata/match.go:30-129 | the first tier with a survivor decides alone |
| Matcher.AcceptsSoleBest | internal/metadata/match.go:30-129 | accepted if and only if the best non-empty tier has that one survivor, with its own provenance |
| Matcher.AmbiguousNeverFallsThrough | internal/metadata/match.go:98-128 | an ambiguous tier declines; no weaker tier is consulted |
| Matcher.ProviderOrderNeverDecides | internal/metadata/match.go:30-147 | every permutation of the candidates gives the same verdict |
| Matcher.DecideMeasured | internal/metadata/match.go:30-129 | for any listing, in titles and years: those named so at the very year decide if there are any, then those a year off, without a year all; one alone is accepted, several refused, and each other refusal says what there was none of |
| Enrichment.AlternativeTitleCandidates | internal/metadata/match.go:162-176 | the indices in the year window, in order, cut at the cap |
| Enrichment.WithAlternativeTitles | internal/service/identity.go:298-329 | gives up exactly when a chosen candidate's lookup is rate limited; otherwise each chosen candidate carries its answer and the others are untouched |
| Enrichment.DecideItem | internal/service/identity.go:228-264 | the stored title is asked for, with the stored year; only without one the file name's, with its year if it has one; a failed search decides nothing, a rate limit stops the pass; a film that alone has the stored title and year is accepted as exact whatever else is found |
| Enrichment.FirstLookDecides | internal/service/identity.go:250-257 | when a title found is the one asked for, or nothing can be, nobody is asked for more |
| Enrichment.SecondLookFinds | internal/service/identity.go:258-329 | otherwise a rate limit at any candidate asked about stops the pass; if none, and one of them alone turns out to carry the title, that film is accepted with the confidence of its year |
| Enrichment.ChosenExactly | internal/metadata/match.go:162-176 | a candidate is asked about if and only if its year is at most one off, or there is none to be off from, and fewer such ones stand before it than the cap |
| Enrichment.WindowIsEnough | internal/metadata/match.go:149-176 | below the cap, asking about the window gives the match, confidence and provenance that asking about everyone gives; refusals differ at most in their kind |
| Enrichment.CapLosesAMatch | internal/metadata/match.go:152-176 | whichever candidate of the window the cap leaves out, with a year or without, some answers make it the one match, and the capped look then finds nothing; provided no entry of the same film is asked about or as near |
| Enrichment.CapLosesExactly | internal/metadata/match.go:152-176 | for any listing, some answers hide the one match if and only if the cap leaves out such a candidate |
| Enrichment.CapTrustedExactly | internal/service/identity.go:266-297 | what the capped look accepts a full look accepts too, for all answers, if and only if no candidate left out is as near to the query's year as one asked about, where one asked about counts only if no other entry asked about of either film is as near; that proviso is empty where no provider id occurs twice |
| Enrichment.CrossingDecides | internal/service/identity.go:266-297 | for every such pair some answers make the capped look accept the one asked about, where a full look accepts a film of a stronger tier or declines as ambiguous; where no provider id occurs twice, the nearer one is accepted and equally near ones declined |
| Enrichment.CapWithoutYear | internal/metadata/match.go:157-176 | without a year a cap that is reached leaves a candidate out that is as near as one asked about, and so such a pair where no provider id occurs twice |
| Enrichment.MoreTitlesKeepOrBlock | internal/service/identity.go:266-297 | more titles can keep an exact match or make it ambiguous, nothing else |
| ImageChoice.LanguageTier | internal/metadata/tmdb/tmdb.go:414-422 | the first position of the language in the preference list, or its length |
| ImageChoice.BestImage | internal/metadata/tmdb/tmdb.go:398-410 | the running choice over a listing, images without a path skipped |
| ImageChoice.BetterTransitive | internal/metadata/tmdb/tmdb.go:430-450 | the comparison is transitive |
| ImageChoice.BetterTotal | internal/metadata/tmdb/tmdb.go:430-450 | of two images with different paths exactly one is better |
| ImageChoice.BetterIrreflexive | internal/metadata/tmdb/tmdb.go:430-450 | no image is better than itself |
| ImageChoice.BestIsMaximum | internal/metadata/tmdb/tmdb.go:398-450 | the choice beats every other image listed, and there is none exactly when no image has a path |
| ImageChoice.MaximumUnique | internal/metadata/tmdb/tmdb.go:398-450 | only one image beats all others |
| ImageChoice.ListingOrderIrrelevant | internal/metadata/tmdb/tmdb.go:398-410 | any other listing of the same images makes the same choice |
| ImageChoice.UnsupportedScoreNeverDecides | internal/metadata/tmdb/tmdb.go:430-450 | changing an average below the vote threshold never changes which image is chosen |
| ImageChoice.ChoiceMeasured | internal/metadata/tmdb/tmdb.go:398-450 | for every listing, measure by measure: no image with a path has an earlier language; at the same none has three votes unless the choice has; among those none a higher average; among those still level none is wider, and of those as wide none has a smaller path |
| ImageChoice.ChoiceExactly | internal/metadata/tmdb/tmdb.go:398-450 | where paths differ, an image is chosen if and only if that holds of it |
| ImageChoice.PathBeforeExactly | internal/metadata/tmdb/tmdb.go:449 | the order of paths is that of their first difference, a prefix before what it begins |
| ArtworkStore.Store.WriteTemp | internal/media/artwork/artwork.go:189-221 | accepts a body exactly when it ends, is not empty and fits; names the first thing that went wrong otherwise |
| ArtworkStore.Store.Save | internal/media/artwork/artwork.go:130-181 | all or nothing: a failure leaves every file as it was, a success changes the final name alone, to the whole body |
| ArtworkStore.Store.Sweep | internal/media/artwork/artwork.go:267-290 | removes exactly the temporary files that can be removed, and counts them |
| ArtworkStore.TypeRead | internal/media/artwork/artwork.go:52-79 | parameters, blanks and casing of a content type play no part; exactly three types are stored, each under its extension |
| ArtworkStore.RefusedExactly | internal/media/artwork/artwork.go:113-181 | which error a save ends with: the type first, then the first step that fails |
| ArtworkRuns.PartialNeverExposed | internal/media/artwork/artwork.go:113-181 | in every run, crashes, sweeps and wipes included, a final name holds only the whole of some response |
| ArtworkRuns.SweepTouchesNoImage | internal/media/artwork/artwork.go:267-290 | a sweep changes no image and no row, and takes the file of a save under way from it |
| ArtworkRuns.SweptSaveFails | internal/media/artwork/artwork.go:154-164 | however the run goes on, a save whose file was swept never puts an image in place |
| ArtworkRuns.NoNewDangling | internal/service/artwork.go:150-184 | no step but an external deletion makes a row name a missing file |
| ArtworkRuns.EveryRowServed | internal/service/artwork.go:111-184 | from nothing, without external deletion, every row with a path names a complete, non-empty file within the cap, in every reachable state |
| ArtworkRuns.ReconcileRepairs | internal/service/artwork.go:34-59 | after any history, wipes included, once a refresh of a library has reconciled what it listed every row of the library is served, and stays so until files are next deleted from outside, whatever runs meanwhile |
| ArtworkRuns.UninterruptedSave | internal/media/artwork/artwork.go:130-181 | the steps of a save that nothing interferes with have the effect the method promises |
| ArtworkTags.TagWrongExactly | internal/service/artwork.go:111-184 | in every reachable state a row's tag is not its file's digest if and only if what was last moved to its path has another digest and was not recorded |
| ArtworkTags.StoredRunsKeepTags | internal/service/artwork.go:111-148 | in a run without crashes whose rows are all stored no tag is wrong once no save is under way |
| ArtworkTags.OrdinaryRunsKeepTags | internal/service/artwork.go:77-126 | in every run of ordinary passes, crashes, sweeps, failing row writes and wipes included, every tag is that of its file |
| ArtworkTags.CrashLeavesTagWrong | internal/media/artwork/artwork.go:113-181 | from any state in which a full refresh may save a stored image anew, saving other bytes and crashing leaves the tag wrong |
| ArtworkTags.CrashReachable | internal/service/artwork.go:152-157 | such a state is reached from nothing, without a lock, a refused row or a deletion from outside |
| MetadataRows.MetadataRepository.ClaimField | internal/repository/metadata.go:160-174 | stamps the source if and only if the field is unlocked |
| MetadataRows.MetadataRepository.WriteField | internal/repository/metadata.go:80-112 | row, claim, value, in that order, each kept when a later one fails |
| MetadataRows.MetadataRepository.WriteGenres | internal/repository/metadata.go:123-151 | replaces the list by its kept genres unless locked; a clearing that fails leaves the list, an insert that fails the kept ones before it |
| MetadataRows.KeptMembers | internal/repository/metadata.go:138-149 | the kept genres are the non-empty ones given, each once |
| MetadataRows.KeptInOrder | internal/repository/metadata.go:138-149 | the kept genres stand in the order of their first mention |
| MetadataRows.MetadataRepository.WriteImage | internal/repository/artwork.go:28-79 | writes a whole image row or a negative unless locked |
| MetadataRows.MetadataRepository.SetLocked | internal/repository/metadata.go:177-186 | changes the lock alone; a field never written counts as set by hand |
| MetadataRows.MetadataRepository.DeleteImage | internal/repository/artwork.go:213-220 | removes the one row, locked or not |
| FieldLocks.LockHolds | internal/repository/metadata.go:62-186 | from a lock to the next unlock no interleaving changes the field's value, source or lock; only deleting its image row may empty it |
| FieldLocks.NeighboursUntouched | internal/repository/metadata.go:104-110 | no step changes the value, source or lock of any field but its own |
| FieldLocks.NeighbourUpdates | internal/repository/metadata.go:80-186 | in any interleaving, a write to a field that is unlocked at that moment is what the field holds until the next step about it, whatever else is locked |
| FieldLocks.FirstLockIsManual | internal/repository/metadata.go:175-186 | a lock or unlock keeps the field's source, which is manual when there was none |
| FieldLocks.MetadataService.Set | internal/service/metadata.go:82-130 | unlock, write and lock for each edit, up to the first failure |
| FieldLocks.SetStoresAndLocks | internal/service/metadata.go:82-130 | a set succeeds if and only if there are edits, the item exists and the store takes each of them; then the last edit of every field is stored, set by hand and locked |
| InterleavedSet.StoredExactly | internal/service/metadata.go:104-129 | whatever comes between the three calls of an accepted edit, they succeed, the field ends locked, and it holds what the last write taken before the lock asked for, under the source of the last write that found no lock; so the edit is what it holds if and only if that value and that source are the edit's |
| InterleavedSet.StoredWhenLeftAlone | internal/service/metadata.go:104-129 | when nobody touches the field after its write, the edit is stored unless a lock stood at the write, and then the content and source from before it stay |
| InterleavedSet.RefreshBeforeLock | internal/service/metadata.go:117-127 | a refresh's write between the edit's write and its lock is what the field ends with, pinned, although the edit succeeds |
| InterleavedSet.AloneIsWhole | internal/service/metadata.go:104-129 | the three calls with nothing between them have the effect of the whole edit |
| FieldLocks.RefusedEditUnlocks | internal/service/metadata.go:104-129 | the first refused edit of a list ends the set: edits before it hold, its own field keeps its content and has lost its lock, fields not reached are untouched |
| LockStatements.UninterruptedWrite | internal/repository/metadata.go:80-174 | the statements of a write in a row have the effect of the whole method |
| LockStatements.LockKeepsExactly | internal/repository/metadata.go:62-186 | statement by statement, a lock keeps a field's content until the next unlock if and only if every claim held on the field would store what is already there |
| LockStatements.ClaimHarmlessExactly | internal/repository/metadata.go:93-151 | which claims those are: a value the column makes the stored one of or refuses, no genres for no genres, the image row already there |
| LockStatements.EditBetweenStatements | internal/repository/metadata.go:98-110 | an edit that comes whole between a refresh's claim and its update outlasts it if and only if both values are stored alike |
| LockStatements.GenresBetweenStatements | internal/repository/metadata.go:114-151 | an edit of the genres between a refresh's claim and its statements outlasts it at every moment if and only if neither list has a genre |
| Refresh.RefreshService.Reconcile | internal/service/artwork.go:34-59 | deletes the library's rows whose file is missing and counts them, all of them or up to a delete that fails; a listing that fails deletes none |
| Refresh.RefreshService.StoreFields | internal/service/metadata.go:308-355 | writes each value the provider knows, counts those a lock refused, stops at a failure |
| RefreshStores.FieldsStoredExactly | internal/service/metadata.go:308-355 | from the answer and the tables alone: storing fails if and only if a known, unlocked value is one its column refuses; otherwise each known, unlocked scalar is what its column makes of it and known, unlocked genres are the non-empty ones, each once, in order, all under the provider's source; unknown and locked fields stay, nothing else is touched, and the known, locked ones are counted |
| RefreshStores.ItemTurn | internal/service/metadata.go:238-297 | an answered item ends with all of that and with each image that was due: a negative where the provider has none, the whole row and its bytes where they arrive, and no change otherwise; no other item changes; the counts grow by exactly what was stored and refused |
| RefreshStores.RefreshStoresAnswers | internal/service/metadata.go:205-300 | the same over a whole pass, ordinary or full, that is not cut short: every selected, answered item has its answer stored, every other is as reconciling left it, and all three counts are the sums |
| RefreshStores.DownloadExactly | internal/service/artwork.go:158-184 | a download arrives if and only if its body does, whole, of a known type; the image handed on is that body's path, digest and type with the provider's size and address |
| Refresh.RefreshService.DownloadImage | internal/service/artwork.go:158-184 | the row handed on describes the file just put in place; anything else leaves the files alone |
| Refresh.RefreshService.StoreImages | internal/service/artwork.go:77-148 | recorded types are skipped, missing ones recorded as negatives or downloaded; a failed download writes nothing; a row the database fails ends the pass, with its bytes in place, and so does a failing read of the item's images, before any is tried |
| Refresh.RefreshService.RefreshItem | internal/service/metadata.go:238-297 | one item's turn: skipped without an id, failed fetches passed over; cancellation, a failing read or write and rate limiting end the pass |
| Refresh.RefreshService.Refresh | internal/service/metadata.go:205-300 | sweep what can be removed, reconcile, select, then each item in turn, with all four counts; a failure of either of the middle two ends the pass before its first item |
| RefreshFixpoint.NeedsExactly | internal/repository/metadata.go:207-230 | counting rows finds exactly the items without a metadata row or short of an image type |
| RefreshFixpoint.CompleteSelectsNothing | internal/repository/metadata.go:193-230 | a refresh selects nothing if and only if the library is complete, and then changes nothing and succeeds unless the listing or the selection fails |
| RefreshFixpoint.RefreshSettles | internal/service/metadata.go:205-300 | one fully answered pass from any state of a library of any size runs to its end, leaves every stored path on disk and tags right, and completes the library if and only if no image was locked without one and every item with something missing had a place in the pass |
| RefreshFixpoint.AllTakenExactly | internal/repository/metadata.go:193-230 | every such item has a place if and only if there are at most two hundred |
| RefreshFixpoint.RefreshIsFixpoint | internal/service/artwork.go:61-148 | the pass after one that completed the library selects, downloads and changes nothing, whatever the provider would say |
| RepeatedRefresh.OnePass | internal/service/metadata.go:205-300 | an answered pass over a library of any size completes exactly the items it selects that can be completed |
| RepeatedRefresh.RepeatedPassesExactly | internal/repository/metadata.go:193-230 | after as many answered passes as there are items, one still has something missing if and only if it had and either no answer brings it, for want of an id or a locked field, or two hundred such items come before it in order of creation |
| RepeatedRefresh.RepeatedPassesComplete | internal/service/metadata.go:205-300 | such passes complete a library of any size if and only if no item of it is without an id or locked short of an image; then another pass changes nothing |
| RepeatedRefresh.SelectedFirst | internal/repository/metadata.go:193-230 | a pass takes the first two hundred, in order of creation, of the library's identified items that are short of a metadata row or an image row, or of all of them in a full refresh |
| RepeatedRefresh.ReconciledExactly | internal/service/artwork.go:34-59 | before that, the library's rows whose file is not there are cleared and no others, and leftovers are removed and no other file |
| RefreshFixpoint.MissingShrinks | internal/service/artwork.go:61-148 | whatever fails, missing pairs never grow; those that go were answered and unlocked; an uncut pass clears each such pair it selected and counts its downloads exactly |
| RefreshFixpoint.RefreshKeepsOwnFiles | internal/media/artwork/artwork.go:160-178 | every pass keeps each row on a file of its own item and type |
| FullRefresh.ItemTags | internal/service/artwork.go:77-148 | after an item's images have been tried, a tag is right if and only if the image's turn did not come, its row was written, or nothing else arrived under its name |
| FullRefresh.FullRefreshTags | internal/service/artwork.go:111-144 | after a full refresh that the process survives, cut short or not, every tag is right, exactly but for the images whose file it replaced by another digest while a lock or a failing write kept the row |
| FullRefresh.TagGoesStale | internal/service/artwork.go:111-144 | a library, a provider and a state with right tags after whose full refresh a pinned poster's tag is wrong |
| Identity.IdentityRepository.ReplaceExternalIds | internal/repository/identity.go:217-234 | exactly the non-empty ids given, none of the old ones |
| Identity.IdentityRepository.Ensure | internal/repository/identity.go:29-38 | adds a pending row, never changes one |
| Identity.IdentityRepository.RecordMatch | internal/repository/identity.go:112-139 | records a match and its ids unless a human decided |
| Identity.IdentityRepository.RecordUnmatched | internal/repository/identity.go:146-156 | records a refusal unless a human decided |
| Identity.IdentityRepository.SetManual | internal/repository/identity.go:159-171 | marks a row decided by hand, and replaces the ids even where there is no row |
| Identity.IdentityRepository.Reset | internal/repository/identity.go:178-190 | puts a row back to pending, and drops the ids even where there is no row |
| Identity.IdentityService.SetManual | internal/service/identity.go:93-108 | accepts exactly a correction that names ids, none of them empty, of an item with a row; refuses any other without effect |
| Identity.IdentityService.Reset | internal/service/identity.go:111-117 | resets an item with a row, refuses one without |
| Identity.IdentityRepository.Identify | internal/service/identity.go:157-225 | decides the batch up to the first rate limit, cancellation or failing write and counts what it decided |
| Identity.StepKeepsSound | internal/repository/identity.go:29-190 | every step of any interleaving keeps columns and status in agreement |
| Identity.RunsKeepSound | internal/service/identity.go:157-225 | every run of passes and people keeps columns and status in agreement |
| Identity.ReachableIsSound | internal/repository/identity.go:29-190 | in every reachable state provider, confidence and via are set exactly when matched, a reason exactly when unmatched, and undecided items carry no ids |
| Identity.ManualSurvives | internal/service/identity.go:157-225 | a human's decision and its ids survive every pass, stale batches included, until corrected or reset |
| Identity.CorrectionStands | internal/repository/identity.go:159-171 | after an accepted correction exactly its ids stand |
| Identity.PassJudges | internal/service/identity.go:157-225 | a pass leaves each item it gets to as its own verdict says, provider, confidence, via, reason and ids, unless it has no row or a person decided, and touches no other |
| Identity.ReachExactly | internal/service/identity.go:166-190 | it gets to the first item at which it is rate limited, cancelled or cannot write |
| Identity.PersonWrites | internal/repository/identity.go:159-190 | a correction leaves a manual row and exactly its ids, a reset a pending one and none, and neither touches another item |
| IdentityStatements.UninterruptedMatch | internal/repository/identity.go:112-139 | the row and the id statements in a row, in any order of the ids, have the effect of the whole method |
| IdentityStatements.CorrectionStandsExactly | internal/repository/identity.go:112-234 | statement by statement, a correction stands until the item is corrected or reset again if and only if no pass has a statement about it left that would get through |
| IdentityStatements.ReachableRowsSound | internal/repository/identity.go:112-190 | statement by statement too, in every reachable state the columns of a row agree with its status, and only its own library's pass has an item to decide |
| IdentityStatements.StaysCleanExactly | internal/repository/identity.go:112-234 | an undecided item without ids never carries any while undecided, provided it is reset only when no pass has ids of it to insert, if and only if no pass has any to insert now |
| IdentityStatements.TimelyResetsKeepClean | internal/repository/identity.go:178-234 | from empty tables, undecided items carry no ids in every run whose resets are so timed |
| IdentityStatements.CutMatchStaysBare | internal/repository/identity.go:104-139 | a pass that dies between a match's row and its ids leaves a match without ids, and no run mends it before a correction or a reset |
| CorrectionStatements.CorrectionArrivesExactly | internal/repository/identity.go:159-234 | with corrections and resets split too: a correction on its way ends with exactly its ids, and keeps them, if and only if nobody else has a statement about the item left that gets through |
| CorrectionStatements.FreshCorrectionExactly | internal/service/identity.go:103-107 | from its row on: if and only if no pass, correction or reset has any statement about the item left |
| CorrectionStatements.AloneCorrection | internal/repository/identity.go:159-171 | left alone its statements have the effect of the whole method |
| CorrectionStatements.PassInsertStays | internal/repository/identity.go:121-139 | a pass's insert between a correction's clearing and its own insert of that provider makes the correction fail, and the item stays manual with the pass's id |
| CorrectionStatements.TwoCorrectionsMix | internal/repository/identity.go:159-234 | two corrections at once can both succeed and leave ids that neither gave |
| IdentityStatements.CorrectionBetween | internal/repository/identity.go:121-139 | an accepted correction between a pass's row and its first id statement never stands |
| Scan.MediaStore.UpsertItem | internal/repository/media.go:61-83 | keeps the id and creation time of an item already there, and writes the id back |
| Scan.MediaStore.UpsertFile | internal/repository/media.go:129-158 | keeps the id and creation time of a file already there, and writes the id back |
| Scan.MediaStore.ReplaceStreams | internal/repository/media.go:195-226 | the file's streams become exactly those given |
| Scan.MediaStore.PersistFile | internal/service/scan.go:244-367 | probe or keep, then all the file's rows or none |
| Scan.MediaStore.ScanLibrary | internal/service/scan.go:167-238 | nothing without paths or when they cannot be walked; otherwise every file in turn up to a cancellation or a progress row that cannot be written, with the three outcomes counted |
| Scan.ScanKeepsIds | internal/repository/media.go:55-158 | no scan changes an id, a creation time or an identity row already there, whatever fails |
| Scan.FailedProbeRetried | internal/service/scan.go:244-300 | a failed probe changes no row, and the next scan probes the file again |
| Scan.RescanChangesNothing | internal/service/scan.go:205-367 | after a fully successful scan of distinct paths another scan probes nothing and changes nothing |
| Scan.ScanStoresProbes | internal/service/scan.go:288-367 | every file probed ends the scan carrying what its probe found, streams included |
| Scan.PersistMeasured | internal/service/scan.go:244-367 | one file against the tables: probed unless it has been at its present size; nothing written when the probe or the transaction fails; otherwise item, file, identity and streams exactly as found, ids and creation times kept |
| Scan.ChangedFileReprobed | internal/service/scan.go:265-291 | a file stored at another size, or never probed, ends the scan carrying its new probe |
| Playback.PlaybackStore.Upsert | internal/repository/playback.go:36-59 | one statement: insert, or update only when something but a timestamp changes |
| Playback.PlaybackStore.Record | internal/service/playback.go:193-237 | a failed report writes nothing, an unknown item or a negative position is refused, anything else writes what it was judged to mean |
| Playback.RunSummary | internal/service/playback.go:193-237 | after any run: played exactly when some report completed, the count is that of completed stops, the positions are those of the last report recorded |
| Playback.SuppressionLosesOnlyTimes | internal/repository/playback.go:21-59 | skipping no-ops agrees with always writing except for timestamps |
| Playback.OrderOfReportsIrrelevant | internal/repository/playback.go:36-59 | played and the count are the same for every order of the reports |
| Playback.ResumeWithinThresholds | internal/service/playback.go:72-98 | a kept resume position lies between the two thresholds of a long enough runtime |
| Playback.RunMeasured | internal/service/playback.go:72-98 | after any run, in numbers: played if and only if some report that counts is past nine tenths of a known runtime; the count is that of the stopped ones among them; the position is that of the last report that counts if it lies from a twentieth to nine tenths of a runtime of 300 s or more, and 0 otherwise |
| Playback.RunTimes | internal/repository/playback.go:36-59 | the row is created at the first report that counts, and its other times are those of one after which it has not changed |
| Decimal.ScanPrintedUint | internal/auth/password.go:77-78 | scanning a printed number gives it back with the rest of the input |
| Base64.DecodeEncode | internal/auth/password.go:79-80 | decoding undoes encoding on every byte string, all three tail lengths included |
| Base64.DecodeExactly | internal/auth/password.go:170-181 | line breaks apart, a string decodes if and only if it is of the alphabet and no character stands alone at its end |
| Base64.AlphabetExactly | internal/auth/password.go:79-80 | the standard alphabet in its order |
| Base64.GroupExactly | internal/auth/password.go:79-80 | three bytes and their four sextets are one number, tails filled up with zero bits |
| PasswordHash.DecodeEncodeHash | internal/auth/password.go:146-184 | a printed hash reads back exactly, and is refused if and only if a cost is zero or the salt or key is empty |
| PasswordHash.ReprintedReadsSame | internal/auth/password.go:146-184 | any string that is accepted, however written, is accepted again as printed here, with the same values |
| PasswordHash.VerifiesOwnHash | internal/auth/password.go:67-103 | a stored hash accepts exactly the passwords that derive its key, and never reads as corrupt |
| PasswordHash.AcceptedNames | internal/auth/password.go:148-163 | an accepted string begins with argon2id and a number that reads as 19 |
| PasswordHash.OthersRefused | internal/auth/password.go:153-163 | another algorithm or version is refused by its name or number |
| PasswordHash.StoredShape | internal/auth/password.go:67-82 | a password of twelve characters or more is stored as `$argon2id$v=19$m=65536,t=3,p=4$`, salt and key; a shorter one is not |
| AuthHeader.SplitPairs | internal/compat/jellyfin/authheader.go:107-150 | the scan with two variables yields the pairs between the commas outside quotes |
| AuthHeader.SplitPairsUndoesPrint | internal/compat/jellyfin/authheader.go:101-150 | scanning a printed list yields exactly that list, commas and equals signs in values included |
| AuthHeader.ParseAuthValue | internal/compat/jellyfin/authheader.go:70-99 | only the one scheme, in any casing, carries an identity: that of its pairs in order |
| AuthHeader.LastTokenWins | internal/compat/jellyfin/authheader.go:80-97 | of several tokens the last decides |
| AuthHeader.LastNamed | internal/compat/jellyfin/authheader.go:80-97 | each of the five fields is that of the last pair whose key names it, in any casing |
| AuthHeader.NeverNamed | internal/compat/jellyfin/authheader.go:80-97 | a field that no key names is empty |
| AuthHeader.PieceReads | internal/compat/jellyfin/authheader.go:107-150 | blanks around keys and values and quotes around a whole value come off, other values stand as they are, a piece without an equals sign says nothing |
| AuthHeader.KeylessSaysNothing | internal/compat/jellyfin/authheader.go:107-150 | nor does one without a key |
| AuthHeader.BlanksAroundHeader | internal/compat/jellyfin/authheader.go:70-79 | blanks around the whole header play no part |
| AuthHeader.OtherSchemeCarriesNothing | internal/compat/jellyfin/authheader.go:70-79 | any other scheme, or a value without a blank, carries nothing |
| AuthHeader.PrintedHeaderCarries | internal/compat/jellyfin/authheader.go:70-150 | a printed header carries exactly the identity of its pairs |
| Redactor.Redactor.Pseudonym | hack/capture/redact.py:76-79 | a value keeps its name for ever, and a new one gets a name no other has |
| Redactor.Redactor.Scrub | hack/capture/redact.py:190-198 | replaces the token, renames the device, keeps everything else |
| Redactor.Redactor.ScrubAuthHeader | hack/capture/redact.py:189-200 | prints every match redacted under the table it leaves, which only grows by the devices seen |
| Redactor.DeviceNameInjective | hack/capture/redact.py:76-79 | different numbers give different names, past three digits too |
| Redactor.RedactedParsesBack | hack/capture/redact.py:189-200 | the server's scan reads a redacted list back as the same pairs with only token and device changed |
| Redactor.RedactedHeaderCarries | hack/capture/redact.py:148-200 | a redacted header carries the identity of the redacted pairs |
| Redactor.DevicesStayApartOverTime | hack/capture/redact.py:65-79 | over a whole capture two device ids come out alike if and only if they were alike |
| Redactor.ScrubbedExactly | hack/capture/redact.py:190-198 | no token's value stays, a device id becomes its name, everything else stays |
| Redactor.DeviceNameExactly | hack/capture/redact.py:76-79 | a name is device- and the number, filled up with zeros to three digits |
| Migrations.LoadMigrations | internal/db/migrate.go:263-273 | sorts any listing by version, and refuses it exactly when a version is below one or occurs twice |
| Migrations.VerifyChecksums | internal/db/migrate.go:201-229 | refuses exactly an edited migration or one the binary does not know |
| Migrations.Database.ApplyOne | internal/db/migrate.go:149-171 | the SQL and its ledger row together, or neither |
| Migrations.Database.Migrate | internal/db/migrate.go:74-142 | refuses an empty list and a ledger that does not fit; otherwise applies the pending migrations in order up to the first failure |
| Migrations.RunsKeepPrefix | internal/db/migrate.go:74-171 | from an empty database, after any runs however they crashed, the executed migrations are a prefix of the sorted list, each once, and the ledger says exactly that |
| Migrations.FirstSuccessCompletes | internal/db/migrate.go:74-171 | the first run to finish leaves what one uninterrupted run would; every later run executes nothing |
| Migrations.AnyBinaryKeepsFaithful | internal/db/migrate.go:74-171 | any binary's runs keep the ledger equal to what was executed, and never undo any of it |
| Migrations.ReleasesKeepPrefix | internal/db/migrate.go:74-229 | runs of binaries of any releases, in any order and however they crash, leave a prefix of the longest list recorded exactly; a release is accepted if and only if its list reaches that far, and otherwise changes nothing |
| Migrations.ReleaseAccepts | internal/db/migrate.go:219-229 | an older binary is refused exactly once a newer one has gone past its last migration |
| Migrations.PrefixAccepted | internal/db/migrate.go:201-229 | a binary is never refused by what its own runs left |
| Migrations.LedgerExactly | internal/db/migrate.go:149-171 | the ledger has name and checksum of each migration executed, under its version, and nothing else |
| Retry.WaitForDatabase | internal/db/db.go:118-172 | total sleep stays within the budget, and there is at most one attempt more than the pauses that fit it, whatever the pings do |
| Retry.PausesBounded | internal/db/db.go:118-172 | a number of pauses fits the budget if and only if it is at most the largest that does |
| Retry.DefaultSixteenAttempts | internal/db/db.go:65-69 | sixteen attempts for the default policy |

## Left out

- Unicode: letter case, word characters and white space are parameters with the properties the proofs state; strings are sequences of valid characters.
- SQL, connections and transactions: tables are maps and each repository method is one step, apart from `LockStatements`, `IdentityStatements`, `CorrectionStatements` and `InterleavedSet`, which splits an edit into its calls; rows are not removed by cascades.
- Argon2, SHA-256 and random bytes: uninterpreted functions; that a new temporary name is not in use is assumed of `os.CreateTemp`.
- TMDB, ffprobe and HTTP: each lookup, probe or download is whatever an environment parameter answers.
- File-system paths and durability: a path is its item, type and extension; cleaning, containment, links and power loss are not modelled.
- Floating point: scores, positions and runtimes are real numbers, and what a column rounds or refuses is a parameter.
- Integer width: the doubling pause is not bounded to 64 bits, which its cap keeps it far from.
- Timestamps: kept only where an upsert must preserve them; the refresh lists items by creation time in the order given to it.
- The text of refusals, log lines, job progress and the two-hundred-item limit on identification batches.
- The redactor's regular expression: its matches are given, as are the early returns of the header scrubber before any match is printed.
- Parsing migration file names and reading the embedded files.
- Locking a field through the service, which only checks the field's name and the item before the repository method that is modelled.
- Handlers, sessions, streaming, listings, filters and the choice of a playback method: translation without hard properties.
- RoutePaths.SpellingsAreRewritten: speaks of paths with non-empty segments whose route is not preceded by another match; other paths are covered by the fold's own lemmas.
- RefreshFixpoint.RefreshSettles: claims right tags for ordinary passes only; FullRefresh and ArtworkTags say what holds of full ones.
- FieldLocks.MetadataService.Set: a genre statement that fails midway is modelled in MetadataRows and LockStatements only, as for Refresh.RefreshService.StoreFields.
- Identity.IdentityRepository.Identify: a match that fails after its row is modelled in IdentityStatements only; resolving ids of other providers and the pause between requests are part of the verdict given to it.
- IdentityStatements.CorrectionStandsExactly: corrections and resets are whole there; CorrectionStatements.CorrectionArrivesExactly is the same with all of them split.
- IdentityStatements.StaysCleanExactly: resets are whole there; CorrectionStatements splits them only as something a correction meets.
