# Verified models of libgit2 algorithms

This project models the self-contained algorithms of the libgit2 sources that are vendored
in the repository, and proves what they are for. Each C file that changes things step by
step is modelled by methods and classes that do the same steps on arrays, fields and linked
nodes; every such method is proved against a specification function, and the main theorems
are lemmas about those functions.

| component | Dafny files | C files |
|---|---|---|
| Binary deltas: encoder, index, decoder | DeltaFormat, DeltaExact, DeltaEmit, DeltaCover, Rabin, RabinRolling, DeltaIndex, DeltaCreate | delta.c |
| Rename detection | RenameMatch, RenameRewrite, RenameCarried, RenameFates, RenameOutcome | diff_tform.c |
| Blame scoreboard | BlameLines, BlameNext, BlameEntries, BlameRun, BlameVerdict, BlameOldest, BlameBoundary, BlameList | blame_git.c |
| Ahead/behind | GraphReach, GraphPaint, Graph, GraphTied | graph.c |
| Configuration files | ConfigParse, ConfigHand, ConfigWrite, ConfigFrame, ConfigLines, ConfigRewrite | config_parse.c, config_file.c |
| Patch application | PatchApply, PatchText | apply.c, patch_parse.c |
| Tree-to-tree diff | DiffGenerate | diff_generate.c |
| Codecs and line endings | Buffer, Base85, Quote, Crlf, CrlfLaws | buffer.c, buf_text.c, crlf.c |

Common and TextLines hold what several components share. `dafny verify dfyconfig.toml`
checks the whole project.

What the outside world answers is a parameter: the diff of two blobs and the file of a
parent commit in blame, the similarity metric in rename detection, the pathspec match in the
tree diff, the verdict of the hunk callback in patch application, whether the index holds a
carriage return in the line-ending filters. Commit times and parents are given as a graph.

## Where the code does less than it is expected to do

For each of these a lemma gives the input, or the exact condition under which the code does
what is expected.

- Blame overwrites the user's oldest commit with any root commit it meets
  (libgit2/src/blame_git.c:532-533), so that a later visit to the user's oldest commit goes on
  to its parents. `BlameOldest.OldestExact` gives the exact condition on the commit graph:
  blame is right in every history over a graph if and only if the given commit is a root
  anyway, or no root is met before it on any way back, or it is not met at all. Where this
  fails, `BlameOldest.DisrespectedWrong` is a history on which the run convicts a commit
  behind the given one. It is one of oracle answers: the file, the renames and the diffs are
  the answers that blame gets, and for some graphs no trees give them, since a commit may hold
  the file for one child and not for another. `BlameOldest.ForkWrong` is a graph of four
  commits on which the condition fails and trees do give the answers. The culprit theorem of
  `BlameList.Scoreboard.LikeGit` holds under this condition.
- Ahead and behind are never too small, but they can be too large where a commit is as old as
  its parent: painting stops as soon as only stale commits are queued, and a common commit may
  then have the flag of one side only (libgit2/src/graph.c:62-88). `GraphTied.TiedCounts` is a
  history of five commits with a run that the queue permits and that counts one commit too
  many, although no commit is older than a parent. The counts are exact when, in addition,
  parents are strictly older below the best common ancestors
  (`Graph.Walk.GitGraphAheadBehind`).
- The culling of hash buckets keeps a single entry, not a uniform sample, for buckets of 64
  to 127 entries, since the skip count 0 is decremented before it is tested
  (libgit2/src/delta.c:239-242): `DeltaIndexing.SmallBucketKeepsOne`.
- A rename match can be lost when its source is itself the target of another match, because
  only the first target of a source is followed when files are swapped
  (libgit2/src/diff_tform.c:1000-1003). `RenameOutcome.LostRename` is a diff with scores for
  which every run of the matching loses a match. `RenameCarried.Carried` is the exact
  condition: a match becomes a rename if and only if it is carried
  (`RenameOutcome.RenamesFinished`), and a match above both thresholds is carried whenever its
  source comes after it or is no matched target (`RenameCarried.GoodMatchesCarried`).
- `num_rewrites` is decremented for type changes that were never counted, and wraps
  (libgit2/src/diff_tform.c:990). It only matters that it is not zero when something is to be
  deleted: `RenameRewrite.StepCounted`.
- A patch hunk without context that only deletes is looked for one line too high
  (libgit2/src/apply.c:242-249), and so it applies only where the line before repeats the
  deleted ones. `PatchApply.RunFollowsScript` says for whole patches, with such hunks
  behind any unchanged line, that they apply exactly if all lines are found where they are
  looked for, and that the outcome is the one that was meant if they are found at the meant
  places as well. Without such hunks a patch applies exactly if its lines stand where they
  are meant, and does what was meant: `PatchApply.PlainPatchFollowsScript`. For the patch of
  the difference of two texts `PatchText.DifferenceApplies` gives the exact condition.
- Setting a key can move its entry: the value is written where the first block of the section
  ends, even if the key is defined in a later block (libgit2/src/config_file.c:962-996).
  `ConfigFrame.MovedEntry` is such a file, and `ConfigFrame.OnceFrame` gives the exact
  condition under which the entry is replaced in its place.
- The 32-bit size of the delta buffer wraps around when a buffer of 1570824171 bytes is to
  grow (libgit2/src/delta.c:429-441). The code then shrinks the buffer to 208752608 bytes and
  goes on writing behind its end; the model stops with the outcome SizeWrapped. It does so
  exactly if there is no maximum, or one above that size, and the delta under construction
  reaches 1570824137 bytes (`DeltaCreate.GitDeltaCreateFromIndex`). With a source of at most
  16 bytes, whose index is empty so that every byte of the target becomes a literal, and
  without a maximum this happens exactly from targets of 1558552067 bytes on; for no source
  does it happen below 785412063 bytes.
- With a text attribute, a line that ends in two carriage returns and a line feed passes the
  safecrlf check and is not restored: `Crlf.SafeCrlfRoundTrip` gives the exact condition. With
  safecrlf off it is the exact condition for a file to show as modified right after it was
  checked out: `CrlfLaws.CheckinStable`.
- A closing quote that stands behind an escaped backslash is not seen when comments are looked
  for (libgit2/src/config_parse.c:40-41), so that a comment behind such a value is read as a
  part of it: `ConfigHand.HiddenQuote` is such a line, and `ConfigHand.HandWritten` says what
  every definition means, with the quotes that are seen.
- Subsections with a tab, a backspace or a newline are written with escapes that the header
  parser does not know, and values that begin or end with a carriage return, a vertical tab
  or a form feed lose them unless something else has them quoted:
  `ConfigWrite.SectionReadsBack` and `ConfigWrite.ValueReadsBack` give the exact conditions.

## Model

| member | source | states |
|---|---|---|
| DeltaFormat.ReadEncoded | libgit2/src/delta.c:303-317 | A size written as a header is read back with the same value, wherever it stands in the delta |
| DeltaFormat.EncodeSizeLength | libgit2/src/delta.c:303-317 | A 32-bit size takes at most five header bytes |
| DeltaFormat.HdrSz | libgit2/src/delta.c:465-487 | The header loop returns the size, or that the delta is truncated, as the format says |
| DeltaFormat.Command | libgit2/src/delta.c:572-614 | One command is carried out as it decodes, or refused when it is malformed, leaves the base or exceeds the announced size |
| DeltaFormat.Interpret | libgit2/src/delta.c:572-618 | The command loop succeeds exactly if every command decodes and they produce the announced number of bytes, and then gives those bytes |
| DeltaFormat.GitDeltaApply | libgit2/src/delta.c:534-628 | The whole decoder with its three kinds of failure is the specification function of delta application |
| DeltaExact.SizeExact | libgit2/src/delta.c:465-487 | A size header is the sum of its low seven bits, the lowest first, up to the first byte without the high bit; it is cut off at the end of the delta and has at most five bytes |
| DeltaExact.CommandExact | libgit2/src/delta.c:572-614 | Every command in closed form: which bytes of offset and length follow and where, 65536 for a length of zero, inserted bytes, and exactly the commands that are refused |
| DeltaExact.DeltaMeans | libgit2/src/delta.c:534-628 | A delta is its two sizes and its commands: the first size must be that of the base and the second that of what the commands write |
| DeltaEmit.CopyDecodes | libgit2/src/delta.c:397-414 | A copy command with zero bytes left out decodes to exactly that stretch of the base, up to 64 KB |
| DeltaEmit.ExecAppend | libgit2/src/delta.c:572-614 | Executing two delta pieces in a row joins their outputs |
| DeltaEmit.CloseRun | libgit2/src/delta.c:367-370 | Patching the count slot completes a run of literals |
| DeltaEmit.OpenRun | libgit2/src/delta.c:362-366 | Reserving a slot and adding a literal keeps the emitted prefix |
| DeltaEmit.ExtendRun | libgit2/src/delta.c:362-366 | A further literal keeps the emitted prefix |
| DeltaEmit.Unemit | libgit2/src/delta.c:376-392 | Taking back a literal, and its slot with the last one, undoes exactly one target byte |
| DeltaEmit.AppendCopy | libgit2/src/delta.c:397-418 | A copy after closed runs emits the matched stretch |
| DeltaCover.CoverLength | libgit2/src/delta.c:572-614 | Every byte of the output has the mark of its command |
| DeltaCover.CoverAppend | libgit2/src/delta.c:572-614 | Which command every byte of the output comes from, and how long that command is, is told piece by piece |
| DeltaCover.CoversTakenBack | libgit2/src/delta.c:376-391 | Taking back a literal takes back the mark of one byte |
| DeltaCover.CoversCopied | libgit2/src/delta.c:397-418 | A copy marks its bytes with its length |
| Rabin.T | libgit2/src/delta.c:13-60 | Bit 31 of every entry of the table is bit 0 of its index |
| Rabin.U | libgit2/src/delta.c:62-106 | Every entry of the second table is below 2^31 |
| Rabin.TopBitCancels | libgit2/src/delta.c:328-338 | Shifting a byte into a fingerprint below 2^31 gives one below 2^31, so that the table index stays in range |
| RabinRolling.TLinear | libgit2/src/delta.c:13-60 | Every entry of the table is the exclusive or of the entries for the bits of its index |
| RabinRolling.UIsReduced | libgit2/src/delta.c:62-106 | Every entry of the second table is what its index becomes by fifteen more shifts, all 256 of them |
| RabinRolling.Rolls | libgit2/src/delta.c:337-338 | Taking out the oldest byte and shifting in a new one gives the fingerprint of the window that has moved on |
| DeltaIndexing.BucketBound | libgit2/src/delta.c:232-245 | Whatever chain goes in, culling leaves at most 255 entries, a subsequence of the chain, empty only if it was |
| DeltaIndexing.SmallBucketKeepsOne | libgit2/src/delta.c:239-242 | Of a bucket with 64 to 127 entries only the first is kept; a larger one keeps more |
| DeltaIndexing.LimitedExact | libgit2/src/delta.c:232-245 | Below 64 entries a bucket is left alone, below 128 its first entry is kept, and of n entries from 128 on every (n / 128)-th |
| DeltaIndexing.CullBucket | libgit2/src/delta.c:236-244 | The relinking loops turn the chain of one bucket into its culled form and touch no other chain |
| DeltaIndexing.Advance | libgit2/src/delta.c:240-242 | The inner skip loop ends where the specification says, for skip counts of zero as well |
| DeltaIndexing.EnterPopulated | libgit2/src/delta.c:209-217 | Putting a block in front of its bucket keeps every chain well formed and every entry inside the source with its fingerprint |
| DeltaIndexing.LowerPopulated | libgit2/src/delta.c:206-208 | Moving the last entry down to an identical block keeps the same |
| DeltaIndexing.RunsExact | libgit2/src/delta.c:198-218 | There is one entry, at its end, for exactly those blocks that start a run of consecutive blocks with one fingerprint |
| DeltaIndexing.PrintOfBlock | libgit2/src/delta.c:203-205 | The loop over a block computes its fingerprint |
| DeltaIndexing.Populate | libgit2/src/delta.c:198-218 | After the backward walk every block is represented, exactly those that start a run of blocks with one fingerprint have an entry, and the counters are the chain lengths |
| DeltaIndexing.CullAll | libgit2/src/delta.c:232-245 | Every bucket is culled as counted |
| DeltaIndexing.BucketNumbers | libgit2/src/delta.c:171-174 | There are between 16 and 2^31 buckets: fewer than half the number of blocks if more than 16, and a quarter of them at least if fewer than 2^31 |
| DeltaIndexing.GitDeltaIndexInit | libgit2/src/delta.c:145-250 | There is an index exactly for a non-empty source; each bucket is the culled form of its full chain, in the order of the source, and has at most 255 entries; the full chains have one entry for exactly those blocks that start a run of blocks with one fingerprint; the number of buckets is the power of two that the mask needs |
| DeltaCreate.MatchLength | libgit2/src/delta.c:343-351 | The comparison loop finds the longest common stretch within both limits |
| DeltaCreate.FindMatch | libgit2/src/delta.c:335-360 | The search returns a true match: the one it started with or the whole match at an entry with the fingerprint, and a longest of them in a bucket in the order of the source unless it has 4096 bytes |
| DeltaCreate.EmitCopy | libgit2/src/delta.c:397-414 | The command bytes and the command byte patched afterwards are the copy command of the format |
| DeltaCreate.Encoder.LiteralStep | libgit2/src/delta.c:362-371 | One byte more is sent as it is, and a full run is closed; the delta stays an encoding of the target so far |
| DeltaCreate.TryEntry | libgit2/src/delta.c:338-358 | An entry with the right fingerprint is taken exactly if it matches longer, and the walk stops there exactly if the match is good enough or no room is left for a longer one |
| DeltaCreate.Encoder.Search | libgit2/src/delta.c:335-360 | The rolled value that selects the bucket is the fingerprint of the sixteen bytes that end at the current one; with an index as init makes it, what comes out is a longest match of the entries of the bucket with that fingerprint and the one at hand, or has 4096 bytes |
| DeltaCreate.Encoder.ExtendBack | libgit2/src/delta.c:376-391 | A match is extended backwards as far as it agrees within the open run, no less and no further, and the literals that it takes back are undone |
| DeltaCreate.Encoder.CopyStep | libgit2/src/delta.c:372-427 | A copy of the match, from as far back as it agrees, of at most 64 KB; the rest is left to be matched, and the fingerprint is that of the last sixteen bytes before the next search |
| DeltaCreate.Encoder.Send | libgit2/src/delta.c:362-427 | A match of four bytes or more is copied, in at most seven bytes and with no open run left; with a shorter one exactly one byte is sent as it is |
| DeltaCreate.Encoder.Step | libgit2/src/delta.c:331-441 | A whole round: the search, then the copy of four bytes or more, or else one byte as it is; with an index as init makes it, no entry with that fingerprint agrees for four bytes then |
| DeltaCreate.FrugalCopy | libgit2/src/delta.c:362-427 | A copy of n bytes over literals leaves every byte either in a copy of at least four bytes or without an entry to be matched |
| DeltaCreate.Encoder.Grow | libgit2/src/delta.c:429-441 | After every step there is room for one more, unless the maximum is exceeded or a buffer of 1570824171 bytes is full and its size wraps |
| DeltaCreate.EncodingDone | libgit2/src/delta.c:444-455 | A delta that encodes the whole target is applied to give exactly the target |
| DeltaCreate.GitDeltaCreateFromIndex | libgit2/src/delta.c:270-456 | For any valid index a delta that is returned turns the source into the target, has at most twice its size plus eleven bytes and respects the maximum; every copy in it has 4 to 65536 bytes and, with an index as init makes it, no byte is sent as it is where an entry with the fingerprint agrees for four bytes or more, unless it stands among the first sixteen; the size that the delta reaches decides the outcome: above the maximum it is refused, and exactly from 1570824137 bytes on, without a maximum or with one above that size, the buffer size wraps; with an empty index that is told by the size of the target |
| DeltaCreate.RoundTrip | libgit2/src/delta.c:145-628 | Indexing, creating and applying gives the target back for all non-empty 32-bit inputs, unless the delta reaches the size at which that of the buffer wraps; it does so for no target below 785412063 bytes and, with a source of at most 16 bytes, exactly for targets that do not fit as literals |
| RenameMatch.UpdateMatches | libgit2/src/diff_tform.c:898-917 | Replacing old partners by a better pair keeps the two arrays mutually inverse and scored |
| RenameMatch.UpdateProgress | libgit2/src/diff_tform.c:898-917 | Every update increases the sum of 3 to the similarity over all matched pairs |
| RenameMatch.PotentialBound | libgit2/src/diff_tform.c:939-940 | That sum is bounded, so that the repeated passes end |
| RenameMatch.Rematch | libgit2/src/diff_tform.c:898-917 | The in-place update of both arrays is the specified one, and the bump count is right |
| RenameMatch.TrySources | libgit2/src/diff_tform.c:878-934 | Over the sources of a target, with the rename limit, the matching stays sound, and without a bump every examined pair is content |
| RenameMatch.ExaminedExact | libgit2/src/diff_tform.c:878-934 | A pair is looked at exactly if its ends are labelled and can be compared and no more than the limit of sources before that one can |
| RenameMatch.ContentExact | libgit2/src/diff_tform.c:894-899 | A pair stands back only behind a match of one of its ends whose 16-bit score is at least as high |
| RenameMatch.Pass | libgit2/src/diff_tform.c:872-937 | The same for one pass over all targets, with progress if anything was bumped |
| RenameMatch.FindBestMatches | libgit2/src/diff_tform.c:872-940 | The goto loop terminates with a one-to-one matching of labelled, scored pairs, and no examined pair scores higher than the current matches of both its ends |
| RenameRewrite.LabelSensible | libgit2/src/diff_tform.c:653-774 | Labelling keeps files and statuses; only modified deltas are marked for splitting, targets are new or split, sources deleted, type changed or modified |
| RenameFates.LabelExact | libgit2/src/diff_tform.c:653-774 | Which deltas are sources, targets and marked for splitting, and what similarity they get, from status, modes, options and thresholds |
| RenameFates.BlobMode | libgit2/src/futils.h:265-267 | Blobs are the regular files, whatever their permissions |
| RenameRewrite.FilesExchange | libgit2/src/diff_tform.c:970-1061 | Two deltas that together keep their old and new files leave the files of the whole diff alone |
| RenameRewrite.TargetWaits | libgit2/src/diff_tform.c:970-1028 | The assertions of the rewrite loop hold: a target that is not new is split, and a source is never a renamed delta |
| RenameRewrite.DistinctKept | libgit2/src/diff_tform.c:1000-1003 | Targets that still wait point at distinct sources that are not to be deleted |
| RenameRewrite.FaithfulKept | libgit2/src/diff_tform.c:1000-1003 | A waiting target points at the file it was matched to, wherever it was swapped, unless that place was renamed; a renamed delta has got its file |
| RenameRewrite.StepExchanges | libgit2/src/diff_tform.c:970-1061 | In every case of the rewrite loop the two deltas exchange their old sides and keep their new ones |
| RenameRewrite.StepConserves | libgit2/src/diff_tform.c:946-1061 | Each step keeps the multiset of old files and the multiset of new files |
| RenameRewrite.StepSound | libgit2/src/diff_tform.c:946-1061 | Each step keeps shape, distinctness, faithfulness and the link to the original matching |
| RenameCarried.CaseInTurn | libgit2/src/diff_tform.c:946-1061 | At its turn a target is renamed by some case of the loop exactly if it is in turn: still waiting, its source there and not renamed, and similar enough for what it is by then |
| RenameCarried.TurnSwaps | libgit2/src/diff_tform.c:1041-1052 | A waiting target is renamed along with another exactly if the two are each other's source at that moment and it scores above the rewrite threshold |
| RenameCarried.TurnWhere | libgit2/src/diff_tform.c:1000-1003 | Where a waiting target looks for its file after a step, in closed form over the labelled diff and the matching |
| RenameCarried.StepExact | libgit2/src/diff_tform.c:946-1061 | Each step keeps the exact account: processed targets are renamed if and only if they are carried, and every waiting one is where the closed form says |
| RenameCarried.GoodMatchesCarried | libgit2/src/diff_tform.c:946-1061 | A match above both thresholds is carried unless its source is a matched target before it |
| RenameFates.PlainCarried | libgit2/src/diff_tform.c:970-1040 | A match whose source is matched to nothing itself becomes a rename exactly if it reaches the threshold for what its target is |
| RenameFates.ExchangedCarried | libgit2/src/diff_tform.c:1030-1061 | Two files that were exchanged, and are nobody else's source, both become renames exactly if their scores reach the thresholds |
| RenameFates.PlaceTaken | libgit2/src/diff_tform.c:1000-1003 | The place where a carried match finds its file is itself the source of a carried match |
| RenameFates.StepLeaves | libgit2/src/diff_tform.c:946-1061 | A step of the rewrite loop leaves all deltas alone but its target and the place of its file |
| RenameRewrite.StepCounted | libgit2/src/diff_tform.c:970-1061 | As long as nothing was updated, the counter covers everything that is to be deleted |
| RenameOutcome.StepsKept | libgit2/src/diff_tform.c:946-1061 | The whole loop keeps all of it |
| RenameOutcome.LostRename | libgit2/src/diff_tform.c:872-1061 | A diff and scores for which every stable matching contains a match above both thresholds that ends as an addition and a deletion |
| RenameRewrite.RewriteFromDeleted | libgit2/src/diff_tform.c:970-1005 | The in-place branch for deleted sources is the specified step |
| RenameRewrite.RewriteFromSplit | libgit2/src/diff_tform.c:1007-1061 | The in-place branch for split sources, including a delta matched to itself after re-pointing, is the specified step |
| RenameRewrite.Rewrite | libgit2/src/diff_tform.c:946-1061 | The loop over the arrays is the fold of the specified steps |
| RenameRewrite.AllFinishedFiles | libgit2/src/diff_tform.c:371-428 | Dropping and splitting keeps the files of both sides |
| RenameRewrite.ApplySplitsAndDeletes | libgit2/src/diff_tform.c:371-428 | The loop drops and splits every delta as specified |
| RenameFates.FatesFinished | libgit2/src/diff_tform.c:371-428 | What becomes of every delta, from the deltas that went in, the options and the carried matches: a rename, one delta with both its files, or exactly where splitting applies a deletion and an addition |
| RenameFates.FatesUnfinished | libgit2/src/diff_tform.c:1090-1099 | The same for a list that is left as it is because nothing is to be deleted or split |
| RenameOutcome.RenamesFinished | libgit2/src/diff_tform.c:946-1099 | The renames of the final list are exactly the carried matches: each joins the files of a carried pair with its score above a threshold, and none is missing |
| RenameOutcome.Diff.GitDiffFindSimilar | libgit2/src/diff_tform.c:799-1115 | On a diff without renames and without FIND_COPIES: the pairs are matched in a stable way, the renames are exactly the carried matches, the old files and the new files are the same, each as often, and nothing is left that is to be deleted; every other delta stays one delta with both its files unless rewrites are to be broken, not for renames only, and it was marked, in which case it is a deletion and an addition; without a flag nothing changes |
| BlameLines.MapLineExact | libgit2/src/blame_git.c:329-342 | Under a valid hunk list a line maps to the parent exactly if it lies in no hunk, and then to a line with the same text |
| BlameLines.NextIsOlder | libgit2/src/blame_git.c:516-597 | Blame of a line is only ever passed to a commit of smaller height |
| BlameLines.TraceKeepsText | libgit2/src/blame_git.c:516-597 | Tracing a single line to its culprit keeps its text |
| BlameLines.TraceEndsAtCulprit | libgit2/src/blame_git.c:516-597 | Where tracing ends, no parent takes the line |
| BlameNext.DecideExact | libgit2/src/blame_git.c:542-580 | The first loop over the parents ends with the first file that is unchanged, or with every different text once |
| BlameNext.NextExact | libgit2/src/blame_git.c:516-597 | Where a line goes next: to the first parent looked at whose file has the same text, otherwise to the first one that has the line in no hunk, and to none if there is none |
| BlameNext.MapLineMoves | libgit2/src/blame_git.c:329-342 | Which line of the parent that is: it has moved by what the hunks before it take out and put in |
| BlameEntries.ApplyMoves | libgit2/src/blame_git.c:134-171 | Splitting an entry by a chunk moves exactly the lines inside the chunk to the parent, with the right line numbers |
| BlameEntries.ApplyTiles | libgit2/src/blame_git.c:134-171 | The parts of a split tile the entry |
| BlameEntries.ApplyAllMoves | libgit2/src/blame_git.c:305-327 | One chunk over the whole scoreboard moves each line as it would alone |
| BlameEntries.ApplyAllTiles | libgit2/src/blame_git.c:305-327 | One chunk keeps the tiling |
| BlameEntries.PassHunksLines | libgit2/src/blame_git.c:329-420 | All hunks and the tail together treat each line by its place in the diff |
| BlameRun.RoundLines | libgit2/src/blame_git.c:638-669 | A round of the main loop treats each line independently of how entries are split |
| BlameRun.RoundTiles | libgit2/src/blame_git.c:638-669 | A round keeps the scoreboard sorted and tiling the requested range |
| BlameRun.RoundKeepsText | libgit2/src/blame_git.c:638-669 | After a round every line has its text at its place in its suspect |
| BlameRun.RoundOnTrace | libgit2/src/blame_git.c:638-669 | After a round every line is still on the way that tracing it alone would take |
| BlameRun.RoundProgress | libgit2/src/blame_git.c:638-669 | Each round decreases the sum over open lines of the height of their suspect plus one |
| BlameRun.CoalesceLines | libgit2/src/blame_git.c:617-636 | Merging keeps suspect and line of every line |
| BlameRun.CoalesceTiles | libgit2/src/blame_git.c:617-636 | Merging keeps the tiling |
| BlameRun.CoalesceFinal | libgit2/src/blame_git.c:617-636 | After merging no two neighbours could be merged |
| BlameVerdict.HoldsKept | libgit2/src/blame_git.c:525-533 | A round keeps the given oldest commit respected, although it is overwritten with each end that is met |
| BlameVerdict.RoundRuns | libgit2/src/blame_git.c:638-669 | A round keeps tiling, texts and the outcome of the run, decreases the measure and, where the oldest commit is respected, leaves every line on its own trace |
| BlameOldest.RespectedRight | libgit2/src/blame_git.c:516-669 | Where no root is met before the given oldest commit, or that is never met or a root itself, every history over the graph ends with the right culprits |
| BlameOldest.DisrespectedWrong | libgit2/src/blame_git.c:516-669 | Otherwise there is a history over the graph on which a line is blamed behind the given oldest commit |
| BlameOldest.ForkWrong | libgit2/src/blame_git.c:516-669 | A merge of a root and of the given oldest commit, with the files and renames of trees, on which a line is blamed behind the oldest commit |
| BlameOldest.RespectedHolds | libgit2/src/blame_git.c:516-669 | For a run that starts with one entry the condition on the graph is the one that the run keeps |
| BlameOldest.OldestExact | libgit2/src/blame_git.c:516-669 | The two together: an exact condition on the commit graph for the culprits to be right |
| BlameBoundary.BoundariesRight | libgit2/src/blame_git.c:659-667 | Where the given oldest commit is respected, exactly the entries blamed on a root or on that commit are marked as boundaries |
| BlameList.Scoreboard.FindPrev | libgit2/src/blame_git.c:183-184 | The place of a new entry is behind the last one that starts below it |
| BlameList.Scoreboard.AddBlameEntry | libgit2/src/blame_git.c:177-197 | Relinking inserts exactly one node at its place in the list |
| BlameList.Scoreboard.SplitBlame | libgit2/src/blame_git.c:222-264 | The four ways to reuse and add nodes replace one entry by its parts |
| BlameList.Scoreboard.BlameChunk | libgit2/src/blame_git.c:305-327 | Walking the list while it grows applies the chunk once to every entry |
| BlameList.Scoreboard.PassBlameToParent | libgit2/src/blame_git.c:397-420 | Passing a diff over the list is the specified function, and it reports when nothing remains |
| BlameList.Scoreboard.PassWholeBlame | libgit2/src/blame_git.c:496-514 | All entries of the origin go to the parent file with the same blob |
| BlameList.Scoreboard.PassBlame | libgit2/src/blame_git.c:516-610 | Choosing parents, equal blobs, duplicates and the oldest commit is the specified decision |
| BlameList.Scoreboard.TakeResponsibility | libgit2/src/blame_git.c:659-667 | What is left of the suspect becomes guilty |
| BlameList.Scoreboard.Coalesce | libgit2/src/blame_git.c:617-636 | Unlinking merged nodes gives the coalesced list |
| BlameList.Scoreboard.LikeGit | libgit2/src/blame_git.c:638-675 | The whole run ends with the coalesced outcome of rounds for the first open suspect; all entries are guilty, tile the range, have their text, and no two neighbours continue each other in one suspect; where the oldest commit is respected each culprit is the one that tracing the line gives, and the boundary marks are on roots and on the oldest commit |
| GraphReach.BestIsChildless | libgit2/src/graph.c:62-88 | With strict times a best common ancestor is a common ancestor without a child that is one |
| GraphReach.OneSided | libgit2/src/graph.c:62-88 | When only stale commits are queued, a commit reached from one side only has the flag of that side |
| GraphReach.Complete | libgit2/src/graph.c:62-88 | When nothing newer is queued, flags have reached every ancestor |
| GraphReach.ExactWhenNewest | libgit2/src/graph.c:62-88 | The flags of the newest queued commit say exactly which sides reach it |
| GraphPaint.HandedOnIsSound | libgit2/src/graph.c:69-85 | Flags handed to a parent are true of it, for any times |
| GraphPaint.PassingStep | libgit2/src/graph.c:77-88 | Marking one parent, or skipping it, keeps all flags sound and settled |
| GraphPaint.PopMarks | libgit2/src/graph.c:62-94 | A round leaves only true flags behind, and what a painted commit hands on has reached its parents unless it is queued |
| GraphPaint.PopProgress | libgit2/src/graph.c:62-94 | Every round sets a flag or shortens the queue, so that painting ends for any times |
| GraphPaint.StaleStays | libgit2/src/graph.c:14-94 | Once only stale commits are queued, a further round would keep it so, make no commit a RESULT, and set no flag on a commit that is not an ancestor of both |
| GraphPaint.StaleForever | libgit2/src/graph.c:14-94 | The same for any number of further rounds: the early exit loses no RESULT and no flag of a commit reached from one side only |
| GraphPaint.PopDescends | libgit2/src/graph.c:62-94 | When no parent is newer than its child, commits are popped newest first and all that is painted is queued or was popped |
| GraphPaint.OneFlagExact | libgit2/src/graph.c:62-94 | When in addition parents are older below the best common ancestors, a commit with one flag at the exit is reached from that side only |
| GraphPaint.PopOrdered | libgit2/src/graph.c:62-94 | With strict times a popped commit has exactly its flags, and RESULT exactly if it is a best common ancestor |
| GraphPaint.ResultIsBest | libgit2/src/graph.c:62-88 | At the early exit exactly the best common ancestors are marked RESULT |
| Graph.Walk.Interesting | libgit2/src/graph.c:14-31 | The loops over the queue and over the roots say no exactly when all that is queued and every root met so far is stale |
| Graph.Walk.HandOn | libgit2/src/graph.c:77-88 | The inner loop marks and queues the parents as specified, one after the other |
| Graph.Walk.MarkParents | libgit2/src/graph.c:33-105 | Painting is a whole run of rounds, each of a newest queued commit, until there is nothing left to do; it ends for any times with flags that imply reachability; where times suffice single flags are exact, and with strict times RESULT is |
| Graph.CountingDone | libgit2/src/graph.c:124-139 | When the counting queue is empty exactly the commits were counted that are reached through commits with one and the same flag |
| Graph.LinesExclusive | libgit2/src/graph.c:108-144 | Those are all the exclusive ancestors, and where times suffice nothing else |
| Graph.Walk.AheadBehind | libgit2/src/graph.c:108-144 | The counts are the numbers of those commits: never less than the exclusive ancestors, and as many where times suffice |
| Graph.Walk.GitGraphAheadBehind | libgit2/src/graph.c:146-175 | The two phases together, for the flags that a whole run of the painting leaves |
| GraphTied.TiedCounts | libgit2/src/graph.c:14-144 | With one commit as old as its parent and all others newer, a run that the queue permits counts two commits where one is exclusive |
| ConfigParse.StripInPlace | libgit2/src/config_parse.c:35-64 | The scan with its quote and backslash counts ends the string where the comment starts and trims it |
| ConfigParse.UnescapeLine | libgit2/src/config_parse.c:284-328 | The loop gives the unescaped value, the start of a continued one, or an invalid escape |
| ConfigParse.ParseNameOf | libgit2/src/config_parse.c:386-418 | Name, equals sign and value are found, or the line is refused |
| ConfigParse.ParseSubsectionHeader | libgit2/src/config_parse.c:67-158 | The quoted subsection is read up to its closing quote and bracket, or refused |
| ConfigParse.ParseSectionHeader | libgit2/src/config_parse.c:160-228 | The base name is lowered and the header is read, or refused |
| ConfigParse.ParseVariableOf | libgit2/src/config_parse.c:420-475 | A definition is stripped, named and unescaped |
| ConfigParse.ParseLineOf | libgit2/src/config_parse.c:507-570 | One line is told to be a header, a comment, a definition or an error |
| ConfigHand.CommentIsFirst | libgit2/src/config_parse.c:35-64 | In any line a comment starts at the first semicolon or hash with an even number of quotes before it that do not stand behind a backslash, and of backslashes right before it |
| ConfigHand.CommentLines | libgit2/src/config_parse.c:507-557 | Which lines are comments or blank, by their first character that is not white space |
| ConfigHand.CommentCutOff | libgit2/src/config_parse.c:35-64 | Behind a definition a semicolon or a hash and all that follows does not matter |
| ConfigHand.UnescapeExact | libgit2/src/config_parse.c:284-328 | A text has a value exactly if it is spelt with characters, quotes and the five escapes to its end; a backslash left at the end continues it, any other escape is refused |
| ConfigHand.HandWritten | libgit2/src/config_parse.c:386-475 | A name and a value with any white space, quotes, escapes and a comment behind are read as that name with what the value means; between an opening and a closing quote no comment starts |
| ConfigHand.NameAlone | libgit2/src/config_parse.c:386-475 | A name alone is a name without a value |
| ConfigHand.NoDefinition | libgit2/src/config_parse.c:386-418 | A line that does not start with a name, or has something other than an equals sign behind it, is refused |
| ConfigHand.HiddenQuote | libgit2/src/config_parse.c:40-41 | A definition whose closing quote stands behind an escaped backslash and whose comment is read as part of the value |
| ConfigHand.PlainHeader | libgit2/src/config_parse.c:160-228 | A name in brackets is read as the section in small letters |
| ConfigHand.SubsectionHeader | libgit2/src/config_parse.c:67-158 | A quoted subsection is read with its letters as they are, and with the character behind each backslash |
| ConfigWrite.UnescapeEscaped | libgit2/src/config_file.c:519-548 | Unescaping an escaped value, with anything behind it, gives the value |
| ConfigWrite.NoCommentWritten | libgit2/src/config_file.c:897-960 | In a written definition no comment is seen, whatever the value |
| ConfigWrite.ValueLineParses | libgit2/src/config_file.c:943-960 | What is written for a name and a value is read as that name with the stored value |
| ConfigWrite.ValueReadsBack | libgit2/src/config_file.c:897-926 | The stored value is the value exactly if it is quoted or neither begins nor ends with CR, VT or FF |
| ConfigLines.LineWritten | libgit2/src/config_file.c:897-960 | The line that is written for a value, and that it is quoted exactly if the value is empty, begins or ends with a space, or has a semicolon or a hash |
| ConfigWrite.HeaderLineParses | libgit2/src/config_file.c:867-895 | A written section header is read as the stored section |
| ConfigWrite.SectionReadsBack | libgit2/src/config_file.c:867-895 | The stored section is the section exactly if the subsection has no tab, backspace or newline |
| ConfigFrame.Frame | libgit2/src/config_file.c:962-1085 | From any line and state on, and for any parser that reads the written header and definition back (as this one does), what is written is read as the entries before the place of the value, the new entry if one is set, and the other entries behind |
| ConfigFrame.OutcomeParts | libgit2/src/config_file.c:962-1085 | That place is the first line that ends a block of the section or defines the key, or the end |
| ConfigFrame.OnceFrame | libgit2/src/config_file.c:962-1085 | A key that is there once: deleting takes out its entry, and setting replaces it in its place if and only if no block of its section ends before its definition with another definition in between |
| ConfigFrame.MissingFrame | libgit2/src/config_file.c:962-1085 | A key that is not there: deleting changes nothing, and setting puts its entry in where the first block of its section ends, or at the end |
| ConfigFrame.MovedEntry | libgit2/src/config_file.c:962-996 | A file in which setting a key moves its entry in front of another one |
| ConfigFrame.SetFrame | libgit2/src/config_file.c:962-1085 | For a whole file: the entries that are read are exactly the revised ones, other keys are the same in the same order, the key has its new value once or not at all, and the file stays one of simple lines |
| ConfigLines.KeyNamed | libgit2/src/config_file.c:1022-1025 | A definition is one of the key exactly if it stands in the key's section and its name is the same but for case |
| ConfigLines.RewrittenLines | libgit2/src/config_file.c:962-1085 | Line by line: all lines that do not define the key stay, comments too and in their order, and the new line replaces the first definition, or stands before the comments in front of the header that ends the first block of the section, or at the end with a header if that is another section |
| ConfigRewrite.WriteData.WriteValue | libgit2/src/config_file.c:943-960 | The value is written and forgotten |
| ConfigRewrite.WriteData.WriteOnSection | libgit2/src/config_file.c:962-996 | Leaving the section writes a pending value before the held back comments and the header |
| ConfigRewrite.WriteData.WriteOnVariable | libgit2/src/config_file.c:998-1044 | A definition is copied, replaced or dropped |
| ConfigRewrite.WriteData.WriteOnComment | libgit2/src/config_file.c:1046-1054 | A comment is held back |
| ConfigRewrite.WriteData.WriteOnEof | libgit2/src/config_file.c:1056-1085 | At the end comments, a missing section header and a pending value are written |
| ConfigRewrite.ConfigFileWrite | libgit2/src/config_file.c:1090-1146 | Driving the callbacks over the lines gives the rewritten text, or nothing if a line cannot be parsed |
| ConfigRewrite.SetOrDelete | libgit2/src/config_file.c:1090-1146 | Set or delete, then read: the lines are the old ones without the definitions of the key and with the new line in its place, and the entry list is the old one with exactly that entry replaced in place, put in or taken out, and moved exactly under the stated condition |
| TextLines.JoinLines | libgit2/src/apply.c:60-89 | The lines of a text make up the text |
| PatchApply.PatchImage.InitFromStr | libgit2/src/apply.c:60-89 | The vector holds the lines of the source |
| PatchApply.PatchImage.MatchHunk | libgit2/src/apply.c:100-128 | The comparison succeeds exactly if the preimage stands at that line |
| PatchApply.PatchImage.UpdateHunk | libgit2/src/apply.c:148-177 | Making or taking room and overwriting splices the postimage in |
| PatchApply.CollectLines | libgit2/src/apply.c:210-240 | Preimage and postimage are collected, and a marker shortens the line before it in the patch |
| PatchApply.ApplyHunk | libgit2/src/apply.c:185-263 | One hunk is skipped with its counters, applied, or refused, as specified |
| PatchApply.StepReached | libgit2/src/apply.c:242-257 | With skipped hunks subtracted, the next hunk is looked for where the changes made so far have moved it |
| PatchApply.RunFollowsPlaces | libgit2/src/apply.c:266-293 | For ordered hunks and any set of skipped ones, applying succeeds exactly if no callback stops it and every other hunk finds its lines where it looks for them, and gives the source with exactly those changes |
| PatchApply.ScriptPlaced | libgit2/src/apply.c:242-249 | The headers of an edit script say where its hunks are looked for: in their place, and a line higher for a hunk that leaves no line |
| PatchApply.ResultAsMeant | libgit2/src/apply.c:242-257 | Where such hunks find their lines a line too high and in their place, the outcome is the one that was meant |
| PatchApply.RunFollowsScript | libgit2/src/apply.c:266-293 | The three together for edit scripts with or without context |
| PatchApply.PlainPatchFollowsScript | libgit2/src/apply.c:242-293 | A script without deletions that have no context applies exactly if nothing stops it and its lines stand where they are meant, and then makes exactly its changes |
| PatchApply.DeletionOnly | libgit2/src/apply.c:242-257 | When a first deletion without context applies, and that it then does what it should |
| PatchApply.ApplyHunks | libgit2/src/apply.c:266-293 | The text is added to the output if all hunks apply, and the output is left alone otherwise |
| PatchText.HunkSides | libgit2/src/apply.c:210-240 | A hunk expects the texts of its context lines and deletions and puts there those of its context lines and additions, each in order and without its line feed exactly if one of the three markers follows |
| PatchText.RenderedSides | libgit2/src/patch_parse.c:557-670 | The lines of a difference, rendered by a parsed or a generated patch with its markers, give the old and the new lines back as they are in the texts |
| PatchText.RendersScript | libgit2/src/apply.c:242-249 | A patch that renders a difference is an edit script |
| PatchText.DifferenceApplies | libgit2/src/apply.c:266-293 | Whatever hunks of a difference are skipped, its patch applies if and only if no callback stops it and the hunks that only delete without context repeat the line before them, and then makes the merged text |
| PatchText.MergedEnds | libgit2/src/apply.c:194-208 | With all hunks made that is the new text, with all of them skipped the old one |
| PatchText.FirstToSecond | libgit2/src/apply.c:266-293 | The patch of the difference of two texts turns the first one into the second, with or without final line feeds |
| PatchText.GitApplyPatch | libgit2/src/apply.c:386-441 | What is added to the output is the merged text of a difference, the edited source of an edit script, and in general the outcome of the hunks, or nothing if they do not apply; a removal that leaves a text is refused, and the new name and mode are given |
| DiffGenerate.MergeAt | libgit2/src/diff_generate.c:1221-1251 | For every path the merge makes exactly the deltas that the two entries of that path call for |
| DiffGenerate.MergeDescribes | libgit2/src/diff_generate.c:1186-1263 | Removing what is deleted and putting what is added or changed turns the one tree into the other at every reported path, in both directions |
| DiffGenerate.MergeTransforms | libgit2/src/diff_generate.c:1186-1263 | When everything is reported the outcome is the other tree |
| DiffGenerate.MergeTrue | libgit2/src/diff_generate.c:735-881 | No delta is made up: its sides are what the trees hold and there is a difference to report |
| DiffGenerate.MergeReports | libgit2/src/diff_generate.c:735-881 | Exactly which deltas there are for every path: unmodified ones only on request, and a change of type as one delta on request and otherwise as a deletion and an addition |
| DiffGenerate.MergeOrdered | libgit2/src/diff_generate.c:1221-1251 | The deltas are in the order of their paths |
| DiffGenerate.LessIs | libgit2/src/diff_generate.c:1221-1251 | Paths are compared by the first byte in which they differ |
| DiffGenerate.DiffGenerated.DeltaFromOne | libgit2/src/diff_generate.c:120-186 | A one-sided delta with sides and status exchanged under REVERSE |
| DiffGenerate.DiffGenerated.DeltaFromTwo | libgit2/src/diff_generate.c:188-248 | A two-sided delta, left out for unmodified entries that are not asked for |
| DiffGenerate.DiffGenerated.MaybeModifiedItem | libgit2/src/diff_generate.c:735-881 | The decision for a matched path, with a type change as deletion and addition |
| DiffGenerate.DiffGenerated.FromIterators | libgit2/src/diff_generate.c:1221-1251 | The loop over the two iterators is the merge, and it ends |
| DiffGenerate.GitDiffTreeToTree | libgit2/src/diff_generate.c:1291-1332 | The deltas describe the change in the direction asked for, each one is true, and for every path they are exactly those that the options call for, in the order of the paths |
| Buffer.Buf.EnsureSize | libgit2/src/buffer.c:37-117 | Growing keeps the text |
| Base85.DigitOfLetter | libgit2/src/buffer.c:346-406 | The decoding table inverts the alphabet |
| Base85.LetterOfDigit | libgit2/src/buffer.c:346-406 | Only letters of the alphabet have a digit, and the alphabet inverts the table |
| Base85.RoundTrip | libgit2/src/buffer.c:349-468 | Decoding an encoding with the original length gives the bytes back, for partial last blocks too |
| Base85.DecodeAccepts | libgit2/src/buffer.c:414-450 | The decoder accepts exactly whole groups, enough of them, made of letters and with a value below 2^32 |
| Base85.DecodeEncodes | libgit2/src/buffer.c:408-468 | On whole blocks, encoding what was decoded gives the characters back |
| Base85.BlockEncoded | libgit2/src/buffer.c:349-386 | Four bytes, or fewer filled up with zeros, become the five characters for the number they make, the most significant first, and the rest is encoded behind them |
| Base85.AcceptedExact | libgit2/src/buffer.c:427-449 | A group is accepted exactly if it is five characters of the alphabet for a number below 2^32 |
| Base85.GitBufEncodeBase85 | libgit2/src/buffer.c:349-386 | The loops append the encoding within the room that was made |
| Base85.ReadGroup | libgit2/src/buffer.c:427-449 | The two overflow tests accept a group exactly if its value is below 2^32 |
| Base85.GitBufDecodeBase85 | libgit2/src/buffer.c:408-468 | The decoded bytes are appended, or the text is left as it was |
| Quote.RoundTrip | libgit2/src/buffer.c:903-1036 | Whatever quoting changes, unquoting restores |
| Quote.QuotedInjective | libgit2/src/buffer.c:903-966 | Different texts are quoted differently |
| Quote.QuotedExact | libgit2/src/buffer.c:903-966 | A text is left alone exactly if it is printable ASCII without quotes and backslashes and does not begin with an exclamation mark; what is quoted is printable ASCII |
| Quote.EscapedInside | libgit2/src/buffer.c:929-955 | Every byte is written in its own way wherever it stands: with a letter, with a backslash, as three octal digits or as it is |
| Quote.NextExact | libgit2/src/buffer.c:979-1023 | What is read next is exactly one of the ways to write a byte |
| Quote.GitBufQuote | libgit2/src/buffer.c:903-966 | The buffer is swapped for the quoted text exactly if something needs quoting |
| Quote.ReadEscaped | libgit2/src/buffer.c:979-1023 | One escape sequence is read, with all its error cases |
| Quote.GitBufUnquote | libgit2/src/buffer.c:969-1036 | Unquoting in place, with the writing index behind the reading index, gives the unescaped text exactly if it is well formed, and otherwise leaves the trimmed text with the readable characters written over its beginning |
| Crlf.ConvertAttrs | libgit2/src/crlf.c:287-345 | Binary files stay binary; otherwise the line ending is the one of the eol attribute, then of the text attribute with the settings, then of core.autocrlf; which files are automatic; and ALLOW_UNSAFE turns failing into warning |
| Crlf.CountCrlfToLf | libgit2/src/buf_text.c:64-109 | Dropping carriage returns leaves all counts of the binary heuristic alone, and leaves a CRLF only where two carriage returns stood |
| Crlf.LfToCrlfRestores | libgit2/src/buf_text.c:111-153 | Where all line feeds follow exactly one carriage return, the conversions are inverse |
| Crlf.CrlfAndBack | libgit2/src/buf_text.c:64-153 | Converting to CRLF first does not change the conversion to LF |
| Crlf.GitBufTextCrlfToLf | libgit2/src/buf_text.c:64-109 | The chunk loop converts within the room for the source |
| Crlf.GitBufTextLfToCrlf | libgit2/src/buf_text.c:111-153 | The chunk loop converts, mixed line endings included |
| Crlf.GitBufTextGatherStats | libgit2/src/buf_text.c:268-316 | The counts and the binary verdict |
| Crlf.CrlfApplyToOdb | libgit2/src/crlf.c:208-251 | The clean filter |
| Crlf.CrlfApplyToWorkdir | libgit2/src/crlf.c:253-285 | The smudge filter |
| Crlf.SafeCrlfRoundTrip | libgit2/src/crlf.c:153-285 | With safecrlf set to fail, what may be cleaned is restored by smudging: always for automatic actions without a CR in the index, and for text actions exactly without two carriage returns before a line feed |
| CrlfLaws.StatsSay | libgit2/src/buf_text.c:268-316 | What the counts say about a text: whether it has CRLFs, bare line feeds and bare carriage returns, and when it looks binary |
| CrlfLaws.CleanExact | libgit2/src/crlf.c:208-251 | Whatever core.safecrlf says: every text that is not left alone loses exactly the carriage returns before line feeds, unless it is to be refused, and exactly which texts are |
| CrlfLaws.SmudgeExact | libgit2/src/crlf.c:253-285 | Exactly which texts get carriage returns, and that every line feed has one then and nothing else changes |
| CrlfLaws.CheckinStable | libgit2/src/crlf.c:208-285 | With safecrlf off or warning, what was checked in and checked out is checked in with the same content again, for text files exactly without two carriage returns before a line feed |
| CrlfLaws.AttributesMean | libgit2/src/crlf.c:59-345 | The line ending that the attributes text, crlf and eol ask for, with the settings |

## Left out

- DeltaFormat.HdrSz: a sixth header byte shifts by 35, which is undefined in C; it is reported as an error of its own.
- DeltaCreate.GitDeltaCreateFromIndex: where the 32-bit buffer size wraps around the model stops with a result of its own instead of following the writes behind the shrunken buffer.
- DeltaCreate.Encoder.Grow: the same.
- RenameMatch.FindBestMatches: FIND_COPIES is left out, and the similarity metric is a fixed function of the pair.
- RenameOutcome.Diff.GitDiffFindSimilar: diffs that hold renames or copies already are left out; the expected size passed to the vector is not modelled.
- RenameRewrite.ApplySplitsAndDeletes: the sorting of the new list is left out.
- BlameList.Scoreboard.LikeGit: reference counts of origins are not modelled; the parent file of an origin is a fixed answer, although the code collects paths as it goes.
- BlameRun.RoundOnTrace: is about a fixed oldest commit; BlameVerdict.RoundRuns follows its changes.
- Graph.Walk.AheadBehind: where a parent is newer than its child, or as old below the best common ancestors, the counts are told by the flags that the run leaves, and by a lower bound.
- Graph: git_pqueue is a bag from which a newest commit is popped.
- ConfigRewrite.ConfigFileWrite: values that go on in the next line, definitions or comments behind a section header in its line, multivars with a regular expression and includes are left out, and so is a byte order mark.
- ConfigRewrite.SetOrDelete: lines are byte sequences in which NUL is an ordinary byte, while the code works on strings that end at a NUL.
- PatchApply.CollectLines: a marker behind an empty line, where the code reads before the line, shortens nothing in the model.
- PatchApply.ApplyHunks: the image holds the text of patch lines rather than pointers, which is the same unless two hunks share lines; line numbers are taken not to exceed 64 bits.
- PatchText.GitApplyPatch: binary patches; and a hunk that leaves no line, is not at the top of the text and follows the hunk before without an unchanged line in between is not counted among edit scripts and differences.
- DiffGenerate.DiffGenerated.MaybeModifiedItem: working directory, index, conflict, ignore and case-insensitive branches, tree type changes and the notify callback are left out.
- Base85.GitBufDecodeBase85: lengths are taken not to overflow when multiplied by four.
- Crlf.GitBufTextGatherStats: the counters do not wrap at 2^32, and the byte order mark is not recorded.
- Binary patches (apply.c) put the delta codec behind zlib; zlib, xdiff and the regular expressions are not modelled.
- Allocation failure and error messages are left out everywhere.
- Everything that touches files, locks, the network or threads is left out.
