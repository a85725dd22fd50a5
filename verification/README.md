# nu_plugin_git_prompt, modelled in Dafny

`nu_plugin_git_prompt` is a Nushell plugin whose `git_prompt` command returns
a one-line summary of the Git repository in the current directory, for
example ` main +1 ?2 ↑1 !3 c1`. This project models the two pieces of
decision logic in `src/main.rs`:

- **The prompt renderer.** `GitStatus::get_green`, `get_yellow`, `get_gray`
  and `get_red` build the colour groups. The tail of `GitPrompt::run` then
  takes the slots in a fixed order (remote, branch or tag, green, yellow,
  gray, red), keeps the non-empty ones, joins them with single spaces, trims
  the result and puts a single space in front.
- **Snapshot construction in `GitStatus::init`.** This covers:
  - the fold that classifies status entries, where a counter grows only
    when an entry's flag set is exactly that counter's flag;
  - the branch chain: named branch, detached HEAD, no shorthand, bare
    repository, error in an empty repository, any other error;
  - the detached-HEAD label;
  - the upstream name and the ahead/behind counts, which keep their
    defaults unless a local branch and its upstream both resolve.

The calls into libgit2 become algebraic-datatype inputs. After that
everything is a pure function.

Files, one module each:

| file | module | contents |
|---|---|---|
| `wrappers.dfy` | `Wrappers` | `Option` |
| `numerals.dfy` | `Numerals` | `{}` decimal and `{:x}` hex formatting, and their values |
| `strings.dfy` | `Strings` | `join`, `split` (its inverse, used to read a line back), `trim` with Unicode `White_Space` |
| `status.dfy` | `Status` | the `GitStatus` snapshot and its fourteen counters |
| `render.dfy` | `Renderer` | the colour groups, the line assembly, and `Parse`, a reader for rendered lines |
| `collect.dfy` | `Collect` | status flags, the classification fold, the HEAD chain, the detached label, upstream data, `Init` |
| `prompt.dfy` | `Prompt` | `GitPrompt::run`: the directory guards, then collection, then rendering |

The renderer's main partner is `Parse`. `RenderParse` shows that a rendered
line reads back as its identity word followed by exactly the non-zero
counters, in display order. The following are corollaries:

- `RenderRecoversCounters`: every counter, including zero ones, can be
  recovered from the line;
- `RenderInjective`: two snapshots render alike exactly when they agree on
  the identity and on every counter;
- `SegmentAppearsIffCounted`: among the segments after the identity, the
  segment `prefix` + `n` appears exactly when `n` is that counter's positive
  value, so no `+0`-style segment ever appears there.

The classification fold's partner is `Occurrences`, an independent count of
the entries whose flag set equals a given set. `InitSnapshot` ties every
file counter of the collected snapshot to it, and `ahead` and `behind` to
the 16-bit divergence that `ResolveHead` reports.

Counters are unbounded naturals. The `as u16` cast of the ahead and behind
counts is modelled as `% 65536`.

Zero-padded hex of four bytes would always be eight characters. This code
writes each of the first four id bytes with `{byte:x}`, which does not
zero-pad, so the label has 4 to 8 characters. The model follows the code:

- `DetachedLabelLength` proves the 4 to 8 bound;
- `DetachedLabelIsIdPrefix` proves the label is the 8-character id prefix
  exactly when all four bytes are at least 16;
- `DetachedLabelAmbiguous` exhibits two different ids that get the same
  label.

## Model

| member | source | states |
|---|---|---|
| Numerals.Decimal | src/main.rs:342 | `{}` on a counter gives a non-empty string of decimal digits whose first digit is `0` only for the value 0 |
| Numerals.DecimalValue | src/main.rs:342 | the decimal numeral of `n` reads back as `n` |
| Numerals.DecimalInjective | src/main.rs:342 | different values never print the same numeral |
| Numerals.ByteHex | src/main.rs:194 | `{byte:x}` gives one lower-case hex digit below 16 and two otherwise, without a leading zero, and its value is the byte |
| Numerals.ByteHexPadding | src/main.rs:194 | `{byte:x}` agrees with two-digit zero-padded hex exactly for bytes of at least 16, and otherwise lacks only the leading `0` |
| Strings.Trim | src/main.rs:130 | `trim` leaves no whitespace at either end, never grows the text, empties it exactly when it is all whitespace, and keeps text whose ends are not whitespace |
| Strings.TrimInfix | src/main.rs:130 | `trim` returns the input with whitespace removed from both ends and nothing else: the result is an infix of the input, and everything before and after it is whitespace |
| Strings.TrimIdempotent | src/main.rs:130 | trimming twice is trimming once |
| Strings.JoinNested | src/main.rs:88-130 | joining the non-empty groups, each itself a space-joined list of words, equals joining all the words at once |
| Status.BumpTotal | src/main.rs:268-314 | `+= 1` on one file counter adds one to the file total; on ahead or behind it adds nothing |
| Renderer.GroupEmptyIff | src/main.rs:338-358 | a colour group is the empty string exactly when all of its counters are zero |
| Renderer.GrayIsGroup | src/main.rs:390-396 | `get_gray` is a one-counter group: `!n` for a positive ignored count, else empty |
| Renderer.PresentMembers | src/main.rs:360-388 | the segments pushed for a list of counters are exactly its non-zero counters, each with its own value |
| Renderer.PresentInOrder | src/main.rs:338-414 | within a group and across groups, segments come out in the order the code looks at their counters, ranked by display position |
| Renderer.DisplayOrderRanked | src/main.rs:106-128 | green, yellow, gray and red counters, concatenated in that order, list every counter once by increasing rank |
| Renderer.DisplaySegments | src/main.rs:110-128 | the segments of all non-zero counters in display order are the green, yellow, gray and red segments, concatenated |
| Renderer.ParseSegmentInverse | src/main.rs:341-342 | reading a segment back gives its counter and value exactly when the value is positive |
| Renderer.ParseSegmentsInverse | src/main.rs:338-357 | a list of segments of positive counters reads back as that list |
| Renderer.Render | src/main.rs:130 | the line is never empty and always starts with a space |
| Renderer.RenderTrimmed | src/main.rs:130 | what follows the leading space is trimmed: trimming it again changes nothing, so it has no whitespace at either end |
| Renderer.RenderWords | src/main.rs:88-131 | the line is a space, then the identity word (if any) and every non-zero counter's segment in display order, separated by single spaces |
| Renderer.RenderParse | src/main.rs:88-131 | for a displayable identity, the line reads back as that identity and exactly the non-zero counters with their values, in display order |
| Renderer.RenderRecoversCounters | src/main.rs:88-131 | every counter's value, zero included, is recovered from the line |
| Renderer.RenderInjective | src/main.rs:88-131 | two snapshots render the same line exactly when their identities and all counters agree |
| Renderer.SplitOfRender | src/main.rs:130 | splitting the line after its leading space at spaces yields the identity followed by the segments |
| Renderer.SegmentAppearsIffCounted | src/main.rs:338-414 | the segment `prefix` + `n` appears among the words after the identity exactly when `n` is positive and is that counter's value, so no zero segment appears |
| Renderer.LookupPresent | src/main.rs:338-414 | the value recorded for a counter among the segments is its count when listed, and 0 otherwise |
| Renderer.TagOverridesBranch | src/main.rs:96-100 | with a non-empty tag the identity slot shows the tag, and the branch does not affect the line |
| Renderer.BranchShownWithoutTag | src/main.rs:96-100 | with an empty tag the identity slot shows the branch: a displayable branch reads back from the line as its identity, followed by the non-zero counters |
| Renderer.RemoteNeverShown | src/main.rs:90-104 | the remote slot is empty whatever the upstream name, so the upstream never affects the line |
| Renderer.RenderBlankIff | src/main.rs:88-131 | the line is exactly `" "` if and only if the identity is empty and every counter is zero |
| Renderer.RenderNoDoubleSpace | src/main.rs:130 | the line never contains two spaces in a row |
| Collect.MatchUnique | src/main.rs:268-314 | a flag set equal to one single flag matches at most one counter |
| Collect.TallyCount | src/main.rs:265-315 | one status entry adds one to a counter exactly when its flag set equals that counter's single flag, and leaves the identity untouched |
| Collect.CountedIff | src/main.rs:265-315 | an entry is counted at all exactly when its flag set is one flag other than "unreadable" |
| Collect.TallyTotal | src/main.rs:265-315 | one entry raises the file total by one when counted and by nothing otherwise, and leaves ahead and behind alone |
| Collect.CountEntriesCount | src/main.rs:265-315 | after the fold, each file counter has grown by the number of entries whose flag set is exactly its flag |
| Collect.CountEntriesKeeps | src/main.rs:265-315 | the fold changes no branch, tag, remote, ahead or behind |
| Collect.CountEntriesTotal | src/main.rs:265-315 | the fold raises the file total by the number of counted entries |
| Collect.CountedEntriesAll | src/main.rs:265-315 | the counted entries are all of them exactly when every entry carries one flag alone, other than WT_UNREADABLE |
| Collect.CountEntriesBound | src/main.rs:265-315 | from zero, the file counters sum to at most the number of entries, and to exactly that number only when every entry is counted |
| Collect.AsU16 | src/main.rs:211-212 | `as u16` yields a value below 65536 and keeps values that already fit |
| Collect.HexBytes | src/main.rs:193-195 | the unpadded hex of some bytes has between one and two hex digits per byte, and two per byte exactly when no byte is below 16 |
| Collect.DetachedLabelLength | src/main.rs:192-196 | the detached label has 4 plus one per byte of at least 16 characters, so between 4 and 8, all hex digits |
| Collect.DetachedLabelIsIdPrefix | src/main.rs:192-196 | the label equals the first 8 hex digits of the id exactly when none of the first four bytes is below 16 |
| Collect.DetachedLabelAmbiguous | src/main.rs:192-196 | ids starting `01 23 45 67` and `12 03 45 67` are different but both get the label `1234567` |
| Collect.ResolveHead | src/main.rs:187-237 | a named shorthand is the branch; `HEAD` gives the label, or `HEAD` without a commit; no shorthand gives `HEAD`; a bare-repository error or any error in an empty repository gives `master`, any other error `HEAD`; no upstream data unless a named branch is tracked |
| Collect.BranchNonEmpty | src/main.rs:187-237 | the resolved branch is never empty unless HEAD's shorthand itself is empty |
| Collect.UpstreamProvenance | src/main.rs:203-226 | a named branch whose upstream resolves and has a name gets that name as its remote, and a non-empty remote is always the upstream's name; non-zero ahead/behind come only from a computed divergence, which they equal cut to 16 bits |
| Collect.DescribedTag | src/main.rs:239-250 | a successful `git describe` gives its standard output, trimmed, as the tag; a failed one gives an empty tag; a tag never starts or ends with whitespace |
| Collect.Init | src/main.rs:160-263 | a snapshot exists exactly when the repository opens and its status list can be read |
| Collect.InitSnapshot | src/main.rs:160-335 | the snapshot carries the resolved branch and remote, the trimmed tag, the 16-bit divergence and, per file counter, the number of entries whose flag set is exactly its flag |
| Collect.InitFileTotal | src/main.rs:265-315 | the snapshot's file counters sum to at most the number of status entries, with equality exactly when every entry carries one flag alone, other than WT_UNREADABLE |
| Prompt.GitPromptLine | src/main.rs:53-131 | the command's output is empty or starts with a space |
| Prompt.GitPromptEmptyIff | src/main.rs:53-131 | the output is empty exactly when there is no current directory, it is not a directory, its `.git` files exceed 1 000 000 000 bytes, the repository does not open, or its statuses cannot be read; otherwise it is the rendered snapshot |

## Left out

- Plugin transport and registration (`serve_plugin`, the `Plugin` and `SimplePluginCommand` impls, `signature`, `examples`, `main`) are host I/O and are not modelled.
- Looking up the current directory and the directory checks are inputs. `Directory` records whether the path is a directory and the sizes of the regular files under its `.git` directory (`None` when there is no `.git` directory). The `WalkDir` scan itself is not modelled, and neither are files whose metadata cannot be read.
- Prompt.GitPromptLine: sums the `.git` file sizes as unbounded naturals. The source's `u64` accumulator could overflow only above 18 exabytes.
- The libgit2 calls (`Repository::open`, `head`, `peel_to_commit`, `find_branch`, `upstream`, `graph_ahead_behind`, `upstream.name`, `is_empty`, `statuses`) are replaced by their outcomes as datatypes (`HeadOutcome`, `UpstreamOutcome`, `Repository`). Of libgit2's error codes only the bare-repository code is told apart, because it is the only one the code tests.
- The `git describe --tags --abbrev=0` subprocess is replaced by its result: `Some(stdout)` when it ran, succeeded and printed valid UTF-8, `None` otherwise.
- Collect.CountEntriesCount: counters are unbounded naturals. The source's `u16` `+= 1` on a file counter would overflow (panic or wrap) past 65 535 entries of one kind; that is not modelled.
- Object ids are the 20-byte SHA-1 ids. SHA-256 repositories are not modelled.
- Renderer.RenderParse: requires a displayable identity (non-empty, no space, no whitespace at either end). Git's ref-name rules forbid ASCII spaces and control characters, and the tag is trimmed. But a branch name may start or end with other Unicode whitespace, such as U+00A0 or U+3000. When such a branch is the last word on the line, `trim` strips that character, so the line does not carry the name intact. These names are outside the read-back lemmas.
- Renderer.SegmentAppearsIffCounted: same displayable-identity requirement as `RenderParse`. It speaks only of the words after the identity: a branch or tag literally named like a segment (say `+0`) does put that word on the line.
- Renderer.RenderRecoversCounters: same displayable-identity requirement as `RenderParse`.
- Renderer.RenderInjective: same displayable-identity requirement as `RenderParse`, for both snapshots.
- Renderer.SplitOfRender: same displayable-identity requirement as `RenderParse`.
- Renderer.BranchShownWithoutTag: same displayable-identity requirement as `RenderParse`, on the branch. A branch that starts or ends with Unicode whitespace is still shown when the tag is empty, but with its leading whitespace trimmed (and its trailing whitespace too when no colour group follows), so it does not read back intact.
- Renderer.RenderWords: requires an identity that is empty or displayable. When the identity is present it is always the first word, because the remote slot is always empty, so whitespace at its start is always trimmed; whitespace at its end is trimmed only when no colour group follows it.
- Renderer.RenderBlankIff: same requirement as `RenderWords`.
- Renderer.RenderNoDoubleSpace: same requirement as `RenderWords`.
