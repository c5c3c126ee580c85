# ingest-digest selection tree and preview text, modelled in Dafny

ingest-digest is a desktop application. It loads a snapshot of a directory
tree and lets the user expand or collapse directories. The user ticks files
and directories in a tri-state checkbox tree. The application then builds one
text "digest" of the selection: a `tree`-style picture of the selected files,
followed by each file's content in a fixed-format block.

This project models the logic behind that, in four modules:

- `FsTypes` (`fs_types.dfy`): the snapshot tree. A node is a directory
  (name, path, optional children, optional expand flag, tri-state selection)
  or a file (name, path, two-state selection). It also defines the
  specification tools used by the other modules:
  - `Contains`, `Unique` and `Lookup`: path lookup;
  - `Uniform`: one state over a whole subtree;
  - `EraseState` and `EraseOpen`: "nothing but X changed".
- `Selection` (`selection.dfy`): the session's tree transformations.
  - `InitTree`: closes every directory when a tree is loaded.
  - `Toggle`: expands or collapses one directory.
  - toggle-select: a cascade down (`ApplyToggle`, `ApplySubtree`), then a
    bottom-up recompute of every directory (`Recalc`).
- `TreeUtils` (`tree_utils.dfy`): the serialiser's helpers.
  - `CollectPaths`: collects the paths of checked files.
  - `BuildDirTree`: builds the prefix trie of relative path segments.
  - `PrintTree`: renders the trie with box-drawing connectors.
- `Preview` (`preview.dfy`): assembles the preview text.
  - Path splitting on either slash, and the displayed base name.
  - Relative segments below the root.
  - The file block format and the two placeholder texts.
  - The final join.
  - `ReadFiles`: the main process's read-files handler, with the
    filesystem's answers given as a parameter.

The central invariant is `Selection.Consistent`: every directory with at
least one child is checked exactly when all its children are checked, and
unchecked exactly when all are unchecked; otherwise it is partially checked.
Toggle-select always re-establishes it. On a consistent tree, the toggled
node's subtree becomes uniformly checked or unchecked. Nodes that are neither
its ancestors nor its descendants stay exactly as they were.

Two behaviours of the code are worth stating plainly:

- `initTree` only closes directories and keeps every selection state
  (`useFsTree.ts:22-31`). The snapshot provider already produces unchecked
  nodes (`src/main/index.ts:70,74,82`), so a loaded tree starts consistent
  (`LoadedTreeConsistent`), and every later step keeps it consistent
  (`SessionKeepsConsistent`).
- Toggling the same node twice does not always restore the tree: a
  partially checked node becomes checked, then unchecked
  (`useFsTree.ts:79`). The round trip is proved for targets that are not
  partially checked (`ToggleSelectTwice`). A concrete counterexample for a
  partially checked target is proved as well (`PartialDoesNotRoundTrip`).

## Model

| member | source | states |
|---|---|---|
| FsTypes.State | src/types.ts:7-14 | a file's state is never partially checked; a directory's state is its three-valued `state` field |
| FsTypes.Kids | src/types.ts:5-15 | only directories have children; an absent child list reads as empty; every child is structurally smaller than its parent |
| Selection.InitTree | src/renderer/src/hooks/useFsTree.ts:22-31 | every directory ends up with `isOpen = false`; nothing else changes (kinds, names, paths, states, child order and absent/present child lists are kept, files returned as they are) |
| Selection.InitTreeOfClosed | src/renderer/src/hooks/useFsTree.ts:22-31 | a tree already closed everywhere is left unchanged |
| Selection.InitTreeIdempotent | src/renderer/src/hooks/useFsTree.ts:22-31 | initialising twice equals initialising once |
| Selection.ClosedHasFlags | src/renderer/src/hooks/useFsTree.ts:26 | after initialisation every directory carries an explicit expand flag |
| Selection.Toggle | src/renderer/src/hooks/useFsTree.ts:47-57 | only `isOpen` flags change; when no directory has path `p` (a file path or an unknown path) the tree is returned unchanged |
| Selection.ToggleNode | src/renderer/src/hooks/useFsTree.ts:58 | an empty tree cell stays empty; a loaded tree changes only in its expand flags |
| Selection.ToggleFlipsTarget | src/renderer/src/hooks/useFsTree.ts:49-51 | with unique paths, the directory at `p` has its flag negated (an absent flag becomes open) and nothing else of it changes |
| Selection.ToggleKeepsOtherFlags | src/renderer/src/hooks/useFsTree.ts:47-57 | every other directory keeps its expand flag |
| Selection.LookupToggle | src/renderer/src/hooks/useFsTree.ts:47-57 | the node found at any path after the toggle is the toggled version of the node found there before |
| Selection.ToggleTwice | src/renderer/src/hooks/useFsTree.ts:50 | toggling the same path twice restores the tree when every directory has an explicit flag |
| Selection.ToggleKeepsFlagsSet | src/renderer/src/hooks/useFsTree.ts:47-57 | toggling keeps every expand flag explicit, so the double-toggle round trip keeps applying |
| Selection.Flip | src/renderer/src/hooks/useFsTree.ts:79 | the new state is unchecked exactly when the old one was checked (partial goes to checked) and is never partial |
| Selection.ApplySubtree | src/renderer/src/hooks/useFsTree.ts:71-74 | the node and every descendant at every depth take the given binary state; only states change |
| Selection.ApplyToggle | src/renderer/src/hooks/useFsTree.ts:77-86 | only states change; a path matching no node leaves the tree as it was |
| Selection.Recompute | src/renderer/src/hooks/useFsTree.ts:94-100 | for a non-empty child list, the state obeys the tri-state rule: checked iff all children checked, unchecked iff all unchecked |
| Selection.StateRuleDetermined | src/renderer/src/hooks/useFsTree.ts:94-100 | the tri-state rule leaves exactly one possible state for a non-empty directory |
| Selection.Recalc | src/renderer/src/hooks/useFsTree.ts:91-104 | the result is consistent everywhere; only states change; leaves and childless directories keep their state; a consistent tree is returned unchanged |
| Selection.ToggleSelectIn | src/renderer/src/hooks/useFsTree.ts:88-106 | the result is consistent; only states change; a path matching no node only recomputes, so a consistent tree comes back unchanged |
| Selection.ToggleSelect | src/renderer/src/hooks/useFsTree.ts:66-67 | an empty tree cell stays empty; a loaded tree comes back consistent with only its states changed |
| Selection.UniformIffConsistent | src/renderer/src/hooks/useFsTree.ts:91-104 | a subtree is uniformly checked (unchecked) exactly when it is consistent and its root is checked (unchecked): a consistent unchecked directory has no checked descendant |
| Selection.LookupApplyToggleAbove | src/renderer/src/hooks/useFsTree.ts:77-86 | the target and each of its ancestors become the cascade of what they were |
| Selection.LookupApplyToggleOff | src/renderer/src/hooks/useFsTree.ts:77-86 | a node that is neither the target, nor an ancestor, nor a descendant of it is untouched by the cascade |
| Selection.LookupRecalc | src/renderer/src/hooks/useFsTree.ts:91-104 | the node found at any path after the recompute is the recompute of the node found there before |
| Selection.ToggleSelectTarget | src/renderer/src/hooks/useFsTree.ts:71-80 | the toggled node and its whole subtree end up uniformly in the flipped state of the node, with nothing but states changed |
| Selection.ToggleSelectElsewhere | src/renderer/src/hooks/useFsTree.ts:82-106 | a node outside the target's line only goes through the recompute; in a consistent tree it is exactly as before |
| Selection.ToggleSelectStep | src/renderer/src/hooks/useFsTree.ts:91-106 | on a consistent tree with the target below the root, only the child holding the target changes and the root takes the rule's state for the new children |
| Selection.ToggleSelectTwice | src/renderer/src/hooks/useFsTree.ts:79 | on a consistent tree with unique paths, toggling a node that is not partially checked twice restores the whole tree |
| Selection.MixedDirToggledTwice | src/renderer/src/hooks/useFsTree.ts:79 | a partially checked directory over a checked and an unchecked file becomes checked, then unchecked |
| Selection.PartialDoesNotRoundTrip | src/renderer/src/hooks/useFsTree.ts:79 | there is a consistent tree with unique paths and a partially checked target for which the double toggle is not the identity |
| Selection.FlagsDoNotMatter | src/renderer/src/hooks/useFsTree.ts:94-100 | the tri-state rule never reads expand flags: two trees equal up to their flags are both consistent or both not |
| Selection.LoadedTreeConsistent | src/main/index.ts:59-85 | a loaded snapshot, with every node unchecked, is consistent once initialised |
| Selection.SessionKeepsConsistent | src/renderer/src/hooks/useFsTree.ts:22-106 | initialising and expanding/collapsing keep consistency in both directions; toggle-select keeps a consistent tree consistent |
| TreeUtils.CheckedFiles | src/renderer/src/lib/treeUtils.ts:6-19 | the checked files' paths in depth-first stored order; `CollectPaths` computes it, and `CollectedExactly`, `CollectedNoneWhenUnchecked` and `CollectedAllWhenChecked` state what it holds |
| TreeUtils.CollectPaths | src/renderer/src/lib/treeUtils.ts:6-19 | returns exactly the checked files' paths, depth first in stored child order |
| TreeUtils.CollectedExactly | src/renderer/src/lib/treeUtils.ts:7-18 | a path is collected iff some checked file of the subtree has it: no directory path, no checked file missed |
| TreeUtils.CollectedNoneWhenUnchecked | src/renderer/src/lib/treeUtils.ts:6-19 | an unchecked subtree contributes nothing |
| TreeUtils.CollectedAllWhenChecked | src/renderer/src/lib/treeUtils.ts:6-19 | a fully checked subtree contributes every file's path, in depth-first order |
| TreeUtils.Find | src/renderer/src/lib/treeUtils.ts:37-40 | finds the position of a key at a trie level, or reports that the key is absent |
| TreeUtils.Insert | src/renderer/src/lib/treeUtils.ts:35-41 | one list's walk from the root, following existing keys and appending missing ones; its properties are stated by `InsertKeepsOrder`, `InsertWellFormed`, `InsertPaths`, `InsertPresent` and `InsertIdempotent` |
| TreeUtils.InsertKeepsOrder | src/renderer/src/lib/treeUtils.ts:37-38 | inserting keeps existing keys in insertion order and appends at most the new first segment |
| TreeUtils.InsertWellFormed | src/renderer/src/lib/treeUtils.ts:36-41 | inserting never creates a repeated key at any level |
| TreeUtils.InsertPaths | src/renderer/src/lib/treeUtils.ts:36-41 | after inserting a list, the trie's root-to-node paths are the old ones plus the list's prefixes |
| TreeUtils.InsertPresent | src/renderer/src/lib/treeUtils.ts:37-40 | inserting a list whose path is already present leaves the trie unchanged |
| TreeUtils.InsertIdempotent | src/renderer/src/lib/treeUtils.ts:36-41 | inserting the same list twice equals inserting it once |
| TreeUtils.Build | src/renderer/src/lib/treeUtils.ts:32-44 | every list inserted in order into an empty root; `BuildDirTree` computes it, and `BuildWellFormed`, `BuildPaths`, `BuildOrderIndependent` and `BuildRenderOrderIndependent` state its properties |
| TreeUtils.BuildDirTree | src/renderer/src/lib/treeUtils.ts:32-44 | the loop builds the trie of all lists inserted in order into an empty root |
| TreeUtils.BuildWellFormed | src/renderer/src/lib/treeUtils.ts:32-44 | a built trie holds each key at most once per level |
| TreeUtils.BuildPaths | src/renderer/src/lib/treeUtils.ts:34-42 | every input list is a root-to-node path of the trie and every node lies on some input list |
| TreeUtils.BuildOrderIndependent | src/renderer/src/lib/treeUtils.ts:34-42 | two input sequences holding the same lists, in any order and with any repeats, build tries with the same root-to-node paths |
| TreeUtils.BuildRepeat | src/renderer/src/lib/treeUtils.ts:34-42 | giving a list again leaves the trie exactly as it was |
| TreeUtils.BelowStrictTotal | src/renderer/src/lib/treeUtils.ts:57 | the name comparison is a strict total order |
| TreeUtils.InsertByName | src/renderer/src/lib/treeUtils.ts:57 | inserting an entry into a name-sorted level keeps it sorted and adds exactly that entry |
| TreeUtils.SortByName | src/renderer/src/lib/treeUtils.ts:55-60 | the result is sorted by name and is a permutation of the entries |
| TreeUtils.Select | src/renderer/src/lib/treeUtils.ts:55-60 | every entry kept is of the requested kind (with children, or without) |
| TreeUtils.SelectExactly | src/renderer/src/lib/treeUtils.ts:55-60 | an entry is kept exactly when it is among the level's entries and of the requested kind |
| TreeUtils.Arrange | src/renderer/src/lib/treeUtils.ts:54-62 | a permutation of the level's entries, with entries that have children before childless ones, each group ascending by name |
| TreeUtils.PrintTree | src/renderer/src/lib/treeUtils.ts:51-75 | the loop emits, for each arranged entry, its own line followed by its subtree's lines under the extended prefix |
| TreeUtils.Lines | src/renderer/src/lib/treeUtils.ts:51-75 | printTree's output for a level: the arranged entries rendered in turn; `PrintTree` computes it, and `LinesCount`, `LinesPrefixed`, `LinesEntryLines` and `LinesSame` state its properties |
| TreeUtils.Render | src/renderer/src/lib/treeUtils.ts:62-73 | each entry's own line followed, for an entry with children, by its subtree's lines under the extended prefix; `RenderAt` states the step `PrintTree`'s loop takes |
| TreeUtils.LinesCount | src/renderer/src/lib/treeUtils.ts:62-73 | one line per node of the trie below the level; an empty map gives no lines |
| TreeUtils.LinesPrefixed | src/renderer/src/lib/treeUtils.ts:67-71 | every line begins with the given prefix |
| TreeUtils.LinesEntryLines | src/renderer/src/lib/treeUtils.ts:63-67 | the level's own lines are one per arranged entry in order: `└── ` only on the last, `├── ` on the others, a trailing `/` exactly on entries with children |
| TreeUtils.LinesSame | src/renderer/src/lib/treeUtils.ts:51-75 | two well-formed tries with the same root-to-node paths print the same lines, whatever order their keys were inserted in |
| TreeUtils.BuildRenderOrderIndependent | src/renderer/src/lib/treeUtils.ts:32-75 | two input sequences holding the same lists, in any order and with any repeats, print exactly the same lines (the tries themselves can differ in key order) |
| Preview.Split | src/renderer/src/hooks/useFilePreview.ts:38 | splits at every `/` or `\`, always giving at least one segment; `SplitSegmentsPlain`, `SplitJoin`, `SplitPlain` and `SplitAround` state what the segments are |
| Preview.SplitSegmentsPlain | src/renderer/src/hooks/useFilePreview.ts:38 | no segment of a split contains `/` or `\` |
| Preview.SplitJoin | src/renderer/src/hooks/useFilePreview.ts:38 | joining the segments with `/` gives the path with backslashes as slashes; there is one more segment than separators |
| Preview.SplitPlain | src/renderer/src/hooks/useFilePreview.ts:38 | a path without separators is a single segment |
| Preview.SplitAround | src/renderer/src/hooks/useFilePreview.ts:49-50 | splitting around one separator gives the segments of each side |
| Preview.LastSegment | src/renderer/src/hooks/useFilePreview.ts:38 | the last segment is the suffix after the last separator |
| Preview.BaseName | src/renderer/src/hooks/useFilePreview.ts:38 | the last segment, or the whole path when that is empty; `LastSegment` and `BaseNameIsFinalComponent` state that it is the separator-free suffix after the last separator |
| Preview.BaseNameIsFinalComponent | src/renderer/src/hooks/useFilePreview.ts:38 | the block name is the separator-free suffix after the last separator; the whole path is shown only when that suffix is empty or there is no separator |
| Preview.RelSegments | src/renderer/src/hooks/useFilePreview.ts:49-50 | the path's segments with the root's segment count dropped, none when there are fewer; `RelSegmentsBelowRoot` states that a file below the root gets the segments of its remainder |
| Preview.RelSegmentsBelowRoot | src/renderer/src/hooks/useFilePreview.ts:49-50 | for a file path written as root path, separator, remainder, the relative segments are the remainder's segments |
| Preview.Rule | src/renderer/src/hooks/useFilePreview.ts:40-42 | the separator line is exactly 48 `=` characters |
| Preview.FileBlock | src/renderer/src/hooks/useFilePreview.ts:39-44 | a rule, the `FILE:` line, a rule, then the content verbatim; `Rule` and `BlockRoundTrip` state its format and that it reads back |
| Preview.BlockRoundTrip | src/renderer/src/hooks/useFilePreview.ts:39-44 | a block reads back as its name and its verbatim content (for names without a newline) |
| Preview.ReadFiles | src/main/index.ts:88-105 | one result per requested path, in order, holding the file's text or `Error reading file: ` and the message |
| Preview.Combined | src/renderer/src/hooks/useFilePreview.ts:36-46 | one block per answer, in answer order, separated by a blank line; `BlocksFollowPaths` states what block `i` carries |
| Preview.StructureLines | src/renderer/src/hooks/useFilePreview.ts:49-59 | the header, the root's line, then printTree of the trie of relative segments; `StructureLineCount`, `StructureOrderIndependent` and `PreviewOpening` state its size, order independence and opening |
| Preview.StructureOrderIndependent | src/renderer/src/hooks/useFilePreview.ts:49-59 | the same selected paths in any order, or repeated, give the same structure lines |
| Preview.PreviewText | src/renderer/src/hooks/useFilePreview.ts:16-61 | the two placeholders or the structure, a blank line and the blocks; `PreviewCases`, `PreviewOpening` and `ToggleSelectFeedsPreview` state when each case arises and what the text holds |
| Preview.PreviewCases | src/renderer/src/hooks/useFilePreview.ts:14-26 | the text is `No file preview` exactly when there is no tree, and `No file selected` exactly when no file is checked |
| Preview.PreviewOpening | src/renderer/src/hooks/useFilePreview.ts:54-61 | with files selected, the text opens with `Directory structure:`, a newline, `└── `, the root name and `/` |
| Preview.StructureLineCount | src/renderer/src/hooks/useFilePreview.ts:53-59 | the structure has two header lines plus one line per trie node |
| Preview.BlocksFollowPaths | src/renderer/src/hooks/useFilePreview.ts:36-45 | when the answers follow the selected paths, block `i` carries the base name of the `i`-th path and its content |
| Preview.ToggleSelectFeedsPreview | src/renderer/src/hooks/useFilePreview.ts:22 | selecting a node that was not checked puts every file below it into the collected paths; deselecting a checked node leaves none of its files selected |

## Left out

- The React machinery is not modelled: `useState`, `useCallback`, `useEffect` and the async closure. `loadTree` is `InitTree` applied to the loaded tree.
- The previews of overlapping selections may finish out of order, since nothing guards against stale results. This is concurrency and is not modelled.
- The IPC call is not modelled. `PreviewText` takes the results as a parameter. `ReadFiles` models the main process's loop, with the filesystem's answers given as the parameter `outcomes`. The Electron window, the open-directory dialog and the directory enumeration are I/O and are left out.
- The presentation components are not part of this model: the file tree views, the preview pane, the load button and the application shell.
- `localeCompare` is locale-dependent. `Below` models it as ordinal comparison, code point by code point, with a proper prefix first. Keys at one level are distinct, so the stability of the sort does not matter.
- Strings are sequences of Dafny characters. JavaScript's UTF-16 code units and surrogate pairs are not modelled.
- BuildDirTree: the code walks a cursor and mutates nested `Map`s in place. The model rebuilds a value trie (`Insert`) for each list. In-place update and aliasing between levels are not modelled. Map insertion order is kept as the order of `children`.
- Path uniqueness is not enforced by the application. The lemmas that locate nodes by path take it as a precondition (`Unique`). The transformations themselves are total and need no precondition.
- Selection.ToggleSelectTwice: its precondition is a consistent tree. The application keeps that invariant from the all-unchecked snapshot onwards (`LoadedTreeConsistent`, `SessionKeepsConsistent`). Without it, the first toggle also repairs unrelated directories.
- Preview.BlockRoundTrip: requires a name without a newline. A file name containing a newline would make the `FILE:` line ambiguous.
