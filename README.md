# InnoTe file tree: a Dafny model

InnoTe is a desktop note-taking shell. Its main page (`src/pages/index.tsx`)
mirrors part of a folder as an in-memory tree that is fetched one directory
level at a time. The page also keeps three cursors: the list of expanded
directory paths, the selected file and the path being renamed. This project
models that logic without React or Tauri:

- `PathUtil` holds the string helpers. It covers separator normalisation,
  JavaScript's `split` and `join`, and `String.replace` with a string
  pattern, which removes the first occurrence anywhere in the string. On
  top of these sit the last-segment, parent-path and relative-segment chains
  the page builds.
- `FileTree` holds the tree. A node is a directory exactly when it has a
  `children` field. It also holds the lookup that walks child names from
  the root, and the application of a one-level listing to one node.
  References to nodes inside the tree are modelled as locations: the child
  indices that lead from the root to the node.
- `Sorting` is the listing sort, with the comparator `fileComparable` as a
  parameter.
- `Cursors` holds the expand/collapse list updates, the directory that the
  create handlers target, and the dotted-name rule that delete uses.
- `Store.TreeStore` is a class holding the tree, the remembered root folder
  and the cursors. It has one method per handler. The gateways' answers are
  parameters: the created or renamed path, whether a delete succeeded, and
  the listing that the following fetch receives. `None` stands for a
  rejected promise.

The model follows the code as written, including these behaviours:
- A clicked directory is added to the expanded list at once, not when its
  fetch completes.
- Opening a new root folder does not reset the cursors.
- Collapsing tests a plain string prefix, so collapsing `/r/a` also
  collapses `/r/ab`.
- Lookup failures are not degraded to a no-op inside the handler. The
  source throws, so the rest of the handler's callback does not run, and
  the model leaves the state unchanged. The same holds when no root folder
  is stored: the create, rename and delete callbacks then call a string
  method on null and throw.
- The listing sort is not fixed to directories first: the comparator is
  abstract.

## Model

| member | source | states |
|---|---|---|
| `PathUtil.Normalize` | src/pages/index.tsx:231 | every backslash becomes `/`, every other character is kept, and the length is unchanged |
| `PathUtil.Split` | src/pages/index.tsx:235 | `split` always yields at least one piece, and no piece contains the separator |
| `PathUtil.JoinSplit` | src/pages/index.tsx:231 | joining the pieces of a split with the same separator restores the string |
| `PathUtil.SplitJoin` | src/pages/index.tsx:231 | splitting the join of separator-free pieces gives the pieces back |
| `PathUtil.LastSegment` | src/pages/index.tsx:59 | the last segment contains neither `/` nor `\` |
| `PathUtil.LastSegmentOfPlain` | src/pages/index.tsx:117 | for a path without separators, the last segment is the whole path |
| `PathUtil.ParentThenLast` | src/pages/index.tsx:231 | for a normalised path with a `/`, parent + `/` + last segment equals the path and the parent is a prefix of it; without a `/`, the parent is empty |
| `PathUtil.ChildPathParts` | src/pages/index.tsx:229-231 | for base/names/leaf built from plain names, the last segment is leaf and the parent is base/names |
| `PathUtil.FirstOccurrence` | src/pages/index.tsx:233 | the result is an occurrence of the pattern with none before it, or None exactly when there is no occurrence at all |
| `PathUtil.RemoveFirst` | src/pages/index.tsx:129 | when the root occurs, exactly its first occurrence is cut out (the text before it followed by the text after it), so the result is shorter by the root's length; when it does not occur, the string is unchanged |
| `PathUtil.RemoveFirstOfConcat` | src/pages/index.tsx:129 | removing a string from the front of a concatenation leaves the rest |
| `PathUtil.RemoveFirstOfPrefix` | src/pages/index.tsx:233 | when the root is a prefix of the path, the removal strips exactly that prefix |
| `PathUtil.RemoveFirstInMiddle` | src/pages/index.tsx:129 | the removal is not a prefix strip: removing `/r` from `/x/r/a` gives `/x/a` |
| `PathUtil.CreateSegmentsOfRoot` | src/pages/index.tsx:129-130 | when the create target is the root path itself, no names are walked |
| `PathUtil.CreateSegmentsOfChild` | src/pages/index.tsx:148-149 | for a create target root/n1/.../nk, exactly n1..nk are walked |
| `PathUtil.NormalizeConcat` | src/pages/index.tsx:129 | separator normalisation distributes over concatenation |
| `PathUtil.NormalizeJoin` | src/pages/index.tsx:129 | normalising plain names joined by `\` gives the same names joined by `/` |
| `PathUtil.CreateSegmentsBelowRoot` | src/pages/index.tsx:129-130 | for a create target that starts with the root path, only the text after the root is normalised and split |
| `PathUtil.CreateSegmentsOfWindowsChild` | src/pages/index.tsx:129-130 | for a create target written with backslashes, `root\n1\...\nk`, exactly n1..nk are walked |
| `PathUtil.CreateSegmentsWindowsExample` | src/pages/index.tsx:148-149 | the target `C:\r\a` under the root `C:\r` walks the one name `a` |
| `PathUtil.ParentSegmentsNormalized` | src/pages/index.tsx:231-236 | the parent lookup gives the same names for a path written with either separator |
| `PathUtil.ParentSegmentsOfChild` | src/pages/index.tsx:230-236 | for a path R/n1/.../nk/leaf, where R is the normalised remembered root, the parent lookup walks exactly n1..nk |
| `Sorting.SortBy` | src/pages/index.tsx:186 | the sorted listing is a permutation of the mapped entries |
| `Sorting.SortByOrdered` | src/pages/index.tsx:175-186 | with a total comparator, each child compares at most equal to the next |
| `FileTree.FindChild` | src/pages/index.tsx:135 | `find` gives the first child with the name, or None exactly when no child has it |
| `FileTree.Walk` | src/pages/index.tsx:132-136 | a successful walk returns a location that exists in the tree, with one index per name |
| `FileTree.Resolve` | src/pages/index.tsx:132-136 | the loop returns exactly the walk's result, and on success a location that exists in the tree |
| `FileTree.WalkEmpty` | src/pages/index.tsx:237-243 | walking no names yields the root |
| `FileTree.WalkSteps` | src/pages/index.tsx:151-155 | every step of a returned location goes from a directory to its first child named by the next segment |
| `FileTree.StepsWalk` | src/pages/index.tsx:237-241 | a location that descends by first matching names at every step is what the walk returns |
| `FileTree.WalkFollowsNames` | src/pages/index.tsx:132-136 | the walk reaches a location if and only if every step descends to the first child with the next name |
| `FileTree.WalkFailsOnward` | src/pages/index.tsx:238-241 | once a prefix of the names fails, the whole lookup fails |
| `FileTree.FailedWalkIsStuck` | src/pages/index.tsx:152-155 | a failed lookup has a step that reaches a file, or a directory with no child of the next name |
| `FileTree.StuckWalkFails` | src/pages/index.tsx:134-135 | a lookup with such a step fails |
| `FileTree.WalkFailsIffStuck` | src/pages/index.tsx:133-136 | the lookup fails if and only if some step reaches a file, or a directory with no child of the next name |
| `FileTree.ReplaceChildrenAt` | src/pages/index.tsx:175 | the root keeps its name and path and stays a directory |
| `FileTree.ReplaceTarget` | src/pages/index.tsx:175 | the assigned node keeps its name and path and its children become exactly the new list |
| `FileTree.ReplaceFrame` | src/pages/index.tsx:175 | every node off the path to the target is unchanged; every ancestor keeps its name, path, kind and number of children |
| `FileTree.ReplaceIdempotent` | src/pages/index.tsx:172-175 | applying the same listing twice gives the same tree as applying it once |
| `FileTree.RefreshedChildren` | src/pages/index.tsx:175-186 | after a listing, the node's children are a permutation of the mapped entries; a child is present exactly when it is `ToNode` of some entry (same name and path, `Some([])` for a directory, no children for a file) |
| `FileTree.WalkSurvivesReplace` | src/pages/index.tsx:175-191 | refreshing the node that a lookup reaches leaves that lookup intact |
| `FileTree.ListedEntryResolves` | src/pages/index.tsx:138-139 | after the target directory is refreshed, every listed entry resolves one step further by its name, so a created entry can be looked up |
| `Cursors.Collapse` | src/pages/index.tsx:88 | an entry survives exactly when it was expanded and does not start with the collapsed path |
| `Cursors.CollapseConcat` | src/pages/index.tsx:88 | collapsing works on each part of the list independently, so the surviving entries keep their original order |
| `Cursors.ToggleCollapses` | src/pages/index.tsx:87-88 | clicking an expanded directory removes its path and every entry starting with it, and keeps every other entry |
| `Cursors.ToggleExpands` | src/pages/index.tsx:89-90 | clicking an unexpanded directory keeps the list as a prefix and appends exactly its path |
| `Cursors.ToggleTwice` | src/pages/index.tsx:85-92 | expanding then collapsing a directory restores the list when no entry lies under it |
| `Cursors.CollapseNested` | src/pages/index.tsx:87-90 | expanding `/root/a`, then `/root/a/b`, then collapsing `/root/a` empties the list |
| `Cursors.CollapseSiblingPrefix` | src/pages/index.tsx:88 | collapsing `/r/a` also removes the sibling `/r/ab` |
| `Cursors.CreateTarget` | src/pages/index.tsx:126 | the target is the last expanded path when that entry is non-empty, and otherwise the remembered root, which may be absent (null); an absent target only arises from an absent root |
| `Cursors.CreateTargetAfterExpand` | src/pages/index.tsx:89-90 | after a directory with a non-empty path is expanded, the next create targets that directory |
| `Cursors.DeleteClassifiesByLeaf` | src/pages/index.tsx:218-219 | an entry at base/names/leaf is deleted as a file exactly when leaf contains a dot |
| `Cursors.DottedDirectoryIsFile` | src/pages/index.tsx:216-220 | a directory named `v1.0` is classified as a file |
| `Store.TreeStore.constructor` | src/pages/index.tsx:28-37 | the initial root is an empty unnamed directory, no cursors are set, and the remembered folder (None when nothing is stored) is kept |
| `Store.TreeStore.Refresh` | src/pages/index.tsx:172-193 | the tree becomes the listing applied at the node, or stays as it was when the listing failed |
| `Store.TreeStore.FetchRoot` | src/pages/index.tsx:188-189 | a fresh node named by the path's last segment, holding the sorted listing, becomes the root; nothing changes when the listing failed |
| `Store.TreeStore.Restore` | src/pages/index.tsx:55-62 | the remembered folder is loaded as the root unless nothing or the empty string is stored |
| `Store.TreeStore.OpenFolder` | src/pages/index.tsx:99-121 | a dismissed dialog changes nothing; otherwise the picked folder is stored and loaded as the root |
| `Store.TreeStore.Click` | src/pages/index.tsx:84-96 | a directory toggles in the expanded list, and only an expansion fetches; a file becomes the selection with the list and tree unchanged |
| `Store.TreeStore.Create` | src/pages/index.tsx:124-160 | the gateway receives the create target; on success the directory it names is refreshed and the returned path is selected; on a failed gateway, an absent target (nothing expanded and no root stored, where the source throws on null) or a failed lookup nothing changes |
| `Store.TreeStore.SelectForMenu` | src/pages/index.tsx:197-200 | the node under the context menu becomes the selection |
| `Store.TreeStore.StartRename` | src/pages/index.tsx:203-206 | the selected path enters rename mode |
| `Store.TreeStore.Rename` | src/pages/index.tsx:163-169 | the parent of the requested path is refreshed, rename mode ends and the gateway's returned path (not the requested one) is selected; nothing changes on a failed gateway or lookup, or when no root is stored (the source throws on null) |
| `Store.TreeStore.Delete` | src/pages/index.tsx:215-227 | the file gateway is chosen exactly when the last segment holds a dot; on success the parent is refreshed and the selection is cleared; nothing changes on a failed gateway or lookup, or when no root is stored (the source throws on null) |

## Left out

- Rendering: the JSX, the delete dialog and its visibility flag, the context menu and its coordinates, click-away handling, and the `afterRename` callback of the tree widget. These are UI.
- The Tauri calls: the folder picker's own behaviour, opening the folder in the shell (`handleOpenLocalDirectory`) and setting the window title. These are platform calls. The picker's answer is the `picked` parameter of `OpenFolder`.
- The gateways `getDirectoryContent`, `createFile`, `createDirectory`, `renameFile`, `deleteFile` and `deleteDirectory` are not part of this model. Their results are method parameters. What a gateway does on disk is not modelled.
- `fileComparable` is not part of this model. It is the `cmp` parameter of the store, and no particular order (such as directories first) is assumed.
- Sorting.SortBy: insertion sort stands in for the engine's sort. For a comparator that is not a total order, the engine may return a different permutation, so only the permutation property, and order under a total comparator, are claimed.
- `localStorage`: the remembered root folder is the field `lastFolderPath`, an `Option` whose None is the null that `getItem` returns when nothing is stored. Persistence across runs is the constructor's `remembered` parameter. The sidebar width is UI layout and is left out.
- Asynchrony: each handler applies all of its effects at once when its gateway calls complete. Interleavings of overlapping fetches and stale applies to nodes that were replaced in between are not modelled.
- React's state copies (`setDirs({ ...dir })`) are left out. The tree is one value held by the store, and in-place assignment to a shared node is modelled as replacement at that node's location. Aliasing of one node object from outside the tree is not modelled.
