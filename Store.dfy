/**
 * The state behind the page component of src/pages/index.tsx, without
 * React: the directory tree (`dir`), the remembered root folder
 * (`localStorage[LAST_FOLDER_PATH]`, a field holding None while nothing is
 * stored), the expanded-path
 * list, the selected path and the path being renamed. Each handler is a
 * method that applies the whole of its effect at once, with the gateway's
 * answers (the created or renamed path, whether a delete succeeded, the
 * listing that the following fetch receives) given as parameters; None
 * stands for a rejected promise.
 */
module Store {
  import opened Wrappers
  import opened PathUtil
  import opened FileTree
  import opened Cursors

  class TreeStore {
    /** `dir`: the root of the mirrored tree. */
    var root: Node
    /** The remembered root folder; None when nothing is stored, which is
        what `getItem` answers with null. */
    var lastFolderPath: Option<string>
    /** `currentExpandedPath`. */
    var expanded: seq<string>
    /** `currentSelectedPath`; empty means nothing is selected. */
    var selected: string
    /** `currentEditingFilePath`; empty means no rename is in progress. */
    var editing: string
    /** `fileComparable`, which orders every listing. */
    const cmp: (Node, Node) -> int

    /** The root is always a directory. */
    ghost predicate Valid()
      reads this
    {
      IsDirectory(root)
    }

    /** The initial state of the page (index.tsx lines 28-37 and 51). */
    constructor (remembered: Option<string>, cmp: (Node, Node) -> int)
      ensures Valid()
      ensures root == Node("", "", Some([])) && lastFolderPath == remembered
      ensures expanded == [] && selected == "" && editing == "" && this.cmp == cmp
    {
      root := Node("", "", Some([]));
      lastFolderPath := remembered;
      expanded := [];
      selected := "";
      editing := "";
      this.cmp := cmp;
    }

    /** `fetchDirectory` on the node at `loc` (index.tsx lines 172-193). */
    method Refresh(loc: seq<nat>, listing: Option<seq<Entry>>)
      requires Valid() && ValidLoc(root, loc)
      modifies this`root
      ensures Valid()
      ensures root == Refreshed(old(root), loc, listing, cmp)
    {
      if listing.Some? {
        root := ReplaceChildrenAt(root, loc, Listed(listing.value, cmp));
      }
    }

    /** `fetchDirectory` with `isRoot` set: a fresh node named
        by the path's last segment becomes the root once its listing arrives. */
    method FetchRoot(path: string, listing: Option<seq<Entry>>)
      requires Valid()
      modifies this`root
      ensures Valid()
      ensures root == if listing.Some? then Node(LastSegment(path), path, Some(Listed(listing.value, cmp))) else old(root)
    {
      if listing.Some? {
        root := Node(LastSegment(path), path, Some(Listed(listing.value, cmp)));
      }
    }

    /** Start-up (index.tsx lines 55-62): load the remembered folder, unless
        nothing or the (falsy) empty string is stored. */
    method Restore(listing: Option<seq<Entry>>)
      requires Valid()
      modifies this`root
      ensures Valid()
      ensures root == if lastFolderPath.Some? && lastFolderPath.value != "" && listing.Some?
        then Node(LastSegment(lastFolderPath.value), lastFolderPath.value, Some(Listed(listing.value, cmp)))
        else old(root)
    {
      if lastFolderPath.Some? && lastFolderPath.value != "" {
        FetchRoot(lastFolderPath.value, listing);
      }
    }

    /** `handleOpenDirectory` (index.tsx lines 99-121) once the dialog returns
        `picked`; an empty answer means the dialog was dismissed. */
    method OpenFolder(picked: string, listing: Option<seq<Entry>>)
      requires Valid()
      modifies this`root, this`lastFolderPath
      ensures Valid()
      ensures picked == "" ==> root == old(root) && lastFolderPath == old(lastFolderPath)
      ensures picked != "" ==> lastFolderPath == Some(picked)
      ensures picked != "" ==> root == if listing.Some?
        then Node(LastSegment(picked), picked, Some(Listed(listing.value, cmp)))
        else old(root)
    {
      if picked == "" {
        return;
      }
      lastFolderPath := Some(picked);
      FetchRoot(picked, listing);
    }

    /** `handleItemClick` on the node at `loc` (index.tsx lines 84-96): a
        directory collapses or expands (and is fetched), a file is selected. */
    method Click(loc: seq<nat>, listing: Option<seq<Entry>>)
      requires Valid() && ValidLoc(root, loc)
      modifies this`root, this`expanded, this`selected
      ensures Valid()
      ensures var item := NodeAt(old(root), loc);
        if IsDirectory(item) then
          && selected == old(selected)
          && expanded == Toggle(old(expanded), item.path)
          && root == if item.path in old(expanded) then old(root) else Refreshed(old(root), loc, listing, cmp)
        else
          && selected == item.path
          && expanded == old(expanded)
          && root == old(root)
    {
      var item := NodeAt(root, loc);
      if IsDirectory(item) {
        if item.path in expanded {
          expanded := Collapse(expanded, item.path);
        } else {
          expanded := expanded + [item.path];
          Refresh(loc, listing);
        }
      } else {
        selected := item.path;
      }
    }

    /** `handleCreateFile` and `handleCreateDirectory` (index.tsx lines 124-160),
        which differ only in the gateway that answers `created`. Returns the
        directory path handed to the gateway; None is the null the gateway
        receives when nothing is expanded and no root is stored, after which
        the handler's `dirPath.replace` throws and nothing changes. */
    method Create(created: Option<string>, listing: Option<seq<Entry>>) returns (target: Option<string>)
      requires Valid()
      modifies this`root, this`selected
      ensures Valid()
      ensures target == CreateTarget(expanded, lastFolderPath)
      ensures created.None? || target.None? ==> selected == old(selected) && root == old(root)
      ensures created.Some? && target.Some? ==>
        var w := Walk(old(root), CreateSegments(target.value, old(root).path));
        if w.Some? then
          && selected == created.value
          && root == Refreshed(old(root), w.value, listing, cmp)
        else
          && selected == old(selected)
          && root == old(root)
    {
      target := CreateTarget(expanded, lastFolderPath);
      if created.None? || target.None? {
        return;
      }
      var loc := Resolve(root, CreateSegments(target.value, root.path));
      if loc.None? {
        return;
      }
      Refresh(loc.value, listing);
      selected := created.value;
    }

    /** `handleOpenContextMenu` (index.tsx lines 197-200), without the menu: the
        right-clicked node becomes the selection. */
    method SelectForMenu(path: string)
      modifies this`selected
      ensures selected == path
    {
      selected := path;
    }

    /** `handleRenameStart` (index.tsx lines 203-206): the selection enters rename mode. */
    method StartRename()
      modifies this`editing
      ensures editing == selected
    {
      editing := selected;
    }

    /** `updateFileName` (index.tsx lines 163-169): the parent of the requested
        `newPath` is refreshed, rename mode ends and the path the gateway
        answered with, not `newPath`, is selected. With no root stored the
        parent lookup throws on null and nothing changes. */
    method Rename(newPath: string, renamed: Option<string>, listing: Option<seq<Entry>>)
      requires Valid()
      modifies this`root, this`selected, this`editing
      ensures Valid()
      ensures renamed.None? || old(lastFolderPath).None? ==>
        root == old(root) && editing == old(editing) && selected == old(selected)
      ensures renamed.Some? && old(lastFolderPath).Some? ==>
        var w := Walk(old(root), ParentSegments(newPath, old(lastFolderPath).value));
        if w.Some? then
          && root == Refreshed(old(root), w.value, listing, cmp)
          && editing == ""
          && selected == renamed.value
        else
          && root == old(root)
          && editing == old(editing)
          && selected == old(selected)
    {
      if renamed.None? || lastFolderPath.None? {
        return;
      }
      var loc := Resolve(root, ParentSegments(newPath, lastFolderPath.value));
      if loc.None? {
        return;
      }
      Refresh(loc.value, listing);
      editing := "";
      selected := renamed.value;
    }

    /** `handleDeleteConfirm` (index.tsx lines 215-227): picks the gateway by
        the dotted-name rule (the result is true for `deleteFile`), then
        refreshes the parent of the selection and clears the selection. With
        no root stored the parent lookup throws on null and nothing changes. */
    method Delete(deleted: bool, listing: Option<seq<Entry>>) returns (asFile: bool)
      requires Valid()
      modifies this`root, this`selected
      ensures Valid()
      ensures asFile == IsFileTarget(old(selected))
      ensures !deleted || old(lastFolderPath).None? ==> root == old(root) && selected == old(selected)
      ensures deleted && old(lastFolderPath).Some? ==>
        var w := Walk(old(root), ParentSegments(old(selected), old(lastFolderPath).value));
        if w.Some? then
          && root == Refreshed(old(root), w.value, listing, cmp)
          && selected == ""
        else
          && root == old(root)
          && selected == old(selected)
    {
      asFile := IsFileTarget(selected);
      if !deleted || lastFolderPath.None? {
        return;
      }
      var loc := Resolve(root, ParentSegments(selected, lastFolderPath.value));
      if loc.None? {
        return;
      }
      Refresh(loc.value, listing);
      selected := "";
    }
  }
}
