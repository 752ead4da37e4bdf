/**
 * `FmView` of `main.js`: the navigator over one folder of the vault, with
 * hidden-entry policy, per-folder selection memory, quick-select search,
 * the `gg`/`yy`/`dd`/`zp` chords, the clipboard and the preview token. The
 * DOM is gone; what remains are the fields the methods update. Entries are
 * value snapshots of the vault's objects, identified by their paths.
 */
module FmViews {
  import opened Js
  import opened Vaults
  import opened Listing
  import opened Selection
  import opened Search
  import opened Chords
  import opened Preview
  import opened FileOps

  class FmView {
    const vault: Vault
    /** The path of `currentFolder`. */
    var currentFolder: string
    var entries: seq<Entry>
    var allEntries: seq<Entry>
    var selectedIndex: int
    var searchActive: bool
    var searchQuery: string
    var lastSearchQuery: string
    /** `searchInputEl.value`. */
    var searchInput: string
    var preselectPath: Option<string>
    var showPreview: bool
    var showHiddenFiles: bool
    var showHiddenFolders: bool
    var showFileExtensions: bool
    var sortFoldersFirst: bool
    var clipboard: Option<Entry>
    var clipboardOperation: Option<Op>
    /** `folderHistory`: folder path to the path last selected there. */
    var folderHistory: map<string, string>
    /** Which of `_gTimer`, `_yTimer`, `_dTimer` is running. */
    var timers: Timers
    /** `_zTimer` and its capture listeners. */
    var zChord: ZState
    var previewToken: int
    var pane: Pane
    /** The preview reads still awaited. */
    var inflight: seq<Request>
    /** The file `activate` last opened in the leaf. */
    var openedFile: Option<string>

    constructor (vault: Vault)
      ensures this.vault == vault && currentFolder == Root
      ensures entries == [] && allEntries == [] && selectedIndex == 0
      ensures !searchActive && searchQuery == "" && lastSearchQuery == "" && searchInput == ""
      ensures preselectPath == None
      ensures showPreview && showHiddenFiles && showHiddenFolders && showFileExtensions && sortFoldersFirst
      ensures clipboard == None && clipboardOperation == None && folderHistory == map[]
      ensures timers == Idle && zChord == ZState(false, 0)
      ensures previewToken == 0 && pane == Blank && inflight == [] && openedFile == None
    {
      this.vault := vault;
      currentFolder := Root;
      entries, allEntries, selectedIndex := [], [], 0;
      searchActive, searchQuery, lastSearchQuery, searchInput := false, "", "", "";
      preselectPath := None;
      showPreview, showHiddenFiles, showHiddenFolders, showFileExtensions, sortFoldersFirst := true, true, true, true, true;
      clipboard, clipboardOperation, folderHistory := None, None, map[];
      timers, zChord := Idle, ZState(false, 0);
      previewToken, pane, inflight, openedFile := 0, Blank, [], None;
    }

    /** The listing flags. */
    function ListingConfig(): Config
      reads this`showHiddenFolders, this`showHiddenFiles, this`sortFoldersFirst
    {
      Config(showHiddenFolders, showHiddenFiles, sortFoldersFirst)
    }

    function PreviewOf(): PreviewState
      reads this`previewToken, this`pane, this`inflight
    {
      PreviewState(previewToken, pane, inflight)
    }

    /** The preview was started for the current selection from `before`. */
    ghost predicate Previewed(before: PreviewState)
      reads this`previewToken, this`pane, this`inflight, this`entries, this`selectedIndex, this`showPreview
    {
      PreviewOf() == Start(before, TargetOf(entries, selectedIndex, true), showPreview)
    }

    /**
     * The view `render` leaves for the fresh `listing`, from the preselection
     * `pre`, the folder's remembered path, the index `sel` and the preview
     * state `before` it started with.
     */
    ghost predicate RenderedFrom(listing: seq<Entry>, pre: Option<string>, remembered: Option<string>, sel: int,
                                 before: PreviewState)
      reads this`allEntries, this`entries, this`selectedIndex, this`preselectPath
      reads this`previewToken, this`pane, this`inflight, this`showPreview
    {
      var i := RenderedIndex(listing, pre, remembered, sel);
      allEntries == listing && entries == listing && selectedIndex == i
      && preselectPath == (if Truthy(pre) then None else pre)
      && PreviewOf() == Start(before, TargetOf(listing, i, true), showPreview)
    }

    /** The listing, the selection and the preview are as they were. */
    twostate predicate ViewKept()
      reads this`entries, this`allEntries, this`selectedIndex, this`preselectPath, this`previewToken, this`pane, this`inflight
    {
      entries == old(entries) && allEntries == old(allEntries) && selectedIndex == old(selectedIndex)
      && preselectPath == old(preselectPath)
      && previewToken == old(previewToken) && pane == old(pane) && inflight == old(inflight)
    }

    /** `getFolderEntries(folder)`: the partition loop, then the sort. */
    method GetFolderEntries(folder: string) returns (r: seq<Entry>)
      ensures r == FolderEntries(vault.entries, folder, ListingConfig())
    {
      var f := vault.Lookup(folder);
      if f.None? || !f.value.Folder? {
        return [];
      }
      var children := f.value.children;
      var dirs, files := [], [];
      for i := 0 to |children|
        invariant (dirs, files) == Partition(Kids(vault.entries, children[..i]), ListingConfig())
      {
        PartitionStep(vault.entries, children, i, ListingConfig());
        var child := vault.Lookup(children[i]);
        if child.Some? {
          var c := child.value;
          if c.Folder? {
            if !(!showHiddenFolders && StartsWithDot(c.name)) {
              dirs := dirs + [c];
            }
          } else {
            if !(!showHiddenFiles && StartsWithDot(c.name)) {
              files := files + [c];
            }
          }
        }
      }
      assert children[..|children|] == children;
      if sortFoldersFirst {
        r := SortByName(dirs) + SortByName(files);
      } else {
        r := SortByName(dirs + files);
      }
    }

    /**
     * The selection part of `render` over the fresh `listing`: a truthy
     * preselection that is listed wins and is consumed, else a remembered
     * path that is listed, else the old index; then the clamp.
     */
    method RenderSelection(listing: seq<Entry>) returns (sel: int, pre: Option<string>)
      ensures sel == RenderedIndex(listing, preselectPath, Remembered(folderHistory, currentFolder), selectedIndex)
      ensures pre == if Truthy(preselectPath) then None else preselectPath
    {
      var remembered := Remembered(folderHistory, currentFolder);
      pre, sel := preselectPath, selectedIndex;
      if Truthy(pre) {
        var i := IndexOfPath(listing, pre.value);
        if i >= 0 {
          sel := i;
        }
        pre := None;
      } else if Truthy(remembered) {
        var i := IndexOfPath(listing, remembered.value);
        if i >= 0 {
          sel := i;
        }
      }
      if sel >= |listing| {
        sel := if |listing| - 1 > 0 then |listing| - 1 else 0;
      }
      if sel < 0 {
        sel := 0;
      }
    }

    /** `render`: the listing, the selection, then the preview. */
    method Render()
      modifies this`allEntries, this`entries, this`selectedIndex, this`preselectPath
      modifies this`previewToken, this`pane, this`inflight
      ensures RenderedFrom(old(FolderEntries(vault.entries, currentFolder, ListingConfig())), old(preselectPath),
                           old(Remembered(folderHistory, currentFolder)), old(selectedIndex), old(PreviewOf()))
    {
      var listing := GetFolderEntries(currentFolder);
      var sel, pre := RenderSelection(listing);
      allEntries, entries, selectedIndex, preselectPath := listing, listing, sel, pre;
      RenderPreview();
    }

    /** `move(delta)`: a no-op on an empty list; otherwise the wrap, the preview, and the history entry. */
    method Move(delta: int)
      modifies this`selectedIndex, this`previewToken, this`pane, this`inflight, this`folderHistory
      ensures entries == [] ==>
        selectedIndex == old(selectedIndex) && PreviewOf() == old(PreviewOf()) && folderHistory == old(folderHistory)
      ensures entries != [] ==>
        selectedIndex == MoveIndex(old(selectedIndex), delta, |entries|) && Previewed(old(PreviewOf()))
        && folderHistory == Saved(old(folderHistory), currentFolder, entries, selectedIndex)
    {
      if |entries| == 0 {
        return;
      }
      selectedIndex := Rem(selectedIndex + delta + |entries|, |entries|);
      RenderPreview();
      SaveCurrentSelection();
    }

    /** `saveCurrentSelection`. */
    method SaveCurrentSelection()
      modifies this`folderHistory
      ensures folderHistory == Saved(old(folderHistory), currentFolder, entries, selectedIndex)
    {
      if |entries| > 0 && 0 <= selectedIndex < |entries| {
        folderHistory := folderHistory[currentFolder := entries[selectedIndex].path];
      }
    }

    /**
     * `up`: with a parent folder, show it with the folder just left selected,
     * unless `render` then restores a preselection or a remembered path.
     */
    method Up()
      modifies this`currentFolder, this`selectedIndex, this`allEntries, this`entries, this`preselectPath
      modifies this`previewToken, this`pane, this`inflight
      ensures !ParentIsFolder(old(vault.entries), old(currentFolder)) ==> currentFolder == old(currentFolder) && ViewKept()
      ensures ParentIsFolder(old(vault.entries), old(currentFolder)) ==>
        var parent := ParentPath(old(currentFolder)).value;
        var listing := FolderEntries(old(vault.entries), parent, old(ListingConfig()));
        currentFolder == parent
        && RenderedFrom(listing, old(preselectPath), Remembered(old(folderHistory), parent),
                        UpIndex(listing, old(currentFolder)), old(PreviewOf()))
    {
      var parent := ParentPath(currentFolder);
      if parent.None? {
        return;
      }
      var p := vault.Lookup(parent.value);
      if p.Some? && p.value.Folder? {
        var prev := currentFolder;
        currentFolder := parent.value;
        var listing := GetFolderEntries(parent.value);
        var idx := IndexOfPath(listing, prev);
        selectedIndex := if idx >= 0 then idx else 0;
        Render();
      }
    }

    /**
     * `activate`: enter the selected folder (remembering the selection and
     * leaving the search), or open the selected file; nothing without a
     * selected entry.
     */
    method Activate()
      modifies this`folderHistory, this`currentFolder, this`selectedIndex, this`allEntries, this`entries
      modifies this`preselectPath, this`previewToken, this`pane, this`inflight, this`openedFile
      modifies this`searchActive, this`searchQuery, this`searchInput, this`lastSearchQuery
      ensures var e := EntryAt(old(entries), old(selectedIndex));
        (e.None? ==> ViewKept() && currentFolder == old(currentFolder) && folderHistory == old(folderHistory)
                      && openedFile == old(openedFile) && SearchKept())
        && (e.Some? && e.value.File? ==>
              openedFile == Some(e.value.path) && ViewKept() && currentFolder == old(currentFolder)
              && folderHistory == old(folderHistory) && SearchKept())
        && (e.Some? && e.value.Folder? ==>
              folderHistory == Saved(old(folderHistory), old(currentFolder), old(entries), old(selectedIndex))
              && currentFolder == e.value.path && openedFile == old(openedFile)
              && (old(searchActive) ==> SearchLeft(true))
              && (!old(searchActive) ==> SearchKept())
              && RenderedFrom(FolderEntries(old(vault.entries), e.value.path, old(ListingConfig())), old(preselectPath),
                              Remembered(folderHistory, e.value.path), 0, old(PreviewOf())))
    {
      if |entries| == 0 || !(0 <= selectedIndex < |entries|) {
        return;
      }
      var entry := entries[selectedIndex];
      if entry.Folder? {
        EnterFolder(entry.path);
      } else {
        openedFile := Some(entry.path);
      }
    }

    /**
     * The folder branch of `activate`: remember the selection, enter
     * `folder` at index 0, leave the search (clearing it), and render.
     */
    method EnterFolder(folder: string)
      modifies this`folderHistory, this`currentFolder, this`selectedIndex, this`allEntries, this`entries
      modifies this`preselectPath, this`previewToken, this`pane, this`inflight
      modifies this`searchActive, this`searchQuery, this`searchInput, this`lastSearchQuery
      ensures folderHistory == Saved(old(folderHistory), old(currentFolder), old(entries), old(selectedIndex))
      ensures currentFolder == folder
      ensures old(searchActive) ==> SearchLeft(true)
      ensures !old(searchActive) ==> SearchKept()
      ensures RenderedFrom(FolderEntries(old(vault.entries), folder, old(ListingConfig())), old(preselectPath),
                           Remembered(folderHistory, folder), 0, old(PreviewOf()))
    {
      LeaveFolder(folder);
      assert FolderEntries(vault.entries, currentFolder, ListingConfig()) == FolderEntries(old(vault.entries), folder, old(ListingConfig()));
      assert PreviewOf() == old(PreviewOf());
      Render();
    }

    /** The part of `activate` before its `render`: save, switch folder, select the top, leave the search. */
    method LeaveFolder(folder: string)
      modifies this`folderHistory, this`currentFolder, this`selectedIndex
      modifies this`searchActive, this`searchQuery, this`searchInput, this`lastSearchQuery
      ensures folderHistory == Saved(old(folderHistory), old(currentFolder), old(entries), old(selectedIndex))
      ensures currentFolder == folder && selectedIndex == 0
      ensures old(searchActive) ==> SearchLeft(true)
      ensures !old(searchActive) ==> SearchKept()
    {
      SaveCurrentSelection();
      currentFolder := folder;
      selectedIndex := 0;
      if searchActive {
        LeaveSearch(true);
      }
    }

    /** The search fields are as they were. */
    twostate predicate SearchKept()
      reads this`searchActive, this`searchQuery, this`searchInput, this`lastSearchQuery
    {
      searchActive == old(searchActive) && searchQuery == old(searchQuery)
      && searchInput == old(searchInput) && lastSearchQuery == old(lastSearchQuery)
    }

    /** The search fields after `exitSearchMode(_, clear)`. */
    twostate predicate SearchLeft(clear: bool)
      reads this`searchActive, this`searchQuery, this`searchInput, this`lastSearchQuery
    {
      !searchActive && lastSearchQuery == KeptQuery(old(searchInput), old(lastSearchQuery))
      && (clear ==> searchQuery == "" && searchInput == "")
      && (!clear ==> searchQuery == Trim(old(searchInput)) && searchInput == old(searchInput))
    }

    /** `enterSearchMode`: the input shows the applied query, then the filter runs on it. */
    method EnterSearchMode()
      modifies this`searchActive, this`searchInput, this`searchQuery, this`lastSearchQuery
      modifies this`selectedIndex, this`previewToken, this`pane, this`inflight
      ensures searchActive && searchInput == old(searchQuery) && searchQuery == old(Trim(searchQuery))
      ensures lastSearchQuery == old(KeptQuery(searchQuery, lastSearchQuery))
      ensures selectedIndex == old(AutoJump(Labels(entries, showFileExtensions), selectedIndex, Trim(searchQuery)))
      ensures Previewed(old(PreviewOf()))
    {
      searchActive := true;
      searchInput := searchQuery;
      ApplySearchFilter();
    }

    /** `exitSearchMode(rerender, clear)`. */
    method ExitSearchMode(rerender: bool, clear: bool)
      modifies this`searchActive, this`searchInput, this`searchQuery, this`lastSearchQuery
      modifies this`allEntries, this`entries, this`selectedIndex, this`preselectPath
      modifies this`previewToken, this`pane, this`inflight
      ensures SearchLeft(clear)
      ensures rerender ==>
        RenderedFrom(old(FolderEntries(vault.entries, currentFolder, ListingConfig())), old(preselectPath),
                     old(Remembered(folderHistory, currentFolder)), old(selectedIndex), old(PreviewOf()))
      ensures !rerender ==> ViewKept()
    {
      LeaveSearch(clear);
      if rerender {
        Render();
      }
    }

    /** The search fields part of `exitSearchMode(_, clear)`. */
    method LeaveSearch(clear: bool)
      modifies this`searchActive, this`searchInput, this`searchQuery, this`lastSearchQuery
      ensures SearchLeft(clear)
    {
      lastSearchQuery := KeptQuery(searchInput, lastSearchQuery);
      searchActive := false;
      if clear {
        searchQuery := "";
        searchInput := "";
      } else {
        searchQuery := Trim(searchInput);
      }
    }

    /**
     * The selection part of `applySearchFilter` for the trimmed query `query`:
     * kept when the selected label matches, otherwise the first matching
     * label, if any.
     */
    method SearchSelection(query: string) returns (sel: int)
      ensures sel == AutoJump(Labels(entries, showFileExtensions), selectedIndex, query)
    {
      var q := Lower(query);
      var labels := Labels(entries, showFileExtensions);
      sel := selectedIndex;
      var curMatches := q != "" && 0 <= selectedIndex < |entries| && Includes(Lower(labels[selectedIndex]), q);
      if q != "" && !curMatches {
        var next := FirstMatch(labels, query);
        if next >= 0 {
          sel := next;
        }
      }
    }

    /**
     * `applySearchFilter`: apply the trimmed input, and move the selection to
     * the first entry whose label matches when the selected one does not.
     */
    method ApplySearchFilter()
      modifies this`searchQuery, this`lastSearchQuery, this`selectedIndex
      modifies this`previewToken, this`pane, this`inflight
      ensures searchQuery == old(Trim(searchInput))
      ensures lastSearchQuery == old(KeptQuery(searchInput, lastSearchQuery))
      ensures selectedIndex == old(AutoJump(Labels(entries, showFileExtensions), selectedIndex, Trim(searchInput)))
      ensures Previewed(old(PreviewOf()))
    {
      var query := Trim(searchInput);
      var sel := SearchSelection(query);
      searchQuery := query;
      if query != "" {
        lastSearchQuery := query;
      }
      selectedIndex := sel;
      if |entries| == 0 {
        pane := Blank;
        return;
      }
      RenderPreview();
    }

    /** The search input's `input` event: the typed text, then the filter. */
    method SetSearchInput(text: string)
      modifies this`searchInput, this`searchQuery, this`lastSearchQuery, this`selectedIndex
      modifies this`previewToken, this`pane, this`inflight
      ensures searchInput == text && searchQuery == Trim(text)
      ensures lastSearchQuery == KeptQuery(text, old(lastSearchQuery))
      ensures selectedIndex == old(AutoJump(Labels(entries, showFileExtensions), selectedIndex, Trim(text)))
      ensures Previewed(old(PreviewOf()))
    {
      searchInput := text;
      ApplySearchFilter();
    }

    /** `cycleSearch(step)`: `n` (+1) and `N` (-1). */
    method CycleSearch(step: int)
      requires step == 1 || step == -1
      modifies this`selectedIndex, this`previewToken, this`pane, this`inflight
      ensures var t := old(CycleTarget(allEntries, entries, selectedIndex,
                                       EffectiveQuery(searchInput, searchQuery, lastSearchQuery), step));
        (t.None? ==> selectedIndex == old(selectedIndex) && PreviewOf() == old(PreviewOf()))
        && (t.Some? ==> selectedIndex == t.value && Previewed(old(PreviewOf())))
    {
      var query := EffectiveQuery(searchInput, searchQuery, lastSearchQuery);
      var target := CycleTarget(allEntries, entries, selectedIndex, query, step);
      if target.Some? {
        selectedIndex := target.value;
        RenderPreview();
      }
    }

    /** `jumpTop`. */
    method JumpTop()
      modifies this`selectedIndex, this`previewToken, this`pane, this`inflight
      ensures entries == [] ==> selectedIndex == old(selectedIndex) && PreviewOf() == old(PreviewOf())
      ensures entries != [] ==> selectedIndex == 0 && Previewed(old(PreviewOf()))
    {
      if |entries| == 0 {
        return;
      }
      selectedIndex := 0;
      RenderPreview();
    }

    /** `jumpBottom`. */
    method JumpBottom()
      modifies this`selectedIndex, this`previewToken, this`pane, this`inflight
      ensures entries == [] ==> selectedIndex == old(selectedIndex) && PreviewOf() == old(PreviewOf())
      ensures entries != [] ==> selectedIndex == |entries| - 1 && Previewed(old(PreviewOf()))
    {
      if |entries| == 0 {
        return;
      }
      selectedIndex := |entries| - 1;
      RenderPreview();
    }

    /** `handleG`: the second `g` while the timer runs jumps to the top. */
    method HandleG()
      modifies this`timers, this`selectedIndex, this`previewToken, this`pane, this`inflight
      ensures timers == Press(old(timers), G).0
      ensures Press(old(timers), G).1 && entries != [] ==> selectedIndex == 0 && Previewed(old(PreviewOf()))
      ensures !(Press(old(timers), G).1 && entries != []) ==>
        selectedIndex == old(selectedIndex) && PreviewOf() == old(PreviewOf())
    {
      if timers.Get(G) {
        timers := timers.Set(G, false);
        JumpTop();
        return;
      }
      timers := timers.Set(G, true);
    }

    /** `handleY`: the second `y` while the timer runs copies the selected entry. */
    method HandleY()
      modifies this`timers, this`clipboard, this`clipboardOperation
      ensures timers == Press(old(timers), Y).0
      ensures Press(old(timers), Y).1 && entries != [] ==>
        clipboard == EntryAt(entries, selectedIndex) && clipboardOperation == Some(CopyOp)
      ensures !(Press(old(timers), Y).1 && entries != []) ==>
        clipboard == old(clipboard) && clipboardOperation == old(clipboardOperation)
    {
      if timers.Get(Y) {
        timers := timers.Set(Y, false);
        CopyEntry();
        return;
      }
      timers := timers.Set(Y, true);
    }

    /** `handleD`: the second `d` while the timer runs cuts the selected entry. */
    method HandleD()
      modifies this`timers, this`clipboard, this`clipboardOperation
      ensures timers == Press(old(timers), D).0
      ensures Press(old(timers), D).1 && entries != [] ==>
        clipboard == EntryAt(entries, selectedIndex) && clipboardOperation == Some(CutOp)
      ensures !(Press(old(timers), D).1 && entries != []) ==>
        clipboard == old(clipboard) && clipboardOperation == old(clipboardOperation)
    {
      if timers.Get(D) {
        timers := timers.Set(D, false);
        CutEntry();
        return;
      }
      timers := timers.Set(D, true);
    }

    /** The callback of the `g`, `y` or `d` timer. */
    method ChordTimeout(p: Prefix)
      modifies this`timers
      ensures timers == Expire(old(timers), p)
    {
      timers := timers.Set(p, false);
    }

    /** `handleZ`: a running timer is cleared; otherwise it starts and one more capture listener waits. */
    method HandleZ()
      modifies this`zChord
      ensures zChord == Chords.HandleZ(old(zChord))
    {
      if zChord.pending {
        zChord := zChord.(pending := false);
        return;
      }
      zChord := ZState(true, zChord.listeners + 1);
    }

    /** The callback of the `z` timer. */
    method ZChordTimeout()
      modifies this`zChord
      ensures zChord == ZTimeout(old(zChord))
    {
      zChord := zChord.(pending := false);
    }

    /**
     * The `onKey` capture listeners on one keydown, before the host handler
     * sees it: `p`/`P` after `z` toggles the preview pane and is stopped.
     */
    method CaptureKey(k: char) returns (stopped: bool)
      modifies this`zChord, this`showPreview, this`previewToken, this`pane, this`inflight
      ensures var c := ZCapture(old(zChord), k);
        zChord == c.state && stopped == c.stopped
        && (c.toggled ==> showPreview == !old(showPreview) && Previewed(old(PreviewOf())))
        && (!c.toggled ==> showPreview == old(showPreview) && PreviewOf() == old(PreviewOf()))
    {
      stopped := false;
      if zChord.pending && zChord.listeners >= 1 {
        if k == 'p' || k == 'P' {
          stopped := true;
          TogglePreviewPane();
        }
        zChord := ZState(false, zChord.listeners - 1);
      }
    }

    /** `togglePreviewPane`. */
    method TogglePreviewPane()
      modifies this`showPreview, this`previewToken, this`pane, this`inflight
      ensures showPreview == !old(showPreview)
      ensures Previewed(old(PreviewOf()))
    {
      showPreview := !showPreview;
      RenderPreview();
    }

    /** `copyEntry`: the selected entry (none when the index is off the list) is put on the clipboard. */
    method CopyEntry()
      modifies this`clipboard, this`clipboardOperation
      ensures entries == [] ==> clipboard == old(clipboard) && clipboardOperation == old(clipboardOperation)
      ensures entries != [] ==> clipboard == EntryAt(entries, selectedIndex) && clipboardOperation == Some(CopyOp)
    {
      if |entries| == 0 {
        return;
      }
      clipboard := EntryAt(entries, selectedIndex);
      clipboardOperation := Some(CopyOp);
    }

    /** `cutEntry`. */
    method CutEntry()
      modifies this`clipboard, this`clipboardOperation
      ensures entries == [] ==> clipboard == old(clipboard) && clipboardOperation == old(clipboardOperation)
      ensures entries != [] ==> clipboard == EntryAt(entries, selectedIndex) && clipboardOperation == Some(CutOp)
    {
      if |entries| == 0 {
        return;
      }
      clipboard := EntryAt(entries, selectedIndex);
      clipboardOperation := Some(CutOp);
    }

    /**
     * `pasteEntry` (and `handleP`) into the current folder. A cut clears the
     * clipboard whether or not the move succeeded; a copy keeps it.
     */
    method PasteEntry()
      modifies vault`entries, this`clipboard, this`clipboardOperation
      modifies this`allEntries, this`entries, this`selectedIndex, this`preselectPath
      modifies this`previewToken, this`pane, this`inflight
      ensures Pasted(old(clipboard), old(clipboardOperation), old(vault.entries), vault.faulty, currentFolder,
                     clipboard, clipboardOperation, vault.entries)
      ensures var a := PasteDecision(old(clipboard), old(clipboardOperation), currentFolder);
        (a == NothingToPaste || a == RejectIntoItself ==> ViewKept())
        && (a != NothingToPaste && a != RejectIntoItself ==>
              RenderedFrom(FolderEntries(vault.entries, old(currentFolder), old(ListingConfig())), old(preselectPath),
                           old(Remembered(folderHistory, currentFolder)), old(selectedIndex), old(PreviewOf())))
    {
      var go := ApplyPaste();
      if go {
        assert FolderEntries(vault.entries, currentFolder, ListingConfig())
            == FolderEntries(vault.entries, old(currentFolder), old(ListingConfig()));
        Render();
      }
    }

    /** The part of `pasteEntry` before its `render`; `go` is false where it returns early. */
    method ApplyPaste() returns (go: bool)
      modifies vault`entries, this`clipboard, this`clipboardOperation
      ensures Pasted(old(clipboard), old(clipboardOperation), old(vault.entries), vault.faulty, currentFolder,
                     clipboard, clipboardOperation, vault.entries)
      ensures var a := PasteDecision(old(clipboard), old(clipboardOperation), currentFolder);
        go <==> a != NothingToPaste && a != RejectIntoItself
    {
      if clipboard.None? {
        return false;
      }
      var source := clipboard.value;
      var dest := currentFolder;
      go := true;
      if IsSameFolderCopy(source, dest, clipboardOperation) {
        CopyFileWithNewName(source, dest);
      } else if source.Folder? && source.path == dest {
        return false;
      } else if clipboardOperation == Some(CopyOp) {
        CopiedToGrows(vault.entries, vault.faulty, source, dest);
        CopyToFolder(source, dest);
      } else if clipboardOperation == Some(CutOp) {
        MoveToFolder(source, dest);
        clipboard := None;
        clipboardOperation := None;
      }
    }

    /** The counter loop of `copyFileWithNewName`. */
    method ProbeCounter(dest: string, basename: string, ext: string) returns (counter: nat, path: string)
      ensures counter == FirstFree(vault.entries, dest, basename, ext, 1)
      ensures path == CandidatePath(dest, basename, ext, counter)
    {
      counter := 1;
      path := CandidatePath(dest, basename, ext, counter);
      var taken := vault.Lookup(path);
      while taken.Some? && counter < MaxAttempts
        invariant 1 <= counter <= MaxAttempts
        invariant path == CandidatePath(dest, basename, ext, counter)
        invariant taken.Some? <==> path in vault.entries
        invariant FirstFree(vault.entries, dest, basename, ext, counter) == FirstFree(vault.entries, dest, basename, ext, 1)
        decreases MaxAttempts - counter
      {
        counter := counter + 1;
        path := CandidatePath(dest, basename, ext, counter);
        taken := vault.Lookup(path);
      }
    }

    /** `copyFileWithNewName(file, dest)`: probe for a free name, then read and create. */
    method CopyFileWithNewName(file: Entry, dest: string)
      requires file.File?
      modifies vault`entries
      ensures vault.entries == CopiedWithNewName(old(vault.entries), vault.faulty, file, dest)
    {
      var counter, newPath := ProbeCounter(dest, file.basename, file.extension);
      if counter >= MaxAttempts {
        return;
      }
      var text := vault.Read(file.path);
      if text.None? {
        return;
      }
      var created := vault.Create(newPath, text.value);
    }

    /**
     * `copyToFolder(source, dest)`: abort when the destination exists;
     * otherwise copy the file, or the folder recursively.
     */
    method CopyToFolder(source: Entry, dest: string)
      modifies vault`entries
      ensures vault.entries == CopiedTo(old(vault.entries), vault.faulty, source, dest)
    {
      var dst := ChildPath(dest, source.name);
      var existing := vault.Lookup(dst);
      if existing.Some? {
        return;
      }
      if source.File? {
        var text := vault.Read(source.path);
        if text.Some? {
          var created := vault.Create(dst, text.value);
        }
      } else {
        var copied := CopyFolderRecursive(source.path, dst, |vault.entries|);
      }
    }

    /**
     * `copyFolderRecursive(src, dst)`: the destination folder is created
     * before any child is copied; each child of the source as listed when
     * the loop starts is copied below it. A failing host call aborts the
     * whole copy (`ok` false). `fuel` bounds the depth.
     */
    method CopyFolderRecursive(src: string, dst: string, fuel: nat) returns (ok: bool)
      modifies vault`entries
      ensures CopyResult(ok, vault.entries) == FolderCopied(old(vault.entries), vault.faulty, src, dst, fuel)
      decreases fuel, 0
    {
      if fuel == 0 {
        return false;
      }
      ok := vault.CreateFolder(dst);
      if !ok {
        return;
      }
      var kids := SnapshotKids(vault.entries, src);
      ok := CopyChildren(kids, dst, fuel - 1);
    }

    /** The loop of `copyFolderRecursive`: the children `kids`, in order, stopping at the first failure. */
    method CopyChildren(kids: seq<string>, dst: string, fuel: nat) returns (ok: bool)
      modifies vault`entries
      ensures CopyResult(ok, vault.entries) == KidsCopied(old(vault.entries), vault.faulty, kids, dst, fuel)
      decreases fuel, 2
    {
      var i := 0;
      while i < |kids|
        invariant 0 <= i <= |kids|
        invariant KidsCopied(vault.entries, vault.faulty, kids[i..], dst, fuel)
               == KidsCopied(old(vault.entries), vault.faulty, kids, dst, fuel)
      {
        ok := CopyChild(kids[i], dst, fuel);
        if !ok {
          return;
        }
        assert kids[i..][1..] == kids[i + 1..];
        i := i + 1;
      }
      ok := true;
    }

    /**
     * One pass of the loop in `copyFolderRecursive`: a file child is read and
     * created below `dst`, a folder child is copied recursively; a child no
     * longer in the vault is skipped.
     */
    method CopyChild(k: string, dst: string, fuel: nat) returns (ok: bool)
      modifies vault`entries
      ensures CopyResult(ok, vault.entries) == KidCopied(old(vault.entries), vault.faulty, k, dst, fuel)
      decreases fuel, 1
    {
      var child := vault.Lookup(k);
      if child.None? {
        return true;
      }
      var c := child.value;
      var childDst := dst + "/" + c.name;
      if c.File? {
        var text := vault.Read(k);
        if text.None? {
          return false;
        }
        ok := vault.Create(childDst, text.value);
      } else {
        ok := CopyFolderRecursive(k, childDst, fuel);
      }
    }

    /** `moveToFolder(source, dest)`: abort when the destination exists; otherwise rename. */
    method MoveToFolder(source: Entry, dest: string)
      modifies vault`entries
      ensures vault.entries == Moved(old(vault.entries), vault.faulty, source.path, ChildPath(dest, source.name))
    {
      var dst := ChildPath(dest, source.name);
      var existing := vault.Lookup(dst);
      if existing.Some? {
        return;
      }
      var moved := vault.Rename(source.path, dst);
    }

    /**
     * The synchronous part of `renderPreview`: the pane is emptied; a text
     * file increments the token and, with the preview shown, starts a read.
     */
    method RenderPreview()
      modifies this`previewToken, this`pane, this`inflight
      ensures Previewed(old(PreviewOf()))
    {
      pane := Blank;
      if |entries| == 0 || !(0 <= selectedIndex < |entries|) {
        return;
      }
      var entry := entries[selectedIndex];
      if entry.Folder? {
        return;
      }
      if Lower(entry.extension) in PreviewImageExtensions {
        if showPreview {
          pane := ImagePane(entry.path);
        }
        return;
      }
      previewToken := previewToken + 1;
      var token := previewToken;
      if !showPreview {
        return;
      }
      inflight := inflight + [Request(token, entry.path)];
    }

    /**
     * The continuation of read `k` of `renderPreview` once it settles against
     * the vault as it is then: shown only if its token is still current.
     */
    method PreviewSettles(k: nat)
      requires k < |inflight|
      modifies this`pane, this`inflight
      ensures PreviewOf() == Finish(old(PreviewOf()), k, ReadResult(vault.entries, vault.faulty, old(inflight[k].path)))
    {
      var request := inflight[k];
      var text := vault.Read(request.path);
      inflight := inflight[..k] + inflight[k + 1..];
      if request.token != previewToken {
        return;
      }
      pane := if text.Some? then Rendered(request.path, Truncate(text.value)) else Failed;
    }
  }
}
