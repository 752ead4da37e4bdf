/**
 * `RangerView` of `src/main.ts`: the earlier navigator. It lists every child
 * (nothing hidden), always folders first, keeps no per-folder selection
 * memory and no clipboard, and knows only the `gg` and `zp` chords. Search
 * compares entry names, and the preview has no image branch. As in
 * `FmViews`, the DOM is gone and entries are value snapshots of the vault.
 */
module RangerViews {
  import opened Js
  import opened Vaults
  import opened Listing
  import opened Selection
  import opened Search
  import opened Chords
  import opened Preview

  class RangerView {
    const vault: Vault
    /** The path of `currentFolder`. */
    var currentFolder: string
    var entries: seq<Entry>
    var allEntries: seq<Entry>
    var selectedIndex: int
    var searchActive: bool
    var searchQuery: string
    var lastSearchQuery: string
    /** `searchInputEl.value`. */
    var searchInput: string
    var preselectPath: Option<string>
    var showPreview: bool
    /** `_gTimer` is running. */
    var gPending: bool
    /** `_zTimer` and its capture listeners. */
    var zChord: ZState
    var previewToken: int
    var pane: Pane
    /** The preview reads still awaited. */
    var inflight: seq<Request>
    /** The file `activate` last opened in the leaf. */
    var openedFile: Option<string>

    constructor (vault: Vault)
      ensures this.vault == vault && currentFolder == Root
      ensures entries == [] && allEntries == [] && selectedIndex == 0
      ensures !searchActive && searchQuery == "" && lastSearchQuery == "" && searchInput == ""
      ensures preselectPath == None && showPreview
      ensures !gPending && zChord == ZState(false, 0)
      ensures previewToken == 0 && pane == Blank && inflight == [] && openedFile == None
    {
      this.vault := vault;
      currentFolder := Root;
      entries, allEntries, selectedIndex := [], [], 0;
      searchActive, searchQuery, lastSearchQuery, searchInput := false, "", "", "";
      preselectPath, showPreview := None, true;
      gPending, zChord := false, ZState(false, 0);
      previewToken, pane, inflight, openedFile := 0, Blank, [], None;
    }

    function PreviewOf(): PreviewState
      reads this`previewToken, this`pane, this`inflight
    {
      PreviewState(previewToken, pane, inflight)
    }

    /** The preview was started for the current selection from `before` (no image previews here). */
    ghost predicate Previewed(before: PreviewState)
      reads this`previewToken, this`pane, this`inflight, this`entries, this`selectedIndex, this`showPreview
    {
      PreviewOf() == Start(before, TargetOf(entries, selectedIndex, false), showPreview)
    }

    /**
     * The view `render` leaves for the fresh `listing`, from the preselection
     * `pre`, the index `sel` and the preview state `before` it started with.
     */
    ghost predicate RenderedFrom(listing: seq<Entry>, pre: Option<string>, sel: int, before: PreviewState)
      reads this`allEntries, this`entries, this`selectedIndex, this`preselectPath
      reads this`previewToken, this`pane, this`inflight, this`showPreview
    {
      var i := RenderedIndex(listing, pre, None, sel);
      allEntries == listing && entries == listing && selectedIndex == i
      && preselectPath == (if Truthy(pre) then None else pre)
      && PreviewOf() == Start(before, TargetOf(listing, i, false), showPreview)
    }

    /** The listing, the selection and the preview are as they were. */
    twostate predicate ViewKept()
      reads this`entries, this`allEntries, this`selectedIndex, this`preselectPath, this`previewToken, this`pane, this`inflight
    {
      entries == old(entries) && allEntries == old(allEntries) && selectedIndex == old(selectedIndex)
      && preselectPath == old(preselectPath)
      && previewToken == old(previewToken) && pane == old(pane) && inflight == old(inflight)
    }

    /** `getFolderEntries(folder)`: folders and files apart, each group sorted, folders first. */
    method GetFolderEntries(folder: string) returns (r: seq<Entry>)
      ensures r == FolderEntries(vault.entries, folder, ShowAll)
    {
      var f := vault.Lookup(folder);
      if f.None? || !f.value.Folder? {
        return [];
      }
      var children := f.value.children;
      var dirs, files := [], [];
      for i := 0 to |children|
        invariant (dirs, files) == Partition(Kids(vault.entries, children[..i]), ShowAll)
      {
        PartitionStep(vault.entries, children, i, ShowAll);
        var child := vault.Lookup(children[i]);
        if child.Some? {
          var c := child.value;
          if c.Folder? {
            dirs := dirs + [c];
          } else {
            files := files + [c];
          }
        }
      }
      assert children[..|children|] == children;
      r := SortByName(dirs) + SortByName(files);
    }

    /**
     * The selection part of `render` over the fresh `listing`: a truthy
     * preselection that is listed wins and is consumed, else the old index;
     * then the clamp.
     */
    method RenderSelection(listing: seq<Entry>) returns (sel: int, pre: Option<string>)
      ensures sel == RenderedIndex(listing, preselectPath, None, selectedIndex)
      ensures pre == if Truthy(preselectPath) then None else preselectPath
    {
      pre, sel := preselectPath, selectedIndex;
      if Truthy(pre) {
        var i := IndexOfPath(listing, pre.value);
        if i >= 0 {
          sel := i;
        }
        pre := None;
      }
      if sel >= |listing| {
        sel := if |listing| - 1 > 0 then |listing| - 1 else 0;
      }
      if sel < 0 {
        sel := 0;
      }
    }

    /** `render`: the listing, the selection, then the preview. */
    method Render()
      modifies this`allEntries, this`entries, this`selectedIndex, this`preselectPath
      modifies this`previewToken, this`pane, this`inflight
      ensures RenderedFrom(old(FolderEntries(vault.entries, currentFolder, ShowAll)), old(preselectPath),
                           old(selectedIndex), old(PreviewOf()))
    {
      var listing := GetFolderEntries(currentFolder);
      var sel, pre := RenderSelection(listing);
      allEntries, entries, selectedIndex, preselectPath := listing, listing, sel, pre;
      RenderPreview();
    }

    /** `move(delta)`: a no-op on an empty list; otherwise the wrap and the preview. */
    method Move(delta: int)
      modifies this`selectedIndex, this`previewToken, this`pane, this`inflight
      ensures entries == [] ==> selectedIndex == old(selectedIndex) && PreviewOf() == old(PreviewOf())
      ensures entries != [] ==>
        selectedIndex == MoveIndex(old(selectedIndex), delta, |entries|) && Previewed(old(PreviewOf()))
    {
      if |entries| == 0 {
        return;
      }
      selectedIndex := Rem(selectedIndex + delta + |entries|, |entries|);
      RenderPreview();
    }

    /**
     * `up`: with a parent folder, show it with the folder just left selected
     * (or the top), unless `render` then restores a preselection.
     */
    method Up()
      modifies this`currentFolder, this`selectedIndex, this`allEntries, this`entries, this`preselectPath
      modifies this`previewToken, this`pane, this`inflight
      ensures !ParentIsFolder(old(vault.entries), old(currentFolder)) ==> currentFolder == old(currentFolder) && ViewKept()
      ensures ParentIsFolder(old(vault.entries), old(currentFolder)) ==>
        var parent := ParentPath(old(currentFolder)).value;
        var listing := FolderEntries(old(vault.entries), parent, ShowAll);
        currentFolder == parent
        && RenderedFrom(listing, old(preselectPath), UpIndex(listing, old(currentFolder)), old(PreviewOf()))
    {
      var parent := ParentPath(currentFolder);
      if parent.None? {
        return;
      }
      var p := vault.Lookup(parent.value);
      if p.Some? && p.value.Folder? {
        var prev := currentFolder;
        currentFolder := parent.value;
        var listing := GetFolderEntries(parent.value);
        var idx := IndexOfPath(listing, prev);
        selectedIndex := if idx >= 0 then idx else 0;
        Render();
      }
    }

    /**
     * `activate`: enter the selected folder (leaving the search), or open the
     * selected file; nothing without a selected entry.
     */
    method Activate()
      modifies this`currentFolder, this`selectedIndex, this`allEntries, this`entries
      modifies this`preselectPath, this`previewToken, this`pane, this`inflight, this`openedFile
      modifies this`searchActive, this`searchQuery, this`searchInput, this`lastSearchQuery
      ensures var e := EntryAt(old(entries), old(selectedIndex));
        (e.None? ==> ViewKept() && currentFolder == old(currentFolder) && openedFile == old(openedFile) && SearchKept())
        && (e.Some? && e.value.File? ==>
              openedFile == Some(e.value.path) && ViewKept() && currentFolder == old(currentFolder) && SearchKept())
        && (e.Some? && e.value.Folder? ==>
              currentFolder == e.value.path && openedFile == old(openedFile)
              && (old(searchActive) ==> SearchLeft(true))
              && (!old(searchActive) ==> SearchKept())
              && RenderedFrom(FolderEntries(old(vault.entries), e.value.path, ShowAll), old(preselectPath), 0,
                              old(PreviewOf())))
    {
      if |entries| == 0 || !(0 <= selectedIndex < |entries|) {
        return;
      }
      var entry := entries[selectedIndex];
      if entry.Folder? {
        EnterFolder(entry.path);
      } else {
        openedFile := Some(entry.path);
      }
    }

    /** The folder branch of `activate`: enter `folder` at index 0, leave the search (clearing it), and render. */
    method EnterFolder(folder: string)
      modifies this`currentFolder, this`selectedIndex, this`allEntries, this`entries
      modifies this`preselectPath, this`previewToken, this`pane, this`inflight
      modifies this`searchActive, this`searchQuery, this`searchInput, this`lastSearchQuery
      ensures currentFolder == folder
      ensures old(searchActive) ==> SearchLeft(true)
      ensures !old(searchActive) ==> SearchKept()
      ensures RenderedFrom(FolderEntries(old(vault.entries), folder, ShowAll), old(preselectPath), 0, old(PreviewOf()))
    {
      LeaveFolder(folder);
      assert FolderEntries(vault.entries, currentFolder, ShowAll) == FolderEntries(old(vault.entries), folder, ShowAll);
      assert PreviewOf() == old(PreviewOf());
      Render();
    }

    /** The part of `activate` before its `render`: switch folder, select the top, leave the search. */
    method LeaveFolder(folder: string)
      modifies this`currentFolder, this`selectedIndex
      modifies this`searchActive, this`searchQuery, this`searchInput, this`lastSearchQuery
      ensures currentFolder == folder && selectedIndex == 0
      ensures old(searchActive) ==> SearchLeft(true)
      ensures !old(searchActive) ==> SearchKept()
    {
      currentFolder := folder;
      selectedIndex := 0;
      if searchActive {
        LeaveSearch(true);
      }
    }

    /** The search fields are as they were. */
    twostate predicate SearchKept()
      reads this`searchActive, this`searchQuery, this`searchInput, this`lastSearchQuery
    {
      searchActive == old(searchActive) && searchQuery == old(searchQuery)
      && searchInput == old(searchInput) && lastSearchQuery == old(lastSearchQuery)
    }

    /** The search fields after `exitSearchMode(_, clear)`. */
    twostate predicate SearchLeft(clear: bool)
      reads this`searchActive, this`searchQuery, this`searchInput, this`lastSearchQuery
    {
      !searchActive && lastSearchQuery == KeptQuery(old(searchInput), old(lastSearchQuery))
      && (clear ==> searchQuery == "" && searchInput == "")
      && (!clear ==> searchQuery == Trim(old(searchInput)) && searchInput == old(searchInput))
    }

    /** `enterSearchMode`: the input shows the applied query, then the filter runs on it. */
    method EnterSearchMode()
      modifies this`searchActive, this`searchInput, this`searchQuery, this`lastSearchQuery
      modifies this`selectedIndex, this`previewToken, this`pane, this`inflight
      ensures searchActive && searchInput == old(searchQuery) && searchQuery == old(Trim(searchQuery))
      ensures lastSearchQuery == old(KeptQuery(searchQuery, lastSearchQuery))
      ensures selectedIndex == old(AutoJump(Names(entries), selectedIndex, Trim(searchQuery)))
      ensures Previewed(old(PreviewOf()))
    {
      searchActive := true;
      searchInput := searchQuery;
      ApplySearchFilter();
    }

    /** `exitSearchMode(rerender, clear)`. */
    method ExitSearchMode(rerender: bool, clear: bool)
      modifies this`searchActive, this`searchInput, this`searchQuery, this`lastSearchQuery
      modifies this`allEntries, this`entries, this`selectedIndex, this`preselectPath
      modifies this`previewToken, this`pane, this`inflight
      ensures SearchLeft(clear)
      ensures rerender ==>
        RenderedFrom(old(FolderEntries(vault.entries, currentFolder, ShowAll)), old(preselectPath),
                     old(selectedIndex), old(PreviewOf()))
      ensures !rerender ==> ViewKept()
    {
      LeaveSearch(clear);
      if rerender {
        Render();
      }
    }

    /** The search fields part of `exitSearchMode(_, clear)`. */
    method LeaveSearch(clear: bool)
      modifies this`searchActive, this`searchInput, this`searchQuery, this`lastSearchQuery
      ensures SearchLeft(clear)
    {
      lastSearchQuery := KeptQuery(searchInput, lastSearchQuery);
      searchActive := false;
      if clear {
        searchQuery := "";
        searchInput := "";
      } else {
        searchQuery := Trim(searchInput);
      }
    }

    /**
     * The selection part of `applySearchFilter` for the trimmed query `query`:
     * kept when the selected name matches, otherwise the first matching
     * name, if any.
     */
    method SearchSelection(query: string) returns (sel: int)
      ensures sel == AutoJump(Names(entries), selectedIndex, query)
    {
      var q := Lower(query);
      var names := Names(entries);
      sel := selectedIndex;
      var curMatches := q != "" && 0 <= selectedIndex < |entries| && Includes(Lower(names[selectedIndex]), q);
      if q != "" && !curMatches {
        var next := FirstMatch(names, query);
        if next >= 0 {
          sel := next;
        }
      }
    }

    /**
     * `applySearchFilter`: apply the trimmed input, and move the selection to
     * the first entry whose name matches when the selected one does not; the
     * list itself is not narrowed. With no entries only the pane is emptied.
     */
    method ApplySearchFilter()
      modifies this`searchQuery, this`lastSearchQuery, this`selectedIndex
      modifies this`previewToken, this`pane, this`inflight
      ensures searchQuery == old(Trim(searchInput))
      ensures lastSearchQuery == old(KeptQuery(searchInput, lastSearchQuery))
      ensures selectedIndex == old(AutoJump(Names(entries), selectedIndex, Trim(searchInput)))
      ensures Previewed(old(PreviewOf()))
    {
      var query := Trim(searchInput);
      var sel := SearchSelection(query);
      searchQuery := query;
      if query != "" {
        lastSearchQuery := query;
      }
      selectedIndex := sel;
      if |entries| == 0 {
        pane := Blank;
        return;
      }
      RenderPreview();
    }

    /** The search input's `input` event: the typed text, then the filter. */
    method SetSearchInput(text: string)
      modifies this`searchInput, this`searchQuery, this`lastSearchQuery, this`selectedIndex
      modifies this`previewToken, this`pane, this`inflight
      ensures searchInput == text && searchQuery == Trim(text)
      ensures lastSearchQuery == KeptQuery(text, old(lastSearchQuery))
      ensures selectedIndex == old(AutoJump(Names(entries), selectedIndex, Trim(text)))
      ensures Previewed(old(PreviewOf()))
    {
      searchInput := text;
      ApplySearchFilter();
    }

    /** `cycleSearch(step)`: `n` (+1) and `N` (-1). */
    method CycleSearch(step: int)
      requires step == 1 || step == -1
      modifies this`selectedIndex, this`previewToken, this`pane, this`inflight
      ensures var t := old(CycleTarget(allEntries, entries, selectedIndex,
                                       EffectiveQuery(searchInput, searchQuery, lastSearchQuery), step));
        (t.None? ==> selectedIndex == old(selectedIndex) && PreviewOf() == old(PreviewOf()))
        && (t.Some? ==> selectedIndex == t.value && Previewed(old(PreviewOf())))
    {
      var query := EffectiveQuery(searchInput, searchQuery, lastSearchQuery);
      var target := CycleTarget(allEntries, entries, selectedIndex, query, step);
      if target.Some? {
        selectedIndex := target.value;
        RenderPreview();
      }
    }

    /** `jumpTop`. */
    method JumpTop()
      modifies this`selectedIndex, this`previewToken, this`pane, this`inflight
      ensures entries == [] ==> selectedIndex == old(selectedIndex) && PreviewOf() == old(PreviewOf())
      ensures entries != [] ==> selectedIndex == 0 && Previewed(old(PreviewOf()))
    {
      if |entries| == 0 {
        return;
      }
      selectedIndex := 0;
      RenderPreview();
    }

    /** `jumpBottom`. */
    method JumpBottom()
      modifies this`selectedIndex, this`previewToken, this`pane, this`inflight
      ensures entries == [] ==> selectedIndex == old(selectedIndex) && PreviewOf() == old(PreviewOf())
      ensures entries != [] ==> selectedIndex == |entries| - 1 && Previewed(old(PreviewOf()))
    {
      if |entries| == 0 {
        return;
      }
      selectedIndex := |entries| - 1;
      RenderPreview();
    }

    /** `handleG`: the first `g` starts the timer; a second one while it runs clears it and jumps to the top. */
    method HandleG()
      modifies this`gPending, this`selectedIndex, this`previewToken, this`pane, this`inflight
      ensures gPending == !old(gPending)
      ensures old(gPending) && entries != [] ==> selectedIndex == 0 && Previewed(old(PreviewOf()))
      ensures !(old(gPending) && entries != []) ==> selectedIndex == old(selectedIndex) && PreviewOf() == old(PreviewOf())
    {
      if gPending {
        gPending := false;
        JumpTop();
        return;
      }
      gPending := true;
    }

    /** The callback of the `g` timer. */
    method GTimeout()
      modifies this`gPending
      ensures !gPending
    {
      gPending := false;
    }

    /** `handleZ`: a running timer is cleared; otherwise it starts and one more capture listener waits. */
    method HandleZ()
      modifies this`zChord
      ensures zChord == Chords.HandleZ(old(zChord))
    {
      if zChord.pending {
        zChord := zChord.(pending := false);
        return;
      }
      zChord := ZState(true, zChord.listeners + 1);
    }

    /** The callback of the `z` timer. */
    method ZChordTimeout()
      modifies this`zChord
      ensures zChord == ZTimeout(old(zChord))
    {
      zChord := zChord.(pending := false);
    }

    /**
     * The `onKey` capture listeners on one keydown, before the host handler
     * sees it: `p`/`P` after `z` toggles the preview pane and is stopped.
     */
    method CaptureKey(k: char) returns (stopped: bool)
      modifies this`zChord, this`showPreview, this`previewToken, this`pane, this`inflight
      ensures var c := ZCapture(old(zChord), k);
        zChord == c.state && stopped == c.stopped
        && (c.toggled ==> showPreview == !old(showPreview) && Previewed(old(PreviewOf())))
        && (!c.toggled ==> showPreview == old(showPreview) && PreviewOf() == old(PreviewOf()))
    {
      stopped := false;
      if zChord.pending && zChord.listeners >= 1 {
        if k == 'p' || k == 'P' {
          stopped := true;
          TogglePreviewPane();
        }
        zChord := ZState(false, zChord.listeners - 1);
      }
    }

    /** `togglePreviewPane`. */
    method TogglePreviewPane()
      modifies this`showPreview, this`previewToken, this`pane, this`inflight
      ensures showPreview == !old(showPreview)
      ensures Previewed(old(PreviewOf()))
    {
      showPreview := !showPreview;
      RenderPreview();
    }

    /**
     * The synchronous part of `renderPreview`: the pane is emptied; a file
     * increments the token and, with the preview shown, starts a read.
     */
    method RenderPreview()
      modifies this`previewToken, this`pane, this`inflight
      ensures Previewed(old(PreviewOf()))
    {
      pane := Blank;
      if |entries| == 0 || !(0 <= selectedIndex < |entries|) {
        return;
      }
      var entry := entries[selectedIndex];
      if entry.Folder? {
        return;
      }
      previewToken := previewToken + 1;
      var token := previewToken;
      if !showPreview {
        return;
      }
      inflight := inflight + [Request(token, entry.path)];
    }

    /**
     * The continuation of read `k` of `renderPreview` once it settles against
     * the vault as it is then: shown only if its token is still current.
     */
    method PreviewSettles(k: nat)
      requires k < |inflight|
      modifies this`pane, this`inflight
      ensures PreviewOf() == Finish(old(PreviewOf()), k, ReadResult(vault.entries, vault.faulty, old(inflight[k].path)))
    {
      var request := inflight[k];
      var text := vault.Read(request.path);
      inflight := inflight[..k] + inflight[k + 1..];
      if request.token != previewToken {
        return;
      }
      pane := if text.Some? then Rendered(request.path, Truncate(text.value)) else Failed;
    }
  }

  /**
   * The listing of `src/main.ts` holds exactly the children of the folder
   * (as a multiset), every folder before every file, each group by name.
   */
  lemma ListingIsChildren(m: map<string, Entry>, folder: string)
    ensures multiset(FolderEntries(m, folder, ShowAll))
      == multiset(if folder in m && m[folder].Folder? then Kids(m, m[folder].children) else [])
    ensures forall i, j ::
      (0 <= i < |FolderEntries(m, folder, ShowAll)| && 0 <= j < |FolderEntries(m, folder, ShowAll)|
       && FolderEntries(m, folder, ShowAll)[i].Folder? && FolderEntries(m, folder, ShowAll)[j].File?) ==> i < j
    ensures forall i, j ::
      (0 <= i < j < |FolderEntries(m, folder, ShowAll)|
       && FolderEntries(m, folder, ShowAll)[i].Folder? == FolderEntries(m, folder, ShowAll)[j].Folder?)
      ==> NameLe(FolderEntries(m, folder, ShowAll)[i], FolderEntries(m, folder, ShowAll)[j])
  {
    ListingIsShownChildren(m, folder, ShowAll);
    FoldersFirstOrder(m, folder, ShowAll);
    if folder in m && m[folder].Folder? {
      ShowAllKeepsEverything(Kids(m, m[folder].children));
    }
  }

  /**
   * After `up`, without a pending preselection, the folder just left is
   * selected when the parent lists it, and the top otherwise.
   */
  lemma UpSelectsFolderLeft(listing: seq<Entry>, pre: Option<string>, left: string)
    requires !Truthy(pre)
    ensures var i := RenderedIndex(listing, pre, None, UpIndex(listing, left));
      ((exists k :: 0 <= k < |listing| && listing[k].path == left) ==> listing[i].path == left)
      && ((forall k :: 0 <= k < |listing| ==> listing[k].path != left) ==> i == 0)
  {
    var u := UpIndex(listing, left);
    assert listing != [] ==> Clamp(u, |listing|) == u;
  }
}
