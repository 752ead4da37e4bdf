/**
 * The clipboard engine of `main.js` as values: the operation a paste
 * performs (`pasteEntry`, `isSameFolderCopy`), the destination path of a copy
 * or move, and the names `copyFileWithNewName` probes (`B copy.E`, then
 * `B copy 2.E`, `B copy 3.E`, ... up to 1000 attempts).
 */
module FileOps {
  import opened Js
  import opened Vaults

  /** `clipboardOperation`: `'copy'` or `'cut'`. */
  datatype Op = CopyOp | CutOp

  /** `MAX_ATTEMPTS` of `copyFileWithNewName`. */
  const MaxAttempts: nat := 1000

  /** The name of attempt `counter`: `${baseName} copy.${ext}` first, then `${baseName} copy ${counter}.${ext}`. */
  function CopyName(basename: string, ext: string, counter: nat): string
  {
    if counter <= 1 then basename + " copy." + ext
    else basename + " copy " + NatToString(counter) + "." + ext
  }

  /** The path of attempt `counter` in folder `dest`. */
  function CandidatePath(dest: string, basename: string, ext: string, counter: nat): string
  {
    ChildPath(dest, CopyName(basename, ext, counter))
  }

  /**
   * The counter the probing loop stops at, starting from `counter`: the first
   * attempt whose path is free, or `MaxAttempts` when every attempt below it
   * is taken (the 1000th name itself is never checked).
   */
  function FirstFree(m: map<string, Entry>, dest: string, basename: string, ext: string, counter: nat): nat
    decreases MaxAttempts - counter
  {
    if counter >= MaxAttempts then counter
    else if CandidatePath(dest, basename, ext, counter) !in m then counter
    else FirstFree(m, dest, basename, ext, counter + 1)
  }

  /**
   * The probe stops at the least free attempt below 1000, or at 1000 when
   * there is none; every attempt before it was taken.
   */
  lemma {:induction false} FirstFreeIsLeast(m: map<string, Entry>, dest: string, basename: string, ext: string, counter: nat)
    requires 1 <= counter <= MaxAttempts
    ensures var r := FirstFree(m, dest, basename, ext, counter);
      counter <= r <= MaxAttempts
      && (r < MaxAttempts ==> CandidatePath(dest, basename, ext, r) !in m)
      && (forall c :: counter <= c < r ==> CandidatePath(dest, basename, ext, c) in m)
    decreases MaxAttempts - counter
  {
    if counter < MaxAttempts && CandidatePath(dest, basename, ext, counter) in m {
      var next := counter + 1;
      FirstFreeIsLeast(m, dest, basename, ext, next);
      var r := FirstFree(m, dest, basename, ext, next);
      assert FirstFree(m, dest, basename, ext, counter) == r;
      forall c | counter <= c < r ensures CandidatePath(dest, basename, ext, c) in m {
        if c > counter {
          assert next <= c < r;
        }
      }
    }
  }

  /** With `draft copy.md` taken and `draft copy 2.md` free at the root, the copy is `draft copy 2.md`. */
  lemma DraftExample(m: map<string, Entry>)
    requires "draft copy.md" in m && "draft copy 2.md" !in m
    ensures FirstFree(m, Root, "draft", "md", 1) == 2
    ensures CandidatePath(Root, "draft", "md", 2) == "draft copy 2.md"
  {
    assert NatToString(2) == "2";
    assert CandidatePath(Root, "draft", "md", 1) == "draft copy.md";
    assert CandidatePath(Root, "draft", "md", 2) == "draft copy 2.md";
  }

  /** Different numbers are written differently. */
  lemma {:induction false} NatToStringInjective(a: nat, b: nat)
    ensures NatToString(a) == NatToString(b) <==> a == b
    decreases a
  {
    if a >= 10 && b >= 10 {
      NatToStringInjective(a / 10, b / 10);
      DigitInjective(a % 10, b % 10);
      var s, t := NatToString(a), NatToString(b);
      assert s[..|s| - 1] == NatToString(a / 10) && s[|s| - 1] == DigitChar(a % 10);
      assert t[..|t| - 1] == NatToString(b / 10) && t[|t| - 1] == DigitChar(b % 10);
      assert a == a / 10 * 10 + a % 10 && b == b / 10 * 10 + b % 10;
    } else if a < 10 && b < 10 {
      DigitInjective(a, b);
    }
  }

  lemma DigitInjective(a: nat, b: nat)
    requires a < 10 && b < 10
    ensures DigitChar(a) == DigitChar(b) <==> a == b
  {
  }

  /** Every attempt probes a different name: no path is tried twice. */
  lemma CopyNamesDistinct(basename: string, ext: string, c1: nat, c2: nat)
    requires 1 <= c1 < c2
    ensures CopyName(basename, ext, c1) != CopyName(basename, ext, c2)
  {
    var n1, n2 := CopyName(basename, ext, c1), CopyName(basename, ext, c2);
    var k := |basename| + 5;
    if c1 == 1 {
      assert n1[k] == '.' && n2[k] == ' ';
    } else {
      var d1, d2 := NatToString(c1), NatToString(c2);
      var front := basename + " copy ";
      assert n1 == front + d1 + "." + ext && n2 == front + d2 + "." + ext;
      if |d1| == |d2| {
        NatToStringInjective(c1, c2);
        assert exists j :: 0 <= j < |d1| && d1[j] != d2[j];
        var j :| 0 <= j < |d1| && d1[j] != d2[j];
        assert n1[|front| + j] == d1[j] && n2[|front| + j] == d2[j];
      } else if |d1| < |d2| {
        assert n1[|front| + |d1|] == '.' && n2[|front| + |d1|] == d2[|d1|];
      } else {
        assert n2[|front| + |d2|] == '.' && n1[|front| + |d2|] == d1[|d2|];
      }
    }
  }

  /** `isSameFolderCopy`: a file copied into the folder that holds it. */
  predicate IsSameFolderCopy(source: Entry, dest: string, op: Option<Op>)
  {
    source.File? && ParentPath(source.path) == Some(dest) && op == Some(CopyOp)
  }

  /** The branch `pasteEntry` takes. */
  datatype PasteAction = NothingToPaste | CopyWithNewName | RejectIntoItself | CopyInto | MoveInto | NoOperation

  /**
   * The decision tree of `pasteEntry`, in its order: an empty clipboard, a
   * same-folder copy, a folder pasted onto itself, then the operation.
   */
  function PasteDecision(clipboard: Option<Entry>, op: Option<Op>, dest: string): (a: PasteAction)
    ensures a == NothingToPaste <==> clipboard.None?
    ensures a == CopyWithNewName <==> clipboard.Some? && IsSameFolderCopy(clipboard.value, dest, op)
    ensures a == RejectIntoItself <==>
      (clipboard.Some? && clipboard.value.Folder? && clipboard.value.path == dest)
    ensures a == CopyInto <==>
      (clipboard.Some? && op == Some(CopyOp) && !IsSameFolderCopy(clipboard.value, dest, op)
       && !(clipboard.value.Folder? && clipboard.value.path == dest))
    ensures a == MoveInto <==>
      (clipboard.Some? && op == Some(CutOp) && !(clipboard.value.Folder? && clipboard.value.path == dest))
  {
    if clipboard.None? then NothingToPaste
    else
      var source := clipboard.value;
      if IsSameFolderCopy(source, dest, op) then CopyWithNewName
      else if source.Folder? && source.path == dest then RejectIntoItself
      else if op == Some(CopyOp) then CopyInto
      else if op == Some(CutOp) then MoveInto
      else NoOperation
  }

  /** A folder pasted onto itself is refused, for a copy and for a cut alike. */
  lemma FolderOntoItselfRefused(source: Entry, op: Option<Op>)
    requires source.Folder?
    ensures PasteDecision(Some(source), op, source.path) == RejectIntoItself
  {
  }

  /**
   * An entry whose name is the last segment of its (relative) path lies at
   * the destination `copyToFolder`/`moveToFolder` compute for its own parent.
   */
  lemma {:induction false} OwnFolderDestination(e: Entry)
    requires ParentPath(e.path).Some? && e.name == LastSegment(e.path)
    requires e.path != [] && e.path[0] != '/'
    ensures ChildPath(ParentPath(e.path).value, e.name) == e.path
  {
    var p := e.path;
    var i := LastIndexOf(p, '/');
    if i < 0 {
      assert p[0..] == p;
    } else {
      assert p[..i] != Root by {
        if i == 1 { assert p[..i][0] == p[0]; }
      }
      assert p == p[..i] + "/" + p[i + 1..];
    }
  }

  /**
   * Cutting an entry and pasting it back into its own folder moves it onto its
   * own path: the move is always refused as already existing.
   */
  lemma CutIntoOwnFolderCollides(e: Entry, m: map<string, Entry>)
    requires ParentPath(e.path).Some? && e.name == LastSegment(e.path)
    requires e.path != [] && e.path[0] != '/' && e.path in m
    ensures PasteDecision(Some(e), Some(CutOp), ParentPath(e.path).value) == MoveInto
    ensures ChildPath(ParentPath(e.path).value, e.name) in m
  {
    OwnFolderDestination(e);
  }
  /** The vault after copying the file at `src` to the free path `dst`: created when `src` reads and `dst` can be created. */
  function FileCopied(m: map<string, Entry>, faulty: set<string>, src: string, dst: string): map<string, Entry>
  {
    if Readable(m, faulty, src) && CanCreate(m, faulty, dst) then Added(m, NewFile(dst, m[src].text)) else m
  }

  /** The vault after `copyFileWithNewName(file, dest)`: nothing when the probe reached 1000. */
  function CopiedWithNewName(m: map<string, Entry>, faulty: set<string>, file: Entry, dest: string): map<string, Entry>
    requires file.File?
  {
    var c := FirstFree(m, dest, file.basename, file.extension, 1);
    if c >= MaxAttempts then m
    else FileCopied(m, faulty, file.path, CandidatePath(dest, file.basename, file.extension, c))
  }

  /**
   * A copy with a new name lands on a path that was free, below the 1000th
   * attempt, after every earlier attempt was found taken, and holds the
   * source's text.
   */
  lemma NewNameCopyIsFresh(m: map<string, Entry>, faulty: set<string>, file: Entry, dest: string)
    requires file.File?
    ensures var c := FirstFree(m, dest, file.basename, file.extension, 1);
      var p := CandidatePath(dest, file.basename, file.extension, c);
      CopiedWithNewName(m, faulty, file, dest) != m ==>
        1 <= c < MaxAttempts && p !in m
        && CopiedWithNewName(m, faulty, file, dest) == Added(m, NewFile(p, m[file.path].text))
        && forall c' :: 1 <= c' < c ==> CandidatePath(dest, file.basename, file.extension, c') in m
  {
    var c := FirstFree(m, dest, file.basename, file.extension, 1);
    FirstFreeIsLeast(m, dest, file.basename, file.extension, 1);
    if c < MaxAttempts {
      var p := CandidatePath(dest, file.basename, file.extension, c);
      assert CopiedWithNewName(m, faulty, file, dest) == FileCopied(m, faulty, file.path, p);
    }
  }

  /** When the first 999 names are taken nothing is created, even if the 1000th name is free. */
  lemma AllNamesTakenNoCopy(m: map<string, Entry>, faulty: set<string>, file: Entry, dest: string)
    requires file.File?
    requires forall c :: 1 <= c < MaxAttempts ==> CandidatePath(dest, file.basename, file.extension, c) in m
    ensures CopiedWithNewName(m, faulty, file, dest) == m
  {
    FirstFreeIsLeast(m, dest, file.basename, file.extension, 1);
  }

  /** The vault after `moveToFolder`: nothing when the destination exists or the rename throws. */
  function Moved(m: map<string, Entry>, faulty: set<string>, src: string, dst: string): map<string, Entry>
  {
    if dst in m || !CanRename(m, faulty, src, dst) then m else Renamed(m, faulty, src, dst)
  }

  /**
   * `m1` only adds to `m0`: no entry disappears, files keep their contents,
   * folders stay folders of the same name and keep every child they listed.
   */
  ghost predicate Grows(m0: map<string, Entry>, m1: map<string, Entry>)
  {
    m0.Keys <= m1.Keys
    && (forall k :: k in m0 && m0[k].File? ==> m1[k] == m0[k])
    && (forall k :: k in m0 && m0[k].Folder? ==> m1[k].Folder? && m1[k].name == m0[k].name)
    && (forall k, c :: k in m0 && m0[k].Folder? && c in m0[k].children ==> c in m1[k].children)
  }

  lemma GrowsTrans(m0: map<string, Entry>, m1: map<string, Entry>, m2: map<string, Entry>)
    requires Grows(m0, m1) && Grows(m1, m2)
    ensures Grows(m0, m2)
  {
  }

  /** Creating at a free path inside a folder only adds. */
  lemma AddedGrows(m: map<string, Entry>, e: Entry)
    requires ParentIsFolder(m, e.path) && e.path !in m
    ensures Grows(m, Added(m, e))
  {
  }

  /** The children `copyFolderRecursive` iterates over: the source folder's list when the loop starts. */
  function SnapshotKids(m: map<string, Entry>, src: string): seq<string>
  {
    if src in m && m[src].Folder? then m[src].children else []
  }

  /** Whether a copy ran to its end without a host call throwing, and the vault it left behind. */
  datatype CopyResult = CopyResult(ok: bool, entries: map<string, Entry>)

  /**
   * `copyFolderRecursive(src, dst)` from vault `m`: `createFolder(dst)`,
   * then the children of `src` as listed at that point. A throwing call
   * ends the copy with what was created so far; `fuel` bounds the depth.
   */
  function FolderCopied(m: map<string, Entry>, faulty: set<string>, src: string, dst: string, fuel: nat): CopyResult
    decreases fuel, 0
  {
    if fuel == 0 || !CanCreate(m, faulty, dst) then CopyResult(false, m)
    else
      var m1 := Added(m, NewFolder(dst));
      KidsCopied(m1, faulty, SnapshotKids(m1, src), dst, fuel - 1)
  }

  /** The loop of `copyFolderRecursive` over `kids`, in order, up to the first throw. */
  function KidsCopied(m: map<string, Entry>, faulty: set<string>, kids: seq<string>, dst: string, fuel: nat): CopyResult
    decreases fuel, 2, |kids|
  {
    if kids == [] then CopyResult(true, m)
    else
      var r := KidCopied(m, faulty, kids[0], dst, fuel);
      if !r.ok then r else KidsCopied(r.entries, faulty, kids[1..], dst, fuel)
  }

  /** One child `k` copied to `dst/name`: a file is read and created, a folder copied recursively. */
  function KidCopied(m: map<string, Entry>, faulty: set<string>, k: string, dst: string, fuel: nat): CopyResult
    decreases fuel, 1
  {
    if k !in m then CopyResult(true, m)
    else
      var p := dst + "/" + m[k].name;
      if m[k].File? then CopyResult(Readable(m, faulty, k) && CanCreate(m, faulty, p), FileCopied(m, faulty, k, p))
      else FolderCopied(m, faulty, k, p, fuel)
  }

  /**
   * The vault after `copyToFolder(source, dest)`: nothing when the
   * destination exists; a file copied, or a folder copied recursively with
   * the vault's size as the depth bound. A throw is caught, so whatever was
   * created before it stays.
   */
  function CopiedTo(m: map<string, Entry>, faulty: set<string>, source: Entry, dest: string): map<string, Entry>
  {
    var dst := ChildPath(dest, source.name);
    if dst in m then m
    else if source.File? then FileCopied(m, faulty, source.path, dst)
    else FolderCopied(m, faulty, source.path, dst, |m|).entries
  }

  lemma {:induction false} FolderCopiedGrows(m: map<string, Entry>, faulty: set<string>, src: string, dst: string, fuel: nat)
    ensures Grows(m, FolderCopied(m, faulty, src, dst, fuel).entries)
    decreases fuel, 0
  {
    if fuel > 0 && CanCreate(m, faulty, dst) {
      AddedGrows(m, NewFolder(dst));
      FolderStepGrows(m, Added(m, NewFolder(dst)), faulty, src, dst, fuel);
    }
  }

  /** The copy of the children that follows `createFolder(dst)`, which left the vault `m1`, only adds. */
  lemma {:induction false} FolderStepGrows(m: map<string, Entry>, m1: map<string, Entry>, faulty: set<string>, src: string, dst: string, depth: nat)
    requires Grows(m, m1) && depth > 0
    ensures Grows(m, KidsCopied(m1, faulty, SnapshotKids(m1, src), dst, depth - 1).entries)
    decreases depth, 0, 0
  {
    var r := KidsCopied(m1, faulty, SnapshotKids(m1, src), dst, depth - 1);
    KidsCopiedGrows(m1, faulty, SnapshotKids(m1, src), dst, depth - 1);
    GrowsTrans(m, m1, r.entries);
  }

  lemma {:induction false} KidsCopiedGrows(m: map<string, Entry>, faulty: set<string>, kids: seq<string>, dst: string, fuel: nat)
    ensures Grows(m, KidsCopied(m, faulty, kids, dst, fuel).entries)
    decreases fuel, 2, |kids|
  {
    if kids != [] {
      var r := KidCopied(m, faulty, kids[0], dst, fuel);
      KidCopiedGrows(m, faulty, kids[0], dst, fuel);
      if r.ok {
        KidsCopiedGrows(r.entries, faulty, kids[1..], dst, fuel);
        GrowsTrans(m, r.entries, KidsCopied(r.entries, faulty, kids[1..], dst, fuel).entries);
      }
    }
  }

  lemma {:induction false} KidCopiedGrows(m: map<string, Entry>, faulty: set<string>, k: string, dst: string, fuel: nat)
    ensures Grows(m, KidCopied(m, faulty, k, dst, fuel).entries)
    decreases fuel, 1
  {
    if k in m {
      var p := dst + "/" + m[k].name;
      if m[k].File? {
        if Readable(m, faulty, k) && CanCreate(m, faulty, p) {
          AddedGrows(m, NewFile(p, m[k].text));
        }
      } else {
        FolderCopiedGrows(m, faulty, k, p, fuel);
      }
    }
  }

  /** `copyToFolder` only adds to the vault: nothing is overwritten or removed. */
  lemma CopiedToGrows(m: map<string, Entry>, faulty: set<string>, source: Entry, dest: string)
    ensures Grows(m, CopiedTo(m, faulty, source, dest))
  {
    var dst := ChildPath(dest, source.name);
    if dst !in m {
      if source.File? {
        if Readable(m, faulty, source.path) && CanCreate(m, faulty, dst) {
          AddedGrows(m, NewFile(dst, m[source.path].text));
        }
      } else {
        FolderCopiedGrows(m, faulty, source.path, dst, |m|);
      }
    }
  }

  /**
   * The folder `src` of `m0` has a complete copy at `dst` in `m`, `depth`
   * levels deep: `dst` is a folder, and every child of `src` has its copy
   * below it.
   */
  ghost predicate TreeCopied(m0: map<string, Entry>, m: map<string, Entry>, src: string, dst: string, depth: nat)
    decreases depth, 0
  {
    dst in m && m[dst].Folder? && depth > 0
    && forall k :: k in SnapshotKids(m0, src) ==> KidTreeCopied(m0, m, k, dst, depth - 1)
  }

  /** Child `k` of `m0` has its copy at `dst/name` in `m`: a file with the same text, or a complete folder copy. */
  ghost predicate KidTreeCopied(m0: map<string, Entry>, m: map<string, Entry>, k: string, dst: string, depth: nat)
    decreases depth, 1
  {
    k in m0 ==>
      var p := dst + "/" + m0[k].name;
      if m0[k].File? then p in m && m[p].File? && m[p].text == m0[k].text
      else TreeCopied(m0, m, k, p, depth)
  }

  /** A complete copy stays complete while the vault keeps growing. */
  lemma {:induction false} TreeCopiedKept(m0: map<string, Entry>, m: map<string, Entry>, m': map<string, Entry>, src: string, dst: string, depth: nat)
    requires TreeCopied(m0, m, src, dst, depth) && Grows(m, m')
    ensures TreeCopied(m0, m', src, dst, depth)
    decreases depth, 0
  {
    forall k | k in SnapshotKids(m0, src)
      ensures KidTreeCopied(m0, m', k, dst, depth - 1)
    {
      KidTreeCopiedKept(m0, m, m', k, dst, depth - 1);
    }
  }

  lemma {:induction false} KidTreeCopiedKept(m0: map<string, Entry>, m: map<string, Entry>, m': map<string, Entry>, k: string, dst: string, depth: nat)
    requires KidTreeCopied(m0, m, k, dst, depth) && Grows(m, m')
    ensures KidTreeCopied(m0, m', k, dst, depth)
    decreases depth, 1
  {
    if k in m0 && m0[k].Folder? {
      TreeCopiedKept(m0, m, m', k, dst + "/" + m0[k].name, depth);
    }
  }

  /** A copy of the tree as it stood later is also a copy of the tree as it stood before. */
  lemma {:induction false} TreeCopiedFrom(m0: map<string, Entry>, mt: map<string, Entry>, m: map<string, Entry>, src: string, dst: string, depth: nat)
    requires Grows(m0, mt) && TreeCopied(mt, m, src, dst, depth)
    ensures TreeCopied(m0, m, src, dst, depth)
    decreases depth, 0
  {
    forall k | k in SnapshotKids(m0, src)
      ensures KidTreeCopied(m0, m, k, dst, depth - 1)
    {
      assert k in SnapshotKids(mt, src);
      KidTreeCopiedFrom(m0, mt, m, k, dst, depth - 1);
    }
  }

  lemma {:induction false} KidTreeCopiedFrom(m0: map<string, Entry>, mt: map<string, Entry>, m: map<string, Entry>, k: string, dst: string, depth: nat)
    requires Grows(m0, mt) && KidTreeCopied(mt, m, k, dst, depth)
    ensures KidTreeCopied(m0, m, k, dst, depth)
    decreases depth, 1
  {
    if k in m0 && m0[k].Folder? {
      TreeCopiedFrom(m0, mt, m, k, dst + "/" + m0[k].name, depth);
    }
  }

  /**
   * A folder copy that ran to its end is complete: `dst` holds every file
   * of the source tree, as it stood when the copy began, with its text,
   * and every folder of it, at the mirrored path.
   */
  lemma {:induction false} FolderCopiedComplete(m: map<string, Entry>, faulty: set<string>, src: string, dst: string, fuel: nat)
    requires FolderCopied(m, faulty, src, dst, fuel).ok
    ensures TreeCopied(m, FolderCopied(m, faulty, src, dst, fuel).entries, src, dst, fuel)
    decreases fuel, 0
  {
    var m1 := Added(m, NewFolder(dst));
    AddedGrows(m, NewFolder(dst));
    FolderStepComplete(m, m1, faulty, src, dst, fuel);
  }

  /** The copy of the children that follows `createFolder(dst)`, which left the vault `m1`. */
  lemma {:induction false} FolderStepComplete(m: map<string, Entry>, m1: map<string, Entry>, faulty: set<string>, src: string, dst: string, depth: nat)
    requires Grows(m, m1) && dst in m1 && m1[dst].Folder? && depth > 0
    requires KidsCopied(m1, faulty, SnapshotKids(m1, src), dst, depth - 1).ok
    ensures TreeCopied(m, KidsCopied(m1, faulty, SnapshotKids(m1, src), dst, depth - 1).entries, src, dst, depth)
    decreases depth, 0, 0
  {
    var kids := SnapshotKids(m1, src);
    var r := KidsCopied(m1, faulty, kids, dst, depth - 1);
    KidsCopiedGrows(m1, faulty, kids, dst, depth - 1);
    KidsCopiedComplete(m1, faulty, kids, dst, depth - 1);
    TreeFromKids(m1, r.entries, src, dst, depth);
    TreeCopiedFrom(m, m1, r.entries, src, dst, depth);
  }

  /** The folder step of a complete copy: `dst` is a folder of `m` and each listed child has its copy. */
  lemma TreeFromKids(m1: map<string, Entry>, m: map<string, Entry>, src: string, dst: string, depth: nat)
    requires dst in m && m[dst].Folder? && depth > 0
    requires var kids := SnapshotKids(m1, src);
      forall j :: 0 <= j < |kids| ==> KidTreeCopied(m1, m, kids[j], dst, depth - 1)
    ensures TreeCopied(m1, m, src, dst, depth)
  {
    var kids := SnapshotKids(m1, src);
    forall k | k in kids
      ensures KidTreeCopied(m1, m, k, dst, depth - 1)
    {
      var j :| 0 <= j < |kids| && kids[j] == k;
    }
  }

  lemma {:induction false} KidsCopiedComplete(m: map<string, Entry>, faulty: set<string>, kids: seq<string>, dst: string, fuel: nat)
    requires KidsCopied(m, faulty, kids, dst, fuel).ok
    ensures forall j :: 0 <= j < |kids| ==> KidTreeCopied(m, KidsCopied(m, faulty, kids, dst, fuel).entries, kids[j], dst, fuel)
    decreases fuel, 2, |kids|
  {
    if kids != [] {
      var r := KidCopied(m, faulty, kids[0], dst, fuel);
      var rest := KidsCopied(r.entries, faulty, kids[1..], dst, fuel);
      KidCopiedComplete(m, faulty, kids[0], dst, fuel);
      KidCopiedGrows(m, faulty, kids[0], dst, fuel);
      KidsCopiedGrows(r.entries, faulty, kids[1..], dst, fuel);
      KidsCopiedComplete(r.entries, faulty, kids[1..], dst, fuel);
      forall j | 0 <= j < |kids|
        ensures KidTreeCopied(m, rest.entries, kids[j], dst, fuel)
      {
        if j == 0 {
          KidTreeCopiedKept(m, r.entries, rest.entries, kids[0], dst, fuel);
        } else {
          assert kids[j] == kids[1..][j - 1];
          KidTreeCopiedFrom(m, r.entries, rest.entries, kids[j], dst, fuel);
        }
      }
    }
  }

  lemma {:induction false} KidCopiedComplete(m: map<string, Entry>, faulty: set<string>, k: string, dst: string, fuel: nat)
    requires KidCopied(m, faulty, k, dst, fuel).ok
    ensures KidTreeCopied(m, KidCopied(m, faulty, k, dst, fuel).entries, k, dst, fuel)
    decreases fuel, 1
  {
    if k in m && m[k].Folder? {
      FolderCopiedComplete(m, faulty, k, dst + "/" + m[k].name, fuel);
    }
  }

  /**
   * What `pasteEntry` leaves in the clipboard (`clip`, `op`) and the vault
   * (`m`), from `clip0`, `op0` and `m0`, pasting into `dest`: nothing changes
   * without a paste; a cut clears the clipboard, and the vault changes as the
   * copy or move into `dest` does.
   */
  ghost predicate Pasted(clip0: Option<Entry>, op0: Option<Op>, m0: map<string, Entry>, faulty: set<string>, dest: string,
                         clip: Option<Entry>, op: Option<Op>, m: map<string, Entry>)
  {
    var a := PasteDecision(clip0, op0, dest);
    (a == NothingToPaste || a == RejectIntoItself || a == NoOperation ==> m == m0)
    && (a == MoveInto ==> clip == None && op == None)
    && (a != MoveInto ==> clip == clip0 && op == op0)
    && (a == CopyWithNewName ==> m == CopiedWithNewName(m0, faulty, clip0.value, dest))
    && (a == CopyInto ==> m == CopiedTo(m0, faulty, clip0.value, dest) && Grows(m0, m))
    && (a == MoveInto ==> m == Moved(m0, faulty, clip0.value.path, ChildPath(dest, clip0.value.name)))
  }
}
