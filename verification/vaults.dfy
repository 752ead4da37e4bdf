/**
 * The vault the navigator browses: Obsidian's `TFolder`/`TFile` objects as
 * value snapshots keyed by path, the path arithmetic the navigator does
 * (`folder.path === '/' ? name : folder.path + '/' + name`, `parent`,
 * `name`), and the host operations it awaits (`read`, `create`,
 * `createFolder`, `rename`, `getAbstractFileByPath`) as a class whose
 * methods may fail.
 */
module Vaults {
  import opened Js

  /**
   * A snapshot of one vault entry. A folder lists its children by path; a
   * file carries its text, so that `vault.read(file)` has something to return.
   */
  datatype Entry =
    | Folder(path: string, name: string, children: seq<string>)
    | File(path: string, name: string, basename: string, extension: string, text: string)

  /** The path of the vault root, the only folder without a parent. */
  const Root: string := "/"

  /** A name that can be the last segment of a path: non-empty and without `/`. */
  predicate IsSegment(name: string)
  {
    name != [] && forall k :: 0 <= k < |name| ==> name[k] != '/'
  }

  /** The destination path the navigator builds for `name` inside `folder`. */
  function ChildPath(folder: string, name: string): string
  {
    if folder == Root then name else folder + "/" + name
  }

  /** The position of the last `c` in `s`, or -1. */
  function LastIndexOf(s: string, c: char): (i: int)
    ensures -1 <= i < |s|
    ensures i >= 0 ==> s[i] == c
    ensures forall k :: i < k < |s| ==> s[k] != c
  {
    if s == [] then -1
    else if s[|s| - 1] == c then |s| - 1
    else LastIndexOf(s[..|s| - 1], c)
  }

  /** `entry.parent?.path`: none for the root, the root for a top-level entry. */
  function ParentPath(p: string): Option<string>
  {
    if p == Root then None
    else
      var i := LastIndexOf(p, '/');
      if i < 0 then Some(Root) else Some(p[..i])
  }

  /** `entry.name`: the last segment of the path. */
  function LastSegment(p: string): string
  {
    p[LastIndexOf(p, '/') + 1..]
  }

  /**
   * `file.basename` and `file.extension`: split at the last dot, unless the
   * only dot starts the name (a dot-file has no extension).
   */
  function SplitName(name: string): (parts: (string, string))
    ensures parts.1 == "" || name == parts.0 + "." + parts.1
    ensures parts.1 == "" ==> parts.0 == name || name == parts.0 + "."
  {
    var i := LastIndexOf(name, '.');
    if i <= 0 then (name, "")
    else
      assert name == name[..i] + "." + name[i + 1..];
      (name[..i], name[i + 1..])
  }

  /** Building a child path and taking it apart again gives back the folder and the name. */
  lemma {:induction false} ChildPathParts(folder: string, name: string)
    requires IsSegment(name)
    ensures ParentPath(ChildPath(folder, name)) == Some(folder)
    ensures LastSegment(ChildPath(folder, name)) == name
  {
    var p := ChildPath(folder, name);
    if folder == Root {
      assert p == name;
      assert p[0] != '/' && Root[0] == '/';
      assert LastIndexOf(p, '/') == -1;
    } else {
      assert p == (folder + "/") + name;
      assert LastIndexOf(p, '/') == |folder| by {
        assert p[|folder|] == '/';
        LastIndexOfAfter(folder + "/", name, '/');
      }
      assert p[..|folder|] == folder;
      assert p[|folder| + 1..] == name;
    }
  }

  /** A suffix without `c` does not move the last `c`. */
  lemma {:induction false} LastIndexOfAfter(a: string, b: string, c: char)
    requires a != [] && a[|a| - 1] == c
    requires forall k :: 0 <= k < |b| ==> b[k] != c
    ensures LastIndexOf(a + b, c) == |a| - 1
    decreases |b|
  {
    if b == [] {
      assert a + b == a;
    } else {
      assert (a + b)[..|a + b| - 1] == a + b[..|b| - 1];
      LastIndexOfAfter(a, b[..|b| - 1], c);
    }
  }

  /** `p` is `top` or lies inside the folder `top`. */
  predicate Under(p: string, top: string)
  {
    p == top || (|top| < |p| && p[..|top|] == top && p[|top|] == '/')
  }

  /** The path `p` takes when the entry at `src` is renamed to `dst`. */
  function Rebase(p: string, src: string, dst: string): string
  {
    if Under(p, src) then dst + p[|src|..] else p
  }

  lemma RebaseLandsUnder(p: string, src: string, dst: string)
    requires Under(p, src)
    ensures Under(Rebase(p, src, dst), dst)
  {
    var r := Rebase(p, src, dst);
    if p != src {
      assert r[..|dst|] == dst;
      assert r[|dst|] == p[|src|];
    }
  }

  /** `getAbstractFileByPath(parent)` is a folder. */
  predicate ParentIsFolder(m: map<string, Entry>, p: string)
  {
    var pp := ParentPath(p);
    pp.Some? && pp.value in m && m[pp.value].Folder?
  }

  /** When `vault.read` succeeds: the path holds a file and the host does not fail on it. */
  predicate Readable(m: map<string, Entry>, faulty: set<string>, p: string)
  {
    p in m && m[p].File? && p !in faulty
  }

  /** When `vault.create`/`createFolder` succeeds: a free path inside an existing folder. */
  predicate CanCreate(m: map<string, Entry>, faulty: set<string>, p: string)
  {
    p !in m && p !in faulty && ParentIsFolder(m, p)
  }

  /**
   * When `vault.rename` succeeds: the source exists and is not the root, the
   * destination and everything below it is free, the destination is not
   * inside the source, and the new parent is a folder.
   */
  predicate CanRename(m: map<string, Entry>, faulty: set<string>, src: string, dst: string)
  {
    src in m && src != Root && src !in faulty && dst !in faulty
    && (forall k :: k in m ==> !Under(k, dst))
    && !Under(dst, src) && ParentIsFolder(m, dst)
  }

  function NewFile(p: string, text: string): Entry
  {
    var name := LastSegment(p);
    var parts := SplitName(name);
    File(p, name, parts.0, parts.1, text)
  }

  function NewFolder(p: string): Entry
  {
    Folder(p, LastSegment(p), [])
  }

  /** The vault after creating `e`: the entry is stored and its parent lists it last. */
  function Added(m: map<string, Entry>, e: Entry): (m': map<string, Entry>)
    requires ParentIsFolder(m, e.path)
  {
    var pp := ParentPath(e.path).value;
    m[pp := m[pp].(children := m[pp].children + [e.path])][e.path := e]
  }

  lemma AddedKeys(m: map<string, Entry>, e: Entry)
    requires ParentIsFolder(m, e.path)
    ensures Added(m, e).Keys == m.Keys + {e.path}
    ensures Added(m, e)[e.path] == e
    ensures forall k :: k in m && k != e.path && m[k].File? ==> Added(m, e)[k] == m[k]
  {
  }

  /** `seq` without the elements equal to `x`. */
  function Without(s: seq<string>, x: string): (r: seq<string>)
    ensures x !in r
    ensures forall y :: y in r <==> y in s && y != x
  {
    if s == [] then [] else (if s[0] == x then [] else [s[0]]) + Without(s[1..], x)
  }

  function RebaseAll(s: seq<string>, src: string, dst: string): (r: seq<string>)
    ensures |r| == |s|
    ensures forall i :: 0 <= i < |s| ==> r[i] == Rebase(s[i], src, dst)
  {
    seq(|s|, i requires 0 <= i < |s| => Rebase(s[i], src, dst))
  }

  /**
   * One entry after renaming `src` to `dst`: its path and its children's
   * paths are rebased, the renamed entry takes its new name, and `dst` is
   * listed only by its new parent, last.
   */
  function RenamedEntry(e: Entry, src: string, dst: string, newParent: string): Entry
  {
    var path := Rebase(e.path, src, dst);
    match e
    case Folder(_, name, children) =>
      var kids := Without(RebaseAll(children, src, dst), dst);
      Folder(path, if e.path == src then LastSegment(dst) else name,
             if e.path == newParent then kids + [dst] else kids)
    case File(_, name, basename, extension, text) =>
      if e.path == src then NewFile(dst, text) else File(path, name, basename, extension, text)
  }

  lemma RebaseInjective(m: map<string, Entry>, faulty: set<string>, src: string, dst: string)
    requires CanRename(m, faulty, src, dst)
    ensures forall a, b :: a in m && b in m && Rebase(a, src, dst) == Rebase(b, src, dst) ==> a == b
  {
    forall a, b | a in m && b in m && Rebase(a, src, dst) == Rebase(b, src, dst)
      ensures a == b
    {
      if Under(a, src) && Under(b, src) {
        assert a == src + a[|src|..];
        assert b == src + b[|src|..];
        assert a[|src|..] == Rebase(a, src, dst)[|dst|..];
        assert b[|src|..] == Rebase(b, src, dst)[|dst|..];
      } else if Under(a, src) {
        RebaseLandsUnder(a, src, dst);
      } else if Under(b, src) {
        RebaseLandsUnder(b, src, dst);
      }
    }
  }

  /** The vault after `vault.rename(src, dst)`: the whole subtree at `src` moves below `dst`. */
  function Renamed(m: map<string, Entry>, faulty: set<string>, src: string, dst: string): map<string, Entry>
    requires CanRename(m, faulty, src, dst)
  {
    RebaseInjective(m, faulty, src, dst);
    var newParent := ParentPath(dst).value;
    map k | k in m :: Rebase(k, src, dst) := RenamedEntry(m[k], src, dst, newParent)
  }

  lemma {:induction false} RenamedKeys(m: map<string, Entry>, faulty: set<string>, src: string, dst: string)
    requires CanRename(m, faulty, src, dst)
    ensures src !in Renamed(m, faulty, src, dst) && dst in Renamed(m, faulty, src, dst)
    ensures forall k :: k in m && !Under(k, src) ==> k in Renamed(m, faulty, src, dst)
  {
    var r := Renamed(m, faulty, src, dst);
    assert Rebase(src, src, dst) == dst;
    assert dst in r;
    if src in r {
      var k :| k in m && Rebase(k, src, dst) == src;
      if Under(k, src) {
        RebaseLandsUnder(k, src, dst);
      }
    }
    forall k | k in m && !Under(k, src) ensures k in r {
      assert Rebase(k, src, dst) == k;
    }
  }

  /** What `vault.read(p)` settles with: the file's text, or `None` when it throws. */
  function ReadResult(m: map<string, Entry>, faulty: set<string>, p: string): (r: Option<string>)
    ensures r.Some? <==> Readable(m, faulty, p)
  {
    if Readable(m, faulty, p) then Some(m[p].text) else None
  }

  /**
   * The host vault. Its entries change in place; `faulty` stands for the
   * paths on which the host throws for reasons the navigator cannot see
   * (permissions, disk errors).
   */
  class Vault {
    var entries: map<string, Entry>
    const faulty: set<string>

    constructor (entries0: map<string, Entry>, faulty0: set<string>)
      ensures entries == entries0 && faulty == faulty0
    {
      entries := entries0;
      faulty := faulty0;
    }

    /** `getAbstractFileByPath(p)`: the entry at `p`, if any. */
    method Lookup(p: string) returns (e: Option<Entry>)
      ensures e.Some? <==> p in entries
      ensures e.Some? ==> e.value == entries[p]
    {
      e := if p in entries then Some(entries[p]) else None;
    }

    /** `await vault.read(file)`: the text, or `None` when it throws. */
    method Read(p: string) returns (r: Option<string>)
      ensures r.Some? <==> Readable(entries, faulty, p)
      ensures r.Some? ==> r.value == entries[p].text
      ensures r == ReadResult(entries, faulty, p)
    {
      r := if Readable(entries, faulty, p) then Some(entries[p].text) else None;
    }

    /** `await vault.create(p, text)`; `ok` is false when it throws, and then nothing changed. */
    method Create(p: string, text: string) returns (ok: bool)
      modifies this`entries
      ensures ok == CanCreate(old(entries), faulty, p)
      ensures entries == if ok then Added(old(entries), NewFile(p, text)) else old(entries)
    {
      ok := CanCreate(entries, faulty, p);
      if ok {
        entries := Added(entries, NewFile(p, text));
      }
    }

    /** `await vault.createFolder(p)`; `ok` is false when it throws, and then nothing changed. */
    method CreateFolder(p: string) returns (ok: bool)
      modifies this`entries
      ensures ok == CanCreate(old(entries), faulty, p)
      ensures entries == if ok then Added(old(entries), NewFolder(p)) else old(entries)
    {
      ok := CanCreate(entries, faulty, p);
      if ok {
        entries := Added(entries, NewFolder(p));
      }
    }

    /** `await vault.rename(entry, dst)`; `ok` is false when it throws, and then nothing changed. */
    method Rename(src: string, dst: string) returns (ok: bool)
      modifies this`entries
      ensures ok == CanRename(old(entries), faulty, src, dst)
      ensures ok ==> entries == Renamed(old(entries), faulty, src, dst)
      ensures !ok ==> entries == old(entries)
    {
      ok := CanRename(entries, faulty, src, dst);
      if ok {
        entries := Renamed(entries, faulty, src, dst);
      }
    }
  }
}
