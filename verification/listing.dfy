/**
 * The folder listing (`getFolderEntries`): the children of a folder are
 * partitioned into folders and files, dot-named entries are dropped by the
 * hidden-entry policy, and the result is sorted by name, either group by
 * group (folders first) or as one list.
 */
module Listing {
  import opened Js
  import opened Vaults

  /**
   * Code-unit lexicographic order. `a.name.localeCompare(b.name) <= 0` is
   * modelled as this order on the lower-cased names: a total preorder under
   * which names differing only in case tie.
   */
  predicate LexLe(a: string, b: string)
    decreases |a|
  {
    a == [] || (b != [] && (a[0] < b[0] || (a[0] == b[0] && LexLe(a[1..], b[1..]))))
  }

  lemma {:induction false} LexTotal(a: string, b: string)
    ensures LexLe(a, b) || LexLe(b, a)
    decreases |a|
  {
    if a != [] && b != [] && a[0] == b[0] {
      LexTotal(a[1..], b[1..]);
    }
  }

  lemma {:induction false} LexTrans(a: string, b: string, c: string)
    requires LexLe(a, b) && LexLe(b, c)
    ensures LexLe(a, c)
    decreases |a|
  {
    if a != [] && a[0] == b[0] && b[0] == c[0] {
      LexTrans(a[1..], b[1..], c[1..]);
    }
  }

  /** The comparator both views pass to `sort`. */
  predicate NameLe(x: Entry, y: Entry)
  {
    LexLe(Lower(x.name), Lower(y.name))
  }

  lemma NameTotal(x: Entry, y: Entry)
    ensures NameLe(x, y) || NameLe(y, x)
  {
    LexTotal(Lower(x.name), Lower(y.name));
  }

  lemma NameTrans(x: Entry, y: Entry, z: Entry)
    requires NameLe(x, y) && NameLe(y, z)
    ensures NameLe(x, z)
  {
    LexTrans(Lower(x.name), Lower(y.name), Lower(z.name));
  }

  predicate SortedByName(s: seq<Entry>)
  {
    forall i, j :: 0 <= i < j < |s| ==> NameLe(s[i], s[j])
  }

  /** Inserts `x` in front of the first element it does not sort after. */
  function Insert(x: Entry, s: seq<Entry>): seq<Entry>
  {
    if s == [] then [x]
    else if NameLe(x, s[0]) then [x] + s
    else [s[0]] + Insert(x, s[1..])
  }

  /** Inserting adds exactly `x`. */
  lemma {:induction false} InsertPermutes(x: Entry, s: seq<Entry>)
    ensures multiset(Insert(x, s)) == multiset(s) + multiset{x}
  {
    if s != [] && !NameLe(x, s[0]) {
      InsertPermutes(x, s[1..]);
      assert s == [s[0]] + s[1..];
    }
  }

  lemma {:induction false} InsertSorted(x: Entry, s: seq<Entry>)
    requires SortedByName(s)
    ensures SortedByName(Insert(x, s))
  {
    if s == [] {
    } else if NameLe(x, s[0]) {
      forall j | 0 < j < |s| ensures NameLe(x, s[j]) {
        NameTrans(x, s[0], s[j]);
      }
    } else {
      NameTotal(x, s[0]);
      InsertSorted(x, s[1..]);
      InsertPermutes(x, s[1..]);
      var t := Insert(x, s[1..]);
      forall j | 0 <= j < |t| ensures NameLe(s[0], t[j]) {
        assert t[j] in multiset(t);
        assert t[j] == x || t[j] in multiset(s[1..]);
      }
    }
  }

  /** `array.sort((a, b) => a.name.localeCompare(b.name))`, as a value. */
  function SortByName(s: seq<Entry>): seq<Entry>
  {
    if s == [] then [] else Insert(s[0], SortByName(s[1..]))
  }

  /** The sort returns a sorted permutation of its input. */
  lemma {:induction false} SortByNameSorts(s: seq<Entry>)
    ensures multiset(SortByName(s)) == multiset(s)
    ensures SortedByName(SortByName(s))
  {
    if s != [] {
      SortByNameSorts(s[1..]);
      InsertPermutes(s[0], SortByName(s[1..]));
      InsertSorted(s[0], SortByName(s[1..]));
      assert s == [s[0]] + s[1..];
    }
  }

  /** The settings that shape a listing (`main.js`): the two hidden-entry flags and `sortFoldersFirst`. */
  datatype Config = Config(showHiddenFolders: bool, showHiddenFiles: bool, foldersFirst: bool)

  /** The listing of `src/main.ts`: nothing hidden, always folders first. */
  const ShowAll: Config := Config(true, true, true)

  /** An entry survives the hidden-entry policy: dot-named folders (files) are dropped unless shown. */
  predicate Shown(e: Entry, cfg: Config)
  {
    if e.Folder? then cfg.showHiddenFolders || !StartsWithDot(e.name)
    else cfg.showHiddenFiles || !StartsWithDot(e.name)
  }

  /** `folder.children` as entries, in the host's order; a path the vault does not hold is no entry. */
  function Kids(m: map<string, Entry>, kids: seq<string>): seq<Entry>
  {
    if kids == [] then []
    else
      var c := kids[|kids| - 1];
      Kids(m, kids[..|kids| - 1]) + (if c in m then [m[c]] else [])
  }

  function FilterShown(es: seq<Entry>, cfg: Config): seq<Entry>
  {
    if es == [] then []
    else
      var e := es[|es| - 1];
      FilterShown(es[..|es| - 1], cfg) + (if Shown(e, cfg) then [e] else [])
  }

  /**
   * The partition loop of `getFolderEntries`, over a prefix of the
   * children: `dirs` gets the shown folders, `files` the shown files, each in
   * the children's order.
   */
  function Partition(es: seq<Entry>, cfg: Config): (seq<Entry>, seq<Entry>)
  {
    if es == [] then ([], []) else Place(Partition(es[..|es| - 1], cfg), es[|es| - 1], cfg)
  }

  /** One iteration of the partition loop: `e` joins its group unless the policy hides it. */
  function Place(p: (seq<Entry>, seq<Entry>), e: Entry, cfg: Config): (seq<Entry>, seq<Entry>)
  {
    if e.Folder? then
      if !cfg.showHiddenFolders && StartsWithDot(e.name) then p else (p.0 + [e], p.1)
    else
      if !cfg.showHiddenFiles && StartsWithDot(e.name) then p else (p.0, p.1 + [e])
  }

  /** The loop over `children[..i + 1]` is the loop over `children[..i]` followed by child `i`. */
  lemma PartitionStep(m: map<string, Entry>, kids: seq<string>, i: nat, cfg: Config)
    requires i < |kids|
    ensures Partition(Kids(m, kids[..i + 1]), cfg)
      == if kids[i] in m then Place(Partition(Kids(m, kids[..i]), cfg), m[kids[i]], cfg)
         else Partition(Kids(m, kids[..i]), cfg)
  {
    assert kids[..i + 1][..i] == kids[..i];
    var es := Kids(m, kids[..i]);
    if kids[i] in m {
      var es' := es + [m[kids[i]]];
      assert es'[..|es'| - 1] == es;
    } else {
      assert es + [] == es;
    }
  }

  /** The filter keeps exactly the entries the policy shows. */
  lemma {:induction false} FilterShownMembers(es: seq<Entry>, cfg: Config)
    ensures forall e :: e in FilterShown(es, cfg) <==> e in es && Shown(e, cfg)
  {
    if es != [] {
      FilterShownMembers(es[..|es| - 1], cfg);
      assert es == es[..|es| - 1] + [es[|es| - 1]];
    }
  }

  /**
   * The partition puts only shown folders in `dirs`, only shown files in
   * `files`, and together they are the shown entries.
   */
  lemma {:induction false} PartitionSplits(es: seq<Entry>, cfg: Config)
    ensures forall e :: e in Partition(es, cfg).0 ==> e.Folder? && Shown(e, cfg)
    ensures forall e :: e in Partition(es, cfg).1 ==> e.File? && Shown(e, cfg)
    ensures multiset(Partition(es, cfg).0) + multiset(Partition(es, cfg).1) == multiset(FilterShown(es, cfg))
  {
    if es != [] {
      PartitionSplits(es[..|es| - 1], cfg);
    }
  }

  /** `getFolderEntries(folder)`: nothing for a path that is not a folder. */
  function FolderEntries(m: map<string, Entry>, folder: string, cfg: Config): seq<Entry>
  {
    if folder !in m || !m[folder].Folder? then []
    else
      var p := Partition(Kids(m, m[folder].children), cfg);
      if cfg.foldersFirst then SortByName(p.0) + SortByName(p.1) else SortByName(p.0 + p.1)
  }

  /** The entries the policy keeps among the children of `folder`. */
  function ShownKids(m: map<string, Entry>, folder: string, cfg: Config): seq<Entry>
  {
    if folder !in m || !m[folder].Folder? then [] else FilterShown(Kids(m, m[folder].children), cfg)
  }

  /**
   * The listing is a permutation of the children the hidden-entry policy
   * keeps: an entry is listed iff it is a child and survives the policy.
   */
  lemma ListingIsShownChildren(m: map<string, Entry>, folder: string, cfg: Config)
    ensures multiset(FolderEntries(m, folder, cfg)) == multiset(ShownKids(m, folder, cfg))
    ensures forall e :: e in FolderEntries(m, folder, cfg) <==> e in ShownKids(m, folder, cfg)
  {
    var r := FolderEntries(m, folder, cfg);
    if folder in m && m[folder].Folder? {
      var p := Partition(Kids(m, m[folder].children), cfg);
      PartitionSplits(Kids(m, m[folder].children), cfg);
      SortByNameSorts(p.0);
      SortByNameSorts(p.1);
      SortByNameSorts(p.0 + p.1);
    }
    assert multiset(r) == multiset(ShownKids(m, folder, cfg));
    forall e ensures e in r <==> e in ShownKids(m, folder, cfg) {
      assert e in r <==> e in multiset(r);
    }
  }

  /** With `sortFoldersFirst`, every folder is listed before every file, and each group is sorted. */
  lemma FoldersFirstOrder(m: map<string, Entry>, folder: string, cfg: Config)
    requires cfg.foldersFirst
    ensures forall i, j ::
      (0 <= i < |FolderEntries(m, folder, cfg)| && 0 <= j < |FolderEntries(m, folder, cfg)|
       && FolderEntries(m, folder, cfg)[i].Folder? && FolderEntries(m, folder, cfg)[j].File?) ==> i < j
    ensures forall i, j ::
      (0 <= i < j < |FolderEntries(m, folder, cfg)|
       && FolderEntries(m, folder, cfg)[i].Folder? == FolderEntries(m, folder, cfg)[j].Folder?)
      ==> NameLe(FolderEntries(m, folder, cfg)[i], FolderEntries(m, folder, cfg)[j])
  {
    if folder in m && m[folder].Folder? {
      var p := Partition(Kids(m, m[folder].children), cfg);
      PartitionSplits(Kids(m, m[folder].children), cfg);
      var d, f := SortByName(p.0), SortByName(p.1);
      SortByNameSorts(p.0);
      SortByNameSorts(p.1);
      forall i | 0 <= i < |d| ensures d[i].Folder? { assert d[i] in multiset(p.0); }
      forall i | 0 <= i < |f| ensures f[i].File? { assert f[i] in multiset(p.1); }
      GroupedOrder(d, f);
    }
  }

  /** Two sorted groups, folders then files, put one after the other. */
  lemma GroupedOrder(d: seq<Entry>, f: seq<Entry>)
    requires SortedByName(d) && SortedByName(f)
    requires forall i :: 0 <= i < |d| ==> d[i].Folder?
    requires forall i :: 0 <= i < |f| ==> f[i].File?
    ensures forall i, j :: 0 <= i < |d + f| && 0 <= j < |d + f| && (d + f)[i].Folder? && (d + f)[j].File? ==> i < j
    ensures forall i, j :: 0 <= i < j < |d + f| && (d + f)[i].Folder? == (d + f)[j].Folder? ==> NameLe((d + f)[i], (d + f)[j])
  {
    var r := d + f;
    forall i | 0 <= i < |r| ensures r[i].Folder? <==> i < |d| {
      if i >= |d| { assert r[i] == f[i - |d|]; }
    }
    forall i, j | 0 <= i < j < |r| && r[i].Folder? == r[j].Folder? ensures NameLe(r[i], r[j]) {
      if j < |d| {
        assert r[i] == d[i] && r[j] == d[j];
      } else {
        assert r[i] == f[i - |d|] && r[j] == f[j - |d|];
      }
    }
  }

  /** Without `sortFoldersFirst`, the whole listing is sorted by name. */
  lemma MixedOrder(m: map<string, Entry>, folder: string, cfg: Config)
    requires !cfg.foldersFirst
    ensures SortedByName(FolderEntries(m, folder, cfg))
  {
    if folder in m && m[folder].Folder? {
      var p := Partition(Kids(m, m[folder].children), cfg);
      SortByNameSorts(p.0 + p.1);
    }
  }

  /** With every hidden entry shown, the policy drops nothing. */
  lemma {:induction false} ShowAllKeepsEverything(es: seq<Entry>)
    ensures FilterShown(es, ShowAll) == es
  {
    if es != [] {
      ShowAllKeepsEverything(es[..|es| - 1]);
      assert es == es[..|es| - 1] + [es[|es| - 1]];
    }
  }

  /**
   * `getEntryLabel`: a file's basename when extensions are hidden,
   * otherwise the entry's name.
   */
  function Label(e: Entry, showFileExtensions: bool): string
  {
    if e.File? && !showFileExtensions then e.basename else e.name
  }

  /**
   * For a file the vault named, hiding extensions shows the name without its
   * last `.extension`; otherwise the label is the name itself.
   */
  lemma LabelDropsExtension(p: string, text: string, showFileExtensions: bool)
    ensures var e := NewFile(p, text);
      if showFileExtensions || e.extension == "" then Label(e, showFileExtensions) == e.name || e.name == Label(e, showFileExtensions) + "."
      else Label(e, showFileExtensions) + "." + e.extension == e.name
  {
  }
}
