/**
 * The selection arithmetic of both views: `entries[selectedIndex]`,
 * `findIndex` by path, the circular `move` formula with JavaScript's
 * truncating remainder, the clamp at the end of `render`, the restore
 * priority of `render` (pending preselection, then folder history), the
 * folder-history update of `saveCurrentSelection` and the index `up`
 * chooses in the parent listing.
 */
module Selection {
  import opened Js
  import opened Vaults

  /** `entries[selectedIndex]`: undefined outside the list. */
  function EntryAt(entries: seq<Entry>, sel: int): (e: Option<Entry>)
    ensures e.Some? <==> 0 <= sel < |entries|
    ensures e.Some? ==> e.value == entries[sel]
  {
    if 0 <= sel < |entries| then Some(entries[sel]) else None
  }

  /** `entries.findIndex(e => e.path === p)`. */
  function IndexOfPath(entries: seq<Entry>, p: string): (i: int)
    ensures -1 <= i < |entries|
    ensures i >= 0 ==> entries[i].path == p && forall k :: 0 <= k < i ==> entries[k].path != p
    ensures i == -1 ==> forall k :: 0 <= k < |entries| ==> entries[k].path != p
  {
    if entries == [] then -1
    else if entries[0].path == p then 0
    else
      var i := IndexOfPath(entries[1..], p);
      if i == -1 then -1 else i + 1
  }

  /** No two entries of a listing share a path (children of one folder never do). */
  predicate UniquePaths(entries: seq<Entry>)
  {
    forall i, j :: 0 <= i < |entries| && 0 <= j < |entries| && entries[i].path == entries[j].path ==> i == j
  }

  lemma IndexOfOwnPath(entries: seq<Entry>, k: nat)
    requires UniquePaths(entries) && k < |entries|
    ensures IndexOfPath(entries, entries[k].path) == k
  {
  }

  /** `(selectedIndex + delta + entries.length) % entries.length`, with JavaScript's `%`. */
  function MoveIndex(sel: int, delta: int, len: int): int
    requires len > 0
  {
    Rem(sel + delta + len, len)
  }

  /** On a non-empty list and a selection in range, any `delta >= -len` lands in range, circularly. */
  lemma MoveInRange(sel: int, delta: int, len: int)
    requires 0 <= sel < len && -len <= delta
    ensures 0 <= MoveIndex(sel, delta, len) < len
    ensures MoveIndex(sel, delta, len) == (sel + delta + len) % len
  {
  }

  /** Moving down by `d` and back up by `d` (for `0 <= d <= len`) restores the selection; `j` then `k` is the case `d == 1`. */
  lemma MoveThereAndBack(sel: int, d: int, len: int)
    requires 0 <= sel < len && 0 <= d <= len
    ensures MoveIndex(MoveIndex(sel, d, len), -d, len) == sel
  {
    var a := MoveIndex(sel, d, len);
    assert a == (sel + d + len) % len;
    var b := a - d + len;
    if sel + d < len {
      ModBand1(sel + d + len, len);
      assert b == sel + len;
      ModBand1(b, len);
    } else {
      ModBand2(sel + d + len, len);
      assert b == sel;
      ModSmall(b, len);
    }
    assert MoveIndex(a, -d, len) == b % len;
  }

  /** `j` on the last entry wraps to the first, `k` on the first wraps to the last. */
  lemma MoveWraps(len: int)
    requires len > 0
    ensures MoveIndex(len - 1, 1, len) == 0
    ensures MoveIndex(0, -1, len) == len - 1
  {
  }

  /**
   * Ctrl+u (`move(-10)`) on a list shorter than 10 can leave the selection
   * negative: from the first of three entries it becomes -1, which
   * `entries[selectedIndex]` reads as undefined.
   */
  lemma CtrlUpOnShortList()
    ensures MoveIndex(0, -10, 3) == -1
    ensures EntryAt([Folder("a", "a", []), Folder("b", "b", []), Folder("c", "c", [])], MoveIndex(0, -10, 3)).None?
  {
  }

  /** More generally, whenever `sel + delta + len` is negative the JavaScript formula leaves the list. */
  lemma MoveLeavesListWhenFarUp(sel: int, delta: int, len: int)
    requires len > 0 && sel + delta + len < 0
    ensures -len < MoveIndex(sel, delta, len) <= 0
  {
  }

  /** The circular move the formula evidently intends: Euclidean remainder, always in range. */
  function WrapIndex(sel: int, delta: int, len: int): (r: int)
    requires len > 0
    ensures 0 <= r < len
  {
    (sel + delta) % len
  }

  /** Wherever the JavaScript formula stays in the list, it agrees with the intended wrap. */
  lemma WrapAgreesWhenNonNegative(sel: int, delta: int, len: int)
    requires len > 0 && sel + delta + len >= 0
    ensures WrapIndex(sel, delta, len) == MoveIndex(sel, delta, len)
  {
    ModAddPeriod(sel + delta, len);
  }

  /** Wrapping by `d` and back by `d` restores any index in range, for every `d`. */
  lemma WrapThereAndBack(sel: int, d: int, len: int)
    requires 0 <= sel < len
    ensures WrapIndex(WrapIndex(sel, d, len), -d, len) == sel
  {
    var a := WrapIndex(sel, d, len);
    var q := (sel + d) / len;
    var m := q * len;
    assert sel + d == m + a;
    ModAddMultiple(a - d, len, q);
    assert (a - d + m) % len == (a - d) % len;
    assert a - d + m == sel;
    ModSmall(sel, len);
    assert WrapIndex(a, -d, len) == (a - d) % len;
  }

  lemma ModSmall(x: int, n: int)
    requires 0 <= x < n
    ensures x % n == x
  {
    ModUnique(x, n, 0, x);
  }

  lemma {:induction false} ModAddMultiple(x: int, n: int, k: int)
    requires n > 0
    ensures (x + k * n) % n == x % n
    decreases if k < 0 then -k else k
  {
    if k > 0 {
      ModAddMultiple(x, n, k - 1);
      assert x + k * n == (x + (k - 1) * n) + n;
      ModAddPeriod(x + (k - 1) * n, n);
    } else if k < 0 {
      ModAddMultiple(x, n, k + 1);
      assert x + (k + 1) * n == (x + k * n) + n;
      ModAddPeriod(x + k * n, n);
    }
  }

  lemma ModBand1(y: int, n: int)
    requires n > 0 && n <= y < 2 * n
    ensures y % n == y - n
  {
  }

  lemma ModBand2(y: int, n: int)
    requires n > 0 && 2 * n <= y < 3 * n
    ensures y % n == y - 2 * n
  {
  }

  lemma MulNonNeg(a: int, b: int)
    requires a >= 0 && b >= 0
    ensures a * b >= 0
  {
  }

  /** Euclidean remainder is determined by any decomposition `x == q * n + r` with `0 <= r < n`. */
  lemma ModUnique(x: int, n: int, q: int, r: int)
    requires n > 0 && 0 <= r < n && x == q * n + r
    ensures x % n == r
  {
    var q', r' := x / n, x % n;
    assert x == q' * n + r';
    if q > q' {
      MulNonNeg(q - q' - 1, n);
      assert (q - q') * n == (q - q' - 1) * n + n;
    } else if q < q' {
      MulNonNeg(q' - q - 1, n);
    }
  }

  lemma ModAddPeriod(x: int, n: int)
    requires n > 0
    ensures (x + n) % n == x % n
  {
    var q, r := x / n, x % n;
    assert x == q * n + r;
    assert x + n == (q + 1) * n + r;
    ModUnique(x + n, n, q + 1, r);
  }

  /** The clamp at the end of `render`: into `[0, max(0, len - 1)]`, leaving an in-range index alone. */
  function Clamp(sel: int, len: nat): (r: int)
    ensures 0 <= r && (len > 0 ==> r < len) && (len == 0 ==> r == 0)
    ensures 0 <= sel < len ==> r == sel
    ensures sel >= len > 0 ==> r == len - 1
  {
    var s := if sel >= len then (if len - 1 > 0 then len - 1 else 0) else sel;
    if s < 0 then 0 else s
  }

  /** `folderHistory.get(folder)`. */
  function Remembered(history: map<string, string>, folder: string): Option<string>
  {
    if folder in history then Some(history[folder]) else None
  }

  /**
   * The selection `render` leaves: a pending preselection (if truthy) wins
   * when found, otherwise the remembered path of the folder (only when no
   * preselection was pending), otherwise the previous index; then clamped.
   */
  function RenderedIndex(entries: seq<Entry>, preselect: Option<string>, remembered: Option<string>, sel: int): int
  {
    var i := if Truthy(preselect) then IndexOfPath(entries, preselect.value)
             else if Truthy(remembered) then IndexOfPath(entries, remembered.value)
             else -1;
    Clamp(if i >= 0 then i else sel, |entries|)
  }

  /** The index after `render` is always a valid selection, or 0 on an empty list. */
  lemma RenderedInRange(entries: seq<Entry>, preselect: Option<string>, remembered: Option<string>, sel: int)
    ensures 0 <= RenderedIndex(entries, preselect, remembered, sel)
    ensures |entries| > 0 ==> RenderedIndex(entries, preselect, remembered, sel) < |entries|
    ensures |entries| == 0 ==> RenderedIndex(entries, preselect, remembered, sel) == 0
  {
  }

  /** The restore priority of `render`, case by case. */
  lemma RenderedPriority(entries: seq<Entry>, preselect: Option<string>, remembered: Option<string>, sel: int)
    ensures Truthy(preselect) && (exists k :: 0 <= k < |entries| && entries[k].path == preselect.value)
      ==> entries[RenderedIndex(entries, preselect, remembered, sel)].path == preselect.value
    ensures Truthy(preselect) && (forall k :: 0 <= k < |entries| ==> entries[k].path != preselect.value)
      ==> RenderedIndex(entries, preselect, remembered, sel) == Clamp(sel, |entries|)
    ensures !Truthy(preselect) && Truthy(remembered) && (exists k :: 0 <= k < |entries| && entries[k].path == remembered.value)
      ==> entries[RenderedIndex(entries, preselect, remembered, sel)].path == remembered.value
    ensures !Truthy(preselect) && (!Truthy(remembered) || forall k :: 0 <= k < |entries| ==> entries[k].path != remembered.value)
      ==> RenderedIndex(entries, preselect, remembered, sel) == Clamp(sel, |entries|)
  {
  }

  /** `saveCurrentSelection`: remember the selected path for `folder`, when the selection is in range. */
  function Saved(history: map<string, string>, folder: string, entries: seq<Entry>, sel: int): (h: map<string, string>)
    ensures 0 <= sel < |entries| ==> h == history[folder := entries[sel].path]
    ensures !(0 <= sel < |entries|) ==> h == history
  {
    if |entries| > 0 && 0 <= sel < |entries| then history[folder := entries[sel].path] else history
  }

  /**
   * Coming back to a folder whose listing has not changed restores the
   * selection that was saved there (when nothing is preselected).
   */
  lemma HistoryRoundTrip(history: map<string, string>, folder: string, entries: seq<Entry>, sel: int, other: int)
    requires UniquePaths(entries) && 0 <= sel < |entries| && entries[sel].path != ""
    ensures RenderedIndex(entries, None, Remembered(Saved(history, folder, entries, sel), folder), other) == sel
  {
    IndexOfOwnPath(entries, sel);
  }

  /** The index `up` sets before rendering the parent: the folder just left, or 0. */
  function UpIndex(parentListing: seq<Entry>, left: string): (i: int)
    ensures 0 <= i && (parentListing != [] ==> i < |parentListing|)
    ensures (exists k :: 0 <= k < |parentListing| && parentListing[k].path == left) ==> parentListing[i].path == left
    ensures (forall k :: 0 <= k < |parentListing| ==> parentListing[k].path != left) ==> i == 0
  {
    var idx := IndexOfPath(parentListing, left);
    if idx >= 0 then idx else 0
  }
}
