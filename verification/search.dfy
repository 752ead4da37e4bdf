/**
 * Quick-select search. The list is never narrowed: `applySearchFilter`
 * moves the selection to the first match when the selected entry does not
 * match, and `cycleSearch` steps circularly through the matches of the
 * full listing. A match is a case-insensitive substring test.
 */
module Search {
  import opened Js
  import opened Vaults
  import opened Listing
  import opened Selection

  /** `name.toLowerCase().includes(query.toLowerCase())`. */
  predicate Matches(name: string, query: string)
  {
    Includes(Lower(name), Lower(query))
  }

  /** The names search compares: `entry.name`. */
  function Names(entries: seq<Entry>): (r: seq<string>)
    ensures |r| == |entries| && forall k :: 0 <= k < |entries| ==> r[k] == entries[k].name
  {
    seq(|entries|, k requires 0 <= k < |entries| => entries[k].name)
  }

  /** The names `main.js` compares in `applySearchFilter`: `getEntrySearchName`, the label. */
  function Labels(entries: seq<Entry>, showFileExtensions: bool): (r: seq<string>)
    ensures |r| == |entries| && forall k :: 0 <= k < |entries| ==> r[k] == Label(entries[k], showFileExtensions)
  {
    seq(|entries|, k requires 0 <= k < |entries| => Label(entries[k], showFileExtensions))
  }

  /** `names.findIndex(n => matches)`: the first matching position, or -1. */
  function FirstMatch(names: seq<string>, query: string): (i: int)
    ensures -1 <= i < |names|
    ensures i >= 0 ==> Matches(names[i], query) && forall k :: 0 <= k < i ==> !Matches(names[k], query)
    ensures i == -1 ==> forall k :: 0 <= k < |names| ==> !Matches(names[k], query)
  {
    if names == [] then -1
    else if Matches(names[0], query) then 0
    else
      var i := FirstMatch(names[1..], query);
      if i == -1 then -1 else i + 1
  }

  /**
   * The selection `applySearchFilter` leaves for the trimmed query `query`:
   * unchanged for an empty query or when the selected name already matches;
   * otherwise the first match, if there is one.
   */
  function AutoJump(names: seq<string>, sel: int, query: string): (r: int)
    ensures query == "" ==> r == sel
    ensures query != "" && 0 <= sel < |names| && Matches(names[sel], query) ==> r == sel
    ensures query != "" && !(0 <= sel < |names| && Matches(names[sel], query)) && (exists k :: 0 <= k < |names| && Matches(names[k], query))
      ==> 0 <= r < |names| && Matches(names[r], query) && forall k :: 0 <= k < r ==> !Matches(names[k], query)
    ensures (forall k :: 0 <= k < |names| ==> !Matches(names[k], query)) ==> r == sel
  {
    var q := Lower(query);
    var curMatches := q != "" && 0 <= sel < |names| && Includes(Lower(names[sel]), q);
    if q != "" && !curMatches then
      LowerIdempotent(query);
      var next := FirstMatch(names, query);
      if next >= 0 then next else sel
    else sel
  }

  /** The query `n`/`N` cycle with: the typed text, else the applied query, else the last one. */
  function EffectiveQuery(input: string, searchQuery: string, lastSearchQuery: string): (q: string)
    ensures Trim(input) != "" ==> q == Trim(input)
    ensures Trim(input) == "" && searchQuery != "" ==> q == searchQuery
    ensures Trim(input) == "" && searchQuery == "" ==> q == lastSearchQuery
  {
    var t := Trim(input);
    if t != "" then t else if searchQuery != "" then searchQuery else lastSearchQuery
  }

  /** The query `exitSearchMode` keeps in `lastSearchQuery`: the typed text, else the one kept before. */
  function KeptQuery(input: string, last: string): string
  {
    var t := Trim(input);
    if t != "" then t else last
  }

  /** After leaving the search with `Escape`, `n`/`N` cycle with the query that was typed. */
  lemma CycleAfterEscape(input: string, last: string)
    ensures EffectiveQuery("", "", KeptQuery(input, last)) == KeptQuery(input, last)
  {
  }

  /** The positions of `names` that match, in increasing order (the `map`/`filter` chain of `cycleSearch`). */
  function MatchIndices(names: seq<string>, query: string): (ms: seq<nat>)
    ensures forall p :: 0 <= p < |ms| ==> ms[p] < |names| && Matches(names[ms[p]], query)
    ensures forall p, p' :: 0 <= p < p' < |ms| ==> ms[p] < ms[p']
    ensures forall k :: 0 <= k < |names| && Matches(names[k], query) ==> k in ms
  {
    if names == [] then []
    else
      var n := |names| - 1;
      var ms := MatchIndices(names[..n], query);
      ms + (if Matches(names[n], query) then [n] else [])
  }

  /** `ms.findIndex(x => x.i === k)`. */
  function PositionOf(ms: seq<nat>, k: int): (p: int)
    ensures -1 <= p < |ms|
    ensures p >= 0 ==> ms[p] == k
    ensures p == -1 ==> k !in ms
  {
    if ms == [] then -1
    else if ms[0] == k then 0
    else
      var p := PositionOf(ms[1..], k);
      if p == -1 then -1 else p + 1
  }

  /** The match positions strictly increase. */
  predicate Increasing(ms: seq<nat>)
  {
    forall a, b :: 0 <= a < b < |ms| ==> ms[a] < ms[b]
  }

  /**
   * `pos = (pos + step + matches.length) % matches.length`, after a missing
   * position became -1 (forward) or 0 (backward): the next position
   * circularly, or the first (last) one when the current entry is no match.
   */
  function CyclePos(p0: int, step: int, m: int): (pos: int)
    requires m > 0 && -1 <= p0 < m && (step == 1 || step == -1)
    ensures step == 1 ==> pos == if p0 + 1 < m then p0 + 1 else 0
    ensures step == -1 ==> pos == if p0 >= 1 then p0 - 1 else m - 1
  {
    var p1 := if p0 == -1 then (if step > 0 then -1 else 0) else p0;
    ModNear(p1 + step + m, m);
    Rem(p1 + step + m, m)
  }

  lemma ModNear(a: int, m: int)
    requires m > 0 && 0 <= a <= 2 * m
    ensures a % m == if a < m then a else if a < 2 * m then a - m else 0
  {
    if a < m {
      ModSmall(a, m);
    } else if a < 2 * m {
      ModBand1(a, m);
    } else {
      ModUnique(a, m, 2, 0);
    }
  }

  /** `matches[pos].i`: the listing position `cycleSearch` aims at, from the current one `cur`. */
  function CycleMatch(ms: seq<nat>, cur: int, step: int): (t: nat)
    requires ms != [] && (step == 1 || step == -1)
    ensures t in ms
  {
    ms[CyclePos(PositionOf(ms, cur), step, |ms|)]
  }

  /**
   * Forward: from a match with a later one, the least later match; from
   * anywhere else (no match, or the last match), the first match.
   */
  lemma CycleMatchForward(ms: seq<nat>, cur: int)
    requires ms != [] && Increasing(ms)
    ensures var t := CycleMatch(ms, cur, 1);
      ((cur in ms && exists k :: k in ms && cur < k) ==> cur < t && forall k :: k in ms && cur < k ==> t <= k)
      && (!(cur in ms && exists k :: k in ms && cur < k) ==> t == ms[0] && forall k :: k in ms ==> t <= k)
  {
    var p0 := PositionOf(ms, cur);
    var t := CycleMatch(ms, cur, 1);
    if cur in ms && exists k :: k in ms && cur < k {
      var k1 :| k1 in ms && cur < k1;
      var pk :| 0 <= pk < |ms| && ms[pk] == k1;
      assert p0 < pk;
      assert t == ms[p0 + 1];
      forall k | k in ms && cur < k ensures t <= k {
        var q :| 0 <= q < |ms| && ms[q] == k;
        assert p0 < q;
      }
    } else {
      assert t == ms[0];
      forall k | k in ms ensures t <= k {
        var q :| 0 <= q < |ms| && ms[q] == k;
      }
    }
  }

  /**
   * Backward: from a match with an earlier one, the greatest earlier match;
   * from anywhere else (no match, or the first match), the last match.
   */
  lemma CycleMatchBackward(ms: seq<nat>, cur: int)
    requires ms != [] && Increasing(ms)
    ensures var t := CycleMatch(ms, cur, -1);
      ((cur in ms && exists k :: k in ms && k < cur) ==> t < cur && forall k :: k in ms && k < cur ==> k <= t)
      && (!(cur in ms && exists k :: k in ms && k < cur) ==> t == ms[|ms| - 1] && forall k :: k in ms ==> k <= t)
  {
    var p0 := PositionOf(ms, cur);
    var t := CycleMatch(ms, cur, -1);
    if cur in ms && exists k :: k in ms && k < cur {
      var k1 :| k1 in ms && k1 < cur;
      var pk :| 0 <= pk < |ms| && ms[pk] == k1;
      assert pk < p0;
      assert t == ms[p0 - 1];
      forall k | k in ms && k < cur ensures k <= t {
        var q :| 0 <= q < |ms| && ms[q] == k;
        assert q < p0;
      }
    } else {
      assert t == ms[|ms| - 1];
      forall k | k in ms ensures k <= t {
        var q :| 0 <= q < |ms| && ms[q] == k;
      }
    }
  }

  /**
   * The new `selectedIndex` of `cycleSearch(step)`, or `None` when it does
   * nothing: no query, no match, or a target missing from `entries`.
   */
  function CycleTarget(all: seq<Entry>, entries: seq<Entry>, sel: int, query: string, step: int): Option<int>
    requires step == 1 || step == -1
  {
    var ms := MatchIndices(Names(all), query);
    if query == "" || ms == [] then None
    else
      var cur := if 0 <= sel < |entries| then IndexOfPath(all, entries[sel].path) else -1;
      var t := CycleMatch(ms, cur, step);
      var idx := IndexOfPath(entries, all[t].path);
      if idx >= 0 then Some(idx) else None
  }

  /** `n`/`N` do nothing without a query or without a match. */
  lemma CycleNoOp(all: seq<Entry>, entries: seq<Entry>, sel: int, query: string, step: int)
    requires step == 1 || step == -1
    requires query == "" || forall k :: 0 <= k < |all| ==> !Matches(all[k].name, query)
    ensures CycleTarget(all, entries, sel, query, step).None?
  {
  }

  /** Position `k` of the listing holds an entry whose name matches. */
  predicate MatchAt(all: seq<Entry>, k: int, query: string)
  {
    0 <= k < |all| && Matches(all[k].name, query)
  }

  /** The selected entry is a match and some match lies after it. */
  predicate MatchWithLater(all: seq<Entry>, sel: int, query: string)
  {
    MatchAt(all, sel, query) && exists k :: sel < k < |all| && MatchAt(all, k, query)
  }

  /** The selected entry is a match and some match lies before it. */
  predicate MatchWithEarlier(all: seq<Entry>, sel: int, query: string)
  {
    MatchAt(all, sel, query) && exists k :: 0 <= k < sel && MatchAt(all, k, query)
  }

  /** The match list holds exactly the listing positions that match. */
  lemma InMatches(all: seq<Entry>, query: string, k: int)
    ensures k in MatchIndices(Names(all), query) <==> MatchAt(all, k, query)
  {
    var names := Names(all);
    if 0 <= k < |all| {
      assert names[k] == all[k].name;
    }
  }

  /** On the rendered listing, `cycleSearch` aims at `CycleMatch` from the selected position itself. */
  lemma CycleOnListing(all: seq<Entry>, sel: int, query: string, step: int)
    requires UniquePaths(all) && query != "" && (step == 1 || step == -1)
    requires MatchIndices(Names(all), query) != []
    ensures var ms := MatchIndices(Names(all), query);
      var cur := if 0 <= sel < |all| then sel else -1;
      CycleTarget(all, all, sel, query, step) == Some(CycleMatch(ms, cur, step))
  {
    var ms := MatchIndices(Names(all), query);
    if 0 <= sel < |all| {
      IndexOfOwnPath(all, sel);
    }
    var cur := if 0 <= sel < |all| then sel else -1;
    var t := CycleMatch(ms, cur, step);
    InMatches(all, query, t);
    IndexOfOwnPath(all, t);
  }

  /** In terms of the match list: the selected entry is a match with a later one. */
  lemma LaterIff(all: seq<Entry>, sel: int, query: string)
    ensures var ms := MatchIndices(Names(all), query);
      var cur := if 0 <= sel < |all| then sel else -1;
      (cur in ms && exists k :: k in ms && cur < k) <==> MatchWithLater(all, sel, query)
  {
    var ms := MatchIndices(Names(all), query);
    var cur := if 0 <= sel < |all| then sel else -1;
    InMatches(all, query, cur);
    if MatchWithLater(all, sel, query) {
      var k1 :| sel < k1 < |all| && MatchAt(all, k1, query);
      InMatches(all, query, k1);
    }
    if cur in ms && exists k :: k in ms && cur < k {
      var k1 :| k1 in ms && cur < k1;
      InMatches(all, query, k1);
    }
  }

  /** In terms of the match list: the selected entry is a match with an earlier one. */
  lemma EarlierIff(all: seq<Entry>, sel: int, query: string)
    ensures var ms := MatchIndices(Names(all), query);
      var cur := if 0 <= sel < |all| then sel else -1;
      (cur in ms && exists k :: k in ms && k < cur) <==> MatchWithEarlier(all, sel, query)
  {
    var ms := MatchIndices(Names(all), query);
    var cur := if 0 <= sel < |all| then sel else -1;
    InMatches(all, query, cur);
    if MatchWithEarlier(all, sel, query) {
      var k1 :| 0 <= k1 < sel && MatchAt(all, k1, query);
      InMatches(all, query, k1);
    }
    if cur in ms && exists k :: k in ms && k < cur {
      var k1 :| k1 in ms && k1 < cur;
      InMatches(all, query, k1);
    }
  }

  /**
   * On the rendered listing (`entries == allEntries`), `n` moves to the
   * next match after the selected entry when the selected entry is a match
   * with a later one, and otherwise to the first match.
   */
  lemma CycleNext(all: seq<Entry>, sel: int, query: string)
    requires UniquePaths(all) && query != ""
    requires exists k :: MatchAt(all, k, query)
    ensures CycleTarget(all, all, sel, query, 1).Some?
    ensures var t := CycleTarget(all, all, sel, query, 1).value;
      MatchAt(all, t, query)
      && (MatchWithLater(all, sel, query) ==> sel < t && forall k :: sel < k < t ==> !MatchAt(all, k, query))
      && (!MatchWithLater(all, sel, query) ==> forall k :: 0 <= k < t ==> !MatchAt(all, k, query))
  {
    var ms := MatchIndices(Names(all), query);
    var k0 :| MatchAt(all, k0, query);
    InMatches(all, query, k0);
    CycleOnListing(all, sel, query, 1);
    var cur := if 0 <= sel < |all| then sel else -1;
    ForwardTarget(all, sel, query, CycleMatch(ms, cur, 1));
  }

  /** The facts behind `CycleNext`, about the target `CycleMatch` picks. */
  lemma ForwardTarget(all: seq<Entry>, sel: int, query: string, t: nat)
    requires MatchIndices(Names(all), query) != []
    requires t == CycleMatch(MatchIndices(Names(all), query), if 0 <= sel < |all| then sel else -1, 1)
    ensures MatchAt(all, t, query)
      && (MatchWithLater(all, sel, query) ==> sel < t && forall k :: sel < k < t ==> !MatchAt(all, k, query))
      && (!MatchWithLater(all, sel, query) ==> forall k :: 0 <= k < t ==> !MatchAt(all, k, query))
  {
    var ms := MatchIndices(Names(all), query);
    var cur := if 0 <= sel < |all| then sel else -1;
    CycleMatchForward(ms, cur);
    InMatches(all, query, t);
    var later := cur in ms && exists k :: k in ms && cur < k;
    LaterIff(all, sel, query);
    forall k | (later && cur < k < t) || (!later && 0 <= k < t) ensures !MatchAt(all, k, query) {
      InMatches(all, query, k);
    }
  }

  /**
   * `N` moves to the previous match before the selected entry when the
   * selected entry is a match with an earlier one, and otherwise to the
   * last match.
   */
  lemma CyclePrevious(all: seq<Entry>, sel: int, query: string)
    requires UniquePaths(all) && query != ""
    requires exists k :: MatchAt(all, k, query)
    ensures CycleTarget(all, all, sel, query, -1).Some?
    ensures var t := CycleTarget(all, all, sel, query, -1).value;
      MatchAt(all, t, query)
      && (MatchWithEarlier(all, sel, query) ==> t < sel && forall k :: t < k < sel ==> !MatchAt(all, k, query))
      && (!MatchWithEarlier(all, sel, query) ==> forall k :: t < k < |all| ==> !MatchAt(all, k, query))
  {
    var ms := MatchIndices(Names(all), query);
    var k0 :| MatchAt(all, k0, query);
    InMatches(all, query, k0);
    CycleOnListing(all, sel, query, -1);
    var cur := if 0 <= sel < |all| then sel else -1;
    BackwardTarget(all, sel, query, CycleMatch(ms, cur, -1));
  }

  /** The facts behind `CyclePrevious`, about the target `CycleMatch` picks. */
  lemma BackwardTarget(all: seq<Entry>, sel: int, query: string, t: nat)
    requires MatchIndices(Names(all), query) != []
    requires t == CycleMatch(MatchIndices(Names(all), query), if 0 <= sel < |all| then sel else -1, -1)
    ensures MatchAt(all, t, query)
      && (MatchWithEarlier(all, sel, query) ==> t < sel && forall k :: t < k < sel ==> !MatchAt(all, k, query))
      && (!MatchWithEarlier(all, sel, query) ==> forall k :: t < k < |all| ==> !MatchAt(all, k, query))
  {
    var ms := MatchIndices(Names(all), query);
    var cur := if 0 <= sel < |all| then sel else -1;
    CycleMatchBackward(ms, cur);
    InMatches(all, query, t);
    var earlier := cur in ms && exists k :: k in ms && k < cur;
    EarlierIff(all, sel, query);
    forall k | (earlier && t < k < cur) || (!earlier && t < k < |all|) ensures !MatchAt(all, k, query) {
      InMatches(all, query, k);
    }
  }
}
