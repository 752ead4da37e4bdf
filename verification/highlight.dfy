/**
 * The search highlight of a name (`renderNameWithHighlight`, shared by both
 * views) and the HTML escaping it relies on (`escapeHtml`). The name is cut
 * into plain segments and marked segments, the marked ones being the
 * leftmost non-overlapping case-insensitive occurrences of the query; every
 * segment is escaped and the marked ones are wrapped in a span.
 */
module Highlight {
  import opened Js

  /** `s.replace(/c/g, rep)` for a one-character pattern. */
  function ReplaceAll(s: string, c: char, rep: string): (r: string)
  {
    if s == [] then [] else (if s[0] == c then rep else [s[0]]) + ReplaceAll(s[1..], c, rep)
  }

  lemma {:induction false} ReplaceAllAppend(a: string, b: string, c: char, rep: string)
    ensures ReplaceAll(a + b, c, rep) == ReplaceAll(a, c, rep) + ReplaceAll(b, c, rep)
  {
    if a != [] {
      assert (a + b)[0] == a[0] && (a + b)[1..] == a[1..] + b;
      ReplaceAllAppend(a[1..], b, c, rep);
      var h := if a[0] == c then rep else [a[0]];
      calc {
        ReplaceAll(a + b, c, rep);
        h + ReplaceAll(a[1..] + b, c, rep);
        h + (ReplaceAll(a[1..], c, rep) + ReplaceAll(b, c, rep));
        (h + ReplaceAll(a[1..], c, rep)) + ReplaceAll(b, c, rep);
      }
    } else {
      assert a + b == b;
    }
  }

  lemma {:induction false} ReplaceAllAbsent(s: string, c: char, rep: string)
    requires c !in s
    ensures ReplaceAll(s, c, rep) == s
  {
    if s != [] {
      assert c !in s[1..];
      ReplaceAllAbsent(s[1..], c, rep);
    }
  }

  /** `escapeHtml`: the five global replacements, in the order the source applies them. */
  function EscapeHtml(s: string): string
  {
    ReplaceAll(ReplaceAll(ReplaceAll(ReplaceAll(ReplaceAll(s, '&', "&amp;"), '<', "&lt;"), '>', "&gt;"), '"', "&quot;"), '\'', "&#039;")
  }

  /** The entity each special character becomes; every other character stays. */
  function EscapeChar(c: char): string
  {
    if c == '&' then "&amp;"
    else if c == '<' then "&lt;"
    else if c == '>' then "&gt;"
    else if c == '"' then "&quot;"
    else if c == '\'' then "&#039;"
    else [c]
  }

  /** Character-by-character escaping: the reference definition of `escapeHtml`. */
  function EscapeAll(s: string): string
  {
    if s == [] then [] else EscapeChar(s[0]) + EscapeAll(s[1..])
  }

  lemma ReplaceOne(c: char, x: char, rep: string)
    ensures ReplaceAll([c], x, rep) == if c == x then rep else [c]
  {
    assert ReplaceAll([c], x, rep) == (if c == x then rep else [c]) + ReplaceAll([], x, rep);
  }

  /** The replacements after the first leave a text without their characters alone. */
  lemma RestAbsent(s: string)
    requires '<' !in s && '>' !in s && '"' !in s && '\'' !in s
    ensures ReplaceAll(ReplaceAll(ReplaceAll(ReplaceAll(s, '<', "&lt;"), '>', "&gt;"), '"', "&quot;"), '\'', "&#039;") == s
  {
    ReplaceAllAbsent(s, '<', "&lt;");
    LastAbsent(s);
  }

  /** The last three replacements leave a text without `>`, `"` and `'` alone. */
  lemma LastAbsent(s: string)
    requires '>' !in s && '"' !in s && '\'' !in s
    ensures ReplaceAll(ReplaceAll(ReplaceAll(s, '>', "&gt;"), '"', "&quot;"), '\'', "&#039;") == s
  {
    ReplaceAllAbsent(s, '>', "&gt;");
    ReplaceAllAbsent(s, '"', "&quot;");
    ReplaceAllAbsent(s, '\'', "&#039;");
  }

  lemma EscapeAmp(c: char)
    requires c == '&'
    ensures EscapeHtml([c]) == "&amp;"
  {
    ReplaceOne(c, '&', "&amp;");
    RestAbsent("&amp;");
  }

  lemma EscapeLt(c: char)
    requires c == '<'
    ensures EscapeHtml([c]) == "&lt;"
  {
    ReplaceOne(c, '&', "&amp;");
    ReplaceOne(c, '<', "&lt;");
    LastAbsent("&lt;");
  }

  lemma EscapeGt(c: char)
    requires c == '>'
    ensures EscapeHtml([c]) == "&gt;"
  {
    ReplaceOne(c, '&', "&amp;");
    ReplaceOne(c, '<', "&lt;");
    ReplaceOne(c, '>', "&gt;");
    ReplaceAllAbsent("&gt;", '"', "&quot;");
    ReplaceAllAbsent("&gt;", '\'', "&#039;");
  }

  lemma EscapeQuot(c: char)
    requires c == '"'
    ensures EscapeHtml([c]) == "&quot;"
  {
    ReplaceOne(c, '&', "&amp;");
    ReplaceOne(c, '<', "&lt;");
    ReplaceOne(c, '>', "&gt;");
    ReplaceOne(c, '"', "&quot;");
    ReplaceAllAbsent("&quot;", '\'', "&#039;");
  }

  lemma EscapeApos(c: char)
    requires c == '\''
    ensures EscapeHtml([c]) == "&#039;"
  {
    ReplaceOne(c, '&', "&amp;");
    ReplaceOne(c, '<', "&lt;");
    ReplaceOne(c, '>', "&gt;");
    ReplaceOne(c, '"', "&quot;");
    ReplaceOne(c, '\'', "&#039;");
  }

  lemma EscapeOther(c: char)
    requires c != '&' && c != '<' && c != '>' && c != '"' && c != '\''
    ensures EscapeHtml([c]) == [c]
  {
    ReplaceOne(c, '&', "&amp;");
    ReplaceOne(c, '<', "&lt;");
    ReplaceOne(c, '>', "&gt;");
    ReplaceOne(c, '"', "&quot;");
    ReplaceOne(c, '\'', "&#039;");
  }

  /** Escaping one character through the chain gives its entity. */
  lemma EscapeHtmlChar(c: char)
    ensures EscapeHtml([c]) == EscapeChar(c)
  {
    if c == '&' {
      EscapeAmp(c);
    } else if c == '<' {
      EscapeLt(c);
    } else if c == '>' {
      EscapeGt(c);
    } else if c == '"' {
      EscapeQuot(c);
    } else if c == '\'' {
      EscapeApos(c);
    } else {
      EscapeOther(c);
    }
  }

  lemma EscapeHtmlAppend(a: string, b: string)
    ensures EscapeHtml(a + b) == EscapeHtml(a) + EscapeHtml(b)
  {
    ReplaceAllAppend(a, b, '&', "&amp;");
    var a1, b1 := ReplaceAll(a, '&', "&amp;"), ReplaceAll(b, '&', "&amp;");
    ReplaceAllAppend(a1, b1, '<', "&lt;");
    var a2, b2 := ReplaceAll(a1, '<', "&lt;"), ReplaceAll(b1, '<', "&lt;");
    ReplaceAllAppend(a2, b2, '>', "&gt;");
    var a3, b3 := ReplaceAll(a2, '>', "&gt;"), ReplaceAll(b2, '>', "&gt;");
    ReplaceAllAppend(a3, b3, '"', "&quot;");
    var a4, b4 := ReplaceAll(a3, '"', "&quot;"), ReplaceAll(b3, '"', "&quot;");
    ReplaceAllAppend(a4, b4, '\'', "&#039;");
  }

  /** The chain of global replacements escapes each character on its own: no entity is escaped twice. */
  lemma {:induction false} EscapeHtmlIsPerChar(s: string)
    ensures EscapeHtml(s) == EscapeAll(s)
  {
    if s != [] {
      assert s == [s[0]] + s[1..];
      EscapeHtmlAppend([s[0]], s[1..]);
      EscapeHtmlChar(s[0]);
      EscapeHtmlIsPerChar(s[1..]);
    }
  }

  /** No raw `<`, `>`, `"` or `'` is left. */
  predicate Safe(s: string)
  {
    forall k :: 0 <= k < |s| ==> s[k] != '<' && s[k] != '>' && s[k] != '"' && s[k] != '\''
  }

  lemma {:induction false} EscapeAllSafe(s: string)
    ensures Safe(EscapeAll(s))
  {
    if s != [] {
      EscapeAllSafe(s[1..]);
      var h, t := EscapeChar(s[0]), EscapeAll(s[1..]);
      assert Safe(h);
      forall k | 0 <= k < |h + t| ensures (h + t)[k] != '<' && (h + t)[k] != '>' && (h + t)[k] != '"' && (h + t)[k] != '\'' {
        if k >= |h| {
          assert (h + t)[k] == t[k - |h|];
        }
      }
    }
  }

  /** `escapeHtml` output contains no raw `<`, `>`, `"` or `'`. */
  lemma EscapeHtmlSafe(s: string)
    ensures Safe(EscapeHtml(s))
  {
    EscapeHtmlIsPerChar(s);
    EscapeAllSafe(s);
  }

  /** `s` begins with `p`. */
  predicate StartsWith(s: string, p: string)
  {
    |p| <= |s| && s[..|p|] == p
  }

  /** Decoding the five entities back into their characters. */
  function Unescape(s: string): string
    decreases |s|
  {
    if s == [] then []
    else if StartsWith(s, "&amp;") then "&" + Unescape(s[5..])
    else if StartsWith(s, "&lt;") then "<" + Unescape(s[4..])
    else if StartsWith(s, "&gt;") then ">" + Unescape(s[4..])
    else if StartsWith(s, "&quot;") then "\"" + Unescape(s[6..])
    else if StartsWith(s, "&#039;") then "'" + Unescape(s[6..])
    else [s[0]] + Unescape(s[1..])
  }

  /** A text that begins with `p` agrees with `p` on its first two characters. */
  lemma StartsWithHead(s: string, p: string)
    requires |p| >= 2 && StartsWith(s, p)
    ensures s[0] == p[0] && s[1] == p[1]
  {
    assert s[..|p|][0] == s[0] && s[..|p|][1] == s[1];
  }

  /** Unescaping an entity `e` (at its place in the decoding order) followed by `t`. */
  lemma UnescapeEntity(e: string, c: char, t: string)
    requires e in ["&amp;", "&lt;", "&gt;", "&quot;", "&#039;"]
    requires c == (if e == "&amp;" then '&' else if e == "&lt;" then '<' else if e == "&gt;" then '>' else if e == "&quot;" then '"' else '\'')
    ensures Unescape(e + t) == [c] + Unescape(t)
  {
    var s := e + t;
    assert s[..|e|] == e && s[|e|..] == t;
    assert s[1] == e[1];
    if e != "&amp;" {
      if StartsWith(s, "&amp;") { StartsWithHead(s, "&amp;"); }
    }
    if e != "&amp;" && e != "&lt;" {
      if StartsWith(s, "&lt;") { StartsWithHead(s, "&lt;"); }
    }
    if e == "&quot;" || e == "&#039;" {
      if StartsWith(s, "&gt;") { StartsWithHead(s, "&gt;"); }
    }
    if e == "&#039;" {
      if StartsWith(s, "&quot;") { StartsWithHead(s, "&quot;"); }
    }
  }

  /** Unescaping the escape of any character followed by `t`. */
  lemma UnescapeChar(c: char, t: string)
    ensures Unescape(EscapeChar(c) + t) == [c] + Unescape(t)
  {
    if c == '&' {
      UnescapeEntity("&amp;", c, t);
    } else if c == '<' {
      UnescapeEntity("&lt;", c, t);
    } else if c == '>' {
      UnescapeEntity("&gt;", c, t);
    } else if c == '"' {
      UnescapeEntity("&quot;", c, t);
    } else if c == '\'' {
      UnescapeEntity("&#039;", c, t);
    } else {
      var s := [c] + t;
      assert s[0] == c && s[1..] == t;
      if StartsWith(s, "&amp;") { StartsWithHead(s, "&amp;"); }
      if StartsWith(s, "&lt;") { StartsWithHead(s, "&lt;"); }
      if StartsWith(s, "&gt;") { StartsWithHead(s, "&gt;"); }
      if StartsWith(s, "&quot;") { StartsWithHead(s, "&quot;"); }
      if StartsWith(s, "&#039;") { StartsWithHead(s, "&#039;"); }
    }
  }

  /** Escaping loses nothing: unescaping gives the text back. */
  lemma {:induction false} UnescapeEscape(s: string)
    ensures Unescape(EscapeHtml(s)) == s
  {
    EscapeHtmlIsPerChar(s);
    UnescapeEscapeAll(s);
  }

  lemma {:induction false} UnescapeEscapeAll(s: string)
    ensures Unescape(EscapeAll(s)) == s
  {
    if s != [] {
      UnescapeChar(s[0], EscapeAll(s[1..]));
      UnescapeEscapeAll(s[1..]);
      assert s == [s[0]] + s[1..];
    }
  }

  /** The tags around a marked segment. */
  const Open: string := "<span class=\"ranger-match\">"
  const Close: string := "</span>"

  /** A piece of the highlighted name: plain text, or a case-insensitive occurrence of the query. */
  datatype Seg = Plain(text: string) | Mark(text: string)

  /**
   * The segments the scan of `renderNameWithHighlight` emits from position
   * `i` on, for the lower-cased query `q`: the text before the next
   * occurrence (when not empty), the occurrence, and so on; then the rest.
   */
  function Segments(n: string, lower: string, q: string, i: nat): seq<Seg>
    requires |q| > 0 && |lower| == |n| && i <= |n|
    decreases |n| - i
  {
    var idx := IndexOf(lower, q, i);
    if idx == -1 then [Plain(n[i..])]
    else Piece(n, i, idx, idx + |q|) + Segments(n, lower, q, idx + |q|)
  }

  /** The text before an occurrence at `idx` (when not empty), then the occurrence, ending at `m`. */
  function Piece(n: string, i: nat, idx: nat, m: nat): seq<Seg>
    requires i <= idx <= m <= |n|
  {
    (if idx > i then [Plain(n[i..idx])] else []) + [Mark(n[idx..m])]
  }

  lemma TextPiece(n: string, i: nat, idx: nat, m: nat)
    requires i <= idx <= m <= |n|
    ensures Text(Piece(n, i, idx, m)) == n[i..m]
  {
    var mark := [Mark(n[idx..m])];
    assert Text(mark) == n[idx..m] + Text([]);
    if idx > i {
      var front := [Plain(n[i..idx])];
      TextAppend(front, mark);
      assert Text(front) == n[i..idx] + Text([]);
      assert n[i..m] == n[i..idx] + n[idx..m];
    } else {
      assert Piece(n, i, idx, m) == mark;
    }
  }

  lemma HtmlPiece(n: string, i: nat, idx: nat, m: nat)
    requires i <= idx <= m <= |n|
    ensures Html(Piece(n, i, idx, m)) == Front(n, i, idx) + MarkHtml(n, idx, m)
  {
    var mark := [Mark(n[idx..m])];
    assert Html(mark) == Open + EscapeHtml(n[idx..m]) + Close + Html([]);
    if idx > i {
      var front := [Plain(n[i..idx])];
      HtmlAppend(front, mark);
      assert Html(front) == EscapeHtml(n[i..idx]) + Html([]);
    } else {
      assert Piece(n, i, idx, m) == mark;
    }
  }

  function RenderSeg(g: Seg): string
  {
    match g
    case Plain(t) => EscapeHtml(t)
    case Mark(t) => Open + EscapeHtml(t) + Close
  }

  function Html(segs: seq<Seg>): string
  {
    if segs == [] then "" else RenderSeg(segs[0]) + Html(segs[1..])
  }

  lemma {:induction false} HtmlAppend(a: seq<Seg>, b: seq<Seg>)
    ensures Html(a + b) == Html(a) + Html(b)
  {
    if a != [] {
      assert (a + b)[0] == a[0] && (a + b)[1..] == a[1..] + b;
      HtmlAppend(a[1..], b);
      calc {
        Html(a + b);
        RenderSeg(a[0]) + Html(a[1..] + b);
        RenderSeg(a[0]) + (Html(a[1..]) + Html(b));
        (RenderSeg(a[0]) + Html(a[1..])) + Html(b);
      }
    } else {
      assert a + b == b;
    }
  }

  /** The text of the segments, tags dropped. */
  function Text(segs: seq<Seg>): string
  {
    if segs == [] then "" else segs[0].text + Text(segs[1..])
  }

  lemma {:induction false} TextAppend(a: seq<Seg>, b: seq<Seg>)
    ensures Text(a + b) == Text(a) + Text(b)
  {
    if a != [] {
      assert (a + b)[0] == a[0] && (a + b)[1..] == a[1..] + b;
      TextAppend(a[1..], b);
      calc {
        Text(a + b);
        a[0].text + Text(a[1..] + b);
        a[0].text + (Text(a[1..]) + Text(b));
        (a[0].text + Text(a[1..])) + Text(b);
      }
    } else {
      assert a + b == b;
    }
  }

  /** The escaped text between the scan position `i` and the next occurrence at `idx`. */
  function Front(n: string, i: nat, idx: nat): string
    requires i <= idx <= |n|
  {
    if idx > i then EscapeHtml(n[i..idx]) else ""
  }

  /** The escaped occurrence `n[idx..m]` in its span. */
  function MarkHtml(n: string, idx: nat, m: nat): string
    requires idx <= m <= |n|
  {
    Open + EscapeHtml(n[idx..m]) + Close
  }

  /** The markup the scan appends from position `i` on: the rendering of the segments from `i`. */
  function MarkupFrom(n: string, lower: string, q: string, i: nat): string
    requires |q| > 0 && |lower| == |n| && i <= |n|
  {
    Html(Segments(n, lower, q, i))
  }

  lemma Regroup3(a: string, b: string, c: string)
    ensures (a + b) + c == a + b + c
  {
  }

  /** One round of the scan: the markup from `i` is the round's output followed by the markup from `j`, after the occurrence. */
  lemma MarkupUnfold(n: string, lower: string, q: string, i: nat, idx: nat, j: nat)
    requires |q| > 0 && |lower| == |n| && i <= |n|
    requires idx == IndexOf(lower, q, i) && j == idx + |q|
    ensures MarkupFrom(n, lower, q, i) == Front(n, i, idx) + MarkHtml(n, idx, j) + MarkupFrom(n, lower, q, j)
  {
    var rest := Segments(n, lower, q, j);
    assert Segments(n, lower, q, i) == Piece(n, i, idx, j) + rest;
    HtmlAppend(Piece(n, i, idx, j), rest);
    HtmlPiece(n, i, idx, j);
    Regroup3(Front(n, i, idx), MarkHtml(n, idx, j), Html(rest));
  }

  /** When no occurrence is left, the markup from `i` is the escaped rest of the name. */
  lemma MarkupRest(n: string, lower: string, q: string, i: nat)
    requires |q| > 0 && |lower| == |n| && i <= |n|
    requires IndexOf(lower, q, i) == -1
    ensures MarkupFrom(n, lower, q, i) == EscapeHtml(n[i..])
  {
    assert Segments(n, lower, q, i) == [Plain(n[i..])];
    assert Html([Plain(n[i..])]) == EscapeHtml(n[i..]) + Html([]);
  }

  /** Appending a round's output to `h0` leaves the rest of the markup to come. */
  lemma Shift(h0: string, x: string, front: string, mark: string, rest: string, h: string, whole: string)
    requires h0 + x == whole
    requires x == front + mark + rest
    requires h == h0 + front + mark
    ensures h + rest == whole
  {
    Regroup(h0, front, mark, rest);
  }

  /** One round of the scan keeps `html + MarkupFrom(n, lower, q, i)` fixed. */
  lemma MarkupStep(n: string, lower: string, q: string, i: nat, idx: nat, j: nat, h0: string, h: string, whole: string)
    requires |q| > 0 && |lower| == |n| && i <= |n|
    requires idx == IndexOf(lower, q, i) && j == idx + |q|
    requires h0 + MarkupFrom(n, lower, q, i) == whole
    requires h == h0 + Front(n, i, idx) + MarkHtml(n, idx, j)
    ensures h + MarkupFrom(n, lower, q, j) == whole
  {
    MarkupUnfold(n, lower, q, i, idx, j);
    Shift(h0, MarkupFrom(n, lower, q, i), Front(n, i, idx), MarkHtml(n, idx, j), MarkupFrom(n, lower, q, j), h, whole);
  }

  /** The last round of the scan completes the markup. */
  lemma MarkupLast(n: string, lower: string, q: string, i: nat, h0: string, h: string, whole: string)
    requires |q| > 0 && |lower| == |n| && i <= |n|
    requires IndexOf(lower, q, i) == -1
    requires h0 + MarkupFrom(n, lower, q, i) == whole
    requires h == h0 + EscapeHtml(n[i..])
    ensures h == whole
  {
    MarkupRest(n, lower, q, i);
  }

  /** The `innerHTML` `renderNameWithHighlight` builds: the escaped name when the query is empty. */
  function Highlighted(name: string, query: string): string
  {
    if query == "" then EscapeHtml(name) else MarkupFrom(name, Lower(name), Lower(query), 0)
  }

  /** `renderNameWithHighlight(name, query)`, against `Highlighted`. */
  method RenderNameWithHighlight(name: string, query: string) returns (html: string)
    ensures html == Highlighted(name, query)
    ensures query == "" ==> html == EscapeHtml(name)
  {
    if query == "" {
      return EscapeHtml(name);
    }
    html := ScanMatches(name, Lower(name), Lower(query));
  }

  /**
   * The `while (true)` scan of `renderNameWithHighlight` over the name `n`,
   * its lower-cased copy `lower` and the lower-cased query `q`.
   */
  method ScanMatches(n: string, lower: string, q: string) returns (html: string)
    requires |q| > 0 && |lower| == |n|
    ensures html == MarkupFrom(n, lower, q, 0)
  {
    ghost var whole := MarkupFrom(n, lower, q, 0);
    var i := 0;
    html := "";
    while true
      invariant 0 <= i <= |n|
      invariant html + MarkupFrom(n, lower, q, i) == whole
      decreases |n| - i
    {
      var idx := IndexOf(lower, q, i);
      if idx == -1 {
        ghost var h0 := html;
        html := html + EscapeHtml(n[i..]);
        MarkupLast(n, lower, q, i, h0, html, whole);
        break;
      }
      ghost var h0 := html;
      if idx > i {
        html := html + EscapeHtml(n[i..idx]);
      }
      var j := idx + |q|;
      html := html + (Open + EscapeHtml(n[idx..j]) + Close);
      MarkupStep(n, lower, q, i, idx, j, h0, html, whole);
      i := j;
    }
  }

  lemma Regroup(a: string, b: string, c: string, d: string)
    ensures ((a + b) + c) + d == a + ((b + c) + d)
  {
  }

  /** The segments from `i` on spell the rest of the name: nothing is lost, repeated or reordered. */
  lemma {:induction false} SegmentsSpellName(n: string, lower: string, q: string, i: nat)
    requires |q| > 0 && |lower| == |n| && i <= |n|
    ensures Text(Segments(n, lower, q, i)) == n[i..]
    decreases |n| - i
  {
    var idx := IndexOf(lower, q, i);
    if idx == -1 {
      assert Text([Plain(n[i..])]) == n[i..] + Text([]);
    } else {
      var m := idx + |q|;
      SegmentsSpellName(n, lower, q, m);
      TextAppend(Piece(n, i, idx, m), Segments(n, lower, q, m));
      TextPiece(n, i, idx, m);
      assert n[i..] == n[i..m] + n[m..];
    }
  }

  lemma LowerSlice(s: string, i: int, j: int)
    requires 0 <= i <= j <= |s|
    ensures Lower(s[i..j]) == Lower(s)[i..j]
  {
  }

  /** A marked segment is the lower-cased query `q` up to case; a plain one does not contain it. */
  predicate Classified(g: Seg, q: string)
  {
    (g.Mark? ==> Lower(g.text) == q) && (g.Plain? ==> !Includes(Lower(g.text), q))
  }

  /**
   * Every marked segment is the query up to case, and no plain segment
   * contains the query (case-insensitively).
   */
  lemma {:induction false} SegmentsAreOccurrences(n: string, query: string, i: nat)
    requires query != "" && i <= |n|
    ensures forall g :: g in Segments(n, Lower(n), Lower(query), i) ==> Classified(g, Lower(query))
    decreases |n| - i
  {
    var q, lower := Lower(query), Lower(n);
    var idx := IndexOf(lower, q, i);
    IndexOfFinds(lower, q, i);
    if idx == -1 {
      NoOccurrenceIn(lower, q, i, |n|);
      LowerSlice(n, i, |n|);
      assert n[i..] == n[i..|n|];
      assert Segments(n, lower, q, i) == [Plain(n[i..])];
    } else {
      var j := idx + |q|;
      SegmentsAreOccurrences(n, query, j);
      assert Segments(n, lower, q, i) == Piece(n, i, idx, j) + Segments(n, lower, q, j);
      PieceClassified(n, q, i, idx, j);
    }
  }

  /** The segments of one round: the text before the first occurrence from `i`, and the occurrence. */
  lemma PieceClassified(n: string, q: string, i: nat, idx: nat, j: nat)
    requires |q| > 0 && i <= |n|
    requires idx == IndexOf(Lower(n), q, i) && j == idx + |q|
    ensures forall g :: g in Piece(n, i, idx, j) ==> Classified(g, q)
  {
    var lower := Lower(n);
    IndexOfFinds(lower, q, i);
    LowerSlice(n, idx, j);
    assert Classified(Mark(n[idx..j]), q);
    if idx > i {
      NoOccurrenceIn(lower, q, i, idx);
      LowerSlice(n, i, idx);
      assert Classified(Plain(n[i..idx]), q);
    }
  }

  /** A slice `s[i..j]` holds no occurrence of a non-empty `q` when none starts in `s` from `i` before `j`. */
  lemma NoOccurrenceIn(s: string, q: string, i: nat, j: nat)
    requires |q| > 0 && i <= j <= |s|
    requires forall k :: i <= k < j ==> !OccursAt(s, q, k)
    ensures !Includes(s[i..j], q)
  {
    var w := s[i..j];
    forall k | 0 <= k && k + |q| <= |w| ensures !OccursAt(w, q, k) {
      SliceOfSlice(s, i, j, k, k + |q|);
      assert !OccursAt(s, q, i + k);
    }
    IncludesMeansOccurs(w, q);
  }

  lemma SliceOfSlice(s: string, i: nat, j: nat, a: nat, b: nat)
    requires i <= j <= |s| && a <= b <= j - i
    ensures s[i..j][a..b] == s[i + a..i + b]
  {
    forall x | 0 <= x < b - a ensures s[i..j][a..b][x] == s[i + a..i + b][x] {
      assert s[i..j][a..b][x] == s[i + a + x];
    }
  }

  /** Removing the span tags from a highlighted name. */
  function StripTags(s: string): string
    decreases |s|
  {
    if s == [] then []
    else if StartsWith(s, Open) then StripTags(s[|Open|..])
    else if StartsWith(s, Close) then StripTags(s[|Close|..])
    else [s[0]] + StripTags(s[1..])
  }

  lemma {:induction false} StripSafePrefix(a: string, b: string)
    requires Safe(a)
    ensures StripTags(a + b) == a + StripTags(b)
  {
    if a != [] {
      var s := a + b;
      assert s[0] == a[0] && a[0] != '<';
      assert !StartsWith(s, Open) && !StartsWith(s, Close) by {
        assert Open[0] == '<' && Close[0] == '<';
      }
      assert s[1..] == a[1..] + b;
      StripSafePrefix(a[1..], b);
      assert a == [a[0]] + a[1..];
    } else {
      assert a + b == b;
    }
  }

  lemma StripOpen(b: string)
    ensures StripTags(Open + b) == StripTags(b)
  {
    assert (Open + b)[..|Open|] == Open;
    assert (Open + b)[|Open|..] == b;
  }

  lemma StripClose(b: string)
    ensures StripTags(Close + b) == StripTags(b)
  {
    var s := Close + b;
    assert s[..|Close|] == Close;
    assert s[|Close|..] == b;
    assert !StartsWith(s, Open) by {
      assert s[1] == '/' && Open[1] == 's';
    }
  }

  /** With the tags removed, the highlight is the escaped text of the segments. */
  lemma {:induction false} StripHtml(segs: seq<Seg>)
    ensures StripTags(Html(segs)) == EscapeHtml(Text(segs))
  {
    if segs == [] {
    } else {
      var g, rest := segs[0], segs[1..];
      StripHtml(rest);
      EscapeHtmlSafe(g.text);
      EscapeHtmlAppend(g.text, Text(rest));
      var e := EscapeHtml(g.text);
      match g
      case Plain(t) =>
        StripSafePrefix(e, Html(rest));
      case Mark(t) =>
        assert Html(segs) == Open + (e + (Close + Html(rest)));
        StripOpen(e + (Close + Html(rest)));
        StripSafePrefix(e, Close + Html(rest));
        StripClose(Html(rest));
    }
  }

  /** Removing the span tags and unescaping gives the name back, whatever the query. */
  lemma HighlightRoundTrip(name: string, query: string)
    ensures Unescape(StripTags(Highlighted(name, query))) == name
  {
    if query == "" {
      EscapeHtmlSafe(name);
      StripSafePrefix(EscapeHtml(name), "");
      assert EscapeHtml(name) + "" == EscapeHtml(name);
      UnescapeEscape(name);
    } else {
      var segs := Segments(name, Lower(name), Lower(query), 0);
      StripHtml(segs);
      SegmentsSpellName(name, Lower(name), Lower(query), 0);
      assert name[0..] == name;
      UnescapeEscape(name);
    }
  }
}
