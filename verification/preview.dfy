/**
 * The preview pane of `renderPreview`: which selection gets a preview, the
 * staleness token that guards the awaited `vault.read`, and the cut of long
 * texts. The synchronous part of a call (`Start`) empties the pane, decides
 * what to show and, for a text file, increments the token and leaves a
 * request in flight; the continuation (`Finish`) runs when the read settles
 * and shows its text, or the error, only if the token is still current.
 * Requests in flight settle in any order.
 */
module Preview {
  import opened Js
  import opened Vaults

  const MaxPreviewChars: nat := 50000
  const TruncationMarker: string := "\n\n… (truncated)"

  /**
   * `if (text && text.length > 50000) text = text.slice(0, 50000) + marker`:
   * a text that is short enough is shown whole; a longer one keeps exactly
   * its first 50000 characters, followed by the marker.
   */
  function Truncate(text: string): (r: string)
    ensures |text| <= MaxPreviewChars ==> r == text
    ensures |text| > MaxPreviewChars ==>
      |r| == MaxPreviewChars + |TruncationMarker| && r[..MaxPreviewChars] == text[..MaxPreviewChars]
      && r[MaxPreviewChars..] == TruncationMarker
  {
    if text != "" && |text| > MaxPreviewChars then text[..MaxPreviewChars] + TruncationMarker else text
  }

  /** Whatever the text, the preview is at most 50000 characters plus the marker. */
  lemma TruncateBounded(text: string)
    ensures |Truncate(text)| <= MaxPreviewChars + |TruncationMarker|
  {
  }

  /** Cutting an already cut text changes nothing. */
  lemma TruncateIdempotent(text: string)
    ensures Truncate(Truncate(text)) == Truncate(text)
  {
    if |text| > MaxPreviewChars {
      var r := Truncate(text);
      assert |r| > MaxPreviewChars;
      assert r[..MaxPreviewChars] == text[..MaxPreviewChars];
    }
  }

  /** The extensions `main.js` shows as an image instead of reading them (`IMAGE_EXTENSIONS`). */
  const PreviewImageExtensions: seq<string> := ["png", "jpg", "jpeg", "gif", "svg", "webp", "bmp", "ico"]

  /** What the selection asks the preview for. */
  datatype Target = NoTarget | FolderTarget | ImageTarget(path: string) | TextTarget(path: string)

  /**
   * The branch `renderPreview` takes: nothing without entries (or with a
   * selection outside the list, where reading the entry throws before the
   * token), no preview for a folder, an image for a listed image extension
   * (`main.js` only, `withImages`), otherwise a text read.
   */
  function TargetOf(entries: seq<Entry>, sel: int, withImages: bool): (t: Target)
    ensures !(0 <= sel < |entries|) ==> t == NoTarget
    ensures 0 <= sel < |entries| && entries[sel].Folder? ==> t == FolderTarget
    ensures t.TextTarget? <==> (0 <= sel < |entries| && entries[sel].File?
      && !(withImages && Lower(entries[sel].extension) in PreviewImageExtensions))
    ensures t.TextTarget? || t.ImageTarget? ==> t.path == entries[sel].path
  {
    if !(0 <= sel < |entries|) then NoTarget
    else
      var e := entries[sel];
      if e.Folder? then FolderTarget
      else if withImages && Lower(e.extension) in PreviewImageExtensions then ImageTarget(e.path)
      else TextTarget(e.path)
  }

  datatype Pane = Blank | ImagePane(path: string) | Rendered(path: string, text: string) | Failed

  /** An awaited read: the token it captured and the file it reads. */
  datatype Request = Request(token: int, path: string)

  /** `previewToken`, what the pane shows, and the reads still in flight. */
  datatype PreviewState = PreviewState(token: int, pane: Pane, inflight: seq<Request>)

  /**
   * The synchronous part of `renderPreview`, as written: only a text target
   * increments the token (`++this.previewToken`), and only with the preview
   * shown does a read start.
   */
  function Start(s: PreviewState, t: Target, showPreview: bool): (s': PreviewState)
    ensures t.TextTarget? ==> s'.token == s.token + 1
    ensures !t.TextTarget? ==> s'.token == s.token && s'.inflight == s.inflight
    ensures t.TextTarget? && showPreview ==> s'.inflight == s.inflight + [Request(s'.token, t.path)]
    ensures !showPreview ==> s'.inflight == s.inflight
    ensures s'.pane == if t.ImageTarget? && showPreview then ImagePane(t.path) else Blank
  {
    match t
    case NoTarget => s.(pane := Blank)
    case FolderTarget => s.(pane := Blank)
    case ImageTarget(p) => s.(pane := if showPreview then ImagePane(p) else Blank)
    case TextTarget(p) =>
      var tok := s.token + 1;
      PreviewState(tok, Blank, if showPreview then s.inflight + [Request(tok, p)] else s.inflight)
  }

  /** What a current read shows: the cut text, or the error message when the read threw. */
  function Shown(path: string, read: Option<string>): Pane
  {
    if read.Some? then Rendered(path, Truncate(read.value)) else Failed
  }

  /**
   * The continuation of request `k` once its read settled with `read`
   * (`None`: it threw): the request leaves the flight, and the pane changes
   * only when its token is still `previewToken`.
   */
  function Finish(s: PreviewState, k: nat, read: Option<string>): (s': PreviewState)
    requires k < |s.inflight|
    ensures s'.token == s.token
    ensures s'.inflight == s.inflight[..k] + s.inflight[k + 1..]
    ensures s.inflight[k].token != s.token ==> s'.pane == s.pane
    ensures s.inflight[k].token == s.token ==> s'.pane == Shown(s.inflight[k].path, read)
  {
    var r := s.inflight[k];
    var rest := s.inflight[..k] + s.inflight[k + 1..];
    if r.token != s.token then s.(inflight := rest)
    else s.(inflight := rest, pane := Shown(r.path, read))
  }

  /**
   * Two overlapping reads, for files `a` then `b`: whichever settles first,
   * the pane ends up showing `b`'s outcome, and `a`'s is never applied.
   */
  lemma LaterRequestWins(s0: PreviewState, a: string, b: string, x: Option<string>, y: Option<string>)
    ensures var s2 := Start(Start(s0, TextTarget(a), true), TextTarget(b), true);
      var n := |s0.inflight|;
      Finish(s2, n, x).pane == Blank
      && Finish(Finish(s2, n, x), n, y).pane == Shown(b, y)
      && Finish(Finish(s2, n + 1, y), n, x).pane == Shown(b, y)
  {
    var s1 := Start(s0, TextTarget(a), true);
    var s2 := Start(s1, TextTarget(b), true);
    var n := |s0.inflight|;
    assert s2.inflight == s0.inflight + [Request(s0.token + 1, a)] + [Request(s0.token + 2, b)];
    assert s2.inflight[n] == Request(s0.token + 1, a);
    assert s2.inflight[n + 1] == Request(s0.token + 2, b);
    var s3 := Finish(s2, n, x);
    assert s3.inflight[n] == Request(s0.token + 2, b);
    var s4 := Finish(s2, n + 1, y);
    assert s4.inflight[n] == Request(s0.token + 1, a);
  }

  /** Hiding the preview still increments the token, so every read in flight becomes stale. */
  lemma HiddenPreviewCancels(s: PreviewState, p: string, k: nat, x: Option<string>)
    requires forall i :: 0 <= i < |s.inflight| ==> s.inflight[i].token <= s.token
    requires k < |s.inflight|
    ensures Finish(Start(s, TextTarget(p), false), k, x).pane == Blank
  {
  }

  /**
   * As written, a folder (or image, or nothing) selected after a text file
   * does not increment the token, so the file's read is still current when it
   * settles and its text appears while the folder is selected.
   */
  lemma StaleTextAfterFolder(s0: PreviewState, a: string, x: string)
    ensures var s2 := Start(Start(s0, TextTarget(a), true), FolderTarget, true);
      Finish(s2, |s0.inflight|, Some(x)).pane == Rendered(a, Truncate(x))
      && !Consistent(Finish(s2, |s0.inflight|, Some(x)), FolderTarget)
  {
    var s1 := Start(s0, TextTarget(a), true);
    assert s1.inflight[|s0.inflight|] == Request(s1.token, a);
  }

  /**
   * The evidently intended start: every call invalidates the reads before it,
   * as if `++this.previewToken` came first.
   */
  function StartFixed(s: PreviewState, t: Target, showPreview: bool): (s': PreviewState)
    ensures s'.token == s.token + 1
    ensures t.TextTarget? && showPreview ==> s'.inflight == s.inflight + [Request(s'.token, t.path)]
    ensures !(t.TextTarget? && showPreview) ==> s'.inflight == s.inflight
    ensures s'.pane == if t.ImageTarget? && showPreview then ImagePane(t.path) else Blank
  {
    var tok := s.token + 1;
    match t
    case TextTarget(p) =>
      PreviewState(tok, Blank, if showPreview then s.inflight + [Request(tok, p)] else s.inflight)
    case ImageTarget(p) => PreviewState(tok, if showPreview then ImagePane(p) else Blank, s.inflight)
    case NoTarget => PreviewState(tok, Blank, s.inflight)
    case FolderTarget => PreviewState(tok, Blank, s.inflight)
  }

  /**
   * The pane agrees with the latest target `last`: rendered text belongs to
   * it, no read carries a future token, and every current read is for it.
   */
  predicate Consistent(s: PreviewState, last: Target)
  {
    (s.pane.Rendered? ==> last == TextTarget(s.pane.path))
    && (forall i :: 0 <= i < |s.inflight| ==> s.inflight[i].token <= s.token)
    && (forall i :: 0 <= i < |s.inflight| && s.inflight[i].token == s.token ==> last == TextTarget(s.inflight[i].path))
  }

  /** With the fix, starting a preview for `t` makes the state consistent with `t`, whatever came before. */
  lemma FixedStartConsistent(s: PreviewState, last: Target, t: Target, showPreview: bool)
    requires Consistent(s, last)
    ensures Consistent(StartFixed(s, t, showPreview), t)
  {
    var s' := StartFixed(s, t, showPreview);
    forall i | 0 <= i < |s.inflight| ensures s'.inflight[i].token < s'.token {
      assert s'.inflight[i] == s.inflight[i];
    }
  }

  /** Any read settling keeps the state consistent with the latest target. */
  lemma FinishConsistent(s: PreviewState, last: Target, k: nat, read: Option<string>)
    requires Consistent(s, last) && k < |s.inflight|
    ensures Consistent(Finish(s, k, read), last)
  {
    var s' := Finish(s, k, read);
    forall i | 0 <= i < |s'.inflight|
      ensures s'.inflight[i].token <= s'.token
      ensures s'.inflight[i].token == s'.token ==> last == TextTarget(s'.inflight[i].path)
    {
      if i < k {
        assert s'.inflight[i] == s.inflight[i];
      } else {
        assert s'.inflight[i] == s.inflight[i + 1];
      }
    }
  }
}
