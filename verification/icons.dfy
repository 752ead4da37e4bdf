/**
 * `iconForFileName`, identical in both sources: the icon a file row shows is
 * chosen from the lower-cased text after the last dot of its name (the whole
 * name when it has no dot), by a fixed table of extension groups.
 */
module Icons {
  import opened Js
  import opened Vaults

  const TextExtensions: seq<string> := ["md", "txt", "rtf", "org"]
  const ImageExtensions: seq<string> :=
    ["png", "jpg", "jpeg", "gif", "svg", "webp", "bmp", "tiff", "tif", "ico", "avif", "heic"]
  const AudioExtensions: seq<string> :=
    ["mp3", "wav", "m4a", "flac", "ogg", "oga", "aac", "aiff", "alac", "opus"]
  const VideoExtensions: seq<string> := ["mp4", "mkv", "webm", "mov", "avi", "m4v", "wmv"]
  const TableExtensions: seq<string> := ["csv", "tsv", "xls", "xlsx", "ods"]
  const DocumentExtensions: seq<string> := ["pdf", "ppt", "pptx", "odp"]
  const CodeExtensions: seq<string> :=
    ["js", "ts", "tsx", "jsx", "json", "yaml", "yml", "toml", "xml", "html", "css", "scss", "sass",
     "less", "py", "rb", "java", "kt", "c", "cc", "cpp", "h", "hpp", "rs", "go", "sh", "zsh", "fish",
     "lua", "php", "pl", "r", "swift"]
  const ArchiveExtensions: seq<string> := ["zip", "rar", "7z", "tar", "gz", "bz2", "xz", "tgz"]

  /** The icon names the table can produce. */
  const IconNames: set<string> := {"file-text", "image", "music", "video", "table", "code", "package", "file"}

  /** `(name.split('.').pop() || '').toLowerCase()`. */
  function ExtensionOf(name: string): (ext: string)
    ensures |ext| <= |name|
    ensures forall k :: 0 <= k < |ext| ==> ext[k] != '.'
  {
    Lower(name[LastIndexOf(name, '.') + 1..])
  }

  /** The icon of one extension: the first group, in table order, that lists it. */
  function IconForExtension(ext: string): (icon: string)
    ensures icon in IconNames
    ensures icon == "file" <==>
      ext !in TextExtensions && ext !in ImageExtensions && ext !in AudioExtensions
      && ext !in VideoExtensions && ext !in TableExtensions && ext !in DocumentExtensions
      && ext !in CodeExtensions && ext !in ArchiveExtensions
  {
    if ext in TextExtensions then "file-text"
    else if ext in ImageExtensions then "image"
    else if ext in AudioExtensions then "music"
    else if ext in VideoExtensions then "video"
    else if ext in TableExtensions then "table"
    else if ext in DocumentExtensions then "file-text"
    else if ext in CodeExtensions then "code"
    else if ext in ArchiveExtensions then "package"
    else "file"
  }

  /** `iconForFileName(name)`. */
  function IconForFileName(name: string): string
  {
    IconForExtension(ExtensionOf(name))
  }

  /** Lower-casing never creates or removes a dot, so the last dot stays where it is. */
  lemma {:induction false} LastDotLower(s: string)
    ensures LastIndexOf(Lower(s), '.') == LastIndexOf(s, '.')
  {
    if s != [] {
      var n := |s| - 1;
      assert Lower(s)[..n] == Lower(s[..n]);
      LastDotLower(s[..n]);
    }
  }

  /** The icon does not depend on the case of the name. */
  lemma IconIgnoresCase(name: string)
    ensures IconForFileName(Lower(name)) == IconForFileName(name)
  {
    LastDotLower(name);
    var i := LastIndexOf(name, '.') + 1;
    assert Lower(name)[i..] == Lower(name[i..]);
    LowerIdempotent(name[i..]);
    assert ExtensionOf(Lower(name)) == ExtensionOf(name);
  }

  /** Only the text after the last dot matters: `x.y.ext` shows the icon of `ext` alone. */
  lemma IconOfLastSegment(front: string, ext: string)
    requires forall k :: 0 <= k < |ext| ==> ext[k] != '.'
    ensures IconForFileName(front + "." + ext) == IconForFileName(ext)
  {
    LastIndexOfAfter(front + ".", ext, '.');
    assert front + "." + ext == (front + ".") + ext;
    assert (front + "." + ext)[|front| + 1..] == ext;
    assert LastIndexOf(ext, '.') == -1;
    assert ext[0..] == ext;
    assert ExtensionOf(front + "." + ext) == ExtensionOf(ext);
  }

  /**
   * A name without a dot is its own extension (`split('.')` yields the whole
   * name): a file called `R` or `C` gets the code icon.
   */
  lemma DotlessNameIsItsOwnExtension(name: string)
    requires forall k :: 0 <= k < |name| ==> name[k] != '.'
    ensures ExtensionOf(name) == Lower(name)
    ensures IconForFileName(name) == IconForExtension(Lower(name))
  {
    assert LastIndexOf(name, '.') == -1;
    assert name[0..] == name;
  }
}
