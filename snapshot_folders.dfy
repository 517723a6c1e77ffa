/**
 * How MySnapshot turns a folder the user picked through the Storage Access
 * Framework into a folder on disk (`getPathFromUri`,
 * `createAppSpecificFolder`, `createAppSpecificFolderWithName`).
 *
 * The document id of a picked folder has the form `type:path`. Java's
 * `split(":")` cuts it; its first piece names the storage volume and its second
 * piece is the path below that volume. Only the primary volume is reached
 * directly. Every other case falls back to a folder inside the app's own
 * pictures directory.
 */
module SnapshotFolders {
  import opened Wrappers
  import opened JavaStrings

  const Primary: string := "primary"
  /** The name `createAppSpecificFolderWithName` uses for a missing or empty name. */
  const PhotosFolderName: string := "Photos"
  /** The name of the default folder of `createAppSpecificFolder`. */
  const DefaultFolderName: string := "MySnapshot"

  /**
   * What `DocumentsContract` says about a URI: a tree URI (a picked folder) with
   * its tree document id, another document URI with its document id, or neither.
   * A document id the provider does not supply is `None`.
   */
  datatype Uri = TreeUri(docId: Option<string>) | DocumentUri(docId: Option<string>) | OtherUri

  /** The folder `getPathFromUri` settles on, before it is turned into a path. */
  datatype Folder =
    | ExternalSubPath(segment: string)  // the external storage directory + "/" + segment
    | ExternalRoot                      // the external storage directory itself
    | NamedAppFolder(name: string)      // a folder of that name in the app's pictures directory
    | DefaultAppFolder                  // the "MySnapshot" folder in the app's pictures directory

  /** `createAppSpecificFolderWithName`'s choice of name. */
  function FolderName(name: string): (r: string)
    ensures r != ""
    ensures name != "" ==> r == name
    ensures name == "" ==> r == PhotosFolderName
  {
    if name == "" then PhotosFolderName else name
  }

  function AppFolderWithName(name: string): Folder
  {
    NamedAppFolder(FolderName(name))
  }

  /**
   * `getPathFromUri`. A document id made of separators only splits into an empty
   * array; reading its first element then throws, and the handler falls back to
   * the default folder.
   */
  function PathFromUri(uri: Uri): (f: Folder)
    ensures uri.OtherUri? ==> f == DefaultAppFolder
    ensures !uri.OtherUri? && uri.docId.None? ==> f == DefaultAppFolder
    ensures f == ExternalRoot ==> uri.TreeUri?
    ensures f.NamedAppFolder? ==> f.name != ""
  {
    if uri.OtherUri? || uri.docId.None? then DefaultAppFolder
    else
      var id := uri.docId.value;
      if ':' in id then
        var split := Split(id, ':');
        if split == [] then DefaultAppFolder
        else if EqualsIgnoreCase(Primary, split[0]) && |split| > 1 then ExternalSubPath(split[1])
        else if uri.TreeUri? && EqualsIgnoreCase(Primary, split[0]) then ExternalRoot
        else AppFolderWithName(if |split| > 1 then split[1] else split[0])
      else if uri.DocumentUri? then DefaultAppFolder
      else if EqualsIgnoreCase(Primary, id) then ExternalRoot
      else AppFolderWithName(id)
  }

  /**
   * The absolute path of a folder, given the external storage directory and
   * the app's pictures directory: app folders lie directly in the pictures
   * directory under their own name, external paths below the external storage
   * directory.
   */
  function FolderPath(externalRoot: string, picturesDir: string, f: Folder): (p: string)
    ensures f.NamedAppFolder? || f == DefaultAppFolder ==>
              picturesDir + "/" <= p && p[|picturesDir| + 1..] == AppFolderName(f)
    ensures f.ExternalSubPath? ==> externalRoot + "/" <= p && p[|externalRoot| + 1..] == f.segment
    ensures f == ExternalRoot ==> p == externalRoot
  {
    match f
    case ExternalSubPath(segment) => externalRoot + "/" + segment
    case ExternalRoot => externalRoot
    case NamedAppFolder(name) => picturesDir + "/" + name
    case DefaultAppFolder => picturesDir + "/" + DefaultFolderName
  }

  /** The name an app folder has in the pictures directory. */
  function AppFolderName(f: Folder): string
    requires f.NamedAppFolder? || f == DefaultAppFolder
  {
    if f.NamedAppFolder? then f.name else DefaultFolderName
  }

  /** Two app folders, or two external sub-paths, with the same path are the same folder. */
  lemma FolderPathInjective(externalRoot: string, picturesDir: string, a: Folder, b: Folder)
    requires (a.NamedAppFolder? && b.NamedAppFolder?) || (a.ExternalSubPath? && b.ExternalSubPath?)
    requires FolderPath(externalRoot, picturesDir, a) == FolderPath(externalRoot, picturesDir, b)
    ensures a == b
  {
    if a.NamedAppFolder? {
      assert a.name == FolderPath(externalRoot, picturesDir, a)[|picturesDir| + 1..];
    } else {
      assert a.segment == FolderPath(externalRoot, picturesDir, a)[|externalRoot| + 1..];
    }
  }

  /**
   * A picked folder called "MySnapshot" in the pictures directory is the default
   * folder itself: copying into it copies a folder onto itself.
   */
  lemma NamedDefaultIsDefaultFolder(externalRoot: string, picturesDir: string)
    ensures FolderPath(externalRoot, picturesDir, NamedAppFolder(DefaultFolderName))
         == FolderPath(externalRoot, picturesDir, DefaultAppFolder)
  {
  }

  /** A type that matches "primary" in any case is free of the separator. */
  lemma PrimaryHasNoColon(p: string)
    requires EqualsIgnoreCase(Primary, p)
    ensures ':' !in p
  {
  }

  /**
   * `primary:<segment>` (in any case, with a non-empty segment) leads below the
   * external storage directory, for tree and document URIs alike; only the
   * piece between the first and the second separator counts.
   */
  lemma PrimarySegmentIsSubPath(p: string, segment: string, rest: string)
    requires EqualsIgnoreCase(Primary, p)
    requires ':' !in segment && segment != ""
    requires rest == [] || rest[0] == ':'
    ensures PathFromUri(TreeUri(Some(p + ":" + segment + rest))) == ExternalSubPath(segment)
    ensures PathFromUri(DocumentUri(Some(p + ":" + segment + rest))) == ExternalSubPath(segment)
  {
    PrimaryHasNoColon(p);
    SplitFirstTwo(p, ':', segment, rest);
    assert (p + ":" + segment + rest)[|p|] == ':';
  }

  /**
   * A tree id `primary` or `primary:` is the external storage directory itself;
   * `split` drops the empty string after the separator.
   */
  lemma PrimaryAloneIsRoot(p: string)
    requires EqualsIgnoreCase(Primary, p)
    ensures PathFromUri(TreeUri(Some(p))) == ExternalRoot
    ensures PathFromUri(TreeUri(Some(p + ":"))) == ExternalRoot
  {
    PrimaryHasNoColon(p);
    SplitTrailingSeparator(p, ':');
    assert (p + ":")[|p|] == ':';
  }

  /**
   * For a document URI the same ids do not reach the root: `primary:` names an
   * app folder after the type, and `primary` without a separator falls through
   * to the default folder.
   */
  lemma DocumentPrimaryAloneIsAppFolder(p: string)
    requires EqualsIgnoreCase(Primary, p)
    ensures PathFromUri(DocumentUri(Some(p + ":"))) == NamedAppFolder(p)
    ensures PathFromUri(DocumentUri(Some(p))) == DefaultAppFolder
  {
    PrimaryHasNoColon(p);
    SplitTrailingSeparator(p, ':');
    assert (p + ":")[|p|] == ':';
  }

  /** A volume other than the primary one gives the app folder named by the path piece. */
  lemma OtherVolumeSegmentIsAppFolder(t: string, segment: string, rest: string)
    requires ':' !in t && !EqualsIgnoreCase(Primary, t)
    requires ':' !in segment && segment != ""
    requires rest == [] || rest[0] == ':'
    ensures PathFromUri(TreeUri(Some(t + ":" + segment + rest))) == NamedAppFolder(segment)
    ensures PathFromUri(DocumentUri(Some(t + ":" + segment + rest))) == NamedAppFolder(segment)
  {
    SplitFirstTwo(t, ':', segment, rest);
    assert (t + ":" + segment + rest)[|t|] == ':';
  }

  /** ... and without a path piece, the app folder named after the volume. */
  lemma OtherVolumeAloneIsAppFolder(t: string)
    requires ':' !in t && t != "" && !EqualsIgnoreCase(Primary, t)
    ensures PathFromUri(TreeUri(Some(t + ":"))) == NamedAppFolder(t)
    ensures PathFromUri(DocumentUri(Some(t + ":"))) == NamedAppFolder(t)
  {
    SplitTrailingSeparator(t, ':');
    assert (t + ":")[|t|] == ':';
  }

  /**
   * A tree id without a separator that is not `primary` names the app folder
   * after the whole id ("Photos" when it is empty); a document id without a
   * separator gives the default folder.
   */
  lemma IdWithoutColon(id: string)
    requires ':' !in id && !EqualsIgnoreCase(Primary, id)
    ensures PathFromUri(TreeUri(Some(id))) == NamedAppFolder(FolderName(id))
    ensures PathFromUri(DocumentUri(Some(id))) == DefaultAppFolder
  {
  }

  /** An id such as ":" splits into an empty array; the exception handler picks the default. */
  lemma SeparatorsOnlyIsDefault(id: string)
    requires id != [] && forall i :: 0 <= i < |id| ==> id[i] == ':'
    ensures PathFromUri(TreeUri(Some(id))) == DefaultAppFolder
    ensures PathFromUri(DocumentUri(Some(id))) == DefaultAppFolder
  {
    SplitOfSeparatorsOnly(id, ':');
    assert id[0] == ':';
  }

  /** An empty path piece, as in `sd::x`, gives the folder "Photos". */
  lemma EmptySegmentIsPhotos(t: string, x: string)
    requires ':' !in t && !EqualsIgnoreCase(Primary, t)
    requires ':' !in x && x != ""
    ensures PathFromUri(TreeUri(Some(t + "::" + x))) == NamedAppFolder(PhotosFolderName)
    ensures PathFromUri(DocumentUri(Some(t + "::" + x))) == NamedAppFolder(PhotosFolderName)
  {
    var id := t + "::" + x;
    assert id == t + [':'] + [] + [':'] + x;
    assert id[|t|] == ':';
    SplitEmptyMiddle(t, ':', x);
  }

  /**
   * Whatever the id, the folder below the external root or inside the app
   * directory is a single piece of the id: it never contains the separator.
   */
  lemma ResolvedNameIsOnePiece(uri: Uri)
    ensures PathFromUri(uri).ExternalSubPath? ==> ':' !in PathFromUri(uri).segment
    ensures PathFromUri(uri).NamedAppFolder? ==> ':' !in PathFromUri(uri).name
  {
    if !uri.OtherUri? && uri.docId.Some? {
      SplitPiecesHaveNoSeparator(uri.docId.value, ':');
    }
  }
}
