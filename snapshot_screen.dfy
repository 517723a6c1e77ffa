/**
 * MySnapshot's main screen: the folder it shows (`currentFolder`), the images
 * of its grid, the two saved preferences, and the operations that change them.
 * The file system is a value handed to each operation (`Storage`); what the
 * app does to the disk (creating folders, copying bytes) is described by the
 * outcomes it reports and the folders it selects.
 */
module SnapshotScreen {
  import opened Wrappers
  import opened SnapshotFolders
  import opened SnapshotFiles

  /** What the app can ask of the file system: `exists()`, `isDirectory()` and `listFiles()` of a path. */
  datatype Storage = Storage(
    present: string -> bool,
    isDirectory: string -> bool,
    listing: string -> Option<seq<FileEntry>>)  // None where `listFiles` returns null

  // ---------------------------------------------------------------------------
  // Copying images into the app folder
  // ---------------------------------------------------------------------------

  /** How copying one file ends when its destination does not exist yet. */
  datatype CopyOutcome =
    | Copied              // the bytes were written and the timestamp carried over
    | FailedToOpen        // an IOException before the destination was created
    | FailedWhileWriting  // an IOException after the destination was created: a partial file remains

  /** The files of a directory have distinct names. */
  predicate DistinctNames(files: seq<FileEntry>)
  {
    forall i, j :: 0 <= i < j < |files| ==> files[i].name != files[j].name
  }

  /**
   * How many files the loop reports as copied, for distinct names: those whose
   * destination exists beforehand and those copied without an IOException.
   */
  function CountedFiles(files: seq<FileEntry>, outcome: string -> CopyOutcome, present: string -> bool): (c: nat)
    ensures c <= |files|
  {
    if files == [] then 0
    else
      var last := files[|files| - 1].name;
      CountedFiles(files[..|files| - 1], outcome, present)
        + (if present(last) || outcome(last) == Copied then 1 else 0)
  }

  /** The files for which the loop catches an IOException, for distinct names. */
  function FailedFiles(files: seq<FileEntry>, outcome: string -> CopyOutcome, present: string -> bool): nat
  {
    if files == [] then 0
    else
      var last := files[|files| - 1].name;
      FailedFiles(files[..|files| - 1], outcome, present)
        + (if !present(last) && outcome(last) != Copied then 1 else 0)
  }

  /** The destinations the loop opens for writing, in order, for distinct names. */
  function CreatedFiles(files: seq<FileEntry>, outcome: string -> CopyOutcome, present: string -> bool): (r: seq<string>)
    ensures forall k :: 0 <= k < |r| ==> !present(r[k])
  {
    if files == [] then []
    else
      var last := files[|files| - 1].name;
      CreatedFiles(files[..|files| - 1], outcome, present)
        + (if present(last) || outcome(last) == FailedToOpen then [] else [last])
  }

  /** Every file is either counted or fails: `copied` never exceeds `total`. */
  lemma {:induction false} CountedPlusFailedIsTotal(files: seq<FileEntry>, outcome: string -> CopyOutcome, present: string -> bool)
    ensures CountedFiles(files, outcome, present) + FailedFiles(files, outcome, present) == |files|
    decreases |files|
  {
    if files != [] {
      CountedPlusFailedIsTotal(files[..|files| - 1], outcome, present);
    }
  }

  /** Copying into a folder that already has every name writes nothing and counts everything. */
  lemma {:induction false} AllPresentCopiesNothing(files: seq<FileEntry>, outcome: string -> CopyOutcome, present: string -> bool)
    requires forall k :: 0 <= k < |files| ==> present(files[k].name)
    ensures CountedFiles(files, outcome, present) == |files|
    ensures CreatedFiles(files, outcome, present) == []
    decreases |files|
  {
    if files != [] {
      AllPresentCopiesNothing(files[..|files| - 1], outcome, present);
    }
  }

  /**
   * The copy loop of `copyImagesToLocalFolder`. `present` says which names the
   * destination folder has beforehand, `outcome` how a copy of each name ends.
   * Returns the counter and the destinations opened for writing.
   */
  method CopyFiles(files: seq<FileEntry>, outcome: string -> CopyOutcome, present: string -> bool)
    returns (copied: nat, created: seq<string>)
    ensures copied <= |files|
    ensures forall k :: 0 <= k < |created| ==> !present(created[k])
    ensures forall a, b :: 0 <= a < b < |created| ==> created[a] != created[b]
    ensures (forall k :: 0 <= k < |files| ==> outcome(files[k].name) == Copied) ==> copied == |files|
    ensures DistinctNames(files) ==> copied == CountedFiles(files, outcome, present)
    ensures DistinctNames(files) ==> created == CreatedFiles(files, outcome, present)
  {
    copied, created := 0, [];
    var i := 0;
    while i < |files|
      invariant 0 <= i <= |files|
      invariant copied <= i
      invariant forall k :: 0 <= k < |created| ==> !present(created[k])
      invariant forall a, b :: 0 <= a < b < |created| ==> created[a] != created[b]
      invariant forall k :: 0 <= k < |created| ==> exists j :: 0 <= j < i && files[j].name == created[k]
      invariant (forall k :: 0 <= k < |files| ==> outcome(files[k].name) == Copied) ==> copied == i
      invariant DistinctNames(files) ==> copied == CountedFiles(files[..i], outcome, present)
      invariant DistinctNames(files) ==> created == CreatedFiles(files[..i], outcome, present)
    {
      var name := files[i].name;
      assert files[..i + 1][..i] == files[..i];
      if present(name) || name in created {
        // the destination exists: counted, not copied
        copied := copied + 1;
      } else {
        match outcome(name)
        case Copied =>
          created := created + [name];
          copied := copied + 1;
        case FailedToOpen =>
        case FailedWhileWriting =>
          created := created + [name];
      }
      i := i + 1;
    }
    assert files[..|files|] == files;
  }

  // ---------------------------------------------------------------------------
  // The persisted permission search
  // ---------------------------------------------------------------------------

  /**
   * The scan of `getPersistedUriPermissions()` in `loadSavedFolderPath`, over the
   * URI strings of the permissions. `scanned` is where the loop stopped.
   */
  method HasPersistedPermission(permissions: seq<string>, savedUri: string)
    returns (hasPermission: bool, ghost scanned: nat)
    ensures hasPermission <==> savedUri in permissions
    ensures hasPermission ==> scanned < |permissions| && permissions[scanned] == savedUri
    ensures !hasPermission ==> scanned == |permissions|
    ensures savedUri !in permissions[..scanned]
  {
    hasPermission := false;
    scanned := |permissions|;
    for i := 0 to |permissions|
      invariant savedUri !in permissions[..i]
    {
      if permissions[i] == savedUri {
        hasPermission := true;
        scanned := i;
        break;
      }
      assert permissions[..i + 1] == permissions[..i] + [permissions[i]];
    }
    if !hasPermission {
      assert permissions[..|permissions|] == permissions;
    }
  }

  // ---------------------------------------------------------------------------
  // The screen
  // ---------------------------------------------------------------------------

  /** What `copyImagesToLocalFolder` reports: the toast it shows. */
  datatype CopyReport =
    | InvalidSource                        // the source is missing or not a directory
    | NothingToCopy                        // the source holds no image (or cannot be listed)
    | CopiedImages(copied: nat, total: nat)

  /** A folder the picker returned, with the string it is saved under. */
  datatype PickedFolder = PickedFolder(uri: Uri, text: string)

  /** The grid for a folder: its image files, newest first. */
  function Grid(disk: Storage, path: string): (r: seq<FileEntry>)
    ensures NewestFirst(r)
    ensures multiset(r) == multiset(FilterImages(disk.listing(path).GetOr([])))
  {
    SortNewestFirst(FilterImages(disk.listing(path).GetOr([])))
  }

  /** What the grid shows is exactly the folder's images, newest first. */
  lemma GridShowsImagesNewestFirst(disk: Storage, path: string)
    ensures NewestFirst(Grid(disk, path))
    ensures forall f :: f in Grid(disk, path) <==> f in disk.listing(path).GetOr([]) && IsImageFile(f)
  {
    var files := FilterImages(disk.listing(path).GetOr([]));
    forall f
      ensures f in Grid(disk, path) <==> f in files
    {
      assert f in multiset(Grid(disk, path)) <==> f in multiset(files);
    }
  }

  class SnapshotActivity {
    /** `Environment.getExternalStorageDirectory()`. */
    const externalRoot: string
    /** `getExternalFilesDir(Environment.DIRECTORY_PICTURES)`. */
    const picturesDir: string

    var currentFolder: Option<string>
    /** The adapter's list. */
    var images: seq<FileEntry>
    /** The "folderPath" and "folderUri" entries of the "MySnapshotPrefs" preferences. */
    var savedPath: Option<string>
    var savedUri: Option<string>
    var currentPhotoPath: Option<string>

    constructor(externalRoot: string, picturesDir: string, savedPath: Option<string>, savedUri: Option<string>)
      ensures this.externalRoot == externalRoot && this.picturesDir == picturesDir
      ensures this.savedPath == savedPath && this.savedUri == savedUri
      ensures currentFolder == None && images == [] && currentPhotoPath == None
    {
      this.externalRoot := externalRoot;
      this.picturesDir := picturesDir;
      this.savedPath := savedPath;
      this.savedUri := savedUri;
      currentFolder := None;
      images := [];
      currentPhotoPath := None;
    }

    /** The path `createAppSpecificFolder` returns. */
    function DefaultPath(): string
    {
      FolderPath(externalRoot, picturesDir, DefaultAppFolder)
    }

    /** The path `getPathFromUri` returns. */
    function PathOf(uri: Uri): string
    {
      FolderPath(externalRoot, picturesDir, PathFromUri(uri))
    }

    /**
     * The folder `loadSavedFolderPath` restores, if any: the saved path when it is
     * an existing directory, else the saved URI's folder when a persisted
     * permission names the URI and the folder exists.
     */
    function Restored(path: Option<string>, uri: Option<string>, disk: Storage, permissions: seq<string>, parse: string -> Uri): (r: Option<string>)
      ensures r.Some? ==> disk.present(r.value)
      ensures path.Some? && disk.present(path.value) && disk.isDirectory(path.value) ==> r == path
      ensures r.Some? && !(path.Some? && disk.present(path.value) && disk.isDirectory(path.value)) ==>
        uri.Some? && uri.value in permissions && r.value == PathOf(parse(uri.value))
      ensures r.None? <==>
        && !(path.Some? && disk.present(path.value) && disk.isDirectory(path.value))
        && !(uri.Some? && uri.value in permissions && disk.present(PathOf(parse(uri.value))))
    {
      if path.Some? && disk.present(path.value) && disk.isDirectory(path.value) then path
      else if uri.Some? && uri.value in permissions && disk.present(PathOf(parse(uri.value))) then
        Some(PathOf(parse(uri.value)))
      else None
    }

    /** `setupDefaultFolder`: show the app folder and remember it. */
    method SetupDefaultFolder()
      modifies this`currentFolder, this`savedPath
      ensures currentFolder == Some(DefaultPath()) && savedPath == Some(DefaultPath())
    {
      var path := DefaultPath();
      currentFolder := Some(path);
      savedPath := Some(path);
    }

    /**
     * `refreshImages`: list the current folder's images newest first; with no
     * folder, set up the default one first. A folder that does not exist leaves
     * the grid as it was.
     */
    method RefreshImages(disk: Storage)
      modifies this`currentFolder, this`savedPath, this`images
      decreases if currentFolder.None? then 1 else 0
      ensures currentFolder == old(if currentFolder.None? then Some(DefaultPath()) else currentFolder)
      ensures savedPath == old(if currentFolder.None? then Some(DefaultPath()) else savedPath)
      ensures images == if disk.present(currentFolder.value) then Grid(disk, currentFolder.value) else old(images)
    {
      if currentFolder.Some? && disk.present(currentFolder.value) {
        var imageFiles := FilterImages(disk.listing(currentFolder.value).GetOr([]));
        if imageFiles != [] {
          imageFiles := SortNewestFirst(imageFiles);
        }
        images := imageFiles;
      } else if currentFolder.None? {
        SetupDefaultFolder();
        RefreshImages(disk);
      }
    }

    /** `onResume`: refresh when a folder is chosen. */
    method Resume(disk: Storage)
      modifies this`currentFolder, this`savedPath, this`images
      ensures currentFolder == old(currentFolder) && savedPath == old(savedPath)
      ensures currentFolder.Some? && disk.present(currentFolder.value) ==> images == Grid(disk, currentFolder.value)
      ensures currentFolder.None? || !disk.present(currentFolder.value) ==> images == old(images)
    {
      if currentFolder.Some? {
        RefreshImages(disk);
      }
    }

    /**
     * `loadSavedFolderPath`, with the parse of the saved URI string and the
     * persisted permissions as inputs. When neither preference leads to an
     * existing folder, both are cleared and the default folder is set up.
     */
    method LoadSavedFolderPath(disk: Storage, permissions: seq<string>, parse: string -> Uri)
      modifies this`currentFolder, this`savedPath, this`savedUri, this`images
      ensures var r := Restored(old(savedPath), old(savedUri), disk, permissions, parse);
        && currentFolder == Some(r.GetOr(DefaultPath()))
        && (r.Some? ==> savedPath == old(savedPath) && savedUri == old(savedUri))
        && (r.None? ==> savedPath == Some(DefaultPath()) && savedUri == None)
      ensures images == if disk.present(currentFolder.value) then Grid(disk, currentFolder.value) else old(images)
    {
      ghost var restored := Restored(savedPath, savedUri, disk, permissions, parse);
      if savedPath.Some? {
        var folder := savedPath.value;
        if disk.present(folder) && disk.isDirectory(folder) {
          assert restored == Some(folder);
          currentFolder := Some(folder);
          RefreshImages(disk);
          return;
        }
      }
      if savedUri.Some? {
        var hasPermission, _ := HasPersistedPermission(permissions, savedUri.value);
        if hasPermission {
          var folderPath := PathOf(parse(savedUri.value));
          currentFolder := Some(folderPath);
          if disk.present(folderPath) {
            assert restored == Some(folderPath);
            RefreshImages(disk);
            return;
          }
        }
      }
      assert restored == None;
      savedPath, savedUri := None, None;
      SetupDefaultFolder();
      RefreshImages(disk);
    }

    /**
     * `copyImagesToLocalFolder`: copy the source folder's images into the
     * default folder and show that folder. `after` is the file system once the
     * copies are done, which the final refresh lists.
     */
    method CopyImagesToLocalFolder(source: string, disk: Storage, outcome: string -> CopyOutcome, after: Storage)
      returns (report: CopyReport)
      modifies this`currentFolder, this`savedPath, this`images
      ensures !(disk.present(source) && disk.isDirectory(source)) ==>
        report == InvalidSource && currentFolder == old(currentFolder) && savedPath == old(savedPath) && images == old(images)
      ensures disk.present(source) && disk.isDirectory(source) ==>
        currentFolder == Some(DefaultPath()) && savedPath == Some(DefaultPath())
      ensures var files := FilterImages(disk.listing(source).GetOr([]));
        disk.present(source) && disk.isDirectory(source) && files == [] ==> report == NothingToCopy && images == old(images)
      ensures var files := FilterImages(disk.listing(source).GetOr([]));
        var inDefault := (name: string) => disk.present(DefaultPath() + "/" + name);
        disk.present(source) && disk.isDirectory(source) && files != [] ==>
          && report.CopiedImages? && report.total == |files| && report.copied <= report.total
          && (DistinctNames(files) ==> report.copied == CountedFiles(files, outcome, inDefault))
          && images == if after.present(DefaultPath()) then Grid(after, DefaultPath()) else old(images)
    {
      if !(disk.present(source) && disk.isDirectory(source)) {
        return InvalidSource;
      }
      SetupDefaultFolder();
      var files := FilterImages(disk.listing(source).GetOr([]));
      if files == [] {
        return NothingToCopy;
      }
      var total := |files|;
      var folder := currentFolder.value;
      var copied, _ := CopyFiles(files, outcome, (name: string) => disk.present(folder + "/" + name));
      RefreshImages(after);
      report := CopiedImages(copied, total);
    }

    /**
     * The folder picker's callback: remember the URI, then copy the picked
     * folder's images into the default folder. A cancelled picker changes nothing.
     */
    method FolderPicked(picked: Option<PickedFolder>, disk: Storage, outcome: string -> CopyOutcome, after: Storage)
      returns (report: Option<CopyReport>)
      modifies this`currentFolder, this`savedPath, this`savedUri, this`images
      ensures picked.None? ==>
        && report.None? && savedUri == old(savedUri) && currentFolder == old(currentFolder)
        && savedPath == old(savedPath) && images == old(images)
      ensures picked.Some? ==> savedUri == Some(picked.value.text)
      ensures picked.Some? ==> currentFolder == Some(DefaultPath()) && savedPath == Some(DefaultPath())
      ensures picked.Some? ==>
        report.Some? &&
        (report.value == InvalidSource <==> !(disk.present(PathOf(picked.value.uri)) && disk.isDirectory(PathOf(picked.value.uri))))
      ensures picked.Some? && report == Some(InvalidSource) ==> images == old(images)
      ensures picked.Some? ==>
        var source := PathOf(picked.value.uri);
        var files := FilterImages(disk.listing(source).GetOr([]));
        disk.present(source) && disk.isDirectory(source) && files == [] ==>
          report == Some(NothingToCopy) && images == old(images)
      ensures picked.Some? ==>
        var source := PathOf(picked.value.uri);
        var files := FilterImages(disk.listing(source).GetOr([]));
        var inDefault := (name: string) => disk.present(DefaultPath() + "/" + name);
        disk.present(source) && disk.isDirectory(source) && files != [] ==>
          && report.value.CopiedImages? && report.value.total == |files| && report.value.copied <= report.value.total
          && (DistinctNames(files) ==> report.value.copied == CountedFiles(files, outcome, inDefault))
          && images == if after.present(DefaultPath()) then Grid(after, DefaultPath()) else old(images)
    {
      if picked.None? {
        return None;
      }
      savedUri := Some(picked.value.text);
      var folderPath := PathOf(picked.value.uri);
      SetupDefaultFolder();
      var r := CopyImagesToLocalFolder(folderPath, disk, outcome, after);
      report := Some(r);
    }

    /**
     * `createImageFile`: the path of the next photo in the current folder.
     * `parentReady` says whether the folder exists or can be created; when it
     * cannot, the method throws and nothing is recorded.
     */
    method CreateImageFile(timeStamp: string, parentReady: bool) returns (photo: Option<string>)
      modifies this`currentPhotoPath
      ensures !parentReady ==> photo.None? && currentPhotoPath == old(currentPhotoPath)
      ensures parentReady ==> photo.Some? && currentPhotoPath == photo
      ensures parentReady && currentFolder.Some? ==>
        photo.value == currentFolder.value + "/" + PhotoFileName(timeStamp)
      ensures parentReady && currentFolder.None? ==> photo.value == PhotoFileName(timeStamp)
    {
      var imageFileName := "JPEG_" + timeStamp + "_";
      var name := imageFileName + ".jpg";
      assert name == PhotoFileName(timeStamp);
      if !parentReady {
        return None;
      }
      var path := if currentFolder.Some? then currentFolder.value + "/" + name else name;
      currentPhotoPath := Some(path);
      photo := currentPhotoPath;
    }
  }
}
