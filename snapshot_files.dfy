/**
 * The file lists of MySnapshot: which directory entries count as images
 * (`refreshImages` and `copyImagesToLocalFolder` use the same test), the
 * newest-first order of the grid, and the names the camera's photos get
 * (`createImageFile`).
 */
module SnapshotFiles {
  import opened JavaStrings
  import opened Sequences

  /** What the app reads of a directory entry: its name, `isFile()` and `lastModified()`. */
  datatype FileEntry = FileEntry(name: string, isFile: bool, lastModified: int)

  // ---------------------------------------------------------------------------
  // The image filter
  // ---------------------------------------------------------------------------

  /** The lower-cased name ends in ".jpg", ".jpeg" or ".png". */
  predicate HasImageName(name: string)
  {
    var lower := ToLower(name);
    EndsWith(lower, ".jpg") || EndsWith(lower, ".jpeg") || EndsWith(lower, ".png")
  }

  /**
   * An image name has an extension at its end, and every name ending in one of
   * the three extensions, in lower or in upper case, is an image name.
   */
  lemma ImageNameExtensions(name: string)
    ensures HasImageName(name) ==> |name| >= 4 && (name[|name| - 4] == '.' || (|name| >= 5 && name[|name| - 5] == '.'))
    ensures EndsWith(name, ".jpg") || EndsWith(name, ".jpeg") || EndsWith(name, ".png") ==> HasImageName(name)
    ensures EndsWith(name, ".JPG") || EndsWith(name, ".JPEG") || EndsWith(name, ".PNG") ==> HasImageName(name)
  {
    var lower := ToLower(name);
    if HasImageName(name) {
      var n := if EndsWith(lower, ".jpeg") then 5 else 4;
      assert lower[|name| - n] == lower[|name| - n..][0];
    }
    LoweredSuffix(name, ".jpg", ".jpg");
    LoweredSuffix(name, ".jpeg", ".jpeg");
    LoweredSuffix(name, ".png", ".png");
    LoweredSuffix(name, ".JPG", ".jpg");
    LoweredSuffix(name, ".JPEG", ".jpeg");
    LoweredSuffix(name, ".PNG", ".png");
  }

  /** A name ending in `suffix` ends, once lower-cased, in the lower case of `suffix`. */
  lemma LoweredSuffix(name: string, suffix: string, lowered: string)
    requires |suffix| == |lowered| && forall k :: 0 <= k < |suffix| ==> LowerAscii(suffix[k]) == lowered[k]
    ensures EndsWith(name, suffix) ==> EndsWith(ToLower(name), lowered)
  {
    if EndsWith(name, suffix) {
      var lower, start := ToLower(name), |name| - |suffix|;
      forall k | 0 <= k < |lowered|
        ensures lower[start..][k] == lowered[k]
      {
        assert name[start + k] == name[start..][k];
      }
    }
  }

  /** The `FileFilter` passed to `listFiles`: a regular file with an image name. */
  predicate IsImageFile(f: FileEntry)
  {
    f.isFile && HasImageName(f.name)
  }

  /** `listFiles` with the image filter, over a listing in the order the directory yields it. */
  function FilterImages(files: seq<FileEntry>): (r: seq<FileEntry>)
    ensures |r| <= |files|
    ensures forall f :: f in r <==> f in files && IsImageFile(f)
  {
    if files == [] then []
    else (if IsImageFile(files[0]) then [files[0]] else []) + FilterImages(files[1..])
  }

  /**
   * The filter keeps exactly the image files, each as often as the listing has
   * it, in the listing's order.
   */
  lemma {:induction false} FilterImagesKeepsOrder(files: seq<FileEntry>)
    ensures IsSubsequence(FilterImages(files), files)
  {
    if files != [] {
      FilterImagesKeepsOrder(files[1..]);
      var rest := FilterImages(files[1..]);
      if IsImageFile(files[0]) {
        assert FilterImages(files) == [files[0]] + rest;
        assert ([files[0]] + rest)[1..] == rest;
      } else {
        assert FilterImages(files) == rest;
        if rest != [] {
          assert rest[0] in FilterImages(files);
          assert rest[0] != files[0];
        }
      }
    }
  }

  lemma {:induction false} FilterImagesKeepsCounts(files: seq<FileEntry>, f: FileEntry)
    ensures Count(FilterImages(files), f) == if IsImageFile(f) then Count(files, f) else 0
  {
    if files != [] {
      FilterImagesKeepsCounts(files[1..], f);
      var head := if IsImageFile(files[0]) then [files[0]] else [];
      assert FilterImages(files) == head + FilterImages(files[1..]);
      CountConcat(head, FilterImages(files[1..]), f);
    }
  }

  /** Lower-casing the name first changes nothing: the suffix test ignores case. */
  lemma ImageNameIgnoresCase(name: string)
    ensures HasImageName(ToLower(name)) == HasImageName(name)
  {
    assert ToLower(ToLower(name)) == ToLower(name);
  }

  lemma UpperCaseImageNames()
    ensures HasImageName("IMG_0001.JPG")
    ensures HasImageName("scan.Jpeg")
  {
    assert ToLower("IMG_0001.JPG")[8..] == ".jpg";
    assert ToLower("scan.Jpeg")[4..] == ".jpeg";
  }

  lemma OtherNamesAreNotImages()
    ensures !HasImageName("photo.gif")
    ensures !HasImageName("jpg")
  {
    assert ToLower("photo.gif")[5..] == ".gif";
    assert ToLower("photo.gif")[4..] == "o.gif";
  }

  // ---------------------------------------------------------------------------
  // Newest first
  // ---------------------------------------------------------------------------

  /** No entry is older than one after it. */
  predicate NewestFirst(files: seq<FileEntry>)
  {
    forall i, j :: 0 <= i < j < |files| ==> files[i].lastModified >= files[j].lastModified
  }

  /** The entries with the given timestamp, in the order of `files`. */
  function WithTime(files: seq<FileEntry>, t: int): seq<FileEntry>
  {
    if files == [] then []
    else (if files[0].lastModified == t then [files[0]] else []) + WithTime(files[1..], t)
  }

  /** Place `f` before the first entry that is not newer than it. */
  function InsertByDate(f: FileEntry, files: seq<FileEntry>): (r: seq<FileEntry>)
    requires NewestFirst(files)
    ensures NewestFirst(r)
    ensures multiset(r) == multiset(files) + multiset{f}
    ensures |r| == |files| + 1
    ensures r[0] == f || (files != [] && r[0] == files[0])
  {
    if files == [] || f.lastModified >= files[0].lastModified then
      PrependNewest(f, files);
      [f] + files
    else
      var rest := InsertByDate(f, files[1..]);
      assert files == [files[0]] + files[1..];
      PrependNewest(files[0], rest);
      [files[0]] + rest
  }

  /** An entry at least as new as the head of a newest-first list can go in front. */
  lemma PrependNewest(x: FileEntry, files: seq<FileEntry>)
    requires NewestFirst(files)
    requires files == [] || files[0].lastModified <= x.lastModified
    ensures NewestFirst([x] + files)
  {
    var r := [x] + files;
    forall i, j | 0 <= i < j < |r|
      ensures r[i].lastModified >= r[j].lastModified
    {
      assert r[j] == files[j - 1];
      if i == 0 {
        assert files[0].lastModified >= files[j - 1].lastModified;
      } else {
        assert r[i] == files[i - 1];
      }
    }
  }

  /**
   * `imageFiles.sort` with the comparator `Long.compare(f2.lastModified(),
   * f1.lastModified())`: a stable sort on descending timestamps.
   */
  function SortNewestFirst(files: seq<FileEntry>): (r: seq<FileEntry>)
    ensures NewestFirst(r)
    ensures multiset(r) == multiset(files)
  {
    if files == [] then []
    else
      assert files == [files[0]] + files[1..];
      InsertByDate(files[0], SortNewestFirst(files[1..]))
  }

  /** Unfolds `WithTime` once. */
  lemma WithTimeCons(files: seq<FileEntry>, t: int)
    requires files != []
    ensures WithTime(files, t) == (if files[0].lastModified == t then [files[0]] else []) + WithTime(files[1..], t)
  {
  }

  lemma {:induction false} InsertKeepsTimeOrder(f: FileEntry, files: seq<FileEntry>, t: int)
    requires NewestFirst(files)
    ensures WithTime(InsertByDate(f, files), t)
         == (if f.lastModified == t then [f] else []) + WithTime(files, t)
    decreases |files|
  {
    var r := InsertByDate(f, files);
    var hf := if f.lastModified == t then [f] else [];
    if files == [] || f.lastModified >= files[0].lastModified {
      assert r[0] == f && r[1..] == files;
      WithTimeCons(r, t);
    } else {
      var rest := InsertByDate(f, files[1..]);
      assert r[0] == files[0] && r[1..] == rest;
      var h0 := if files[0].lastModified == t then [files[0]] else [];
      assert WithTime(r, t) == h0 + WithTime(rest, t) by { WithTimeCons(r, t); }
      assert WithTime(files, t) == h0 + WithTime(files[1..], t) by { WithTimeCons(files, t); }
      assert WithTime(rest, t) == hf + WithTime(files[1..], t) by {
        InsertKeepsTimeOrder(f, files[1..], t);
      }
      // the head is strictly newer than `f`, so at most one of them carries the timestamp
      if f.lastModified == t {
        assert h0 == [];
        assert WithTime(r, t) == [f] + WithTime(files[1..], t);
      } else {
        assert hf == [];
        assert WithTime(r, t) == WithTime(files, t);
      }
    }
  }

  /** The sort is stable: entries with equal timestamps keep the listing's order. */
  lemma {:induction false} SortIsStable(files: seq<FileEntry>, t: int)
    ensures WithTime(SortNewestFirst(files), t) == WithTime(files, t)
  {
    if files != [] {
      SortIsStable(files[1..], t);
      InsertKeepsTimeOrder(files[0], SortNewestFirst(files[1..]), t);
    }
  }

  /**
   * Newest first and stable pin the result down: any ordering of the listing
   * with both properties is the one `SortNewestFirst` gives, whatever algorithm
   * produced it.
   */
  lemma SortIsTheStableSort(files: seq<FileEntry>, r: seq<FileEntry>)
    requires NewestFirst(r)
    requires forall t :: WithTime(r, t) == WithTime(files, t)
    ensures r == SortNewestFirst(files)
  {
    forall t
      ensures WithTime(r, t) == WithTime(SortNewestFirst(files), t)
    {
      SortIsStable(files, t);
    }
    SortedWithSameTimesAreEqual(r, SortNewestFirst(files));
  }

  lemma {:induction false} SortedWithSameTimesAreEqual(a: seq<FileEntry>, b: seq<FileEntry>)
    requires NewestFirst(a) && NewestFirst(b)
    requires forall t :: WithTime(a, t) == WithTime(b, t)
    ensures a == b
    decreases |a|
  {
    if a == [] || b == [] {
      if a != [] {
        WithTimeCons(a, a[0].lastModified);
      } else if b != [] {
        WithTimeCons(b, b[0].lastModified);
      }
    } else {
      var ta, tb := a[0].lastModified, b[0].lastModified;
      WithTimeCons(a, ta);
      WithTimeCons(b, tb);
      TimeNotAfterHead(b, ta);
      TimeNotAfterHead(a, tb);
      assert ta == tb;
      WithTimeCons(b, ta);
      assert a[0] == WithTime(a, ta)[0] == WithTime(b, ta)[0] == b[0];
      forall t
        ensures WithTime(a[1..], t) == WithTime(b[1..], t)
      {
        WithTimeCons(a, t);
        WithTimeCons(b, t);
        var head := if a[0].lastModified == t then [a[0]] else [];
        assert WithTime(a, t)[|head|..] == WithTime(a[1..], t);
        assert WithTime(b, t)[|head|..] == WithTime(b[1..], t);
      }
      SortedWithSameTimesAreEqual(a[1..], b[1..]);
    }
  }

  /** In a newest-first list, no timestamp that occurs is later than the first one. */
  lemma {:induction false} TimeNotAfterHead(files: seq<FileEntry>, t: int)
    requires NewestFirst(files) && WithTime(files, t) != []
    ensures files != [] && t <= files[0].lastModified
    decreases |files|
  {
    if files != [] && files[0].lastModified != t {
      assert WithTime(files, t) == WithTime(files[1..], t);
      TimeNotAfterHead(files[1..], t);
      assert files[1] == files[1..][0];
    }
  }

  // ---------------------------------------------------------------------------
  // Photo names
  // ---------------------------------------------------------------------------

  /** `createImageFile`'s name for a photo taken at `timeStamp` (formatted "yyyyMMdd_HHmmss"). */
  function PhotoFileName(timeStamp: string): (name: string)
    ensures |name| == |timeStamp| + 10
  {
    "JPEG_" + timeStamp + "_" + ".jpg"
  }

  /** Every photo the camera saves shows up in the grid. */
  lemma PhotoNameIsImage(timeStamp: string)
    ensures HasImageName(PhotoFileName(timeStamp))
  {
    var name := PhotoFileName(timeStamp);
    var lower := ToLower(name);
    assert name[|name| - 4..] == ".jpg";
    assert lower[|lower| - 4..] == ".jpg";
  }

  /** Different timestamps give different names, so no photo overwrites another. */
  lemma PhotoNameIsInjective(a: string, b: string)
    requires PhotoFileName(a) == PhotoFileName(b)
    ensures a == b
  {
    assert PhotoFileName(a)[5..5 + |a|] == a;
    assert PhotoFileName(b)[5..5 + |b|] == b;
  }
}
