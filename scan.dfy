/** The directory scan of `scan_directory` (run.py lines 41-46). The
    directory listing is given as the sequence of its entries, in the order
    the operating system yields them. */
module Scan {
  import opened Text

  /** One directory entry: its name, its full path and whether it is a
      regular file (`DirEntry.is_file()`). */
  datatype Entry = Entry(name: string, path: string, isFile: bool)

  const SupportedExtensions: set<string> := {".jpg", ".jpeg", ".png", ".webp"}

  /** Index of the last `c` in `s`, or -1 when there is none (`str.rfind`). */
  function LastIndexOf(s: string, c: char): (i: int)
    ensures -1 <= i < |s|
    ensures i >= 0 ==> s[i] == c
    ensures forall k :: i < k < |s| ==> s[k] != c
  {
    if s == [] then -1
    else if s[|s| - 1] == c then |s| - 1
    else LastIndexOf(s[..|s| - 1], c)
  }

  /** `os.path.splitext` on POSIX paths: the extension runs from the last
      dot to the end, provided that dot lies in the last path component and
      is preceded in that component by a character other than a dot;
      otherwise the extension is empty. Root and extension always
      concatenate back to the path. */
  function SplitExt(p: string): (parts: (string, string))
    ensures parts.0 + parts.1 == p
  {
    var sepIndex := LastIndexOf(p, '/');
    var dotIndex := LastIndexOf(p, '.');
    if dotIndex > sepIndex && exists k :: sepIndex < k < dotIndex && p[k] != '.' then
      (p[..dotIndex], p[dotIndex..])
    else
      (p, [])
  }

  /** Index `i` starts an extension of `p`: `p[i]` is a dot, nothing after
      it is a dot or a separator, and some character before it, in the same
      path component, is not a dot. */
  predicate ExtensionStartsAt(p: string, i: int)
  {
    && 0 <= i < |p| && p[i] == '.'
    && (forall k :: i < k < |p| ==> p[k] != '.' && p[k] != '/')
    && exists j :: 0 <= j < i && p[j] != '.' && forall k :: j <= k < i ==> p[k] != '/'
  }

  /** Where an extension starts, `splitext` cuts there. */
  lemma SplitAtExtension(p: string, i: int)
    requires ExtensionStartsAt(p, i)
    ensures SplitExt(p) == (p[..i], p[i..])
  {
    var sepIndex := LastIndexOf(p, '/');
    var dotIndex := LastIndexOf(p, '.');
    assert dotIndex == i;
    var j :| 0 <= j < i && p[j] != '.' && forall k :: j <= k < i ==> p[k] != '/';
    assert sepIndex < j;
  }

  /** Where no index starts an extension, `splitext` gives an empty one. */
  lemma NoExtensionNoCut(p: string)
    requires forall i :: 0 <= i < |p| ==> !ExtensionStartsAt(p, i)
    ensures SplitExt(p) == (p, [])
  {
    var sepIndex := LastIndexOf(p, '/');
    var dotIndex := LastIndexOf(p, '.');
    if dotIndex > sepIndex && exists k :: sepIndex < k < dotIndex && p[k] != '.' {
      var j :| sepIndex < j < dotIndex && p[j] != '.';
      assert forall k :: j <= k < dotIndex ==> p[k] != '/';
      assert ExtensionStartsAt(p, dotIndex);
      assert false;
    }
  }

  /** The test `scan_directory` applies to each entry: a regular file whose
      extension, lower-cased, is supported. Such a name has a non-empty
      extension starting with a dot, so it is never a bare stem. */
  predicate IsSupportedImage(e: Entry)
    ensures IsSupportedImage(e) ==> e.isFile && SplitExt(e.name).1 != [] && SplitExt(e.name).1[0] == '.'
  {
    e.isFile && Lower(SplitExt(e.name).1) in SupportedExtensions
  }

  /** The paths of the supported image files among `entries`, in order. */
  function ImagePaths(entries: seq<Entry>): seq<string>
  {
    if entries == [] then []
    else
      var last := entries[|entries| - 1];
      ImagePaths(entries[..|entries| - 1]) + (if IsSupportedImage(last) then [last.path] else [])
  }

  /** `scan_directory`: walks the listing once and appends the path of each
      supported image file. */
  method ScanDirectory(entries: seq<Entry>) returns (files: seq<string>)
    ensures files == ImagePaths(entries)
  {
    files := [];
    for i := 0 to |entries|
      invariant files == ImagePaths(entries[..i])
    {
      var item := entries[i];
      assert entries[..i + 1][..i] == entries[..i];
      if item.isFile && Lower(SplitExt(item.name).1) in SupportedExtensions {
        files := files + [item.path];
      }
    }
    assert entries[..|entries|] == entries;
  }

  /** Scan order is kept: scanning a listing in two parts and joining the
      results is the same as scanning it whole. */
  lemma {:induction false} ImagePathsOfConcat(a: seq<Entry>, b: seq<Entry>)
    ensures ImagePaths(a + b) == ImagePaths(a) + ImagePaths(b)
    decreases |b|
  {
    if b == [] {
      assert a + b == a;
    } else {
      var b' := b[..|b| - 1];
      assert (a + b)[..|a + b| - 1] == a + b';
      assert (a + b)[|a + b| - 1] == b[|b| - 1];
      ImagePathsOfConcat(a, b');
    }
  }

  /** A path is returned exactly when some entry with that path is a file
      with a supported extension; directories and other extensions are
      never returned. */
  lemma {:induction false} ImagePathsMembers(entries: seq<Entry>, p: string)
    ensures p in ImagePaths(entries) <==>
      exists e :: e in entries && IsSupportedImage(e) && e.path == p
    decreases |entries|
  {
    if entries != [] {
      var init := entries[..|entries| - 1];
      var last := entries[|entries| - 1];
      assert entries == init + [last];
      ImagePathsMembers(init, p);
      ImagePathsOfSnoc(init, last);
      ListedInSnoc(init, last, p);
    }
  }

  lemma ImagePathsOfSnoc(init: seq<Entry>, last: Entry)
    ensures ImagePaths(init + [last]) == ImagePaths(init) + (if IsSupportedImage(last) then [last.path] else [])
  {
    assert (init + [last])[..|init|] == init;
  }

  lemma ListedInSnoc(init: seq<Entry>, last: Entry, p: string)
    ensures (exists e :: e in init + [last] && IsSupportedImage(e) && e.path == p) <==>
      (exists e :: e in init && IsSupportedImage(e) && e.path == p) || (IsSupportedImage(last) && last.path == p)
  {
    assert forall e :: e in init + [last] <==> e in init || e == last;
  }

  /** The extension test ignores letter case, and only regular files are
      kept. */
  lemma UpperCaseExtensionKept()
    ensures IsSupportedImage(Entry("IMG_01.JPG", "d/IMG_01.JPG", true))
    ensures !IsSupportedImage(Entry("IMG_01.JPG", "d/IMG_01.JPG", false))
  {
    ExtensionAtOffset("IMG_01", ".JPG");
    assert "IMG_01" + ".JPG" == "IMG_01.JPG";
    assert Lower(".JPG") == ".jpg";
  }

  /** Only the part after the last dot counts. */
  lemma OnlyLastExtensionCounts()
    ensures !IsSupportedImage(Entry("shot.jpg.txt", "d/shot.jpg.txt", true))
    ensures SplitExt("a.tar.gz") == ("a.tar", ".gz")
  {
    ExtensionAtOffset("shot.jpg", ".txt");
    assert "shot.jpg" + ".txt" == "shot.jpg.txt";
    assert Lower(".txt") == ".txt";
    ExtensionAtOffset("a.tar", ".gz");
    assert "a.tar" + ".gz" == "a.tar.gz";
  }

  /** A name made of a leading dot and a supported suffix, such as ".jpg",
      has no extension, so it is not picked up. */
  lemma DotNameSkipped()
    ensures !IsSupportedImage(Entry(".jpg", "d/.jpg", true))
  {
    var p := ".jpg";
    forall i | 0 <= i < |p| ensures !ExtensionStartsAt(p, i) {
      if i > 0 { assert p[i] != '.'; }
    }
    NoExtensionNoCut(p);
    assert Lower(SplitExt(p).1) == [];
  }

  /** A file named by a stem that does not start with a dot and a
      supported extension in any letter case is picked up, wherever it lies. */
  lemma SupportedExtensionKept(e: Entry, root: string, ext: string)
    requires e.isFile && e.name == root + ext
    requires root != [] && root[0] != '.'
    requires forall k :: 0 <= k < |root| ==> root[k] != '/'
    requires Lower(ext) in SupportedExtensions
    ensures IsSupportedImage(e)
  {
    var lower := Lower(ext);
    assert lower[0] == '.';
    assert forall k :: 0 < k < |lower| ==> 'a' <= lower[k] <= 'z';
    assert ext[0] == '.';
    forall k | 0 < k < |ext| ensures ext[k] != '.' && ext[k] != '/' {
      assert LowerChar(ext[k]) == lower[k];
    }
    ExtensionAtOffset(root, ext);
  }

  lemma ExtensionAtOffset(root: string, ext: string)
    requires root != [] && root[0] != '.'
    requires forall k :: 0 <= k < |root| ==> root[k] != '/'
    requires ext != [] && ext[0] == '.'
    requires forall k :: 0 < k < |ext| ==> ext[k] != '.' && ext[k] != '/'
    ensures SplitExt(root + ext) == (root, ext)
  {
    var p := root + ext;
    assert p[|root|] == '.';
    assert forall k :: |root| < k < |p| ==> p[k] == ext[k - |root|];
    assert p[0] != '.' && forall k :: 0 <= k < |root| ==> p[k] != '/';
    assert ExtensionStartsAt(p, |root|);
    SplitAtExtension(p, |root|);
    assert p[..|root|] == root && p[|root|..] == ext;
  }
}
