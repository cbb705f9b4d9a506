/**
 The image collector `get_images` (main.py): over the directories that a
 recursive walk yields, keep every file whose lower-cased name ends with
 `png`, `jpg` or `jpeg` and join it to its directory.

 The walk itself is file-system I/O: here it is a given sequence of
 directory entries, in the order the walk produced them. Lower-casing is
 modelled for the ASCII letters only.
 */
module ImageFiles {

  /** One triple `(root, dirs, files)` of the walk. */
  datatype DirEntry = DirEntry(root: string, dirs: seq<string>, files: seq<string>)

  /** The suffixes `get_images` accepts. They carry no leading dot. */
  const ImageSuffixes: seq<string> := ["png", "jpg", "jpeg"]

  predicate IsUpper(c: char)
  {
    'A' <= c <= 'Z'
  }

  /** `str.lower` on one character. */
  function LowerChar(c: char): (l: char)
    ensures !IsUpper(l)
    ensures IsUpper(c) ==> l as int == c as int + 32
    ensures !IsUpper(c) ==> l == c
  {
    if IsUpper(c) then (c as int + 32) as char else c
  }

  /** `str.lower` on a name. */
  function Lower(s: string): (r: string)
  {
    seq(|s|, i requires 0 <= i < |s| => LowerChar(s[i]))
  }

  /** `str.endswith` with one suffix. */
  predicate EndsWith(s: string, suffix: string)
  {
    |suffix| <= |s| && s[|s| - |suffix|..] == suffix
  }

  /** `str.endswith` with a tuple of suffixes: any one of them. */
  predicate EndsWithAny(s: string, suffixes: seq<string>)
  {
    |suffixes| > 0 && (EndsWith(s, suffixes[0]) || EndsWithAny(s, suffixes[1..]))
  }

  /** The test `file.lower().endswith(('png', 'jpg', 'jpeg'))`. */
  predicate IsImageName(name: string)
  {
    EndsWithAny(Lower(name), ImageSuffixes)
  }

  /** The names that pass the test, in their original order. */
  function Filter(names: seq<string>): (kept: seq<string>)
    ensures |kept| <= |names|
    ensures forall k :: 0 <= k < |kept| ==> IsImageName(kept[k])
  {
    if names == [] then []
    else
      var init := Filter(names[..|names| - 1]);
      var last := names[|names| - 1];
      if IsImageName(last) then init + [last] else init
  }

  /** `os.path.join(root, name)` as the POSIX path module computes it. */
  function Join(root: string, name: string): (path: string)
    ensures name != [] && name[0] == '/' ==> path == name
    ensures EndsWith(path, name)
  {
    if name != [] && name[0] == '/' then name
    else if root == [] || root[|root| - 1] == '/' then root + name
    else root + "/" + name
  }

  function JoinAll(root: string, names: seq<string>): (paths: seq<string>)
    ensures |paths| == |names|
  {
    seq(|names|, i requires 0 <= i < |names| => Join(root, names[i]))
  }

  /** What `get_images` returns for a walk: directory by directory, the kept
      files joined to their directory. */
  function Collected(walk: seq<DirEntry>): (paths: seq<string>)
  {
    if walk == [] then []
    else
      var d := walk[|walk| - 1];
      Collected(walk[..|walk| - 1]) + JoinAll(d.root, Filter(d.files))
  }

  /** The outer loop of `get_images`: over the directories of the walk. */
  method GetImages(walk: seq<DirEntry>) returns (images: seq<string>)
    ensures images == Collected(walk)
  {
    images := [];
    var d := 0;
    while d < |walk|
      invariant 0 <= d <= |walk|
      invariant images == Collected(walk[..d])
    {
      var found := KeepImages(walk[d].root, walk[d].files);
      DirStep(walk, d);
      images := images + found;
      d := d + 1;
    }
    assert walk[..d] == walk;
  }

  /** The inner loop of `get_images`: over the files of one directory,
      appending each image file joined to the directory. */
  method KeepImages(root: string, files: seq<string>) returns (paths: seq<string>)
    ensures paths == JoinAll(root, Filter(files))
  {
    paths := [];
    var f := 0;
    while f < |files|
      invariant 0 <= f <= |files|
      invariant paths == JoinAll(root, Filter(files[..f]))
    {
      var file := files[f];
      FileStep(root, files, f);
      if IsImageName(file) {
        paths := paths + [Join(root, file)];
      }
      f := f + 1;
    }
    assert files[..f] == files;
  }

  /** One turn of the inner loop. */
  lemma FileStep(root: string, files: seq<string>, f: nat)
    requires f < |files|
    ensures JoinAll(root, Filter(files[..f + 1])) ==
      JoinAll(root, Filter(files[..f])) + if IsImageName(files[f]) then [Join(root, files[f])] else []
  {
    assert files[..f + 1] == files[..f] + [files[f]];
    FilterSnoc(files[..f], files[f]);
    if IsImageName(files[f]) {
      JoinAllSnoc(root, Filter(files[..f]), files[f]);
    }
  }

  /** One turn of the outer loop. */
  lemma DirStep(walk: seq<DirEntry>, d: nat)
    requires d < |walk|
    ensures Collected(walk[..d + 1]) == Collected(walk[..d]) + JoinAll(walk[d].root, Filter(walk[d].files))
  {
    assert walk[..d + 1][..d] == walk[..d];
  }

  lemma FilterSnoc(names: seq<string>, x: string)
    ensures Filter(names + [x]) == if IsImageName(x) then Filter(names) + [x] else Filter(names)
  {
    assert (names + [x])[..|names|] == names;
  }

  lemma JoinAllSnoc(root: string, names: seq<string>, x: string)
    ensures JoinAll(root, names + [x]) == JoinAll(root, names) + [Join(root, x)]
  {
  }

  // ---------------------------------------------------------------------------
  // Properties of the filter

  /** Filtering distributes over concatenation, so relative order is kept. */
  lemma {:induction false} FilterAppend(a: seq<string>, b: seq<string>)
    ensures Filter(a + b) == Filter(a) + Filter(b)
  {
    if b == [] {
      assert a + b == a;
    } else {
      var b' := b[..|b| - 1];
      assert (a + b)[..|a + b| - 1] == a + b';
      FilterAppend(a, b');
    }
  }

  /** A single name is kept exactly when it passes the test. */
  lemma FilterOne(name: string)
    ensures Filter([name]) == if IsImageName(name) then [name] else []
  {
    assert [name][..0] == [];
  }

  /** Each name occurs in the result exactly as often as in the input if it
      passes the test, and not at all otherwise. */
  lemma {:induction false} FilterCount(names: seq<string>, x: string)
    ensures multiset(Filter(names))[x] == if IsImageName(x) then multiset(names)[x] else 0
  {
    if names != [] {
      var init := names[..|names| - 1];
      var last := names[|names| - 1];
      assert names == init + [last];
      FilterCount(init, x);
    }
  }

  /** A name is in the result if and only if it is in the input and passes the test. */
  lemma FilterMembership(names: seq<string>, x: string)
    ensures x in Filter(names) <==> x in names && IsImageName(x)
  {
    FilterCount(names, x);
    assert x in Filter(names) <==> multiset(Filter(names))[x] > 0;
    assert x in names <==> multiset(names)[x] > 0;
  }

  /** Filtering what was already filtered changes nothing. */
  lemma {:induction false} FilterIdempotent(names: seq<string>)
    ensures Filter(Filter(names)) == Filter(names)
  {
    if names != [] {
      var init := names[..|names| - 1];
      var last := names[|names| - 1];
      FilterIdempotent(init);
      if IsImageName(last) {
        FilterAppend(Filter(init), [last]);
        FilterOne(last);
      }
    }
  }

  /** Lower-casing is idempotent, so the test is case-insensitive. */
  lemma LowerIdempotent(s: string)
    ensures Lower(Lower(s)) == Lower(s)
    ensures IsImageName(Lower(s)) <==> IsImageName(s)
  {
  }

  /** Lower-casing works character by character. */
  lemma LowerAppend(a: string, b: string)
    ensures Lower(a + b) == Lower(a) + Lower(b)
  {
  }

  /** `EndsWithAny` holds exactly when one of the suffixes ends the string. */
  lemma {:induction false} EndsWithAnyMeans(s: string, suffixes: seq<string>)
    ensures EndsWithAny(s, suffixes) <==> exists k :: 0 <= k < |suffixes| && EndsWith(s, suffixes[k])
  {
    if |suffixes| > 0 {
      EndsWithAnyMeans(s, suffixes[1..]);
      assert forall k :: 1 <= k < |suffixes| ==> suffixes[1..][k - 1] == suffixes[k];
    }
  }

  lemma {:induction false} EndsWithAnyAppend(a: string, b: string, suffixes: seq<string>)
    requires EndsWithAny(b, suffixes)
    ensures EndsWithAny(a + b, suffixes)
  {
    if EndsWith(b, suffixes[0]) {
      var s := suffixes[0];
      assert (a + b)[|a + b| - |s|..] == b[|b| - |s|..];
    } else {
      EndsWithAnyAppend(a, b, suffixes[1..]);
    }
  }

  /** Only the end of a name matters: whatever precedes an image name, the
      result is an image name, so `xpng` passes as `a.png` does. */
  lemma PrefixIrrelevant(prefix: string, name: string)
    requires IsImageName(name)
    ensures IsImageName(prefix + name)
  {
    LowerAppend(prefix, name);
    EndsWithAnyAppend(Lower(prefix), Lower(name), ImageSuffixes);
  }

  /** A name whose lower-cased form ends with suffix `k` passes the test. */
  lemma PassesBySuffix(name: string, k: nat)
    requires k < |ImageSuffixes| && EndsWith(Lower(name), ImageSuffixes[k])
    ensures IsImageName(name)
  {
    EndsWithAnyMeans(Lower(name), ImageSuffixes);
  }

  /** Upper case does not hide an image: `a.PNG` is kept. */
  lemma UpperCaseKept()
    ensures IsImageName("a.PNG")
  {
    assert Lower("a.PNG") == "a.png";
    PassesBySuffix("a.PNG", 0);
  }

  /** `photo.JPEG` is kept through the four-letter suffix. */
  lemma JpegKept()
    ensures IsImageName("photo.JPEG")
  {
    assert Lower("photo.JPEG") == "photo.jpeg";
    PassesBySuffix("photo.JPEG", 2);
  }

  /** The suffixes have no dot, so `xpng` is kept too. */
  lemma NoDotKept()
    ensures IsImageName("xpng")
  {
    assert Lower("xpng") == "xpng";
    PassesBySuffix("xpng", 0);
  }

  /** `a.gif` and `png.txt` are dropped. */
  lemma OthersDropped()
    ensures !IsImageName("a.gif")
    ensures !IsImageName("png.txt")
  {
    assert Lower("a.gif") == "a.gif";
    assert Lower("png.txt") == "png.txt";
    assert ImageSuffixes == ["png", "jpg", "jpeg"];
  }

  // ---------------------------------------------------------------------------
  // Properties of the collected paths

  /** `p` is a passing file of directory `e`, joined to the directory. */
  ghost predicate FromDir(e: DirEntry, p: string)
  {
    exists f :: 0 <= f < |e.files| && IsImageName(e.files[f]) && p == Join(e.root, e.files[f])
  }

  /** The paths one directory contributes are exactly its passing files, joined. */
  lemma DirMembership(e: DirEntry, p: string)
    ensures p in JoinAll(e.root, Filter(e.files)) <==> FromDir(e, p)
  {
    var kept := Filter(e.files);
    var joined := JoinAll(e.root, kept);
    if p in joined {
      var k :| 0 <= k < |joined| && joined[k] == p;
      FilterMembership(e.files, kept[k]);
      var f :| 0 <= f < |e.files| && e.files[f] == kept[k];
      assert IsImageName(e.files[f]) && p == Join(e.root, e.files[f]);
    }
    if FromDir(e, p) {
      var f :| 0 <= f < |e.files| && IsImageName(e.files[f]) && p == Join(e.root, e.files[f]);
      FilterMembership(e.files, e.files[f]);
      var k :| 0 <= k < |kept| && kept[k] == e.files[f];
      assert joined[k] == p;
    }
  }

  /** A path is collected if and only if it is a passing file of some
      directory of the walk, joined to that directory. */
  lemma {:induction false} CollectedMembership(walk: seq<DirEntry>, p: string)
    ensures p in Collected(walk) <==> exists d :: 0 <= d < |walk| && FromDir(walk[d], p)
  {
    if walk != [] {
      var init := walk[..|walk| - 1];
      var e := walk[|walk| - 1];
      CollectedMembership(init, p);
      DirMembership(e, p);
      assert forall d :: 0 <= d < |init| ==> init[d] == walk[d];
    }
  }
}
