/**
 * The content-sync script of scripts/sync.ts: which files it uploads, which remote
 * objects it deletes, the guard that keeps the twelve characters of its dangerous set
 * out of the `wrangler` command lines it runs, and how it reads its arguments.
 *
 * Running a command is a parameter `run` that says whether the command succeeded; the
 * local content directory is a tree of entries.
 */
module Sync {
  import opened Wrappers
  import opened Text

  const Bucket: string := "shimabox-blog-demo"

  /** The characters `DANGEROUS_CHARS` matches. */
  const Dangerous: set<char> := {';', '|', '$', '`', '&', '<', '>', '(', ')', '{', '}', '\\'}

  /** `IGNORE_FILES` */
  const IgnoreFiles: seq<string> := [".DS_Store", "Thumbs.db", ".gitkeep"]

  /** A command runner: true when the command exits successfully. */
  type Runner = string -> bool

  // ---------------------------------------------------------------------------
  // guards

  /** No character of `s` is dangerous. */
  predicate Clean(s: string) {
    forall i :: 0 <= i < |s| ==> s[i] !in Dangerous
  }

  /** `hasDangerousChars(path)` */
  function HasDangerousChars(path: string): (r: bool)
    ensures r <==> exists i :: 0 <= i < |path| && path[i] in Dangerous
    ensures r <==> !Clean(path)
  {
    if |path| == 0 then false
    else if path[0] in Dangerous then true
    else
      var r := HasDangerousChars(path[1..]);
      assert forall i :: 1 <= i < |path| ==> path[i] == path[1..][i - 1];
      r
  }

  /** `shouldIgnore(filename)` */
  function ShouldIgnore(filename: string): (r: bool)
    ensures r <==> filename == ".DS_Store" || filename == "Thumbs.db" || filename == ".gitkeep"
  {
    filename in IgnoreFiles
  }

  /** The fixed parts of the `wrangler` command lines. */
  const Wrangler: string := "npx wrangler r2 object "
  const PutHead: string := Wrangler + "put \"" + Bucket + "/"
  const DeleteHead: string := Wrangler + "delete \"" + Bucket + "/"
  const FileFlag: string := "\" --file=\""
  const RemoteFlag: string := "\" --remote"

  /** The command line `syncFile` runs to upload a file: with both paths free of
      dangerous characters, so is the whole line. */
  function PutLine(localPath: string, remotePath: string): (r: string)
    ensures Clean(localPath) && Clean(remotePath) ==> Clean(r)
  {
    HeadsClean();
    FlagsClean();
    CleanConcat(PutHead, remotePath);
    CleanConcat(PutHead + remotePath, FileFlag);
    CleanConcat(PutHead + remotePath + FileFlag, localPath);
    CleanConcat(PutHead + remotePath + FileFlag + localPath, RemoteFlag);
    PutHead + remotePath + FileFlag + localPath + RemoteFlag
  }

  /** The command line `deleteFile` runs to delete an object: with the path free of
      dangerous characters, so is the whole line. */
  function DeleteLine(remotePath: string): (r: string)
    ensures Clean(remotePath) ==> Clean(r)
  {
    HeadsClean();
    FlagsClean();
    CleanConcat(DeleteHead, remotePath);
    CleanConcat(DeleteHead + remotePath, RemoteFlag);
    DeleteHead + remotePath + RemoteFlag
  }

  /** A string made of strings free of dangerous characters is free of them. */
  lemma CleanConcat(a: string, b: string)
    ensures Clean(a) && Clean(b) ==> Clean(a + b)
  {
    if Clean(a) && Clean(b) {
      forall i | 0 <= i < |a + b| ensures (a + b)[i] !in Dangerous {
        if i >= |a| { assert (a + b)[i] == b[i - |a|]; }
      }
    }
  }

  /** The command templates hold no dangerous character of their own. */
  lemma WranglerClean()
    ensures Clean(Wrangler) && Clean(Bucket)
  {
    forall i | 0 <= i < |Wrangler| ensures Wrangler[i] !in Dangerous {}
    forall i | 0 <= i < |Bucket| ensures Bucket[i] !in Dangerous {}
  }

  lemma HeadsClean()
    ensures Clean(PutHead) && Clean(DeleteHead)
  {
    WranglerClean();
    assert Clean("put \"") && Clean("delete \"") && Clean("/");
    CleanConcat(Wrangler, "put \"");
    CleanConcat(Wrangler + "put \"", Bucket);
    CleanConcat(Wrangler + "put \"" + Bucket, "/");
    CleanConcat(Wrangler, "delete \"");
    CleanConcat(Wrangler + "delete \"", Bucket);
    CleanConcat(Wrangler + "delete \"" + Bucket, "/");
  }

  lemma FlagsClean()
    ensures Clean(FileFlag) && Clean(RemoteFlag)
  {
    forall i | 0 <= i < |FileFlag| ensures FileFlag[i] !in Dangerous {}
    forall i | 0 <= i < |RemoteFlag| ensures RemoteFlag[i] !in Dangerous {}
  }

  /** The command `syncFile` issues: none when the file name is ignored or either path
      holds a dangerous character; otherwise the upload line, which then holds no
      dangerous character at all. */
  function PutCommand(localPath: string, remotePath: string): (c: Option<string>)
    ensures c.None? <==>
      ShouldIgnore(LastSegment(remotePath, '/')) || HasDangerousChars(localPath) || HasDangerousChars(remotePath)
    ensures c.Some? ==> !HasDangerousChars(c.value)
  {
    if ShouldIgnore(LastSegment(remotePath, '/')) then None
    else if HasDangerousChars(localPath) || HasDangerousChars(remotePath) then None
    else Some(PutLine(localPath, remotePath))
  }

  /** The command `deleteFile` issues: none for a path with a dangerous character;
      otherwise the delete line, which then holds no dangerous character. */
  function DeleteCommand(remotePath: string): (c: Option<string>)
    ensures c.None? <==> HasDangerousChars(remotePath)
    ensures c.Some? ==> !HasDangerousChars(c.value)
  {
    if HasDangerousChars(remotePath) then None
    else Some(DeleteLine(remotePath))
  }

  /** `syncFile(localPath, remotePath)`: true when the upload was issued and succeeded.
      Nothing is run for an ignored file name or a path with a dangerous character;
      otherwise the outcome is the upload line's. */
  function SyncFile(localPath: string, remotePath: string, run: Runner): (r: bool)
    ensures r ==> !ShouldIgnore(LastSegment(remotePath, '/')) && Clean(localPath) && Clean(remotePath)
    ensures !ShouldIgnore(LastSegment(remotePath, '/')) && Clean(localPath) && Clean(remotePath) ==>
      r == run(PutLine(localPath, remotePath))
  {
    match PutCommand(localPath, remotePath)
    case None => false
    case Some(line) => run(line)
  }

  /** `deleteFile(remotePath)`: true when the deletion was issued and succeeded. Nothing
      is run for a path with a dangerous character; otherwise the outcome is the delete
      line's. */
  function DeleteFile(remotePath: string, run: Runner): (r: bool)
    ensures r ==> Clean(remotePath)
    ensures Clean(remotePath) ==> r == run(DeleteLine(remotePath))
  {
    match DeleteCommand(remotePath)
    case None => false
    case Some(line) => run(line)
  }

  // ---------------------------------------------------------------------------
  // elapsed time

  /** `formatTime(ms)`: milliseconds below a second, else whole seconds, split into
      minutes and seconds from a minute on (`FormatTimeReadsBack`). */
  function FormatTime(ms: nat): (r: string)
    ensures |r| >= 2
  {
    if ms < 1000 then NatToString(ms) + "ms"
    else
      var seconds := ms / 1000;
      var minutes := seconds / 60;
      if minutes > 0 then NatToString(minutes) + "m " + NatToString(seconds % 60) + "s"
      else NatToString(seconds) + "s"
  }

  /** Reads a duration back from the text `formatTime` prints, in milliseconds. */
  function ReadTime(t: string): Option<nat> {
    if EndsWith(t, "ms") then ReadCount(t[..|t| - 2])
    else if EndsWith(t, "s") then ReadClock(Split(t[..|t| - 1], ' '))
    else None
  }

  /** A non-empty decimal numeral. */
  function ReadCount(d: string): Option<nat> {
    if |d| > 0 && AllDigits(d) then Some(DigitsValue(d)) else None
  }

  /** Seconds, or minutes and seconds, as milliseconds. */
  function ReadClock(parts: seq<string>): Option<nat> {
    if |parts| == 1 then
      match ReadCount(parts[0])
      case Some(s) => Some(s * 1000)
      case None => None
    else if |parts| == 2 && EndsWith(parts[0], "m") then
      match (ReadCount(parts[0][..|parts[0]| - 1]), ReadCount(parts[1]))
      case (Some(m), Some(s)) => Some((m * 60 + s) * 1000)
      case _ => None
    else None
  }

  lemma ReadMillis(d: string)
    requires |d| > 0 && AllDigits(d)
    ensures ReadTime(d + "ms") == Some(DigitsValue(d))
  {
    assert (d + "ms")[..|d + "ms"| - 2] == d;
  }

  /** Text ending in a digit and then `s` is read as seconds or minutes and seconds. */
  lemma ReadSecondsText(body: string)
    requires |body| > 0 && IsDigit(body[|body| - 1])
    ensures ReadTime(body + "s") == ReadClock(Split(body, ' '))
  {
    var t := body + "s";
    assert t[|t| - 2] == body[|body| - 1];
    assert t[|t| - 1..] == "s";
    assert t[..|t| - 1] == body;
  }

  lemma NoSpace(d: string)
    requires AllDigits(d)
    ensures ' ' !in d
  {
    forall i | 0 <= i < |d| ensures d[i] != ' ' { assert IsDigit(d[i]); }
  }

  lemma ReadSeconds(d: string)
    requires |d| > 0 && AllDigits(d)
    ensures ReadTime(d + "s") == Some(DigitsValue(d) * 1000)
  {
    ReadSecondsText(d);
    NoSpace(d);
    SplitNoSeparator(d, ' ');
    assert ReadClock([d]) == Some(DigitsValue(d) * 1000);
  }

  lemma SplitMinutes(m: string, s: string)
    requires AllDigits(m) && AllDigits(s)
    ensures Split(m + "m" + [' '] + s, ' ') == [m + "m", s]
  {
    NoSpace(m);
    NoSpace(s);
    assert ' ' !in m + "m";
    SplitConcat(m + "m", ' ', s);
    SplitNoSeparator(s, ' ');
  }

  lemma ReadClockMinutes(m: string, s: string)
    requires |m| > 0 && AllDigits(m) && |s| > 0 && AllDigits(s)
    ensures ReadClock([m + "m", s]) == Some((DigitsValue(m) * 60 + DigitsValue(s)) * 1000)
  {
    var head := m + "m";
    assert head[..|head| - 1] == m;
    assert EndsWith(head, "m") by { assert head[|head| - 1..] == "m"; }
    assert ReadCount(m) == Some(DigitsValue(m));
    assert ReadCount(s) == Some(DigitsValue(s));
  }

  lemma ReadMinutes(m: string, s: string)
    requires |m| > 0 && AllDigits(m) && |s| > 0 && AllDigits(s)
    ensures ReadTime(m + "m " + s + "s") == Some((DigitsValue(m) * 60 + DigitsValue(s)) * 1000)
  {
    var body := m + "m" + [' '] + s;
    assert m + "m " + s + "s" == body + "s";
    assert ReadTime(body + "s") == ReadClock(Split(body, ' ')) by {
      assert body[|body| - 1] == s[|s| - 1];
      ReadSecondsText(body);
    }
    assert Split(body, ' ') == [m + "m", s] by { SplitMinutes(m, s); }
    ReadClockMinutes(m, s);
  }

  /** The printed time reads back as the exact milliseconds below a second and as the
      elapsed time truncated to whole seconds from a second on; the seconds shown next
      to minutes are below 60. */
  lemma FormatTimeReadsBack(ms: nat)
    ensures ReadTime(FormatTime(ms)) == Some(if ms < 1000 then ms else ms / 1000 * 1000)
    ensures ms >= 60000 ==> EndsWith(FormatTime(ms), NatToString(ms / 1000 % 60) + "s")
  {
    if ms < 1000 {
      MillisReadBack(ms);
    } else if ms < 60000 {
      SecondsReadBack(ms);
    } else {
      MinutesReadBack(ms);
      MinutesShowSeconds(ms);
    }
  }

  lemma MillisReadBack(ms: nat)
    requires ms < 1000
    ensures ReadTime(FormatTime(ms)) == Some(ms)
  {
    assert FormatTime(ms) == NatToString(ms) + "ms";
    ReadMillis(NatToString(ms));
  }

  lemma SecondsReadBack(ms: nat)
    requires 1000 <= ms < 60000
    ensures FormatTime(ms) == NatToString(ms / 1000) + "s"
    ensures ReadTime(FormatTime(ms)) == Some(ms / 1000 * 1000)
  {
    ReadSeconds(NatToString(ms / 1000));
  }

  lemma MinutesReadBack(ms: nat)
    requires ms >= 60000
    ensures ReadTime(FormatTime(ms)) == Some(ms / 1000 * 1000)
  {
    MinutesReadsParts(ms);
    MinutesValue(ms / 1000, ms / 1000 / 60, ms / 1000 % 60);
  }

  lemma MinutesReadsParts(ms: nat)
    requires ms >= 60000
    ensures ReadTime(FormatTime(ms)) == Some((ms / 1000 / 60 * 60 + ms / 1000 % 60) * 1000)
  {
    MinutesText(ms);
    ReadMinutes(NatToString(ms / 1000 / 60), NatToString(ms / 1000 % 60));
  }

  lemma MinutesValue(seconds: nat, m: nat, s: nat)
    requires m == seconds / 60 && s == seconds % 60
    ensures (m * 60 + s) * 1000 == seconds * 1000
  {
  }

  lemma MinutesText(ms: nat)
    requires ms >= 60000
    ensures FormatTime(ms) == NatToString(ms / 1000 / 60) + "m " + NatToString(ms / 1000 % 60) + "s"
  {
  }

  lemma MinutesShowSeconds(ms: nat)
    requires ms >= 60000
    ensures EndsWith(FormatTime(ms), NatToString(ms / 1000 % 60) + "s")
  {
    var seconds := ms / 1000;
    var head := NatToString(seconds / 60) + "m ";
    var tail := NatToString(seconds % 60) + "s";
    assert FormatTime(ms) == head + tail;
    assert (head + tail)[|head + tail| - |tail|..] == tail;
  }

  // ---------------------------------------------------------------------------
  // deletion

  /** The listed objects with no local counterpart, in listing order. */
  function Orphans(remoteObjects: seq<string>, localFiles: set<string>): (r: seq<string>)
    ensures forall p :: p in r <==> p in remoteObjects && p !in localFiles
    ensures |r| <= |remoteObjects|
    decreases |remoteObjects|
  {
    if |remoteObjects| == 0 then []
    else
      var init := remoteObjects[..|remoteObjects| - 1];
      var last := remoteObjects[|remoteObjects| - 1];
      assert forall p :: p in remoteObjects <==> p in init || p == last;
      Orphans(init, localFiles) + (if last in localFiles then [] else [last])
  }

  /** The orphans of two listings in a row are those of the first, then those of the
      second: the filter keeps the listing's order. */
  lemma {:induction false} OrphansAppend(a: seq<string>, b: seq<string>, localFiles: set<string>)
    ensures Orphans(a + b, localFiles) == Orphans(a, localFiles) + Orphans(b, localFiles)
    decreases |b|
  {
    if |b| > 0 {
      assert (a + b)[..|a + b| - 1] == a + b[..|b| - 1];
      OrphansAppend(a, b[..|b| - 1], localFiles);
    } else {
      assert a + b == a;
    }
  }

  /** A single object is an orphan exactly when no local file has its path. */
  lemma OrphansOne(p: string, localFiles: set<string>)
    ensures Orphans([p], localFiles) == if p in localFiles then [] else [p]
  {
    assert [p][..0] == [];
  }

  /** How many of the paths `deleteFile` removes. */
  function Deleted(paths: seq<string>, run: Runner): (n: nat)
    ensures n <= |paths|
    ensures (forall k :: 0 <= k < |paths| ==> HasDangerousChars(paths[k])) ==> n == 0
    decreases |paths|
  {
    if |paths| == 0 then 0
    else Deleted(paths[..|paths| - 1], run) + (if DeleteFile(paths[|paths| - 1], run) then 1 else 0)
  }

  /** `deleteOrphanedFiles()` over a listing of the bucket: a deletion is attempted for
      exactly the orphans, in order, and the count is of those that succeeded. */
  method DeleteOrphanedFiles(remoteObjects: seq<string>, localFiles: set<string>, run: Runner)
    returns (deletedCount: nat, attempted: seq<string>)
    ensures attempted == Orphans(remoteObjects, localFiles)
    ensures deletedCount == Deleted(attempted, run) && deletedCount <= |attempted|
    ensures |remoteObjects| == 0 ==> deletedCount == 0
  {
    attempted := [];
    deletedCount := 0;
    if |remoteObjects| == 0 {
      return;
    }
    for i := 0 to |remoteObjects|
      invariant attempted == Orphans(remoteObjects[..i], localFiles)
      invariant deletedCount == Deleted(attempted, run)
    {
      assert remoteObjects[..i + 1][..i] == remoteObjects[..i];
      var path := remoteObjects[i];
      if path !in localFiles {
        assert (attempted + [path])[..|attempted|] == attempted;
        attempted := attempted + [path];
        if DeleteFile(path, run) {
          deletedCount := deletedCount + 1;
        }
      }
    }
    assert remoteObjects[..|remoteObjects|] == remoteObjects;
  }

  /** `deleteSpecificPaths(paths)` */
  method DeleteSpecificPaths(paths: seq<string>, run: Runner) returns (deletedCount: nat)
    ensures deletedCount == Deleted(paths, run)
  {
    deletedCount := 0;
    for i := 0 to |paths|
      invariant deletedCount == Deleted(paths[..i], run)
    {
      assert paths[..i + 1][..i] == paths[..i];
      if DeleteFile(paths[i], run) {
        deletedCount := deletedCount + 1;
      }
    }
    assert paths[..|paths|] == paths;
  }

  // ---------------------------------------------------------------------------
  // the local content directory

  /** A directory entry under `content/images`. */
  datatype Entry = File(name: string) | Dir(name: string, entries: seq<Entry>)

  /** The keys `collectImagesRecursive` adds for the entries of one directory. */
  function Collected(entries: seq<Entry>, prefix: string): set<string>
    decreases entries
  {
    if |entries| == 0 then {}
    else
      var e := entries[|entries| - 1];
      assert e in entries;
      Collected(entries[..|entries| - 1], prefix) +
      (if ShouldIgnore(e.name) then {}
       else match e
         case File(n) => {prefix + "/" + n}
         case Dir(n, children) => Collected(children, prefix + "/" + n))
  }

  /** Directory entries as `readdirSync` gives them: names without a `/`. */
  predicate WellNamed(entries: seq<Entry>)
    decreases entries
  {
    forall k :: 0 <= k < |entries| ==>
      '/' !in entries[k].name && (entries[k].Dir? ==> WellNamed(entries[k].entries))
  }

  /** `getLocalFiles()`'s view of the content directory; a missing directory is None. */
  datatype Content = Content(posts: Option<seq<string>>, pages: Option<seq<string>>, images: Option<seq<Entry>>)

  function Markdown(names: seq<string>): (r: seq<string>)
    ensures forall n :: n in r <==> n in names && EndsWith(n, ".md")
    decreases |names|
  {
    if |names| == 0 then []
    else
      assert forall n :: n in names <==> n == names[0] || n in names[1..];
      (if EndsWith(names[0], ".md") then [names[0]] else []) + Markdown(names[1..])
  }

  /** The keys of a directory's Markdown files, `dir` ending in `/`. */
  function Prefixed(dir: string, names: Option<seq<string>>): set<string> {
    match names
    case None => {}
    case Some(ns) => set n | n in Markdown(ns) :: dir + n
  }

  function LocalSet(content: Content): set<string> {
    Prefixed("posts/", content.posts) + Prefixed("pages/", content.pages) +
    (match content.images case None => {} case Some(es) => Collected(es, "images"))
  }

  /** The set `getLocalFiles` creates and `collectImagesRecursive` adds to. */
  class LocalFiles {
    var files: set<string>

    constructor()
      ensures files == {}
    {
      files := {};
    }

    /** `collectImagesRecursive(dir, prefix, files)` */
    method CollectImagesRecursive(entries: seq<Entry>, prefix: string)
      modifies this
      ensures files == old(files) + Collected(entries, prefix)
      decreases entries
    {
      for i := 0 to |entries|
        invariant files == old(files) + Collected(entries[..i], prefix)
      {
        assert entries[..i + 1][..i] == entries[..i];
        var e := entries[i];
        if ShouldIgnore(e.name) {
          continue;
        }
        var remotePath := prefix + "/" + e.name;
        match e {
          case Dir(_, children) =>
            assert e in entries;
            CollectImagesRecursive(children, remotePath);
          case File(_) =>
            files := files + {remotePath};
        }
      }
      assert entries[..|entries|] == entries;
    }
  }

  /** `getLocalFiles()` */
  method GetLocalFiles(content: Content) returns (files: set<string>)
    ensures files == LocalSet(content)
  {
    var local := new LocalFiles();
    if content.posts.Some? {
      var names := Markdown(content.posts.value);
      for i := 0 to |names|
        invariant local.files == set n | n in names[..i] :: "posts/" + n
      {
        assert forall n :: n in names[..i + 1] <==> n in names[..i] || n == names[i];
        local.files := local.files + {"posts/" + names[i]};
      }
      assert names[..|names|] == names;
    }
    var soFar := local.files;
    if content.pages.Some? {
      var names := Markdown(content.pages.value);
      for i := 0 to |names|
        invariant local.files == soFar + set n | n in names[..i] :: "pages/" + n
      {
        assert forall n :: n in names[..i + 1] <==> n in names[..i] || n == names[i];
        local.files := local.files + {"pages/" + names[i]};
      }
      assert names[..|names|] == names;
    }
    if content.images.Some? {
      local.CollectImagesRecursive(content.images.value, "images");
    }
    files := local.files;
  }

  /** Every collected key lies under the prefix and names a file that is not ignored. */
  lemma {:induction false} CollectedShape(entries: seq<Entry>, prefix: string, p: string)
    requires WellNamed(entries)
    requires p in Collected(entries, prefix)
    ensures StartsWith(p, prefix + "/")
    ensures !ShouldIgnore(LastSegment(p, '/'))
    decreases entries
  {
    var e := entries[|entries| - 1];
    var init := entries[..|entries| - 1];
    assert WellNamed(init) by {
      forall k | 0 <= k < |init| ensures '/' !in init[k].name && (init[k].Dir? ==> WellNamed(init[k].entries)) {
        assert init[k] == entries[k];
      }
    }
    if p in Collected(init, prefix) {
      CollectedShape(init, prefix, p);
    } else {
      match e
      case File(n) =>
        assert p == (prefix + "/") + n;
        LastSegmentAfter(prefix, n);
      case Dir(n, children) =>
        assert e in entries;
        CollectedShape(children, prefix + "/" + n, p);
        assert StartsWith(prefix + "/" + n + "/", prefix + "/");
    }
  }

  /** The last segment of `prefix/name` is `name` when the name has no `/`. */
  lemma LastSegmentAfter(prefix: string, name: string)
    requires '/' !in name
    ensures LastSegment(prefix + "/" + name, '/') == name
  {
    LastSegmentPast(prefix, '/', name);
  }

  /** Every non-ignored file at any depth is collected: files at the top, and the
      files of every non-ignored directory under its own prefix. */
  lemma {:induction false} CollectedFinds(entries: seq<Entry>, prefix: string, k: nat)
    requires k < |entries| && !ShouldIgnore(entries[k].name)
    ensures entries[k].File? ==> prefix + "/" + entries[k].name in Collected(entries, prefix)
    ensures entries[k].Dir? ==>
      Collected(entries[k].entries, prefix + "/" + entries[k].name) <= Collected(entries, prefix)
    decreases |entries|
  {
    if k < |entries| - 1 {
      var init := entries[..|entries| - 1];
      assert init[k] == entries[k];
      CollectedFinds(init, prefix, k);
    }
  }

  // ---------------------------------------------------------------------------
  // uploading

  /** How many files `syncImagesRecursive(dir, prefix)` uploads: every file at any
      depth is offered to `syncFile` with its local path under `dir` and its remote
      path under `prefix`, and `syncFile` skips dangerous names. The local path is
      `dir` joined with the entry's name by `/`. */
  function Synced(entries: seq<Entry>, dir: string, prefix: string, run: Runner): (r: nat)
    ensures r <= FileCount(entries)
    decreases entries
  {
    if |entries| == 0 then 0
    else
      var e := entries[|entries| - 1];
      assert e in entries;
      Synced(entries[..|entries| - 1], dir, prefix, run) +
      (match e
       case File(n) => if SyncFile(dir + "/" + n, prefix + "/" + n, run) then 1 else 0
       case Dir(n, children) => Synced(children, dir + "/" + n, prefix + "/" + n, run))
  }

  /** The number of files in a tree. */
  function FileCount(entries: seq<Entry>): nat
    decreases entries
  {
    if |entries| == 0 then 0
    else
      var e := entries[|entries| - 1];
      assert e in entries;
      FileCount(entries[..|entries| - 1]) +
      (match e case File(_) => 1 case Dir(_, children) => FileCount(children))
  }

  /** `syncImagesRecursive(dir, prefix)`: walks the local tree under `dir`, uploading
      each file to the same relative place under `prefix`. */
  method SyncImagesRecursive(entries: seq<Entry>, dir: string, prefix: string, run: Runner)
    returns (count: nat)
    ensures count == Synced(entries, dir, prefix, run)
    decreases entries
  {
    count := 0;
    for i := 0 to |entries|
      invariant count == Synced(entries[..i], dir, prefix, run)
    {
      assert entries[..i + 1][..i] == entries[..i];
      var e := entries[i];
      var fullPath := dir + "/" + e.name;
      var remotePath := prefix + "/" + e.name;
      match e {
        case Dir(_, children) =>
          assert e in entries;
          var sub := SyncImagesRecursive(children, fullPath, remotePath, run);
          count := count + sub;
        case File(_) =>
          if SyncFile(fullPath, remotePath, run) {
            count := count + 1;
          }
      }
    }
    assert entries[..|entries|] == entries;
  }

  // ---------------------------------------------------------------------------
  // arguments

  datatype Args = Args(shouldDelete: bool, deletePaths: seq<string>, targetSlug: Option<string>)

  /** `args.indexOf(x)` */
  function IndexIn(args: seq<string>, x: string): (r: Option<nat>)
    ensures r.Some? ==> r.value < |args| && args[r.value] == x && x !in args[..r.value]
    ensures r.None? ==> x !in args
    decreases |args|
  {
    if |args| == 0 then None
    else if args[0] == x then Some(0)
    else
      match IndexIn(args[1..], x)
      case None => None
      case Some(i) =>
        assert args[..i + 1] == [args[0]] + args[1..][..i];
        Some(i + 1)
  }

  /** Where `args.find((arg) => !arg.startsWith("-"))` finds its argument. */
  function FirstOperand(args: seq<string>): (r: Option<nat>)
    ensures r.Some? ==> r.value < |args| && !StartsWith(args[r.value], "-")
    ensures r.Some? ==> forall j :: 0 <= j < r.value ==> StartsWith(args[j], "-")
    ensures r.None? ==> forall k :: 0 <= k < |args| ==> StartsWith(args[k], "-")
    decreases |args|
  {
    if |args| == 0 then None
    else if !StartsWith(args[0], "-") then Some(0)
    else
      assert forall k :: 1 <= k < |args| ==> args[k] == args[1..][k - 1];
      match FirstOperand(args[1..])
      case None => None
      case Some(k) => Some(k + 1)
  }

  /** The command-line options: `--delete`, the paths after the first `--delete-paths`,
      and the first argument that is not an option. */
  function ParseArgs(args: seq<string>): (r: Args)
    ensures r.shouldDelete <==> "--delete" in args
    ensures r.targetSlug.Some? ==> !StartsWith(r.targetSlug.value, "-")
    ensures r.targetSlug.None? <==> forall k :: 0 <= k < |args| ==> StartsWith(args[k], "-")
    ensures "--delete-paths" !in args ==> r.deletePaths == []
    ensures "--delete-paths" in args ==>
      exists i :: 0 <= i < |args| && args[i] == "--delete-paths" && "--delete-paths" !in args[..i] &&
        r.deletePaths == args[i + 1..]
  {
    var deletePaths := match IndexIn(args, "--delete-paths") case None => [] case Some(i) => args[i + 1..];
    var targetSlug := match FirstOperand(args) case None => None case Some(k) => Some(args[k]);
    Args("--delete" in args, deletePaths, targetSlug)
  }

  /** What `main` does. */
  datatype Plan = DeleteOnly(paths: seq<string>) | SyncSlug(slug: string, deleteOrphans: bool)
                | SyncAll(deleteOrphans: bool)

  /** `main()`: a non-empty list of paths to delete is all it does; otherwise it syncs
      one slug when a non-empty operand is given, else everything, and then deletes
      orphans when asked to. */
  function PlanOf(args: seq<string>): (p: Plan)
    ensures ParseArgs(args).deletePaths != [] <==> p.DeleteOnly?
    ensures p.DeleteOnly? ==> p.paths == ParseArgs(args).deletePaths
    ensures p.SyncSlug? ==> p.slug != "" && ParseArgs(args).targetSlug == Some(p.slug)
    ensures !p.DeleteOnly? ==> p.deleteOrphans == ("--delete" in args)
  {
    var a := ParseArgs(args);
    if |a.deletePaths| > 0 then DeleteOnly(a.deletePaths)
    else match a.targetSlug
      case Some(slug) => if slug != "" then SyncSlug(slug, a.shouldDelete) else SyncAll(a.shouldDelete)
      case None => SyncAll(a.shouldDelete)
  }

  /** With `--delete-paths` followed by a path, nothing is uploaded, whatever else
      the arguments say. */
  lemma DeletePathsEndsMain(args: seq<string>, i: nat)
    requires i + 1 < |args| && args[i] == "--delete-paths"
    ensures PlanOf(args).DeleteOnly?
  {
    var j := IndexIn(args, "--delete-paths");
    assert j.Some?;
    assert j.value <= i;
  }
}
