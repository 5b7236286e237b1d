/** `backup.py`: a zip archive of the database and the log files under `backups/`, and the
    restore that extracts such an archive into `data/` and puts the database back in place.
    The file system is a map from absolute, normalised paths to file contents; directories are
    implicit. */
module Backup {
  import opened Text
  import opened Clock

  /** An absolute, normalised POSIX path, as its list of components below `/`. */
  type Path = seq<string>

  /** A file's content: raw bytes, or a zip archive read as its list of members. */
  datatype FileContent = Bytes(data: seq<byte>) | ZipArchive(entries: seq<Entry>)
  datatype Entry = Entry(name: string, content: FileContent)

  /** What the two procedures print, in order. */
  datatype Notice =
    | LogSkipped(logFile: string)
    | BackupCreated(backupPath: string)
    | MoveRetry
    | DatabaseMoveFailed
    | DatabaseInPlace
    | LogInPlace(fileName: string)
    | BackupRestored
    | Restarting
    | BackupNotFound

  /** How `restore_database_from_backup` ends: nothing to restore, an exception from the zip
      library (the name is a directory, the file is not a zip file, or a member has no usable
      name), or the restart of the program. */
  datatype RestoreOutcome = NotFound | IsADirectory | NotAnArchive | ExtractFailed | Restart

  const BackupDir := "backups"
  const DataDir := "data"
  const LogNames: seq<string> := ["logs.csv", "encrypted_logs.csv", "system.log"]
  /** "data/logs.csv", "data/encrypted_logs.csv", "data/system.log". */
  const LogFiles: seq<string> := [DataDir + "/" + LogNames[0], DataDir + "/" + LogNames[1], DataDir + "/" + LogNames[2]]
  const MoveAttempts := 3

  /** `p.split('/')`. */
  function Split(p: string): (r: seq<string>)
    ensures |r| >= 1 && forall i :: 0 <= i < |r| ==> '/' !in r[i]
  {
    if p == [] then [""]
    else
      var rest := Split(p[1..]);
      if p[0] == '/' then [""] + rest
      else [[p[0]] + rest[0]] + rest[1..]
  }

  /** Splitting on '/' loses nothing: joining the parts with '/' gives the path back. */
  lemma {:induction false} JoinSplit(p: string)
    ensures Join("/", Split(p)) == p
  {
    if p != [] {
      JoinSplit(p[1..]);
      var rest := Split(p[1..]);
      if p[0] == '/' {
        assert Join("/", [""] + rest) == "" + "/" + Join("/", rest) by {
          assert ([""] + rest)[1..] == rest;
        }
        assert p == "/" + p[1..];
      } else if |rest| == 1 {
        assert p == [p[0]] + p[1..];
      } else {
        var parts := [[p[0]] + rest[0]] + rest[1..];
        assert parts[1..] == rest[1..];
        assert Join("/", parts) == [p[0]] + (rest[0] + "/" + Join("/", rest[1..]));
        assert p == [p[0]] + p[1..];
      }
    }
  }

  lemma {:induction false} SplitNoSlash(s: string)
    requires '/' !in s
    ensures Split(s) == [s]
  {
    if s != [] {
      SplitNoSlash(s[1..]);
      assert s == [s[0]] + s[1..];
    }
  }

  lemma {:induction false} SplitConcat(a: string, b: string)
    ensures Split(a + "/" + b) == Split(a) + Split(b)
  {
    if a == [] {
      assert a + "/" + b == "/" + b;
      assert ("/" + b)[1..] == b;
    } else {
      var p := a + "/" + b;
      assert p[0] == a[0] && p[1..] == a[1..] + "/" + b;
      SplitConcat(a[1..], b);
    }
  }

  /** `os.path.basename(p)`: the text after the last '/'. */
  function Basename(p: string): (r: string)
    ensures '/' !in r
  {
    var parts := Split(p);
    parts[|parts| - 1]
  }

  lemma BasenameOfChild(dir: string, name: string)
    requires '/' !in name
    ensures Basename(dir + "/" + name) == name
  {
    SplitConcat(dir, name);
    SplitNoSlash(name);
  }

  /** `os.path.join(a, b)` for two arguments. */
  function PathJoin(a: string, b: string): (r: string)
    ensures |b| > 0 && b[0] == '/' ==> r == b
  {
    if |b| > 0 && b[0] == '/' then b
    else if a == [] || a[|a| - 1] == '/' then a + b
    else a + "/" + b
  }

  /** A path component that names something: not empty, not "." or "..", no separator. */
  predicate IsName(s: string)
  {
    s != "" && s != "." && s != ".." && '/' !in s
  }

  ghost predicate Canonical(p: Path)
  {
    forall i :: 0 <= i < |p| ==> IsName(p[i])
  }

  /** One component of `os.path.normpath`: "" and "." stay put, ".." goes up (not above `/`). */
  function Step(dir: Path, part: string): (r: Path)
    requires '/' !in part
    ensures Canonical(dir) ==> Canonical(r)
    ensures IsName(part) ==> r == dir + [part]
  {
    if part == "" || part == "." then dir
    else if part == ".." then (if dir == [] then [] else dir[..|dir| - 1])
    else dir + [part]
  }

  function Resolve(dir: Path, parts: seq<string>): (r: Path)
    requires forall i :: 0 <= i < |parts| ==> '/' !in parts[i]
    ensures Canonical(dir) ==> Canonical(r)
    decreases parts
  {
    if parts == [] then dir else Resolve(Step(dir, parts[0]), parts[1..])
  }

  /** `os.path.abspath(p)` in the working directory `cwd`. */
  function Abspath(cwd: Path, p: string): (r: Path)
    ensures Canonical(cwd) ==> Canonical(r)
  {
    Resolve(if |p| > 0 && p[0] == '/' then [] else cwd, Split(p))
  }

  lemma {:induction false} ResolveEndsWith(dir: Path, parts: seq<string>)
    requires forall i :: 0 <= i < |parts| ==> '/' !in parts[i]
    requires |parts| >= 1 && IsName(parts[|parts| - 1])
    ensures var r := Resolve(dir, parts); |r| >= 1 && r[|r| - 1] == parts[|parts| - 1]
    decreases parts
  {
    if |parts| > 1 {
      ResolveEndsWith(Step(dir, parts[0]), parts[1..]);
    }
  }

  /** A path whose base name is a real name resolves to a path ending in that name. */
  lemma AbspathEndsWithBasename(cwd: Path, p: string)
    requires IsName(Basename(p))
    ensures var r := Abspath(cwd, p); |r| >= 1 && r[|r| - 1] == Basename(p)
  {
    ResolveEndsWith(if |p| > 0 && p[0] == '/' then [] else cwd, Split(p));
  }

  /** A relative path "d/n" of two names resolves to cwd/d/n. */
  lemma AbspathOfChild(cwd: Path, d: string, n: string)
    requires IsName(d) && IsName(n)
    ensures Abspath(cwd, d) == cwd + [d]
    ensures Abspath(cwd, d + "/" + n) == cwd + [d, n]
  {
    SplitNoSlash(d);
    SplitNoSlash(n);
    SplitConcat(d, n);
    assert d[0] in d && (d + "/" + n)[0] == d[0];
    assert Resolve(cwd, [d]) == Resolve(cwd + [d], []);
    assert Split(d + "/" + n) == [d, n];
    assert Resolve(cwd + [d], [n]) == Resolve(cwd + [d] + [n], []);
  }

  /** `datetime.now().strftime('%Y%m%d_%H%M%S')` appended to the database's base name. */
  function BackupFileName(databasePath: string, now: DateTime): (r: string)
    ensures IsName(r)
  {
    Basename(databasePath) + "_" + ArchiveStamp(now) + ".zip"
  }

  /** Two backups of one database taken at different seconds never share a file name. */
  lemma BackupNamesDistinct(databasePath: string, t: DateTime, u: DateTime)
    requires t.Valid() && u.Valid() && t != u
    ensures BackupFileName(databasePath, t) != BackupFileName(databasePath, u)
  {
    var b := Basename(databasePath);
    var x, y := BackupFileName(databasePath, t), BackupFileName(databasePath, u);
    if x == y {
      assert x[|b| + 1..|b| + 16] == ArchiveStamp(t);
      assert y[|b| + 1..|b| + 16] == ArchiveStamp(u);
      ArchiveStampInjective(t, u);
    }
  }

  /** The zip members `backup_database_and_logs` adds for the log files that exist, in list order,
      each under its base name. */
  function ArchivedLogs(cwd: Path, m: map<Path, FileContent>, logs: seq<string>): (r: seq<Entry>)
    ensures |r| <= |logs|
  {
    if logs == [] then []
    else
      var init := ArchivedLogs(cwd, m, logs[..|logs| - 1]);
      var log := logs[|logs| - 1];
      if Abspath(cwd, log) in m then init + [Entry(Basename(log), m[Abspath(cwd, log)])] else init
  }

  /** A log file is archived exactly when it exists, under its base name and with its content. */
  lemma {:induction false} ArchivedLogsExactly(cwd: Path, m: map<Path, FileContent>, logs: seq<string>, e: Entry)
    ensures e in ArchivedLogs(cwd, m, logs) <==>
            exists i :: 0 <= i < |logs| && Abspath(cwd, logs[i]) in m &&
                        e == Entry(Basename(logs[i]), m[Abspath(cwd, logs[i])])
  {
    if logs != [] {
      var init := logs[..|logs| - 1];
      ArchivedLogsExactly(cwd, m, init, e);
      assert forall i :: 0 <= i < |init| ==> init[i] == logs[i];
    }
  }

  /** The "not found, skipping" notices of that loop: one per missing log file, in list order. */
  function SkippedLogs(cwd: Path, m: map<Path, FileContent>, logs: seq<string>): (r: seq<Notice>)
    ensures |r| <= |logs|
  {
    if logs == [] then []
    else
      var init := SkippedLogs(cwd, m, logs[..|logs| - 1]);
      var log := logs[|logs| - 1];
      if Abspath(cwd, log) in m then init else init + [LogSkipped(log)]
  }

  lemma {:induction false} SkippedLogsExactly(cwd: Path, m: map<Path, FileContent>, logs: seq<string>, log: string)
    ensures LogSkipped(log) in SkippedLogs(cwd, m, logs) <==> log in logs && Abspath(cwd, log) !in m
  {
    if logs != [] {
      var init := logs[..|logs| - 1];
      SkippedLogsExactly(cwd, m, init, log);
      assert logs == init + [logs[|logs| - 1]];
    }
  }

  /** The zip library's sanitising of a member name: drop empty, "." and ".." components. */
  function Names(parts: seq<string>): (r: seq<string>)
    ensures |r| <= |parts|
    ensures forall i :: 0 <= i < |parts| && '/' !in parts[i] && IsName(parts[i]) ==> parts[i] in r
    ensures forall i :: 0 <= i < |r| ==> r[i] in parts && (r[i] != "" && r[i] != "." && r[i] != "..")
  {
    if parts == [] then []
    else (if parts[0] == "" || parts[0] == "." || parts[0] == ".." then [] else [parts[0]]) + Names(parts[1..])
  }

  /** Extract one member into `dir`: a name ending in '/' is a directory (nothing to write); a name
      with no usable component is an error; otherwise the file is (over)written. */
  function ExtractOne(m: map<Path, FileContent>, dir: Path, e: Entry): (map<Path, FileContent>, bool)
  {
    if |e.name| > 0 && e.name[|e.name| - 1] == '/' then (m, true)
    else
      var rel := Names(Split(e.name));
      if rel == [] then (m, false) else (m[dir + rel := e.content], true)
  }

  /** `ZipFile.extractall(dir)`: the members in archive order, stopping at the first error. */
  function ExtractAll(m: map<Path, FileContent>, dir: Path, entries: seq<Entry>): (r: (map<Path, FileContent>, bool))
    decreases entries
  {
    if entries == [] then (m, true)
    else
      var (m1, ok) := ExtractOne(m, dir, entries[0]);
      if !ok then (m1, false) else ExtractAll(m1, dir, entries[1..])
  }

  /** Extraction never writes outside `dir`, whatever the member names are: every file not below
      `dir` is left as it was. */
  lemma {:induction false} ExtractStaysInside(m: map<Path, FileContent>, dir: Path, entries: seq<Entry>, p: Path)
    requires !(|p| > |dir| && p[..|dir|] == dir)
    ensures var m' := ExtractAll(m, dir, entries).0;
            (p in m' <==> p in m) && (p in m ==> m'[p] == m[p])
    decreases entries
  {
    if entries != [] {
      var (m1, ok) := ExtractOne(m, dir, entries[0]);
      var rel := Names(Split(entries[0].name));
      if rel != [] {
        assert (dir + rel)[..|dir|] == dir;
      }
      if ok {
        ExtractStaysInside(m1, dir, entries[1..], p);
      }
    }
  }

  /** Members with plain names extract without error, each to dir/name, and leave every other
      path as it was. */
  lemma {:induction false} ExtractPlainNames(m: map<Path, FileContent>, dir: Path, entries: seq<Entry>, p: Path)
    requires forall i :: 0 <= i < |entries| ==> IsName(entries[i].name)
    requires forall i :: 0 <= i < |entries| ==> p != dir + [entries[i].name]
    ensures var (m', ok) := ExtractAll(m, dir, entries);
            ok && (p in m' <==> p in m) && (p in m ==> m'[p] == m[p])
    decreases entries
  {
    if entries != [] {
      var n := entries[0].name;
      SplitNoSlash(n);
      assert Names([n]) == [n];
      ExtractPlainNames(m[dir + [n] := entries[0].content], dir, entries[1..], p);
    }
  }

  /** `shutil.move(src, dst)` when `src` exists: `dst` is replaced by `src`'s content. */
  function Relocated(m: map<Path, FileContent>, src: Path, dst: Path): (r: map<Path, FileContent>)
    requires src in m
    ensures dst in r && r[dst] == m[src]
    ensures src != dst ==> src !in r
    ensures forall p :: p != src && p != dst ==> (p in r <==> p in m) && (p in m ==> r[p] == m[p])
  {
    (m - {src})[dst := m[src]]
  }

  /** The attempt, among the three, whose move is not refused (3 if every one is refused). */
  function FirstAllowed(denied: nat -> bool): (k: nat)
    ensures k <= MoveAttempts
    ensures forall i :: 0 <= i < k ==> denied(i)
    ensures k < MoveAttempts ==> !denied(k)
  {
    if !denied(0) then 0 else if !denied(1) then 1 else if !denied(2) then 2 else 3
  }

  /** The log-file loop of `backup_database_and_logs`: the members added and the notices printed. */
  method CollectLogs(cwd: Path, m: map<Path, FileContent>, logs: seq<string>)
    returns (entries: seq<Entry>, notices: seq<Notice>)
    ensures entries == ArchivedLogs(cwd, m, logs)
    ensures notices == SkippedLogs(cwd, m, logs)
  {
    entries, notices := [], [];
    for i := 0 to |logs|
      invariant entries == ArchivedLogs(cwd, m, logs[..i])
      invariant notices == SkippedLogs(cwd, m, logs[..i])
    {
      var log := logs[i];
      assert logs[..i + 1][..i] == logs[..i];
      if Abspath(cwd, log) in m {
        entries := entries + [Entry(Basename(log), m[Abspath(cwd, log)])];
      } else {
        notices := notices + [LogSkipped(log)];
      }
    }
    assert logs[..|logs|] == logs;
  }

  /** The files after a restore from the archive members `entries`: extract them into `data/`,
      then move `data/<base>` onto the database path if the two differ, the source exists and one
      of the three attempts is allowed. The flag is false when extraction raised. */
  function RestoredFiles(cwd: Path, m: map<Path, FileContent>, databasePath: string, entries: seq<Entry>,
                         denied: nat -> bool): (map<Path, FileContent>, bool)
  {
    var (extracted, ok) := ExtractAll(m, Abspath(cwd, DataDir), entries);
    var src := Abspath(cwd, PathJoin(DataDir, Basename(databasePath)));
    var dst := Abspath(cwd, databasePath);
    if !ok then (extracted, false)
    else if src != dst && src in extracted && FirstAllowed(denied) < MoveAttempts then (Relocated(extracted, src, dst), true)
    else (extracted, true)
  }

  /** `os.path.exists` holds for directories too. The file map holds only files, so a directory
      is the working directory or one of its ancestors, or a path with a file below it. */
  predicate IsDirectory(cwd: Path, m: map<Path, FileContent>, p: Path)
  {
    (|p| <= |cwd| && cwd[..|p|] == p) || exists q :: q in m && |p| < |q| && q[..|p|] == p
  }

  /** When the directory `d` exists, "d/.." names the working directory itself, which
      `os.path.exists` accepts and the zip library is then handed; typing ".." at the restore
      prompt while `backups/` exists is one such name. */
  lemma ParentNameIsDirectory(cwd: Path, m: map<Path, FileContent>, d: string)
    requires IsName(d)
    requires IsDirectory(cwd, m, cwd + [d])
    ensures Abspath(cwd, d + "/..") == cwd
    ensures IsDirectory(cwd, m, cwd)
  {
    var up := "..";
    var p := d + "/" + up;
    assert p == d + "/..";
    SplitNoSlash(d);
    SplitNoSlash(up);
    SplitConcat(d, up);
    assert p[0] == d[0] && d[0] in d;
    var parts := Split(p);
    assert parts == [d, up];
    var inner := cwd + [d];
    assert Step(cwd, d) == inner;
    assert Step(inner, "..") == cwd by { assert inner[..|inner| - 1] == cwd; }
    assert Resolve(cwd, parts) == Resolve(inner, parts[1..]);
    assert Resolve(inner, parts[1..]) == Resolve(cwd, []);
    assert cwd[..|cwd|] == cwd;
  }

  /** What the retry loop around `shutil.move` prints: nothing when the extracted database is
      missing, one retry notice per refused attempt, and the failure message after three. */
  function MoveNotices(present: bool, denied: nat -> bool): (r: seq<Notice>)
    ensures present && FirstAllowed(denied) == MoveAttempts ==> DatabaseMoveFailed in r
    ensures DatabaseMoveFailed in r ==> present && forall i :: 0 <= i < MoveAttempts ==> denied(i)
  {
    if !present then []
    else if FirstAllowed(denied) < MoveAttempts then seq(FirstAllowed(denied), _ => MoveRetry)
    else [MoveRetry, MoveRetry, MoveRetry, DatabaseMoveFailed]
  }

  /** The log-file loop of the restore: for each name in order, "same source and destination"
      when `data/<name>` exists. */
  function InPlaceNotices(cwd: Path, m: map<Path, FileContent>, names: seq<string>): seq<Notice>
    decreases |names|
  {
    if names == [] then []
    else
      var last := names[|names| - 1];
      InPlaceNotices(cwd, m, names[..|names| - 1]) +
      (if Abspath(cwd, PathJoin(DataDir, last)) in m then [LogInPlace(last)] else [])
  }

  lemma InPlaceNoticesStep(cwd: Path, m: map<Path, FileContent>, names: seq<string>, i: nat)
    requires i < |names|
    ensures InPlaceNotices(cwd, m, names[..i + 1]) ==
            InPlaceNotices(cwd, m, names[..i]) +
            (if Abspath(cwd, PathJoin(DataDir, names[i])) in m then [LogInPlace(names[i])] else [])
  {
    assert names[..i + 1][..i] == names[..i];
  }

  /** The log-file loop of `restore_database_from_backup`. Each extracted log file is compared
      with itself, so every one found is reported as in place and none is moved. */
  method ReportLogs(cwd: Path, m: map<Path, FileContent>, names: seq<string>) returns (notices: seq<Notice>)
    ensures notices == InPlaceNotices(cwd, m, names)
  {
    notices := [];
    for i := 0 to |names|
      invariant notices == InPlaceNotices(cwd, m, names[..i])
    {
      var extractedPath := Abspath(cwd, PathJoin(DataDir, names[i]));
      InPlaceNoticesStep(cwd, m, names, i);
      if extractedPath in m {
        notices := notices + [LogInPlace(names[i])];
      }
    }
    assert names[..|names|] == names;
  }

  /** An extracted log file is reported as in place exactly when it exists, and only the names
      looped over are reported. */
  lemma {:induction false} InPlaceNoticesExactly(cwd: Path, m: map<Path, FileContent>, names: seq<string>, n: string)
    ensures LogInPlace(n) in InPlaceNotices(cwd, m, names) <==> n in names && Abspath(cwd, PathJoin(DataDir, n)) in m
    decreases |names|
  {
    if names != [] {
      var init := names[..|names| - 1];
      InPlaceNoticesExactly(cwd, m, init, n);
      assert names == init + [names[|names| - 1]];
      assert n in names <==> n in init || n == names[|names| - 1];
    }
  }

  /** Everything a successful restore prints: the database move or "same file", the in-place
      notice of each extracted log file, then "restored" and "restarting". */
  function RestoreNotices(cwd: Path, m: map<Path, FileContent>, databasePath: string, entries: seq<Entry>,
                          denied: nat -> bool): seq<Notice>
  {
    var extracted := ExtractAll(m, Abspath(cwd, DataDir), entries).0;
    var src := Abspath(cwd, PathJoin(DataDir, Basename(databasePath)));
    var dst := Abspath(cwd, databasePath);
    (if src != dst then MoveNotices(src in extracted, denied) else [DatabaseInPlace]) +
    InPlaceNotices(cwd, RestoredFiles(cwd, m, databasePath, entries, denied).0, LogNames) +
    [BackupRestored, Restarting]
  }

  /** The working directory and the files below it. */
  class Disk {
    const cwd: Path
    var files: map<Path, FileContent>

    constructor (cwd: Path, files: map<Path, FileContent>)
      ensures this.cwd == cwd && this.files == files
    {
      this.cwd := cwd;
      this.files := files;
    }

    /** `backup_database_and_logs`: `backups/<base>_<stamp>.zip` holds the database under its
        base name, then each existing log file under its base name. The archive is created
        before the database is read, so a missing database leaves an empty archive (and the
        FileNotFoundError is reported as `ok == false`). No other file changes. */
    method Backup(databasePath: string, now: DateTime) returns (name: string, ok: bool, notices: seq<Notice>)
      modifies this
      ensures name == BackupFileName(databasePath, now)
      ensures var archive := Abspath(cwd, PathJoin(BackupDir, name));
              var created := old(files)[archive := ZipArchive([])];
              var db := Abspath(cwd, databasePath);
              ok == (db in created) &&
              (!ok ==> files == created && notices == []) &&
              (ok ==> files == created[archive := ZipArchive([Entry(Basename(databasePath), created[db])] +
                                                             ArchivedLogs(cwd, created, LogFiles))] &&
                      notices == SkippedLogs(cwd, created, LogFiles) + [BackupCreated(PathJoin(BackupDir, name))])
    {
      name := BackupFileName(databasePath, now);
      var backupPath := PathJoin(BackupDir, name);
      var archive := Abspath(cwd, backupPath);
      files := files[archive := ZipArchive([])];
      var db := Abspath(cwd, databasePath);
      if db !in files {
        return name, false, [];
      }
      var logEntries;
      logEntries, notices := CollectLogs(cwd, files, LogFiles);
      files := files[archive := ZipArchive([Entry(Basename(databasePath), files[db])] + logEntries)];
      ok := true;
      notices := notices + [BackupCreated(backupPath)];
    }

    /** The retry loop around `shutil.move`: up to three attempts, each either refused
        (PermissionError, reported) or successful; a missing source ends the loop at once with
        nothing moved. Only three refusals print the failure message. */
    method MoveWithRetry(src: Path, dst: Path, denied: nat -> bool) returns (notices: seq<Notice>)
      modifies this
      ensures notices == MoveNotices(src in old(files), denied)
      ensures src !in old(files) ==> files == old(files) && notices == []
      ensures src in old(files) && FirstAllowed(denied) < MoveAttempts ==>
                files == Relocated(old(files), src, dst) &&
                notices == seq(FirstAllowed(denied), _ => MoveRetry)
      ensures src in old(files) && FirstAllowed(denied) == MoveAttempts ==>
                files == old(files) && notices == [MoveRetry, MoveRetry, MoveRetry, DatabaseMoveFailed]
    {
      notices := [];
      var attempt := 0;
      var done := false;
      while attempt < MoveAttempts && !done
        invariant 0 <= attempt <= MoveAttempts
        invariant !done ==> files == old(files) && (forall i :: 0 <= i < attempt ==> denied(i)) &&
                            notices == seq(attempt, _ => MoveRetry)
        invariant done ==> if src !in old(files) then files == old(files) && notices == []
                           else attempt == FirstAllowed(denied) < MoveAttempts && files == Relocated(old(files), src, dst) &&
                                notices == seq(attempt, _ => MoveRetry)
        invariant !done && src !in old(files) ==> attempt == 0
        decreases MoveAttempts - attempt, if done then 0 else 1
      {
        if src !in files {
          done := true;
        } else if denied(attempt) {
          assert seq(attempt, _ => MoveRetry) + [MoveRetry] == seq(attempt + 1, _ => MoveRetry);
          notices := notices + [MoveRetry];
          attempt := attempt + 1;
        } else {
          files := Relocated(files, src, dst);
          done := true;
        }
      }
      if !done {
        assert attempt == MoveAttempts && denied(0) && denied(1) && denied(2);
        assert seq(attempt, _ => MoveRetry) == [MoveRetry, MoveRetry, MoveRetry];
        notices := notices + [DatabaseMoveFailed];
      }
    }

    /** `restore_database_from_backup` with the typed file name `backupFile`: extract the archive
        into `data/`, move `data/<base>` onto the database path unless the two resolve to the same
        file, report each extracted log file as already in place, and restart. */
    method Restore(databasePath: string, backupFile: string, denied: nat -> bool)
      returns (outcome: RestoreOutcome, notices: seq<Notice>)
      modifies this
      ensures var archive := Abspath(cwd, PathJoin(BackupDir, backupFile));
              archive !in old(files) && !IsDirectory(cwd, old(files), archive) ==>
                outcome == NotFound && files == old(files) && notices == [BackupNotFound]
      ensures var archive := Abspath(cwd, PathJoin(BackupDir, backupFile));
              archive !in old(files) && IsDirectory(cwd, old(files), archive) ==>
                outcome == IsADirectory && files == old(files) && notices == []
      ensures var archive := Abspath(cwd, PathJoin(BackupDir, backupFile));
              archive in old(files) && old(files)[archive].Bytes? ==>
                outcome == NotAnArchive && files == old(files) && notices == []
      ensures var archive := Abspath(cwd, PathJoin(BackupDir, backupFile));
              archive in old(files) && old(files)[archive].ZipArchive? ==>
                var entries := old(files)[archive].entries;
                var (restored, ok) := RestoredFiles(cwd, old(files), databasePath, entries, denied);
                files == restored &&
                if ok then outcome == Restart && notices == RestoreNotices(cwd, old(files), databasePath, entries, denied)
                else outcome == ExtractFailed && notices == []
    {
      var archive := Abspath(cwd, PathJoin(BackupDir, backupFile));
      if archive !in files {
        if IsDirectory(cwd, files, archive) {
          return IsADirectory, [];
        }
        return NotFound, [BackupNotFound];
      }
      var content := files[archive];
      if content.Bytes? {
        return NotAnArchive, [];
      }
      var ok;
      ok, notices := RestoreEntries(databasePath, content.entries, denied);
      outcome := if ok then Restart else ExtractFailed;
    }

    /** The body of the `with zipfile.ZipFile(...)` block and what follows it: extract, move the
        database unless it is already in place, report the log files, and restart. */
    method RestoreEntries(databasePath: string, entries: seq<Entry>, denied: nat -> bool)
      returns (ok: bool, notices: seq<Notice>)
      modifies this
      ensures (files, ok) == RestoredFiles(cwd, old(files), databasePath, entries, denied)
      ensures notices == if ok then RestoreNotices(cwd, old(files), databasePath, entries, denied) else []
    {
      var extracted := ExtractAll(files, Abspath(cwd, DataDir), entries);
      files, ok := extracted.0, extracted.1;
      if !ok {
        return false, [];
      }
      var src := Abspath(cwd, PathJoin(DataDir, Basename(databasePath)));
      var dst := Abspath(cwd, databasePath);
      var moveNotices;
      if src != dst {
        moveNotices := MoveWithRetry(src, dst, denied);
      } else {
        moveNotices := [DatabaseInPlace];
      }
      assert files == RestoredFiles(cwd, old(files), databasePath, entries, denied).0;
      // The log files are compared with themselves, so each one found is reported as in place
      // and none is moved.
      var logNotices := ReportLogs(cwd, files, LogNames);
      notices := moveNotices + logNotices + [BackupRestored, Restarting];
    }
  }

  lemma LogFileBasenames()
    ensures forall j :: 0 <= j < |LogFiles| ==> Basename(LogFiles[j]) == LogNames[j]
  {
    BasenameOfChild(DataDir, LogNames[0]);
    BasenameOfChild(DataDir, LogNames[1]);
    BasenameOfChild(DataDir, LogNames[2]);
  }

  /** Every log member of a backup carries one of the three log base names. */
  lemma ArchivedLogNames(cwd: Path, m: map<Path, FileContent>, logs: seq<string>)
    requires forall j :: 0 <= j < |logs| ==> Basename(logs[j]) in LogNames
    ensures forall i :: 0 <= i < |ArchivedLogs(cwd, m, logs)| ==>
              ArchivedLogs(cwd, m, logs)[i].name in LogNames
  {
    var entries := ArchivedLogs(cwd, m, logs);
    forall i | 0 <= i < |entries|
      ensures entries[i].name in LogNames
    {
      ArchivedLogsExactly(cwd, m, logs, entries[i]);
    }
  }

  /** Extracting a backup whose database member has a plain name other than a log name leaves
      that member's content at `dir/<name>`. */
  lemma ExtractBackup(m: map<Path, FileContent>, dir: Path, base: string, saved: FileContent, logs: seq<Entry>)
    requires IsName(base) && base !in LogNames
    requires forall i :: 0 <= i < |logs| ==> logs[i].name in LogNames
    ensures var r := ExtractAll(m, dir, [Entry(base, saved)] + logs);
            r.1 && dir + [base] in r.0 && r.0[dir + [base]] == saved
  {
    forall i | 0 <= i < |logs|
      ensures IsName(logs[i].name) && dir + [base] != dir + [logs[i].name]
    {
      var n := logs[i].name;
      assert n == LogNames[0] || n == LogNames[1] || n == LogNames[2];
      assert base != n;
      assert (dir + [n])[|dir|] == n;
    }
    var entries := [Entry(base, saved)] + logs;
    SplitNoSlash(base);
    assert Names([base]) == [base];
    var m1 := m[dir + [base] := saved];
    assert entries[1..] == logs;
    assert ExtractAll(m, dir, entries) == ExtractAll(m1, dir, logs);
    ExtractPlainNames(m1, dir, logs, dir + [base]);
  }

  /** `os.path.join(d, n)` for two plain names is "d/n". */
  lemma PathJoinNames(d: string, n: string)
    requires IsName(d) && IsName(n)
    ensures PathJoin(d, n) == d + "/" + n
  {
    assert n[0] in n && d[|d| - 1] in d;
  }

  /** Restoring an archive whose first member is the database under its own (plain) base name
      and whose other members are log files puts that member's content at the database path,
      whatever was there before, as long as the first move attempt is allowed. */
  lemma RestoreRecoversDatabase(cwd: Path, m: map<Path, FileContent>, databasePath: string, saved: FileContent,
                                logs: seq<Entry>, denied: nat -> bool)
    requires IsName(Basename(databasePath)) && Basename(databasePath) !in LogNames
    requires forall i :: 0 <= i < |logs| ==> logs[i].name in LogNames
    requires !denied(0)
    ensures var (restored, ok) := RestoredFiles(cwd, m, databasePath, [Entry(Basename(databasePath), saved)] + logs, denied);
            var db := Abspath(cwd, databasePath);
            ok && db in restored && restored[db] == saved
  {
    var base := Basename(databasePath);
    var src := cwd + [DataDir, base];
    PathJoinNames(DataDir, base);
    AbspathOfChild(cwd, DataDir, base);
    ExtractBackup(m, cwd + [DataDir], base, saved, logs);
    assert (cwd + [DataDir]) + [base] == src;
    assert FirstAllowed(denied) == 0;
  }

  /** The archive a backup writes is `backups/<name>` under the working directory, never the
      database file itself. */
  lemma ArchiveIsNotDatabase(cwd: Path, databasePath: string, now: DateTime)
    requires IsName(Basename(databasePath))
    ensures var name := BackupFileName(databasePath, now);
            var archive := Abspath(cwd, PathJoin(BackupDir, name));
            archive == cwd + [BackupDir, name] && Abspath(cwd, databasePath) != archive
  {
    var name := BackupFileName(databasePath, now);
    PathJoinNames(BackupDir, name);
    AbspathOfChild(cwd, BackupDir, name);
    AbspathEndsWithBasename(cwd, databasePath);
    assert |name| > |Basename(databasePath)|;
  }

  /** The files a backup leaves behind, with the database then overwritten by `edited`, restore
      the saved database content. */
  lemma RestoreAfterBackup(cwd: Path, created: map<Path, FileContent>, archive: Path, databasePath: string,
                           edited: FileContent, denied: nat -> bool)
    requires IsName(Basename(databasePath)) && Basename(databasePath) !in LogNames
    requires !denied(0)
    requires Abspath(cwd, databasePath) in created && Abspath(cwd, databasePath) != archive
    ensures var db := Abspath(cwd, databasePath);
            var saved := created[db];
            var entries := [Entry(Basename(databasePath), saved)] + ArchivedLogs(cwd, created, LogFiles);
            var after := created[archive := ZipArchive(entries)][db := edited];
            var (restored, ok) := RestoredFiles(cwd, after, databasePath, entries, denied);
            ok && db in restored && restored[db] == saved
  {
    var db := Abspath(cwd, databasePath);
    var logs := ArchivedLogs(cwd, created, LogFiles);
    var after := created[archive := ZipArchive([Entry(Basename(databasePath), created[db])] + logs)][db := edited];
    LogFileBasenames();
    ArchivedLogNames(cwd, created, LogFiles);
    RestoreRecoversDatabase(cwd, after, databasePath, created[db], logs, denied);
  }

  /** Backup then restore: however the database is changed in between, restoring the archive
      just written (with the first move attempt allowed) brings its content back. */
  method BackupThenRestore(disk: Disk, databasePath: string, now: DateTime, edited: FileContent, denied: nat -> bool)
    returns (outcome: RestoreOutcome)
    modifies disk
    requires Abspath(disk.cwd, databasePath) in disk.files
    requires IsName(Basename(databasePath)) && Basename(databasePath) !in LogNames
    requires !denied(0)
    ensures outcome == Restart
    ensures var db := Abspath(disk.cwd, databasePath);
            db in disk.files && disk.files[db] == old(disk.files[db])
  {
    var cwd := disk.cwd;
    var db := Abspath(cwd, databasePath);
    ArchiveIsNotDatabase(cwd, databasePath, now);
    var name, ok, backupNotices := disk.Backup(databasePath, now);
    var archive := Abspath(cwd, PathJoin(BackupDir, name));
    var created := old(disk.files)[archive := ZipArchive([])];
    RestoreAfterBackup(cwd, created, archive, databasePath, edited, denied);
    disk.files := disk.files[db := edited];
    var restoreNotices;
    outcome, restoreNotices := disk.Restore(databasePath, name, denied);
  }
}
