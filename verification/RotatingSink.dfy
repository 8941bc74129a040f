/** The size-triggered rotating log sink: what a call does, and what survives a run. */
module RotatingSink {
  import opened Wrappers
  import opened Sorting
  import opened LogFiles

  datatype LogConfig = LogConfig(base: string, process: string, maxSize: nat, maxFiles: nat)

  /** What the surroundings decide during one call: the formatted second, the clock that
      stamps files, and whether the rename succeeds. */
  datatype Env = Env(stamp: Stamp, now: int, renameOk: bool)

  datatype SinkState = SinkState(dir: Directory, currentSize: nat)

  function Rename(dir: Directory, source: string, target: string): Directory
    requires source in dir
  {
    if source == target then dir else (dir - {source})[target := dir[source]]
  }

  /** Opening for append creates the file only if it is missing. */
  function Open(dir: Directory, name: string, now: int): Directory
  {
    if name in dir then dir else dir[name := File([], now)]
  }

  function Append(dir: Directory, name: string, data: Bytes, now: int): Directory
    requires name in dir
  {
    dir[name := File(dir[name].contents + data, now)]
  }

  function Target(cfg: LogConfig, env: Env): string
  {
    BackupName(cfg.process, env.stamp)
  }

  /** The directory after a rotation whose scan listed the backups as `listing`. */
  ghost function RotatedDir(cfg: LogConfig, dir: Directory, env: Env, listing: seq<string>): Directory
    requires cfg.base in dir
  {
    var moved := Rename(dir, cfg.base, Target(cfg, env));
    Open(Without(moved, listing, Excess(|listing|, cfg.maxFiles)), cfg.base, env.now)
  }

  /** `after` is a directory the rotation may leave: any age order of the backups will do. */
  ghost predicate Rotated(cfg: LogConfig, dir: Directory, env: Env, after: Directory)
    requires cfg.base in dir
  {
    exists listing :: ListsByAge(listing, Rename(dir, cfg.base, Target(cfg, env)), cfg.process)
                      && after == RotatedDir(cfg, dir, env, listing)
  }

  predicate Rotates(cfg: LogConfig, s: SinkState, msg: Bytes)
    requires cfg.base in s.dir
  {
    s.currentSize + |msg| > cfg.maxSize && |s.dir[cfg.base].contents| > 0
  }

  /** One call of the sink with a formatted message. A failed rename empties the base file
      and drops the message. */
  ghost predicate Sank(cfg: LogConfig, s: SinkState, msg: Bytes, env: Env, t: SinkState, ok: bool)
    requires cfg.base in s.dir
  {
    if !Rotates(cfg, s, msg) then
      ok && t == SinkState(Append(s.dir, cfg.base, msg, env.now), s.currentSize + |msg|)
    else if !env.renameOk then
      !ok && t == SinkState(s.dir[cfg.base := File([], env.now)], 0)
    else
      ok && exists after :: Rotated(cfg, s.dir, env, after)
                            && t == SinkState(Append(after, cfg.base, msg, env.now), |msg|)
  }

  // ----- size accounting -----

  ghost predicate SizesAgree(cfg: LogConfig, s: SinkState)
  {
    cfg.base in s.dir && s.currentSize == |s.dir[cfg.base].contents|
  }

  lemma RotatedBase(cfg: LogConfig, dir: Directory, env: Env, after: Directory)
    requires cfg.base in dir && Rotated(cfg, dir, env, after)
    ensures cfg.base in after
    ensures Target(cfg, env) != cfg.base ==> after[cfg.base] == File([], env.now)
  {
  }

  /** The running size is the base file's size, and stays within the limit unless a single
      message exceeds it -- as long as the rotated name is not the base name itself. */
  lemma SinkKeepsSizes(cfg: LogConfig, s: SinkState, msg: Bytes, env: Env, t: SinkState, ok: bool)
    requires SizesAgree(cfg, s) && Sank(cfg, s, msg, env, t, ok)
    requires Target(cfg, env) != cfg.base
    ensures SizesAgree(cfg, t)
    ensures ok ==> t.currentSize <= cfg.maxSize || t.currentSize == |msg|
    ensures ok <==> !Rotates(cfg, s, msg) || env.renameOk
  {
    if Rotates(cfg, s, msg) && env.renameOk {
      var after :| Rotated(cfg, s.dir, env, after) && t == SinkState(Append(after, cfg.base, msg, env.now), |msg|);
      RotatedBase(cfg, s.dir, env, after);
    }
  }

  ghost predicate SizesAlwaysAgree(cfg: LogConfig)
  {
    forall s, msg, env, t, ok :: SizesAgree(cfg, s) && Sank(cfg, s, msg, env, t, ok) ==> SizesAgree(cfg, t)
  }

  /** The accounting can be trusted for a configuration exactly when the base name is not one
      that a rotation can produce, or every backup is deleted at once. */
  lemma SizesAlwaysAgreeIff(cfg: LogConfig)
    requires cfg.maxSize > 0 && |cfg.base| < NPOS
    ensures SizesAlwaysAgree(cfg) <==> cfg.maxFiles == 0 || !IsRotatedName(cfg.base, cfg.process)
  {
    RotatedNames(cfg.base, cfg.process);
    if cfg.maxFiles == 0 || !IsRotatedName(cfg.base, cfg.process) {
      forall s, msg, env, t, ok | SizesAgree(cfg, s) && Sank(cfg, s, msg, env, t, ok)
        ensures SizesAgree(cfg, t)
      {
        if Target(cfg, env) != cfg.base {
          SinkKeepsSizes(cfg, s, msg, env, t, ok);
        } else if Rotates(cfg, s, msg) && env.renameOk {
          var after :| Rotated(cfg, s.dir, env, after) && t == SinkState(Append(after, cfg.base, msg, env.now), |msg|);
          AllDeleted(cfg, s.dir, env, after);
        }
      }
    } else {
      var stamp: Stamp :| BackupName(cfg.process, stamp) == cfg.base;
      SizesDrift(cfg, stamp);
    }
  }

  lemma AllDeleted(cfg: LogConfig, dir: Directory, env: Env, after: Directory)
    requires cfg.base in dir && Rotated(cfg, dir, env, after)
    requires cfg.maxFiles == 0 && Target(cfg, env) == cfg.base && |cfg.base| < NPOS
    ensures cfg.base in after && after[cfg.base] == File([], env.now)
  {
    var listing :| ListsByAge(listing, dir, cfg.process) && after == RotatedDir(cfg, dir, env, listing);
    RotatedNameIsBackup(cfg.process, env.stamp);
    assert listing[..|listing|] == listing;
    assert cfg.base in Members(listing);
  }

  /** A full base file that is renamed to itself keeps its contents, but its size is forgotten. */
  lemma SizesDrift(cfg: LogConfig, stamp: Stamp)
    requires cfg.maxSize > 0 && cfg.maxFiles > 0 && |cfg.base| < NPOS
    requires BackupName(cfg.process, stamp) == cfg.base
    ensures !SizesAlwaysAgree(cfg)
  {
    var full := seq(cfg.maxSize, i => 0);
    var env := Env(stamp, 1, true);
    var dir: Directory := map[cfg.base := File(full, 0)];
    var s, msg := SinkState(dir, cfg.maxSize), [0];
    RotatedNameIsBackup(cfg.process, stamp);
    var listing := [cfg.base];
    assert Backups(dir, cfg.process) == {cfg.base} == Members(listing);
    assert ListsByAge(listing, Rename(dir, cfg.base, Target(cfg, env)), cfg.process);
    assert RotatedDir(cfg, dir, env, listing) == dir by {
      assert Members(listing[..0]) == {};
    }
    assert Rotated(cfg, dir, env, dir);
    var t := SinkState(Append(dir, cfg.base, msg, 1), 1);
    assert Sank(cfg, s, msg, env, t, true);
    assert SizesAgree(cfg, s) && !SizesAgree(cfg, t);
  }

  /** A rotation leaves at most `maxFiles` backups beside the base file and touches nothing
      that is no backup. */
  lemma RotationPrunes(cfg: LogConfig, dir: Directory, env: Env, after: Directory)
    requires cfg.base in dir && Rotated(cfg, dir, env, after) && Target(cfg, env) != cfg.base
    ensures |Backups(after, cfg.process) - {cfg.base}| <= cfg.maxFiles
    ensures forall name :: name in dir && !IsBackup(name, cfg.process) && name != cfg.base && name != Target(cfg, env)
              ==> name in after && after[name] == dir[name]
  {
    var kept := KeptAfter(cfg, dir, env, after);
    ReopenedBase(cfg, kept, env);
  }

  /** It deletes no backup that is newer than one it keeps. */
  lemma RotationKeepsNewest(cfg: LogConfig, dir: Directory, env: Env, after: Directory, gone: string, kept: string)
    requires cfg.base in dir && Rotated(cfg, dir, env, after) && Target(cfg, env) != cfg.base
    requires gone in Rename(dir, cfg.base, Target(cfg, env)) && gone !in after
    requires kept in Backups(after, cfg.process) && kept != cfg.base
    ensures kept in Rename(dir, cfg.base, Target(cfg, env))
    ensures after[kept] == Rename(dir, cfg.base, Target(cfg, env))[kept]
    ensures Rename(dir, cfg.base, Target(cfg, env))[gone].mtime <= after[kept].mtime
  {
    var rest := KeptAfter(cfg, dir, env, after);
    assert kept in Backups(rest, cfg.process);
  }

  /** The directory between the pruning and the reopening of the base file. */
  lemma KeptAfter(cfg: LogConfig, dir: Directory, env: Env, after: Directory) returns (kept: Directory)
    requires cfg.base in dir && Rotated(cfg, dir, env, after) && Target(cfg, env) != cfg.base
    ensures cfg.base !in kept && after == Open(kept, cfg.base, env.now)
    ensures |Backups(kept, cfg.process)| <= cfg.maxFiles
    ensures var moved := Rename(dir, cfg.base, Target(cfg, env));
      && (forall name :: name in moved && !IsBackup(name, cfg.process) ==> name in kept)
      && (forall name :: name in kept ==> name in moved && kept[name] == moved[name])
      && (forall gone, rest :: gone in moved && gone !in kept && rest in Backups(kept, cfg.process) ==>
            moved[gone].mtime <= moved[rest].mtime)
  {
    var moved := Rename(dir, cfg.base, Target(cfg, env));
    var listing :| ListsByAge(listing, moved, cfg.process) && after == RotatedDir(cfg, dir, env, listing);
    kept := Without(moved, listing, Excess(|listing|, cfg.maxFiles));
    PruningKeepsNewest(moved, cfg.process, listing, cfg.maxFiles);
  }

  lemma ReopenedBase(cfg: LogConfig, kept: Directory, env: Env)
    requires cfg.base !in kept
    ensures var after := Open(kept, cfg.base, env.now);
      Backups(after, cfg.process) - {cfg.base} == Backups(kept, cfg.process)
  {
  }

  // ----- what survives -----

  /** Everything rotated so far, oldest first, and the names under which the youngest of it
      can still be found. */
  datatype Archive = Archive(files: seq<Bytes>, order: seq<string>)

  /** The named files hold the last of `files`, in order. */
  ghost predicate HoldsLast(dir: Directory, order: seq<string>, files: seq<Bytes>)
    requires |order| <= |files| && forall i :: 0 <= i < |order| ==> order[i] in dir
  {
    forall i :: 0 <= i < |order| ==> dir[order[i]].contents == files[|files| - |order| + i]
  }

  /** The backups in the directory are the last files of the archive, in order of age, and
      older than the base file. */
  ghost predicate Tracks(cfg: LogConfig, dir: Directory, archive: Archive)
  {
    var order, files := archive.order, archive.files;
    && cfg.base in dir && |order| <= |files|
    && Distinct(order)
    && (forall i :: 0 <= i < |order| ==> order[i] in dir && order[i] != cfg.base && IsBackup(order[i], cfg.process))
    && (forall name :: name in Backups(dir, cfg.process) && name != cfg.base ==> name in order)
    && HoldsLast(dir, order, files)
    && (forall i, j :: 0 <= i < j < |order| ==> dir[order[i]].mtime < dir[order[j]].mtime)
    && (forall i :: 0 <= i < |order| ==> dir[order[i]].mtime < dir[cfg.base].mtime)
  }

  ghost function Newest<T>(s: seq<T>, count: nat): seq<T>
  {
    s[Excess(|s|, count)..]
  }

  /** The archive after the base file has been rotated away. */
  ghost function Archived(cfg: LogConfig, archive: Archive, current: Bytes, env: Env): Archive
  {
    Archive(archive.files + [current], Newest(archive.order + [Target(cfg, env)], cfg.maxFiles))
  }

  /** The clock moves on, and on a rotation moves strictly past the base file's last write;
      the rotated name is free. */
  ghost predicate Undisturbed(cfg: LogConfig, s: SinkState, msg: Bytes, env: Env)
    requires cfg.base in s.dir
  {
    && s.dir[cfg.base].mtime <= env.now
    && (Rotates(cfg, s, msg) ==>
          env.renameOk && s.dir[cfg.base].mtime < env.now && Target(cfg, env) !in s.dir
          && |Target(cfg, env)| < NPOS)
  }

  lemma MovedListing(cfg: LogConfig, dir: Directory, env: Env, archive: Archive)
    requires Tracks(cfg, dir, archive) && Target(cfg, env) !in dir && |Target(cfg, env)| < NPOS
    ensures var moved, order := Rename(dir, cfg.base, Target(cfg, env)), archive.order + [Target(cfg, env)];
      && Distinct(order) && Members(order) == Backups(moved, cfg.process)
      && forall i, j :: 0 <= i < j < |order| ==> Age(moved)(order[i]) < Age(moved)(order[j])
  {
    var target := Target(cfg, env);
    var moved, order := Rename(dir, cfg.base, target), archive.order + [target];
    RotatedNameIsBackup(cfg.process, env.stamp);
    forall name ensures name in Members(order) <==> name in Backups(moved, cfg.process) {
      assert name in order <==> name in archive.order || name == target;
    }
  }

  /** A rotation to a free name: the listing can only be the archive's order, so the files
      that survive are the newest ones. */
  lemma RotationTracks(cfg: LogConfig, dir: Directory, env: Env, after: Directory, archive: Archive)
    requires Tracks(cfg, dir, archive) && Rotated(cfg, dir, env, after)
    requires Target(cfg, env) !in dir && |Target(cfg, env)| < NPOS && dir[cfg.base].mtime < env.now
    ensures Tracks(cfg, after, Archived(cfg, archive, dir[cfg.base].contents, env))
    ensures after[cfg.base] == File([], env.now)
  {
    var target := Target(cfg, env);
    var moved, order := Rename(dir, cfg.base, target), archive.order + [target];
    var listing :| ListsByAge(listing, moved, cfg.process) && after == RotatedDir(cfg, dir, env, listing);
    MovedListing(cfg, dir, env, archive);
    ListingUnique(listing, order, Age(moved));
    var excess := Excess(|order|, cfg.maxFiles);
    KeptTracks(cfg, dir, env, archive, excess);
  }

  /** The files that survive the pruning are the tail of the listing. */
  lemma KeptNames(cfg: LogConfig, dir: Directory, env: Env, archive: Archive, excess: nat)
    requires Tracks(cfg, dir, archive) && Target(cfg, env) !in dir && |Target(cfg, env)| < NPOS
    requires excess <= |archive.order| + 1
    ensures var order := archive.order + [Target(cfg, env)];
      var kept := Without(Rename(dir, cfg.base, Target(cfg, env)), order, excess);
      && (forall i :: excess <= i < |order| ==> order[i] in kept && IsBackup(order[i], cfg.process))
      && forall name :: name in Backups(kept, cfg.process) ==> name in order[excess..]
  {
    var moved, order := Rename(dir, cfg.base, Target(cfg, env)), archive.order + [Target(cfg, env)];
    MovedListing(cfg, dir, env, archive);
    var kept := Without(moved, order, excess);
    forall i | excess <= i < |order| ensures order[i] in kept && IsBackup(order[i], cfg.process) {
      assert order[i] in order[excess..];
      KeptAreTail(moved, cfg.process, order, excess, order[i]);
    }
    forall name | name in Backups(kept, cfg.process) ensures name in order[excess..] {
      KeptAreTail(moved, cfg.process, order, excess, name);
    }
  }

  lemma KeptTracks(cfg: LogConfig, dir: Directory, env: Env, archive: Archive, excess: nat)
    requires Tracks(cfg, dir, archive) && Target(cfg, env) !in dir && |Target(cfg, env)| < NPOS
    requires dir[cfg.base].mtime < env.now && excess <= |archive.order| + 1
    ensures var order := archive.order + [Target(cfg, env)];
      Tracks(cfg, Open(Without(Rename(dir, cfg.base, Target(cfg, env)), order, excess), cfg.base, env.now),
             Archive(archive.files + [dir[cfg.base].contents], order[excess..]))
  {
    var target := Target(cfg, env);
    var moved, order := Rename(dir, cfg.base, target), archive.order + [target];
    var kept := Without(moved, order, excess);
    MovedListing(cfg, dir, env, archive);
    var after, newest := Open(kept, cfg.base, env.now), order[excess..];
    assert cfg.base !in moved && after == kept[cfg.base := File([], env.now)];
    KeptNames(cfg, dir, env, archive, excess);
    var files := archive.files + [dir[cfg.base].contents];
    forall i | 0 <= i < |newest|
      ensures newest[i] in moved && newest[i] in after && after[newest[i]] == moved[newest[i]]
      ensures after[newest[i]].mtime < env.now && after[newest[i]].contents == files[|files| - |newest| + i]
    {
      assert newest[i] == order[excess + i];
      MovedFile(cfg, dir, env, archive, excess + i);
    }
    KeptInOrder(moved, order, after, newest);
    assert HoldsLast(after, newest, files);
  }

  lemma KeptInOrder(moved: Directory, order: seq<string>, after: Directory, newest: seq<string>)
    requires |newest| <= |order| && newest == order[|order| - |newest|..]
    requires forall i :: 0 <= i < |newest| ==>
      newest[i] in moved && newest[i] in after && after[newest[i]] == moved[newest[i]]
    requires forall i, j :: 0 <= i < j < |order| ==> Age(moved)(order[i]) < Age(moved)(order[j])
    ensures forall i, j :: 0 <= i < j < |newest| ==> after[newest[i]].mtime < after[newest[j]].mtime
  {
    var excess := |order| - |newest|;
    forall i, j | 0 <= i < j < |newest| ensures after[newest[i]].mtime < after[newest[j]].mtime {
      assert Age(moved)(order[excess + i]) < Age(moved)(order[excess + j]);
    }
  }

  lemma MovedFile(cfg: LogConfig, dir: Directory, env: Env, archive: Archive, k: nat)
    requires Tracks(cfg, dir, archive) && Target(cfg, env) !in dir && k <= |archive.order|
    requires dir[cfg.base].mtime < env.now
    ensures var moved, order := Rename(dir, cfg.base, Target(cfg, env)), archive.order + [Target(cfg, env)];
      var files := archive.files + [dir[cfg.base].contents];
      && order[k] in moved && moved[order[k]].mtime < env.now
      && moved[order[k]].contents == files[|files| - |order| + k]
  {
  }

  /** One undisturbed call keeps the archive: either the message joins the base file, or the
      base file joins the archive and the message starts a new one. */
  lemma SinkTracks(cfg: LogConfig, s: SinkState, msg: Bytes, env: Env, t: SinkState, ok: bool, archive: Archive)
    requires Tracks(cfg, s.dir, archive) && Sank(cfg, s, msg, env, t, ok) && Undisturbed(cfg, s, msg, env)
    ensures ok && cfg.base in t.dir
    ensures if Rotates(cfg, s, msg)
      then t.dir[cfg.base].contents == msg
           && Tracks(cfg, t.dir, Archived(cfg, archive, s.dir[cfg.base].contents, env))
      else t.dir[cfg.base].contents == s.dir[cfg.base].contents + msg && Tracks(cfg, t.dir, archive)
  {
    if Rotates(cfg, s, msg) {
      var after :| Rotated(cfg, s.dir, env, after) && t == SinkState(Append(after, cfg.base, msg, env.now), |msg|);
      RotationTracks(cfg, s.dir, env, after, archive);
      AppendTracks(cfg, after, msg, env.now, Archived(cfg, archive, s.dir[cfg.base].contents, env));
    } else {
      AppendTracks(cfg, s.dir, msg, env.now, archive);
    }
  }

  lemma AppendTracks(cfg: LogConfig, dir: Directory, msg: Bytes, now: int, archive: Archive)
    requires Tracks(cfg, dir, archive) && dir[cfg.base].mtime <= now
    ensures Tracks(cfg, Append(dir, cfg.base, msg, now), archive)
  {
    var after := Append(dir, cfg.base, msg, now);
    forall name | name in Backups(after, cfg.process) && name != cfg.base ensures name in archive.order {
      assert name in Backups(dir, cfg.process);
    }
  }

  // ----- whole runs -----

  /** A run of successful calls: `states[i + 1]` follows from `states[i]` by logging `msgs[i]`. */
  ghost predicate Run(cfg: LogConfig, states: seq<SinkState>, msgs: seq<Bytes>, envs: seq<Env>)
  {
    && |states| == |msgs| + 1 == |envs| + 1
    && (forall i :: 0 <= i < |states| ==> cfg.base in states[i].dir)
    && forall i :: 0 <= i < |msgs| ==> Sank(cfg, states[i], msgs[i], envs[i], states[i + 1], true)
  }

  ghost predicate UndisturbedRun(cfg: LogConfig, states: seq<SinkState>, msgs: seq<Bytes>, envs: seq<Env>)
    requires Run(cfg, states, msgs, envs)
  {
    forall i :: 0 <= i < |msgs| ==> Undisturbed(cfg, states[i], msgs[i], envs[i])
  }

  ghost function Rotations(cfg: LogConfig, states: seq<SinkState>, msgs: seq<Bytes>, n: nat): nat
    requires n <= |msgs| < |states| && forall i :: 0 <= i < |states| ==> cfg.base in states[i].dir
  {
    if n == 0 then 0
    else Rotations(cfg, states, msgs, n - 1) + if Rotates(cfg, states[n - 1], msgs[n - 1]) then 1 else 0
  }

  /** All that was written is the archive followed by the base file, and exactly the newest
      `maxFiles` files of the archive are still there. */
  ghost predicate Accounts(cfg: LogConfig, dir: Directory, archive: Archive, written: Bytes)
  {
    && Tracks(cfg, dir, archive)
    && written == Flatten(archive.files) + dir[cfg.base].contents
    && |archive.order| == |Newest(archive.files, cfg.maxFiles)|
  }

  lemma SinkAccounts(cfg: LogConfig, s: SinkState, msg: Bytes, env: Env, t: SinkState, archive: Archive, written: Bytes)
    returns (next: Archive)
    requires Accounts(cfg, s.dir, archive, written)
    requires Sank(cfg, s, msg, env, t, true) && Undisturbed(cfg, s, msg, env)
    ensures Accounts(cfg, t.dir, next, written + msg)
    ensures next.files == archive.files + if Rotates(cfg, s, msg) then [s.dir[cfg.base].contents] else []
  {
    SinkTracks(cfg, s, msg, env, t, true, archive);
    var current := s.dir[cfg.base].contents;
    if Rotates(cfg, s, msg) {
      next := Archived(cfg, archive, current, env);
      ArchivedCounts(cfg, archive, current, env);
    } else {
      next := archive;
    }
  }

  lemma ArchivedCounts(cfg: LogConfig, archive: Archive, current: Bytes, env: Env)
    requires |archive.order| == |Newest(archive.files, cfg.maxFiles)|
    ensures var next := Archived(cfg, archive, current, env);
      && |next.order| == |Newest(next.files, cfg.maxFiles)|
      && Flatten(next.files) == Flatten(archive.files) + current
  {
    FlattenSnoc(archive.files, current);
  }

  /** What the base file held at the start, followed by the first `n` messages. */
  ghost function Written(start: Bytes, msgs: seq<Bytes>, n: nat): Bytes
    requires n <= |msgs|
  {
    if n == 0 then start else Written(start, msgs, n - 1) + msgs[n - 1]
  }

  /** Over an undisturbed run that starts with no backups: everything written is the archive
      followed by the base file, the archive gains one file per rotation, and of its files
      exactly the newest `maxFiles` are still there, each whole. */
  lemma {:induction false} RunKeepsArchive(cfg: LogConfig, states: seq<SinkState>, msgs: seq<Bytes>,
                                           envs: seq<Env>, n: nat) returns (archive: Archive)
    requires Run(cfg, states, msgs, envs) && UndisturbedRun(cfg, states, msgs, envs) && n <= |msgs|
    requires Backups(states[0].dir, cfg.process) <= {cfg.base}
    ensures Accounts(cfg, states[n].dir, archive, Written(states[0].dir[cfg.base].contents, msgs, n))
    ensures |archive.files| == Rotations(cfg, states, msgs, n)
  {
    if n == 0 {
      archive := Archive([], []);
    } else {
      var before := RunKeepsArchive(cfg, states, msgs, envs, n - 1);
      var s, msg, env := states[n - 1], msgs[n - 1], envs[n - 1];
      assert Sank(cfg, s, msg, env, states[n - 1 + 1], true) && Undisturbed(cfg, s, msg, env);
      archive := SinkAccounts(cfg, s, msg, env, states[n], before,
                              Written(states[0].dir[cfg.base].contents, msgs, n - 1));
    }
  }

  ghost function Contents(dir: Directory): string -> Bytes
  {
    (name: string) => if name in dir then dir[name].contents else []
  }

  /** What can be read from the directory: the named files in order, then the base file. */
  ghost function Retained(cfg: LogConfig, dir: Directory, order: seq<string>): Bytes
  {
    FlatMap(Contents(dir), order) + Contents(dir)(cfg.base)
  }

  lemma {:induction false} HeldFilesRead(dir: Directory, order: seq<string>, files: seq<Bytes>)
    requires |order| <= |files| && forall i :: 0 <= i < |order| ==> order[i] in dir
    requires HoldsLast(dir, order, files)
    ensures FlatMap(Contents(dir), order) == Flatten(files[|files| - |order|..])
  {
    var tail := files[|files| - |order|..];
    if order != [] {
      var n := |order| - 1;
      HeldFilesRead(dir, order[..n], files[..|files| - 1]);
      assert tail[..n] == files[..|files| - 1][|files| - 1 - n..];
      assert dir[order[n]].contents == tail[n];
    }
  }

  /** The files of an accounted-for directory, read oldest first, are a contiguous suffix of
      what was written, cut between two files. */
  lemma AccountedIsSuffix(cfg: LogConfig, dir: Directory, archive: Archive, written: Bytes)
    requires Accounts(cfg, dir, archive, written)
    ensures var cut := Excess(|archive.files|, cfg.maxFiles);
      written == Flatten(archive.files[..cut]) + Retained(cfg, dir, archive.order)
  {
    FlattenSplit(archive.files, Excess(|archive.files|, cfg.maxFiles));
    HeldFilesRead(dir, archive.order, archive.files);
  }

  /** `order` lists all backups of the directory, oldest first. */
  ghost predicate ListsBackups(cfg: LogConfig, dir: Directory, order: seq<string>)
  {
    && Distinct(order)
    && Members(order) == Backups(dir, cfg.process) - {cfg.base}
    && forall i, j :: 0 <= i < j < |order| ==> Age(dir)(order[i]) < Age(dir)(order[j])
  }

  /** What survives an undisturbed run -- all its backups, oldest first, and the base file --
      is a contiguous suffix of everything written, cut between two files. */
  lemma SurvivorsAreSuffix(cfg: LogConfig, states: seq<SinkState>, msgs: seq<Bytes>, envs: seq<Env>)
    returns (files: seq<Bytes>, order: seq<string>, cut: nat)
    requires Run(cfg, states, msgs, envs) && UndisturbedRun(cfg, states, msgs, envs)
    requires Backups(states[0].dir, cfg.process) <= {cfg.base}
    ensures ListsBackups(cfg, states[|msgs|].dir, order)
    ensures |files| == Rotations(cfg, states, msgs, |msgs|)
    ensures cut == Excess(|files|, cfg.maxFiles)
    ensures Written(states[0].dir[cfg.base].contents, msgs, |msgs|)
            == Flatten(files[..cut]) + Retained(cfg, states[|msgs|].dir, order)
    ensures AreContents(states[|msgs|].dir, order, files[cut..])
  {
    var archive := RunKeepsArchive(cfg, states, msgs, envs, |msgs|);
    files, order, cut := archive.files, archive.order, Excess(|archive.files|, cfg.maxFiles);
    AccountedIsSuffix(cfg, states[|msgs|].dir, archive, Written(states[0].dir[cfg.base].contents, msgs, |msgs|));
    TrackedAreListed(cfg, states[|msgs|].dir, archive);
  }

  /** The named files hold `files`, one each. */
  ghost predicate AreContents(dir: Directory, order: seq<string>, files: seq<Bytes>)
  {
    |order| == |files| && forall i :: 0 <= i < |order| ==> Contents(dir)(order[i]) == files[i]
  }

  lemma TrackedAreListed(cfg: LogConfig, dir: Directory, archive: Archive)
    requires Tracks(cfg, dir, archive)
    ensures ListsBackups(cfg, dir, archive.order)
    ensures AreContents(dir, archive.order, archive.files[|archive.files| - |archive.order|..])
  {
    forall name ensures name in Members(archive.order) <==> name in Backups(dir, cfg.process) - {cfg.base} { }
  }

  lemma {:induction false} FlattenSplit<T>(parts: seq<seq<T>>, k: nat)
    requires k <= |parts|
    ensures Flatten(parts) == Flatten(parts[..k]) + Flatten(parts[k..])
  {
    if k == |parts| {
      assert parts[..k] == parts && parts[k..] == [];
    } else {
      var n := |parts| - 1;
      FlattenSplit(parts[..n], k);
      assert parts[..n][..k] == parts[..k] && parts[..n][k..] == parts[k..][..n - k];
    }
  }

  /** Over any run whose rotated names differ from the base name, the running size is the base
      file's size, and within the limit unless the last message alone exceeds it. */
  lemma {:induction false} RunKeepsSizes(cfg: LogConfig, states: seq<SinkState>, msgs: seq<Bytes>,
                                         envs: seq<Env>, n: nat)
    requires Run(cfg, states, msgs, envs) && n <= |msgs| && SizesAgree(cfg, states[0])
    requires forall i :: 0 <= i < |envs| ==> Target(cfg, envs[i]) != cfg.base
    ensures SizesAgree(cfg, states[n])
    ensures n > 0 ==> states[n].currentSize <= cfg.maxSize || states[n].currentSize == |msgs[n - 1]|
  {
    if n > 0 {
      RunKeepsSizes(cfg, states, msgs, envs, n - 1);
      assert Sank(cfg, states[n - 1], msgs[n - 1], envs[n - 1], states[n - 1 + 1], true);
      SinkKeepsSizes(cfg, states[n - 1], msgs[n - 1], envs[n - 1], states[n], true);
    }
  }

  /** In a run that starts without backups every backup has the name of one of its rotations. */
  lemma {:induction false} BackupsComeFromRotations(cfg: LogConfig, states: seq<SinkState>, msgs: seq<Bytes>,
                                                    envs: seq<Env>, n: nat, name: string)
    requires Run(cfg, states, msgs, envs) && n <= |msgs|
    requires Backups(states[0].dir, cfg.process) <= {cfg.base}
    requires name in Backups(states[n].dir, cfg.process) && name != cfg.base
    ensures exists i :: 0 <= i < n && Rotates(cfg, states[i], msgs[i]) && name == Target(cfg, envs[i])
  {
    if n > 0 {
      var s, msg, env := states[n - 1], msgs[n - 1], envs[n - 1];
      assert Sank(cfg, s, msg, env, states[n - 1 + 1], true);
      if !(Rotates(cfg, s, msg) && name == Target(cfg, env)) {
        assert name in s.dir;
        BackupsComeFromRotations(cfg, states, msgs, envs, n - 1, name);
      }
    }
  }

  /** Enough for the rotated name to be free in a run that starts without backups: no two
      rotations happen in the same second. */
  lemma DistinctSecondsAreFree(cfg: LogConfig, states: seq<SinkState>, msgs: seq<Bytes>, envs: seq<Env>, n: nat)
    requires Run(cfg, states, msgs, envs) && n < |msgs| && Rotates(cfg, states[n], msgs[n])
    requires Backups(states[0].dir, cfg.process) <= {cfg.base}
    requires Target(cfg, envs[n]) != cfg.base && |Target(cfg, envs[n])| < NPOS
    requires forall i :: 0 <= i < n && Rotates(cfg, states[i], msgs[i]) ==> envs[i].stamp != envs[n].stamp
    ensures Target(cfg, envs[n]) !in states[n].dir
  {
    var name := Target(cfg, envs[n]);
    if name in states[n].dir {
      RotatedNameIsBackup(cfg.process, envs[n].stamp);
      BackupsComeFromRotations(cfg, states, msgs, envs, n, name);
      var i :| 0 <= i < n && Rotates(cfg, states[i], msgs[i]) && name == Target(cfg, envs[i]);
      BackupNameInjective(cfg.process, envs[i].stamp, envs[n].stamp);
    }
  }

  // ----- two rotations in one second -----

  /** The backups by age when the rotated name is already taken by `archive.order[p]`. */
  ghost function Reordered(order: seq<string>, p: nat): seq<string>
    requires p < |order|
  {
    order[..p] + order[p + 1..] + [order[p]]
  }

  lemma ReusedListing(cfg: LogConfig, dir: Directory, env: Env, archive: Archive, p: nat)
    requires Tracks(cfg, dir, archive) && p < |archive.order| && Target(cfg, env) == archive.order[p]
    ensures var moved, order := Rename(dir, cfg.base, Target(cfg, env)), Reordered(archive.order, p);
      && Distinct(order) && Members(order) == Backups(moved, cfg.process)
      && forall i, j :: 0 <= i < j < |order| ==> Age(moved)(order[i]) < Age(moved)(order[j])
  {
    var target, n := Target(cfg, env), |archive.order| - 1;
    var moved, order := Rename(dir, cfg.base, target), Reordered(archive.order, p);
    forall i | 0 <= i < n ensures order[i] == archive.order[if i < p then i else i + 1] && order[i] != target { }
    forall name ensures name in Members(order) <==> name in Backups(moved, cfg.process) {
      assert name in order <==> name in archive.order by {
        assert archive.order == archive.order[..p] + [target] + archive.order[p + 1..];
      }
    }
  }

  /** Renaming over an existing backup still leaves a suffix of what was written exactly when
      every older backup equals its successor: so always if the oldest is overwritten, and
      otherwise only by coincidence. */
  lemma ReusedNameIff(cfg: LogConfig, dir: Directory, env: Env, after: Directory, archive: Archive, p: nat)
    requires Tracks(cfg, dir, archive) && Rotated(cfg, dir, env, after)
    requires p < |archive.order| <= cfg.maxFiles && Target(cfg, env) == archive.order[p]
    requires dir[cfg.base].mtime < env.now
    ensures (exists order :: Tracks(cfg, after, Archive(archive.files + [dir[cfg.base].contents], order)))
            <==> Repeats(dir, archive.order, p)
  {
    var files := archive.files + [dir[cfg.base].contents];
    ReusedTracksIff(cfg, dir, env, after, archive, p);
    if exists kept :: Tracks(cfg, after, Archive(files, kept)) {
      var kept :| Tracks(cfg, after, Archive(files, kept));
      ReusedDirectory(cfg, dir, env, after, archive, p);
      SameOrder(cfg, after, Archive(files, kept), Reordered(archive.order, p));
    }
  }

  /** The `p` oldest backups each equal the next one. */
  ghost predicate Repeats(dir: Directory, order: seq<string>, p: nat)
    requires p < |order| && forall i :: 0 <= i < |order| ==> order[i] in dir
  {
    forall i :: 0 <= i < p ==> dir[order[i]].contents == dir[order[i + 1]].contents
  }

  lemma ReusedTracksIff(cfg: LogConfig, dir: Directory, env: Env, after: Directory, archive: Archive, p: nat)
    requires Tracks(cfg, dir, archive) && Rotated(cfg, dir, env, after)
    requires p < |archive.order| <= cfg.maxFiles && Target(cfg, env) == archive.order[p]
    requires dir[cfg.base].mtime < env.now
    ensures Tracks(cfg, after, Archive(archive.files + [dir[cfg.base].contents], Reordered(archive.order, p)))
            <==> Repeats(dir, archive.order, p)
  {
    ReusedDirectory(cfg, dir, env, after, archive, p);
    ShiftedIff(cfg, dir, env, after, archive, p);
  }

  /** The directory after such a rotation, seen through the new order of age. */
  lemma ReusedDirectory(cfg: LogConfig, dir: Directory, env: Env, after: Directory, archive: Archive, p: nat)
    requires Tracks(cfg, dir, archive) && Rotated(cfg, dir, env, after)
    requires p < |archive.order| <= cfg.maxFiles && Target(cfg, env) == archive.order[p]
    requires dir[cfg.base].mtime < env.now
    ensures var moved, order := Rename(dir, cfg.base, Target(cfg, env)), Reordered(archive.order, p);
      && cfg.base in after && after[cfg.base].mtime == env.now
      && |order| == |archive.order| && Distinct(order)
      && (forall i :: 0 <= i < |order| ==> order[i] in after && order[i] != cfg.base && IsBackup(order[i], cfg.process))
      && (forall name :: name in Backups(after, cfg.process) && name != cfg.base ==> name in order)
      && (forall i, j :: 0 <= i < j < |order| ==> after[order[i]].mtime < after[order[j]].mtime)
      && (forall i :: 0 <= i < |order| ==> after[order[i]].mtime < env.now)
      && forall i :: 0 <= i < |order| ==> order[i] in moved && after[order[i]] == moved[order[i]]
  {
    var moved, order := Rename(dir, cfg.base, Target(cfg, env)), Reordered(archive.order, p);
    ReusedAfter(cfg, dir, env, after, archive, p);
    ReusedListing(cfg, dir, env, archive, p);
    forall i | 0 <= i < |order|
      ensures order[i] in moved && order[i] != cfg.base && IsBackup(order[i], cfg.process)
      ensures after[order[i]] == moved[order[i]] && Age(moved)(order[i]) == after[order[i]].mtime
    {
      assert order[i] in Members(order);
    }
    forall name | name in Backups(after, cfg.process) && name != cfg.base ensures name in order {
      assert name in Backups(moved, cfg.process);
      assert name in Members(order);
    }
  }

  /** Whatever order an archive of this directory uses, it is the order of age. */
  lemma SameOrder(cfg: LogConfig, dir: Directory, archive: Archive, order: seq<string>)
    requires Tracks(cfg, dir, archive) && Distinct(order)
    requires forall i :: 0 <= i < |order| ==> order[i] in dir && order[i] != cfg.base && IsBackup(order[i], cfg.process)
    requires forall name :: name in Backups(dir, cfg.process) && name != cfg.base ==> name in order
    requires forall i, j :: 0 <= i < j < |order| ==> dir[order[i]].mtime < dir[order[j]].mtime
    ensures archive.order == order
  {
    forall name ensures name in archive.order <==> name in order { }
    ListingUnique(archive.order, order, Age(dir));
  }

  /** No backup is deleted: overwriting one has not added to their number. */
  lemma ReusedAfter(cfg: LogConfig, dir: Directory, env: Env, after: Directory, archive: Archive, p: nat)
    requires Tracks(cfg, dir, archive) && Rotated(cfg, dir, env, after)
    requires p < |archive.order| <= cfg.maxFiles && Target(cfg, env) == archive.order[p]
    ensures after == Rename(dir, cfg.base, Target(cfg, env))[cfg.base := File([], env.now)]
  {
    var moved, order := Rename(dir, cfg.base, Target(cfg, env)), Reordered(archive.order, p);
    var listing :| ListsByAge(listing, moved, cfg.process) && after == RotatedDir(cfg, dir, env, listing);
    ReusedListing(cfg, dir, env, archive, p);
    ListingUnique(listing, order, Age(moved));
    assert Members(order[..0]) == {};
  }

  lemma ShiftedIff(cfg: LogConfig, dir: Directory, env: Env, after: Directory, archive: Archive, p: nat)
    requires Tracks(cfg, dir, archive) && p < |archive.order| && Target(cfg, env) == archive.order[p]
    requires var moved, order := Rename(dir, cfg.base, Target(cfg, env)), Reordered(archive.order, p);
      forall i :: 0 <= i < |order| ==> order[i] in moved && order[i] in after && after[order[i]] == moved[order[i]]
    ensures HoldsLast(after, Reordered(archive.order, p), archive.files + [dir[cfg.base].contents])
            <==> Repeats(dir, archive.order, p)
  {
    var order, files := Reordered(archive.order, p), archive.files + [dir[cfg.base].contents];
    forall i | 0 <= i < |order| ensures ShiftedContent(dir, archive.order, p, i) <==>
      after[order[i]].contents == files[|files| - |order| + i]
    {
      ShiftedAt(cfg, dir, env, archive, p, i);
    }
    if HoldsLast(after, order, files) {
      forall i | 0 <= i < p ensures dir[archive.order[i]].contents == dir[archive.order[i + 1]].contents {
        assert ShiftedContent(dir, archive.order, p, i);
      }
    }
    if Repeats(dir, archive.order, p) {
      forall i | 0 <= i < |order| ensures after[order[i]].contents == files[|files| - |order| + i] {
        assert ShiftedContent(dir, archive.order, p, i);
      }
    }
  }

  ghost predicate ShiftedContent(dir: Directory, order: seq<string>, p: nat, i: nat)
    requires p < |order| && i < |order| && forall k :: 0 <= k < |order| ==> order[k] in dir
  {
    i < p ==> dir[order[i]].contents == dir[order[i + 1]].contents
  }

  lemma ShiftedAt(cfg: LogConfig, dir: Directory, env: Env, archive: Archive, p: nat, i: nat)
    requires Tracks(cfg, dir, archive) && i < |archive.order|
    requires p < |archive.order| && Target(cfg, env) == archive.order[p]
    ensures var moved, order := Rename(dir, cfg.base, Target(cfg, env)), Reordered(archive.order, p);
      var files := archive.files + [dir[cfg.base].contents];
      && |order| == |archive.order| && order[i] in moved
      && (ShiftedContent(dir, archive.order, p, i) <==> moved[order[i]].contents == files[|files| - |order| + i])
  {
    var order := Reordered(archive.order, p);
    if i < p {
      assert order[i] == archive.order[i];
    } else if i < |order| - 1 {
      assert order[i] == archive.order[i + 1];
    } else {
      assert order[i] == archive.order[p];
    }
  }
}
