/** The rotating sink told from the messages alone: which call moves the base file away, and
    what every file that survives a run contains. */
module RotatingHistory {
  import opened Wrappers
  import opened Sorting
  import opened LogFiles
  import opened RotatingSink

  /** What a rotation may have left beside the base file: the old base file under the rotated
      name, and other files untouched. */
  ghost predicate OthersKept(cfg: LogConfig, before: Directory, env: Env, after: Directory)
    requires cfg.base in before
  {
    forall name :: name in after && name != cfg.base ==>
      if name == Target(cfg, env) then after[name] == before[cfg.base]
      else name in before && after[name] == before[name]
  }

  /** From a state whose sizes agree, a message joins the base file when both fit the limit or
      the file is empty. Otherwise the base file is moved away and the message starts a new
      one -- or, when the rename fails, the base file is emptied and the message is lost. */
  lemma CallInNumbers(cfg: LogConfig, s: SinkState, msg: Bytes, env: Env, t: SinkState, ok: bool)
    requires SizesAgree(cfg, s) && Sank(cfg, s, msg, env, t, ok)
    ensures var held := s.dir[cfg.base].contents;
      if |held| + |msg| <= cfg.maxSize || held == [] then
        && ok && t.currentSize == |held| + |msg|
        && t.dir == s.dir[cfg.base := File(held + msg, env.now)]
      else if !env.renameOk then
        && !ok && t.currentSize == 0
        && t.dir == s.dir[cfg.base := File([], env.now)]
      else
        && ok && t.currentSize == |msg|
        && (Target(cfg, env) != cfg.base ==>
              && cfg.base in t.dir && t.dir[cfg.base] == File(msg, env.now)
              && OthersKept(cfg, s.dir, env, t.dir))
  {
    if Rotates(cfg, s, msg) && env.renameOk && Target(cfg, env) != cfg.base {
      var after :| Rotated(cfg, s.dir, env, after) && t == SinkState(Append(after, cfg.base, msg, env.now), |msg|);
      RotatedBase(cfg, s.dir, env, after);
    }
  }

  // ----- the files a list of messages makes -----

  /** The files filled so far, oldest first, and the one being filled. */
  datatype Packing = Packing(full: seq<Bytes>, current: Bytes)

  /** Reference: a message goes into the current file unless that holds something already and
      would grow past the limit; then it starts a file of its own. */
  ghost function Pack(limit: nat, start: Bytes, msgs: seq<Bytes>, n: nat): Packing
    requires n <= |msgs|
  {
    if n == 0 then Packing([], start)
    else
      var before, msg := Pack(limit, start, msgs, n - 1), msgs[n - 1];
      if before.current == [] || |before.current| + |msg| <= limit
      then Packing(before.full, before.current + msg)
      else Packing(before.full + [before.current], msg)
  }

  /** The files hold what was written, in order. */
  lemma {:induction false} PackedIsWritten(limit: nat, start: Bytes, msgs: seq<Bytes>, n: nat)
    requires n <= |msgs|
    ensures var p := Pack(limit, start, msgs, n); Written(start, msgs, n) == Flatten(p.full) + p.current
  {
    if n > 0 {
      PackedIsWritten(limit, start, msgs, n - 1);
      var before := Pack(limit, start, msgs, n - 1);
      FlattenSnoc(before.full, before.current);
    }
  }

  /** Every full file was closed, not empty, by a message that would have taken it past the
      limit. */
  lemma {:induction false} FullFilesWereFull(limit: nat, start: Bytes, msgs: seq<Bytes>, n: nat, k: nat)
    returns (i: nat)
    requires n <= |msgs| && k < |Pack(limit, start, msgs, n).full|
    ensures i < n
    ensures Pack(limit, start, msgs, i).current == Pack(limit, start, msgs, n).full[k] != []
    ensures |Pack(limit, start, msgs, n).full[k]| + |msgs[i]| > limit
  {
    if k < |Pack(limit, start, msgs, n - 1).full| {
      i := FullFilesWereFull(limit, start, msgs, n - 1, k);
    } else {
      i := n - 1;
    }
  }

  /** And no file, apart from what was there at the start, is longer than the limit unless it
      holds a single message. */
  lemma {:induction false} FilesWithinLimit(limit: nat, msgs: seq<Bytes>, n: nat)
    requires n <= |msgs|
    ensures var p := Pack(limit, [], msgs, n);
      && (|p.current| <= limit || p.current in msgs[..n])
      && forall k :: 0 <= k < |p.full| ==> |p.full[k]| <= limit || p.full[k] in msgs[..n]
  {
    if n > 0 {
      FilesWithinLimit(limit, msgs, n - 1);
      assert msgs[..n] == msgs[..n - 1] + [msgs[n - 1]];
      assert [] + msgs[n - 1] == msgs[n - 1];
    }
  }

  // ----- runs -----

  /** An undisturbed run makes exactly the files that packing its messages makes. */
  lemma {:induction false} RunPacks(cfg: LogConfig, states: seq<SinkState>, msgs: seq<Bytes>, envs: seq<Env>, n: nat)
    returns (archive: Archive)
    requires Run(cfg, states, msgs, envs) && UndisturbedRun(cfg, states, msgs, envs) && n <= |msgs|
    requires SizesAgree(cfg, states[0]) && Backups(states[0].dir, cfg.process) <= {cfg.base}
    ensures SizesAgree(cfg, states[n])
    ensures var start := states[0].dir[cfg.base].contents;
      && Accounts(cfg, states[n].dir, archive, Written(start, msgs, n))
      && Pack(cfg.maxSize, start, msgs, n) == Packing(archive.files, states[n].dir[cfg.base].contents)
  {
    var start := states[0].dir[cfg.base].contents;
    if n == 0 {
      archive := Archive([], []);
    } else {
      var before := RunPacks(cfg, states, msgs, envs, n - 1);
      var s, msg, env, t := states[n - 1], msgs[n - 1], envs[n - 1], states[n];
      assert Sank(cfg, s, msg, env, states[n - 1 + 1], true) && Undisturbed(cfg, s, msg, env);
      archive := SinkAccounts(cfg, s, msg, env, t, before, Written(start, msgs, n - 1));
      CallInNumbers(cfg, s, msg, env, t, true);
    }
  }

  /** What survives an undisturbed run, from its messages alone: the base file is the file being
      filled, and the backups, oldest first, are the newest of the full files -- all of them, or
      as many as may be kept. */
  lemma SurvivorsArePacked(cfg: LogConfig, states: seq<SinkState>, msgs: seq<Bytes>, envs: seq<Env>)
    returns (order: seq<string>)
    requires Run(cfg, states, msgs, envs) && UndisturbedRun(cfg, states, msgs, envs)
    requires SizesAgree(cfg, states[0]) && Backups(states[0].dir, cfg.process) <= {cfg.base}
    ensures var dir, p := states[|msgs|].dir, Pack(cfg.maxSize, states[0].dir[cfg.base].contents, msgs, |msgs|);
      && dir[cfg.base].contents == p.current
      && ListsBackups(cfg, dir, order)
      && |order| == (if |p.full| <= cfg.maxFiles then |p.full| else cfg.maxFiles)
      && AreContents(dir, order, p.full[|p.full| - |order|..])
  {
    var archive := RunPacks(cfg, states, msgs, envs, |msgs|);
    order := archive.order;
    TrackedAreListed(cfg, states[|msgs|].dir, archive);
  }
}
