/** The sink object itself: its fields are the directory it writes to and its running size. */
module RotatingFileSink {
  import opened LogFiles
  import opened RotatingSink

  const MAX_BACKUPS: nat := 200000

  class Sink {
    const cfg: LogConfig
    var dir: Directory
    var currentSize: nat

    ghost function State(): SinkState
      reads this
    {
      SinkState(dir, currentSize)
    }

    /** Opens the base file of a directory; the running size is read from the file once. */
    constructor (cfg: LogConfig, dir: Directory, now: int)
      ensures this.cfg == cfg && this.dir == Open(dir, cfg.base, now)
      ensures SizesAgree(cfg, State())
    {
      this.cfg := cfg;
      this.dir := Open(dir, cfg.base, now);
      this.currentSize := |Open(dir, cfg.base, now)[cfg.base].contents|;
    }

    /** Builds a sink, refusing the sizes the source refuses; a non-empty file may be rotated
        at once, and a failed rotation makes the construction fail. */
    static method Create(cfg: LogConfig, dir: Directory, rotateOnOpen: bool, env: Env) returns (sink: Sink?)
      ensures sink == null <==>
        || cfg.maxSize == 0 || cfg.maxFiles > 200000
        || (rotateOnOpen && cfg.base in dir && dir[cfg.base].contents != [] && !env.renameOk)
      ensures sink != null ==> sink.cfg == cfg && cfg.base in sink.dir
      ensures sink != null ==>
        if rotateOnOpen && cfg.base in dir && dir[cfg.base].contents != []
        then Rotated(cfg, dir, env, sink.dir) && sink.currentSize == 0
        else sink.dir == (if cfg.base in dir then dir else dir[cfg.base := File([], env.now)])
             && sink.currentSize == |sink.dir[cfg.base].contents|
    {
      if cfg.maxSize == 0 || cfg.maxFiles > MAX_BACKUPS {
        return null;
      }
      sink := new Sink(cfg, dir, env.now);
      if rotateOnOpen && sink.currentSize > 0 {
        var ok := sink.Rotate(env);
        if !ok {
          return null;
        }
      }
    }

    /** Renames the base file away, prunes the backups and opens a new base file. A failed
        rename truncates the base file instead. */
    method Rotate(env: Env) returns (ok: bool)
      requires cfg.base in dir
      modifies this
      ensures ok == env.renameOk && currentSize == 0
      ensures ok ==> Rotated(cfg, old(dir), env, dir) && cfg.base in dir
      ensures !ok ==> dir == old(dir)[cfg.base := File([], env.now)]
    {
      currentSize := 0;
      if !env.renameOk {
        dir := dir[cfg.base := File([], env.now)];
        return false;
      }
      var moved := Rename(dir, cfg.base, Target(cfg, env));
      var kept, listing := Prune(moved, cfg.process, cfg.maxFiles);
      dir := Open(kept, cfg.base, env.now);
      assert dir == RotatedDir(cfg, old(dir), env, listing);
      return true;
    }

    /** Writes one formatted message, rotating first if it would not fit. */
    method SinkIt(formatted: Bytes, env: Env) returns (ok: bool)
      requires cfg.base in dir
      modifies this
      ensures Sank(cfg, old(State()), formatted, env, State(), ok)
      ensures cfg.base in dir
      ensures old(currentSize) + |formatted| <= cfg.maxSize || old(dir)[cfg.base].contents == [] ==>
        && ok && dir == old(dir)[cfg.base := File(old(dir)[cfg.base].contents + formatted, env.now)]
        && currentSize == old(currentSize) + |formatted|
    {
      var newSize := currentSize + |formatted|;
      if newSize > cfg.maxSize {
        if |dir[cfg.base].contents| > 0 {
          ok := Rotate(env);
          if !ok {
            return;
          }
          newSize := |formatted|;
        }
      }
      dir := Append(dir, cfg.base, formatted, env.now);
      currentSize := newSize;
      ok := true;
    }
  }
}
