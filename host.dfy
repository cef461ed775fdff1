/**
  The machine the handlers run on, reduced to what they touch: the set of paths of
  existing regular files (`os.path.isfile` is membership, `os.remove` is removal)
  and the external encoder started through `subprocess.run`. Every removal and every
  started command is appended to a log, so that the order of effects can be stated.

  What the encoder does is not modelled beyond its one observable outcome: for each
  command line it either writes the output file it was asked for or writes nothing.
  Which of the two happens is fixed, per command line, by the `encodes` oracle the
  host is created with.
 */
module Host {

  type Path = string

  datatype Effect =
    | Ran(cmd: string)      // a shell command was started
    | Removed(path: Path)   // a file was deleted

  /** The observable state of the host: existing files and the effects so far. */
  datatype Snapshot = Snapshot(files: set<Path>, log: seq<Effect>)

  /** The state after the guarded removal `if os.path.isfile(p): os.remove(p)`. */
  function RemovedIfPresent(st: Snapshot, p: Path): (r: Snapshot)
    ensures p !in r.files
    ensures r.files == st.files - {p}
    ensures r.log == if p in st.files then st.log + [Removed(p)] else st.log
  {
    if p in st.files then Snapshot(st.files - {p}, st.log + [Removed(p)]) else st
  }

  /** The state after running `cmd`, which names `output` as the file it writes. */
  function Started(st: Snapshot, encodes: string -> bool, cmd: string, output: Path): Snapshot
  {
    Snapshot(if encodes(cmd) then st.files + {output} else st.files, st.log + [Ran(cmd)])
  }

  class Host {
    var files: set<Path>
    var log: seq<Effect>
    const encodes: string -> bool

    constructor (existing: set<Path>, encodes: string -> bool)
      ensures files == existing && log == [] && this.encodes == encodes
    {
      files := existing;
      log := [];
      this.encodes := encodes;
    }

    function State(): Snapshot
      reads this
    {
      Snapshot(files, log)
    }

    /** `os.path.isfile(p)`. */
    method IsFile(p: Path) returns (b: bool)
      ensures b <==> p in files
    {
      b := p in files;
    }

    /** `os.remove(p)`; it raises on a missing file, so callers test first. */
    method Remove(p: Path)
      requires p in files
      modifies this
      ensures State() == RemovedIfPresent(old(State()), p)
    {
      files := files - {p};
      log := log + [Removed(p)];
    }

    /** `subprocess.run(cmd, shell=True)` with its exit status ignored. */
    method Run(cmd: string, output: Path)
      modifies this
      ensures State() == Started(old(State()), encodes, cmd, output)
    {
      if encodes(cmd) {
        files := files + {output};
      }
      log := log + [Ran(cmd)];
    }
  }
}
