/**
 Loading a kernel module with its dependencies (`ProbeOptions`, `loadDeps`
 and `loadModule` of `kmodule_linux.go`).

 The map of dependencies is what `genDeps` has read: no module is `loading`
 in it.  Which modules the kernel refuses is a given set, empty for a dry run;
 the log lists the modules handed to `loadModule` that were not refused.
 */
module ModuleLoader {
  import opened Wrappers

  type Path = string

  datatype ModState = Unloaded | Loading | Loaded | Builtin

  datatype Error = NotFound(path: Path) | Circular(path: Path) | Refused(path: Path)

  type DepMap = map<Path, seq<Path>>
  type States = map<Path, ModState>

  // ----- the graph

  /** The module has to be loaded. */
  predicate Needed(initial: States, p: Path) {
    p in initial && initial[p] == Unloaded
  }

  /** Each module but the last has to be loaded and depends on the next one. */
  ghost predicate Chain(deps: DepMap, initial: States, c: seq<Path>) {
    && c != []
    && forall i :: 0 <= i < |c| - 1 ==> c[i] in deps && Needed(initial, c[i]) && c[i + 1] in deps[c[i]]
  }

  /**
   A reason why the first module of the chain cannot be loaded: the last one
   is unknown, is on the chain before, or is refused.
   */
  ghost predicate Obstacle(deps: DepMap, initial: States, refused: set<Path>, c: seq<Path>) {
    && Chain(deps, initial, c)
    && var last := c[|c| - 1];
       last !in deps || last in c[..|c| - 1] || (Needed(initial, last) && last in refused)
  }

  /**
   A log without repetitions, of modules that had to be loaded and were not
   refused, each after everything it needs.
   */
  ghost predicate DepsFirst(deps: DepMap, initial: States, refused: set<Path>, log: seq<Path>) {
    && (forall i, j :: 0 <= i < j < |log| ==> log[i] != log[j])
    && (forall i :: 0 <= i < |log| ==>
          && log[i] in deps && Needed(initial, log[i]) && log[i] !in refused
          && forall q :: q in deps[log[i]] ==> q in deps && (Needed(initial, q) ==> q in log[..i]))
  }

  /** A chain that begins in the log goes backwards in it, so that it meets no obstacle. */
  lemma {:induction false} ChainsGoBack(deps: DepMap, initial: States, refused: set<Path>, log: seq<Path>,
      c: seq<Path>, i: nat)
    requires DepsFirst(deps, initial, refused, log) && Chain(deps, initial, c) && i < |log| && log[i] == c[0]
    ensures forall k :: 0 < k < |c| ==> c[k] != c[0] && (Needed(initial, c[k]) ==> c[k] in log[..i])
    ensures !Obstacle(deps, initial, refused, c)
    decreases i
  {
    if |c| > 1 {
      var q := c[1];
      assert c[1] in deps[c[0]];
      assert q in deps;
      if Needed(initial, q) {
        var j :| 0 <= j < i && log[j] == q;
        var rest := c[1..];
        ChainsGoBack(deps, initial, refused, log, rest, j);
        forall k | 0 < k < |c| ensures c[k] != c[0] && (Needed(initial, c[k]) ==> c[k] in log[..i]) {
          assert rest[k - 1] == c[k];
          assert Needed(initial, c[0]);
          if Needed(initial, c[k]) {
            assert rest[k - 1] in log[..j + 1];
          }
        }
        assert rest[..|rest| - 1] == c[1..|c| - 1];
        forall k | 0 < k < |c| - 1 ensures c[k] != c[|c| - 1] {
          assert rest[..|rest| - 1][k - 1] == c[k];
        }
      } else {
        assert |c| == 2;
        assert c[..1] == [c[0]];
      }
    }
  }

  /** No chain from a module that has to be loaded meets an obstacle. */
  ghost predicate CanLoad(deps: DepMap, initial: States, refused: set<Path>, p: Path) {
    Needed(initial, p) ==> forall c :: Chain(deps, initial, c) && c[0] == p ==> !Obstacle(deps, initial, refused, c)
  }

  lemma InOrderMeansLoadable(deps: DepMap, initial: States, refused: set<Path>, log: seq<Path>, p: Path)
    requires DepsFirst(deps, initial, refused, log) && log != [] && log[|log| - 1] == p
    ensures CanLoad(deps, initial, refused, p)
  {
    forall c | Chain(deps, initial, c) && c[0] == p ensures !Obstacle(deps, initial, refused, c) {
      ChainsGoBack(deps, initial, refused, log, c, |log| - 1);
    }
  }

  lemma LogMore(deps: DepMap, initial: States, refused: set<Path>, log: seq<Path>, p: Path)
    requires DepsFirst(deps, initial, refused, log) && p !in log
    requires p in deps && Needed(initial, p) && p !in refused
    requires forall q :: q in deps[p] ==> q in deps && (Needed(initial, q) ==> q in log)
    ensures DepsFirst(deps, initial, refused, log + [p])
  {
    var more := log + [p];
    forall i | 0 <= i < |more| ensures more[..i] == if i < |log| then log[..i] else log {
    }
  }

  /** Only modules that had to be loaded have changed; the open ones are marked as `loading`. */
  ghost predicate Marks(initial: States, state: States, open: seq<Path>)
    requires state.Keys == initial.Keys
  {
    && (forall p :: p in state ==> initial[p] != Loading && (state[p] == Loading <==> p in open))
    && (forall p :: p in state && state[p] != initial[p] ==>
          initial[p] == Unloaded && (state[p] == Loading || state[p] == Loaded))
  }

  /** The log holds the modules that are loaded now. */
  ghost predicate Logged(initial: States, state: States, log: seq<Path>)
    requires state.Keys == initial.Keys
  {
    forall p :: p in state && initial[p] == Unloaded ==> (p in log <==> state[p] == Loaded)
  }

  lemma OpenKeeps(initial: States, state: States, log: seq<Path>, open: seq<Path>, p: Path)
    requires state.Keys == initial.Keys && Marks(initial, state, open) && Logged(initial, state, log)
    requires p in state && state[p] == Unloaded
    ensures Marks(initial, state[p := Loading], open + [p]) && Logged(initial, state[p := Loading], log)
    ensures p !in open && Needed(initial, p)
  {
    assert initial[p] == Unloaded;
  }

  lemma CloseKeeps(initial: States, state: States, log: seq<Path>, open: seq<Path>, p: Path)
    requires state.Keys == initial.Keys && Marks(initial, state, open + [p]) && Logged(initial, state, log)
    requires p !in open && Needed(initial, p)
    ensures Marks(initial, state[p := Loaded], open) && Logged(initial, state[p := Loaded], log + [p])
    ensures p in open + [p] && p !in log
  {
    assert (open + [p])[|open|] == p;
    assert state[p] == Loading;
  }

  class Modules {
    const deps: DepMap
    const refused: set<Path>
    var state: States
    var log: seq<Path>

    /** The states before. */
    ghost const initial: States

    ghost predicate Valid(open: seq<Path>)
      reads this
    {
      && state.Keys == deps.Keys == initial.Keys
      && Marks(initial, state, open) && Logged(initial, state, log)
      && DepsFirst(deps, initial, refused, log)
      && (open != [] ==> Chain(deps, initial, open))
    }

    constructor (deps: DepMap, initial: States, refused: set<Path>)
      requires initial.Keys == deps.Keys && forall p :: p in initial ==> initial[p] != Loading
      ensures this.deps == deps && this.initial == initial && this.refused == refused
      ensures state == initial && log == [] && Valid([])
    {
      this.deps, this.initial, this.refused := deps, initial, refused;
      state, log := initial, [];
    }

    ghost function Pending(): set<Path>
      reads this
    {
      set p | p in state && state[p] == Unloaded
    }

    ghost predicate IsObstacle(start: Path, c: seq<Path>, e: Error)
    {
      && Obstacle(deps, initial, refused, c) && c[0] == start && c[|c| - 1] == e.path
      && match e
         case NotFound(p) => p !in deps
         case Circular(p) => p in c[..|c| - 1]
         case Refused(p) => p in refused
    }

    /** `loadModule`. */
    method LoadModule(path: Path) returns (ok: bool)
      modifies `log
      ensures ok == (path !in refused) && log == if ok then old(log) + [path] else old(log)
    {
      ok := path !in refused;
      if ok {
        log := log + [path];
      }
    }

    /** `loadDeps`: afterwards the module is there, or an obstacle has been met. */
    method LoadDeps(path: Path, ghost open: seq<Path>) returns (err: Option<Error>)
      requires open != [] && Valid(open) && Chain(deps, initial, open + [path])
      modifies this
      ensures DepsFirst(deps, initial, refused, log) && old(log) <= log
      ensures err == None ==> Valid(open) && Pending() <= old(Pending())
      ensures err == None ==> path in deps && (Needed(initial, path) ==> path in log)
      ensures err.Some? ==> exists c :: IsObstacle(open[0], c, err.value)
      decreases Pending(), 1
    {
      ghost var chain := open + [path];
      hide DepsFirst, Chain, Obstacle, CanLoad;
      ChainEnds(open, path);
      if path !in state {
        return Some(NotFound(path));
      }
      if state[path] == Loading {
        return Some(Circular(path));
      } else if state[path] == Loaded || state[path] == Builtin {
        return None;
      }
      OpenKeeps(initial, state, log, open, path);
      state := state[path := Loading];
      assert path in old(Pending()) && path !in Pending();
      StillOpen(chain);
      hide Pending, Marks, Logged;
      err := LoadAll(path, chain);
      if err.Some? {
        return;
      }
      err := Finish(path, open);
    }

    lemma StillOpen(open: seq<Path>)
      requires Valid(open)
      ensures forall p :: p in open && p in state ==> state[p] == Loading
    {
    }

    /** What it means to arrive at a module that is unknown, open already or refused. */
    lemma ChainEnds(open: seq<Path>, path: Path)
      requires open != [] && Valid(open) && Chain(deps, initial, open + [path])
      ensures var c := open + [path];
              && (path !in state ==> IsObstacle(open[0], c, NotFound(path)))
              && (path in state && state[path] == Loading ==> IsObstacle(open[0], c, Circular(path)))
              && (Needed(initial, path) && path in refused ==> IsObstacle(open[0], c, Refused(path)))
    {
      var c := open + [path];
      assert c[..|c| - 1] == open && c[0] == open[0];
    }

    /** The module itself, its dependencies being there. */
    method Finish(path: Path, ghost open: seq<Path>) returns (err: Option<Error>)
      requires Valid(open + [path]) && path !in open && open != [] && path in deps && Needed(initial, path)
      requires state[path] == Loading
      requires forall q :: q in deps[path] ==> q in deps && (Needed(initial, q) ==> q in log)
      modifies this
      ensures DepsFirst(deps, initial, refused, log) && old(log) <= log
      ensures err == if path in refused then Some(Refused(path)) else None
      ensures err == None ==> Valid(open) && Pending() == old(Pending()) && path in log
    {
      hide DepsFirst, Chain, Marks, Logged, Needed;
      ChainPrefix(open, path);
      CloseKeeps(initial, state, log, open, path);
      var ok := LoadModule(path);
      if !ok {
        return Some(Refused(path));
      }
      LogMore(deps, initial, refused, old(log), path);
      state := state[path := Loaded];
      return None;
    }

    lemma ChainPrefix(open: seq<Path>, path: Path)
      requires open != [] && Valid(open + [path])
      ensures Chain(deps, initial, open)
    {
      var c := open + [path];
      forall i | 0 <= i < |open| - 1
        ensures open[i] in deps && Needed(initial, open[i]) && open[i + 1] in deps[open[i]]
      {
        assert c[i] == open[i] && c[i + 1] == open[i + 1];
      }
    }

    /** A dependency makes the chain of open modules longer. */
    lemma ChainGrows(open: seq<Path>, path: Path, q: Path)
      requires Valid(open) && open != [] && open[|open| - 1] == path
      requires path in deps && Needed(initial, path) && q in deps[path]
      ensures Chain(deps, initial, open + [q])
    {
      hide DepsFirst, Marks, Logged;
    }

    /** The loop over the dependencies of a module that is marked as `loading`. */
    method LoadAll(path: Path, ghost open: seq<Path>) returns (err: Option<Error>)
      requires Valid(open) && open != [] && open[|open| - 1] == path && path in deps && Needed(initial, path)
      modifies this
      ensures DepsFirst(deps, initial, refused, log) && old(log) <= log
      ensures err == None ==> Valid(open) && Pending() <= old(Pending())
      ensures err == None ==> forall q :: q in deps[path] ==> q in deps && (Needed(initial, q) ==> q in log)
      ensures err.Some? ==> exists c :: IsObstacle(open[0], c, err.value)
      decreases Pending(), 2
    {
      hide DepsFirst, Chain, Marks, Logged, IsObstacle, Needed, Pending;
      for i := 0 to |deps[path]|
        invariant Valid(open) && Pending() <= old(Pending()) && old(log) <= log
        invariant forall j :: 0 <= j < i ==>
                    deps[path][j] in deps && (Needed(initial, deps[path][j]) ==> deps[path][j] in log)
      {
        ChainGrows(open, path, deps[path][i]);
        err := LoadDeps(deps[path][i], open);
        if err.Some? {
          return;
        }
      }
      return None;
    }

    /** The first module that is opened. */
    lemma FirstOpen(p: Path)
      requires Valid([]) && p in state && state[p] == Unloaded
      ensures Chain(deps, initial, [p]) && Needed(initial, p)
    {
    }

    lemma ObstacleStops(p: Path, c: seq<Path>, e: Error)
      requires IsObstacle(p, c, e) && Needed(initial, p)
      ensures !CanLoad(deps, initial, refused, p)
    {
    }

    lemma RefusedAtOnce(p: Path)
      requires p in refused && Needed(initial, p)
      ensures IsObstacle(p, [p], Refused(p))
    {
    }

    /**
     `ProbeOptions` for a module that has been found in the map.  It succeeds
     if and only if no chain from the module meets an obstacle; then the log
     is in order and ends with the module.
     */
    method Probe(modPath: Path) returns (err: Option<Error>)
      requires Valid([]) && log == [] && state == initial && modPath in deps
      modifies this
      ensures DepsFirst(deps, initial, refused, log)
      ensures err.Some? ==> exists c :: IsObstacle(modPath, c, err.value)
      ensures err == None <==> CanLoad(deps, initial, refused, modPath)
      ensures err == None ==> if Needed(initial, modPath) then log != [] && log[|log| - 1] == modPath else log == []
      ensures err == None && Needed(initial, modPath) ==> modPath in state && state[modPath] == Loading
    {
      hide DepsFirst, Chain, Obstacle;
      if state[modPath] == Builtin || state[modPath] == Loaded {
        return None;
      }
      FirstOpen(modPath);
      state := state[modPath := Loading];
      err := LoadAll(modPath, [modPath]);
      if err.Some? {
        ghost var c :| IsObstacle(modPath, c, err.value);
        ObstacleStops(modPath, c, err.value);
        return;
      }
      ghost var done := log;
      var ok := LoadModule(modPath);
      if !ok {
        RefusedAtOnce(modPath);
        ObstacleStops(modPath, [modPath], Refused(modPath));
        return Some(Refused(modPath));
      }
      LogMore(deps, initial, refused, done, modPath);
      InOrderMeansLoadable(deps, initial, refused, log, modPath);
    }
  }
}
