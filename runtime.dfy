/** The module loader that `generateRuntime()` of src/index.js writes
    into every bundle: `__webpack_require__` over the object `modules`
    (identifier to module function) and the cache `installedModules`.
    A module function is abstract: a script of `require(id)` calls,
    writes `exports[name] = value` to its own exports object, and an
    optional `throw`. An error a script meets is never caught inside it,
    so it leaves the script at once. */
module Runtime {
  import opened Wrappers

  datatype Step =
    | Require(id: string)
    | Export(name: string, value: string)
    | Throw(message: string)

  type Body = seq<Step>

  /** The fields of one exports object. */
  type Fields = map<string, string>

  /** `installedModules`, by the contents of each entry's exports. */
  type Cache = map<string, Fields>

  /** What a require (or a script) leaves behind: its result, the cache,
      and the identifiers whose module function started, in order. */
  datatype Outcome = Outcome(thrown: Option<string>, cache: Cache, runs: seq<string>)

  function NotFound(id: string): string {
    "Cannot find module '" + id + "'"
  }

  // ---------------------------------------------------------------------
  // The loader as functions

  /** The registered identifiers not yet cached: the measure that makes
      every chain of requires finite, cycles included. */
  function Pending(modules: map<string, Body>, c: Cache): set<string> {
    modules.Keys - c.Keys
  }

  /** `__webpack_require__(id)` started with cache `c`. */
  function Load(modules: map<string, Body>, c: Cache, id: string): (o: Outcome)
    ensures c.Keys <= o.cache.Keys
    decreases Pending(modules, c), 2, 0
  {
    if id in c then Outcome(None, c, [])
    else if id !in modules then Outcome(Some(NotFound(id)), c, [])
    else Settle(id, Exec(modules, Pending(modules, c), id, modules[id], c[id := map[]]))
  }

  /** The end of a require that ran the module function of `id` with
      outcome `o`: the entry is deleted when the function threw. */
  function Settle(id: string, o: Outcome): Outcome {
    if o.thrown.Some? then Outcome(o.thrown, o.cache - {id}, [id] + o.runs)
    else Outcome(o.thrown, o.cache, [id] + o.runs)
  }

  /** The rest `steps` of the module function of `id` run on cache `c`;
      `bound` is the measure of the `Load` that started it. The first
      error ends the script. */
  function Exec(modules: map<string, Body>, bound: set<string>, id: string, steps: Body, c: Cache): (o: Outcome)
    requires id in c && Pending(modules, c) < bound
    ensures c.Keys <= o.cache.Keys
    decreases bound, 1, |steps|
  {
    if steps == [] then Outcome(None, c, [])
    else
      var o := Do(modules, bound, id, steps[0], c);
      if o.thrown.Some? then o else Then(o.runs, Exec(modules, bound, id, steps[1..], o.cache))
  }

  /** One step of the module function of `id`: a require, a write to its
      own exports, or a throw. */
  function Do(modules: map<string, Body>, bound: set<string>, id: string, step: Step, c: Cache): (o: Outcome)
    requires id in c && Pending(modules, c) < bound
    ensures c.Keys <= o.cache.Keys
    decreases bound, 0, 0
  {
    match step
    case Require(dep) => Load(modules, c, dep)
    case Export(name, value) => Outcome(None, c[id := c[id][name := value]], [])
    case Throw(message) => Outcome(Some(message), c, [])
  }

  /** The fields the writes of a script that runs to its end give its
      exports object; later writes win. */
  function Writes(steps: Body, f: Fields): Fields {
    if steps == [] then f
    else match steps[0]
      case Export(name, value) => Writes(steps[1..], f[name := value])
      case _ => Writes(steps[1..], f)
  }

  function Then(runs: seq<string>, o: Outcome): Outcome {
    Outcome(o.thrown, o.cache, runs + o.runs)
  }

  lemma Associative(a: seq<string>, b: seq<string>, c: seq<string>)
    ensures a + (b + c) == a + b + c
  {
  }

  /** No identifier repeats. */
  predicate Distinct(s: seq<string>) {
    forall i, j :: 0 <= i < j < |s| ==> s[i] != s[j]
  }

  /** What a require started on cache `c` may do to the starts it records:
      each start is of a registered identifier that was not cached, none
      repeats, everything newly cached started, and without an error
      everything that started stays cached. */
  predicate RunsSound(modules: map<string, Body>, c: Cache, o: Outcome) {
    && Distinct(o.runs)
    && (forall x :: x in o.runs ==> x in modules && x !in c)
    && (forall x :: x in o.cache ==> x in c || x in o.runs)
    && (o.thrown.None? ==> forall x :: x in o.runs ==> x in o.cache)
  }

  // ---------------------------------------------------------------------
  // The loader as a class

  /** One evaluation of the bundle's outer function: the module functions
      it is given, and its cache `installed`, identifier to the fields of
      the entry's exports object. `runs` records each start of a module
      function. */
  class Loader {
    const modules: map<string, Body>
    var installed: Cache
    ghost var runs: seq<string>

    constructor(modules: map<string, Body>)
      ensures this.modules == modules && installed == map[] && runs == []
    {
      this.modules := modules;
      installed := map[];
      runs := [];
    }

    /** `__webpack_require__(id)`: the exports it returns are the entry's
        in the cache it leaves. */
    method Require(id: string) returns (r: Result<Fields, string>)
      modifies this
      decreases Pending(modules, installed), 2, 0
      ensures installed == Load(modules, old(installed), id).cache
      ensures runs == old(runs) + Load(modules, old(installed), id).runs
      ensures r.Err? <==> Load(modules, old(installed), id).thrown.Some?
      ensures r.Err? ==> Load(modules, old(installed), id).thrown == Some(r.error)
      ensures r.Ok? ==> id in installed && r.value == installed[id]
    {
      ghost var o := Load(modules, installed, id);
      if id in installed {
        return Ok(installed[id]);
      }
      if id !in modules {
        return Err(NotFound(id));
      }
      var moduleFunction := modules[id];
      installed := installed[id := map[]];
      runs := runs + [id];
      ghost var bound := Pending(modules, old(installed));
      assert o == Settle(id, Exec(modules, bound, id, moduleFunction, installed));
      var outcome := Call(id, moduleFunction, bound);
      if outcome.Some? {
        installed := installed - {id};
        return Err(outcome.value);
      }
      return Ok(installed[id]);
    }

    /** `moduleFunction.call(module.exports, __webpack_require__, module,
        module.exports)`: runs the script `body` of `id`, whose writes go
        to the entry of `id`. An error leaves the script at once. */
    method Call(id: string, body: Body, ghost bound: set<string>) returns (thrown: Option<string>)
      requires id in installed && Pending(modules, installed) < bound
      modifies this
      decreases bound, 1, |body|
      ensures installed == Exec(modules, bound, id, body, old(installed)).cache
      ensures runs == old(runs) + Exec(modules, bound, id, body, old(installed)).runs
      ensures thrown == Exec(modules, bound, id, body, old(installed)).thrown
    {
      if body == [] {
        return None;
      }
      ghost var first := Do(modules, bound, id, body[0], installed);
      thrown := Perform(id, body[0], bound);
      if thrown.Some? {
        return;
      }
      ghost var middle := runs;
      thrown := Call(id, body[1..], bound);
      Associative(old(runs), first.runs, runs[|middle|..]);
    }

    /** One statement of a module function. */
    method Perform(id: string, step: Step, ghost bound: set<string>) returns (thrown: Option<string>)
      requires id in installed && Pending(modules, installed) < bound
      modifies this
      decreases bound, 0, 0
      ensures installed == Do(modules, bound, id, step, old(installed)).cache
      ensures runs == old(runs) + Do(modules, bound, id, step, old(installed)).runs
      ensures thrown == Do(modules, bound, id, step, old(installed)).thrown
    {
      match step
      case Require(dep) =>
        var required := Require(dep);
        thrown := if required.Ok? then None else Some(required.error);
      case Export(name, value) =>
        installed := installed[id := installed[id][name := value]];
        thrown := None;
      case Throw(message) =>
        thrown := Some(message);
    }
  }

  /** The bundle's last line, `return __webpack_require__(entry)`, on a
      fresh cache. */
  method Start(modules: map<string, Body>, entry: string) returns (loader: Loader, r: Result<Fields, string>)
    ensures loader.modules == modules
    ensures loader.installed == Load(modules, map[], entry).cache
    ensures loader.runs == Load(modules, map[], entry).runs
    ensures r.Err? <==> Load(modules, map[], entry).thrown.Some?
    ensures r.Err? ==> Load(modules, map[], entry).thrown == Some(r.error)
  {
    loader := new Loader(modules);
    r := loader.Require(entry);
  }

  // ---------------------------------------------------------------------
  // Properties of the loader

  lemma DistinctConcat(a: seq<string>, b: seq<string>)
    requires Distinct(a) && Distinct(b)
    requires forall x :: x in a ==> x !in b
    ensures Distinct(a + b)
  {
    forall i, j | 0 <= i < j < |a + b|
      ensures (a + b)[i] != (a + b)[j]
    {
      if j < |a| {
        assert (a + b)[i] == a[i] && (a + b)[j] == a[j];
      } else if i >= |a| {
        assert (a + b)[i] == b[i - |a|] && (a + b)[j] == b[j - |a|];
      } else {
        assert (a + b)[i] == a[i] && a[i] in a && (a + b)[j] == b[j - |a|];
      }
    }
  }

  /** A require never changes the entry of an identifier that was cached
      when it started. */
  lemma {:induction false} LoadKeeps(modules: map<string, Body>, c: Cache, id: string)
    ensures forall x :: x in c ==> Load(modules, c, id).cache[x] == c[x]
    decreases Pending(modules, c), 2, 0
  {
    if id !in c && id in modules {
      ExecKeeps(modules, Pending(modules, c), id, modules[id], c[id := map[]]);
    }
  }

  /** A script changes no entry but its own among those cached when it
      started. */
  lemma {:induction false} ExecKeeps(modules: map<string, Body>, bound: set<string>, id: string, steps: Body, c: Cache)
    requires id in c && Pending(modules, c) < bound
    ensures forall x :: x in c && x != id ==> Exec(modules, bound, id, steps, c).cache[x] == c[x]
    decreases bound, 1, |steps|
  {
    if steps != [] {
      var o := Do(modules, bound, id, steps[0], c);
      DoKeeps(modules, bound, id, steps[0], c);
      if o.thrown.None? {
        ExecKeeps(modules, bound, id, steps[1..], o.cache);
      }
    }
  }

  lemma {:induction false} DoKeeps(modules: map<string, Body>, bound: set<string>, id: string, step: Step, c: Cache)
    requires id in c && Pending(modules, c) < bound
    ensures forall x :: x in c && x != id ==> Do(modules, bound, id, step, c).cache[x] == c[x]
    decreases bound, 0, 0
  {
    if step.Require? {
      LoadKeeps(modules, c, step.id);
    }
  }

  /** Every require keeps `RunsSound`: within one chain of requires a module
      function starts at most once, and only for a registered identifier
      that was not cached; a run that ends without an error leaves exactly
      the modules that started newly cached. */
  lemma {:induction false} LoadRuns(modules: map<string, Body>, c: Cache, id: string)
    ensures RunsSound(modules, c, Load(modules, c, id))
    decreases Pending(modules, c), 2, 0
  {
    if id !in c && id in modules {
      var installing := c[id := map[]];
      var e := Exec(modules, Pending(modules, c), id, modules[id], installing);
      ExecRuns(modules, Pending(modules, c), id, modules[id], installing);
      assert id !in e.runs;
      DistinctConcat([id], e.runs);
    }
  }

  lemma {:induction false} ExecRuns(modules: map<string, Body>, bound: set<string>, id: string, steps: Body, c: Cache)
    requires id in c && Pending(modules, c) < bound
    ensures RunsSound(modules, c, Exec(modules, bound, id, steps, c))
    decreases bound, 1, |steps|
  {
    if steps != [] {
      var o := Do(modules, bound, id, steps[0], c);
      DoRuns(modules, bound, id, steps[0], c);
      if o.thrown.None? {
        var rest := Exec(modules, bound, id, steps[1..], o.cache);
        ExecRuns(modules, bound, id, steps[1..], o.cache);
        DistinctConcat(o.runs, rest.runs);
        assert Exec(modules, bound, id, steps, c) == Then(o.runs, rest);
      }
    }
  }

  lemma {:induction false} DoRuns(modules: map<string, Body>, bound: set<string>, id: string, step: Step, c: Cache)
    requires id in c && Pending(modules, c) < bound
    ensures RunsSound(modules, c, Do(modules, bound, id, step, c))
    decreases bound, 0, 0
  {
    if step.Require? {
      LoadRuns(modules, c, step.id);
    }
  }

  /** A script that runs to its end leaves its own entry holding exactly
      its writes, in order, over what the entry held before. */
  lemma {:induction false} ExecWrites(modules: map<string, Body>, bound: set<string>, id: string, steps: Body, c: Cache)
    requires id in c && Pending(modules, c) < bound
    ensures var o := Exec(modules, bound, id, steps, c);
      o.thrown.None? ==> o.cache[id] == Writes(steps, c[id])
    decreases |steps|
  {
    if steps != [] {
      var o := Do(modules, bound, id, steps[0], c);
      if steps[0].Require? {
        LoadKeeps(modules, c, steps[0].id);
      }
      if o.thrown.None? {
        ExecWrites(modules, bound, id, steps[1..], o.cache);
      }
    }
  }

  /** A require that fetches an identifier from the cache runs nothing and
      changes nothing; one of an unregistered identifier throws "Cannot
      find module"; one that runs the module function to its end returns
      its writes. */
  lemma LoadFacts(modules: map<string, Body>, c: Cache, id: string)
    ensures id in c ==> Load(modules, c, id) == Outcome(None, c, [])
    ensures id !in c && id !in modules ==> Load(modules, c, id) == Outcome(Some("Cannot find module '" + id + "'"), c, [])
    ensures id !in c && Load(modules, c, id).thrown.None? ==>
      id in modules && Load(modules, c, id).cache[id] == Writes(modules[id], map[])
  {
    if id !in c && id in modules {
      ExecWrites(modules, Pending(modules, c), id, modules[id], c[id := map[]]);
    }
  }

  /** A require whose module function throws leaves no entry for it, so a
      later require of the same identifier starts it again. */
  lemma ThrowForgets(modules: map<string, Body>, c: Cache, id: string)
    requires id !in c && Load(modules, c, id).thrown.Some?
    ensures id !in Load(modules, c, id).cache
    ensures id in modules ==>
      var again := Load(modules, Load(modules, c, id).cache, id);
      again.runs != [] && again.runs[0] == id
  {
    if id in modules {
      var e := Exec(modules, Pending(modules, c), id, modules[id], c[id := map[]]);
      assert Load(modules, c, id) == Settle(id, e);
    }
  }

  /** The rest of a script that is one write. */
  lemma LastWrite(modules: map<string, Body>, bound: set<string>, id: string, name: string, value: string, c: Cache)
    requires id in c && Pending(modules, c) < bound
    ensures Exec(modules, bound, id, [Export(name, value)], c) == Outcome(None, c[id := c[id][name := value]], [])
  {
    assert [Export(name, value)][1..] == [];
  }

  /** A module function that requires a cached identifier and then
      writes one field runs once and leaves just that field. */
  lemma RequireCachedThenWrite(modules: map<string, Body>, c: Cache, a: string, b: string, name: string, vb: string)
    requires a in c && b !in c
    requires b in modules && modules[b] == [Require(a), Export(name, vb)]
    ensures Load(modules, c, b) == Outcome(None, c[b := map[name := vb]], [b])
  {
    var cb := c[b := map[]];
    var pb := Pending(modules, c);
    assert b in pb && b !in Pending(modules, cb);
    assert Do(modules, pb, b, Require(a), cb) == Outcome(None, cb, []);
    assert modules[b][1..] == [Export(name, vb)];
    LastWrite(modules, pb, b, name, vb, cb);
    assert cb[b := map[name := vb]] == c[b := map[name := vb]];
  }

  /** Two modules that require each other: the inner require of `a` finds
      the entry installed before `a`'s function ran, so each function runs
      once and both entries end up holding their writes. */
  lemma Cycle(modules: map<string, Body>, c: Cache, a: string, b: string, name: string, va: string, vb: string)
    requires a != b && a !in c && b !in c
    requires a in modules && modules[a] == [Require(b), Export(name, va)]
    requires b in modules && modules[b] == [Require(a), Export(name, vb)]
    ensures var o := Load(modules, c, a);
      && o.thrown == None && o.runs == [a, b]
      && o.cache.Keys == c.Keys + {a, b}
      && o.cache[a] == map[name := va] && o.cache[b] == map[name := vb]
  {
    var ca := c[a := map[]];
    RequireCachedThenWrite(modules, ca, a, b, name, vb);
    var after := ca[b := map[name := vb]];
    var pa := Pending(modules, c);
    assert a in pa && a !in Pending(modules, ca);
    assert Load(modules, c, a) == Settle(a, Exec(modules, pa, a, modules[a], ca));
    assert Do(modules, pa, a, Require(b), ca) == Outcome(None, after, [b]);
    assert modules[a][1..] == [Export(name, va)];
    LastWrite(modules, pa, a, name, va, after);
  }

  /** A module that requires one whose function throws: both entries are
      deleted, both functions ran, and the error reaches the outer caller
      unchanged. */
  lemma FailingChain(modules: map<string, Body>, c: Cache, a: string, b: string, message: string)
    requires a != b && a !in c && b !in c
    requires a in modules && modules[a] == [Require(b)]
    requires b in modules && modules[b] == [Throw(message)]
    ensures Load(modules, c, a) == Outcome(Some(message), c, [a, b])
  {
    var ca := c[a := map[]];
    var cb := ca[b := map[]];
    assert Exec(modules, Pending(modules, ca), b, modules[b], cb) == Outcome(Some(message), cb, []);
    assert Load(modules, ca, b) == Outcome(Some(message), ca, [b]);
    assert Exec(modules, Pending(modules, c), a, modules[a], ca) == Outcome(Some(message), ca, [b]);
    assert ca - {a} == c;
  }
}
