/** Loading modules: load_module_graph, load_marked_modules and the load sequence of
    load_modules. */
module ModuleLoading {
  import opened Wrappers
  import opened Names
  import opened ModuleGraphs

  datatype State = Uninstalled | Installed | ToInstall | ToUpgrade | ToRemove

  // ir_module_module: the state of each module known to the database.
  type StateTable = map<Name, State>

  // What loading the data of a module may do to that table.
  type Effect = (Name, StateTable) -> StateTable

  const BASE: Name := "base"

  // Loaded so far: no module twice, each after all its dependencies.
  ghost predicate LoadedInOrder(infos: Descriptors, loaded: seq<Name>)
  {
    forall j :: 0 <= j < |loaded| ==>
      && loaded[j] !in loaded[..j]
      && loaded[j] in infos
      && forall d :: d in infos[loaded[j]].depends ==> d in loaded[..j]
  }

  lemma LoadedOneMore(infos: Descriptors, loaded: seq<Name>, n: Name)
    requires LoadedInOrder(infos, loaded) && n in infos && n !in loaded
    requires forall d :: d in infos[n].depends ==> d in loaded
    ensures LoadedInOrder(infos, loaded + [n])
  {
    var all := loaded + [n];
    forall j | 0 <= j < |all|
      ensures all[j] !in all[..j] && all[j] in infos && forall d :: d in infos[all[j]].depends ==> d in all[..j]
    {
      assert all[..j] == loaded[..j];
      assert j == |loaded| ==> loaded[..j] == loaded;
    }
  }

  // Whether a module is marked with one of some states.
  predicate Marked(states: StateTable, wanted: set<State>, n: Name)
  {
    n in states && states[n] in wanted
  }

  // Every module marked with one of the wanted states is in the graph, cannot be installed, or lacks a dependency.
  ghost predicate Exhausted(infos: Descriptors, graph: set<Name>, states: StateTable, wanted: set<State>)
  {
    forall n :: Marked(states, wanted, n) ==>
      n in graph || n !in infos || !infos[n].installable || exists d :: d in infos[n].depends && d !in graph
  }

  // Whether the configuration or its state asks for a module to be installed or upgraded.
  predicate ToLoadData(states: StateTable, flagged: (Kind, Name) -> bool, n: Name)
  {
    flagged(Init, n) || flagged(Update, n) || Marked(states, {ToInstall, ToUpgrade}, n)
  }

  // The installable modules marked with one of some states.
  function MarkedSet(infos: Descriptors, states: StateTable, wanted: set<State>): set<Name>
  {
    set n | n in states && states[n] in wanted && n in infos && infos[n].installable
  }

  // The least set that holds the old modules and every requested one whose dependencies it holds.
  ghost function LeastSet(infos: Descriptors, before: set<Name>, requested: set<Name>): (s: set<Name>)
    ensures LeastClosed(s, before, requested, infos)
    decreases |requested - before|
  {
    if n :| n in requested - before && Met(infos, n, before) then
      assert requested - (before + {n}) == requested - before - {n};
      var s := LeastSet(infos, before + {n}, requested);
      LeastOneMore(infos, before, requested, n, s);
      s
    else before
  }

  lemma LeastOneMore(infos: Descriptors, before: set<Name>, requested: set<Name>, n: Name, s: set<Name>)
    requires n in requested && Met(infos, n, before) && LeastClosed(s, before + {n}, requested, infos)
    ensures LeastClosed(s, before, requested, infos)
  {
    forall t | ClosedUnder(t, before, requested, infos)
      ensures s <= t
    {
      assert Met(infos, n, t);
      assert ClosedUnder(t, before + {n}, requested, infos);
    }
  }

  // Outside a set, two state tables say the same.
  ghost predicate AgreeOutside(s: StateTable, t: StateTable, g: set<Name>)
  {
    forall n :: n !in g ==> (n in s <==> n in t) && (n in s && n in t ==> s[n] == t[n])
  }

  // Loading a module changes the state of no other.
  ghost predicate Quiet(effect: Effect)
  {
    forall n, states {:trigger effect(n, states)} :: AgreeOutside(states, effect(n, states), {n})
  }

  // The states after some packages have been processed one after the other.
  ghost function AfterProcessing(effect: Effect, states: StateTable, processed: seq<Name>): StateTable
  {
    if processed == [] then states
    else
      var n := processed[|processed| - 1];
      effect(n, AfterProcessing(effect, states, processed[..|processed| - 1]))[n := Installed]
  }

  lemma AfterOneMore(effect: Effect, states: StateTable, processed: seq<Name>, n: Name)
    ensures AfterProcessing(effect, states, processed + [n]) == effect(n, AfterProcessing(effect, states, processed))[n := Installed]
  {
    assert (processed + [n])[..|processed|] == processed;
  }

  lemma {:induction false} AfterMore(effect: Effect, states: StateTable, processed: seq<Name>, more: seq<Name>)
    ensures AfterProcessing(effect, states, processed + more) == AfterProcessing(effect, AfterProcessing(effect, states, processed), more)
  {
    if more == [] {
      assert processed + more == processed;
    } else {
      var all := processed + more;
      assert all[..|all| - 1] == processed + more[..|more| - 1];
      AfterMore(effect, states, processed, more[..|more| - 1]);
    }
  }

  // Quiet loading leaves the processed packages installed and changes no other state.
  lemma {:induction false} QuietProcessing(effect: Effect, states: StateTable, processed: seq<Name>, g: set<Name>)
    requires Quiet(effect) && forall n :: n in processed ==> n in g
    ensures var after := AfterProcessing(effect, states, processed);
            && AgreeOutside(states, after, g)
            && (forall n :: n !in processed ==> (n in states <==> n in after) && (n in states ==> after[n] == states[n]))
            && (forall n :: n in processed ==> n in after && after[n] == Installed)
  {
    if processed != [] {
      var front, last := processed[..|processed| - 1], processed[|processed| - 1];
      assert processed == front + [last];
      QuietProcessing(effect, states, front, g);
      var before := AfterProcessing(effect, states, front);
      assert AgreeOutside(before, effect(last, before), {last});
    }
  }

  // The states the first step starts from, and the packages it processes.
  function BaseStart(states: StateTable, updateBase: bool): StateTable
  {
    if updateBase && Marked(states, {Installed}, BASE) then states[BASE := ToUpgrade] else states
  }

  function BaseProcessed(states: StateTable, updateBase: bool, flagged: (Kind, Name) -> bool): seq<Name>
  {
    if (updateBase && Marked(states, {Installed}, BASE)) || ToLoadData(states, flagged, BASE) then [BASE] else []
  }

  class Loader {
    const graph: Graph
    const infos: Descriptors             // what the descriptor files say
    const flagged: (Kind, Name) -> bool  // what the configuration and `force` ask for
    const effect: Effect
    var states: StateTable               // the database
    var packageStates: StateTable        // the `state` attribute of the graph's nodes
    var loaded: seq<Name>                // loaded_modules

    ghost predicate Valid()
      reads this, graph
    {
      && graph.Valid(infos)
      && LoadedInOrder(infos, loaded)
      && (forall n :: n in loaded ==> n in graph.depth)
    }

    constructor (infos: Descriptors, flagged: (Kind, Name) -> bool, effect: Effect, states: StateTable)
      ensures this.infos == infos && this.flagged == flagged && this.effect == effect && this.states == states
      ensures fresh(graph) && graph.depth == map[] && loaded == [] && Valid()
    {
      this.infos, this.flagged, this.effect := infos, flagged, effect;
      this.states, packageStates, loaded := states, map[], [];
      graph := new Graph();
    }

    predicate HasFlag(kind: Kind, n: Name)
      reads graph
    {
      (kind, n) in graph.flags
    }

    // Whether a package is to be installed or upgraded.
    predicate ToProcess(n: Name)
      reads this, graph
    {
      HasFlag(Init, n) || HasFlag(Update, n) || Marked(packageStates, {ToInstall, ToUpgrade}, n)
    }

    // Load one package: its models, and its data when it is to be installed or upgraded.
    method LoadPackage(n: Name) returns (didProcess: bool)
      requires Valid() && n in graph.depth && n !in loaded
      requires n in infos && forall d :: d in infos[n].depends ==> d in loaded
      modifies this`states, this`packageStates, this`loaded, graph`flags
      ensures Valid() && loaded == old(loaded) + [n]
      ensures didProcess == old(ToProcess(n))
      ensures didProcess <==> (Init, n) in old(graph.flags) || (Update, n) in old(graph.flags)
                              || (n in old(packageStates) && (old(packageStates)[n] == ToInstall || old(packageStates)[n] == ToUpgrade))
      ensures forall m :: m != n ==> ToProcess(m) == old(ToProcess(m))
      ensures forall k, m :: (k, m) in graph.flags <==> (k, m) in old(graph.flags) && !(didProcess && m == n)
      ensures didProcess ==> packageStates == old(packageStates)[n := Installed]
      ensures didProcess ==> states == effect(n, old(states))[n := Installed]
      ensures Quiet(effect) ==> AgreeOutside(old(states), states, {n})
      ensures !didProcess ==> packageStates == old(packageStates) && states == old(states)
    {
      loaded := loaded + [n];
      didProcess := ToProcess(n);
      if didProcess {
        states := effect(n, states);
        states := states[n := Installed];
        packageStates := packageStates[n := Installed];
        graph.flags := set f | f in graph.flags && f.1 != n;
      }
      LoadedOneMore(infos, old(loaded), n);
      forall m | m != n
        ensures ToProcess(m) == old(ToProcess(m))
      {
        assert forall k :: (k, m) in graph.flags <==> (k, m) in old(graph.flags);
      }
    }

    // Load the packages of the graph that are not loaded yet.
    method LoadModuleGraph() returns (processed: seq<Name>)
      requires Valid()
      modifies this`states, this`packageStates, this`loaded, graph`flags
      ensures Valid() && old(loaded) <= loaded
      ensures forall n :: n in loaded <==> n in graph.depth
      ensures NoRepeats(processed) && forall n :: n in processed ==> n in loaded && n !in old(loaded)
      ensures states == AfterProcessing(effect, old(states), processed)
      ensures forall n :: n in processed ==> old(ToProcess(n))
      ensures forall n :: n in graph.depth && n !in old(loaded) && old(ToProcess(n)) ==> n in processed
    {
      ghost var todo := set n | n in graph.depth && n !in loaded && ToProcess(n);
      var order := graph.Iterate();
      processed := LoadAll(order, todo);
    }

    // The loop over the packages.
    method LoadAll(order: seq<Name>, ghost todo: set<Name>) returns (processed: seq<Name>)
      requires Valid() && InOrder(graph.depth, order) && forall n :: n in order <==> n in graph.depth
      requires StillToDo(todo) && forall n :: n in todo ==> n in graph.depth && n !in loaded
      modifies this`states, this`packageStates, this`loaded, graph`flags
      ensures Valid() && old(loaded) <= loaded
      ensures forall n :: n in loaded <==> n in graph.depth
      ensures NoRepeats(processed) && forall n :: n in processed <==> n in todo
      ensures states == AfterProcessing(effect, old(states), processed)
    {
      var skipModules := loaded;
      ghost var depth, states0 := graph.depth, states;
      processed := [];
      var i := 0;
      while i < |order|
        invariant 0 <= i <= |order| && Valid() && graph.depth == depth && skipModules <= loaded
        invariant LoadedUpTo(order[..i], skipModules, loaded, processed, todo)
        invariant states == AfterProcessing(effect, states0, processed) && StillToDo(todo)
      {
        processed := LoadNext(order, i, skipModules, processed, todo, states0);
        i := i + 1;
      }
      assert order[..i] == order;
    }

    // Of the modules not loaded yet, those in todo are to be processed.
    ghost predicate StillToDo(todo: set<Name>)
      reads this, graph
    {
      forall n :: n in graph.depth && n !in loaded ==> (ToProcess(n) <==> n in todo)
    }

    // The package at i, unless it is to be skipped.
    method LoadNext(order: seq<Name>, i: nat, skipModules: seq<Name>, processed0: seq<Name>, ghost todo: set<Name>, ghost states0: StateTable)
      returns (processed: seq<Name>)
      requires Valid() && i < |order| && InOrder(graph.depth, order) && forall n :: n in order <==> n in graph.depth
      requires LoadedUpTo(order[..i], skipModules, loaded, processed0, todo) && forall n :: n in todo ==> n !in skipModules
      requires states == AfterProcessing(effect, states0, processed0) && StillToDo(todo)
      modifies this`states, this`packageStates, this`loaded, graph`flags
      ensures Valid() && old(loaded) <= loaded
      ensures LoadedUpTo(order[..i + 1], skipModules, loaded, processed, todo)
      ensures states == AfterProcessing(effect, states0, processed) && StillToDo(todo)
    {
      var n := order[i];
      processed := processed0;
      ReadyToLoad(infos, graph.depth, order, i);
      LoadedOneOn(order[..i], n, skipModules, loaded, processed, todo);
      OneMoreSeen(order, i);
      if n !in skipModules {
        var didProcess := LoadPackage(n);
        if didProcess {
          AfterOneMore(effect, states0, processed, n);
          processed := processed + [n];
        }
      }
    }

    // graph.add_modules(module_list, force), with the states of the graph's nodes read again.
    method AddToGraph(moduleList: seq<Name>)
      requires Valid()
      modifies this`packageStates, graph
      ensures Valid()
      ensures LeastClosed(graph.depth.Keys, old(graph.depth.Keys), Requested(infos, moduleList), infos)
      ensures forall n :: n in Requested(infos, moduleList) - graph.depth.Keys ==> exists d :: d in infos[n].depends && d !in graph.depth
      ensures graph.depth != map[] ==>
                packageStates == map n | n in graph.depth :: if n in states then states[n] else Uninstalled
      ensures old(graph.flags) <= graph.flags
      ensures var asked := Requested(infos, moduleList) * graph.depth.Keys;
              AskedIn(graph.flags, asked, flagged) && NoMoreThan(graph.children, graph.flags, old(graph.flags), asked, flagged)
    {
      var added, later := graph.AddModules(infos, moduleList, flagged);
      if |graph.depth| != 0 {
        packageStates := map n | n in graph.depth :: if n in states then states[n] else Uninstalled;
      }
    }

    // The marked modules that are not in the graph, in no particular order.
    method MarkedModules(wanted: set<State>) returns (moduleList: seq<Name>)
      ensures forall n :: n in moduleList <==> Marked(states, wanted, n) && n !in graph.depth
    {
      moduleList := [];
      var rest := states.Keys;
      while rest != {}
        invariant rest <= states.Keys
        invariant forall n :: n in moduleList <==> n !in rest && Marked(states, wanted, n) && n !in graph.depth
        decreases rest
      {
        var n := Pick(rest);
        if states[n] in wanted && n !in graph.depth {
          moduleList := moduleList + [n];
        }
        rest := rest - {n};
      }
    }

    // One round: the modules marked now that are not in the graph are added to it, and loaded.
    method LoadRound(wanted: set<State>) returns (more: seq<Name>, ghost moduleList: seq<Name>)
      requires Valid() && forall n :: n in loaded <==> n in graph.depth
      modifies this`states, this`packageStates, this`loaded, graph
      ensures Valid() && old(loaded) <= loaded && forall n :: n in loaded <==> n in graph.depth
      ensures forall n :: n in moduleList <==> Marked(old(states), wanted, n) && n !in old(graph.depth)
      ensures LeastClosed(graph.depth.Keys, old(graph.depth.Keys), Requested(infos, moduleList), infos)
      ensures forall n :: n in Requested(infos, moduleList) - graph.depth.Keys ==> exists d :: d in infos[n].depends && d !in graph.depth
      ensures NoRepeats(more) && forall n :: n in more ==> n in loaded && n !in old(loaded)
      ensures states == AfterProcessing(effect, old(states), more)
      ensures forall n :: n in graph.depth && n !in old(graph.depth) && ToLoadData(old(states), flagged, n) ==> n in more
    {
      var list := MarkedModules(wanted);
      moduleList := list;
      AddToGraph(list);
      forall n | n in graph.depth && n !in old(graph.depth) && ToLoadData(states, flagged, n)
        ensures ToProcess(n)
      {
        LeastIsRequested(infos, graph.depth.Keys, old(graph.depth.Keys), Requested(infos, list));
      }
      more := LoadModuleGraph();
    }

    // Load marked modules until a round has none to install or upgrade. No marked module is
    // missed: whatever was not loaded cannot be installed, or lacks a dependency. With quiet
    // loading, the modules to install or upgrade that are loaded are processed.
    method LoadMarkedModules(wanted: set<State>) returns (processed: seq<Name>)
      requires Valid() && forall n :: n in loaded <==> n in graph.depth
      modifies this`states, this`packageStates, this`loaded, graph
      ensures Valid() && old(loaded) <= loaded
      ensures forall n :: n in loaded <==> n in graph.depth
      ensures NoRepeats(processed) && forall n :: n in processed ==> n in loaded && n !in old(loaded)
      ensures Exhausted(infos, graph.depth.Keys, states, wanted)
      ensures states == AfterProcessing(effect, old(states), processed)
      ensures Quiet(effect) ==> QuietRound(infos, flagged, old(graph.depth.Keys), old(states), wanted, graph.depth.Keys, processed)
    {
      ghost var before, states0 := graph.depth.Keys, states;
      processed := [];
      while true
        invariant Valid() && old(loaded) <= loaded
        invariant forall n :: n in loaded <==> n in graph.depth
        invariant NoRepeats(processed) && forall n :: n in processed ==> n in loaded && n !in old(loaded)
        invariant states == AfterProcessing(effect, states0, processed)
        invariant Quiet(effect) ==> RoundSoFar(infos, flagged, before, states0, wanted, graph.depth.Keys, states, processed)
        decreases infos.Keys - (set n | n in loaded)
      {
        ghost var loaded0, graph0, states1 := loaded, graph.depth.Keys, states;
        var more, moduleList := LoadRound(wanted);
        if Quiet(effect) {
          QuietProcessing(effect, states1, more, graph.depth.Keys);
          RoundGrows(infos, flagged, before, states0, wanted, graph0, states1, processed, moduleList, graph.depth.Keys, states, more);
        }
        LoadedAreKnown(infos, loaded);
        NoRepeatsJoin(processed, more);
        AfterMore(effect, states0, processed, more);
        processed := processed + more;
        if more == [] {
          break;
        }
        assert more[0] in more && more[0] in infos.Keys - (set n | n in loaded0);
      }
      if Quiet(effect) {
        RoundDone(infos, flagged, before, states0, wanted, graph.depth.Keys, states, processed);
      }
    }

    // The first step: base, alone in the graph. None when it cannot be loaded. It is processed
    // when the configuration or its state asks for that, or it is installed and to be updated.
    method LoadBase(updateBase: bool) returns (processed: Option<seq<Name>>)
      requires Valid() && graph.depth == map[] && loaded == []
      modifies this`states, this`packageStates, this`loaded, graph
      ensures Valid() && (processed.Some? <==> BASE in infos && infos[BASE] == Descriptor(true, []))
      ensures processed.Some? ==> graph.depth.Keys == {BASE} && loaded != [] && loaded[0] == BASE && forall n :: n in loaded <==> n in graph.depth
      ensures processed.Some? ==>
                && processed.value == BaseProcessed(old(states), updateBase, flagged)
                && states == AfterProcessing(effect, BaseStart(old(states), updateBase), processed.value)
      ensures processed.Some? ==>
                var update := updateBase && BASE in old(states) && old(states)[BASE] == Installed;
                && states == AfterProcessing(effect, if update then old(states)[BASE := ToUpgrade] else old(states), processed.value)
                && (processed.value == [BASE] <==>
                      update || flagged(Init, BASE) || flagged(Update, BASE) || Marked(old(states), {ToInstall, ToUpgrade}, BASE))
    {
      if updateBase && BASE in states && states[BASE] == Installed {
        states := states[BASE := ToUpgrade];
      }
      AddBase();
      if |graph.depth| == 0 {
        return None;
      }
      var all := LoadModuleGraph();
      assert BASE in loaded;
      assert loaded[0] in loaded;
      JustOne(all, BASE);
      processed := Some(all);
    }

    // graph.add_module('base'), the first call on a new graph.
    method AddBase()
      requires Valid() && graph.depth == map[] && loaded == []
      modifies this`packageStates, graph
      ensures Valid() && graph.depth.Keys == if BASE in infos && infos[BASE] == Descriptor(true, []) then {BASE} else {}
      ensures BASE in graph.depth ==> (ToProcess(BASE) <==> ToLoadData(states, flagged, BASE))
    {
      FlaggedNodes(graph.flags, graph.depth);
      assert graph.flags == {};
      AddToGraph([BASE]);
      BaseAlone(infos, graph.depth.Keys);
      if BASE in graph.depth {
        assert Requested(infos, [BASE]) * graph.depth.Keys == {BASE};
        BaseFlags();
      }
    }

    // Of base alone in the graph, exactly the flags asked for are set.
    lemma BaseFlags()
      requires Valid() && graph.depth.Keys == {BASE}
      requires AskedIn(graph.flags, {BASE}, flagged) && NoMoreThan(graph.children, graph.flags, {}, {BASE}, flagged)
      ensures forall k :: (k, BASE) in graph.flags <==> flagged(k, BASE)
    {
      var asked := set k: Kind | flagged(k, BASE) :: (k, BASE);
      assert forall i :: 0 <= i < |graph.children[BASE]| ==> graph.children[BASE][i] in graph.depth;
      assert PassedAlong(graph.children, asked);
    }

    // The third step: those installed or to upgrade, then those to install.
    method LoadOthers(updateModule: bool) returns (processed: seq<Name>)
      requires Valid() && graph.depth.Keys == {BASE} && forall n :: n in loaded <==> n in graph.depth
      modifies this`states, this`packageStates, this`loaded, graph
      ensures Valid() && old(loaded) <= loaded && forall n :: n in loaded <==> n in graph.depth
      ensures NoRepeats(processed) && forall n :: n in processed ==> n in loaded && n != BASE
      ensures states == AfterProcessing(effect, old(states), processed)
      ensures Exhausted(infos, graph.depth.Keys, states, if updateModule then {ToInstall} else {Installed, ToUpgrade})
      ensures Quiet(effect) ==>
                && graph.depth.Keys == LoadedModules(infos, old(states), updateModule)
                && forall n :: n != BASE && n in loaded && ToLoadData(old(states), flagged, n) ==> n in processed && Marked(states, {Installed}, n)
      ensures updateModule && Quiet(effect) ==>
                (Exhausted(infos, graph.depth.Keys, states, {Installed, ToUpgrade, ToInstall}) <==> TwoRoundsDo(infos, old(states)))
    {
      ghost var marked := states;
      processed := LoadMarkedModules({Installed, ToUpgrade});
      if Quiet(effect) {
        FirstRound(infos, flagged, marked, graph.depth.Keys, processed);
      }
      if updateModule {
        ghost var graph1, processed1 := graph.depth.Keys, processed;
        var more := LoadMarkedModules({ToInstall});
        NoRepeatsJoin(processed, more);
        AfterMore(effect, marked, processed, more);
        processed := processed + more;
        if Quiet(effect) {
          BothRounds(infos, flagged, effect, marked, graph1, processed1, graph.depth.Keys, more);
        }
      }
      if Quiet(effect) {
        QuietProcessing(effect, marked, processed, graph.depth.Keys);
      }
    }

    // The load sequence. `mark` stands for what the second step may do to the states of modules
    // (updating the list, marking modules for installation and upgrade); `first` and `marked` are
    // the state tables before and after it. None when base cannot be loaded.
    method LoadModules(updateModule: bool, updateBase: bool, mark: StateTable -> StateTable)
      returns (processed: Option<seq<Name>>, ghost first: StateTable, ghost marked: StateTable)
      requires Valid() && graph.depth == map[] && loaded == []
      modifies this`states, this`packageStates, this`loaded, graph
      ensures Valid() && (processed.Some? <==> BASE in infos && infos[BASE] == Descriptor(true, []))
      ensures processed.Some? ==>
                && loaded != [] && loaded[0] == BASE
                && (forall n :: n in loaded <==> n in graph.depth)
                && NoRepeats(processed.value) && (forall n :: n in processed.value ==> n in loaded)
                && Exhausted(infos, graph.depth.Keys, states, if updateModule then {ToInstall} else {Installed, ToUpgrade})
      ensures processed.Some? ==>
                var base := BaseProcessed(old(states), updateBase, flagged);
                && first == AfterProcessing(effect, BaseStart(old(states), updateBase), base)
                && marked == (if updateModule then (if BASE in mark(first) then mark(first)[BASE := Installed] else mark(first)) else first)
                && base <= processed.value && states == AfterProcessing(effect, marked, processed.value[|base|..])
      ensures processed.Some? && Quiet(effect) ==>
                && graph.depth.Keys == LoadedModules(infos, marked, updateModule)
                && forall n :: n != BASE && n in loaded && ToLoadData(marked, flagged, n) ==> n in processed.value && Marked(states, {Installed}, n)
      ensures processed.Some? && Quiet(effect) && updateModule ==>
                forall n :: n != BASE && n in MarkedSet(infos, marked, {ToInstall}) && Met(infos, n, graph.depth.Keys) ==>
                  n in loaded && n in processed.value && Marked(states, {Installed}, n)
      ensures processed.Some? && updateModule && Quiet(effect) ==>
                (Exhausted(infos, graph.depth.Keys, states, {Installed, ToUpgrade, ToInstall}) <==> TwoRoundsDo(infos, marked))
    {
      processed := LoadBase(updateBase);
      first, marked := states, states;
      if processed == None {
        return;
      }
      if updateModule {
        states := mark(states);
        if BASE in states {
          states := states[BASE := Installed];
        }
      }
      marked := states;
      var more := LoadOthers(updateModule);
      NoRepeatsJoin(processed.value, more);
      processed := Some(processed.value + more);
      assert processed.value[|BaseProcessed(old(states), updateBase, flagged)|..] == more;
    }
  }

  // ------------------------------------------------------------------
  // What the two rounds leave out

  // Where load_marked_modules stands: the graph has grown only by what had to come, and those
  // new modules that were to be processed have been.
  ghost predicate RoundSoFar(infos: Descriptors, flagged: (Kind, Name) -> bool, before: set<Name>, states0: StateTable,
                             wanted: set<State>, graph: set<Name>, states: StateTable, processed: seq<Name>)
  {
    && before <= graph && AgreeOutside(states0, states, graph)
    && (forall t :: ClosedUnder(t, before, MarkedSet(infos, states0, wanted), infos) ==> graph <= t)
    && forall n :: n in graph && n !in before && ToLoadData(states0, flagged, n) ==> n in processed
  }

  // Where it ends.
  ghost predicate QuietRound(infos: Descriptors, flagged: (Kind, Name) -> bool, before: set<Name>, states0: StateTable,
                             wanted: set<State>, graph: set<Name>, processed: seq<Name>)
  {
    && LeastClosed(graph, before, MarkedSet(infos, states0, wanted), infos)
    && forall n :: n in graph && n !in before && ToLoadData(states0, flagged, n) ==> n in processed
  }

  lemma RoundGrows(infos: Descriptors, flagged: (Kind, Name) -> bool, before: set<Name>, states0: StateTable, wanted: set<State>,
                   graph: set<Name>, states: StateTable, processed: seq<Name>,
                   moduleList: seq<Name>, graph': set<Name>, states': StateTable, more: seq<Name>)
    requires RoundSoFar(infos, flagged, before, states0, wanted, graph, states, processed)
    requires forall n :: n in moduleList <==> Marked(states, wanted, n) && n !in graph
    requires LeastClosed(graph', graph, Requested(infos, moduleList), infos)
    requires AgreeOutside(states, states', graph')
    requires forall n :: n in graph' && n !in graph && ToLoadData(states, flagged, n) ==> n in more
    ensures RoundSoFar(infos, flagged, before, states0, wanted, graph', states', processed + more)
  {
    var all := MarkedSet(infos, states0, wanted);
    forall t | ClosedUnder(t, before, all, infos)
      ensures graph' <= t
    {
      forall n | n in Requested(infos, moduleList) && Met(infos, n, t)
        ensures n in t
      {
        assert n in all;
      }
      assert ClosedUnder(t, graph, Requested(infos, moduleList), infos);
    }
  }

  lemma MetOrMissing(infos: Descriptors, n: Name, graph: set<Name>)
    requires n in infos
    ensures Met(infos, n, graph) <==> !exists d :: d in infos[n].depends && d !in graph
  {
    if !Met(infos, n, graph) {
      var i :| 0 <= i < |infos[n].depends| && infos[n].depends[i] !in graph;
      assert infos[n].depends[i] in infos[n].depends;
    }
  }

  lemma RoundDone(infos: Descriptors, flagged: (Kind, Name) -> bool, before: set<Name>, states0: StateTable, wanted: set<State>,
                  graph: set<Name>, states: StateTable, processed: seq<Name>)
    requires RoundSoFar(infos, flagged, before, states0, wanted, graph, states, processed) && Exhausted(infos, graph, states, wanted)
    ensures QuietRound(infos, flagged, before, states0, wanted, graph, processed)
  {
    forall n | n in MarkedSet(infos, states0, wanted) && Met(infos, n, graph)
      ensures n in graph
    {
      MetOrMissing(infos, n, graph);
      assert n !in graph ==> Marked(states, wanted, n);
    }
  }

  // What ends up in the graph: base and what the marked modules bring in, in two rounds.
  ghost function LoadedModules(infos: Descriptors, marked: StateTable, updateModule: bool): set<Name>
  {
    var first := LeastSet(infos, {BASE}, MarkedSet(infos, marked, {Installed, ToUpgrade}));
    if updateModule then LeastSet(infos, first, MarkedSet(infos, marked, {ToInstall})) else first
  }

  lemma FirstRound(infos: Descriptors, flagged: (Kind, Name) -> bool, marked: StateTable, graph: set<Name>, processed: seq<Name>)
    requires QuietRound(infos, flagged, {BASE}, marked, {Installed, ToUpgrade}, graph, processed)
    ensures graph == LoadedModules(infos, marked, false)
  {
    var requested := MarkedSet(infos, marked, {Installed, ToUpgrade});
    LeastIsUnique(graph, LeastSet(infos, {BASE}, requested), {BASE}, requested, infos);
  }

  // What both rounds leave: the graph, the processed modules and what is left out.
  lemma BothRounds(infos: Descriptors, flagged: (Kind, Name) -> bool, effect: Effect, marked: StateTable,
                   graph1: set<Name>, processed1: seq<Name>, graph2: set<Name>, processed2: seq<Name>)
    requires Quiet(effect) && (forall n :: n in processed1 ==> n in graph1) && forall n :: n in processed2 ==> n in graph2
    requires QuietRound(infos, flagged, {BASE}, marked, {Installed, ToUpgrade}, graph1, processed1)
    requires QuietRound(infos, flagged, graph1, AfterProcessing(effect, marked, processed1), {ToInstall}, graph2, processed2)
    ensures graph2 == LoadedModules(infos, marked, true)
    ensures forall n :: n in graph2 && n != BASE && ToLoadData(marked, flagged, n) ==> n in processed1 + processed2
    ensures var states2 := AfterProcessing(effect, AfterProcessing(effect, marked, processed1), processed2);
            Exhausted(infos, graph2, states2, {Installed, ToUpgrade, ToInstall}) <==> TwoRoundsDo(infos, marked)
  {
    var states1 := AfterProcessing(effect, marked, processed1);
    QuietProcessing(effect, marked, processed1, graph1);
    QuietProcessing(effect, states1, processed2, graph2);
    TwoRounds(infos, marked, graph1, states1, graph2, AfterProcessing(effect, states1, processed2));
    SecondRound(infos, marked, graph1, states1, graph2);
    forall n | n in graph2 && n != BASE && ToLoadData(marked, flagged, n)
      ensures n in processed1 + processed2
    {
      assert n !in graph1 ==> ToLoadData(states1, flagged, n);
    }
  }

  lemma SecondRound(infos: Descriptors, marked: StateTable, graph1: set<Name>, states1: StateTable, graph2: set<Name>)
    requires LeastClosed(graph1, {BASE}, MarkedSet(infos, marked, {Installed, ToUpgrade}), infos)
    requires AgreeOutside(marked, states1, graph1)
    requires LeastClosed(graph2, graph1, MarkedSet(infos, states1, {ToInstall}), infos)
    ensures graph2 == LoadedModules(infos, marked, true)
  {
    var requested := MarkedSet(infos, marked, {Installed, ToUpgrade});
    LeastIsUnique(graph1, LeastSet(infos, {BASE}, requested), {BASE}, requested, infos);
    var again := MarkedSet(infos, states1, {ToInstall});
    var more := MarkedSet(infos, marked, {ToInstall});
    forall t
      ensures ClosedUnder(t, graph1, again, infos) <==> ClosedUnder(t, graph1, more, infos)
    {
      assert forall n :: n !in graph1 ==> (n in again <==> n in more);
    }
    LeastIsUnique(graph2, LeastSet(infos, graph1, more), graph1, more, infos);
  }

  // Every module marked installed or to upgrade that all marked modules together would bring in
  // is brought in by those alone.
  ghost predicate TwoRoundsDo(infos: Descriptors, states: StateTable)
  {
    var first := LeastSet(infos, {BASE}, MarkedSet(infos, states, {Installed, ToUpgrade}));
    var all := LeastSet(infos, {BASE}, MarkedSet(infos, states, {Installed, ToUpgrade, ToInstall}));
    forall n :: n in all && Marked(states, {Installed, ToUpgrade}, n) ==> n in first
  }

  // Then, and only then, the two rounds leave out no marked module that could be loaded.
  lemma TwoRounds(infos: Descriptors, marked: StateTable, graph1: set<Name>, states1: StateTable, graph2: set<Name>, states2: StateTable)
    requires LeastClosed(graph1, {BASE}, MarkedSet(infos, marked, {Installed, ToUpgrade}), infos)
    requires AgreeOutside(marked, states1, graph1)
    requires LeastClosed(graph2, graph1, MarkedSet(infos, states1, {ToInstall}), infos)
    requires AgreeOutside(states1, states2, graph2)
    ensures Exhausted(infos, graph2, states2, {Installed, ToUpgrade, ToInstall}) <==> TwoRoundsDo(infos, marked)
  {
    var every := MarkedSet(infos, marked, {Installed, ToUpgrade, ToInstall});
    var all := LeastSet(infos, {BASE}, every);
    LeastIsUnique(graph1, LeastSet(infos, {BASE}, MarkedSet(infos, marked, {Installed, ToUpgrade})), {BASE},
                  MarkedSet(infos, marked, {Installed, ToUpgrade}), infos);
    AllHoldsRounds(infos, marked, graph1, states1, graph2, all);
    ExhaustedIsClosed(infos, marked, graph1, states1, graph2, states2);
    if TwoRoundsDo(infos, marked) {
      RoundsHoldAll(infos, marked, graph1, states1, graph2, all);
    } else {
      var n :| n in all && Marked(marked, {Installed, ToUpgrade}, n) && n !in graph1;
      LeastIsRequested(infos, graph2, graph1, MarkedSet(infos, states1, {ToInstall}));
      assert n !in graph2;
    }
  }

  lemma LeastIsRequested(infos: Descriptors, s: set<Name>, before: set<Name>, requested: set<Name>)
    requires LeastClosed(s, before, requested, infos)
    ensures s <= before + requested
  {
    assert ClosedUnder(before + requested, before, requested, infos);
  }

  lemma AllHoldsRounds(infos: Descriptors, marked: StateTable, graph1: set<Name>, states1: StateTable, graph2: set<Name>, all: set<Name>)
    requires LeastClosed(graph1, {BASE}, MarkedSet(infos, marked, {Installed, ToUpgrade}), infos)
    requires AgreeOutside(marked, states1, graph1)
    requires LeastClosed(graph2, graph1, MarkedSet(infos, states1, {ToInstall}), infos)
    requires ClosedUnder(all, {BASE}, MarkedSet(infos, marked, {Installed, ToUpgrade, ToInstall}), infos)
    ensures graph1 <= all && graph2 <= all
  {
    assert ClosedUnder(all, {BASE}, MarkedSet(infos, marked, {Installed, ToUpgrade}), infos);
    assert ClosedUnder(all, graph1, MarkedSet(infos, states1, {ToInstall}), infos);
  }

  lemma ExhaustedIsClosed(infos: Descriptors, marked: StateTable, graph1: set<Name>, states1: StateTable,
                          graph2: set<Name>, states2: StateTable)
    requires BASE in graph2 && graph1 <= graph2
    requires AgreeOutside(marked, states1, graph1) && AgreeOutside(states1, states2, graph2)
    ensures Exhausted(infos, graph2, states2, {Installed, ToUpgrade, ToInstall}) <==>
            ClosedUnder(graph2, {BASE}, MarkedSet(infos, marked, {Installed, ToUpgrade, ToInstall}), infos)
  {
    var wanted := {Installed, ToUpgrade, ToInstall};
    forall n
      ensures (n in graph2 || n !in infos || !infos[n].installable || exists d :: d in infos[n].depends && d !in graph2)
              <==> !(n !in graph2 && n in infos && infos[n].installable && Met(infos, n, graph2))
    {
      if n in infos {
        MetOrMissing(infos, n, graph2);
      }
    }
    forall n | n !in graph2
      ensures Marked(states2, wanted, n) <==> Marked(marked, wanted, n)
    {
    }
  }

  lemma RoundsHoldAll(infos: Descriptors, marked: StateTable, graph1: set<Name>, states1: StateTable, graph2: set<Name>, all: set<Name>)
    requires BASE in graph2 && graph1 <= graph2 <= all && AgreeOutside(marked, states1, graph1)
    requires ClosedUnder(graph2, graph1, MarkedSet(infos, states1, {ToInstall}), infos)
    requires ClosedUnder(all, {BASE}, MarkedSet(infos, marked, {Installed, ToUpgrade, ToInstall}), infos)
    requires forall n :: n in all && Marked(marked, {Installed, ToUpgrade}, n) ==> n in graph1
    ensures ClosedUnder(graph2, {BASE}, MarkedSet(infos, marked, {Installed, ToUpgrade, ToInstall}), infos)
  {
    forall n | n in MarkedSet(infos, marked, {Installed, ToUpgrade, ToInstall}) && Met(infos, n, graph2)
      ensures n in graph2
    {
      assert Met(infos, n, all);
      if n !in graph1 && marked[n] == ToInstall {
        assert n in MarkedSet(infos, states1, {ToInstall});
      }
    }
  }

  // Where they do leave one out: m is installed and needs d, which is only now to be installed.
  const LATE_INFOS: Descriptors :=
    map[BASE := Descriptor(true, []), "d" := Descriptor(true, [BASE]), "m" := Descriptor(true, [BASE, "d"])]
  const LATE_STATES: StateTable := map[BASE := Installed, "d" := ToInstall, "m" := Installed]

  lemma InstalledIsLeftOut()
    ensures !TwoRoundsDo(LATE_INFOS, LATE_STATES)
    ensures LeastClosed({BASE}, {BASE}, MarkedSet(LATE_INFOS, LATE_STATES, {Installed, ToUpgrade}), LATE_INFOS)
    ensures LeastClosed({BASE, "d"}, {BASE}, MarkedSet(LATE_INFOS, LATE_STATES, {ToInstall}), LATE_INFOS)
    ensures !Exhausted(LATE_INFOS, {BASE, "d"}, LATE_STATES["d" := Installed], {Installed})
  {
    var first := MarkedSet(LATE_INFOS, LATE_STATES, {Installed, ToUpgrade});
    var every := MarkedSet(LATE_INFOS, LATE_STATES, {Installed, ToUpgrade, ToInstall});
    assert LATE_INFOS["m"].depends[1] == "d" && LATE_INFOS["d"].depends[0] == BASE;
    assert ClosedUnder({BASE}, {BASE}, first, LATE_INFOS);
    LeastIsUnique({BASE}, LeastSet(LATE_INFOS, {BASE}, first), {BASE}, first, LATE_INFOS);
    var all := LeastSet(LATE_INFOS, {BASE}, every);
    assert Met(LATE_INFOS, "d", all) && "d" in every;
    assert Met(LATE_INFOS, "m", all) && "m" in every;
    assert Marked(LATE_STATES, {Installed, ToUpgrade}, "m");
    var d := MarkedSet(LATE_INFOS, LATE_STATES, {ToInstall});
    forall t | ClosedUnder(t, {BASE}, d, LATE_INFOS)
      ensures {BASE, "d"} <= t
    {
      assert Met(LATE_INFOS, "d", t) && "d" in d;
    }
    assert Marked(LATE_STATES["d" := Installed], {Installed}, "m");
    assert forall x :: x in LATE_INFOS["m"].depends ==> x in {BASE, "d"};
  }

  lemma OneMoreSeen(order: seq<Name>, i: nat)
    requires i < |order|
    ensures order[..i + 1] == order[..i] + [order[i]]
  {
  }

  ghost predicate NoRepeats(s: seq<Name>)
  {
    forall i, j :: 0 <= i < j < |s| ==> s[i] != s[j]
  }

  lemma NoRepeatsJoin(s: seq<Name>, t: seq<Name>)
    requires NoRepeats(s) && NoRepeats(t) && forall n :: n in t ==> n !in s
    ensures NoRepeats(s + t)
  {
    var all := s + t;
    forall i, j | 0 <= i < j < |all|
      ensures all[i] != all[j]
    {
      assert j >= |s| ==> all[j] in t;
    }
  }

  lemma JustOne(s: seq<Name>, n: Name)
    requires NoRepeats(s) && forall m :: m in s ==> m == n
    ensures s == if n in s then [n] else []
  {
    if s != [] {
      assert s[0] in s && s[|s| - 1] in s;
    }
  }

  // Of the packages seen so far all are loaded now, and those of `todo` that were not before are processed.
  ghost predicate LoadedUpTo(seen: seq<Name>, skip: seq<Name>, loaded: seq<Name>, processed: seq<Name>, todo: set<Name>)
  {
    && (forall n :: n in loaded <==> n in skip || n in seen)
    && NoRepeats(processed)
    && (forall n :: n in processed <==> n in seen && n in todo)
  }

  lemma LoadedOneOn(seen: seq<Name>, n: Name, skip: seq<Name>, loaded: seq<Name>, processed: seq<Name>, todo: set<Name>)
    requires LoadedUpTo(seen, skip, loaded, processed, todo) && n !in seen
    requires forall m :: m in todo ==> m !in skip
    ensures n in skip ==> LoadedUpTo(seen + [n], skip, loaded, processed, todo)
    ensures n !in skip ==> n !in loaded
    ensures n !in skip ==>
              LoadedUpTo(seen + [n], skip, loaded + [n], if n in todo then processed + [n] else processed, todo)
  {
    NoRepeatsJoin(processed, [n]);
  }

  lemma LoadedAreKnown(infos: Descriptors, loaded: seq<Name>)
    requires LoadedInOrder(infos, loaded)
    ensures (set n | n in loaded) <= infos.Keys
  {
  }

  // When its turn comes, a package of the graph has all its dependencies behind it.
  lemma ReadyToLoad(infos: Descriptors, depth: map<Name, nat>, order: seq<Name>, i: nat)
    requires forall m {:trigger NodeOk(infos, depth, m)} :: NodeOk(infos, depth, m)
    requires InOrder(depth, order) && forall n :: n in order <==> n in depth
    requires i < |order|
    ensures order[i] in infos && order[i] in depth && order[i] !in order[..i]
    ensures forall d :: d in infos[order[i]].depends ==> d in order[..i]
  {
    assert NodeOk(infos, depth, order[i]);
    forall d | d in infos[order[i]].depends
      ensures d in order[..i]
    {
      DependenciesFirst(infos, depth, order, i, d);
    }
    BeforeIsTotal(order[i], order[i]);
  }

  // After the first step the graph holds base alone, or nothing.
  lemma BaseAlone(infos: Descriptors, graph: set<Name>)
    requires LeastClosed(graph, {}, Requested(infos, [BASE]), infos)
    ensures graph == if BASE in infos && infos[BASE] == Descriptor(true, []) then {BASE} else {}
  {
    var alone := if BASE in infos && infos[BASE] == Descriptor(true, []) then {BASE} else {};
    if BASE in infos && infos[BASE].depends != [] {
      assert infos[BASE].depends[0] !in alone;
    }
    assert ClosedUnder(alone, {}, Requested(infos, [BASE]), infos);
  }
}
