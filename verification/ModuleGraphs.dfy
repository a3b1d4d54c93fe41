/** The module dependency graph: adding modules from a rotating work queue, the depth of a
    module, and iteration level by level. */
module ModuleGraphs {
  import opened Wrappers
  import opened Names

  datatype Descriptor = Descriptor(installable: bool, depends: seq<Name>)

  // The descriptor files that can be read.
  type Descriptors = map<Name, Descriptor>

  datatype Kind = Init | Demo | Update

  // Every dependency of n is in `graph`.
  predicate Met(infos: Descriptors, n: Name, graph: set<Name>)
  {
    n in infos && forall i :: 0 <= i < |infos[n].depends| ==> infos[n].depends[i] in graph
  }

  // The installable modules of a list.
  function Requested(infos: Descriptors, names: seq<Name>): set<Name>
  {
    set n | n in names && n in infos && infos[n].installable
  }

  // S holds the old modules and every requested module whose dependencies it holds.
  ghost predicate ClosedUnder(s: set<Name>, before: set<Name>, requested: set<Name>, infos: Descriptors)
  {
    before <= s && forall n :: n in requested && Met(infos, n, s) ==> n in s
  }

  ghost predicate LeastClosed(s: set<Name>, before: set<Name>, requested: set<Name>, infos: Descriptors)
  {
    ClosedUnder(s, before, requested, infos) &&
    forall t :: ClosedUnder(t, before, requested, infos) ==> s <= t
  }

  // There is only one such set: it depends on which modules are requested, not on their order.
  lemma LeastIsUnique(s: set<Name>, t: set<Name>, before: set<Name>, requested: set<Name>, infos: Descriptors)
    requires LeastClosed(s, before, requested, infos) && LeastClosed(t, before, requested, infos)
    ensures s == t
  {
    assert s <= t && t <= s;
  }

  // 0 without dependencies, else one more than the deepest of them.
  function DepthOver(depth: map<Name, nat>, depends: seq<Name>): nat
    requires forall i :: 0 <= i < |depends| ==> depends[i] in depth
  {
    if depends == [] then 0 else 1 + MaxDepth(depth, depends)
  }

  function MaxDepth(depth: map<Name, nat>, names: seq<Name>): (m: nat)
    requires forall i :: 0 <= i < |names| ==> names[i] in depth
    ensures forall i :: 0 <= i < |names| ==> depth[names[i]] <= m
    ensures names != [] ==> exists i :: 0 <= i < |names| && depth[names[i]] == m
  {
    if names == [] then 0
    else
      var rest := MaxDepth(depth, names[..|names| - 1]);
      if depth[names[|names| - 1]] >= rest then depth[names[|names| - 1]] else rest
  }

  lemma {:induction false} MaxDepthExtends(depth: map<Name, nat>, depth': map<Name, nat>, names: seq<Name>)
    requires forall i :: 0 <= i < |names| ==> names[i] in depth
    requires forall n :: n in depth ==> n in depth' && depth'[n] == depth[n]
    ensures forall i :: 0 <= i < |names| ==> names[i] in depth'
    ensures MaxDepth(depth', names) == MaxDepth(depth, names)
  {
    if names != [] {
      MaxDepthExtends(depth, depth', names[..|names| - 1]);
    }
  }

  // Dependencies of a module of the graph are in the graph, and its depth is the one they give it.
  ghost predicate NodeOk(infos: Descriptors, depth: map<Name, nat>, n: Name)
  {
    n in depth ==>
      && Met(infos, n, depth.Keys)
      && depth[n] == DepthOver(depth, infos[n].depends)
  }

  lemma NodeAdded(infos: Descriptors, depth: map<Name, nat>, name: Name)
    requires forall n {:trigger NodeOk(infos, depth, n)} :: NodeOk(infos, depth, n)
    requires Met(infos, name, depth.Keys)
    ensures var after := depth[name := DepthOver(depth, infos[name].depends)];
            && (name in depth ==> after == depth)
            && forall n {:trigger NodeOk(infos, after, n)} :: NodeOk(infos, after, n)
  {
    var after := depth[name := DepthOver(depth, infos[name].depends)];
    assert NodeOk(infos, depth, name);
    if name !in depth {
      forall n
        ensures NodeOk(infos, after, n)
      {
        assert NodeOk(infos, depth, n);
        if n == name || n in depth {
          MaxDepthExtends(depth, after, infos[n].depends);
        }
      }
    }
  }

  // Where the first member of s stands in the queue.
  function FirstIn(packages: seq<Name>, s: set<Name>): nat
  {
    if packages == [] || packages[0] in s then 0 else 1 + FirstIn(packages[1..], s)
  }

  lemma {:induction false} FirstInRotated(packages: seq<Name>, p: Name, s: set<Name>)
    requires exists n :: n in packages && n in s
    ensures FirstIn(packages + [p], s) == FirstIn(packages, s)
  {
    if packages[0] !in s {
      assert (packages + [p])[1..] == packages[1..] + [p];
      FirstInRotated(packages[1..], p, s);
    }
  }

  // The work queue of add_modules: `current` are the requested modules not added yet, all of
  // them queued, and those in `later` have been found to lack a dependency since the last addition.
  ghost predicate Queue(infos: Descriptors, before: set<Name>, requested: set<Name>, graph: set<Name>,
                        packages: seq<Name>, current: set<Name>, later: set<Name>)
  {
    && before <= graph <= before + requested
    && (forall n :: n in packages ==> n in requested)
    && later <= current <= requested
    && (forall n :: n in current ==> n in packages)
    && requested - current <= graph
    && (forall n :: n in graph ==> Met(infos, n, graph))
    && (forall n :: n in requested ==> n in infos)
    && (forall n :: n in later ==> !Met(infos, n, graph))
    && (forall t :: ClosedUnder(t, before, requested, infos) ==> graph <= t)
  }

  lemma QueueStarts(infos: Descriptors, depth: map<Name, nat>, requested: set<Name>, packages: seq<Name>, current: set<Name>)
    requires forall n {:trigger NodeOk(infos, depth, n)} :: NodeOk(infos, depth, n)
    requires requested == current == set n | n in packages
    requires forall n :: n in requested ==> n in infos
    ensures Queue(infos, depth.Keys, requested, depth.Keys, packages, current, {})
  {
    forall n | n in depth
      ensures Met(infos, n, depth.Keys)
    {
      assert NodeOk(infos, depth, n);
    }
  }

  // The head of the queue is added ...
  lemma QueueAdds(infos: Descriptors, before: set<Name>, requested: set<Name>, graph: set<Name>,
                  packages: seq<Name>, current: set<Name>, later: set<Name>)
    requires Queue(infos, before, requested, graph, packages, current, later) && packages != []
    requires Met(infos, packages[0], graph) && packages[0] in current
    ensures Queue(infos, before, requested, graph + {packages[0]}, packages[1..], current - {packages[0]}, {})
  {
    var p, rest := packages[0], packages[1..];
    assert packages == [p] + rest;
    forall t | ClosedUnder(t, before, requested, infos)
      ensures graph + {p} <= t
    {
      assert Met(infos, p, t);
    }
  }

  // ... or dropped, being there already ...
  lemma QueueDrops(infos: Descriptors, before: set<Name>, requested: set<Name>, graph: set<Name>,
                   packages: seq<Name>, current: set<Name>, later: set<Name>)
    requires Queue(infos, before, requested, graph, packages, current, later) && packages != [] && current > later
    requires packages[0] !in current
    ensures Queue(infos, before, requested, graph, packages[1..], current, later)
    ensures FirstIn(packages[1..], current - later) < FirstIn(packages, current - later)
  {
    assert packages == [packages[0]] + packages[1..];
  }

  // ... or put back at the end.
  lemma QueueRotates(infos: Descriptors, before: set<Name>, requested: set<Name>, graph: set<Name>,
                     packages: seq<Name>, current: set<Name>, later: set<Name>)
    requires Queue(infos, before, requested, graph, packages, current, later) && packages != [] && current > later
    requires !Met(infos, packages[0], graph) && packages[0] in current
    ensures Queue(infos, before, requested, graph, packages[1..] + [packages[0]], current, later + {packages[0]})
    ensures packages[0] !in later ==> |current - (later + {packages[0]})| < |current - later|
    ensures packages[0] in later ==>
              later + {packages[0]} == later &&
              FirstIn(packages[1..] + [packages[0]], current - later) < FirstIn(packages, current - later)
  {
    var p, rest := packages[0], packages[1..];
    assert packages == [p] + rest;
    RotationProgress(packages, current, later);
    if p in later {
      assert later + {p} == later;
    }
  }

  lemma RotationProgress(packages: seq<Name>, current: set<Name>, later: set<Name>)
    requires packages != [] && current > later && packages[0] in current
    requires forall n :: n in current ==> n in packages
    ensures packages[0] !in later ==> |current - (later + {packages[0]})| < |current - later|
    ensures packages[0] in later ==>
              FirstIn(packages[1..] + [packages[0]], current - later) < FirstIn(packages, current - later)
  {
    var p, rest := packages[0], packages[1..];
    assert packages == [p] + rest;
    if p in later {
      var n :| n in current && n !in later;
      assert n in packages && n in rest;
      FirstInRotated(rest, p, current - later);
    } else {
      assert current - (later + {p}) == current - later - {p};
    }
  }

  // When the loop ends, what is left cannot be added.
  lemma QueueDone(infos: Descriptors, before: set<Name>, requested: set<Name>, graph: set<Name>,
                  packages: seq<Name>, current: set<Name>, later: set<Name>)
    requires Queue(infos, before, requested, graph, packages, current, later)
    requires packages == [] || !(current > later)
    ensures LeastClosed(graph, before, requested, infos) && later == requested - graph && requested - current == requested * graph
    ensures forall n :: n in later ==> exists d :: d in infos[n].depends && d !in graph
  {
    assert current == later;
    forall n | n in later
      ensures exists d :: d in infos[n].depends && d !in graph
    {
      var i :| 0 <= i < |infos[n].depends| && infos[n].depends[i] !in graph;
      assert infos[n].depends[i] in infos[n].depends;
    }
  }

  lemma AskedOneMore(requested: set<Name>, current: set<Name>, package: Name)
    requires package in current && current <= requested
    ensures requested - (current - {package}) == requested - current + {package}
  {
  }

  function Deeper(depth: map<Name, nat>, d: nat): set<Name>
  {
    set n | n in depth && depth[n] > d
  }

  // ------------------------------------------------------------------
  // Flags

  type Flags = set<(Kind, Name)>
  type Children = map<Name, seq<Name>>

  ghost predicate PassesAlong(children: Children, flags: Flags, k: Kind, n: Name)
  {
    n in children ==> forall i :: 0 <= i < |children[n]| ==> (k, children[n][i]) in flags
  }

  ghost predicate PassedAlong(children: Children, flags: Flags)
  {
    forall k, n :: (k, n) in flags ==> PassesAlong(children, flags, k, n)
  }

  // Flags that hold all that is asked for some modules.
  ghost predicate AskedIn(flags: Flags, names: set<Name>, wanted: (Kind, Name) -> bool)
  {
    forall k, n :: n in names && wanted(k, n) ==> (k, n) in flags
  }

  // No flag is set but those there were, those asked for some modules, and those passed on from these.
  ghost predicate NoMoreThan(children: Children, flags: Flags, start: Flags, names: set<Name>, wanted: (Kind, Name) -> bool)
  {
    forall closed: Flags :: PassedAlong(children, closed) && start <= closed && AskedIn(closed, names, wanted) ==> flags <= closed
  }

  ghost predicate ChildrenKept(before: Children, after: Children)
  {
    forall n :: n in before ==> n in after && before[n] <= after[n]
  }

  function WithNode(children: Children, name: Name): Children
  {
    if name in children then children else children[name := []]
  }

  function WithChild(children: Children, father: Name, name: Name): Children
    requires father in children
  {
    if name in children[father] then children else children[father := children[father] + [name]]
  }

  lemma WithChildKeeps(children: Children, father: Name, name: Name)
    requires father in children
    ensures ChildrenKept(children, WithNode(children, name))
    ensures ChildrenKept(children, WithChild(WithNode(children, name), father, name))
  {
  }

  // A module is a child of its father once, and no other module's children change.
  lemma WithChildOnce(children: Children, father: Name, name: Name)
    requires father in children && forall i, j :: 0 <= i < j < |children[father]| ==> children[father][i] != children[father][j]
    ensures var after := WithChild(children, father, name);
            && name in after[father] && (forall i, j :: 0 <= i < j < |after[father]| ==> after[father][i] != after[father][j])
            && (forall n :: n in after[father] ==> n in children[father] || n == name)
            && forall n :: n in children && n != father ==> after[n] == children[n]
  {
  }

  lemma FlaggedNodes(flags: Flags, depth: map<Name, nat>)
    requires forall k, n :: (k, n) in flags ==> n in depth
    ensures forall f :: f in flags ==> f.1 in depth
  {
    forall f | f in flags
      ensures f.1 in depth
    {
      assert f == (f.0, f.1);
    }
  }

  // The last of the deepest dependencies.
  ghost predicate IsFather(depth: map<Name, nat>, depends: seq<Name>, father: Name)
    requires forall i :: 0 <= i < |depends| ==> depends[i] in depth
  {
    exists at :: 0 <= at < |depends| && depends[at] == father
                 && forall j :: 0 <= j < |depends| ==> depth[depends[j]] <= depth[father] && (j > at ==> depth[depends[j]] < depth[father])
  }

  lemma OneFather(depth: map<Name, nat>, depends: seq<Name>, a: Name, b: Name)
    requires forall i :: 0 <= i < |depends| ==> depends[i] in depth
    requires IsFather(depth, depends, a) && IsFather(depth, depends, b)
    ensures a == b
  {
  }

  // One module more, with what is asked for it.
  lemma NoMoreYet(before: Children, flags0: Flags, after: Children, flags: Flags, start: Flags, asked: set<Name>, package: Name,
                  wanted: (Kind, Name) -> bool)
    requires NoMoreThan(before, flags0, start, asked, wanted) && NoMoreThan(after, flags, flags0, {package}, wanted)
    requires ChildrenKept(before, after)
    ensures NoMoreThan(after, flags, start, asked + {package}, wanted)
  {
    forall closed: Flags | PassedAlong(after, closed) && start <= closed && AskedIn(closed, asked + {package}, wanted)
      ensures flags <= closed
    {
      assert PassedAlong(before, closed) by {
        forall k, n | (k, n) in closed
          ensures PassesAlong(before, closed, k, n)
        {
          assert PassesAlong(after, closed, k, n);
        }
      }
      assert AskedIn(closed, asked, wanted) && AskedIn(closed, {package}, wanted);
    }
  }

  class Graph {
    var depth: map<Name, nat>            // the modules of the graph
    var children: Children               // those added below a module, for passing flags on
    var flags: Flags                     // the attributes init, demo and update

    ghost predicate Valid(infos: Descriptors)
      reads this
    {
      && children.Keys == depth.Keys
      && (forall n {:trigger NodeOk(infos, depth, n)} :: NodeOk(infos, depth, n))
      && ChildDepths()
      && FlagsOnNodes()
    }

    // A module passes its flags on to its children.
    ghost predicate FlagsPassedOn(flags: Flags)
      reads this`children
    {
      forall k, n :: (k, n) in flags ==> PassesOn(flags, k, n)
    }

    ghost predicate PassesOn(flags: Flags, k: Kind, n: Name)
      reads this`children
    {
      PassesAlong(children, flags, k, n)
    }

    ghost predicate FlagsOnNodes()
      reads this`flags, this`depth
    {
      forall k, n :: (k, n) in flags ==> n in depth
    }

    constructor ()
      ensures depth == map[] && children == map[] && flags == {}
    {
      depth, children, flags := map[], map[], {};
    }

    // node.depth = value, passed on to the children.
    method SetDepth(name: Name, value: nat)
      requires children.Keys == depth.Keys && name in depth && ChildDepths()
      requires children[name] == [] || depth[name] == value
      modifies this`depth
      ensures depth == old(depth)[name := value]
      decreases Deeper(depth, depth[name])
    {
      ghost var before := depth;
      depth := depth[name := value];
      var i := 0;
      while i < |children[name]|
        invariant 0 <= i <= |children[name]|
        invariant depth == before[name := value]
      {
        var c := children[name][i];
        assert depth == before;
        assert c in Deeper(depth, depth[name]) && c !in Deeper(depth, depth[c]);
        SetDepth(c, value + 1);
        i := i + 1;
      }
    }

    // Children are one deeper.
    ghost predicate ChildDepths()
      reads this
    {
      forall n, i :: n in children && 0 <= i < |children[n]| ==>
        children[n][i] in depth && n in depth && depth[children[n][i]] == depth[n] + 1
    }

    // setattr(node, kind, True), passed on to the children.
    method SetFlag(kind: Kind, name: Name)
      requires children.Keys == depth.Keys && name in depth && ChildDepths()
      modifies this`flags
      ensures (kind, name) in flags && old(flags) <= flags
      ensures forall k, n :: (k, n) in flags - old(flags) ==> k == kind && n in depth
      ensures forall k, n :: (k, n) in flags - old(flags) ==> PassesOn(flags, k, n)
      ensures PassesOn(flags, kind, name)
      ensures forall k, n :: (k, n) in flags - old(flags) ==> n == name || depth[n] > depth[name]
      ensures forall closed: Flags :: FlagsPassedOn(closed) && (kind, name) in closed && old(flags) <= closed ==>
                flags <= closed
      decreases Deeper(depth, depth[name])
    {
      flags := flags + {(kind, name)};
      var i := 0;
      while i < |children[name]|
        invariant 0 <= i <= |children[name]|
        invariant (kind, name) in flags && old(flags) <= flags
        invariant forall k, n :: (k, n) in flags - old(flags) ==> k == kind && n in depth
        invariant forall k, n :: (k, n) in flags - old(flags) && n != name ==> PassesOn(flags, k, n)
        invariant forall k, n :: (k, n) in flags - old(flags) ==> n == name || depth[n] > depth[name]
        invariant forall j :: 0 <= j < i ==> (kind, children[name][j]) in flags
        invariant forall closed: Flags :: FlagsPassedOn(closed) && (kind, name) in closed && old(flags) <= closed ==>
                    flags <= closed
      {
        var c := children[name][i];
        assert c in Deeper(depth, depth[name]) && c !in Deeper(depth, depth[c]);
        ghost var before := flags;
        SetFlag(kind, c);
        forall k, n | (k, n) in flags - old(flags) && n != name
          ensures PassesOn(flags, k, n)
        {
          if (k, n) in before {
            assert (k, n) in before - old(flags);
            assert PassesOn(before, k, n);
          } else {
            assert (k, n) in flags - before;
          }
        }
        i := i + 1;
      }
    }

    // Every flag has been passed on, except from father to name.
    ghost predicate PassedOnBut(father: Name, name: Name)
      reads this
    {
      && (forall k, n :: (k, n) in flags && n != father ==> PassesOn(flags, k, n))
      && (father in children ==> forall k, j :: (k, father) in flags && 0 <= j < |children[father]| && children[father][j] != name ==>
            (k, children[father][j]) in flags)
    }

    // The flags of father, passed on to name.
    method PassFlags(father: Name, name: Name)
      requires children.Keys == depth.Keys && father in depth && name in depth && ChildDepths() && FlagsOnNodes()
      requires depth[name] == depth[father] + 1
      modifies this`flags
      ensures FlagsOnNodes() && old(flags) <= flags
      ensures old(PassedOnBut(father, name)) ==> FlagsPassedOn(flags)
      ensures forall k :: (k, father) in flags ==> (k, name) in flags && (k, father) in old(flags)
      ensures name in children[father] ==>
                forall closed: Flags :: FlagsPassedOn(closed) && old(flags) <= closed ==> flags <= closed
    {
      ghost var passed := PassedOnBut(father, name);
      var kinds := [Init, Update, Demo];
      var i := 0;
      while i < 3
        invariant 0 <= i <= 3 && old(flags) <= flags && FlagsOnNodes()
        invariant passed ==> forall k, n :: (k, n) in flags && n != father ==> PassesOn(flags, k, n)
        invariant forall j :: 0 <= j < i && (kinds[j], father) in old(flags) ==> (kinds[j], name) in flags
        invariant forall k :: (k, father) in flags ==> (k, father) in old(flags)
        invariant name in children[father] ==>
                    forall closed: Flags :: FlagsPassedOn(closed) && old(flags) <= closed ==> flags <= closed
      {
        if (kinds[i], father) in flags {
          forall closed: Flags | name in children[father] && FlagsPassedOn(closed) && old(flags) <= closed
            ensures (kinds[i], name) in closed
          {
            assert PassesOn(closed, kinds[i], father);
          }
          SetFlag(kinds[i], name);
        }
        i := i + 1;
      }
      forall k | (k, father) in flags
        ensures (k, name) in flags && (passed ==> PassesOn(flags, k, father))
      {
        assert k == kinds[0] || k == kinds[1] || k == kinds[2];
      }
    }

    // The module of that name, a new one when there is none.
    method NodeNamed(name: Name)
      requires children.Keys == depth.Keys && ChildDepths() && FlagsOnNodes()
      modifies this`depth, this`children
      ensures depth == if name in old(depth) then old(depth) else old(depth)[name := 0]
      ensures children == WithNode(old(children), name) && ChildrenKept(old(children), children)
      ensures children.Keys == depth.Keys && ChildDepths() && FlagsOnNodes()
      ensures old(FlagsPassedOn(flags)) ==> FlagsPassedOn(flags)
    {
      if name !in depth {
        ghost var passed := FlagsPassedOn(flags);
        depth, children := depth[name := 0], children[name := []];
        forall k, n | passed && (k, n) in flags
          ensures PassesOn(flags, k, n)
        {
          assert n in old(children) && old(PassesOn(flags, k, n));
        }
      }
    }

    // The module of that name, one deeper than father.
    method NodeBelow(father: Name, name: Name)
      requires children.Keys == depth.Keys && father in depth && ChildDepths() && FlagsOnNodes()
      requires name in depth ==> depth[name] == depth[father] + 1
      modifies this`depth, this`children
      ensures depth == old(depth)[name := old(depth)[father] + 1]
      ensures children == WithNode(old(children), name) && children.Keys == depth.Keys && ChildDepths() && FlagsOnNodes()
      ensures old(FlagsPassedOn(flags)) ==> FlagsPassedOn(flags)
    {
      NodeNamed(name);
      SetDepth(name, depth[father] + 1);
    }

    // if node not in self.children: self.children.append(node)
    method AppendChild(father: Name, name: Name)
      requires children.Keys == depth.Keys && father in depth && name in depth && ChildDepths()
      requires depth[name] == depth[father] + 1
      modifies this`children
      ensures children.Keys == depth.Keys && children == WithChild(old(children), father, name)
      ensures name in children[father] && ChildDepths()
      ensures old(FlagsPassedOn(flags)) ==> PassedOnBut(father, name)
    {
      ghost var passed, before := FlagsPassedOn(flags), children[father];
      assert passed ==> forall k {:trigger (k, father) in flags} :: (k, father) in flags ==> PassesOn(flags, k, father);
      assert passed ==> forall k, j :: (k, father) in flags && 0 <= j < |before| ==> (k, before[j]) in flags;
      if name !in children[father] {
        children := children[father := children[father] + [name]];
      }
      forall k, n | passed && (k, n) in flags && n != father
        ensures PassesOn(flags, k, n)
      {
        assert n in old(children) ==> children[n] == old(children)[n];
        assert old(PassesOn(flags, k, n));
      }
    }

    // father.add_child(name)
    method AddChild(father: Name, name: Name)
      requires children.Keys == depth.Keys && father in depth && ChildDepths() && FlagsOnNodes()
      requires name in depth ==> depth[name] == depth[father] + 1
      modifies this
      ensures depth == old(depth)[name := old(depth)[father] + 1]
      ensures children.Keys == depth.Keys && ChildDepths() && FlagsOnNodes()
      ensures old(FlagsPassedOn(flags)) ==> FlagsPassedOn(flags)
      ensures forall k :: (k, father) in old(flags) ==> (k, name) in flags
      ensures old(flags) <= flags && children == WithChild(WithNode(old(children), name), father, name)
      ensures ChildrenKept(old(children), children)
      ensures forall closed: Flags :: FlagsPassedOn(closed) && old(flags) <= closed ==> flags <= closed
    {
      WithChildKeeps(children, father, name);
      NodeBelow(father, name);
      AppendChild(father, name);
      PassFlags(father, name);
    }

    // The last of the deepest dependencies.
    method FindFather(depends: seq<Name>) returns (father: Option<Name>, ghost at: nat)
      requires forall i :: 0 <= i < |depends| ==> depends[i] in depth
      ensures depends == [] <==> father == None
      ensures father.Some? ==> father.value in depth && DepthOver(depth, depends) == depth[father.value] + 1
      ensures father.Some? ==> at < |depends| && depends[at] == father.value
                               && forall j :: at < j < |depends| ==> depth[depends[j]] < depth[father.value]
      ensures father.Some? ==> IsFather(depth, depends, father.value)
    {
      var maxDepth := 0;
      father, at := None, 0;
      var i := 0;
      while i < |depends|
        invariant 0 <= i <= |depends|
        invariant maxDepth == MaxDepth(depth, depends[..i])
        invariant i == 0 <==> father == None
        invariant father.Some? ==> father.value in depth && depth[father.value] == maxDepth
        invariant father.Some? ==> at < i && depends[at] == father.value
                                   && forall j :: at < j < i ==> depth[depends[j]] < maxDepth
      {
        assert depends[..i + 1][..i] == depends[..i];
        if depth[depends[i]] >= maxDepth {
          father, maxDepth, at := Some(depends[i]), depth[depends[i]], i;
        }
        i := i + 1;
      }
      assert depends[..i] == depends;
    }

    // Add one module whose dependencies are all in the graph.
    method AddNode(infos: Descriptors, name: Name) returns (ghost father: Option<Name>)
      requires Valid(infos) && name in infos && Met(infos, name, depth.Keys)
      modifies this
      ensures Valid(infos)
      ensures depth == old(depth)[name := DepthOver(old(depth), infos[name].depends)]
      ensures name in old(depth) ==> depth == old(depth)
      ensures old(flags) <= flags && (old(FlagsPassedOn(flags)) ==> FlagsPassedOn(flags)) && ChildrenKept(old(children), children)
      ensures forall closed: Flags :: FlagsPassedOn(closed) && old(flags) <= closed ==> flags <= closed
      ensures father == None <==> infos[name].depends == []
      ensures father == None ==> children == WithNode(old(children), name) && flags == old(flags)
      ensures father.Some? ==>
                && IsFather(old(depth), infos[name].depends, father.value)
                && children == WithChild(WithNode(old(children), name), father.value, name)
                && forall k :: (k, father.value) in old(flags) ==> (k, name) in flags
    {
      var found, at := FindFather(infos[name].depends);
      father := found;
      ghost var after := depth[name := DepthOver(depth, infos[name].depends)];
      NodeAdded(infos, depth, name);
      if found.Some? {
        AddChild(found.value, name);
      } else {
        NodeNamed(name);
      }
      assert depth == after;
    }

    // Set the attributes of a module that the configuration asks for.
    method SetWanted(infos: Descriptors, package: Name, wanted: (Kind, Name) -> bool)
      requires Valid(infos) && package in depth
      modifies this`flags
      ensures Valid(infos) && old(flags) <= flags && (old(FlagsPassedOn(flags)) ==> FlagsPassedOn(flags))
      ensures AskedIn(flags, {package}, wanted) && NoMoreThan(children, flags, old(flags), {package}, wanted)
    {
      ghost var passed := FlagsPassedOn(flags);
      var kinds := [Init, Demo, Update];
      var i := 0;
      while i < 3
        invariant 0 <= i <= 3 && Valid(infos) && old(flags) <= flags && (passed ==> FlagsPassedOn(flags))
        invariant forall j :: 0 <= j < i && wanted(kinds[j], package) ==> (kinds[j], package) in flags
        invariant NoMoreThan(children, flags, old(flags), {package}, wanted)
      {
        if wanted(kinds[i], package) {
          SetFlag(kinds[i], package);
        }
        i := i + 1;
      }
      forall k | wanted(k, package)
        ensures (k, package) in flags
      {
        assert k == kinds[0] || k == kinds[1] || k == kinds[2];
      }
    }

    // The packages to add, in the order of the list.
    static method InstallablePackages(infos: Descriptors, moduleList: seq<Name>) returns (packages: seq<Name>)
      ensures forall n :: n in packages <==> n in Requested(infos, moduleList)
    {
      packages := [];
      var i := 0;
      while i < |moduleList|
        invariant 0 <= i <= |moduleList|
        invariant forall n :: n in packages <==> n in Requested(infos, moduleList[..i])
      {
        assert moduleList[..i + 1] == moduleList[..i] + [moduleList[i]];
        if moduleList[i] in infos && infos[moduleList[i]].installable {
          packages := packages + [moduleList[i]];
        }
        i := i + 1;
      }
      assert moduleList[..i] == moduleList;
    }

    // Add the module at the head of the queue and set the attributes asked for.
    method AddPackage(infos: Descriptors, package: Name, wanted: (Kind, Name) -> bool,
                      ghost start: Flags, ghost asked: set<Name>)
      requires Valid(infos) && Met(infos, package, depth.Keys) && NoMoreThan(children, flags, start, asked, wanted)
      modifies this
      ensures Valid(infos)
      ensures depth.Keys == old(depth.Keys) + {package} && forall n :: n in old(depth) ==> depth[n] == old(depth)[n]
      ensures old(flags) <= flags && AskedIn(flags, {package}, wanted) && NoMoreThan(children, flags, start, asked + {package}, wanted)
      ensures ChildrenKept(old(children), children) && (old(FlagsPassedOn(flags)) ==> FlagsPassedOn(flags))
    {
      ghost var father := AddNode(infos, package);
      SetWanted(infos, package, wanted);
      NoMoreYet(old(children), old(flags), children, flags, start, asked, package, wanted);
    }

    // Add the requested modules, and whatever order they come in, as many of them as can be.
    // `later` are those left over, each with a dependency missing from the graph.
    method AddModules(infos: Descriptors, moduleList: seq<Name>, wanted: (Kind, Name) -> bool)
      returns (added: int, later: set<Name>)
      requires Valid(infos)
      modifies this
      ensures Valid(infos)
      ensures LeastClosed(depth.Keys, old(depth.Keys), Requested(infos, moduleList), infos)
      ensures forall n :: n in old(depth) ==> n in depth && depth[n] == old(depth)[n]
      ensures later == Requested(infos, moduleList) - depth.Keys
      ensures forall n :: n in later ==> exists d :: d in infos[n].depends && d !in depth
      ensures old(flags) <= flags && (old(FlagsPassedOn(flags)) ==> FlagsPassedOn(flags))
      ensures var asked := Requested(infos, moduleList) * depth.Keys;
              AskedIn(flags, asked, wanted) && NoMoreThan(children, flags, old(flags), asked, wanted)
      ensures added == |depth| - |old(depth)|
    {
      ghost var before, start, passed := depth, flags, FlagsPassedOn(flags);
      ghost var requested := Requested(infos, moduleList);
      var lenGraph := |depth|;
      var packages := InstallablePackages(infos, moduleList);
      var current := set n | n in packages;
      later := {};
      QueueStarts(infos, depth, requested, packages, current);
      ghost var asked: set<Name> := {};
      while packages != [] && current > later
        invariant Valid(infos)
        invariant Queue(infos, before.Keys, requested, depth.Keys, packages, current, later)
        invariant forall n :: n in before ==> n in depth && depth[n] == before[n]
        invariant old(flags) <= flags && (passed ==> FlagsPassedOn(flags))
        invariant asked == requested - current && AskedIn(flags, asked, wanted) && NoMoreThan(children, flags, start, asked, wanted)
        decreases |current|, |current - later|, FirstIn(packages, current - later)
      {
        var package := packages[0];
        assert package in packages;
        if Met(infos, package, depth.Keys) {
          if package !in current {
            QueueDrops(infos, before.Keys, requested, depth.Keys, packages, current, later);
            packages := packages[1..];
            continue;
          }
          QueueAdds(infos, before.Keys, requested, depth.Keys, packages, current, later);
          later := {};
          AskedOneMore(requested, current, package);
          current := current - {package};
          AddPackage(infos, package, wanted, start, asked);
          asked := asked + {package};
          packages := packages[1..];
        } else {
          QueueRotates(infos, before.Keys, requested, depth.Keys, packages, current, later);
          later := later + {package};
          packages := packages[1..] + [package];
        }
      }
      QueueDone(infos, before.Keys, requested, depth.Keys, packages, current, later);
      added := |depth| - lenGraph;
    }

    // __iter__: level by level, by name within a level.
    method Iterate() returns (order: seq<Name>)
      ensures InOrder(depth, order) && forall n :: n in order <==> n in depth
    {
      ghost var bound: int := DepthBound(depth);
      order := [];
      var level := 0;
      var done := depth.Keys;
      while done != {}
        invariant done == set n | n in depth && depth[n] >= level
        invariant InOrder(depth, order) && forall n :: n in order <==> n in depth && depth[n] < level
        decreases bound - level
      {
        var some := Pick(done);
        var levelModules := Sorted(set n | n in done && depth[n] == level);
        var i := 0;
        ghost var order0 := order;
        while i < |levelModules|
          invariant 0 <= i <= |levelModules|
          invariant order == order0 + levelModules[..i]
          invariant done == set n | n in depth && depth[n] >= level && n !in levelModules[..i]
        {
          assert levelModules[..i + 1] == levelModules[..i] + [levelModules[i]];
          done := done - {levelModules[i]};
          order := order + [levelModules[i]];
          i := i + 1;
        }
        assert levelModules[..i] == levelModules;
        LevelAdded(depth, order0, levelModules, level);
        level := level + 1;
      }
      assert forall n :: n in depth && depth[n] >= level ==> n in done;
    }
  }

  // sorted(): the names of a set in order.
  method Sorted(names: set<Name>) returns (s: seq<Name>)
    ensures forall n :: n in s <==> n in names
    ensures forall i, j :: 0 <= i < j < |s| ==> Before(s[i], s[j])
  {
    s := [];
    var rest := names;
    while rest != {}
      invariant rest <= names && forall n :: n in s <==> n in names - rest
      invariant forall i, j :: 0 <= i < j < |s| ==> Before(s[i], s[j])
      invariant forall i, n :: 0 <= i < |s| && n in rest ==> Before(s[i], n)
      decreases rest
    {
      var m := Pick(rest);
      var unseen := rest - {m};
      while unseen != {}
        invariant unseen <= rest && m in rest && m !in unseen
        invariant forall n :: n in rest - unseen ==> n == m || Before(m, n)
        decreases unseen
      {
        var n := Pick(unseen);
        BeforeIsTotal(m, n);
        if Before(n, m) {
          forall o | o in rest - unseen
            ensures o == m || Before(n, o)
          {
            if o != m {
              BeforeIsTransitive(n, m, o);
            }
          }
          m := n;
        }
        unseen := unseen - {n};
      }
      rest := rest - {m};
      s := s + [m];
    }
  }

  // Listed by depth, and by name within a depth; no module twice.
  ghost predicate InOrder(depth: map<Name, nat>, order: seq<Name>)
  {
    && (forall i :: 0 <= i < |order| ==> order[i] in depth)
    && forall i, j :: 0 <= i < j < |order| ==>
         depth[order[i]] < depth[order[j]] || (depth[order[i]] == depth[order[j]] && Before(order[i], order[j]))
  }

  lemma LevelAdded(depth: map<Name, nat>, order: seq<Name>, names: seq<Name>, level: nat)
    requires InOrder(depth, order) && forall n :: n in order <==> n in depth && depth[n] < level
    requires forall n :: n in names <==> n in depth && depth[n] == level
    requires forall i, j :: 0 <= i < j < |names| ==> Before(names[i], names[j])
    ensures InOrder(depth, order + names) && forall n :: n in order + names <==> n in depth && depth[n] < level + 1
  {
    var all := order + names;
    forall i | 0 <= i < |all|
      ensures all[i] in depth && (if i < |order| then all[i] == order[i] && depth[all[i]] < level
                                  else all[i] == names[i - |order|] && depth[all[i]] == level)
    {
      if i < |order| {
        assert order[i] in order;
      } else {
        assert names[i - |order|] in names;
      }
    }
  }

  lemma {:induction false} DepthBound(depth: map<Name, nat>) returns (bound: nat)
    ensures forall n :: n in depth ==> depth[n] < bound
    decreases |depth|
  {
    if depth == map[] {
      bound := 0;
    } else {
      var n :| n in depth;
      bound := DepthBound(depth - {n});
      assert forall k :: k in depth ==> k == n || k in depth - {n};
      bound := if depth[n] < bound then bound else depth[n] + 1;
    }
  }

  // ------------------------------------------------------------------
  // Depths

  // Each module depends on the next.
  ghost predicate Chain(infos: Descriptors, c: seq<Name>)
  {
    c != [] && forall i :: 0 <= i < |c| - 1 ==> c[i] in infos && c[i + 1] in infos[c[i]].depends
  }

  // The depth of a module is the length of its longest dependency chain.
  lemma {:induction false} DepthIsLongestChain(infos: Descriptors, depth: map<Name, nat>, n: Name) returns (c: seq<Name>)
    requires forall m {:trigger NodeOk(infos, depth, m)} :: NodeOk(infos, depth, m)
    requires n in depth
    ensures Chain(infos, c) && c[0] == n && |c| == depth[n] + 1
    ensures forall d :: Chain(infos, d) && d[0] == n ==> |d| <= depth[n] + 1
    decreases depth[n]
  {
    assert NodeOk(infos, depth, n);
    var depends := infos[n].depends;
    if depends == [] {
      c := [n];
    } else {
      var i :| 0 <= i < |depends| && depth[depends[i]] == MaxDepth(depth, depends);
      var rest := DepthIsLongestChain(infos, depth, depends[i]);
      c := [n] + rest;
    }
    forall d | Chain(infos, d) && d[0] == n
      ensures |d| <= depth[n] + 1
    {
      ChainIsShort(infos, depth, d);
    }
  }

  lemma {:induction false} ChainIsShort(infos: Descriptors, depth: map<Name, nat>, c: seq<Name>)
    requires forall m {:trigger NodeOk(infos, depth, m)} :: NodeOk(infos, depth, m)
    requires Chain(infos, c) && c[0] in depth
    ensures |c| <= depth[c[0]] + 1
    decreases |c|
  {
    assert NodeOk(infos, depth, c[0]);
    if |c| > 1 {
      var k :| 0 <= k < |infos[c[0]].depends| && infos[c[0]].depends[k] == c[1];
      ChainIsShort(infos, depth, c[1..]);
    }
  }

  // Every dependency of a module of the graph comes before it in the iteration.
  lemma DependenciesFirst(infos: Descriptors, depth: map<Name, nat>, order: seq<Name>, j: nat, d: Name)
    requires forall m {:trigger NodeOk(infos, depth, m)} :: NodeOk(infos, depth, m)
    requires InOrder(depth, order) && forall n :: n in order <==> n in depth
    requires j < |order| && order[j] in infos && d in infos[order[j]].depends
    ensures exists i :: 0 <= i < j && order[i] == d
  {
    assert NodeOk(infos, depth, order[j]);
    var k :| 0 <= k < |infos[order[j]].depends| && infos[order[j]].depends[k] == d;
    assert depth[d] < depth[order[j]];
    var i :| 0 <= i < |order| && order[i] == d;
  }
}
