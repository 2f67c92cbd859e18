/** The entity tree, keyed by slash-separated paths, and the adapter contexts
    it takes ownership of.

    The functions say what each call does to the registry and answers; the
    class is proved to do that. */
module EntityRegistry {
  import opened Wrappers

  const MAX_ENTITY_PATH_DEPTH := 16

  datatype EntityType = Vehicle | Area | Component

  datatype VTable = VTable(hasDestroy: bool)

  /** A context is a pointer; None is null. */
  datatype Entity = Entity(
    path: string,
    kind: EntityType,
    parent: string,
    vtable: Option<VTable>,
    ctx: Option<int>
  )

  /** destroyed lists the contexts handed to the adapters' destroy, in order. */
  datatype Registry = Registry(entities: map<string, Entity>, order: seq<string>, destroyed: seq<int>)

  const EMPTY := Registry(map[], [], [])

  // --- Paths ---

  function Slashes(path: string): nat {
    if path == "" then 0 else Slashes(path[1..]) + (if path[0] == '/' then 1 else 0)
  }

  function Depth(path: string): int {
    Slashes(path) + 1
  }

  /** Everything before the last slash, "" when there is none. */
  function ParentOf(path: string): (parent: string)
    ensures '/' !in path ==> parent == ""
    ensures '/' in path ==>
      && |parent| < |path| && parent == path[..|parent|] && path[|parent|] == '/'
      && '/' !in path[|parent| + 1..]
  {
    if path == "" then ""
    else if path[|path| - 1] == '/' then path[..|path| - 1]
    else
      var parent := ParentOf(path[..|path| - 1]);
      assert path == path[..|path| - 1] + [path[|path| - 1]];
      assert '/' in path ==> '/' in path[..|path| - 1];
      assert '/' in path ==> path[|parent| + 1..] == path[..|path| - 1][|parent| + 1..] + [path[|path| - 1]];
      parent
  }

  /** Exactly these paths need no parent: those without a slash, and those
      whose only slash leads them. */
  lemma RootIff(path: string)
    ensures ParentOf(path) == "" <==> '/' !in path || (path[0] == '/' && '/' !in path[1..])
  {
    var parent := ParentOf(path);
    assert '/' in path && |parent| > 0 ==> path[1..][|parent| - 1] == path[|parent|];
  }

  lemma {:induction false} SlashesAppend(a: string, b: string)
    ensures Slashes(a + b) == Slashes(a) + Slashes(b)
  {
    if a == "" {
      assert a + b == b;
    } else {
      assert (a + b)[1..] == a[1..] + b;
      SlashesAppend(a[1..], b);
    }
  }

  lemma ParentIsShallower(path: string)
    requires ParentOf(path) != ""
    ensures Depth(ParentOf(path)) < Depth(path) && |ParentOf(path)| < |path|
  {
    var parent := ParentOf(path);
    assert path == parent + path[|parent|..];
    SlashesAppend(parent, path[|parent|..]);
  }

  /** The paths met on the way up to a root, nearest first. */
  function Ancestors(path: string): seq<string>
    decreases |path|
  {
    if ParentOf(path) == "" then [] else [ParentOf(path)] + Ancestors(ParentOf(path))
  }

  // --- What the calls do ---

  predicate OwnsContext(e: Entity) {
    e.vtable.Some? && e.vtable.value.hasDestroy && e.ctx.Some?
  }

  function ContextOf(e: Entity): seq<int> {
    if OwnsContext(e) then [e.ctx.value] else []
  }

  predicate Accepts(r: Registry, path: string) {
    && path != "" && path !in r.entities
    && Depth(path) <= MAX_ENTITY_PATH_DEPTH
    && (ParentOf(path) == "" || ParentOf(path) in r.entities)
  }

  function Add(r: Registry, path: string, kind: EntityType, vtable: Option<VTable>, ctx: Option<int>)
    : (Registry, bool)
  {
    if !Accepts(r, path) then (r, false)
    else
      var e := Entity(path, kind, ParentOf(path), vtable, ctx);
      (r.(entities := r.entities[path := e], order := r.order + [path]), true)
  }

  predicate HasChild(r: Registry, path: string) {
    exists p :: p in r.entities && r.entities[p].parent == path
  }

  function Without(order: seq<string>, path: string): seq<string> {
    if order == [] then []
    else (if order[0] == path then [] else [order[0]]) + Without(order[1..], path)
  }

  function Remove(r: Registry, path: string): (Registry, bool) {
    if path !in r.entities || HasChild(r, path) then (r, false)
    else
      (Registry(r.entities - {path}, Without(r.order, path), r.destroyed + ContextOf(r.entities[path])), true)
  }

  /** The contexts the registry owns, in registration order. */
  function Owned(entities: map<string, Entity>, order: seq<string>): seq<int>
    requires forall p :: p in order ==> p in entities
  {
    if order == [] then [] else ContextOf(entities[order[0]]) + Owned(entities, order[1..])
  }

  // --- The tree ---

  predicate Distinct(order: seq<string>) {
    forall i, j :: 0 <= i < j < |order| ==> order[i] != order[j]
  }

  /** The listing is the map's keys, each once. */
  ghost predicate ListsKeys(r: Registry) {
    Distinct(r.order) && forall p :: p in r.order <==> p in r.entities
  }

  predicate WellFormed(r: Registry) {
    forall p :: p in r.entities ==>
      && r.entities[p].path == p != ""
      && r.entities[p].parent == ParentOf(p)
      && Depth(p) <= MAX_ENTITY_PATH_DEPTH
  }

  /** The path's parent, unless it is a root, is among those given. */
  predicate ParentAmong(path: string, earlier: seq<string>) {
    ParentOf(path) == "" || ParentOf(path) in earlier
  }

  predicate ParentsFirst(order: seq<string>) {
    forall i :: 0 <= i < |order| ==> ParentAmong(order[i], order[..i])
  }

  /** What every call keeps: the listing is the map's keys, each once; every
      path is within the depth limit; parents are registered, and listed
      first. */
  ghost predicate IsTree(r: Registry) {
    ListsKeys(r) && WellFormed(r) && ParentsFirst(r.order)
  }

  class Store {
    var entities: map<string, Entity>
    var order: seq<string>
    /** The calls made to the adapters' destroy. */
    var destroyed: seq<int>

    constructor ()
      ensures State() == EMPTY
    {
      entities, order, destroyed := map[], [], [];
    }

    function State(): Registry
      reads this
    {
      Registry(entities, order, destroyed)
    }

    method AddEntity(path: string, kind: EntityType, vtable: Option<VTable>, ctx: Option<int>) returns (ok: bool)
      modifies this
      ensures (State(), ok) == Add(old(State()), path, kind, vtable, ctx)
    {
      if path == "" || path in entities {
        return false;
      }
      var depth := Slashes(path) + 1;
      if depth > MAX_ENTITY_PATH_DEPTH {
        return false;
      }
      var parent := ParentOf(path);
      if parent != "" && parent !in entities {
        return false;
      }
      var e := Entity(path, kind, parent, vtable, ctx);
      entities := entities[path := e];
      order := order + [path];
      return true;
    }

    /** Every entity once, in the order of registration. */
    method ListAll() returns (out: seq<Entity>)
      requires IsTree(State())
      ensures |out| == |order| == |entities|
      ensures forall i :: 0 <= i < |out| ==> out[i] == entities[order[i]] && out[i].path == order[i]
    {
      hide Distinct, ParentsFirst, ParentOf, Depth;
      out := [];
      for i := 0 to |order|
        invariant |out| == i
        invariant forall k :: 0 <= k < i ==>
          order[k] in entities && out[k] == entities[order[k]] && out[k].path == order[k]
      {
        assert order[i] in order;
        out := out + [entities[order[i]]];
      }
      DistinctSize(order);
      assert (set p | p in order) == entities.Keys;
    }

    method RemoveEntity(path: string) returns (ok: bool)
      modifies this
      ensures (State(), ok) == Remove(old(State()), path)
    {
      if path !in entities {
        return false;
      }
      var rest := entities.Keys;
      while rest != {}
        invariant rest <= entities.Keys
        invariant forall p :: p in entities && p !in rest ==> entities[p].parent != path
        decreases rest
      {
        var p :| p in rest;
        if entities[p].parent == path {
          return false;
        }
        rest := rest - {p};
      }
      var e := entities[path];
      if e.vtable.Some? && e.vtable.value.hasDestroy && e.ctx.Some? {
        destroyed := destroyed + [e.ctx.value];
      } else {
        assert destroyed + [] == destroyed;
      }
      entities := entities - {path};
      order := Without(order, path);
      return true;
    }

    /** The destructor. */
    method Teardown()
      requires IsTree(State())
      modifies this
      ensures destroyed == old(destroyed) + Owned(old(entities), old(order))
    {
      hide Distinct, WellFormed, ParentsFirst, Owned, OwnsContext, ContextOf;
      assert order[0..] == order;
      for i := 0 to |order|
        invariant entities == old(entities) && order == old(order)
        invariant destroyed + Owned(entities, order[i..]) == old(destroyed) + Owned(entities, order)
      {
        assert order[i] in order;
        ghost var before := destroyed;
        var e := entities[order[i]];
        if e.vtable.Some? && e.vtable.value.hasDestroy && e.ctx.Some? {
          destroyed := destroyed + [e.ctx.value];
        }
        assert destroyed == before + ContextOf(e) by {
          ContextMeans(e);
        }
        OwnedFrom(entities, order, i);
        assert before + (ContextOf(e) + Owned(entities, order[i + 1..])) == destroyed + Owned(entities, order[i + 1..]);
      }
      OwnedFrom(entities, order, |order|);
    }
  }

  lemma ContextMeans(e: Entity)
    ensures ContextOf(e) == if e.vtable.Some? && e.vtable.value.hasDestroy && e.ctx.Some? then [e.ctx.value] else []
  {
  }

  lemma OwnedFrom(entities: map<string, Entity>, order: seq<string>, i: nat)
    requires i <= |order| && forall p :: p in order ==> p in entities
    ensures Owned(entities, order[i..])
         == if i < |order| then ContextOf(entities[order[i]]) + Owned(entities, order[i + 1..]) else []
  {
  }

  lemma {:induction false} DistinctSize(order: seq<string>)
    requires Distinct(order)
    ensures |set p | p in order| == |order|
  {
    if order != [] {
      DistinctSize(order[1..]);
      assert (set p | p in order) == (set p | p in order[1..]) + {order[0]};
    }
  }

  // --- What a call accepts, and what it does ---

  /** Where the slashes of a path stand. */
  function SlashPlaces(path: string): set<nat> {
    set i: nat | i < |path| && path[i] == '/'
  }

  lemma {:induction false} SlashesAreCounted(path: string)
    ensures Slashes(path) == |SlashPlaces(path)|
  {
    if path != "" {
      var rest := path[..|path| - 1];
      SlashesAreCounted(rest);
      SlashesAppend(rest, [path[|path| - 1]]);
      assert path == rest + [path[|path| - 1]];
      assert Slashes([path[|path| - 1]]) == if path[|path| - 1] == '/' then 1 else 0 by {
        OneCharacter(path[|path| - 1]);
      }
      if path[|path| - 1] == '/' {
        assert SlashPlaces(path) == SlashPlaces(rest) + {|path| - 1};
      } else {
        assert SlashPlaces(path) == SlashPlaces(rest);
      }
    } else {
      assert SlashPlaces(path) == {};
    }
  }

  lemma OneCharacter(c: char)
    ensures Slashes([c]) == if c == '/' then 1 else 0
  {
    assert [c][1..] == "";
  }

  /** The last slash of the path stands at j. */
  predicate LastSlash(path: string, j: nat) {
    j < |path| && path[j] == '/' && '/' !in path[j + 1..]
  }

  lemma ParentIsBeforeLastSlash(path: string, j: nat)
    requires LastSlash(path, j)
    ensures ParentOf(path) == path[..j]
  {
    var k := |ParentOf(path)|;
    assert '/' in path;
    NoneAfter(path, k);
    NoneAfter(path, j);
  }

  lemma NoneAfter(path: string, k: nat)
    requires k < |path| && '/' !in path[k + 1..]
    ensures forall i :: k < i < |path| ==> path[i] != '/'
  {
    forall i | k < i < |path|
      ensures path[i] != '/'
    {
      assert path[k + 1..][i - k - 1] == path[i];
    }
  }

  /** An add is accepted exactly if the path is new and not empty, has fewer
      than sixteen slashes, and what stands before its last slash, if it has
      one that does not lead it, is registered. */
  lemma AddIff(r: Registry, path: string, kind: EntityType, vtable: Option<VTable>, ctx: Option<int>)
    ensures Add(r, path, kind, vtable, ctx).1 <==>
      && path != "" && path !in r.entities && |SlashPlaces(path)| < 16
      && (forall j: nat :: LastSlash(path, j) ==> j == 0 || path[..j] in r.entities)
  {
    hide Slashes, ParentOf;
    SlashesAreCounted(path);
    forall j: nat | LastSlash(path, j)
      ensures ParentOf(path) == path[..j]
    {
      ParentIsBeforeLastSlash(path, j);
    }
    if '/' in path {
      assert LastSlash(path, |ParentOf(path)|);
    }
  }

  /** An accepted add registers exactly what it was given, listed last; a
      refused one changes nothing. */
  lemma AddDoes(r: Registry, path: string, kind: EntityType, vtable: Option<VTable>, ctx: Option<int>)
    ensures var (t, ok) := Add(r, path, kind, vtable, ctx);
      && t.destroyed == r.destroyed
      && (!ok ==> t == r)
      && (ok ==>
            && t.order == r.order + [path]
            && t.entities.Keys == r.entities.Keys + {path}
            && (forall p :: p in r.entities ==> p != path && t.entities[p] == r.entities[p])
            && t.entities[path].path == path && t.entities[path].kind == kind
            && t.entities[path].vtable == vtable && t.entities[path].ctx == ctx)
  {
  }

  /** A removal takes out exactly that entity, keeps the order of the others,
      and destroys its context if its adapter can; a refused one changes
      nothing. */
  lemma RemoveDoes(r: Registry, path: string)
    requires IsTree(r)
    ensures var (t, ok) := Remove(r, path);
      && (!ok ==> t == r)
      && (ok ==>
            && path in r.entities && t.entities == r.entities - {path}
            && (exists k :: 0 <= k < |r.order| && r.order[k] == path && t.order == r.order[..k] + r.order[k + 1..])
            && var e := r.entities[path];
               t.destroyed == r.destroyed
                 + (if e.vtable.Some? && e.vtable.value.hasDestroy && e.ctx.Some? then [e.ctx.value] else []))
  {
    hide WellFormed, ParentsFirst, Without, HasChild, ParentOf;
    if Remove(r, path).1 {
      var k := WithoutIs(r.order, path);
      ContextMeans(r.entities[path]);
    }
  }

  // --- Each call keeps the tree ---

  lemma AddKeepsTree(r: Registry, path: string, kind: EntityType, vtable: Option<VTable>, ctx: Option<int>)
    requires IsTree(r)
    ensures IsTree(Add(r, path, kind, vtable, ctx).0)
  {
    hide Depth, ParentOf;
    if Accepts(r, path) {
      var t := Add(r, path, kind, vtable, ctx).0;
      assert ListsKeys(t) by {
        hide ParentsFirst, WellFormed, Accepts;
        assert path !in r.order;
        assert t.order == r.order + [path];
      }
      assert WellFormed(t) by {
        hide ParentsFirst, ListsKeys;
      }
      assert ParentsFirst(t.order) by {
        hide WellFormed;
        forall i | 0 <= i < |t.order|
          ensures ParentAmong(t.order[i], t.order[..i])
        {
          assert t.order[..i] == r.order[..i];
        }
      }
    }
  }

  function Cut(order: seq<string>, k: int): seq<string>
    requires 0 <= k < |order|
  {
    order[..k] + order[k + 1..]
  }

  /** Without takes out the one place where the path is listed. */
  lemma {:induction false} WithoutIs(order: seq<string>, path: string) returns (k: int)
    requires Distinct(order) && path in order
    ensures 0 <= k < |order| && order[k] == path && Without(order, path) == Cut(order, k)
  {
    if order[0] == path {
      k := 0;
      WithoutNothing(order[1..], path);
    } else {
      k := WithoutIs(order[1..], path);
      k := k + 1;
      assert [order[0]] + Cut(order[1..], k - 1) == Cut(order, k);
    }
  }

  lemma {:induction false} WithoutNothing(order: seq<string>, path: string)
    requires path !in order
    ensures Without(order, path) == order
  {
    if order != [] {
      WithoutNothing(order[1..], path);
    }
  }

  lemma CutKeepsListing(r: Registry, k: int)
    requires ListsKeys(r) && 0 <= k < |r.order|
    ensures ListsKeys(r.(entities := r.entities - {r.order[k]}, order := Cut(r.order, k)))
  {
  }

  lemma CutKeepsParents(order: seq<string>, k: int)
    requires ParentsFirst(order) && 0 <= k < |order| && order[k] != ""
    requires forall p :: p in order ==> ParentOf(p) != order[k]
    ensures ParentsFirst(Cut(order, k))
  {
    hide ParentOf;
    var cut := Cut(order, k);
    forall i | 0 <= i < |cut|
      ensures ParentAmong(cut[i], cut[..i])
    {
      var at := if i < k then i else i + 1;
      assert cut[i] == order[at] && order[at] in order;
      assert ParentAmong(order[at], order[..at]);
      if ParentOf(order[at]) != "" {
        var j :| 0 <= j < at && order[..at][j] == ParentOf(order[at]);
        assert cut[..i][if j < k then j else j - 1] == order[j];
      }
    }
  }

  lemma RemoveKeepsTree(r: Registry, path: string)
    requires IsTree(r)
    ensures IsTree(Remove(r, path).0)
  {
    hide Depth, ParentOf, Without, Distinct, ParentsFirst, Cut;
    if Remove(r, path).1 {
      var k := WithoutIs(r.order, path);
      CutKeepsListing(r, k);
      CutKeepsParents(r.order, k);
    }
  }

  /** The way up from any entity is registered all along, reaches a root, and
      takes fewer steps than the depth limit. */
  lemma {:induction false} AncestorsAreRegistered(r: Registry, path: string)
    requires IsTree(r) && path in r.entities
    ensures forall a :: a in Ancestors(path) ==> a in r.entities
    ensures |Ancestors(path)| < Depth(path) <= MAX_ENTITY_PATH_DEPTH
    ensures var top := if Ancestors(path) == [] then path else Ancestors(path)[|Ancestors(path)| - 1];
      ParentOf(top) == ""
    decreases |path|
  {
    hide Slashes, Depth, ParentOf, IsTree;
    var parent := ParentOf(path);
    assert Depth(path) <= MAX_ENTITY_PATH_DEPTH && (parent != "" ==> parent in r.entities) by {
      ParentIsRegistered(r, path);
    }
    if parent != "" {
      ParentIsShallower(path);
      AncestorsAreRegistered(r, parent);
      assert Ancestors(path)[|Ancestors(path)| - 1]
          == if Ancestors(parent) == [] then parent else Ancestors(parent)[|Ancestors(parent)| - 1];
    } else {
      RootDepth(path);
    }
  }

  lemma ParentIsRegistered(r: Registry, path: string)
    requires IsTree(r) && path in r.entities
    ensures Depth(path) <= MAX_ENTITY_PATH_DEPTH && (ParentOf(path) != "" ==> ParentOf(path) in r.entities)
  {
  }

  lemma RootDepth(path: string)
    ensures Depth(path) > 0
  {
  }

  /** An entity can be removed exactly when nothing at all is left below it,
      not merely no child. */
  lemma RemoveIff(r: Registry, path: string)
    requires IsTree(r)
    ensures Remove(r, path).1 <==> path in r.entities && forall p :: p in r.entities ==> path !in Ancestors(p)
  {
    hide ParentOf, Depth, Without;
    if path in r.entities {
      forall p | p in r.entities && path in Ancestors(p)
        ensures HasChild(r, path)
      {
        DescendantMeansChild(r, path, p);
      }
      if p :| p in r.entities && r.entities[p].parent == path {
        assert ParentOf(p) == path != "";
        assert Ancestors(p)[0] == path;
      }
    }
  }

  lemma {:induction false} DescendantMeansChild(r: Registry, path: string, p: string)
    requires IsTree(r) && p in r.entities && path in Ancestors(p)
    ensures HasChild(r, path)
    decreases |p|
  {
    hide ParentOf, Depth;
    if ParentOf(p) == path {
      assert r.entities[p].parent == path;
    } else {
      AncestorsAreRegistered(r, p);
      assert ParentOf(p) == Ancestors(p)[0];
      ParentIsShallower(p);
      DescendantMeansChild(r, path, ParentOf(p));
    }
  }

  // --- Whole runs ---

  datatype Op =
    | AddOp(path: string, kind: EntityType, vtable: Option<VTable>, ctx: Option<int>)
    | RemoveOp(path: string)

  function Step(r: Registry, op: Op): (Registry, bool) {
    match op
    case AddOp(path, kind, vtable, ctx) => Add(r, path, kind, vtable, ctx)
    case RemoveOp(path) => Remove(r, path)
  }

  function After(ops: seq<Op>): Registry {
    if ops == [] then EMPTY else Step(After(ops[..|ops| - 1]), ops[|ops| - 1]).0
  }

  /** The contexts handed over with an accepted add, in order. */
  function TakenOver(ops: seq<Op>): seq<int> {
    if ops == [] then []
    else
      var prefix, op := ops[..|ops| - 1], ops[|ops| - 1];
      TakenOver(prefix)
      + if op.AddOp? && Step(After(prefix), op).1
        then ContextOf(Entity(op.path, op.kind, "", op.vtable, op.ctx))
        else []
  }

  lemma {:induction false} AlwaysATree(ops: seq<Op>)
    ensures IsTree(After(ops))
  {
    hide Add, Remove, IsTree;
    if ops == [] {
      assert IsTree(EMPTY) by { EmptyIsTree(); }
    } else {
      var before, op := After(ops[..|ops| - 1]), ops[|ops| - 1];
      AlwaysATree(ops[..|ops| - 1]);
      match op
      case AddOp(path, kind, vtable, ctx) => AddKeepsTree(before, path, kind, vtable, ctx);
      case RemoveOp(path) => RemoveKeepsTree(before, path);
    }
  }

  lemma EmptyIsTree()
    ensures IsTree(EMPTY)
  {
  }

  lemma {:induction false} OwnedAppend(entities: map<string, Entity>, a: seq<string>, b: seq<string>)
    requires forall p :: p in a || p in b ==> p in entities
    ensures Owned(entities, a + b) == Owned(entities, a) + Owned(entities, b)
  {
    if a == [] {
      assert a + b == b;
    } else {
      assert (a + b)[1..] == a[1..] + b;
      OwnedAppend(entities, a[1..], b);
    }
  }

  /** Only the listed entities matter. */
  lemma {:induction false} OwnedAgrees(e: map<string, Entity>, f: map<string, Entity>, order: seq<string>)
    requires forall p :: p in order ==> p in e && p in f && e[p] == f[p]
    ensures Owned(e, order) == Owned(f, order)
  {
    if order != [] {
      OwnedAgrees(e, f, order[1..]);
    }
  }

  lemma OneOwned(entities: map<string, Entity>, path: string)
    requires path in entities
    ensures Owned(entities, [path]) == ContextOf(entities[path])
  {
  }

  lemma AddTakesOver(r: Registry, path: string, kind: EntityType, vtable: Option<VTable>, ctx: Option<int>)
    requires IsTree(r) && Accepts(r, path)
    ensures var t := Add(r, path, kind, vtable, ctx).0;
      && IsTree(t)
      && Owned(t.entities, t.order) == Owned(r.entities, r.order) + ContextOf(Entity(path, kind, "", vtable, ctx))
  {
    hide ParentOf, Depth, Slashes, Distinct, WellFormed, ParentsFirst;
    AddKeepsTree(r, path, kind, vtable, ctx);
    var t := Add(r, path, kind, vtable, ctx).0;
    OwnedAppend(t.entities, r.order, [path]);
    OwnedAgrees(r.entities, t.entities, r.order);
    OneOwned(t.entities, path);
  }

  lemma RemoveLetsGo(r: Registry, path: string)
    requires IsTree(r) && Remove(r, path).1
    ensures var t := Remove(r, path).0;
      && IsTree(t)
      && multiset(Owned(r.entities, r.order))
         == multiset(Owned(t.entities, t.order)) + multiset(ContextOf(r.entities[path]))
  {
    hide ParentOf, Depth, Slashes, Without, Owned, HasChild, Distinct, WellFormed, ParentsFirst;
    RemoveKeepsTree(r, path);
    var t := Remove(r, path).0;
    var k := WithoutIs(r.order, path);
    CutKeepsListing(r, k);
    var a, b := r.order[..k], r.order[k + 1..];
    assert r.order == a + ([path] + b);
    OwnedAppend(r.entities, a, [path] + b);
    OwnedAppend(r.entities, [path], b);
    OneOwned(r.entities, path);
    OwnedAppend(r.entities, a, b);
    OwnedAgrees(r.entities, t.entities, a + b);
  }

  /** Conservation: the contexts taken over are those destroyed and those
      still owned, each as often as it was handed in. */
  lemma {:induction false} ContextsAreConserved(ops: seq<Op>)
    ensures var r := After(ops);
      && IsTree(r)
      && multiset(TakenOver(ops)) == multiset(r.destroyed) + multiset(Owned(r.entities, r.order))
  {
    hide IsTree, Accepts, HasChild, Owned, ContextOf, Without;
    AlwaysATree(ops);
    if ops == [] {
      assert Owned(map[], []) == [] by { NothingOwned(); }
    } else {
      var prefix, op := ops[..|ops| - 1], ops[|ops| - 1];
      var before := After(prefix);
      ContextsAreConserved(prefix);
      if Step(before, op).1 {
        match op
        case AddOp(path, kind, vtable, ctx) => AddTakesOver(before, path, kind, vtable, ctx);
        case RemoveOp(path) => RemoveLetsGo(before, path);
      }
    }
  }

  lemma NothingOwned()
    ensures Owned(map[], []) == []
  {
  }

  /** After any run and the destructor, every context taken over has been
      destroyed exactly as often as it was handed in: once, when distinct. */
  lemma EveryContextIsDestroyedOnce(ops: seq<Op>, ctx: int)
    requires multiset(TakenOver(ops))[ctx] == 1
    ensures var r := After(ops); IsTree(r) && multiset(r.destroyed + Owned(r.entities, r.order))[ctx] == 1
  {
    ContextsAreConserved(ops);
  }
}
