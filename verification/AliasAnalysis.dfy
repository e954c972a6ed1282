/**
 Which identifiers may name Node's module loader: the alias analysis of
 scripts/ci/check-dependency-direction.ts.  `moduleLoaderRoots` iterates over the declarations
 until nothing changes; its result is proved to be the least closed set.
 */
module AliasAnalysis {
  import opened Common

  // ---------- Scopes ----------

  datatype Binding = Binding(start: int, end: int)
  type Bindings = map<string, seq<Binding>>

  datatype Identifier = Identifier(name: string, pos: int)

  datatype Key = Bound(name: string, start: int, end: int) | Ambient(name: string)

  predicate Covers(b: Binding, pos: int) { b.start <= pos < b.end }

  predicate Within(inner: Binding, outer: Binding) { outer.start <= inner.start && inner.end <= outer.end }

  function BindingsOf(bindings: Bindings, name: string): seq<Binding> {
    if name in bindings then bindings[name] else []
  }

  /** The covering binding with the shortest range; the first of them in a tie, as a stable sort leaves it. */
  function Shortest(bs: seq<Binding>, pos: int): Option<Binding> {
    if bs == [] then None else
    var rest := Shortest(bs[1..], pos);
    if !Covers(bs[0], pos) then rest
    else if rest.Some? && rest.value.end - rest.value.start < bs[0].end - bs[0].start then rest
    else Some(bs[0])
  }

  function ScopedKey(id: Identifier, bindings: Bindings): Key {
    match Shortest(BindingsOf(bindings, id.name), id.pos)
    case Some(b) => Bound(id.name, b.start, b.end)
    case None => Ambient(id.name)
  }

  /** Scopes of a program are nested or disjoint. */
  ghost predicate Nested(bs: seq<Binding>) {
    forall a, b :: a in bs && b in bs ==> Within(a, b) || Within(b, a) || a.end <= b.start || b.end <= a.start
  }

  lemma {:induction false} ShortestIsShortest(bs: seq<Binding>, pos: int)
    ensures match Shortest(bs, pos)
      case Some(b) => b in bs && Covers(b, pos)
                      && forall c :: c in bs && Covers(c, pos) ==> b.end - b.start <= c.end - c.start
      case None => forall c :: c in bs ==> !Covers(c, pos)
  {
    if bs != [] {
      ShortestIsShortest(bs[1..], pos);
      assert forall c :: c in bs <==> c == bs[0] || c in bs[1..];
    }
  }

  /** The key names the innermost scope that declares the identifier, or marks it ambient if none does. */
  lemma ScopedKeyIsInnermost(id: Identifier, bindings: Bindings)
    requires Nested(BindingsOf(bindings, id.name))
    ensures match ScopedKey(id, bindings)
      case Bound(name, start, end) =>
        && name == id.name
        && Binding(start, end) in BindingsOf(bindings, id.name) && Covers(Binding(start, end), id.pos)
        && forall c :: c in BindingsOf(bindings, id.name) && Covers(c, id.pos) ==> Within(Binding(start, end), c)
      case Ambient(name) => name == id.name && forall c :: c in BindingsOf(bindings, id.name) ==> !Covers(c, id.pos)
  {
    ShortestIsShortest(BindingsOf(bindings, id.name), id.pos);
  }

  // ---------- Expressions ----------

  datatype Element = Plain(value: Expr) | Spread(value: Expr)

  datatype Expr =
    | Name(id: Identifier)
    | Transparent(inner: Expr)  // parentheses, `as`, `!`, `satisfies`, `await`
    | Comma(left: Expr, right: Expr)
    | New(callee: Expr)
    | Conditional(test: Expr, whenTrue: Expr, whenFalse: Expr)
    | Logical(left: Expr, right: Expr)  // `||`, `&&`, `??`
    | ArrayLiteral(elements: seq<Element>)
    | ElementAccess(base: Expr, name: Option<string>, index: Option<nat>)  // static reading of the argument
    | PropertyAccess(base: Expr, property: string)
    | ClassExpr(heritage: seq<Expr>)
    | ImportCall(ofNodeModule: bool)
    | Call(target: Expr, arguments: seq<Expr>, ofNodeModule: bool, second: Option<string>)
    | AssignExpr(to: Identifier, value: Expr)  // an assignment whose value is used; its effect is a node of its own
    | Inert    // a literal, a function, an object literal: never the loader
    | Unknown  // anything else, of which nothing is assumed

  function Unwrap(e: Expr): (r: Expr)
    ensures r == e || r < e
    ensures !r.Transparent? && !r.Comma?
  {
    match e
    case Transparent(inner) => Unwrap(inner)
    case Comma(_, right) => Unwrap(right)
    case _ => e
  }

  predicate Unshadowed(e: Expr, name: string, bindings: Bindings) {
    e.Name? && e.id.name == name && ScopedKey(e.id, bindings).Ambient?
  }

  predicate IsAccess(e: Expr) { e.PropertyAccess? || e.ElementAccess? }

  function PropertyName(e: Expr): Option<string>
    requires IsAccess(e)
  {
    if e.PropertyAccess? then Some(e.property) else e.name
  }

  predicate CallsMethod(e: Expr, on: string, member: string, bindings: Bindings)
    requires e.Call?
  {
    && IsAccess(e.target) && Unshadowed(Unwrap(e.target.base), on, bindings)
    && PropertyName(e.target) == Some(member)
  }

  predicate LoaderProperty(name: Option<string>) {
    name in {Some("Module"), Some("constructor"), Some("default"), Some("prototype")}
  }

  /** Whether an expression is taken to be the module loader, given the aliases found so far. */
  predicate IsLoader(e: Expr, aliases: set<Key>, bindings: Bindings)
    decreases e
  {
    match e
    case Transparent(inner) => IsLoader(inner, aliases, bindings)
    case Comma(_, right) => IsLoader(right, aliases, bindings)
    case Name(id) => ScopedKey(id, bindings) in aliases || Unshadowed(e, "module", bindings)
    case New(callee) => IsLoader(callee, aliases, bindings)
    case Conditional(_, whenTrue, whenFalse) =>
      IsLoader(whenTrue, aliases, bindings) || IsLoader(whenFalse, aliases, bindings)
    case Logical(left, right) => IsLoader(left, aliases, bindings) || IsLoader(right, aliases, bindings)
    case ClassExpr(heritage) => exists i :: 0 <= i < |heritage| && IsLoader(heritage[i], aliases, bindings)
    case ImportCall(ofNodeModule) => ofNodeModule
    case Call(target, arguments, ofNodeModule, second) =>
      if (|| Unshadowed(Unwrap(target), "require", bindings)
          || (IsAccess(target) && PropertyName(target) == Some("require") && IsLoader(target.base, aliases, bindings)))
         && ofNodeModule then true
      else if CallsMethod(e, "process", "getBuiltinModule", bindings) then ofNodeModule
      else if (CallsMethod(e, "Object", "create", bindings) || CallsMethod(e, "Reflect", "construct", bindings))
              && |arguments| > 0 && IsLoader(arguments[0], aliases, bindings) then true
      else if CallsMethod(e, "Reflect", "get", bindings)
              && |arguments| > 0 && IsLoader(arguments[0], aliases, bindings) then LoaderProperty(second)
      else false
    case ElementAccess(base, name, index) =>
      var list := Unwrap(base);
      if list.ArrayLiteral? then
        && index.Some? && index.value < |list.elements|
        && list.elements[index.value].Plain? && IsLoader(list.elements[index.value].value, aliases, bindings)
      else LoaderMember(e, bindings) || (LoaderProperty(name) && IsLoader(base, aliases, bindings))
    case PropertyAccess(base, property) =>
      LoaderMember(e, bindings) || (LoaderProperty(Some(property)) && IsLoader(base, aliases, bindings))
    case ArrayLiteral(_) => false
    case AssignExpr(_, _) => false
    case Inert => false
    case Unknown => false
  }

  /** `process.mainModule` of the ambient process. */
  predicate LoaderMember(e: Expr, bindings: Bindings)
    requires IsAccess(e)
  {
    PropertyName(e) == Some("mainModule") && Unshadowed(Unwrap(e.base), "process", bindings)
  }

  /** More aliases can only make more expressions loaders. */
  lemma {:induction false} IsLoaderMonotone(e: Expr, small: set<Key>, large: set<Key>, bindings: Bindings)
    requires small <= large && IsLoader(e, small, bindings)
    ensures IsLoader(e, large, bindings)
    decreases e
  {
    match e
    case Transparent(inner) => IsLoaderMonotone(inner, small, large, bindings);
    case Comma(_, right) => IsLoaderMonotone(right, small, large, bindings);
    case New(callee) => IsLoaderMonotone(callee, small, large, bindings);
    case Conditional(_, whenTrue, whenFalse) =>
      if IsLoader(whenTrue, small, bindings) { IsLoaderMonotone(whenTrue, small, large, bindings); }
      else { IsLoaderMonotone(whenFalse, small, large, bindings); }
    case Logical(left, right) =>
      if IsLoader(left, small, bindings) { IsLoaderMonotone(left, small, large, bindings); }
      else { IsLoaderMonotone(right, small, large, bindings); }
    case ClassExpr(heritage) =>
      var i :| 0 <= i < |heritage| && IsLoader(heritage[i], small, bindings);
      IsLoaderMonotone(heritage[i], small, large, bindings);
    case Call(target, arguments, _, _) =>
      if IsAccess(target) && IsLoader(target.base, small, bindings) {
        IsLoaderMonotone(target.base, small, large, bindings);
      }
      if |arguments| > 0 && IsLoader(arguments[0], small, bindings) {
        IsLoaderMonotone(arguments[0], small, large, bindings);
      }
    case ElementAccess(base, _, index) =>
      var list := Unwrap(base);
      if list.ArrayLiteral? { IsLoaderMonotone(list.elements[index.value].value, small, large, bindings); }
      else if IsLoader(base, small, bindings) { IsLoaderMonotone(base, small, large, bindings); }
    case PropertyAccess(base, _) =>
      if IsLoader(base, small, bindings) { IsLoaderMonotone(base, small, large, bindings); }
    case _ =>
  }

  // ---------- The fixpoint ----------

  datatype Part = Part(property: Option<string>, target: Identifier)

  /** The nodes the traversal looks at, in source order. */
  datatype Node =
    | Declare(target: Identifier, value: Expr)
    | Destructure(parts: seq<Part>, value: Expr)
    | DeclareClass(target: Identifier, heritage: seq<Expr>)
    | Assign(target: Identifier, value: Expr)

  /** The keys a node adds to the aliases. */
  function Derived(n: Node, aliases: set<Key>, bindings: Bindings): set<Key> {
    match n
    case Declare(target, value) => if IsLoader(value, aliases, bindings) then {ScopedKey(target, bindings)} else {}
    case Destructure(parts, value) =>
      if IsLoader(value, aliases, bindings) then
        set p | p in parts && p.property in {Some("Module"), Some("default")} :: ScopedKey(p.target, bindings)
      else {}
    case DeclareClass(target, heritage) =>
      if exists i :: 0 <= i < |heritage| && IsLoader(heritage[i], aliases, bindings) then {ScopedKey(target, bindings)} else {}
    case Assign(target, value) => if IsLoader(value, aliases, bindings) then {ScopedKey(target, bindings)} else {}
  }

  lemma DerivedMonotone(n: Node, small: set<Key>, large: set<Key>, bindings: Bindings)
    requires small <= large
    ensures Derived(n, small, bindings) <= Derived(n, large, bindings)
  {
    match n
    case DeclareClass(target, heritage) =>
      forall i | 0 <= i < |heritage| && IsLoader(heritage[i], small, bindings)
        ensures IsLoader(heritage[i], large, bindings)
      {
        IsLoaderMonotone(heritage[i], small, large, bindings);
      }
    case _ =>
      if IsLoader(n.value, small, bindings) { IsLoaderMonotone(n.value, small, large, bindings); }
  }

  ghost predicate Closed(nodes: seq<Node>, aliases: set<Key>, bindings: Bindings) {
    forall n :: n in nodes ==> Derived(n, aliases, bindings) <= aliases
  }

  /** `aliases` is the least set that contains the seeds and is closed under every node. */
  ghost predicate IsLeastClosed(nodes: seq<Node>, seeds: set<Key>, aliases: set<Key>, bindings: Bindings) {
    && seeds <= aliases && Closed(nodes, aliases, bindings)
    && forall other: set<Key> :: seeds <= other && Closed(nodes, other, bindings) ==> aliases <= other
  }

  ghost function Targets(nodes: seq<Node>, bindings: Bindings): set<Key> {
    if nodes == [] then {} else
    Targets(nodes[1..], bindings) +
    match nodes[0]
    case Destructure(parts, _) => set p | p in parts :: ScopedKey(p.target, bindings)
    case _ => {ScopedKey(nodes[0].target, bindings)}
  }

  lemma {:induction false} DerivedInTargets(nodes: seq<Node>, n: Node, aliases: set<Key>, bindings: Bindings)
    requires n in nodes
    ensures Derived(n, aliases, bindings) <= Targets(nodes, bindings)
  {
    if n != nodes[0] {
      DerivedInTargets(nodes[1..], n, aliases, bindings);
    }
  }

  /** The iteration of `moduleLoaderRoots`: traverse until a traversal adds nothing. */
  method ModuleLoaderRoots(nodes: seq<Node>, seeds: set<Key>, bindings: Bindings) returns (aliases: set<Key>)
    ensures IsLeastClosed(nodes, seeds, aliases, bindings)
  {
    aliases := seeds;
    ghost var universe := seeds + Targets(nodes, bindings);
    var changed := true;
    while changed
      invariant seeds <= aliases <= universe
      invariant forall other: set<Key> :: seeds <= other && Closed(nodes, other, bindings) ==> aliases <= other
      invariant !changed ==> Closed(nodes, aliases, bindings)
      decreases |universe - aliases|, if changed then 1 else 0
    {
      changed := false;
      ghost var before := aliases;
      var i := 0;
      while i < |nodes|
        invariant 0 <= i <= |nodes|
        invariant seeds <= aliases <= universe
        invariant before <= aliases && (changed <==> aliases != before)
        invariant forall other: set<Key> :: seeds <= other && Closed(nodes, other, bindings) ==> aliases <= other
        invariant !changed ==> forall k :: 0 <= k < i ==> Derived(nodes[k], aliases, bindings) <= aliases
      {
        var found := Derived(nodes[i], aliases, bindings);
        DerivedInTargets(nodes, nodes[i], aliases, bindings);
        forall other: set<Key> | seeds <= other && Closed(nodes, other, bindings)
          ensures found <= other
        {
          DerivedMonotone(nodes[i], aliases, other, bindings);
        }
        if !(found <= aliases) {
          aliases := aliases + found;
          changed := true;
        }
        i := i + 1;
      }
      if changed {
        Shrinks(universe, before, aliases);
      }
    }
  }

  lemma Shrinks(universe: set<Key>, before: set<Key>, after: set<Key>)
    requires before <= after <= universe && before != after
    ensures |universe - after| < |universe - before|
  {
    assert universe - before == (universe - after) + (after - before);
    assert after - before != {};
  }

  /** The result does not depend on the order, or the repetition, of the declarations. */
  lemma OrderIndependent(a: seq<Node>, b: seq<Node>, seeds: set<Key>, x: set<Key>, y: set<Key>, bindings: Bindings)
    requires forall n :: n in a <==> n in b
    requires IsLeastClosed(a, seeds, x, bindings) && IsLeastClosed(b, seeds, y, bindings)
    ensures x == y
  {
    assert Closed(a, y, bindings) && Closed(b, x, bindings);
  }
}
