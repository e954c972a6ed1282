/**
 What the alias analysis of scripts/ci/check-dependency-direction.ts misses: a semantics of programs, told
 apart from the analysis by the properties through which the module loader reaches itself at run time, and
 exactly when every variable that can hold the loader is among the aliases.
 */
module AliasSoundness {
  import opened Common
  import opened AliasAnalysis

  // ---------- Run time ----------

  /**
   What the platform provides: the properties of the loader that are the loader again or lead back to it,
   and the properties of ambient objects that hold it.
   */
  datatype Runtime = Runtime(reaching: set<string>, paths: set<(string, string)>)

  /** The loader, or an object that was made from it and leads back to it; or anything else. */
  datatype Value = Loader | Other(id: nat)

  /** A variable at run time: one instance of the declaration a key stands for. */
  datatype Cell = Cell(key: Key, instance: nat)
  type Store = map<Cell, Value>

  function LoaderKeys(store: Store): set<Key> {
    set c | c in store && store[c] == Loader :: c.key
  }

  /** A call of `require` or of a method that can load a module. */
  predicate LoadsModule(e: Expr, bindings: Bindings)
    requires e.Call?
  {
    || Unshadowed(Unwrap(e.target), "require", bindings)
    || CallsMethod(e, "process", "getBuiltinModule", bindings)
  }

  predicate RequiresOf(e: Expr)
    requires e.Call?
  {
    IsAccess(e.target) && PropertyName(e.target) == Some("require")
  }

  /** A call that makes an object from its first argument. */
  predicate MakesFrom(e: Expr, bindings: Bindings)
    requires e.Call?
  {
    (CallsMethod(e, "Object", "create", bindings) || CallsMethod(e, "Reflect", "construct", bindings)) && |e.arguments| > 0
  }

  /** `Reflect.get` with a static property name. */
  predicate GetsFrom(e: Expr, bindings: Bindings)
    requires e.Call?
  {
    CallsMethod(e, "Reflect", "get", bindings) && |e.arguments| > 0 && e.second.Some?
  }

  /**
   Identifiers, conditionals, logical operators, comma, assignments, constant indexing of array literals,
   properties with a static name, classes and instances, dynamic imports, the calls that load modules, make
   objects or get properties, and values that are never the loader.
   */
  predicate InFragment(e: Expr, bindings: Bindings)
    decreases e
  {
    match e
    case Name(_) => true
    case Transparent(inner) => InFragment(inner, bindings)
    case Comma(_, right) => InFragment(right, bindings)
    case Conditional(_, whenTrue, whenFalse) => InFragment(whenTrue, bindings) && InFragment(whenFalse, bindings)
    case Logical(left, right) => InFragment(left, bindings) && InFragment(right, bindings)
    case ArrayLiteral(_) => true
    case ElementAccess(base, name, index) =>
      var list := Unwrap(base);
      if list.ArrayLiteral? then
        index.Some? && forall i :: 0 <= i < |list.elements| ==> list.elements[i].Plain? && InFragment(list.elements[i].value, bindings)
      else name.Some? && InFragment(base, bindings)
    case PropertyAccess(base, _) => InFragment(base, bindings)
    case ImportCall(_) => true
    case New(callee) => InFragment(callee, bindings)
    case ClassExpr(heritage) => forall i :: 0 <= i < |heritage| ==> InFragment(heritage[i], bindings)
    case Call(target, arguments, _, _) =>
      if LoadsModule(e, bindings) then true
      else if RequiresOf(e) then InFragment(target.base, bindings)
      else (MakesFrom(e, bindings) || GetsFrom(e, bindings)) && InFragment(arguments[0], bindings)
    case AssignExpr(_, value) => InFragment(value, bindings)
    case Inert => true
    case _ => false
  }

  /** The property is read from an ambient object that holds the loader there. */
  predicate OnPath(rt: Runtime, base: Expr, property: string, bindings: Bindings) {
    var e := Unwrap(base);
    e.Name? && ScopedKey(e.id, bindings).Ambient? && (e.id.name, property) in rt.paths
  }

  /** The values of a property, whether accessed or destructured. */
  ghost predicate PropertyCanBe(rt: Runtime, base: Expr, property: string, store: Store, bindings: Bindings, v: Value)
    requires InFragment(base, bindings)
    decreases base, 1
  {
    || v.Other?
    || OnPath(rt, base, property, bindings)
    || (property in rt.reaching && CanBe(rt, base, store, bindings, Loader))
  }

  /**
   The values a fragment expression can have.  An identifier reads some instance of its variable;
   tests and operands are not evaluated, so every value that any execution yields is included.
   */
  ghost predicate CanBe(rt: Runtime, e: Expr, store: Store, bindings: Bindings, v: Value)
    requires InFragment(e, bindings)
    decreases e, 0
  {
    match e
    case Name(id) =>
      || (exists n :: Cell(ScopedKey(id, bindings), n) in store && store[Cell(ScopedKey(id, bindings), n)] == v)
      || (Unshadowed(e, "module", bindings) && v == Loader)
      || (ScopedKey(id, bindings).Ambient? && v.Other?)
    case Transparent(inner) => CanBe(rt, inner, store, bindings, v)
    case Comma(_, right) => CanBe(rt, right, store, bindings, v)
    case Conditional(_, whenTrue, whenFalse) =>
      CanBe(rt, whenTrue, store, bindings, v) || CanBe(rt, whenFalse, store, bindings, v)
    case Logical(left, right) => CanBe(rt, left, store, bindings, v) || CanBe(rt, right, store, bindings, v)
    case ElementAccess(base, name, index) =>
      if Unwrap(base).ArrayLiteral? then
        var elements := Unwrap(base).elements;
        if index.value < |elements| then CanBe(rt, elements[index.value].value, store, bindings, v) else v.Other?
      else PropertyCanBe(rt, base, name.value, store, bindings, v)
    case PropertyAccess(base, property) => PropertyCanBe(rt, base, property, store, bindings, v)
    case ImportCall(ofNodeModule) => ofNodeModule || v.Other?
    case New(callee) => v.Other? || CanBe(rt, callee, store, bindings, Loader)
    case ClassExpr(heritage) => v.Other? || exists i :: 0 <= i < |heritage| && CanBe(rt, heritage[i], store, bindings, Loader)
    case Call(target, arguments, ofNodeModule, second) =>
      if LoadsModule(e, bindings) then v.Other? || ofNodeModule
      else if RequiresOf(e) then v.Other? || (ofNodeModule && CanBe(rt, target.base, store, bindings, Loader))
      else if MakesFrom(e, bindings) then v.Other? || CanBe(rt, arguments[0], store, bindings, Loader)
      else PropertyCanBe(rt, arguments[0], second.value, store, bindings, v)
    case AssignExpr(_, value) => CanBe(rt, value, store, bindings, v)
    case _ => v.Other?
  }

  /** Declarations, assignments and destructurings of a fragment value, and classes that extend fragment expressions. */
  predicate FragmentNode(n: Node, bindings: Bindings) {
    if n.DeclareClass? then forall i :: 0 <= i < |n.heritage| ==> InFragment(n.heritage[i], bindings)
    else InFragment(n.value, bindings)
  }

  /** One variable that an executed declaration or assignment sets. */
  datatype Action = Action(node: Node, part: nat, instance: nat, value: Value)

  /** A destructured part is set from a property with a static name. */
  predicate HasTarget(a: Action) {
    a.node.Destructure? ==> a.part < |a.node.parts| && a.node.parts[a.part].property.Some?
  }

  function TargetOf(a: Action): Identifier
    requires HasTarget(a)
  {
    if a.node.Destructure? then a.node.parts[a.part].target else a.node.target
  }

  ghost predicate Legal(rt: Runtime, a: Action, nodes: seq<Node>, store: Store, bindings: Bindings) {
    && a.node in nodes && FragmentNode(a.node, bindings) && HasTarget(a)
    && if a.node.Destructure? then
         PropertyCanBe(rt, a.node.value, a.node.parts[a.part].property.value, store, bindings, a.value)
       else if a.node.DeclareClass? then CanBe(rt, ClassExpr(a.node.heritage), store, bindings, a.value)
       else CanBe(rt, a.node.value, store, bindings, a.value)
  }

  function Effect(a: Action, store: Store, bindings: Bindings): Store
    requires HasTarget(a)
  {
    store[Cell(ScopedKey(TargetOf(a), bindings), a.instance) := a.value]
  }

  /** A program may execute its declarations and assignments in any order, any number of times. */
  ghost predicate Execution(rt: Runtime, actions: seq<Action>, nodes: seq<Node>, from: Store, to: Store, bindings: Bindings)
    decreases actions
  {
    if actions == [] then from == to
    else Legal(rt, actions[0], nodes, from, bindings)
         && Execution(rt, actions[1..], nodes, Effect(actions[0], from, bindings), to, bindings)
  }

  // ---------- Imports ----------

  datatype ImportForm = DefaultImport | Namespace | Named(property: string) | ImportEquals

  /** A binding that an import declaration introduces. */
  datatype Import = Import(ofNodeModule: bool, form: ImportForm, target: Identifier)

  /** The forms the analysis starts from. */
  predicate Seeded(form: ImportForm) {
    form == DefaultImport || form == Namespace || form == ImportEquals || form == Named("Module")
  }

  function Seeds(imports: seq<Import>, bindings: Bindings): set<Key> {
    set i | i in imports && i.ofNodeModule && Seeded(i.form) :: ScopedKey(i.target, bindings)
  }

  /** The forms that bind the loader at run time: `default` names the same export as `Module`. */
  predicate BindsLoader(i: Import) {
    i.ofNodeModule && (Seeded(i.form) || i.form == Named("default"))
  }

  function ImportKeys(imports: seq<Import>, bindings: Bindings): set<Key> {
    set i | i in imports && BindsLoader(i) :: ScopedKey(i.target, bindings)
  }

  /** As a program begins, only bindings of imports that bind the loader hold it. */
  ghost predicate Initially(from: Store, imports: seq<Import>, bindings: Bindings) {
    LoaderKeys(from) <= ImportKeys(imports, bindings)
  }

  ghost predicate OnlyAliasesHoldLoader(store: Store, aliases: set<Key>) {
    forall c :: c in store && store[c] == Loader ==> c.key in aliases
  }

  /** No execution of the program lets a variable hold the loader whose key is not an alias. */
  ghost predicate SoundFor(rt: Runtime, imports: seq<Import>, nodes: seq<Node>, aliases: set<Key>, bindings: Bindings) {
    forall from: Store, actions: seq<Action>, to: Store ::
      Initially(from, imports, bindings) && Execution(rt, actions, nodes, from, to, bindings) ==>
        OnlyAliasesHoldLoader(to, aliases)
  }

  /**
   The seeds cover what a program begins with if and only if every binding of the default export by name
   is a seed for another reason.
   */
  lemma SeedsCoverImports(imports: seq<Import>, bindings: Bindings)
    ensures (forall from: Store :: Initially(from, imports, bindings) ==> OnlyAliasesHoldLoader(from, Seeds(imports, bindings)))
       <==> forall i :: i in imports && i.ofNodeModule && i.form == Named("default") ==> ScopedKey(i.target, bindings) in Seeds(imports, bindings)
  {
    forall i | i in imports && i.ofNodeModule && i.form == Named("default") && ScopedKey(i.target, bindings) !in Seeds(imports, bindings)
      ensures exists from: Store :: Initially(from, imports, bindings) && !OnlyAliasesHoldLoader(from, Seeds(imports, bindings))
    {
      var c := Cell(ScopedKey(i.target, bindings), 0);
      var from: Store := map[c := Loader];
      assert BindsLoader(i) && Initially(from, imports, bindings) && from[c] == Loader;
    }
    forall from: Store, c | Initially(from, imports, bindings) && c in from && from[c] == Loader
      ensures c.key in ImportKeys(imports, bindings)
    {
      assert c.key in LoaderKeys(from);
    }
  }

  // ---------- The keys that can hold the loader ----------

  predicate PropertyRuns(rt: Runtime, base: Expr, property: string, keys: set<Key>, bindings: Bindings)
    requires InFragment(base, bindings)
    decreases base, 1
  {
    OnPath(rt, base, property, bindings) || (property in rt.reaching && RunLoader(rt, base, keys, bindings))
  }

  /** Whether an expression can be the loader at run time, when variables with these keys hold it. */
  predicate RunLoader(rt: Runtime, e: Expr, keys: set<Key>, bindings: Bindings)
    requires InFragment(e, bindings)
    decreases e, 0
  {
    match e
    case Name(id) => ScopedKey(id, bindings) in keys || Unshadowed(e, "module", bindings)
    case Transparent(inner) => RunLoader(rt, inner, keys, bindings)
    case Comma(_, right) => RunLoader(rt, right, keys, bindings)
    case Conditional(_, whenTrue, whenFalse) => RunLoader(rt, whenTrue, keys, bindings) || RunLoader(rt, whenFalse, keys, bindings)
    case Logical(left, right) => RunLoader(rt, left, keys, bindings) || RunLoader(rt, right, keys, bindings)
    case ElementAccess(base, name, index) =>
      if Unwrap(base).ArrayLiteral? then
        var elements := Unwrap(base).elements;
        index.value < |elements| && RunLoader(rt, elements[index.value].value, keys, bindings)
      else PropertyRuns(rt, base, name.value, keys, bindings)
    case PropertyAccess(base, property) => PropertyRuns(rt, base, property, keys, bindings)
    case ImportCall(ofNodeModule) => ofNodeModule
    case New(callee) => RunLoader(rt, callee, keys, bindings)
    case ClassExpr(heritage) => exists i :: 0 <= i < |heritage| && RunLoader(rt, heritage[i], keys, bindings)
    case Call(target, arguments, ofNodeModule, second) =>
      if LoadsModule(e, bindings) then ofNodeModule
      else if RequiresOf(e) then ofNodeModule && RunLoader(rt, target.base, keys, bindings)
      else if MakesFrom(e, bindings) then RunLoader(rt, arguments[0], keys, bindings)
      else PropertyRuns(rt, arguments[0], second.value, keys, bindings)
    case AssignExpr(_, value) => RunLoader(rt, value, keys, bindings)
    case _ => false
  }

  lemma {:induction false} CanBeIsRunLoader(rt: Runtime, e: Expr, store: Store, bindings: Bindings)
    requires InFragment(e, bindings)
    ensures CanBe(rt, e, store, bindings, Loader) <==> RunLoader(rt, e, LoaderKeys(store), bindings)
    decreases e
  {
    match e
    case Name(id) =>
      if ScopedKey(id, bindings) in LoaderKeys(store) {
        var c :| c in store && store[c] == Loader && c.key == ScopedKey(id, bindings);
        assert c == Cell(ScopedKey(id, bindings), c.instance);
      }
    case Transparent(inner) => CanBeIsRunLoader(rt, inner, store, bindings);
    case Comma(_, right) => CanBeIsRunLoader(rt, right, store, bindings);
    case Conditional(_, whenTrue, whenFalse) =>
      CanBeIsRunLoader(rt, whenTrue, store, bindings);
      CanBeIsRunLoader(rt, whenFalse, store, bindings);
    case Logical(left, right) =>
      CanBeIsRunLoader(rt, left, store, bindings);
      CanBeIsRunLoader(rt, right, store, bindings);
    case ElementAccess(base, _, index) =>
      if !Unwrap(base).ArrayLiteral? { CanBeIsRunLoader(rt, base, store, bindings); }
      else if index.value < |Unwrap(base).elements| {
        CanBeIsRunLoader(rt, Unwrap(base).elements[index.value].value, store, bindings);
      }
    case PropertyAccess(base, _) => CanBeIsRunLoader(rt, base, store, bindings);
    case New(callee) => CanBeIsRunLoader(rt, callee, store, bindings);
    case ClassExpr(heritage) =>
      forall i | 0 <= i < |heritage|
        ensures CanBe(rt, heritage[i], store, bindings, Loader) <==> RunLoader(rt, heritage[i], LoaderKeys(store), bindings)
      {
        CanBeIsRunLoader(rt, heritage[i], store, bindings);
      }
    case Call(target, arguments, _, _) =>
      if !LoadsModule(e, bindings) {
        if RequiresOf(e) { CanBeIsRunLoader(rt, target.base, store, bindings); }
        else { CanBeIsRunLoader(rt, arguments[0], store, bindings); }
      }
    case AssignExpr(_, value) => CanBeIsRunLoader(rt, value, store, bindings);
    case _ =>
  }

  lemma {:induction false} RunLoaderMonotone(rt: Runtime, e: Expr, small: set<Key>, large: set<Key>, bindings: Bindings)
    requires InFragment(e, bindings) && small <= large && RunLoader(rt, e, small, bindings)
    ensures RunLoader(rt, e, large, bindings)
    decreases e
  {
    match e
    case Transparent(inner) => RunLoaderMonotone(rt, inner, small, large, bindings);
    case Comma(_, right) => RunLoaderMonotone(rt, right, small, large, bindings);
    case Conditional(_, whenTrue, whenFalse) =>
      if RunLoader(rt, whenTrue, small, bindings) { RunLoaderMonotone(rt, whenTrue, small, large, bindings); }
      else { RunLoaderMonotone(rt, whenFalse, small, large, bindings); }
    case Logical(left, right) =>
      if RunLoader(rt, left, small, bindings) { RunLoaderMonotone(rt, left, small, large, bindings); }
      else { RunLoaderMonotone(rt, right, small, large, bindings); }
    case ElementAccess(base, name, index) =>
      if Unwrap(base).ArrayLiteral? {
        RunLoaderMonotone(rt, Unwrap(base).elements[index.value].value, small, large, bindings);
      } else if !OnPath(rt, base, name.value, bindings) {
        RunLoaderMonotone(rt, base, small, large, bindings);
      }
    case PropertyAccess(base, property) =>
      if !OnPath(rt, base, property, bindings) { RunLoaderMonotone(rt, base, small, large, bindings); }
    case New(callee) => RunLoaderMonotone(rt, callee, small, large, bindings);
    case ClassExpr(heritage) =>
      var i :| 0 <= i < |heritage| && RunLoader(rt, heritage[i], small, bindings);
      RunLoaderMonotone(rt, heritage[i], small, large, bindings);
    case Call(target, arguments, _, second) =>
      if !LoadsModule(e, bindings) {
        if RequiresOf(e) { RunLoaderMonotone(rt, target.base, small, large, bindings); }
        else if RunLoader(rt, arguments[0], small, bindings) { RunLoaderMonotone(rt, arguments[0], small, large, bindings); }
      }
    case AssignExpr(_, value) => RunLoaderMonotone(rt, value, small, large, bindings);
    case _ =>
  }

  /** The keys a node can set to the loader. */
  function RunDerived(rt: Runtime, n: Node, keys: set<Key>, bindings: Bindings): set<Key> {
    if !FragmentNode(n, bindings) then {}
    else if n.Destructure? then
      set p | p in n.parts && p.property.Some? && PropertyRuns(rt, n.value, p.property.value, keys, bindings) :: ScopedKey(p.target, bindings)
    else if n.DeclareClass? then
      if RunLoader(rt, ClassExpr(n.heritage), keys, bindings) then {ScopedKey(n.target, bindings)} else {}
    else if RunLoader(rt, n.value, keys, bindings) then {ScopedKey(n.target, bindings)} else {}
  }

  /** The expression a node sets its variables from. */
  function ValueOf(n: Node): Expr {
    if n.DeclareClass? then ClassExpr(n.heritage) else n.value
  }

  lemma RunDerivedMonotone(rt: Runtime, n: Node, small: set<Key>, large: set<Key>, bindings: Bindings)
    requires small <= large
    ensures RunDerived(rt, n, small, bindings) <= RunDerived(rt, n, large, bindings)
  {
    if FragmentNode(n, bindings) && RunLoader(rt, ValueOf(n), small, bindings) {
      RunLoaderMonotone(rt, ValueOf(n), small, large, bindings);
    }
  }

  ghost predicate RunClosed(rt: Runtime, nodes: seq<Node>, keys: set<Key>, bindings: Bindings) {
    forall n :: n in nodes ==> RunDerived(rt, n, keys, bindings) <= keys
  }

  /** `live` is the set of the keys that some execution lets hold the loader. */
  ghost predicate IsLive(rt: Runtime, nodes: seq<Node>, start: set<Key>, live: set<Key>, bindings: Bindings) {
    && start <= live && RunClosed(rt, nodes, live, bindings)
    && forall other: set<Key> :: start <= other && RunClosed(rt, nodes, other, bindings) ==> live <= other
  }

  function Cells(keys: set<Key>): set<Cell> {
    set k | k in keys :: Cell(k, 0)
  }

  /** A store in which exactly the variables with these keys hold the loader. */
  function Full(keys: set<Key>): Store {
    map c | c in Cells(keys) :: Loader
  }

  lemma FullKeys(keys: set<Key>)
    ensures LoaderKeys(Full(keys)) == keys
  {
    forall k | k in keys
      ensures k in LoaderKeys(Full(keys))
    {
      assert Cell(k, 0) in Full(keys);
    }
  }

  /** One step of an execution that adds a key. */
  lemma ActionFor(rt: Runtime, nodes: seq<Node>, n: Node, keys: set<Key>, k: Key, bindings: Bindings) returns (a: Action)
    requires n in nodes && k in RunDerived(rt, n, keys, bindings)
    ensures Legal(rt, a, nodes, Full(keys), bindings) && Effect(a, Full(keys), bindings) == Full(keys + {k})
  {
    FullKeys(keys);
    CanBeIsRunLoader(rt, ValueOf(n), Full(keys), bindings);
    var part := 0;
    if n.Destructure? {
      var p :| p in n.parts && p.property.Some? && PropertyRuns(rt, n.value, p.property.value, keys, bindings)
        && ScopedKey(p.target, bindings) == k;
      part :| 0 <= part < |n.parts| && n.parts[part] == p;
    }
    a := Action(n, part, 0, Loader);
    assert ScopedKey(TargetOf(a), bindings) == k;
    assert Full(keys + {k}) == Full(keys)[Cell(k, 0) := Loader];
  }

  lemma {:induction false} RunDerivedInTargets(rt: Runtime, nodes: seq<Node>, n: Node, keys: set<Key>, bindings: Bindings)
    requires n in nodes
    ensures RunDerived(rt, n, keys, bindings) <= Targets(nodes, bindings)
  {
    if n != nodes[0] { RunDerivedInTargets(rt, nodes[1..], n, keys, bindings); }
  }

  /** There is a live set, and one execution lets every key in it hold the loader at once. */
  lemma {:induction false} Reached(rt: Runtime, nodes: seq<Node>, start: set<Key>, bindings: Bindings)
    returns (live: set<Key>, actions: seq<Action>)
    ensures IsLive(rt, nodes, start, live, bindings)
    ensures Execution(rt, actions, nodes, Full(start), Full(live), bindings)
    decreases |Targets(nodes, bindings) - start|
  {
    if RunClosed(rt, nodes, start, bindings) {
      live, actions := start, [];
    } else {
      var n :| n in nodes && !(RunDerived(rt, n, start, bindings) <= start);
      var k :| k in RunDerived(rt, n, start, bindings) && k !in start;
      var a := ActionFor(rt, nodes, n, start, k, bindings);
      RunDerivedInTargets(rt, nodes, n, start, bindings);
      var universe := Targets(nodes, bindings);
      assert universe - start == (universe - (start + {k})) + {k};
      var rest: seq<Action>;
      live, rest := Reached(rt, nodes, start + {k}, bindings);
      forall other: set<Key> | start <= other && RunClosed(rt, nodes, other, bindings)
        ensures live <= other
      {
        RunDerivedMonotone(rt, n, start, other, bindings);
      }
      actions := [a] + rest;
      assert actions[1..] == rest;
    }
  }

  /** Whatever is executed, only live keys come to hold the loader. */
  lemma {:induction false} StaysLive(rt: Runtime, actions: seq<Action>, nodes: seq<Node>, live: set<Key>, from: Store, to: Store, bindings: Bindings)
    requires RunClosed(rt, nodes, live, bindings) && LoaderKeys(from) <= live && Execution(rt, actions, nodes, from, to, bindings)
    ensures LoaderKeys(to) <= live
    decreases actions
  {
    if actions != [] {
      var a := actions[0];
      var next := Effect(a, from, bindings);
      if a.value == Loader { LegalIsDerived(rt, a, nodes, from, live, bindings); }
      forall k | k in LoaderKeys(next)
        ensures k in live
      {
        var c :| c in next && next[c] == Loader && c.key == k;
        if c in from && from[c] == Loader { assert k in LoaderKeys(from); }
      }
      StaysLive(rt, actions[1..], nodes, live, next, to, bindings);
    }
  }

  lemma LegalIsDerived(rt: Runtime, a: Action, nodes: seq<Node>, store: Store, keys: set<Key>, bindings: Bindings)
    requires Legal(rt, a, nodes, store, bindings) && a.value == Loader && LoaderKeys(store) <= keys
    ensures ScopedKey(TargetOf(a), bindings) in RunDerived(rt, a.node, keys, bindings)
  {
    CanBeIsRunLoader(rt, ValueOf(a.node), store, bindings);
    RunDerivedMonotone(rt, a.node, LoaderKeys(store), keys, bindings);
    if a.node.Destructure? { assert a.node.parts[a.part] in a.node.parts; }
  }

  /** An analysis is sound exactly if it covers the live keys. */
  lemma SoundMeansLive(rt: Runtime, imports: seq<Import>, nodes: seq<Node>, live: set<Key>, aliases: set<Key>, bindings: Bindings)
    requires IsLive(rt, nodes, ImportKeys(imports, bindings), live, bindings)
    ensures SoundFor(rt, imports, nodes, aliases, bindings) <==> live <= aliases
  {
    var start := ImportKeys(imports, bindings);
    FullKeys(start);
    if SoundFor(rt, imports, nodes, aliases, bindings) {
      var reached, actions := Reached(rt, nodes, start, bindings);
      assert reached == live;
      FullKeys(live);
      forall k | k in live
        ensures k in aliases
      {
        assert Cell(k, 0) in Full(live) && Full(live)[Cell(k, 0)] == Loader;
      }
    }
    if live <= aliases {
      forall from: Store, actions: seq<Action>, to: Store |
        Initially(from, imports, bindings) && Execution(rt, actions, nodes, from, to, bindings)
        ensures OnlyAliasesHoldLoader(to, aliases)
      {
        StaysLive(rt, actions, nodes, live, from, to, bindings);
        forall c | c in to && to[c] == Loader ensures c.key in aliases { assert c.key in LoaderKeys(to); }
      }
    }
  }

  // ---------- What the analysis does not follow ----------

  /** A property access that the analysis does not take for the loader although it can be, or of such a base. */
  predicate PropertyThroughGap(rt: Runtime, base: Expr, property: string, keys: set<Key>, bindings: Bindings)
    requires InFragment(base, bindings)
    decreases base, 1
  {
    || (OnPath(rt, base, property, bindings) && !(property == "mainModule" && Unshadowed(Unwrap(base), "process", bindings)))
    || (property in rt.reaching && RunLoader(rt, base, keys, bindings)
        && (!LoaderProperty(Some(property)) || ThroughGap(rt, base, keys, bindings)))
  }

  /** The same for `Reflect.get`, of which the analysis follows the four names but not `process.mainModule`. */
  predicate PropertyGotThroughGap(rt: Runtime, base: Expr, property: string, keys: set<Key>, bindings: Bindings)
    requires InFragment(base, bindings)
    decreases base, 1
  {
    || OnPath(rt, base, property, bindings)
    || (property in rt.reaching && RunLoader(rt, base, keys, bindings)
        && (!LoaderProperty(Some(property)) || ThroughGap(rt, base, keys, bindings)))
  }

  /**
   The expression can be the loader by a way the analysis does not follow: a reaching property outside
   `LoaderProperty`, an ambient property other than `process.mainModule`, or an assignment used as a value.
   */
  predicate ThroughGap(rt: Runtime, e: Expr, keys: set<Key>, bindings: Bindings)
    requires InFragment(e, bindings)
    decreases e, 0
  {
    match e
    case Transparent(inner) => ThroughGap(rt, inner, keys, bindings)
    case Comma(_, right) => ThroughGap(rt, right, keys, bindings)
    case Conditional(_, whenTrue, whenFalse) => ThroughGap(rt, whenTrue, keys, bindings) || ThroughGap(rt, whenFalse, keys, bindings)
    case Logical(left, right) => ThroughGap(rt, left, keys, bindings) || ThroughGap(rt, right, keys, bindings)
    case ElementAccess(base, name, index) =>
      if Unwrap(base).ArrayLiteral? then
        var elements := Unwrap(base).elements;
        index.value < |elements| && ThroughGap(rt, elements[index.value].value, keys, bindings)
      else PropertyThroughGap(rt, base, name.value, keys, bindings)
    case PropertyAccess(base, property) => PropertyThroughGap(rt, base, property, keys, bindings)
    case New(callee) => ThroughGap(rt, callee, keys, bindings)
    case ClassExpr(heritage) => exists i :: 0 <= i < |heritage| && ThroughGap(rt, heritage[i], keys, bindings)
    case Call(target, arguments, ofNodeModule, second) =>
      if LoadsModule(e, bindings) then false
      else if RequiresOf(e) then ofNodeModule && ThroughGap(rt, target.base, keys, bindings)
      else if MakesFrom(e, bindings) then ThroughGap(rt, arguments[0], keys, bindings)
      else PropertyGotThroughGap(rt, arguments[0], second.value, keys, bindings)
    case AssignExpr(_, value) => RunLoader(rt, value, keys, bindings)
    case _ => false
  }

  lemma {:induction false} GapRuns(rt: Runtime, e: Expr, keys: set<Key>, bindings: Bindings)
    requires InFragment(e, bindings) && ThroughGap(rt, e, keys, bindings)
    ensures RunLoader(rt, e, keys, bindings)
    decreases e
  {
    match e
    case Transparent(inner) => GapRuns(rt, inner, keys, bindings);
    case Comma(_, right) => GapRuns(rt, right, keys, bindings);
    case Conditional(_, whenTrue, whenFalse) =>
      if ThroughGap(rt, whenTrue, keys, bindings) { GapRuns(rt, whenTrue, keys, bindings); } else { GapRuns(rt, whenFalse, keys, bindings); }
    case Logical(left, right) =>
      if ThroughGap(rt, left, keys, bindings) { GapRuns(rt, left, keys, bindings); } else { GapRuns(rt, right, keys, bindings); }
    case ElementAccess(base, _, index) =>
      if Unwrap(base).ArrayLiteral? { GapRuns(rt, Unwrap(base).elements[index.value].value, keys, bindings); }
    case New(callee) => GapRuns(rt, callee, keys, bindings);
    case ClassExpr(heritage) =>
      var i :| 0 <= i < |heritage| && ThroughGap(rt, heritage[i], keys, bindings);
      GapRuns(rt, heritage[i], keys, bindings);
    case Call(target, arguments, _, _) =>
      if RequiresOf(e) { GapRuns(rt, target.base, keys, bindings); }
      else if MakesFrom(e, bindings) { GapRuns(rt, arguments[0], keys, bindings); }
    case _ =>
  }

  lemma {:induction false} GapMonotone(rt: Runtime, e: Expr, small: set<Key>, large: set<Key>, bindings: Bindings)
    requires InFragment(e, bindings) && small <= large && ThroughGap(rt, e, small, bindings)
    ensures ThroughGap(rt, e, large, bindings)
    decreases e
  {
    match e
    case Transparent(inner) => GapMonotone(rt, inner, small, large, bindings);
    case Comma(_, right) => GapMonotone(rt, right, small, large, bindings);
    case Conditional(_, whenTrue, whenFalse) =>
      if ThroughGap(rt, whenTrue, small, bindings) { GapMonotone(rt, whenTrue, small, large, bindings); }
      else { GapMonotone(rt, whenFalse, small, large, bindings); }
    case Logical(left, right) =>
      if ThroughGap(rt, left, small, bindings) { GapMonotone(rt, left, small, large, bindings); }
      else { GapMonotone(rt, right, small, large, bindings); }
    case ElementAccess(base, name, index) =>
      if Unwrap(base).ArrayLiteral? { GapMonotone(rt, Unwrap(base).elements[index.value].value, small, large, bindings); }
      else {
        if RunLoader(rt, base, small, bindings) { RunLoaderMonotone(rt, base, small, large, bindings); }
        if ThroughGap(rt, base, small, bindings) { GapMonotone(rt, base, small, large, bindings); }
      }
    case PropertyAccess(base, property) =>
      if RunLoader(rt, base, small, bindings) { RunLoaderMonotone(rt, base, small, large, bindings); }
      if ThroughGap(rt, base, small, bindings) { GapMonotone(rt, base, small, large, bindings); }
    case New(callee) => GapMonotone(rt, callee, small, large, bindings);
    case ClassExpr(heritage) =>
      var i :| 0 <= i < |heritage| && ThroughGap(rt, heritage[i], small, bindings);
      GapMonotone(rt, heritage[i], small, large, bindings);
    case Call(target, arguments, _, _) =>
      if RequiresOf(e) { GapMonotone(rt, target.base, small, large, bindings); }
      else {
        if RunLoader(rt, arguments[0], small, bindings) { RunLoaderMonotone(rt, arguments[0], small, large, bindings); }
        if ThroughGap(rt, arguments[0], small, bindings) { GapMonotone(rt, arguments[0], small, large, bindings); }
      }
    case AssignExpr(_, value) => RunLoaderMonotone(rt, value, small, large, bindings);
    case _ =>
  }

  /** What can be the loader is recognised, or is it through a gap. */
  lemma {:induction false} RecognisedOrGap(rt: Runtime, e: Expr, keys: set<Key>, aliases: set<Key>, bindings: Bindings)
    requires InFragment(e, bindings) && keys <= aliases && RunLoader(rt, e, keys, bindings)
    ensures IsLoader(e, aliases, bindings) || ThroughGap(rt, e, keys, bindings)
    decreases e
  {
    match e
    case Transparent(inner) => RecognisedOrGap(rt, inner, keys, aliases, bindings);
    case Comma(_, right) => RecognisedOrGap(rt, right, keys, aliases, bindings);
    case Conditional(_, whenTrue, whenFalse) =>
      if RunLoader(rt, whenTrue, keys, bindings) { RecognisedOrGap(rt, whenTrue, keys, aliases, bindings); }
      else { RecognisedOrGap(rt, whenFalse, keys, aliases, bindings); }
    case Logical(left, right) =>
      if RunLoader(rt, left, keys, bindings) { RecognisedOrGap(rt, left, keys, aliases, bindings); }
      else { RecognisedOrGap(rt, right, keys, aliases, bindings); }
    case ElementAccess(base, _, index) =>
      if Unwrap(base).ArrayLiteral? { RecognisedOrGap(rt, Unwrap(base).elements[index.value].value, keys, aliases, bindings); }
      else if RunLoader(rt, base, keys, bindings) { RecognisedOrGap(rt, base, keys, aliases, bindings); }
    case PropertyAccess(base, _) =>
      if RunLoader(rt, base, keys, bindings) { RecognisedOrGap(rt, base, keys, aliases, bindings); }
    case New(callee) => RecognisedOrGap(rt, callee, keys, aliases, bindings);
    case ClassExpr(heritage) =>
      var i :| 0 <= i < |heritage| && RunLoader(rt, heritage[i], keys, bindings);
      RecognisedOrGap(rt, heritage[i], keys, aliases, bindings);
    case Call(target, arguments, _, _) =>
      if !LoadsModule(e, bindings) {
        if RequiresOf(e) { RecognisedOrGap(rt, target.base, keys, aliases, bindings); }
        else if RunLoader(rt, arguments[0], keys, bindings) { RecognisedOrGap(rt, arguments[0], keys, aliases, bindings); }
      }
    case _ =>
  }

  /** A destructured property that the analysis does not follow: all but `Module` and `default` of a recognised loader. */
  predicate PartThroughGap(rt: Runtime, value: Expr, property: string, keys: set<Key>, bindings: Bindings)
    requires InFragment(value, bindings)
  {
    || OnPath(rt, value, property, bindings)
    || (property in rt.reaching && RunLoader(rt, value, keys, bindings)
        && (property !in {"Module", "default"} || ThroughGap(rt, value, keys, bindings)))
  }

  /** The keys a node can set to the loader through a gap. */
  function GapFeeds(rt: Runtime, n: Node, keys: set<Key>, bindings: Bindings): set<Key> {
    if !FragmentNode(n, bindings) then {}
    else if n.Destructure? then
      set p | p in n.parts && p.property.Some? && PartThroughGap(rt, n.value, p.property.value, keys, bindings) :: ScopedKey(p.target, bindings)
    else if ThroughGap(rt, ValueOf(n), keys, bindings) then {ScopedKey(n.target, bindings)} else {}
  }

  /** What a node can set is derived by the analysis, or fed through a gap. */
  lemma NodeSplits(rt: Runtime, n: Node, keys: set<Key>, aliases: set<Key>, bindings: Bindings)
    requires keys <= aliases
    ensures RunDerived(rt, n, keys, bindings) <= Derived(n, aliases, bindings) + GapFeeds(rt, n, keys, bindings)
  {
    if FragmentNode(n, bindings) {
      if n.DeclareClass? {
        forall i | 0 <= i < |n.heritage| && RunLoader(rt, n.heritage[i], keys, bindings)
          ensures IsLoader(n.heritage[i], aliases, bindings) || ThroughGap(rt, n.heritage[i], keys, bindings)
        {
          RecognisedOrGap(rt, n.heritage[i], keys, aliases, bindings);
        }
      } else if RunLoader(rt, n.value, keys, bindings) {
        RecognisedOrGap(rt, n.value, keys, aliases, bindings);
      }
    }
  }

  lemma FeedsGrow(rt: Runtime, n: Node, small: set<Key>, large: set<Key>, bindings: Bindings)
    requires small <= large
    ensures GapFeeds(rt, n, small, bindings) <= GapFeeds(rt, n, large, bindings)
    ensures GapFeeds(rt, n, small, bindings) <= RunDerived(rt, n, small, bindings)
  {
    if FragmentNode(n, bindings) {
      if RunLoader(rt, ValueOf(n), small, bindings) { RunLoaderMonotone(rt, ValueOf(n), small, large, bindings); }
      if ThroughGap(rt, ValueOf(n), small, bindings) {
        GapMonotone(rt, ValueOf(n), small, large, bindings);
        GapRuns(rt, ValueOf(n), small, bindings);
      }
    }
  }

  /** Every gap feeds only keys that are aliases anyway: by a specifier of the default export, or by a node. */
  ghost predicate GapsCovered(rt: Runtime, imports: seq<Import>, nodes: seq<Node>, keys: set<Key>, aliases: set<Key>, bindings: Bindings) {
    && (forall i :: i in imports && i.ofNodeModule && i.form == Named("default") ==> ScopedKey(i.target, bindings) in aliases)
    && forall n :: n in nodes ==> GapFeeds(rt, n, keys, bindings) <= aliases
  }

  /**
   The least closed set is sound for every execution if and only if every default specifier, every
   destructured or accessed property that reaches the loader by a way the analysis does not follow, and every
   loader-valued assignment used as a value feeds only keys that are aliases anyway.
   */
  lemma SoundnessIsExact(rt: Runtime, imports: seq<Import>, nodes: seq<Node>, live: set<Key>, aliases: set<Key>, bindings: Bindings)
    requires IsLeastClosed(nodes, Seeds(imports, bindings), aliases, bindings)
    requires IsLive(rt, nodes, ImportKeys(imports, bindings), live, bindings)
    ensures SoundFor(rt, imports, nodes, aliases, bindings) <==> GapsCovered(rt, imports, nodes, live, aliases, bindings)
  {
    SoundMeansLive(rt, imports, nodes, live, aliases, bindings);
    if live <= aliases {
      forall n | n in nodes ensures GapFeeds(rt, n, live, bindings) <= aliases { FeedsGrow(rt, n, live, live, bindings); }
      forall i | i in imports && i.ofNodeModule && i.form == Named("default")
        ensures ScopedKey(i.target, bindings) in aliases
      {
        assert ScopedKey(i.target, bindings) in ImportKeys(imports, bindings);
      }
    }
    if GapsCovered(rt, imports, nodes, live, aliases, bindings) {
      var both := aliases * live;
      StartCovered(imports, aliases, bindings);
      forall n | n in nodes
        ensures RunDerived(rt, n, both, bindings) <= both
      {
        RunDerivedMonotone(rt, n, both, live, bindings);
        NodeSplits(rt, n, both, aliases, bindings);
        FeedsGrow(rt, n, both, live, bindings);
      }
      assert live <= both;
    }
  }

  lemma StartCovered(imports: seq<Import>, aliases: set<Key>, bindings: Bindings)
    requires Seeds(imports, bindings) <= aliases
    requires forall i :: i in imports && i.ofNodeModule && i.form == Named("default") ==> ScopedKey(i.target, bindings) in aliases
    ensures ImportKeys(imports, bindings) <= aliases
  {
    forall i | i in imports && BindsLoader(i)
      ensures ScopedKey(i.target, bindings) in aliases
    {
      if Seeded(i.form) { assert ScopedKey(i.target, bindings) in Seeds(imports, bindings); }
    }
  }

  // ---------- What follows for programs ----------

  /** An expression can be the loader only where it is recognised or through a gap, and a gap does lead there. */
  lemma FragmentSound(rt: Runtime, e: Expr, store: Store, aliases: set<Key>, bindings: Bindings)
    requires InFragment(e, bindings) && OnlyAliasesHoldLoader(store, aliases)
    ensures CanBe(rt, e, store, bindings, Loader) ==>
      IsLoader(e, aliases, bindings) || ThroughGap(rt, e, LoaderKeys(store), bindings)
    ensures ThroughGap(rt, e, LoaderKeys(store), bindings) ==> CanBe(rt, e, store, bindings, Loader)
  {
    var keys := LoaderKeys(store);
    CanBeIsRunLoader(rt, e, store, bindings);
    if RunLoader(rt, e, keys, bindings) { RecognisedOrGap(rt, e, keys, aliases, bindings); }
    if ThroughGap(rt, e, keys, bindings) { GapRuns(rt, e, keys, bindings); }
  }

  /**
   From any store and over every execution: if the gaps feed only aliases when the aliases hold the loader,
   then only aliases ever do.
   */
  lemma AnalysisIsSound(rt: Runtime, actions: seq<Action>, nodes: seq<Node>, aliases: set<Key>, from: Store, to: Store,
                        bindings: Bindings)
    requires Closed(nodes, aliases, bindings) && forall n :: n in nodes ==> GapFeeds(rt, n, aliases, bindings) <= aliases
    requires OnlyAliasesHoldLoader(from, aliases) && Execution(rt, actions, nodes, from, to, bindings)
    ensures OnlyAliasesHoldLoader(to, aliases)
    ensures forall e :: InFragment(e, bindings) && CanBe(rt, e, to, bindings, Loader) ==>
      IsLoader(e, aliases, bindings) || ThroughGap(rt, e, LoaderKeys(to), bindings)
  {
    forall n | n in nodes
      ensures RunDerived(rt, n, aliases, bindings) <= aliases
    {
      NodeSplits(rt, n, aliases, aliases, bindings);
    }
    StaysLive(rt, actions, nodes, aliases, from, to, bindings);
    forall c | c in to && to[c] == Loader ensures c.key in aliases { assert c.key in LoaderKeys(to); }
    forall e | InFragment(e, bindings) && CanBe(rt, e, to, bindings, Loader)
      ensures IsLoader(e, aliases, bindings) || ThroughGap(rt, e, LoaderKeys(to), bindings)
    {
      FragmentSound(rt, e, to, aliases, bindings);
    }
  }

  predicate PropertyGapFree(rt: Runtime, base: Expr, property: string, bindings: Bindings) {
    && (OnPath(rt, base, property, bindings) ==> property == "mainModule" && Unshadowed(Unwrap(base), "process", bindings))
    && (property in rt.reaching ==> LoaderProperty(Some(property)))
  }

  /** No gap is written in the expression. */
  predicate GapFree(rt: Runtime, e: Expr, bindings: Bindings)
    requires InFragment(e, bindings)
    decreases e
  {
    match e
    case Transparent(inner) => GapFree(rt, inner, bindings)
    case Comma(_, right) => GapFree(rt, right, bindings)
    case Conditional(_, whenTrue, whenFalse) => GapFree(rt, whenTrue, bindings) && GapFree(rt, whenFalse, bindings)
    case Logical(left, right) => GapFree(rt, left, bindings) && GapFree(rt, right, bindings)
    case ElementAccess(base, name, index) =>
      if Unwrap(base).ArrayLiteral? then
        var elements := Unwrap(base).elements;
        index.value < |elements| ==> GapFree(rt, elements[index.value].value, bindings)
      else PropertyGapFree(rt, base, name.value, bindings) && GapFree(rt, base, bindings)
    case PropertyAccess(base, property) => PropertyGapFree(rt, base, property, bindings) && GapFree(rt, base, bindings)
    case New(callee) => GapFree(rt, callee, bindings)
    case ClassExpr(heritage) => forall i :: 0 <= i < |heritage| ==> GapFree(rt, heritage[i], bindings)
    case Call(target, arguments, _, second) =>
      if LoadsModule(e, bindings) then true
      else if RequiresOf(e) then GapFree(rt, target.base, bindings)
      else if MakesFrom(e, bindings) then GapFree(rt, arguments[0], bindings)
      else
        && GapFree(rt, arguments[0], bindings) && !OnPath(rt, arguments[0], second.value, bindings)
        && (second.value in rt.reaching ==> LoaderProperty(second))
    case AssignExpr(_, _) => false
    case _ => true
  }

  /** And none in the node. */
  predicate GapFreeNode(rt: Runtime, n: Node, bindings: Bindings) {
    FragmentNode(n, bindings) ==>
      && GapFree(rt, ValueOf(n), bindings)
      && (n.Destructure? ==> forall p :: p in n.parts && p.property.Some? ==>
            !OnPath(rt, n.value, p.property.value, bindings)
            && (p.property.value in rt.reaching ==> p.property.value in {"Module", "default"}))
  }

  lemma {:induction false} GapFreeMeans(rt: Runtime, e: Expr, keys: set<Key>, bindings: Bindings)
    requires InFragment(e, bindings) && GapFree(rt, e, bindings)
    ensures !ThroughGap(rt, e, keys, bindings)
    decreases e
  {
    match e
    case Transparent(inner) => GapFreeMeans(rt, inner, keys, bindings);
    case Comma(_, right) => GapFreeMeans(rt, right, keys, bindings);
    case Conditional(_, whenTrue, whenFalse) =>
      GapFreeMeans(rt, whenTrue, keys, bindings);
      GapFreeMeans(rt, whenFalse, keys, bindings);
    case Logical(left, right) =>
      GapFreeMeans(rt, left, keys, bindings);
      GapFreeMeans(rt, right, keys, bindings);
    case ElementAccess(base, _, index) =>
      if !Unwrap(base).ArrayLiteral? { GapFreeMeans(rt, base, keys, bindings); }
      else if index.value < |Unwrap(base).elements| { GapFreeMeans(rt, Unwrap(base).elements[index.value].value, keys, bindings); }
    case PropertyAccess(base, _) => GapFreeMeans(rt, base, keys, bindings);
    case New(callee) => GapFreeMeans(rt, callee, keys, bindings);
    case ClassExpr(heritage) =>
      forall i | 0 <= i < |heritage|
        ensures !ThroughGap(rt, heritage[i], keys, bindings)
      {
        GapFreeMeans(rt, heritage[i], keys, bindings);
      }
    case Call(target, arguments, _, _) =>
      if !LoadsModule(e, bindings) {
        if RequiresOf(e) { GapFreeMeans(rt, target.base, keys, bindings); } else { GapFreeMeans(rt, arguments[0], keys, bindings); }
      }
    case _ =>
  }

  /** A program in which no gap is written is analysed soundly, and its loader expressions are all recognised. */
  lemma ProgramIsSound(rt: Runtime, imports: seq<Import>, actions: seq<Action>, nodes: seq<Node>, aliases: set<Key>,
                       from: Store, to: Store, bindings: Bindings)
    requires forall i :: i in imports && i.ofNodeModule ==> i.form != Named("default")
    requires forall n :: n in nodes ==> GapFreeNode(rt, n, bindings)
    requires IsLeastClosed(nodes, Seeds(imports, bindings), aliases, bindings)
    requires Initially(from, imports, bindings) && Execution(rt, actions, nodes, from, to, bindings)
    ensures OnlyAliasesHoldLoader(to, aliases)
    ensures forall e :: InFragment(e, bindings) && GapFree(rt, e, bindings) && CanBe(rt, e, to, bindings, Loader) ==>
      IsLoader(e, aliases, bindings)
  {
    forall n | n in nodes
      ensures GapFeeds(rt, n, aliases, bindings) <= aliases
    {
      if FragmentNode(n, bindings) { GapFreeMeans(rt, ValueOf(n), aliases, bindings); }
    }
    StartCovered(imports, aliases, bindings);
    forall c | c in from && from[c] == Loader ensures c.key in aliases { assert c.key in LoaderKeys(from); }
    AnalysisIsSound(rt, actions, nodes, aliases, from, to, bindings);
    forall e | InFragment(e, bindings) && GapFree(rt, e, bindings) && CanBe(rt, e, to, bindings, Loader)
      ensures IsLoader(e, aliases, bindings)
    {
      GapFreeMeans(rt, e, LoaderKeys(to), bindings);
    }
  }

  // ---------- Precision ----------

  /** The platform has at least what the analysis assumes of it. */
  predicate Provides(rt: Runtime) {
    {"Module", "constructor", "default", "prototype"} <= rt.reaching && ("process", "mainModule") in rt.paths
  }

  /** On the fragment, whatever is recognised as the loader can be the loader. */
  lemma {:induction false} RecognisedRuns(rt: Runtime, e: Expr, keys: set<Key>, bindings: Bindings)
    requires Provides(rt) && InFragment(e, bindings) && IsLoader(e, keys, bindings)
    ensures RunLoader(rt, e, keys, bindings)
    decreases e
  {
    match e
    case Transparent(inner) => RecognisedRuns(rt, inner, keys, bindings);
    case Comma(_, right) => RecognisedRuns(rt, right, keys, bindings);
    case Conditional(_, whenTrue, whenFalse) =>
      if IsLoader(whenTrue, keys, bindings) { RecognisedRuns(rt, whenTrue, keys, bindings); }
      else { RecognisedRuns(rt, whenFalse, keys, bindings); }
    case Logical(left, right) =>
      if IsLoader(left, keys, bindings) { RecognisedRuns(rt, left, keys, bindings); }
      else { RecognisedRuns(rt, right, keys, bindings); }
    case New(callee) => RecognisedRuns(rt, callee, keys, bindings);
    case ClassExpr(heritage) =>
      var i :| 0 <= i < |heritage| && IsLoader(heritage[i], keys, bindings);
      RecognisedRuns(rt, heritage[i], keys, bindings);
    case ElementAccess(base, _, index) =>
      if Unwrap(base).ArrayLiteral? { RecognisedRuns(rt, Unwrap(base).elements[index.value].value, keys, bindings); }
      else if IsLoader(base, keys, bindings) { RecognisedRuns(rt, base, keys, bindings); }
    case PropertyAccess(base, _) =>
      if IsLoader(base, keys, bindings) { RecognisedRuns(rt, base, keys, bindings); }
    case Call(target, arguments, _, _) =>
      if !LoadsModule(e, bindings) {
        if RequiresOf(e) { RecognisedRuns(rt, target.base, keys, bindings); }
        else { RecognisedRuns(rt, arguments[0], keys, bindings); }
      }
    case _ =>
  }

  lemma DerivedRuns(rt: Runtime, n: Node, keys: set<Key>, bindings: Bindings)
    requires Provides(rt) && FragmentNode(n, bindings)
    ensures Derived(n, keys, bindings) <= RunDerived(rt, n, keys, bindings)
  {
    if n.DeclareClass? {
      forall i | 0 <= i < |n.heritage| && IsLoader(n.heritage[i], keys, bindings)
        ensures RunLoader(rt, n.heritage[i], keys, bindings)
      {
        RecognisedRuns(rt, n.heritage[i], keys, bindings);
      }
    } else if IsLoader(n.value, keys, bindings) {
      RecognisedRuns(rt, n.value, keys, bindings);
    }
  }

  /** Precision: on fragment programs every alias is live. */
  lemma AliasesAreLive(rt: Runtime, imports: seq<Import>, nodes: seq<Node>, live: set<Key>, aliases: set<Key>, bindings: Bindings)
    requires Provides(rt) && forall n :: n in nodes ==> FragmentNode(n, bindings)
    requires IsLeastClosed(nodes, Seeds(imports, bindings), aliases, bindings)
    requires IsLive(rt, nodes, ImportKeys(imports, bindings), live, bindings)
    ensures aliases <= live
  {
    forall n | n in nodes
      ensures Derived(n, live, bindings) <= live
    {
      DerivedRuns(rt, n, live, bindings);
    }
    assert Seeds(imports, bindings) <= ImportKeys(imports, bindings);
  }

  /** And so every alias holds the loader in some execution. */
  lemma AliasesCanHoldLoader(rt: Runtime, imports: seq<Import>, nodes: seq<Node>, aliases: set<Key>, k: Key, bindings: Bindings)
    returns (actions: seq<Action>, to: Store)
    requires Provides(rt) && forall n :: n in nodes ==> FragmentNode(n, bindings)
    requires IsLeastClosed(nodes, Seeds(imports, bindings), aliases, bindings) && k in aliases
    ensures var from := Full(ImportKeys(imports, bindings));
      Initially(from, imports, bindings) && Execution(rt, actions, nodes, from, to, bindings) && k in LoaderKeys(to)
  {
    var start := ImportKeys(imports, bindings);
    var live: set<Key>;
    live, actions := Reached(rt, nodes, start, bindings);
    AliasesAreLive(rt, imports, nodes, live, aliases, bindings);
    FullKeys(start);
    FullKeys(live);
    to := Full(live);
  }

  /** Without gaps the analysis is exact: the aliases are the keys that can hold the loader. */
  lemma GapFreeIsExact(rt: Runtime, imports: seq<Import>, nodes: seq<Node>, live: set<Key>, aliases: set<Key>, bindings: Bindings)
    requires Provides(rt) && forall n :: n in nodes ==> FragmentNode(n, bindings) && GapFreeNode(rt, n, bindings)
    requires forall i :: i in imports && i.ofNodeModule ==> i.form != Named("default")
    requires IsLeastClosed(nodes, Seeds(imports, bindings), aliases, bindings)
    requires IsLive(rt, nodes, ImportKeys(imports, bindings), live, bindings)
    ensures aliases == live
  {
    AliasesAreLive(rt, imports, nodes, live, aliases, bindings);
    forall n | n in nodes
      ensures GapFeeds(rt, n, live, bindings) <= aliases
    {
      GapFreeMeans(rt, ValueOf(n), live, bindings);
    }
    SoundnessIsExact(rt, imports, nodes, live, aliases, bindings);
    SoundMeansLive(rt, imports, nodes, live, aliases, bindings);
  }

  // ---------- Inputs ----------

  const MODULE: Expr := Name(Identifier("module", 0))
  const AMBIENT_ONLY: Bindings := map[]

  /** `const { constructor: M } = module`: the declaration is missed wherever the loader has that property. */
  lemma DestructuredPropertyIsMissed(rt: Runtime, property: string, target: Identifier)
    requires property in rt.reaching && property !in {"Module", "default"}
    ensures var nodes := [Destructure([Part(Some(property), target)], MODULE)];
      IsLeastClosed(nodes, {}, {}, AMBIENT_ONLY) && !SoundFor(rt, [], nodes, {}, AMBIENT_ONLY)
  {
    var n := Destructure([Part(Some(property), target)], MODULE);
    OneActionMissed(rt, [n], Action(n, 0, 0, Loader), {});
  }

  /** The same property, accessed: followed exactly if it is one of `LoaderProperty`. */
  lemma AccessedPropertyIsMissed(rt: Runtime, property: string, target: Identifier)
    requires property in rt.reaching && !LoaderProperty(Some(property)) && !LoaderMember(PropertyAccess(MODULE, property), AMBIENT_ONLY)
    ensures var nodes := [Declare(target, PropertyAccess(MODULE, property))];
      IsLeastClosed(nodes, {}, {}, AMBIENT_ONLY) && !SoundFor(rt, [], nodes, {}, AMBIENT_ONLY)
  {
    var n := Declare(target, PropertyAccess(MODULE, property));
    OneActionMissed(rt, [n], Action(n, 0, 0, Loader), {});
  }

  /** `const a = b = module`: the inner assignment is followed, the outer declaration is not. */
  lemma AssignmentValueIsMissed(rt: Runtime, a: Identifier, b: Identifier)
    requires a.name != b.name
    ensures var nodes := [Declare(a, AssignExpr(b, MODULE)), Assign(b, MODULE)];
      IsLeastClosed(nodes, {}, {Ambient(b.name)}, AMBIENT_ONLY) && !SoundFor(rt, [], nodes, {Ambient(b.name)}, AMBIENT_ONLY)
  {
    var nodes := [Declare(a, AssignExpr(b, MODULE)), Assign(b, MODULE)];
    forall other: set<Key> | Closed(nodes, other, AMBIENT_ONLY)
      ensures Ambient(b.name) in other
    {
      assert nodes[1] in nodes && Derived(nodes[1], other, AMBIENT_ONLY) == {Ambient(b.name)};
    }
    OneActionMissed(rt, nodes, Action(nodes[0], 0, 0, Loader), {Ambient(b.name)});
  }

  /** One legal action that sets a variable outside the aliases to the loader. */
  lemma OneActionMissed(rt: Runtime, nodes: seq<Node>, a: Action, aliases: set<Key>)
    requires Legal(rt, a, nodes, map[], AMBIENT_ONLY) && a.value == Loader && ScopedKey(TargetOf(a), AMBIENT_ONLY) !in aliases
    ensures !SoundFor(rt, [], nodes, aliases, AMBIENT_ONLY)
  {
    var from: Store := map[];
    var to, actions := Effect(a, from, AMBIENT_ONLY), [a];
    assert actions[1..] == [] && Execution(rt, [], nodes, to, to, AMBIENT_ONLY);
    assert Initially(from, [], AMBIENT_ONLY) && Execution(rt, actions, nodes, from, to, AMBIENT_ONLY);
    var c := Cell(ScopedKey(TargetOf(a), AMBIENT_ONLY), a.instance);
    assert c in to && to[c] == Loader;
  }
}
