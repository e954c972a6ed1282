/**
 Resolution of package subpaths through an `exports` value, as
 scripts/ci/check-dependency-direction.ts does it after Node's algorithm.
 */
module ExportResolution {
  import opened Common
  import opened Strings

  /** A parsed `exports` value.  The members of an object keep their order. */
  datatype Target =
    | Null
    | Text(text: string)
    | List(items: seq<Target>)
    | Object(members: seq<Member>)
    | Primitive  // a number or a boolean
  datatype Member = Member(key: string, value: Target)

  datatype Resolution = Resolved(target: string) | Blocked | Invalid | Unmatched

  // ---------- Text ----------

  predicate StartsWith(s: string, prefix: string) { |prefix| <= |s| && s[..|prefix|] == prefix }
  predicate EndsWith(s: string, suffix: string) { |suffix| <= |s| && s[|s| - |suffix|..] == suffix }

  function Lower(s: string): string {
    if s == [] then [] else
    [if 'A' <= s[0] <= 'Z' then s[0] - 'A' + 'a' else s[0]] + Lower(s[1..])
  }

  /**
   The replacement text of `String.prototype.replaceAll` at one star: `$$`, `$&`, and `$` with a quote stand
   for a dollar, the star, and the text before or after the star.
   */
  function Expand(text: string, before: string, after: string): string {
    if |text| >= 2 && text[0] == '$' && text[1] in {'$', '&', '`', '\''} then
      (if text[1] == '$' then "$" else if text[1] == '&' then "*" else if text[1] == '`' then before else after)
      + Expand(text[2..], before, after)
    else if text == [] then []
    else [text[0]] + Expand(text[1..], before, after)
  }

  /** The rest of the text after `before`, with every star replaced. */
  function ReplaceStars(before: string, s: string, text: string): string
    decreases s
  {
    if s == [] then []
    else (if s[0] == '*' then Expand(text, before, s[1..]) else [s[0]]) + ReplaceStars(before + [s[0]], s[1..], text)
  }

  /** Index of the first star, or the length of the key if it has none. */
  function Star(key: string): (i: nat)
    ensures i <= |key|
  {
    IndexOf(key, '*')
  }

  // ---------- Targets ----------

  predicate SafeSegment(segment: string) { segment != ".." && Lower(segment) != "node_modules" }

  predicate AllSafe(segments: seq<string>) {
    forall i :: 0 <= i < |segments| ==> SafeSegment(segments[i])
  }

  function NormalizedTarget(target: string, wildcard: Option<string>): Option<string> {
    if !StartsWith(target, "./") || '%' in target || '\\' in target then None else
    var resolved := if wildcard.None? then target else ReplaceStars("", target, wildcard.value);
    if |resolved| >= 2 && AllSafe(Split(resolved[2..], '/'))
    then Some(resolved) else None
  }

  function Resolve(target: Target, conditions: set<string>, wildcard: Option<string>): Resolution
    decreases target, 1
  {
    match target
    case Null => Blocked
    case Text(text) =>
      var resolved := NormalizedTarget(text, wildcard);
      if resolved.Some? then Resolved(resolved.value) else Invalid
    case List(items) => if items == [] then Blocked else ResolveList(target, items, conditions, wildcard, false)
    case Object(members) => ResolveObject(target, members, conditions, wildcard)
    case Primitive => Invalid
  }

  /** The first item that resolves; otherwise invalid if any item was. */
  function ResolveList(whole: Target, items: seq<Target>, conditions: set<string>, wildcard: Option<string>, sawInvalid: bool): Resolution
    requires forall i :: 0 <= i < |items| ==> items[i] < whole
    decreases whole, 0, |items|
  {
    if items == [] then (if sawInvalid then Invalid else Blocked) else
    var first := Resolve(items[0], conditions, wildcard);
    if first.Resolved? then first
    else ResolveList(whole, items[1..], conditions, wildcard, sawInvalid || first.Invalid?)
  }

  /** The first member under an active condition that matches anything. */
  function ResolveObject(whole: Target, members: seq<Member>, conditions: set<string>, wildcard: Option<string>): Resolution
    requires forall i :: 0 <= i < |members| ==> members[i].value < whole
    decreases whole, 0, |members|
  {
    if members == [] then Unmatched else
    var first := if members[0].key == "default" || members[0].key in conditions
                 then Resolve(members[0].value, conditions, wildcard) else Unmatched;
    if first.Unmatched? then ResolveObject(whole, members[1..], conditions, wildcard) else first
  }

  /** A path below the package root, in segments that never climb. */
  ghost predicate InsidePackage(target: string) {
    StartsWith(target, "./") && AllSafe(Split(target[2..], '/'))
  }

  lemma ReplacedStart(target: string, text: string)
    requires StartsWith(target, "./")
    ensures StartsWith(ReplaceStars("", target, text), "./")
  {
    assert target[0] == '.' && target[1] == '/';
    assert ReplaceStars("", target, text) == ['.'] + (['/'] + ReplaceStars("" + ['.'] + ['/'], target[1..][1..], text));
  }

  lemma NormalizedIsInside(target: string, wildcard: Option<string>)
    ensures NormalizedTarget(target, wildcard).Some? ==> InsidePackage(NormalizedTarget(target, wildcard).value)
  {
    if wildcard.Some? && StartsWith(target, "./") {
      ReplacedStart(target, wildcard.value);
    }
  }

  /** Through any nesting of arrays and conditions, what is resolved stays inside the package. */
  lemma {:induction false} ResolvedIsInside(target: Target, conditions: set<string>, wildcard: Option<string>)
    ensures Resolve(target, conditions, wildcard).Resolved? ==> InsidePackage(Resolve(target, conditions, wildcard).target)
    decreases target, 1
  {
    match target
    case Text(text) => NormalizedIsInside(text, wildcard);
    case List(items) => ResolvedListIsInside(target, items, conditions, wildcard, false);
    case Object(members) => ResolvedObjectIsInside(target, members, conditions, wildcard);
    case _ =>
  }

  lemma {:induction false} ResolvedListIsInside(whole: Target, items: seq<Target>, conditions: set<string>, wildcard: Option<string>, sawInvalid: bool)
    requires forall i :: 0 <= i < |items| ==> items[i] < whole
    ensures var r := ResolveList(whole, items, conditions, wildcard, sawInvalid); r.Resolved? ==> InsidePackage(r.target)
    decreases whole, 0, |items|
  {
    if items != [] {
      ResolvedIsInside(items[0], conditions, wildcard);
      ResolvedListIsInside(whole, items[1..], conditions, wildcard, sawInvalid || Resolve(items[0], conditions, wildcard).Invalid?);
    }
  }

  lemma {:induction false} ResolvedObjectIsInside(whole: Target, members: seq<Member>, conditions: set<string>, wildcard: Option<string>)
    requires forall i :: 0 <= i < |members| ==> members[i].value < whole
    ensures var r := ResolveObject(whole, members, conditions, wildcard); r.Resolved? ==> InsidePackage(r.target)
    decreases whole, 0, |members|
  {
    if members != [] {
      ResolvedIsInside(members[0].value, conditions, wildcard);
      ResolvedObjectIsInside(whole, members[1..], conditions, wildcard);
    }
  }

  /** Walking a path from the package root, `..` leaving a directory; an error if it leaves the root. */
  function Walk(segments: seq<string>, at: seq<string>): Result<seq<string>> {
    if segments == [] then Ok(at)
    else if segments[0] == ".." then
      if at == [] then Error else Walk(segments[1..], at[..|at| - 1])
    else if segments[0] == "" || segments[0] == "." then Walk(segments[1..], at)
    else Walk(segments[1..], at + [segments[0]])
  }

  /** Such a path is lexically inside: it never leaves the root and enters no `node_modules`. */
  lemma {:induction false} InsideWalks(segments: seq<string>, at: seq<string>)
    requires AllSafe(segments) && AllSafe(at)
    ensures Walk(segments, at).Ok?
    ensures at <= Walk(segments, at).value
    ensures AllSafe(Walk(segments, at).value)
    decreases segments
  {
    if segments != [] {
      if segments[0] == "" || segments[0] == "." {
        InsideWalks(segments[1..], at);
      } else {
        InsideWalks(segments[1..], at + [segments[0]]);
      }
    }
  }

  // ---------- Patterns ----------

  function MatchingPattern(key: string, subpath: string): Option<string> {
    if Star(key) == |key| then None else
    var prefix, suffix := key[..Star(key)], key[Star(key) + 1..];
    if !StartsWith(subpath, prefix) || !EndsWith(subpath, suffix) || |subpath| < |prefix| + |suffix| then None
    else Some(subpath[|prefix|..|subpath| - |suffix|])
  }

  /** The key with the longer prefix first, then the longer key. */
  function ComparePatterns(left: string, right: string): int {
    if Star(left) != Star(right) then Star(right) - Star(left) else |right| - |left|
  }

  /** A match is exactly a way to write the subpath with one text in place of the first star. */
  lemma MatchMeaning(key: string, subpath: string)
    requires Star(key) < |key|
    ensures MatchingPattern(key, subpath).Some? <==>
      exists text :: subpath == key[..Star(key)] + text + key[Star(key) + 1..]
    ensures MatchingPattern(key, subpath).Some? ==>
      subpath == key[..Star(key)] + MatchingPattern(key, subpath).value + key[Star(key) + 1..]
  {
    var prefix, suffix := key[..Star(key)], key[Star(key) + 1..];
    forall text | subpath == prefix + text + suffix
      ensures MatchingPattern(key, subpath).Some?
    {
    }
    if MatchingPattern(key, subpath).Some? {
      Pieces(subpath, |prefix|, |subpath| - |suffix|);
    }
  }

  lemma Pieces(s: string, i: nat, j: nat)
    requires i <= j <= |s|
    ensures s == s[..i] + s[i..j] + s[j..]
  {
  }

  /** Two different keys that match the same subpath never tie. */
  lemma DistinctMatchesNeverTie(a: string, b: string, subpath: string)
    requires MatchingPattern(a, subpath).Some? && MatchingPattern(b, subpath).Some?
    requires ComparePatterns(a, b) == 0
    ensures a == b
  {
    var s := Star(a);
    assert a[..s] == subpath[..s] == b[..s];
    var n := |a| - s - 1;
    assert a[s + 1..] == subpath[|subpath| - n..] == b[s + 1..];
    assert a == a[..s] + ['*'] + a[s + 1..];
    assert b == b[..s] + ['*'] + b[s + 1..];
  }

  /** The first key after a stable sort by `ComparePatterns`. */
  function FirstSorted(keys: seq<string>): string
    requires keys != []
  {
    if |keys| == 1 then keys[0] else
    var rest := FirstSorted(keys[1..]);
    if ComparePatterns(keys[0], rest) <= 0 then keys[0] else rest
  }

  lemma {:induction false} FirstIsLeast(keys: seq<string>)
    requires keys != []
    ensures FirstSorted(keys) in keys
    ensures forall k :: k in keys ==> ComparePatterns(FirstSorted(keys), k) <= 0
  {
    if |keys| > 1 {
      FirstIsLeast(keys[1..]);
      assert forall k :: k in keys <==> k == keys[0] || k in keys[1..];
    }
  }

  function MatchingKeys(members: seq<Member>, subpath: string): (keys: seq<string>)
    ensures forall k :: k in keys <==> MatchingPattern(k, subpath).Some? && exists m :: m in members && m.key == k
  {
    if members == [] then [] else
    var rest := MatchingKeys(members[1..], subpath);
    if MatchingPattern(members[0].key, subpath).Some? then [members[0].key] + rest else rest
  }

  // ---------- Subpaths ----------

  function Lookup(members: seq<Member>, key: string): Option<Target> {
    if members == [] then None
    else if members[0].key == key then Some(members[0].value)
    else Lookup(members[1..], key)
  }

  predicate SubpathKey(key: string) { StartsWith(key, ".") }

  function ResolveSubpath(exports: Target, subpath: string, conditions: set<string>): Resolution {
    match exports
    case Primitive => Invalid
    case Object(members) =>
      if forall i :: 0 <= i < |members| ==> !SubpathKey(members[i].key) then
        if subpath == "." then Resolve(exports, conditions, None) else Unmatched
      else if exists i :: 0 <= i < |members| && !SubpathKey(members[i].key) then Invalid
      else ResolveInMap(members, subpath, conditions)
    case _ => if subpath == "." then Resolve(exports, conditions, None) else Unmatched
  }

  function ResolveInMap(members: seq<Member>, subpath: string, conditions: set<string>): Resolution {
    if Lookup(members, subpath).Some? && '*' !in subpath then Resolve(Lookup(members, subpath).value, conditions, None)
    else
      var keys := MatchingKeys(members, subpath);
      if keys == [] then Unmatched
      else
        var key := FirstSorted(keys);
        var target := Lookup(members, key);
        if target.None? then Unmatched else Resolve(target.value, conditions, MatchingPattern(key, subpath))
  }

  /** Keys of an object are distinct. */
  ghost predicate DistinctKeys(members: seq<Member>) {
    forall i, j :: 0 <= i < j < |members| ==> members[i].key != members[j].key
  }

  lemma {:induction false} LookupFinds(members: seq<Member>, m: Member)
    requires DistinctKeys(members)
    ensures m in members ==> Lookup(members, m.key) == Some(m.value)
    ensures Lookup(members, m.key).Some? ==> Member(m.key, Lookup(members, m.key).value) in members
  {
    if members != [] && members[0].key != m.key {
      LookupFinds(members[1..], m);
      assert forall x :: x in members <==> x == members[0] || x in members[1..];
    } else if m in members {
      var i :| 0 <= i < |members| && members[i] == m;
      assert i == 0;
    }
  }

  lemma SameLookup(a: seq<Member>, b: seq<Member>, key: string)
    requires DistinctKeys(a) && DistinctKeys(b) && forall m :: m in a <==> m in b
    ensures Lookup(a, key) == Lookup(b, key)
  {
    var inA, inB := Lookup(a, key), Lookup(b, key);
    if inA.Some? { LookupFinds(a, Member(key, inA.value)); LookupFinds(b, Member(key, inA.value)); }
    if inB.Some? { LookupFinds(b, Member(key, inB.value)); LookupFinds(a, Member(key, inB.value)); }
  }

  /** The wildcard key selected for a subpath beats every other match strictly. */
  lemma SelectedKeyIsUnique(members: seq<Member>, subpath: string, other: string)
    requires MatchingKeys(members, subpath) != []
    requires other in MatchingKeys(members, subpath) && other != FirstSorted(MatchingKeys(members, subpath))
    ensures ComparePatterns(FirstSorted(MatchingKeys(members, subpath)), other) < 0
  {
    var keys := MatchingKeys(members, subpath);
    FirstIsLeast(keys);
    if ComparePatterns(FirstSorted(keys), other) == 0 {
      DistinctMatchesNeverTie(FirstSorted(keys), other, subpath);
    }
  }

  lemma SameEmptiness(a: seq<string>, b: seq<string>)
    requires forall k :: k in a ==> k in b
    ensures a != [] ==> b != []
  {
    if a != [] {
      assert a[0] in b;
    }
  }

  /** Resolution through a subpath map does not depend on the order of its members. */
  lemma MapOrderIrrelevant(a: seq<Member>, b: seq<Member>, subpath: string, conditions: set<string>)
    requires DistinctKeys(a) && DistinctKeys(b) && forall m :: m in a <==> m in b
    ensures ResolveInMap(a, subpath, conditions) == ResolveInMap(b, subpath, conditions)
  {
    SameLookup(a, b, subpath);
    var inA, inB := MatchingKeys(a, subpath), MatchingKeys(b, subpath);
    assert forall k :: k in inA <==> k in inB;
    SameEmptiness(inA, inB);
    SameEmptiness(inB, inA);
    if inA != [] {
      FirstIsLeast(inA);
      FirstIsLeast(inB);
      assert ComparePatterns(FirstSorted(inA), FirstSorted(inB)) == 0;
      DistinctMatchesNeverTie(FirstSorted(inA), FirstSorted(inB), subpath);
      SameLookup(a, b, FirstSorted(inA));
    }
  }

  /** Whatever subpath is asked for, a resolved file lies inside the package. */
  lemma SubpathStaysInside(exports: Target, subpath: string, conditions: set<string>)
    ensures var r := ResolveSubpath(exports, subpath, conditions);
      r.Resolved? ==> InsidePackage(r.target) && Walk(Split(r.target[2..], '/'), []).Ok?
  {
    ResolvedIsInside(exports, conditions, None);
    if exports.Object? {
      var members := exports.members;
      if Lookup(members, subpath).Some? { ResolvedIsInside(Lookup(members, subpath).value, conditions, None); }
      var keys := MatchingKeys(members, subpath);
      if keys != [] && Lookup(members, FirstSorted(keys)).Some? {
        ResolvedIsInside(Lookup(members, FirstSorted(keys)).value, conditions, MatchingPattern(FirstSorted(keys), subpath));
      }
    }
    var r := ResolveSubpath(exports, subpath, conditions);
    if r.Resolved? {
      InsideWalks(Split(r.target[2..], '/'), []);
    }
  }

  // ---------- What resolves to what ----------

  /** The parts of a text with another text between them. */
  function JoinWith(parts: seq<string>, between: string): string
    requires parts != []
  {
    if |parts| == 1 then parts[0] else parts[0] + between + JoinWith(parts[1..], between)
  }

  lemma {:induction false} PlainExpands(text: string, before: string, after: string)
    requires '$' !in text
    ensures Expand(text, before, after) == text
  {
    if text != [] { PlainExpands(text[1..], before, after); }
  }

  /** Replacing every star by plain text puts that text between the parts at the stars. */
  lemma {:induction false} StarsReplaced(before: string, s: string, text: string)
    requires '$' !in text
    ensures ReplaceStars(before, s, text) == JoinWith(Split(s, '*'), text)
    decreases s
  {
    if s != [] {
      StarsReplaced(before + [s[0]], s[1..], text);
      var rest := Split(s[1..], '*');
      if s[0] == '*' {
        PlainExpands(text, before, s[1..]);
        assert ([""] + rest)[1..] == rest;
        assert "" + text + JoinWith(rest, text) == text + JoinWith(rest, text);
      } else {
        var parts := [[s[0]] + rest[0]] + rest[1..];
        assert parts[1..] == rest[1..];
        if |rest| > 1 {
          assert ([s[0]] + rest[0]) + text + JoinWith(rest[1..], text) == [s[0]] + (rest[0] + text + JoinWith(rest[1..], text));
        }
      }
    }
  }

  /** A target text, with plain text in place of its stars, resolves to itself if it may, and is invalid otherwise. */
  lemma TextResolves(text: string, conditions: set<string>, wildcard: Option<string>)
    requires wildcard.Some? ==> '$' !in wildcard.value
    ensures var written := if wildcard.Some? then JoinWith(Split(text, '*'), wildcard.value) else text;
      Resolve(Text(text), conditions, wildcard) ==
        if StartsWith(text, "./") && '%' !in text && '\\' !in text && InsidePackage(written) then Resolved(written) else Invalid
  {
    if wildcard.Some? {
      StarsReplaced("", text, wildcard.value);
      if StartsWith(text, "./") { ReplacedStart(text, wildcard.value); }
    }
  }

  predicate FirstResolved(items: seq<Target>, i: int, conditions: set<string>, wildcard: Option<string>) {
    && 0 <= i < |items| && Resolve(items[i], conditions, wildcard).Resolved?
    && forall j :: 0 <= j < i ==> !Resolve(items[j], conditions, wildcard).Resolved?
  }

  /** A list resolves to its first item that resolves; with none it is invalid if an item is, and else blocked. */
  lemma ListResolves(items: seq<Target>, conditions: set<string>, wildcard: Option<string>)
    ensures var r := Resolve(List(items), conditions, wildcard);
      && (forall i :: FirstResolved(items, i, conditions, wildcard) ==> r == Resolve(items[i], conditions, wildcard))
      && ((forall i :: 0 <= i < |items| ==> !Resolve(items[i], conditions, wildcard).Resolved?) ==>
            r == if exists i :: 0 <= i < |items| && Resolve(items[i], conditions, wildcard).Invalid? then Invalid else Blocked)
  {
    if items != [] { ListFirst(List(items), items, conditions, wildcard, false); }
  }

  lemma {:induction false} ListFirst(whole: Target, items: seq<Target>, conditions: set<string>, wildcard: Option<string>, sawInvalid: bool)
    requires forall i :: 0 <= i < |items| ==> items[i] < whole
    ensures var r := ResolveList(whole, items, conditions, wildcard, sawInvalid);
      && (forall i :: FirstResolved(items, i, conditions, wildcard) ==> r == Resolve(items[i], conditions, wildcard))
      && ((forall i :: 0 <= i < |items| ==> !Resolve(items[i], conditions, wildcard).Resolved?) ==>
            r == if sawInvalid || exists i :: 0 <= i < |items| && Resolve(items[i], conditions, wildcard).Invalid? then Invalid else Blocked)
    decreases items
  {
    if items != [] {
      hide Resolve;
      var rest := items[1..];
      var first := Resolve(items[0], conditions, wildcard);
      if !first.Resolved? {
        ListFirst(whole, rest, conditions, wildcard, sawInvalid || first.Invalid?);
        assert forall i :: 0 < i < |items| ==> items[i] == rest[i - 1];
        assert forall i :: 0 <= i < |rest| ==> rest[i] == items[i + 1];
      }
    }
  }

  predicate Applies(m: Member, conditions: set<string>, wildcard: Option<string>) {
    (m.key == "default" || m.key in conditions) && !Resolve(m.value, conditions, wildcard).Unmatched?
  }

  predicate FirstApplying(members: seq<Member>, i: int, conditions: set<string>, wildcard: Option<string>) {
    && 0 <= i < |members| && Applies(members[i], conditions, wildcard)
    && forall j :: 0 <= j < i ==> !Applies(members[j], conditions, wildcard)
  }

  /** Conditions: the first member that applies decides, and without one nothing matches. */
  lemma ConditionsResolve(members: seq<Member>, conditions: set<string>, wildcard: Option<string>)
    ensures var r := Resolve(Object(members), conditions, wildcard);
      && (forall i :: FirstApplying(members, i, conditions, wildcard) ==> r == Resolve(members[i].value, conditions, wildcard))
      && ((forall i :: 0 <= i < |members| ==> !Applies(members[i], conditions, wildcard)) ==> r == Unmatched)
  {
    ObjectFirst(Object(members), members, conditions, wildcard);
  }

  lemma {:induction false} ObjectFirst(whole: Target, members: seq<Member>, conditions: set<string>, wildcard: Option<string>)
    requires forall i :: 0 <= i < |members| ==> members[i].value < whole
    ensures var r := ResolveObject(whole, members, conditions, wildcard);
      && (forall i :: FirstApplying(members, i, conditions, wildcard) ==> r == Resolve(members[i].value, conditions, wildcard))
      && ((forall i :: 0 <= i < |members| ==> !Applies(members[i], conditions, wildcard)) ==> r == Unmatched)
    decreases members
  {
    if members != [] {
      hide Resolve;
      var rest := members[1..];
      ObjectFirst(whole, rest, conditions, wildcard);
      assert forall i :: 0 < i < |members| ==> members[i] == rest[i - 1];
      assert forall i :: 0 <= i < |rest| ==> rest[i] == members[i + 1];
    }
  }

  /** `b` is a better match than `a`: a longer prefix before the star, or the same and a longer key. */
  predicate Better(b: string, a: string) {
    Star(b) > Star(a) || (Star(b) == Star(a) && |b| > |a|)
  }

  ghost predicate BestMatch(members: seq<Member>, m: Member, subpath: string) {
    && MatchingPattern(m.key, subpath).Some?
    && forall o :: o in members && o != m && MatchingPattern(o.key, subpath).Some? ==> Better(m.key, o.key)
  }

  /**
   A subpath map: a key that is the subpath itself decides; otherwise the best match does, with the text in
   place of its star; and without a match there is nothing.
   */
  lemma MapResolves(members: seq<Member>, subpath: string, conditions: set<string>, m: Member)
    requires DistinctKeys(members) && m in members
    ensures m.key == subpath && '*' !in subpath ==> ResolveInMap(members, subpath, conditions) == Resolve(m.value, conditions, None)
    ensures (forall o :: o in members ==> o.key != subpath) && BestMatch(members, m, subpath) ==>
      ResolveInMap(members, subpath, conditions) == Resolve(m.value, conditions, MatchingPattern(m.key, subpath))
    ensures (forall o :: o in members ==> o.key != subpath && MatchingPattern(o.key, subpath).None?) ==>
      ResolveInMap(members, subpath, conditions) == Unmatched
  {
    hide Resolve, MatchingPattern, DistinctKeys;
    LookupFinds(members, m);
    var keys := MatchingKeys(members, subpath);
    var exact := Lookup(members, subpath);
    if exact.Some? { LookupFinds(members, Member(subpath, exact.value)); }
    if exact.None? && BestMatch(members, m, subpath) {
      assert m.key in keys;
      FirstIsLeast(keys);
      var o :| o in members && o.key == FirstSorted(keys);
      assert o == m;
    }
    NoKeys(keys);
  }

  lemma NoKeys(keys: seq<string>)
    ensures (forall k :: k !in keys) ==> keys == []
  {
    assert keys != [] ==> keys[0] in keys;
  }

  /** Among different matches of one subpath one is always better. */
  lemma MatchesCompare(a: string, b: string, subpath: string)
    requires MatchingPattern(a, subpath).Some? && MatchingPattern(b, subpath).Some? && a != b
    ensures Better(a, b) != Better(b, a)
  {
    if !Better(a, b) && !Better(b, a) { DistinctMatchesNeverTie(a, b, subpath); }
  }

  /** A map of subpaths is one in which every key begins with a dot; one without such keys stands for the main entry. */
  lemma SubpathResolves(exports: Target, subpath: string, conditions: set<string>)
    ensures var r := ResolveSubpath(exports, subpath, conditions);
      if exports.Primitive? then r == Invalid
      else if exports.Object? && exists m :: m in exports.members && StartsWith(m.key, ".") then
        if forall m :: m in exports.members ==> StartsWith(m.key, ".") then r == ResolveInMap(exports.members, subpath, conditions)
        else r == Invalid
      else r == if subpath == "." then Resolve(exports, conditions, None) else Unmatched
  {
    hide Resolve, ResolveInMap;
    if exports.Object? {
      var members := exports.members;
      assert forall i :: 0 <= i < |members| ==> members[i] in members;
    }
  }
}
