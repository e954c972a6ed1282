/**
 The version order of apps/cli/src/lifecycle.ts, after section 11 of Semantic Versioning 2.0.0.
 */
module VersionOrder {
  import opened Common
  import opened Strings

  // ---------- Reading a version ----------

  predicate Digit(c: char) { '0' <= c <= '9' }
  predicate Digits(s: string) { s != [] && forall i :: 0 <= i < |s| ==> Digit(s[i]) }
  predicate Suffix(s: string) {
    s != [] && forall i :: 0 <= i < |s| ==> Digit(s[i]) || 'a' <= s[i] <= 'z' || 'A' <= s[i] <= 'Z' || s[i] == '.' || s[i] == '-'
  }

  /** The version without its build metadata, and the two sides of its first hyphen. */
  function Base(v: string): string { v[..IndexOf(v, '+')] }
  function Core(v: string): string { Base(v)[..IndexOf(Base(v), '-')] }
  function Prerelease(v: string): string {
    var i := IndexOf(Base(v), '-');
    if i < |Base(v)| then Base(v)[i + 1..] else ""
  }

  predicate ValidVersion(v: string) {
    var core := Split(Core(v), '.');
    && |core| == 3 && Digits(core[0]) && Digits(core[1]) && Digits(core[2])
    && (IndexOf(Base(v), '-') < |Base(v)| ==> Suffix(Prerelease(v)))
    && (IndexOf(v, '+') < |v| ==> Suffix(v[IndexOf(v, '+') + 1..]))
  }

  function Value(ds: string): nat
    requires forall i :: 0 <= i < |ds| ==> Digit(ds[i])
  {
    if ds == [] then 0 else
    assert Digit(ds[|ds| - 1]);
    10 * Value(ds[..|ds| - 1]) + (ds[|ds| - 1] as int - '0' as int)
  }

  const MAX_SAFE_INTEGER: nat := 9007199254740991

  /** JavaScript's own parts: number conversion, and the locale order of identifiers. */
  datatype Engine = Engine(number: nat -> int, locale: (string, string) -> int)

  /** Safe integers convert exactly, and the locale order is a total order on identifiers. */
  ghost predicate Faithful(e: Engine) {
    && (forall n: nat :: n <= MAX_SAFE_INTEGER ==> e.number(n) == n)
    && (forall a, b :: e.locale(a, b) == 0 <==> a == b)
    && (forall a, b :: e.locale(a, b) < 0 <==> e.locale(b, a) > 0)
    && (forall a, b, c :: e.locale(a, b) < 0 && e.locale(b, c) < 0 ==> e.locale(a, c) < 0)
  }

  datatype Parsed = Parsed(numbers: seq<int>, prerelease: string)

  function Parse(e: Engine, v: string): (p: Parsed)
    ensures |p.numbers| == 3
  {
    if !ValidVersion(v) then Parsed([0, 0, 0], "") else
    var core := Split(Core(v), '.');
    Parsed([e.number(Value(core[0])), e.number(Value(core[1])), e.number(Value(core[2]))], Prerelease(v))
  }

  // ---------- Comparing ----------

  /** Two different identifiers. */
  function CompareIdentifiers(e: Engine, a: string, b: string): int {
    if a == b then 0
    else if Digits(a) && Digits(b) then e.number(Value(a)) - e.number(Value(b))
    else if Digits(a) then -1
    else if Digits(b) then 1
    else e.locale(a, b)
  }

  /** Identifier by identifier: the first pair that is not identical decides, even if its numbers tie. */
  function CompareParts(e: Engine, a: seq<string>, b: seq<string>): int
    decreases a
  {
    if a == [] && b == [] then 0
    else if a == [] then -1
    else if b == [] then 1
    else if a[0] == b[0] then CompareParts(e, a[1..], b[1..])
    else CompareIdentifiers(e, a[0], b[0])
  }

  function CompareParsed(e: Engine, a: Parsed, b: Parsed): int
    requires |a.numbers| == 3 && |b.numbers| == 3
  {
    if a.numbers[0] != b.numbers[0] then a.numbers[0] - b.numbers[0]
    else if a.numbers[1] != b.numbers[1] then a.numbers[1] - b.numbers[1]
    else if a.numbers[2] != b.numbers[2] then a.numbers[2] - b.numbers[2]
    else if a.prerelease == b.prerelease then 0
    else if a.prerelease == "" then 1
    else if b.prerelease == "" then -1
    else CompareParts(e, Split(a.prerelease, '.'), Split(b.prerelease, '.'))
  }

  function Compare(e: Engine, left: string, right: string): int {
    CompareParsed(e, Parse(e, left), Parse(e, right))
  }

  /** `compareVersions` with its two index loops. */
  method CompareVersions(e: Engine, left: string, right: string) returns (r: int)
    ensures r == Compare(e, left, right)
  {
    var a, b := Parse(e, left), Parse(e, right);
    var i := 0;
    while i < 3
      invariant 0 <= i <= 3
      invariant forall j :: 0 <= j < i ==> a.numbers[j] == b.numbers[j]
    {
      if a.numbers[i] != b.numbers[i] {
        return a.numbers[i] - b.numbers[i];
      }
      i := i + 1;
    }
    if a.prerelease == b.prerelease { return 0; }
    if a.prerelease == "" { return 1; }
    if b.prerelease == "" { return -1; }
    var x, y := Split(a.prerelease, '.'), Split(b.prerelease, '.');
    i := 0;
    while i < |x| || i < |y|
      invariant 0 <= i <= |x| && i <= |y|
      invariant CompareParts(e, x[i..], y[i..]) == CompareParts(e, x, y)
      decreases |x| + |y| - i
    {
      if i >= |x| { return -1; }
      if i >= |y| { return 1; }
      assert x[i..][1..] == x[i + 1..] && y[i..][1..] == y[i + 1..];
      if x[i] != y[i] {
        return CompareIdentifiers(e, x[i], y[i]);
      }
      i := i + 1;
    }
    return 0;
  }

  // ---------- The order on identifiers ----------

  predicate SafeIdentifier(s: string) { Digits(s) ==> Value(s) <= MAX_SAFE_INTEGER }

  /** Section 9 of Semantic Versioning 2.0.0: numeric identifiers have no leading zeros. */
  predicate Tidy(s: string) { Digits(s) ==> |s| == 1 || s[0] != '0' }

  lemma {:induction false} TidyPositive(s: string)
    requires Digits(s) && s[0] != '0'
    ensures Value(s) >= 1
    decreases s
  {
    if |s| > 1 {
      TidyPositive(s[..|s| - 1]);
    }
  }

  /** Without leading zeros, a number has one spelling. */
  lemma {:induction false} ValueInjective(a: string, b: string)
    requires Digits(a) && Digits(b) && Tidy(a) && Tidy(b) && Value(a) == Value(b)
    ensures a == b
    decreases a
  {
    var x, y := a[..|a| - 1], b[..|b| - 1];
    assert a == x + [a[|a| - 1]] && b == y + [b[|b| - 1]];
    if |a| > 1 { TidyPositive(x); }
    if |b| > 1 { TidyPositive(y); }
    if |a| > 1 && |b| > 1 {
      ValueInjective(x, y);
    }
  }

  lemma IdentifiersTie(e: Engine, a: string, b: string)
    requires Faithful(e) && SafeIdentifier(a) && SafeIdentifier(b)
    ensures CompareIdentifiers(e, a, b) == 0 <==> a == b || (Digits(a) && Digits(b) && Value(a) == Value(b))
    ensures Tidy(a) && Tidy(b) ==> (CompareIdentifiers(e, a, b) == 0 <==> a == b)
  {
    if Digits(a) && Digits(b) && Value(a) == Value(b) && Tidy(a) && Tidy(b) {
      ValueInjective(a, b);
    }
  }

  lemma IdentifiersOpposite(e: Engine, a: string, b: string)
    requires Faithful(e)
    ensures CompareIdentifiers(e, a, b) < 0 <==> CompareIdentifiers(e, b, a) > 0
  {
  }

  lemma IdentifiersTransitive(e: Engine, a: string, b: string, c: string)
    requires Faithful(e)
    requires CompareIdentifiers(e, a, b) < 0 && CompareIdentifiers(e, b, c) < 0
    ensures CompareIdentifiers(e, a, c) < 0
  {
  }

  // ---------- The order on prereleases ----------

  ghost predicate SafeParts(parts: seq<string>) { forall i :: 0 <= i < |parts| ==> SafeIdentifier(parts[i]) }
  ghost predicate TidyParts(parts: seq<string>) { forall i :: 0 <= i < |parts| ==> Tidy(parts[i]) }

  lemma {:induction false} PartsOpposite(e: Engine, a: seq<string>, b: seq<string>)
    requires Faithful(e)
    ensures CompareParts(e, a, b) < 0 <==> CompareParts(e, b, a) > 0
    decreases a
  {
    if a != [] && b != [] {
      if a[0] == b[0] { PartsOpposite(e, a[1..], b[1..]); }
      else { IdentifiersOpposite(e, a[0], b[0]); }
    }
  }

  /** The first identifiers that differ are numbers of equal value, spelled differently. */
  predicate TiesEarly(a: seq<string>, b: seq<string>)
    decreases a
  {
    && a != [] && b != []
    && (if a[0] == b[0] then TiesEarly(a[1..], b[1..]) else Digits(a[0]) && Digits(b[0]) && Value(a[0]) == Value(b[0]))
  }

  /** For all identifier lists: a tie is identity, or the early return on two spellings of one number. */
  lemma {:induction false} PartsTie(e: Engine, a: seq<string>, b: seq<string>)
    requires Faithful(e) && SafeParts(a) && SafeParts(b)
    ensures CompareParts(e, a, b) == 0 <==> a == b || TiesEarly(a, b)
    ensures TidyParts(a) && TidyParts(b) ==> !TiesEarly(a, b)
    decreases a
  {
    if a != [] && b != [] {
      if a[0] == b[0] {
        PartsTie(e, a[1..], b[1..]);
        assert a == [a[0]] + a[1..] && b == [b[0]] + b[1..];
      } else {
        IdentifiersTie(e, a[0], b[0]);
      }
    }
  }

  lemma {:induction false} PartsTransitive(e: Engine, a: seq<string>, b: seq<string>, c: seq<string>)
    requires Faithful(e) && SafeParts(a) && SafeParts(b) && SafeParts(c) && TidyParts(a) && TidyParts(b) && TidyParts(c)
    requires CompareParts(e, a, b) < 0 && CompareParts(e, b, c) < 0
    ensures CompareParts(e, a, c) < 0
    decreases a
  {
    hide CompareIdentifiers;
    if a != [] && b != [] && c != [] {
      if a[0] == b[0] && b[0] == c[0] {
        PartsTransitive(e, a[1..], b[1..], c[1..]);
      } else if a[0] != b[0] && b[0] != c[0] {
        IdentifiersTransitive(e, a[0], b[0], c[0]);
        IdentifiersTie(e, a[0], c[0]);
      }
    }
  }

  // ---------- The order on versions ----------

  /** Sections 2 and 9: no leading zeros in the core or in numeric prerelease identifiers. */
  ghost predicate TidyVersion(v: string) {
    ValidVersion(v) ==> TidyParts(Split(Core(v), '.')) && TidyParts(Split(Prerelease(v), '.'))
  }

  /** Every number in the version is a safe integer. */
  ghost predicate SafeVersion(v: string) {
    ValidVersion(v) ==> SafeParts(Split(Core(v), '.')) && SafeParts(Split(Prerelease(v), '.'))
  }

  /** Opposite signs in the two directions, for all version strings. */
  lemma CompareOpposite(e: Engine, a: string, b: string)
    requires Faithful(e)
    ensures Compare(e, a, b) < 0 <==> Compare(e, b, a) > 0
    ensures Compare(e, a, b) == 0 <==> Compare(e, b, a) == 0
  {
    var x, y := Parse(e, a), Parse(e, b);
    PartsOpposite(e, Split(x.prerelease, '.'), Split(y.prerelease, '.'));
    PartsOpposite(e, Split(y.prerelease, '.'), Split(x.prerelease, '.'));
  }

  /** Section 9 for the prerelease: its numeric identifiers have no leading zeros. */
  ghost predicate TidyPrerelease(v: string) {
    ValidVersion(v) ==> TidyParts(Split(Prerelease(v), '.'))
  }

  ghost predicate SafePrerelease(v: string) {
    ValidVersion(v) ==> SafeParts(Split(Prerelease(v), '.'))
  }

  lemma ParsedParts(e: Engine, v: string)
    requires TidyPrerelease(v) && SafePrerelease(v)
    ensures SafeParts(Split(Parse(e, v).prerelease, '.')) && TidyParts(Split(Parse(e, v).prerelease, '.'))
  {
  }

  lemma SplitInjective(a: string, b: string)
    requires Split(a, '.') == Split(b, '.')
    ensures a == b
  {
    SplitJoins(a, '.');
    SplitJoins(b, '.');
  }

  /** Only identical readings tie. */
  lemma ParsedTie(e: Engine, a: string, b: string)
    requires Faithful(e) && TidyPrerelease(a) && TidyPrerelease(b) && SafePrerelease(a) && SafePrerelease(b)
    ensures Compare(e, a, b) == 0 <==> Parse(e, a) == Parse(e, b)
  {
    hide Parse;
    var x, y := Parse(e, a), Parse(e, b);
    ParsedParts(e, a);
    ParsedParts(e, b);
    PartsTie(e, Split(x.prerelease, '.'), Split(y.prerelease, '.'));
    if Split(x.prerelease, '.') == Split(y.prerelease, '.') {
      SplitInjective(x.prerelease, y.prerelease);
    }
    if Compare(e, a, b) == 0 {
      assert x.numbers == y.numbers;
    }
  }

  /** Strict order is transitive; with ties being identical readings, so is the whole preorder. */
  lemma CompareTransitive(e: Engine, a: string, b: string, c: string)
    requires Faithful(e)
    requires TidyPrerelease(a) && TidyPrerelease(b) && TidyPrerelease(c) && SafePrerelease(a) && SafePrerelease(b) && SafePrerelease(c)
    requires Compare(e, a, b) <= 0 && Compare(e, b, c) <= 0
    ensures Compare(e, a, c) <= 0
    ensures Compare(e, a, c) == 0 ==> Compare(e, a, b) == 0 && Compare(e, b, c) == 0
  {
    hide Parse;
    ParsedTie(e, a, b);
    ParsedTie(e, b, c);
    ParsedTie(e, a, c);
    var x, y, z := Parse(e, a), Parse(e, b), Parse(e, c);
    if x != y && y != z {
      ParsedParts(e, a);
      ParsedParts(e, b);
      ParsedParts(e, c);
      ParsedTransitive(e, x, y, z);
    }
  }

  lemma ParsedTransitive(e: Engine, x: Parsed, y: Parsed, z: Parsed)
    requires Faithful(e) && |x.numbers| == 3 && |y.numbers| == 3 && |z.numbers| == 3
    requires SafeParts(Split(x.prerelease, '.')) && TidyParts(Split(x.prerelease, '.'))
    requires SafeParts(Split(y.prerelease, '.')) && TidyParts(Split(y.prerelease, '.'))
    requires SafeParts(Split(z.prerelease, '.')) && TidyParts(Split(z.prerelease, '.'))
    requires CompareParsed(e, x, y) < 0 && CompareParsed(e, y, z) < 0
    ensures CompareParsed(e, x, z) < 0
  {
    hide CompareParts, Split, SafeParts, TidyParts;
    var px, py, pz := Split(x.prerelease, '.'), Split(y.prerelease, '.'), Split(z.prerelease, '.');
    if x.numbers == y.numbers == z.numbers && x.prerelease != "" && y.prerelease != "" && z.prerelease != "" {
      PartsTransitive(e, px, py, pz);
      if x.prerelease == z.prerelease {
        PartsOpposite(e, px, py);
      }
    }
  }

  // ---------- Ties ----------

  lemma BaseShape(v: string)
    requires ValidVersion(v)
    ensures Base(v) == if Prerelease(v) == "" then Core(v) else Core(v) + ['-'] + Prerelease(v)
    ensures Core(v) == Join(Split(Core(v), '.'), '.')
  {
    SplitJoins(Core(v), '.');
    var i := IndexOf(Base(v), '-');
    if i < |Base(v)| {
      assert Base(v) == Base(v)[..i] + [Base(v)[i]] + Base(v)[i + 1..];
    }
  }

  lemma CoreDetermined(e: Engine, a: string, b: string)
    requires Faithful(e) && ValidVersion(a) && ValidVersion(b) && TidyVersion(a) && TidyVersion(b) && SafeVersion(a) && SafeVersion(b)
    requires Parse(e, a).numbers == Parse(e, b).numbers
    ensures Core(a) == Core(b)
  {
    var x, y := Split(Core(a), '.'), Split(Core(b), '.');
    assert Parse(e, a).numbers == [e.number(Value(x[0])), e.number(Value(x[1])), e.number(Value(x[2]))];
    assert Parse(e, b).numbers == [e.number(Value(y[0])), e.number(Value(y[1])), e.number(Value(y[2]))];
    hide Parse, Core, Split;
    SameNumber(e, x[0], y[0]);
    SameNumber(e, x[1], y[1]);
    SameNumber(e, x[2], y[2]);
    assert x == y;
    BaseShape(a);
    BaseShape(b);
  }

  lemma SameNumber(e: Engine, a: string, b: string)
    requires Faithful(e) && Digits(a) && Digits(b) && Tidy(a) && Tidy(b) && SafeIdentifier(a) && SafeIdentifier(b)
    requires e.number(Value(a)) == e.number(Value(b))
    ensures a == b
  {
    ValueInjective(a, b);
  }

  /** Two versions tie exactly when they differ in build metadata at most. */
  lemma TiesAreBuildMetadata(e: Engine, a: string, b: string)
    requires Faithful(e) && ValidVersion(a) && ValidVersion(b)
    requires TidyVersion(a) && TidyVersion(b) && SafeVersion(a) && SafeVersion(b)
    ensures Compare(e, a, b) == 0 <==> Base(a) == Base(b)
  {
    hide Parse, Core, Prerelease, Faithful;
    ParsedTie(e, a, b);
    BaseShape(a);
    BaseShape(b);
    if Parse(e, a) == Parse(e, b) {
      CoreDetermined(e, a, b);
      SamePrerelease(e, a, b);
    }
    if Base(a) == Base(b) {
      SameBase(e, a, b);
    }
  }

  lemma SamePrerelease(e: Engine, a: string, b: string)
    requires ValidVersion(a) && ValidVersion(b) && Parse(e, a) == Parse(e, b)
    ensures Prerelease(a) == Prerelease(b)
  {
  }

  lemma SameBase(e: Engine, a: string, b: string)
    requires ValidVersion(a) && ValidVersion(b) && Base(a) == Base(b)
    ensures Parse(e, a) == Parse(e, b)
  {
  }

  // ---------- Section 11 of Semantic Versioning 2.0.0 ----------

  /** The numbers of the core. */
  function Numbers(v: string): seq<nat>
    requires ValidVersion(v)
  {
    var core := Split(Core(v), '.');
    [Value(core[0]), Value(core[1]), Value(core[2])]
  }

  /** The first difference of two cores: major, minor and patch, compared as numbers. */
  ghost predicate LowerCore(a: seq<nat>, b: seq<nat>)
    requires |a| == |b| == 3
  {
    exists i :: 0 <= i < 3 && a[i] < b[i] && forall j :: 0 <= j < i ==> a[j] == b[j]
  }

  /** Numbers by value and below words; words in the locale order. */
  predicate LowerIdentifier(e: Engine, a: string, b: string) {
    if Digits(a) then Digits(b) ==> Value(a) < Value(b)
    else !Digits(b) && e.locale(a, b) < 0
  }

  /** The first difference decides, and if there is none the shorter list is lower. */
  ghost predicate LowerIdentifiers(e: Engine, x: seq<string>, y: seq<string>) {
    exists i :: 0 <= i <= |x| && i < |y| && x[..i] == y[..i]
      && (i == |x| || (x[i] != y[i] && LowerIdentifier(e, x[i], y[i])))
  }

  /** With one core a prerelease is lower than the release. */
  ghost predicate LowerPrerelease(e: Engine, p: string, q: string) {
    p != "" && (q == "" || LowerIdentifiers(e, Split(p, '.'), Split(q, '.')))
  }

  /** Section 11: `a` has lower precedence than `b`. */
  ghost predicate Precedes(e: Engine, a: string, b: string)
    requires ValidVersion(a) && ValidVersion(b)
  {
    || LowerCore(Numbers(a), Numbers(b))
    || (Numbers(a) == Numbers(b) && LowerPrerelease(e, Prerelease(a), Prerelease(b)))
  }

  lemma {:induction false} PartsPrecede(e: Engine, x: seq<string>, y: seq<string>)
    requires Faithful(e) && SafeParts(x) && SafeParts(y)
    ensures CompareParts(e, x, y) < 0 <==> LowerIdentifiers(e, x, y)
    decreases x
  {
    if x == [] {
      if y != [] { assert x[..0] == y[..0]; }
    } else if y != [] {
      if x[0] == y[0] {
        PartsPrecede(e, x[1..], y[1..]);
        ShiftLower(e, x, y);
      } else {
        assert x[..0] == y[..0];
        IdentifiersPrecede(e, x[0], y[0]);
        forall i | 0 < i <= |x| && i < |y|
          ensures x[..i] != y[..i]
        {
          assert x[..i][0] != y[..i][0];
        }
      }
    }
  }

  lemma IdentifiersPrecede(e: Engine, a: string, b: string)
    requires Faithful(e) && SafeIdentifier(a) && SafeIdentifier(b) && a != b
    ensures CompareIdentifiers(e, a, b) < 0 <==> LowerIdentifier(e, a, b)
  {
  }

  lemma ShiftLower(e: Engine, x: seq<string>, y: seq<string>)
    requires x != [] && y != [] && x[0] == y[0]
    ensures LowerIdentifiers(e, x, y) <==> LowerIdentifiers(e, x[1..], y[1..])
  {
    hide LowerIdentifier;
    var s, t := x[1..], y[1..];
    if LowerIdentifiers(e, x, y) {
      var i :| 0 <= i <= |x| && i < |y| && x[..i] == y[..i] && (i == |x| || (x[i] != y[i] && LowerIdentifier(e, x[i], y[i])));
      assert i > 0;
      assert s[..i - 1] == x[..i][1..] && t[..i - 1] == y[..i][1..];
    }
    if LowerIdentifiers(e, s, t) {
      var i :| 0 <= i <= |s| && i < |t| && s[..i] == t[..i] && (i == |s| || (s[i] != t[i] && LowerIdentifier(e, s[i], t[i])));
      assert x[..i + 1] == [x[0]] + s[..i] && y[..i + 1] == [y[0]] + t[..i];
    }
  }

  /** `compareVersions` is the precedence of section 11, in both directions, on versions with safe integers. */
  lemma ComparesBySection11(e: Engine, a: string, b: string)
    requires Faithful(e) && ValidVersion(a) && ValidVersion(b) && SafeVersion(a) && SafeVersion(b)
    ensures Compare(e, a, b) < 0 <==> Precedes(e, a, b)
    ensures Compare(e, a, b) > 0 <==> Precedes(e, b, a)
  {
    Section11(e, a, b);
    Section11(e, b, a);
    CompareOpposite(e, a, b);
    CompareOpposite(e, b, a);
  }

  lemma Section11(e: Engine, a: string, b: string)
    requires Faithful(e) && ValidVersion(a) && ValidVersion(b) && SafeVersion(a) && SafeVersion(b)
    ensures Compare(e, a, b) < 0 <==> Precedes(e, a, b)
  {
    var x, y := Parse(e, a), Parse(e, b);
    NumbersRead(e, a);
    NumbersRead(e, b);
    PrereleaseParts(a);
    PrereleaseParts(b);
    hide Parse, Numbers, Split, CompareParts, SafeVersion, ValidVersion, Prerelease;
    if x.prerelease != "" && y.prerelease != "" {
      PartsPrecede(e, Split(x.prerelease, '.'), Split(y.prerelease, '.'));
      if x.prerelease == y.prerelease { NotBelowItself(e, Split(x.prerelease, '.')); }
    }
    CoreFirst(x.numbers, y.numbers);
  }

  lemma NumbersRead(e: Engine, v: string)
    requires Faithful(e) && ValidVersion(v) && SafeVersion(v)
    ensures Parse(e, v) == Parsed(Numbers(v), Prerelease(v))
  {
    hide Core, Prerelease, Split;
  }

  lemma PrereleaseParts(v: string)
    requires ValidVersion(v) && SafeVersion(v)
    ensures SafeParts(Split(Prerelease(v), '.'))
  {
  }

  lemma NotBelowItself(e: Engine, x: seq<string>)
    ensures !LowerIdentifiers(e, x, x)
  {
  }

  lemma CoreFirst(a: seq<int>, b: seq<int>)
    requires |a| == |b| == 3 && (forall i :: 0 <= i < 3 ==> a[i] >= 0 && b[i] >= 0)
    ensures LowerCore(a, b) <==>
      if a[0] != b[0] then a[0] < b[0] else if a[1] != b[1] then a[1] < b[1] else a[2] < b[2]
    ensures a == b <==> a[0] == b[0] && a[1] == b[1] && a[2] == b[2]
  {
    if a[0] == b[0] && a[1] == b[1] && a[2] < b[2] { assert LowerCore(a, b); }
    if a[0] == b[0] && a[1] < b[1] { assert forall j :: 0 <= j < 1 ==> a[j] == b[j]; }
  }

  /** Text that is not a version stands for the release 0.0.0. */
  lemma InvalidIsZero(e: Engine, v: string, b: string)
    requires Faithful(e) && !ValidVersion(v) && ValidVersion(b) && SafeVersion(b)
    ensures Compare(e, v, b) < 0 <==> Numbers(b) != [0, 0, 0]
    ensures Compare(e, v, b) > 0 <==> Numbers(b) == [0, 0, 0] && Prerelease(b) != ""
  {
    NumbersRead(e, b);
    hide ValidVersion;
  }

  // ---------- Leading zeros ----------

  /** The number without its leading zeros. */
  function Strip(s: string): string {
    if |s| > 1 && s[0] == '0' then Strip(s[1..]) else s
  }

  lemma {:induction false} DropZero(s: string)
    requires Digits(s) && |s| > 1 && s[0] == '0'
    ensures Digits(s[1..]) && Value(s[1..]) == Value(s)
    decreases s
  {
    var t := s[..|s| - 1];
    assert s[1..][..|s| - 2] == t[1..];
    if |t| > 1 {
      DropZero(t);
    } else {
      assert t == "0" && Value(t) == 0 by { assert t[..0] == ""; }
    }
  }

  lemma {:induction false} StripMeans(s: string)
    requires Digits(s)
    ensures Digits(Strip(s)) && Tidy(Strip(s)) && Value(Strip(s)) == Value(s)
    ensures forall c :: c in Strip(s) ==> c in s
    ensures !Tidy(s) ==> Strip(s) != s
    decreases s
  {
    if |s| > 1 && s[0] == '0' {
      DropZero(s);
      StripMeans(s[1..]);
      StripShortens(s[1..]);
    }
  }

  lemma {:induction false} StripShortens(s: string)
    ensures |Strip(s)| <= |s|
  {
    if |s| > 1 && s[0] == '0' { StripShortens(s[1..]); }
  }

  /** The first identifiers that differ decide. */
  lemma {:induction false} PartsDecide(e: Engine, common: seq<string>, a: string, as_: seq<string>, b: string, bs: seq<string>)
    ensures CompareParts(e, common + [a] + as_, common + [b] + bs) ==
      if a == b then CompareParts(e, as_, bs) else CompareIdentifiers(e, a, b)
  {
    if common == [] {
      assert ([a] + as_)[1..] == as_ && ([b] + bs)[1..] == bs;
      assert common + [a] + as_ == [a] + as_ && common + [b] + bs == [b] + bs;
    } else {
      assert (common + [a] + as_)[1..] == common[1..] + [a] + as_;
      assert (common + [b] + bs)[1..] == common[1..] + [b] + bs;
      PartsDecide(e, common[1..], a, as_, b, bs);
    }
  }

  ghost predicate PartChars(parts: seq<string>) {
    forall i, j :: 0 <= i < |parts| && 0 <= j < |parts[i]| ==>
      var c := parts[i][j]; Digit(c) || 'a' <= c <= 'z' || 'A' <= c <= 'Z' || c == '-'
  }

  const SUFFIX_CHARS: set<char> := set c: char | Digit(c) || 'a' <= c <= 'z' || 'A' <= c <= 'Z' || c == '.' || c == '-'

  /** A version with the core of `v` and the given prerelease identifiers. */
  function WithPrerelease(v: string, parts: seq<string>): string
    requires parts != []
  {
    Core(v) + ['-'] + Join(parts, '.')
  }

  lemma WithPrereleaseReads(v: string, parts: seq<string>)
    requires ValidVersion(v) && parts != [] && PartChars(parts) && |parts[|parts| - 1]| > 0
    ensures var w := WithPrerelease(v, parts);
      ValidVersion(w) && Core(w) == Core(v) && Split(Prerelease(w), '.') == parts && Prerelease(w) != ""
  {
    var core, pre := Core(v), Join(parts, '.');
    JoinMade(parts, '.', SUFFIX_CHARS);
    JoinSplits(parts, '.');
    assert Suffix(pre);
    Assembled(core, pre);
  }

  /** A core and a suffix joined by a hyphen are read back apart. */
  lemma Assembled(core: string, pre: string)
    requires '-' !in core && '+' !in core && Suffix(pre)
    ensures var w := core + ['-'] + pre; Base(w) == w && Core(w) == core && Prerelease(w) == pre && IndexOf(w, '+') == |w|
  {
    var w := core + ['-'] + pre;
    assert '+' !in w;
    IndexOfFirst(w, '+', "");
    IndexOfFirst(core, '-', pre);
    assert Base(w) == w;
  }

  lemma PrereleaseChars(v: string)
    requires ValidVersion(v) && Prerelease(v) != ""
    ensures PartChars(Split(Prerelease(v), '.'))
  {
    SplitJoins(Prerelease(v), '.');
    SplitChars(Prerelease(v), '.');
    assert Suffix(Prerelease(v));
  }

  lemma {:induction false} SplitChars(s: string, at: char)
    ensures forall i, j :: 0 <= i < |Split(s, at)| && 0 <= j < |Split(s, at)[i]| ==> Split(s, at)[i][j] in s
  {
    if s != [] {
      SplitChars(s[1..], at);
      var rest := Split(s[1..], at);
      assert forall i, j :: 0 <= i < |rest| && 0 <= j < |rest[i]| ==> rest[i][j] in s;
    }
  }

  /** Two versions with one core and different prereleases are compared by their identifiers. */
  lemma SameCore(e: Engine, a: string, b: string)
    requires ValidVersion(a) && ValidVersion(b) && Core(a) == Core(b)
    requires Prerelease(a) != "" && Prerelease(b) != "" && Prerelease(a) != Prerelease(b)
    ensures Compare(e, a, b) == CompareParts(e, Split(Prerelease(a), '.'), Split(Prerelease(b), '.'))
  {
    hide Core, Prerelease, ValidVersion, Split, CompareParts;
  }

  /**
   Section 9 is needed.  Every version with a leading zero in its prerelease ties with two versions that
   have none and are strictly ordered: its own with the zeros dropped, and that with an identifier more.
   */
  lemma LeadingZerosBreakTheOrder(e: Engine, v: string) returns (b: string, c: string)
    requires ValidVersion(v) && !TidyPrerelease(v)
    ensures ValidVersion(b) && ValidVersion(c) && TidyPrerelease(b) && TidyPrerelease(c)
    ensures SafePrerelease(v) ==> SafePrerelease(b) && SafePrerelease(c)
    ensures Compare(e, c, v) == 0 && Compare(e, v, b) == 0 && Compare(e, c, b) > 0
  {
    hide Compare, CompareParts, WithPrerelease, ValidVersion, Core, Prerelease, Split;
    var parts := Split(Prerelease(v), '.');
    var pb, pc := SpelledOut(e, v, parts);
    WithPrereleaseReads(v, pb);
    WithPrereleaseReads(v, pc);
    b, c := WithPrerelease(v, pb), WithPrerelease(v, pc);
    SameCore(e, v, b);
    SameCore(e, c, v);
    SameCore(e, c, b);
  }

  lemma SpelledOut(e: Engine, v: string, parts: seq<string>) returns (pb: seq<string>, pc: seq<string>)
    requires ValidVersion(v) && parts == Split(Prerelease(v), '.') && !TidyParts(parts)
    ensures Prerelease(v) != "" && pb != parts && pc != parts && pb != pc
    ensures pb != [] && PartChars(pb) && |pb[|pb| - 1]| > 0 && TidyParts(pb)
    ensures pc != [] && PartChars(pc) && |pc[|pc| - 1]| > 0 && TidyParts(pc)
    ensures SafeParts(parts) ==> SafeParts(pb) && SafeParts(pc)
    ensures CompareParts(e, pc, parts) == 0 && CompareParts(e, parts, pb) == 0 && CompareParts(e, pc, pb) == 1
  {
    hide CompareParts, Split, ValidVersion, Prerelease;
    var i := FirstUntidy(parts);
    NoPrereleaseIsTidy(v);
    PrereleaseChars(v);
    StripMeans(parts[i]);
    var common, s, rest := parts[..i], Strip(parts[i]), parts[i + 1..];
    pb, pc := common + [s], common + [s, "a"];
    assert pb[i] == s != parts[i] && pc[i] == s;
    assert PartChars(pb) && PartChars(pc);
    assert parts == common + [parts[i]] + rest && pb == common + [s] + [] && pc == common + [s] + ["a"];
    PartsDecide(e, common, parts[i], rest, s, []);
    PartsDecide(e, common, s, ["a"], parts[i], rest);
    PartsDecide(e, common, s, ["a"], s, []);
    assert CompareParts(e, ["a"], []) == 1 by { LongerIsGreater(e); }
  }

  lemma LongerIsGreater(e: Engine)
    ensures CompareParts(e, ["a"], []) == 1
  {
  }

  lemma NoPrereleaseIsTidy(v: string)
    ensures Prerelease(v) == "" ==> TidyParts(Split(Prerelease(v), '.'))
  {
  }

  lemma FirstUntidy(parts: seq<string>) returns (i: nat)
    requires !TidyParts(parts)
    ensures i < |parts| && !Tidy(parts[i]) && TidyParts(parts[..i])
  {
    i := 0;
    while Tidy(parts[i])
      invariant i < |parts| && TidyParts(parts[..i]) && !TidyParts(parts[i..])
      decreases |parts| - i
    {
      i := i + 1;
    }
  }

  /** A version stands well among tidy ones: whatever it lies between is ordered. */
  ghost predicate OrderedBetween(e: Engine, v: string) {
    forall b, c :: TidyPrerelease(b) && SafePrerelease(b) && TidyPrerelease(c) && SafePrerelease(c)
             && Compare(e, c, v) <= 0 && Compare(e, v, b) <= 0
      ==> Compare(e, c, b) <= 0
  }

  /** The condition of section 9 on the prerelease is exact, version by version. */
  lemma TidyIsExact(e: Engine, v: string)
    requires Faithful(e) && SafePrerelease(v)
    ensures OrderedBetween(e, v) <==> TidyPrerelease(v)
  {
    hide Compare, Faithful;
    if TidyPrerelease(v) {
      forall b, c | TidyPrerelease(b) && SafePrerelease(b) && TidyPrerelease(c) && SafePrerelease(c)
        && Compare(e, c, v) <= 0 && Compare(e, v, b) <= 0
        ensures Compare(e, c, b) <= 0
      {
        CompareTransitive(e, c, v, b);
      }
    } else {
      var b, c := LeadingZerosBreakTheOrder(e, v);
      assert Compare(e, c, v) <= 0 && Compare(e, v, b) <= 0 && !(Compare(e, c, b) <= 0);
    }
  }
}
