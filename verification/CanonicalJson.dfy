/**
 The canonical JSON text of apps/gateway/src/durable-dispatch.ts.  Text is a sequence of UTF-16
 code units, as in JavaScript.  Two values have the same canonical text exactly when they are
 equal up to the order of object keys; the proof goes through a parser that inverts the printer.
 */
module CanonicalJson {
  import opened Common

  type Unit = n: nat | n < 0x10000
  type Text = seq<Unit>

  /** A JSON value with object members in insertion order.  A number is known by the text it prints as. */
  datatype Json =
    | Null
    | Bool(b: bool)
    | Number(digits: Text)
    | String(s: Text)
    | Array(items: seq<Json>)
    | Object(members: seq<Member>)
  datatype Member = Member(key: Text, value: Json)

  const QUOTE: Unit := 34
  const COMMA: Unit := 44
  const COLON: Unit := 58
  const BACKSLASH: Unit := 92
  const OPEN_LIST: Unit := 91
  const CLOSE_LIST: Unit := 93
  const OPEN_OBJECT: Unit := 123
  const CLOSE_OBJECT: Unit := 125
  const NULL: Text := [110, 117, 108, 108]
  const TRUE: Text := [116, 114, 117, 101]
  const FALSE: Text := [102, 97, 108, 115, 101]

  /** Digits, `+`, `-`, `.` and `e`. */
  predicate NumberUnit(u: Unit) { 48 <= u <= 57 || u == 43 || u == 45 || u == 46 || u == 101 }

  predicate NumberText(t: Text) {
    t != [] && (48 <= t[0] <= 57 || t[0] == 45) && forall i :: 0 <= i < |t| ==> NumberUnit(t[i])
  }

  /** Numbers print as numbers and keys of an object are distinct. */
  predicate WellFormed(j: Json)
    decreases j
  {
    match j
    case Number(digits) => NumberText(digits)
    case Array(items) => forall i :: 0 <= i < |items| ==> WellFormed(items[i])
    case Object(members) =>
      && (forall i :: 0 <= i < |members| ==> WellFormed(members[i].value))
      && DistinctKeys(members)
    case _ => true
  }

  predicate DistinctKeys(members: seq<Member>) {
    forall i, j :: 0 <= i < j < |members| ==> members[i].key != members[j].key
  }

  // ---------- Strings ----------

  predicate High(u: Unit) { 0xD800 <= u <= 0xDBFF }
  predicate Low(u: Unit) { 0xDC00 <= u <= 0xDFFF }

  function HexDigit(n: nat): Unit
    requires n < 16
  {
    if n < 10 then 48 + n else 87 + n
  }

  function HexEscape(u: Unit): Text {
    [BACKSLASH, 117, HexDigit(u / 16 / 16 / 16), HexDigit(u / 16 / 16 % 16), HexDigit(u / 16 % 16), HexDigit(u % 16)]
  }

  /** The letter after the backslash for units with a short escape. */
  function ShortEscape(u: Unit): Option<Unit> {
    if u == 34 || u == 92 then Some(u)
    else if u == 8 then Some(98)
    else if u == 9 then Some(116)
    else if u == 10 then Some(110)
    else if u == 12 then Some(102)
    else if u == 13 then Some(114)
    else None
  }

  function EscapeUnit(u: Unit): Text {
    if ShortEscape(u).Some? then [BACKSLASH, ShortEscape(u).value]
    else if u < 32 || High(u) || Low(u) then HexEscape(u)
    else [u]
  }

  /** String contents as `JSON.stringify` writes them: surrogate pairs stay, lone surrogates are escaped. */
  function Escape(s: Text): Text {
    if s == [] then []
    else if |s| >= 2 && High(s[0]) && Low(s[1]) then [s[0], s[1]] + Escape(s[2..])
    else EscapeUnit(s[0]) + Escape(s[1..])
  }

  function Quote(s: Text): Text { [QUOTE] + Escape(s) + [QUOTE] }

  function FromHexDigit(u: Unit): Option<nat> {
    if 48 <= u <= 57 then Some(u - 48) else if 97 <= u <= 102 then Some(u - 87) else None
  }

  function FromShortEscape(letter: Unit): Option<Unit> {
    if letter == 34 || letter == 92 then Some(letter)
    else if letter == 98 then Some(8)
    else if letter == 116 then Some(9)
    else if letter == 110 then Some(10)
    else if letter == 102 then Some(12)
    else if letter == 114 then Some(13)
    else None
  }

  function FromHex(t: Text): Option<Unit>
    requires |t| == 4
  {
    var a, b, c, d := FromHexDigit(t[0]), FromHexDigit(t[1]), FromHexDigit(t[2]), FromHexDigit(t[3]);
    if a.Some? && b.Some? && c.Some? && d.Some? && a.value < 16 && b.value < 16 && c.value < 16 && d.value < 16 then
      Some(a.value * 4096 + b.value * 256 + c.value * 16 + d.value)
    else None
  }

  /** The first character of string contents, if it is one, and the text after it. */
  function Character(t: Text): (r: Option<(Unit, Text)>)
    ensures r.Some? ==> |r.value.1| < |t|
  {
    if t == [] || t[0] == QUOTE then None
    else if t[0] != BACKSLASH then Some((t[0], t[1..]))
    else if |t| < 2 then None
    else if t[1] != 117 then
      if FromShortEscape(t[1]).Some? then Some((FromShortEscape(t[1]).value, t[2..])) else None
    else if |t| >= 6 && FromHex(t[2..6]).Some? then Some((FromHex(t[2..6]).value, t[6..]))
    else None
  }

  /** String contents up to the closing quote, and the text after it. */
  function ParseContents(t: Text): (r: Option<(Text, Text)>)
    ensures r.Some? ==> |r.value.1| < |t|
    decreases |t|
  {
    if t != [] && t[0] == QUOTE then Some(([], t[1..])) else
    var c := Character(t);
    if c.None? then None else
    var rest := ParseContents(c.value.1);
    if rest.None? then None else Some(([c.value.0] + rest.value.0, rest.value.1))
  }

  lemma CharacterInverts(u: Unit, rest: Text)
    ensures Character(EscapeUnit(u) + rest) == Some((u, rest))
  {
    var t := EscapeUnit(u) + rest;
    if ShortEscape(u).Some? {
      assert t[2..] == rest;
    } else if u < 32 || High(u) || Low(u) {
      assert t[2..6] == HexEscape(u)[2..6];
      assert t[6..] == rest;
    } else {
      assert t[1..] == rest;
    }
  }

  /** One character off the front. */
  lemma ContentsStep(t: Text, u: Unit, after: Text)
    requires Character(t) == Some((u, after))
    ensures ParseContents(t) ==
      var rest := ParseContents(after); if rest.None? then None else Some(([u] + rest.value.0, rest.value.1))
  {
  }

  lemma {:induction false} ContentsInvert(s: Text, rest: Text)
    ensures ParseContents(Escape(s) + [QUOTE] + rest) == Some((s, rest))
    decreases s
  {
    hide EscapeUnit, Character;
    var t := Escape(s) + [QUOTE] + rest;
    if s == [] {
      assert t == [QUOTE] + rest && t[1..] == rest;
    } else if |s| >= 2 && High(s[0]) && Low(s[1]) {
      var tail := Escape(s[2..]) + [QUOTE] + rest;
      assert t == [s[0]] + ([s[1]] + tail);
      ContentsInvert(s[2..], rest);
      hide ParseContents, Escape;
      PlainCharacter(s[0], [s[1]] + tail);
      PlainCharacter(s[1], tail);
      ContentsStep(t, s[0], [s[1]] + tail);
      ContentsStep([s[1]] + tail, s[1], tail);
      assert s == [s[0]] + ([s[1]] + s[2..]);
    } else {
      var tail := Escape(s[1..]) + [QUOTE] + rest;
      assert t == EscapeUnit(s[0]) + tail;
      ContentsInvert(s[1..], rest);
      hide ParseContents, Escape;
      CharacterInverts(s[0], tail);
      ContentsStep(t, s[0], tail);
      assert s == [s[0]] + s[1..];
    }
  }

  lemma PlainCharacter(u: Unit, rest: Text)
    requires u != QUOTE && u != BACKSLASH
    ensures Character([u] + rest) == Some((u, rest))
  {
    assert ([u] + rest)[1..] == rest;
  }

  // ---------- Printing in a given order, and parsing ----------

  function Print(j: Json): Text
    decreases j, 1
  {
    match j
    case Null => NULL
    case Bool(b) => if b then TRUE else FALSE
    case Number(digits) => digits
    case String(s) => Quote(s)
    case Array(items) => [OPEN_LIST] + PrintItems(items) + [CLOSE_LIST]
    case Object(members) => [OPEN_OBJECT] + PrintMembers(members) + [CLOSE_OBJECT]
  }

  function PrintItems(items: seq<Json>): Text
    decreases items, 0
  {
    if items == [] then []
    else if |items| == 1 then Print(items[0])
    else Print(items[0]) + [COMMA] + PrintItems(items[1..])
  }

  function PrintMember(m: Member): Text
    decreases m, 2
  {
    Quote(m.key) + [COLON] + Print(m.value)
  }

  function PrintMembers(members: seq<Member>): Text
    decreases members, 0
  {
    if members == [] then []
    else if |members| == 1 then PrintMember(members[0])
    else PrintMember(members[0]) + [COMMA] + PrintMembers(members[1..])
  }

  function NumberRun(t: Text): (n: nat)
    ensures n <= |t|
  {
    if t == [] || !NumberUnit(t[0]) then 0 else 1 + NumberRun(t[1..])
  }

  predicate Starts(t: Text, prefix: Text) { |prefix| <= |t| && t[..|prefix|] == prefix }

  function ParseValue(t: Text): (r: Option<(Json, Text)>)
    ensures r.Some? ==> |r.value.1| < |t|
    decreases |t|, 1
  {
    if t == [] then None
    else if Starts(t, NULL) then Some((Null, t[4..]))
    else if Starts(t, TRUE) then Some((Bool(true), t[4..]))
    else if Starts(t, FALSE) then Some((Bool(false), t[5..]))
    else if t[0] == QUOTE then
      var s := ParseContents(t[1..]);
      if s.None? then None else Some((String(s.value.0), s.value.1))
    else if t[0] == OPEN_LIST then
      if |t| >= 2 && t[1] == CLOSE_LIST then Some((Array([]), t[2..])) else
      var items := ParseItems(t[1..]);
      if items.None? then None else Some((Array(items.value.0), items.value.1))
    else if t[0] == OPEN_OBJECT then
      if |t| >= 2 && t[1] == CLOSE_OBJECT then Some((Object([]), t[2..])) else
      var members := ParseMembers(t[1..]);
      if members.None? then None else Some((Object(members.value.0), members.value.1))
    else
      var n := NumberRun(t);
      if n == 0 then None else Some((Number(t[..n]), t[n..]))
  }

  function ParseItems(t: Text): (r: Option<(seq<Json>, Text)>)
    ensures r.Some? ==> |r.value.1| < |t|
    decreases |t|, 2
  {
    var first := ParseValue(t);
    if first.None? || first.value.1 == [] then None else
    var after := first.value.1;
    if after[0] == CLOSE_LIST then Some(([first.value.0], after[1..]))
    else if after[0] != COMMA then None
    else
      var rest := ParseItems(after[1..]);
      if rest.None? then None else Some(([first.value.0] + rest.value.0, rest.value.1))
  }

  function ParseMembers(t: Text): (r: Option<(seq<Member>, Text)>)
    ensures r.Some? ==> |r.value.1| < |t|
    decreases |t|, 2
  {
    if t == [] || t[0] != QUOTE then None else
    var key := ParseContents(t[1..]);
    if key.None? || key.value.1 == [] || key.value.1[0] != COLON then None else
    var first := ParseValue(key.value.1[1..]);
    if first.None? || first.value.1 == [] then None else
    var after := first.value.1;
    var m := Member(key.value.0, first.value.0);
    if after[0] == CLOSE_OBJECT then Some(([m], after[1..]))
    else if after[0] != COMMA then None
    else
      var rest := ParseMembers(after[1..]);
      if rest.None? then None else Some(([m] + rest.value.0, rest.value.1))
  }

  /** A number ends where the text that follows it begins. */
  predicate Ends(rest: Text) { rest == [] || !NumberUnit(rest[0]) }

  lemma {:induction false} NumberRunStops(digits: Text, rest: Text)
    requires forall i :: 0 <= i < |digits| ==> NumberUnit(digits[i])
    requires Ends(rest)
    ensures NumberRun(digits + rest) == |digits|
    decreases digits
  {
    if digits == [] {
      assert digits + rest == rest;
    } else {
      assert (digits + rest)[1..] == digits[1..] + rest;
      NumberRunStops(digits[1..], rest);
    }
  }

  /** How the first unit of a text decides what is parsed. */
  lemma FirstUnitDecides(t: Text)
    requires t != [] && t[0] !in {NULL[0], TRUE[0], FALSE[0]}
    ensures t[0] == QUOTE ==>
      ParseValue(t) == var s := ParseContents(t[1..]); if s.None? then None else Some((String(s.value.0), s.value.1))
    ensures t[0] == OPEN_LIST && (|t| < 2 || t[1] != CLOSE_LIST) ==>
      ParseValue(t) == var r := ParseItems(t[1..]); if r.None? then None else Some((Array(r.value.0), r.value.1))
    ensures t[0] == OPEN_LIST && |t| >= 2 && t[1] == CLOSE_LIST ==> ParseValue(t) == Some((Array([]), t[2..]))
    ensures t[0] == OPEN_OBJECT && (|t| < 2 || t[1] != CLOSE_OBJECT) ==>
      ParseValue(t) == var r := ParseMembers(t[1..]); if r.None? then None else Some((Object(r.value.0), r.value.1))
    ensures t[0] == OPEN_OBJECT && |t| >= 2 && t[1] == CLOSE_OBJECT ==> ParseValue(t) == Some((Object([]), t[2..]))
    ensures t[0] !in {QUOTE, OPEN_LIST, OPEN_OBJECT} ==>
      ParseValue(t) == var n := NumberRun(t); if n == 0 then None else Some((Number(t[..n]), t[n..]))
  {
    hide ParseContents, ParseItems, ParseMembers, NumberRun;
    assert !Starts(t, NULL) && !Starts(t, TRUE) && !Starts(t, FALSE);
  }

  lemma WordsParse(rest: Text)
    ensures ParseValue(NULL + rest) == Some((Null, rest))
    ensures ParseValue(TRUE + rest) == Some((Bool(true), rest))
    ensures ParseValue(FALSE + rest) == Some((Bool(false), rest))
  {
    hide ParseContents, ParseItems, ParseMembers, NumberRun;
    assert (NULL + rest)[..4] == NULL && (NULL + rest)[4..] == rest;
    assert (TRUE + rest)[0] != NULL[0];
    assert (TRUE + rest)[..4] == TRUE && (TRUE + rest)[4..] == rest;
    assert (FALSE + rest)[0] != NULL[0] && (FALSE + rest)[0] != TRUE[0];
    assert (FALSE + rest)[..5] == FALSE && (FALSE + rest)[5..] == rest;
  }

  lemma NumberParses(digits: Text, rest: Text)
    requires NumberText(digits) && Ends(rest)
    ensures ParseValue(digits + rest) == Some((Number(digits), rest))
  {
    hide ParseValue, NumberRun;
    var t := digits + rest;
    NumberRunStops(digits, rest);
    assert t[0] == digits[0];
    FirstUnitDecides(t);
    assert t[..|digits|] == digits && t[|digits|..] == rest;
  }

  lemma StringParses(s: Text, rest: Text)
    ensures ParseValue(Quote(s) + rest) == Some((String(s), rest))
  {
    hide ParseValue, ParseContents, Escape;
    var t := Quote(s) + rest;
    assert t[0] == QUOTE;
    assert t[1..] == Escape(s) + [QUOTE] + rest;
    ContentsInvert(s, rest);
    FirstUnitDecides(t);
  }

  /** The parser inverts the printer, whatever text follows. */
  lemma {:induction false} ParseInvertsPrint(j: Json, rest: Text)
    requires WellFormed(j) && Ends(rest)
    ensures ParseValue(Print(j) + rest) == Some((j, rest))
    decreases j, 1
  {
    match j
    case Null => WordsParse(rest);
    case Bool(_) => WordsParse(rest);
    case Number(digits) => NumberParses(digits, rest);
    case String(s) => StringParses(s, rest);
    case Array(items) =>
      if items != [] { ItemsInvert(items, rest); }
      ArrayParses(items, rest);
    case Object(members) =>
      if members != [] { MembersInvert(members, rest); }
      ObjectParses(members, rest);
  }

  lemma ArrayParses(items: seq<Json>, rest: Text)
    requires forall i :: 0 <= i < |items| ==> WellFormed(items[i])
    requires items != [] ==> ParseItems(PrintItems(items) + [CLOSE_LIST] + rest) == Some((items, rest))
    ensures ParseValue(Print(Array(items)) + rest) == Some((Array(items), rest))
  {
    hide ParseValue, ParseItems;
    var t := Print(Array(items)) + rest;
    assert Print(Array(items)) == [OPEN_LIST] + PrintItems(items) + [CLOSE_LIST];
    if items == [] {
      assert PrintItems(items) == [];
      assert t == [OPEN_LIST, CLOSE_LIST] + rest && t[2..] == rest;
    } else {
      hide Print, PrintItems;
      assert t[1] == PrintItems(items)[0];
      assert t[1..] == PrintItems(items) + [CLOSE_LIST] + rest;
    }
    FirstUnitDecides(t);
  }

  lemma ObjectParses(members: seq<Member>, rest: Text)
    requires members != [] ==> ParseMembers(PrintMembers(members) + [CLOSE_OBJECT] + rest) == Some((members, rest))
    ensures ParseValue(Print(Object(members)) + rest) == Some((Object(members), rest))
  {
    hide ParseValue, ParseMembers;
    var t := Print(Object(members)) + rest;
    assert Print(Object(members)) == [OPEN_OBJECT] + PrintMembers(members) + [CLOSE_OBJECT];
    if members == [] {
      assert PrintMembers(members) == [];
      assert t == [OPEN_OBJECT, CLOSE_OBJECT] + rest && t[2..] == rest;
    } else {
      hide Print, PrintMembers;
      assert t[1] == PrintMembers(members)[0];
      assert t[1..] == PrintMembers(members) + [CLOSE_OBJECT] + rest;
    }
    FirstUnitDecides(t);
  }

  lemma {:induction false} ItemsInvert(items: seq<Json>, rest: Text)
    requires items != [] && forall i :: 0 <= i < |items| ==> WellFormed(items[i])
    ensures ParseItems(PrintItems(items) + [CLOSE_LIST] + rest) == Some((items, rest))
    decreases items, 0
  {
    hide Print, ParseValue, ParseItems, WellFormed;
    var t := PrintItems(items) + [CLOSE_LIST] + rest;
    if |items| == 1 {
      var after := [CLOSE_LIST] + rest;
      assert t == Print(items[0]) + after && items == [items[0]] && after[1..] == rest;
      ParseInvertsPrint(items[0], after);
      ItemParses(t, items[0], after);
    } else {
      var tail := PrintItems(items[1..]) + [CLOSE_LIST] + rest;
      var after := [COMMA] + tail;
      assert t == Print(items[0]) + after && after[1..] == tail;
      ParseInvertsPrint(items[0], after);
      ItemParses(t, items[0], after);
      ItemsInvert(items[1..], rest);
      assert items == [items[0]] + items[1..];
    }
  }

  /** One item off the front, given that it parses. */
  lemma ItemParses(t: Text, item: Json, after: Text)
    requires after != [] && ParseValue(t) == Some((item, after))
    ensures ParseItems(t) ==
      if after[0] == CLOSE_LIST then Some(([item], after[1..]))
      else if after[0] != COMMA then None
      else var rest := ParseItems(after[1..]); if rest.None? then None else Some(([item] + rest.value.0, rest.value.1))
  {
    hide ParseValue;
  }

  lemma {:induction false} MembersInvert(members: seq<Member>, rest: Text)
    requires members != [] && forall i :: 0 <= i < |members| ==> WellFormed(members[i].value)
    ensures ParseMembers(PrintMembers(members) + [CLOSE_OBJECT] + rest) == Some((members, rest))
    decreases members, 0
  {
    hide Print, PrintMember, ParseValue, ParseContents, ParseMembers, WellFormed;
    var t, m := PrintMembers(members) + [CLOSE_OBJECT] + rest, members[0];
    if |members| == 1 {
      var after := [CLOSE_OBJECT] + rest;
      assert t == PrintMember(m) + after && members == [m] && after[1..] == rest;
      ParseInvertsPrint(m.value, after);
      MemberParses(t, m, after);
    } else {
      var tail := PrintMembers(members[1..]) + [CLOSE_OBJECT] + rest;
      var after := [COMMA] + tail;
      assert t == PrintMember(m) + after && after[1..] == tail;
      ParseInvertsPrint(m.value, after);
      MemberParses(t, m, after);
      MembersInvert(members[1..], rest);
      assert members == [m] + members[1..];
    }
  }

  /** One member off the front, given that its value parses. */
  lemma MemberParses(t: Text, m: Member, after: Text)
    requires t == PrintMember(m) + after && after != []
    requires ParseValue(Print(m.value) + after) == Some((m.value, after))
    ensures ParseMembers(t) ==
      if after[0] == CLOSE_OBJECT then Some(([m], after[1..]))
      else if after[0] != COMMA then None
      else var rest := ParseMembers(after[1..]); if rest.None? then None else Some(([m] + rest.value.0, rest.value.1))
  {
    hide Print, ParseValue, ParseContents, Escape;
    var colon := [COLON] + (Print(m.value) + after);
    assert t[0] == QUOTE;
    assert t[1..] == Escape(m.key) + [QUOTE] + colon;
    ContentsInvert(m.key, colon);
    assert colon[1..] == Print(m.value) + after;
  }

  /** Printing is injective. */
  lemma PrintInjective(a: Json, b: Json)
    requires WellFormed(a) && WellFormed(b) && Print(a) == Print(b)
    ensures a == b
  {
    ParseInvertsPrint(a, []);
    ParseInvertsPrint(b, []);
    assert Print(a) + [] == Print(a) && Print(b) + [] == Print(b);
  }

  // ---------- Key order ----------

  /** The order of `Array.prototype.sort` on strings: code unit by code unit. */
  predicate Less(a: Text, b: Text) {
    b != [] && (a == [] || a[0] < b[0] || (a[0] == b[0] && Less(a[1..], b[1..])))
  }

  lemma {:induction false} LessTotal(a: Text, b: Text)
    ensures a == b || Less(a, b) || Less(b, a)
    ensures !(Less(a, b) && Less(b, a)) && (a == b ==> !Less(a, b))
    decreases a
  {
    if a != [] && b != [] {
      LessTotal(a[1..], b[1..]);
      if a[0] == b[0] && a[1..] == b[1..] {
        assert a == [a[0]] + a[1..] && b == [b[0]] + b[1..];
      }
    }
  }

  lemma {:induction false} LessTransitive(a: Text, b: Text, c: Text)
    requires Less(a, b) && Less(b, c)
    ensures Less(a, c)
    decreases a
  {
    if a != [] && a[0] == b[0] && b[0] == c[0] {
      LessTransitive(a[1..], b[1..], c[1..]);
    }
  }

  function Insert(m: Member, sorted: seq<Member>): (r: seq<Member>)
    ensures multiset(r) == multiset(sorted) + multiset{m}
  {
    if sorted == [] then [m]
    else if Less(sorted[0].key, m.key) then
      assert sorted == [sorted[0]] + sorted[1..];
      [sorted[0]] + Insert(m, sorted[1..])
    else [m] + sorted
  }

  function Sort(members: seq<Member>): (r: seq<Member>)
    ensures multiset(r) == multiset(members)
    ensures |r| == |members|
    ensures forall m :: m in r ==> m in members
  {
    if members == [] then [] else
    var r := Insert(members[0], Sort(members[1..]));
    assert members == [members[0]] + members[1..];
    SameElements(r, members);
    r
  }

  lemma SameElements(a: seq<Member>, b: seq<Member>)
    requires multiset(a) == multiset(b)
    ensures |a| == |b| && forall m :: m in a ==> m in b
  {
    assert |multiset(a)| == |a| && |multiset(b)| == |b|;
    forall m | m in a
      ensures m in b
    {
      assert m in multiset(a);
    }
  }

  predicate Increasing(members: seq<Member>) {
    forall i, j :: 0 <= i < j < |members| ==> Less(members[i].key, members[j].key)
  }

  lemma {:induction false} InsertIncreasing(m: Member, sorted: seq<Member>)
    requires Increasing(sorted) && forall i :: 0 <= i < |sorted| ==> sorted[i].key != m.key
    ensures Increasing(Insert(m, sorted))
    decreases sorted
  {
    var r := Insert(m, sorted);
    if sorted != [] {
      LessTotal(sorted[0].key, m.key);
      if Less(sorted[0].key, m.key) {
        InsertIncreasing(m, sorted[1..]);
        var tail := Insert(m, sorted[1..]);
        forall j | 0 <= j < |tail|
          ensures Less(sorted[0].key, tail[j].key)
        {
          assert tail[j] in multiset(tail);
          assert tail[j] in sorted[1..] || tail[j] == m;
        }
      } else {
        forall j | 0 <= j < |sorted|
          ensures Less(m.key, sorted[j].key)
        {
          if j > 0 { LessTransitive(m.key, sorted[0].key, sorted[j].key); }
        }
      }
    }
  }

  lemma {:induction false} SortIncreasing(members: seq<Member>)
    requires DistinctKeys(members)
    ensures Increasing(Sort(members))
    decreases members
  {
    if members != [] {
      SortIncreasing(members[1..]);
      var rest := Sort(members[1..]);
      forall i | 0 <= i < |rest|
        ensures rest[i].key != members[0].key
      {
        assert rest[i] in multiset(rest);
        assert rest[i] in members[1..];
      }
      InsertIncreasing(members[0], rest);
    }
  }

  /** An increasing list is determined by which members it has under which keys. */
  lemma {:induction false} IncreasingUnique(a: seq<Member>, b: seq<Member>)
    requires Increasing(a) && Increasing(b)
    requires forall k :: HasKey(a, k) <==> HasKey(b, k)
    ensures |a| == |b| && forall i :: 0 <= i < |a| ==> a[i].key == b[i].key
    decreases a
  {
    if a == [] {
      if b != [] { assert HasKey(b, b[0].key); }
    } else {
      assert HasKey(a, a[0].key);
      assert HasKey(b, a[0].key);
      assert HasKey(b, b[0].key) && HasKey(a, b[0].key);
      FirstKeys(a, b);
      forall k
        ensures HasKey(a[1..], k) <==> HasKey(b[1..], k)
      {
        TailKeys(a, k);
        TailKeys(b, k);
      }
      IncreasingUnique(a[1..], b[1..]);
    }
  }

  predicate HasKey(members: seq<Member>, k: Text) {
    exists i :: 0 <= i < |members| && members[i].key == k
  }

  lemma FirstKeys(a: seq<Member>, b: seq<Member>)
    requires Increasing(a) && Increasing(b) && a != [] && b != []
    requires HasKey(b, a[0].key) && HasKey(a, b[0].key)
    ensures a[0].key == b[0].key
  {
    var i :| 0 <= i < |b| && b[i].key == a[0].key;
    var j :| 0 <= j < |a| && a[j].key == b[0].key;
    LessTotal(a[0].key, b[0].key);
  }

  lemma TailKeys(a: seq<Member>, k: Text)
    requires Increasing(a) && a != []
    ensures HasKey(a[1..], k) <==> HasKey(a, k) && k != a[0].key
  {
    if HasKey(a[1..], k) {
      var i :| 0 <= i < |a[1..]| && a[1..][i].key == k;
      assert a[i + 1].key == k;
      LessTotal(a[0].key, k);
    }
    if HasKey(a, k) && k != a[0].key {
      var i :| 0 <= i < |a| && a[i].key == k;
      assert a[1..][i - 1].key == k;
    }
  }

  // ---------- Canonical text ----------

  /** `canonicalJson`. */
  function Canonical(j: Json): Text
    decreases j, 1
  {
    match j
    case Array(items) => [OPEN_LIST] + CanonicalItems(items) + [CLOSE_LIST]
    case Object(members) => [OPEN_OBJECT] + CanonicalMembers(j, Sort(members)) + [CLOSE_OBJECT]
    case _ => Print(j)
  }

  function CanonicalItems(items: seq<Json>): Text
    decreases items, 0
  {
    if items == [] then []
    else if |items| == 1 then Canonical(items[0])
    else Canonical(items[0]) + [COMMA] + CanonicalItems(items[1..])
  }

  /** The members of `whole`, in sorted order, joined by commas. */
  function CanonicalMembers(whole: Json, sorted: seq<Member>): Text
    requires whole.Object? && forall m :: m in sorted ==> m in whole.members
    decreases whole, 0, |sorted|
  {
    if sorted == [] then [] else
    Below(whole, sorted[0]);
    var first := Quote(sorted[0].key) + [COLON] + Canonical(sorted[0].value);
    if |sorted| == 1 then first else first + [COMMA] + CanonicalMembers(whole, sorted[1..])
  }

  lemma Below(whole: Json, m: Member)
    requires whole.Object? && m in whole.members
    ensures m.value < whole
  {
    var i :| 0 <= i < |whole.members| && whole.members[i] == m;
    assert whole.members[i].value < whole;
  }

  /** The same value with every object in key order. */
  function Normalize(j: Json): Json
    decreases j, 1
  {
    match j
    case Array(items) => Array(NormalizeItems(items))
    case Object(members) => Object(NormalizeMembers(j, Sort(members)))
    case _ => j
  }

  function NormalizeItems(items: seq<Json>): (r: seq<Json>)
    ensures |r| == |items|
    decreases items, 0
  {
    if items == [] then [] else [Normalize(items[0])] + NormalizeItems(items[1..])
  }

  function NormalizeMembers(whole: Json, sorted: seq<Member>): (r: seq<Member>)
    requires whole.Object? && forall m :: m in sorted ==> m in whole.members
    ensures |r| == |sorted| && forall i :: 0 <= i < |r| ==> r[i].key == sorted[i].key
    decreases whole, 0, |sorted|
  {
    if sorted == [] then [] else
    Below(whole, sorted[0]);
    [Member(sorted[0].key, Normalize(sorted[0].value))] + NormalizeMembers(whole, sorted[1..])
  }

  lemma {:induction false} CanonicalPrintsNormal(j: Json)
    ensures Canonical(j) == Print(Normalize(j))
    decreases j, 1
  {
    match j
    case Array(items) => CanonicalPrintsItems(items);
    case Object(members) => CanonicalPrintsMembers(j, Sort(members));
    case _ =>
  }

  lemma {:induction false} CanonicalPrintsItems(items: seq<Json>)
    ensures CanonicalItems(items) == PrintItems(NormalizeItems(items))
    decreases items, 0
  {
    if items != [] {
      CanonicalPrintsNormal(items[0]);
      CanonicalPrintsItems(items[1..]);
      assert NormalizeItems(items)[1..] == NormalizeItems(items[1..]);
    }
  }

  lemma {:induction false} CanonicalPrintsMembers(whole: Json, sorted: seq<Member>)
    requires whole.Object? && forall m :: m in sorted ==> m in whole.members
    ensures CanonicalMembers(whole, sorted) == PrintMembers(NormalizeMembers(whole, sorted))
    decreases whole, 0, |sorted|
  {
    if sorted != [] {
      Below(whole, sorted[0]);
      CanonicalPrintsNormal(sorted[0].value);
      CanonicalPrintsMembers(whole, sorted[1..]);
      assert NormalizeMembers(whole, sorted)[1..] == NormalizeMembers(whole, sorted[1..]);
    }
  }

  // ---------- Equality up to key order ----------

  /** A JSON value whose objects have no order. */
  datatype Value =
    | VNull
    | VBool(b: bool)
    | VNumber(digits: Text)
    | VString(s: Text)
    | VArray(items: seq<Value>)
    | VObject(members: map<Text, Value>)

  function Meaning(j: Json): Value
    decreases j, 1
  {
    match j
    case Null => VNull
    case Bool(b) => VBool(b)
    case Number(digits) => VNumber(digits)
    case String(s) => VString(s)
    case Array(items) => VArray(MeaningItems(items))
    case Object(members) => VObject(MeaningMembers(members))
  }

  function MeaningItems(items: seq<Json>): (r: seq<Value>)
    ensures |r| == |items|
    decreases items, 0
  {
    if items == [] then [] else [Meaning(items[0])] + MeaningItems(items[1..])
  }

  function MeaningMembers(members: seq<Member>): map<Text, Value>
    decreases members, 0
  {
    if members == [] then map[] else MeaningMembers(members[1..])[members[0].key := Meaning(members[0].value)]
  }

  lemma {:induction false} MeaningItemsAt(items: seq<Json>, i: nat)
    requires i < |items|
    ensures MeaningItems(items)[i] == Meaning(items[i])
    decreases items
  {
    if i > 0 { MeaningItemsAt(items[1..], i - 1); }
  }

  lemma {:induction false} NormalizeItemsAt(items: seq<Json>, i: nat)
    requires i < |items|
    ensures NormalizeItems(items)[i] == Normalize(items[i])
    decreases items
  {
    if i > 0 { NormalizeItemsAt(items[1..], i - 1); }
  }

  lemma {:induction false} NormalizeMembersAt(whole: Json, sorted: seq<Member>, i: nat)
    requires whole.Object? && forall m :: m in sorted ==> m in whole.members
    requires i < |sorted|
    ensures NormalizeMembers(whole, sorted)[i] == Member(sorted[i].key, Normalize(sorted[i].value))
    decreases sorted
  {
    if i > 0 { NormalizeMembersAt(whole, sorted[1..], i - 1); }
  }

  lemma {:induction false} MeaningMembersAt(members: seq<Member>)
    requires DistinctKeys(members)
    ensures forall k :: k in MeaningMembers(members) <==> HasKey(members, k)
    ensures forall i :: 0 <= i < |members| ==>
              members[i].key in MeaningMembers(members)
              && MeaningMembers(members)[members[i].key] == Meaning(members[i].value)
    decreases members
  {
    if members != [] {
      MeaningMembersAt(members[1..]);
      forall k
        ensures HasKey(members, k) <==> k == members[0].key || HasKey(members[1..], k)
      {
        if HasKey(members, k) && k != members[0].key {
          var i :| 0 <= i < |members| && members[i].key == k;
          assert members[1..][i - 1].key == k;
        }
        if HasKey(members[1..], k) {
          var i :| 0 <= i < |members[1..]| && members[1..][i].key == k;
          assert members[i + 1].key == k;
        }
      }
      forall i | 0 <= i < |members|
        ensures MeaningMembers(members)[members[i].key] == Meaning(members[i].value)
      {
        if i > 0 { assert members[1..][i - 1] == members[i]; }
      }
    }
  }

  /** Two member lists with distinct keys and the same members mean the same. */
  lemma SameMembersSameMeaning(a: seq<Member>, b: seq<Member>)
    requires DistinctKeys(a) && DistinctKeys(b)
    requires forall k :: HasKey(a, k) <==> HasKey(b, k)
    requires forall i, j :: 0 <= i < |a| && 0 <= j < |b| && a[i].key == b[j].key ==> Meaning(a[i].value) == Meaning(b[j].value)
    ensures MeaningMembers(a) == MeaningMembers(b)
  {
    MeaningMembersAt(a);
    MeaningMembersAt(b);
    forall k | k in MeaningMembers(a)
      ensures MeaningMembers(a)[k] == MeaningMembers(b)[k]
    {
      var i :| 0 <= i < |a| && a[i].key == k;
      var j :| 0 <= j < |b| && b[j].key == k;
    }
  }

  lemma SortedMember(members: seq<Member>, i: nat) returns (j: nat)
    requires i < |members|
    ensures j < |Sort(members)| && Sort(members)[j] == members[i]
  {
    assert members[i] in multiset(members);
    assert members[i] in Sort(members);
    j :| 0 <= j < |Sort(members)| && Sort(members)[j] == members[i];
  }

  lemma UnsortedMember(members: seq<Member>, j: nat) returns (i: nat)
    requires j < |Sort(members)|
    ensures i < |members| && members[i] == Sort(members)[j]
  {
    assert Sort(members)[j] in multiset(Sort(members));
    i :| 0 <= i < |members| && members[i] == Sort(members)[j];
  }

  lemma SortKeepsKeys(members: seq<Member>)
    ensures forall k :: HasKey(members, k) <==> HasKey(Sort(members), k)
  {
    forall k
      ensures HasKey(members, k) <==> HasKey(Sort(members), k)
    {
      if HasKey(members, k) {
        var i :| 0 <= i < |members| && members[i].key == k;
        var j := SortedMember(members, i);
      }
      if HasKey(Sort(members), k) {
        var j :| 0 <= j < |Sort(members)| && Sort(members)[j].key == k;
        var i := UnsortedMember(members, j);
      }
    }
  }

  lemma IncreasingDistinct(members: seq<Member>)
    requires Increasing(members)
    ensures DistinctKeys(members)
  {
    forall i, j | 0 <= i < j < |members|
      ensures members[i].key != members[j].key
    {
      LessTotal(members[i].key, members[j].key);
    }
  }

  /** Normalizing keeps well-formedness and meaning. */
  lemma {:induction false} NormalizeKeeps(j: Json)
    requires WellFormed(j)
    ensures WellFormed(Normalize(j)) && Meaning(Normalize(j)) == Meaning(j)
    decreases j
  {
    match j
    case Array(items) =>
      var r := NormalizeItems(items);
      forall i | 0 <= i < |items|
        ensures WellFormed(r[i]) && MeaningItems(r)[i] == MeaningItems(items)[i]
      {
        NormalizeItemsAt(items, i);
        MeaningItemsAt(items, i);
        MeaningItemsAt(r, i);
        NormalizeKeeps(items[i]);
      }
      assert MeaningItems(r) == MeaningItems(items);
    case Object(members) => NormalizeObjectKeeps(j, members);
    case _ =>
  }

  lemma {:induction false} NormalizeObjectKeeps(whole: Json, members: seq<Member>)
    requires WellFormed(whole) && whole == Object(members)
    ensures WellFormed(Normalize(whole)) && Meaning(Normalize(whole)) == Meaning(whole)
    decreases whole, 0
  {
    var sorted := Sort(members);
    var r := NormalizeMembers(whole, sorted);
    SortIncreasing(members);
    assert Increasing(r);
    IncreasingDistinct(r);
    forall j | 0 <= j < |r|
      ensures WellFormed(r[j].value) && Meaning(r[j].value) == Meaning(sorted[j].value)
    {
      NormalizeMembersAt(whole, sorted, j);
      var i := UnsortedMember(members, j);
      NormalizeKeeps(members[i].value);
    }
    SortKeepsKeys(members);
    forall k
      ensures HasKey(r, k) <==> HasKey(members, k)
    {
      SameKeys(r, sorted, k);
    }
    forall i, j | 0 <= i < |r| && 0 <= j < |members| && r[i].key == members[j].key
      ensures Meaning(r[i].value) == Meaning(members[j].value)
    {
      var o := UnsortedMember(members, i);
      assert o == j;
    }
    SameMembersSameMeaning(r, members);
  }

  lemma SameKeys(a: seq<Member>, b: seq<Member>, k: Text)
    requires |a| == |b| && forall i :: 0 <= i < |a| ==> a[i].key == b[i].key
    ensures HasKey(a, k) <==> HasKey(b, k)
  {
    if HasKey(a, k) { var i :| 0 <= i < |a| && a[i].key == k; assert b[i].key == k; }
    if HasKey(b, k) { var i :| 0 <= i < |b| && b[i].key == k; assert a[i].key == k; }
  }

  /** Values with the same meaning have the same normal form. */
  lemma {:induction false} SameMeaningSameNormal(a: Json, b: Json)
    requires WellFormed(a) && WellFormed(b) && Meaning(a) == Meaning(b)
    ensures Normalize(a) == Normalize(b)
    decreases a
  {
    match a
    case Array(items) =>
      assert b.Array? && MeaningItems(items) == MeaningItems(b.items);
      forall i | 0 <= i < |items|
        ensures NormalizeItems(items)[i] == NormalizeItems(b.items)[i]
      {
        MeaningItemsAt(items, i);
        MeaningItemsAt(b.items, i);
        SameMeaningSameNormal(items[i], b.items[i]);
        NormalizeItemsAt(items, i);
        NormalizeItemsAt(b.items, i);
      }
      assert NormalizeItems(items) == NormalizeItems(b.items);
    case Object(members) =>
      assert b.Object?;
      SameMeaningSameObject(a, b);
    case _ =>
  }

  lemma {:induction false} SameMeaningSameObject(a: Json, b: Json)
    requires a.Object? && b.Object? && WellFormed(a) && WellFormed(b)
    requires MeaningMembers(a.members) == MeaningMembers(b.members)
    ensures Normalize(a) == Normalize(b)
    decreases a, 0
  {
    hide Sort, Meaning, MeaningMembers, Increasing, DistinctKeys, NormalizeMembers;
    var sa, sb := Sort(a.members), Sort(b.members);
    MeaningMembersAt(a.members);
    MeaningMembersAt(b.members);
    SortIncreasing(a.members);
    SortIncreasing(b.members);
    SortKeepsKeys(a.members);
    SortKeepsKeys(b.members);
    IncreasingUnique(sa, sb);
    var ra, rb := NormalizeMembers(a, sa), NormalizeMembers(b, sb);
    forall i | 0 <= i < |sa|
      ensures ra[i] == rb[i]
    {
      NormalizeMembersAt(a, sa, i);
      NormalizeMembersAt(b, sb, i);
      var x := UnsortedMember(a.members, i);
      var y := UnsortedMember(b.members, i);
      SameMeaningSameNormal(a.members[x].value, b.members[y].value);
    }
    assert ra == rb;
  }

  /** Equal canonical text if and only if equal up to the order of object keys, at every depth. */
  lemma CanonicalIsExact(a: Json, b: Json)
    requires WellFormed(a) && WellFormed(b)
    ensures Canonical(a) == Canonical(b) <==> Meaning(a) == Meaning(b)
  {
    CanonicalPrintsNormal(a);
    CanonicalPrintsNormal(b);
    NormalizeKeeps(a);
    NormalizeKeeps(b);
    if Canonical(a) == Canonical(b) {
      PrintInjective(Normalize(a), Normalize(b));
    }
    if Meaning(a) == Meaning(b) {
      SameMeaningSameNormal(a, b);
    }
  }

  /** And the canonical text can be read back: parsing it gives a value equal up to key order. */
  lemma CanonicalRoundTrips(j: Json)
    requires WellFormed(j)
    ensures ParseValue(Canonical(j)).Some? && ParseValue(Canonical(j)).value.1 == []
    ensures Meaning(ParseValue(Canonical(j)).value.0) == Meaning(j)
  {
    CanonicalPrintsNormal(j);
    NormalizeKeeps(j);
    ParseInvertsPrint(Normalize(j), []);
    assert Print(Normalize(j)) + [] == Print(Normalize(j));
  }

  // ---------- The key order ----------

  /** Code unit by code unit: the smaller unit at the first difference, or the shorter text, comes first. */
  lemma {:induction false} LessMeans(a: Text, b: Text)
    ensures Less(a, b) <==> exists i :: LowerAt(a, b, i)
    decreases a
  {
    if a != [] && b != [] && a[0] == b[0] {
      LessMeans(a[1..], b[1..]);
      forall i | LowerAt(a[1..], b[1..], i)
        ensures LowerAt(a, b, i + 1)
      {
        assert a[..i + 1] == [a[0]] + a[1..][..i] && b[..i + 1] == [b[0]] + b[1..][..i];
      }
      forall i | LowerAt(a, b, i)
        ensures LowerAt(a[1..], b[1..], i - 1)
      {
        assert i > 0;
        assert a[1..][..i - 1] == a[..i][1..] && b[1..][..i - 1] == b[..i][1..];
      }
    } else if b != [] && (a == [] || a[0] < b[0]) {
      assert LowerAt(a, b, 0);
    } else {
      forall i | 0 < i <= |a| && i < |b|
        ensures a[..i] != b[..i]
      {
        assert a[..i][0] != b[..i][0];
      }
    }
  }

  /** `a` and `b` agree up to `i`, where `a` ends or has the smaller unit. */
  predicate LowerAt(a: Text, b: Text, i: int) {
    0 <= i <= |a| && i < |b| && a[..i] == b[..i] && (i == |a| || a[i] < b[i])
  }

  /** The canonical text of an object is the printed object with its keys in increasing order. */
  lemma CanonicalKeysIncrease(j: Json)
    requires WellFormed(j) && j.Object?
    ensures Canonical(j) == Print(Normalize(j)) && Normalize(j).Object? && Increasing(Normalize(j).members)
  {
    CanonicalPrintsNormal(j);
    SortIncreasing(j.members);
    var sorted := Sort(j.members);
    forall i | 0 <= i < |sorted|
      ensures NormalizeMembers(j, sorted)[i].key == sorted[i].key
    {
      NormalizeMembersAt(j, sorted, i);
    }
  }

  /** Sorting finds the one increasing arrangement. */
  lemma SortIs(members: seq<Member>, sorted: seq<Member>)
    requires DistinctKeys(members) && Increasing(sorted) && forall m :: m in members <==> m in sorted
    ensures Sort(members) == sorted
  {
    SortIncreasing(members);
    var r := Sort(members);
    SameElements(r, members);
    SameElements(members, r);
    forall k
      ensures HasKey(r, k) <==> HasKey(sorted, k)
    {
      if HasKey(r, k) {
        var i :| 0 <= i < |r| && r[i].key == k;
        assert r[i] in sorted;
      }
      if HasKey(sorted, k) {
        var i :| 0 <= i < |sorted| && sorted[i].key == k;
        assert sorted[i] in r;
      }
    }
    IncreasingUnique(r, sorted);
    forall i | 0 <= i < |r|
      ensures r[i] == sorted[i]
    {
      assert r[i] in sorted;
      var j :| 0 <= j < |sorted| && sorted[j] == r[i];
      LessTotal(sorted[i].key, sorted[j].key);
    }
  }

  // ---------- Encoding ----------

  /** Text that UTF-8 can carry without loss and that JSON allows: no lone surrogate, no control unit. */
  predicate Encodable(t: Text) {
    t == [] ||
    (if High(t[0]) then |t| >= 2 && Low(t[1]) && Encodable(t[2..]) else !Low(t[0]) && t[0] >= 32 && Encodable(t[1..]))
  }

  lemma {:induction false} EncodableAppend(a: Text, b: Text)
    requires Encodable(a) && Encodable(b)
    ensures Encodable(a + b)
    decreases a
  {
    if a == [] {
      assert a + b == b;
    } else if High(a[0]) {
      assert (a + b)[2..] == a[2..] + b;
      EncodableAppend(a[2..], b);
    } else {
      assert (a + b)[1..] == a[1..] + b;
      EncodableAppend(a[1..], b);
    }
  }

  predicate Plain(u: Unit) { u >= 32 && !High(u) && !Low(u) }

  lemma {:induction false} PlainEncodable(t: Text)
    requires forall i :: 0 <= i < |t| ==> Plain(t[i])
    ensures Encodable(t)
    decreases t
  {
    if t != [] { PlainEncodable(t[1..]); }
  }

  lemma {:induction false} EscapeEncodable(s: Text)
    ensures Encodable(Escape(s))
    decreases s
  {
    if s != [] {
      if |s| >= 2 && High(s[0]) && Low(s[1]) {
        EscapeEncodable(s[2..]);
        assert ([s[0], s[1]] + Escape(s[2..]))[2..] == Escape(s[2..]);
      } else {
        EscapeEncodable(s[1..]);
        PlainEncodable(EscapeUnit(s[0]));
        EncodableAppend(EscapeUnit(s[0]), Escape(s[1..]));
      }
    }
  }

  lemma QuoteEncodable(s: Text)
    ensures Encodable(Quote(s))
  {
    EscapeEncodable(s);
    PlainEncodable([QUOTE]);
    EncodableAppend([QUOTE], Escape(s));
    EncodableAppend([QUOTE] + Escape(s), [QUOTE]);
  }

  lemma Bracketed(open: Unit, t: Text, close: Unit)
    requires Plain(open) && Plain(close) && Encodable(t)
    ensures Encodable([open] + t + [close])
  {
    PlainEncodable([open]);
    PlainEncodable([close]);
    EncodableAppend([open], t);
    EncodableAppend([open] + t, [close]);
  }

  lemma Separated(a: Text, separator: Unit, b: Text)
    requires Plain(separator) && Encodable(a) && Encodable(b)
    ensures Encodable(a + [separator] + b)
  {
    PlainEncodable([separator]);
    EncodableAppend(a, [separator]);
    EncodableAppend(a + [separator], b);
  }

  lemma {:induction false} PrintEncodable(j: Json)
    requires WellFormed(j)
    ensures Encodable(Print(j))
    decreases j, 1
  {
    hide Encodable;
    match j
    case Null => PlainEncodable(NULL);
    case Bool(b) => PlainEncodable(if b then TRUE else FALSE);
    case Number(digits) => PlainEncodable(digits);
    case String(s) => QuoteEncodable(s);
    case Array(items) =>
      ItemsEncodable(items);
      Bracketed(OPEN_LIST, PrintItems(items), CLOSE_LIST);
    case Object(members) =>
      MembersEncodable(members);
      Bracketed(OPEN_OBJECT, PrintMembers(members), CLOSE_OBJECT);
  }

  lemma {:induction false} ItemsEncodable(items: seq<Json>)
    requires forall i :: 0 <= i < |items| ==> WellFormed(items[i])
    ensures Encodable(PrintItems(items))
    decreases items, 0
  {
    hide Print, WellFormed;
    if items != [] {
      PrintEncodable(items[0]);
      ItemsEncodable(items[1..]);
      hide Encodable;
      if |items| > 1 { Separated(Print(items[0]), COMMA, PrintItems(items[1..])); }
    }
  }

  lemma {:induction false} MembersEncodable(members: seq<Member>)
    requires forall i :: 0 <= i < |members| ==> WellFormed(members[i].value)
    ensures Encodable(PrintMembers(members))
    decreases members, 0
  {
    hide Print, Quote, WellFormed;
    if members != [] {
      var m := members[0];
      PrintEncodable(m.value);
      QuoteEncodable(m.key);
      MembersEncodable(members[1..]);
      hide Encodable;
      Separated(Quote(m.key), COLON, Print(m.value));
      if |members| > 1 { Separated(PrintMember(m), COMMA, PrintMembers(members[1..])); }
    }
  }

  /**
   Canonical text is legal JSON text in UTF-16 that its UTF-8 form, which the digest is taken of,
   represents without loss: keys and strings with lone surrogates or control units included.
   */
  lemma CanonicalIsEncodable(j: Json)
    requires WellFormed(j)
    ensures Encodable(Canonical(j))
  {
    CanonicalPrintsNormal(j);
    NormalizeKeeps(j);
    PrintEncodable(Normalize(j));
  }

  lemma {:induction false} NoShorter(s: Text)
    ensures |Escape(s)| >= |s|
    decreases s
  {
    if |s| >= 2 && High(s[0]) && Low(s[1]) {
      NoShorter(s[2..]);
    } else if s != [] {
      NoShorter(s[1..]);
    }
  }

  lemma UnitStays(u: Unit)
    ensures if Plain(u) && u != QUOTE && u != BACKSLASH then EscapeUnit(u) == [u] else |EscapeUnit(u)| >= 2
  {
  }

  /** And only what must be escaped is. */
  lemma {:induction false} PlainTextStays(s: Text)
    ensures Escape(s) == s <==> Encodable(s) && QUOTE !in s && BACKSLASH !in s
    decreases s
  {
    hide EscapeUnit;
    if s != [] {
      if |s| >= 2 && High(s[0]) && Low(s[1]) {
        PlainTextStays(s[2..]);
        assert s == [s[0], s[1]] + s[2..] && Escape(s)[2..] == Escape(s[2..]);
      } else {
        UnitStays(s[0]);
        PlainTextStays(s[1..]);
        NoShorter(s[1..]);
        assert s == [s[0]] + s[1..];
        if |EscapeUnit(s[0])| == 1 { assert Escape(s)[1..] == Escape(s[1..]); }
      }
    }
  }
}
