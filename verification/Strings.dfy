/** Splitting text at a separator, as `String.prototype.split` does. */
module Strings {

  function Split(s: string, at: char): (parts: seq<string>)
    ensures parts != []
  {
    if s == [] then [""]
    else if s[0] == at then [""] + Split(s[1..], at)
    else var rest := Split(s[1..], at); [[s[0]] + rest[0]] + rest[1..]
  }

  function Join(parts: seq<string>, at: char): string
    requires parts != []
  {
    if |parts| == 1 then parts[0] else parts[0] + [at] + Join(parts[1..], at)
  }

  /** Splitting loses nothing, and no part contains the separator. */
  lemma {:induction false} SplitJoins(s: string, at: char)
    ensures Join(Split(s, at), at) == s
    ensures forall i :: 0 <= i < |Split(s, at)| ==> at !in Split(s, at)[i]
    decreases s
  {
    if s != [] {
      SplitJoins(s[1..], at);
      var rest := Split(s[1..], at);
      assert s == [s[0]] + s[1..];
      if s[0] == at {
        assert Split(s, at)[1..] == rest;
      } else {
        assert Split(s, at)[1..] == rest[1..];
        if |rest| > 1 {
          assert ([s[0]] + rest[0]) + [at] + Join(rest[1..], at) == [s[0]] + (rest[0] + [at] + Join(rest[1..], at));
        }
      }
    }
  }

  /** Index of the first occurrence, or the length of the text if there is none. */
  function IndexOf(s: string, c: char): (i: nat)
    ensures i <= |s|
    ensures i < |s| ==> s[i] == c
    ensures c !in s[..i]
  {
    if s == [] || s[0] == c then 0
    else
      var rest := IndexOf(s[1..], c);
      assert s[..rest + 1] == [s[0]] + s[1..][..rest];
      rest + 1
  }

  /** Joining parts without the separator loses nothing either. */
  lemma {:induction false} JoinSplits(parts: seq<string>, at: char)
    requires parts != [] && forall i :: 0 <= i < |parts| ==> at !in parts[i]
    ensures Split(Join(parts, at), at) == parts
    decreases parts
  {
    if |parts| == 1 {
      SplitPart(parts[0], at);
      assert parts == [parts[0]];
    } else {
      JoinSplits(parts[1..], at);
      SplitFirst(parts[0], Join(parts[1..], at), at);
      assert parts == [parts[0]] + parts[1..];
    }
  }

  lemma {:induction false} SplitPart(part: string, at: char)
    requires at !in part
    ensures Split(part, at) == [part]
  {
    if part != [] {
      SplitPart(part[1..], at);
      assert [part[0]] + part[1..] == part;
    }
  }

  lemma {:induction false} SplitFirst(part: string, rest: string, at: char)
    requires at !in part
    ensures Split(part + [at] + rest, at) == [part] + Split(rest, at)
  {
    var s := part + [at] + rest;
    if part == [] {
      assert s[1..] == rest;
    } else {
      assert s[1..] == part[1..] + [at] + rest;
      SplitFirst(part[1..], rest, at);
      assert [part[0]] + part[1..] == part;
    }
  }

  /** A joined text is made of its parts and separators. */
  lemma {:induction false} JoinMade(parts: seq<string>, at: char, allowed: set<char>)
    requires parts != [] && at in allowed
    requires forall i, j :: 0 <= i < |parts| && 0 <= j < |parts[i]| ==> parts[i][j] in allowed
    ensures forall j :: 0 <= j < |Join(parts, at)| ==> Join(parts, at)[j] in allowed
    ensures |Join(parts, at)| >= |parts[|parts| - 1]|
  {
    if |parts| > 1 {
      assert forall i, j :: 0 <= i < |parts| - 1 && 0 <= j < |parts[1..][i]| ==> parts[1..][i][j] == parts[i + 1][j];
      JoinMade(parts[1..], at, allowed);
    }
  }

  lemma {:induction false} IndexOfFirst(a: string, c: char, b: string)
    requires c !in a
    ensures IndexOf(a + [c] + b, c) == |a|
    ensures IndexOf(a, c) == |a|
  {
    if a != [] {
      assert (a + [c] + b)[1..] == a[1..] + [c] + b;
      IndexOfFirst(a[1..], c, b);
    }
  }
}
