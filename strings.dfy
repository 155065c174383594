/** String primitives the services rely on: substring search (what the regular
    expressions of the response parser do) and `String.prototype.split`. */
module Strings {
  import opened Wrappers

  /** Pattern `p` occurs in `s` starting at index `i`. */
  predicate Occurs(s: string, i: int, p: string) {
    0 <= i && i + |p| <= |s| && forall k :: 0 <= k < |p| ==> s[i + k] == p[k]
  }

  /** `s` holds no backtick. */
  predicate NoBacktick(s: string) {
    forall k :: 0 <= k < |s| ==> s[k] != '`'
  }

  /** The first index at or after `from` where `p` occurs, or None. */
  function IndexOf(s: string, p: string, from: nat): (r: Option<nat>)
    decreases |s| - from
    ensures r.Some? ==> from <= r.value && Occurs(s, r.value, p)
    ensures r.Some? ==> forall k :: from <= k < r.value ==> !Occurs(s, k, p)
    ensures r.None? ==> forall k :: from <= k ==> !Occurs(s, k, p)
  {
    if from + |p| > |s| then None
    else if s[from..from + |p|] == p then Some(from)
    else IndexOf(s, p, from + 1)
  }

  /** The last index below `upto` holding `c`, or None. */
  function LastIndexOf(s: string, c: char, upto: nat): (r: Option<nat>)
    requires upto <= |s|
    ensures r.Some? ==> r.value < upto && s[r.value] == c
    ensures r.Some? ==> forall k :: r.value < k < upto ==> s[k] != c
    ensures r.None? ==> forall k :: 0 <= k < upto ==> s[k] != c
  {
    if upto == 0 then None
    else if s[upto - 1] == c then Some(upto - 1)
    else LastIndexOf(s, c, upto - 1)
  }

  /** A pattern does not occur where one of its characters is missing. */
  lemma Mismatch(s: string, i: int, p: string, k: int)
    requires 0 <= k < |p| && 0 <= i + k < |s| && s[i + k] != p[k]
    ensures !Occurs(s, i, p)
  {
    if 0 <= i && i + |p| <= |s| {
      assert s[i + k] != p[k];
    }
  }

  /** A one-character pattern occurs exactly where that character stands. */
  lemma OccursChar(s: string, i: int, c: char)
    ensures Occurs(s, i, [c]) <==> 0 <= i < |s| && s[i] == c
  {
    if Occurs(s, i, [c]) {
      assert s[i + 0] == [c][0];
    }
  }

  /** The segments joined back with `sep` between them. */
  function Join(parts: seq<string>, sep: char): (s: string)
    requires |parts| >= 1
  {
    if |parts| == 1 then parts[0] else parts[0] + [sep] + Join(parts[1..], sep)
  }

  /** `s.split(sep)` for a one-character separator: the maximal separator-free
      segments, in order; the empty string splits into one empty segment. */
  function Split(s: string, sep: char): (parts: seq<string>)
    ensures |parts| >= 1
    ensures Join(parts, sep) == s
    ensures forall i :: 0 <= i < |parts| ==> sep !in parts[i]
  {
    if |s| == 0 then [""]
    else
      var tail := Split(s[1..], sep);
      if s[0] == sep then
        assert ([""] + tail)[1..] == tail;
        [""] + tail
      else
        var parts := [[s[0]] + tail[0]] + tail[1..];
        assert parts[1..] == tail[1..];
        assert s == [s[0]] + s[1..];
        parts
  }

  /** A separator-free prefix followed by the separator splits off as one segment. */
  lemma {:induction false} SplitCons(a: string, sep: char, rest: string)
    requires sep !in a
    ensures Split(a + [sep] + rest, sep) == [a] + Split(rest, sep)
  {
    var s := a + [sep] + rest;
    if a == [] {
      assert s[1..] == rest;
    } else {
      assert s[1..] == a[1..] + [sep] + rest;
      SplitCons(a[1..], sep, rest);
      assert [a[0]] + a[1..] == a;
    }
  }

  /** A separator-free string is a single segment. */
  lemma {:induction false} SplitNoSeparator(a: string, sep: char)
    requires sep !in a
    ensures Split(a, sep) == [a]
  {
    if a != [] {
      SplitNoSeparator(a[1..], sep);
      assert [a[0]] + a[1..] == a;
    }
  }

  /** Round trip: splitting the join of separator-free segments gives them back. */
  lemma {:induction false} SplitJoin(parts: seq<string>, sep: char)
    requires |parts| >= 1
    requires forall i :: 0 <= i < |parts| ==> sep !in parts[i]
    ensures Split(Join(parts, sep), sep) == parts
  {
    if |parts| == 1 {
      SplitNoSeparator(parts[0], sep);
    } else {
      SplitJoin(parts[1..], sep);
      SplitCons(parts[0], sep, Join(parts[1..], sep));
      assert [parts[0]] + parts[1..] == parts;
    }
  }
}
