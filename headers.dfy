/**
 * The `Headers` object of the Fetch Standard, as the worker uses it: an
 * ordered list of (name, value) entries whose names are compared
 * byte-case-insensitively (section 5.1 of RFC 9110). `get` combines the values
 * of every matching entry, `set` overwrites the first matching entry and drops
 * the others (or appends), and `delete` drops every matching entry.
 */
module FetchHeaders {
  import opened Wrappers

  /** One entry of a header list. */
  datatype Header = Header(name: string, value: string)

  /** Byte-lowercase of one character: only the ASCII letters A-Z change. */
  function LowerChar(c: char): char {
    if 'A' <= c <= 'Z' then (c as int + 32) as char else c
  }

  /** Byte-lowercase of a name. */
  function Fold(s: string): string {
    seq(|s|, i requires 0 <= i < |s| => LowerChar(s[i]))
  }

  /** Two header names are the same name, ignoring ASCII case. */
  predicate NameEq(a: string, b: string) {
    Fold(a) == Fold(b)
  }

  /**
   * Names compare equal exactly when they have the same length and agree
   * character by character once each character is lower-cased.
   */
  lemma NameEqPointwise(a: string, b: string)
    ensures NameEq(a, b) <==> |a| == |b| && forall i :: 0 <= i < |a| ==> LowerChar(a[i]) == LowerChar(b[i])
  {
    if |a| == |b| && forall i :: 0 <= i < |a| ==> LowerChar(a[i]) == LowerChar(b[i]) {
      assert forall i :: 0 <= i < |a| ==> Fold(a)[i] == Fold(b)[i];
    }
    if NameEq(a, b) {
      assert |a| == |Fold(a)| == |Fold(b)| == |b|;
      forall i | 0 <= i < |a| ensures LowerChar(a[i]) == LowerChar(b[i]) {
        assert Fold(a)[i] == Fold(b)[i];
      }
    }
  }

  predicate Matches(h: Header, name: string) {
    NameEq(h.name, name)
  }

  /** The values of all entries called `name`, in list order. */
  function Values(hs: seq<Header>, name: string): seq<string> {
    if hs == [] then []
    else (if Matches(hs[0], name) then [hs[0].value] else []) + Values(hs[1..], name)
  }

  /** The values joined by ", ", as `get` reports them. */
  function Combine(vs: seq<string>): string
    requires vs != []
  {
    if |vs| == 1 then vs[0] else vs[0] + ", " + Combine(vs[1..])
  }

  /** `headers.get(name)`: null when no entry is called `name`, else the combined values. */
  function Lookup(hs: seq<Header>, name: string): Option<string> {
    var vs := Values(hs, name);
    if vs == [] then None else Some(Combine(vs))
  }

  /** The list after `headers.delete(name)`. */
  function Without(hs: seq<Header>, name: string): (r: seq<Header>)
    ensures forall e :: e in r ==> e in hs && !Matches(e, name)
    ensures forall e :: e in hs && !Matches(e, name) ==> e in r
  {
    if hs == [] then []
    else if Matches(hs[0], name) then Without(hs[1..], name)
    else [hs[0]] + Without(hs[1..], name)
  }

  /**
   * The list after `headers.set(name, v)` with an already normalised `v`: the
   * first entry called `name` keeps its place and its spelling and takes the
   * value `v`, later ones are dropped; with no such entry, one is appended.
   */
  function WithValue(hs: seq<Header>, name: string, v: string): seq<Header> {
    if hs == [] then [Header(name, v)]
    else if Matches(hs[0], name) then [Header(hs[0].name, v)] + Without(hs[1..], name)
    else [hs[0]] + WithValue(hs[1..], name, v)
  }

  /** The entries that match none of `names`, in order. */
  function Except(hs: seq<Header>, names: seq<string>): seq<Header> {
    if hs == [] then []
    else if MatchesAny(hs[0], names) then Except(hs[1..], names)
    else [hs[0]] + Except(hs[1..], names)
  }

  predicate MatchesAny(h: Header, names: seq<string>) {
    exists k :: 0 <= k < |names| && Matches(h, names[k])
  }

  /** HTTP whitespace of the Fetch Standard: tab, line feed, carriage return and space. */
  predicate IsHttpWhitespace(c: char) {
    c == '\t' || c == '\n' || c == '\r' || c == ' '
  }

  /** Drops the leading HTTP whitespace. */
  function TrimStart(s: string): (r: string)
    ensures |r| <= |s| && r == s[|s| - |r|..]
    ensures forall i :: 0 <= i < |s| - |r| ==> IsHttpWhitespace(s[i])
    ensures r == [] || !IsHttpWhitespace(r[0])
  {
    if s != [] && IsHttpWhitespace(s[0]) then TrimStart(s[1..]) else s
  }

  /** Drops the trailing HTTP whitespace. */
  function TrimEnd(s: string): (r: string)
    ensures |r| <= |s| && r == s[..|r|]
    ensures forall i :: |r| <= i < |s| ==> IsHttpWhitespace(s[i])
    ensures r == [] || !IsHttpWhitespace(r[|r| - 1])
  {
    if s != [] && IsHttpWhitespace(s[|s| - 1]) then TrimEnd(s[..|s| - 1]) else s
  }

  /** The value normalisation that `set` applies: strip HTTP whitespace at both ends. */
  function Normalize(v: string): string {
    TrimEnd(TrimStart(v))
  }

  /** A value with no HTTP whitespace at either end is stored unchanged. */
  lemma NormalizeKeeps(v: string)
    requires v == [] || (!IsHttpWhitespace(v[0]) && !IsHttpWhitespace(v[|v| - 1]))
    ensures Normalize(v) == v
  {
  }

  /** Normalisation strips exactly the surrounding whitespace, so normalising twice changes nothing. */
  lemma NormalizeIdempotent(v: string)
    ensures Normalize(Normalize(v)) == Normalize(v)
    ensures Normalize(v) == [] || (!IsHttpWhitespace(Normalize(v)[0]) && !IsHttpWhitespace(Normalize(v)[|Normalize(v)| - 1]))
  {
    var t := TrimStart(v);
    var r := TrimEnd(t);
    if r != [] {
      assert r[0] == t[0];
    }
    NormalizeKeeps(r);
  }

  /** A mutable header list: the `Headers` object the worker builds and changes. */
  class Headers {
    var entries: seq<Header>

    /** `new Headers(init)` for an init that is already a header list: a copy. */
    constructor (init: seq<Header>)
      ensures entries == init
    {
      entries := init;
    }

    /** `headers.get(name)`. */
    function Get(name: string): Option<string>
      reads this
    {
      Lookup(entries, name)
    }

    /** `headers.set(name, value)`. */
    method Set(name: string, value: string)
      modifies this
      ensures entries == WithValue(old(entries), name, Normalize(value))
    {
      entries := WithValue(entries, name, Normalize(value));
    }

    /** `headers.delete(name)`. */
    method Delete(name: string)
      modifies this
      ensures entries == Without(old(entries), name)
    {
      entries := Without(entries, name);
    }
  }

  // Unfolding helpers for lists built from a first entry and the rest.

  lemma ValuesCons(h: Header, rest: seq<Header>, name: string)
    ensures Values([h] + rest, name) == (if Matches(h, name) then [h.value] else []) + Values(rest, name)
  {
    assert ([h] + rest)[1..] == rest;
  }

  lemma WithoutCons(h: Header, rest: seq<Header>, name: string)
    ensures Without([h] + rest, name) == if Matches(h, name) then Without(rest, name) else [h] + Without(rest, name)
  {
    assert ([h] + rest)[1..] == rest;
  }

  lemma ExceptCons(h: Header, rest: seq<Header>, names: seq<string>)
    ensures Except([h] + rest, names) == if MatchesAny(h, names) then Except(rest, names) else [h] + Except(rest, names)
  {
    assert ([h] + rest)[1..] == rest;
  }

  /** `get` finds a value exactly when some entry has the name. */
  lemma {:induction false} LookupPresent(hs: seq<Header>, name: string)
    ensures Lookup(hs, name).Some? <==> exists k :: 0 <= k < |hs| && Matches(hs[k], name)
  {
    if hs != [] {
      LookupPresent(hs[1..], name);
      if !Matches(hs[0], name) {
        assert forall k :: 1 <= k < |hs| ==> hs[k] == hs[1..][k - 1];
      }
    }
  }

  /** After `delete(n)`, no entry answers to `n`; every other name keeps its values. */
  lemma {:induction false} ValuesWithout(hs: seq<Header>, n: string, m: string)
    ensures Values(Without(hs, n), m) == if NameEq(n, m) then [] else Values(hs, m)
  {
    if hs != [] {
      var h, rest := hs[0], hs[1..];
      assert hs == [h] + rest;
      ValuesWithout(rest, n, m);
      WithoutCons(h, rest, n);
      ValuesCons(h, rest, m);
      if !Matches(h, n) {
        ValuesCons(h, Without(rest, n), m);
      }
    }
  }

  /** After `set(n, v)`, `n` has the single value `v`; every other name keeps its values. */
  lemma {:induction false} ValuesWithValue(hs: seq<Header>, n: string, v: string, m: string)
    ensures Values(WithValue(hs, n, v), m) == if NameEq(n, m) then [v] else Values(hs, m)
  {
    if hs == [] {
      assert Values([Header(n, v)], m) == (if Matches(Header(n, v), m) then [v] else []) + Values([], m) by {
        ValuesCons(Header(n, v), [], m);
      }
    } else if Matches(hs[0], n) {
      ValuesCons(Header(hs[0].name, v), Without(hs[1..], n), m);
      ValuesWithout(hs[1..], n, m);
    } else {
      ValuesCons(hs[0], WithValue(hs[1..], n, v), m);
      ValuesWithValue(hs[1..], n, v, m);
    }
  }

  /** `get` after `delete`. */
  lemma LookupAfterDelete(hs: seq<Header>, n: string, m: string)
    ensures Lookup(Without(hs, n), m) == if NameEq(n, m) then None else Lookup(hs, m)
  {
    ValuesWithout(hs, n, m);
  }

  /** `get` after `set`. */
  lemma LookupAfterSet(hs: seq<Header>, n: string, v: string, m: string)
    ensures Lookup(WithValue(hs, n, v), m) == if NameEq(n, m) then Some(v) else Lookup(hs, m)
  {
    ValuesWithValue(hs, n, v, m);
  }

  /** Deleting twice is deleting once. */
  lemma {:induction false} WithoutIdempotent(hs: seq<Header>, n: string)
    ensures Without(Without(hs, n), n) == Without(hs, n)
  {
    if hs != [] {
      WithoutIdempotent(hs[1..], n);
      if !Matches(hs[0], n) {
        WithoutCons(hs[0], Without(hs[1..], n), n);
      }
    }
  }

  /** `set` touches only the entries called `n`: deleting `n` afterwards undoes it. */
  lemma {:induction false} WithoutWithValue(hs: seq<Header>, n: string, v: string)
    ensures Without(WithValue(hs, n, v), n) == Without(hs, n)
  {
    if hs == [] {
      WithoutCons(Header(n, v), [], n);
    } else if Matches(hs[0], n) {
      WithoutCons(Header(hs[0].name, v), Without(hs[1..], n), n);
      WithoutIdempotent(hs[1..], n);
    } else {
      WithoutCons(hs[0], WithValue(hs[1..], n, v), n);
      WithoutWithValue(hs[1..], n, v);
    }
  }

  /** Setting the same name to the same value twice is setting it once. */
  lemma {:induction false} WithValueIdempotent(hs: seq<Header>, n: string, v: string)
    ensures WithValue(WithValue(hs, n, v), n, v) == WithValue(hs, n, v)
  {
    if hs == [] {
      assert WithValue([Header(n, v)], n, v) == [Header(n, v)] + Without([], n);
    } else if Matches(hs[0], n) {
      var once := [Header(hs[0].name, v)] + Without(hs[1..], n);
      assert once[0] == Header(hs[0].name, v) && once[1..] == Without(hs[1..], n);
      WithoutIdempotent(hs[1..], n);
    } else {
      var once := [hs[0]] + WithValue(hs[1..], n, v);
      assert once[0] == hs[0] && once[1..] == WithValue(hs[1..], n, v);
      WithValueIdempotent(hs[1..], n, v);
    }
  }

  /** Deleting one of `names` leaves the entries matching none of them as they were. */
  lemma {:induction false} ExceptWithout(hs: seq<Header>, n: string, names: seq<string>)
    requires n in names
    ensures Except(Without(hs, n), names) == Except(hs, names)
  {
    if hs != [] {
      ExceptWithout(hs[1..], n, names);
      if Matches(hs[0], n) {
        var k :| 0 <= k < |names| && names[k] == n;
        assert Matches(hs[0], names[k]);
      } else {
        ExceptCons(hs[0], Without(hs[1..], n), names);
      }
    }
  }

  /** Setting one of `names` leaves the entries matching none of them as they were. */
  lemma {:induction false} ExceptWithValue(hs: seq<Header>, n: string, v: string, names: seq<string>)
    requires n in names
    ensures Except(WithValue(hs, n, v), names) == Except(hs, names)
  {
    var k :| 0 <= k < |names| && names[k] == n;
    if hs == [] {
      assert Matches(Header(n, v), names[k]);
      ExceptCons(Header(n, v), [], names);
    } else if Matches(hs[0], n) {
      assert Matches(Header(hs[0].name, v), names[k]);
      assert Matches(hs[0], names[k]);
      ExceptCons(Header(hs[0].name, v), Without(hs[1..], n), names);
      ExceptWithout(hs[1..], n, names);
    } else {
      ExceptCons(hs[0], WithValue(hs[1..], n, v), names);
      ExceptWithValue(hs[1..], n, v, names);
    }
  }

  /** A name different from all of `names` sees the same values in the list and in its `Except` part. */
  lemma {:induction false} ValuesExcept(hs: seq<Header>, m: string, names: seq<string>)
    requires forall k :: 0 <= k < |names| ==> !NameEq(m, names[k])
    ensures Values(Except(hs, names), m) == Values(hs, m)
  {
    if hs != [] {
      ValuesExcept(hs[1..], m, names);
      if MatchesAny(hs[0], names) {
        var k :| 0 <= k < |names| && Matches(hs[0], names[k]);
        assert !Matches(hs[0], m);
      } else {
        ValuesCons(hs[0], Except(hs[1..], names), m);
      }
    }
  }
}
