/** Wrapper types shared by the other modules. */
module Wrappers {
  /** A value that may be absent: JavaScript's `undefined`/`null` versus a present value. */
  datatype Option<+T> = None | Some(value: T)
}

/**
 * The two string operations of JavaScript that the worker relies on:
 * `String.prototype.split` with a one-character separator and
 * `String.prototype.startsWith`. `split` is tied by lemmas to an
 * index-based reference definition; `startsWith` is proved equal to the
 * sequence-prefix relation `<=`.
 */
module Segments {
  import opened Wrappers

  /** `s.split(sep)` for a one-character separator: the maximal runs between separators, in order. */
  function Split(s: string, sep: char): (parts: seq<string>)
    ensures |parts| >= 1
    ensures forall k :: 0 <= k < |parts| ==> sep !in parts[k]
  {
    if s == [] then [""]
    else
      var rest := Split(s[1..], sep);
      if s[0] == sep then [""] + rest
      else [[s[0]] + rest[0]] + rest[1..]
  }

  /** `parts.join(sep)`: the inverse of Split. */
  function Join(parts: seq<string>, sep: char): string
    requires |parts| >= 1
  {
    if |parts| == 1 then parts[0] else parts[0] + [sep] + Join(parts[1..], sep)
  }

  /** `s.indexOf(c, from)`, with the length of `s` standing for "not found". */
  function IndexFrom(s: string, c: char, from: nat): (i: nat)
    requires from <= |s|
    ensures from <= i <= |s|
    ensures i < |s| ==> s[i] == c
    decreases |s| - from
  {
    if from == |s| then from else if s[from] == c then from else IndexFrom(s, c, from + 1)
  }

  /** `s.indexOf(c)`. */
  function IndexOf(s: string, c: char): nat {
    IndexFrom(s, c, 0)
  }

  /** Nothing between `from` and `s.indexOf(c, from)` is a `c`. */
  lemma {:induction false} IndexFromFirst(s: string, c: char, from: nat, k: nat)
    requires from <= |s| && from <= k < IndexFrom(s, c, from)
    ensures s[k] != c
    decreases |s| - from
  {
    if k > from {
      IndexFromFirst(s, c, from + 1, k);
    }
  }

  /** Searching `s` from `n + m` is searching `s[n..]` from `m`, shifted by `n`. */
  lemma {:induction false} IndexFromDrop(s: string, c: char, n: nat, m: nat)
    requires n + m <= |s|
    ensures IndexFrom(s, c, n + m) == n + IndexFrom(s[n..], c, m)
    decreases |s| - (n + m)
  {
    if n + m < |s| && s[n + m] != c {
      assert s[n..][m] == s[n + m];
      IndexFromDrop(s, c, n, m + 1);
    }
  }

  /** The text of `s` before the first `c` (all of `s` when there is none). */
  function Until(s: string, c: char): string {
    s[..IndexOf(s, c)]
  }

  /** `s.startsWith(prefix)`: a character-by-character comparison from the start. */
  function StartsWith(s: string, prefix: string): bool {
    if prefix == [] then true
    else s != [] && s[0] == prefix[0] && StartsWith(s[1..], prefix[1..])
  }

  /** startsWith is exactly the prefix relation on sequences. */
  lemma {:induction false} StartsWithIsPrefix(s: string, prefix: string)
    ensures StartsWith(s, prefix) <==> prefix <= s
  {
    if prefix != [] && s != [] {
      StartsWithIsPrefix(s[1..], prefix[1..]);
      assert prefix <= s <==> s[0] == prefix[0] && prefix[1..] <= s[1..];
    }
  }

  /** The first segment of a split is the text before the first separator. */
  lemma {:induction false} SplitHead(s: string, sep: char)
    ensures Split(s, sep)[0] == Until(s, sep)
  {
    if s != [] && s[0] != sep {
      SplitHead(s[1..], sep);
      IndexFromDrop(s, sep, 1, 0);
    }
  }

  /**
   * A split has a second segment exactly when the separator occurs, and the
   * remaining segments are the split of what follows the first separator.
   */
  lemma {:induction false} SplitTail(s: string, sep: char)
    ensures |Split(s, sep)| >= 2 <==> IndexOf(s, sep) < |s|
    ensures IndexOf(s, sep) < |s| ==> Split(s, sep)[1..] == Split(s[IndexOf(s, sep) + 1..], sep)
  {
    if s != [] && s[0] != sep {
      SplitTail(s[1..], sep);
      IndexFromDrop(s, sep, 1, 0);
      if IndexOf(s, sep) < |s| {
        assert s[1..][IndexOf(s[1..], sep) + 1..] == s[IndexOf(s, sep) + 1..];
      }
    }
  }

  /** The second segment of `s.split(sep)`, by indices: from just after the first separator up to the next one. */
  function SecondSegment(s: string, sep: char): Option<string> {
    var i := IndexOf(s, sep);
    if i == |s| then None else Some(s[i + 1..IndexFrom(s, sep, i + 1)])
  }

  /** `s.split(sep)[1]` is the second segment found by indices, and is undefined exactly when `sep` is absent. */
  lemma SplitSecond(s: string, sep: char)
    ensures SecondSegment(s, sep) == if |Split(s, sep)| >= 2 then Some(Split(s, sep)[1]) else None
  {
    SplitTail(s, sep);
    var i := IndexOf(s, sep);
    if i < |s| {
      SecondOfTail(s, sep, i);
      assert SecondSegment(s, sep) == Some(s[i + 1..IndexFrom(s, sep, i + 1)]);
    } else {
      assert SecondSegment(s, sep) == None;
      assert |Split(s, sep)| < 2;
    }
  }

  /** The segment after the separator at `i`, seen from the split of the rest. */
  lemma SecondOfTail(s: string, sep: char, i: nat)
    requires i == IndexOf(s, sep) && i < |s|
    requires Split(s, sep)[1..] == Split(s[i + 1..], sep)
    ensures |Split(s, sep)| >= 2 && Split(s, sep)[1] == s[i + 1..IndexFrom(s, sep, i + 1)]
  {
    var rest := s[i + 1..];
    var m := IndexOf(rest, sep);
    SplitHead(rest, sep);
    IndexFromDrop(s, sep, i + 1, 0);
    assert Split(s, sep)[1] == Split(rest, sep)[0] == rest[..m];
    assert rest[..m] == s[i + 1..i + 1 + m];
  }

  /** The second segment is empty exactly when the separator is last or doubled. */
  lemma SecondSegmentEmpty(s: string, sep: char)
    requires IndexOf(s, sep) < |s|
    ensures var i := IndexOf(s, sep);
            s[i + 1..IndexFrom(s, sep, i + 1)] == [] <==> !(i + 1 < |s| && s[i + 1] != sep)
  {
    var i := IndexOf(s, sep);
    var j := IndexFrom(s, sep, i + 1);
    assert |s[i + 1..j]| == j - (i + 1);
  }

  /**
   * Where a second segment sits: one separator, then the segment, which holds
   * no separator, then the end or another separator.
   */
  lemma SecondSegmentShape(s: string, sep: char, k: string)
    requires SecondSegment(s, sep) == Some(k)
    ensures IndexOf(s, sep) < |s| && s[IndexOf(s, sep)] == sep
    ensures sep !in k
    ensures var i := IndexOf(s, sep); i + 1 + |k| <= |s| && s[i + 1..i + 1 + |k|] == k
    ensures var i := IndexOf(s, sep); i + 1 + |k| == |s| || s[i + 1 + |k|] == sep
  {
    var i := IndexOf(s, sep);
    var j := IndexFrom(s, sep, i + 1);
    forall x | 0 <= x < |k| ensures k[x] != sep {
      IndexFromFirst(s, sep, i + 1, i + 1 + x);
    }
  }

  /** Joining the segments of a split gives back the string. */
  lemma {:induction false} JoinSplit(s: string, sep: char)
    ensures Join(Split(s, sep), sep) == s
  {
    if s != [] {
      JoinSplit(s[1..], sep);
      var rest := Split(s[1..], sep);
      if s[0] == sep {
        assert ([""] + rest)[1..] == rest;
      } else {
        var parts := [[s[0]] + rest[0]] + rest[1..];
        if |rest| > 1 {
          assert parts[1..] == rest[1..];
          assert Join(rest, sep) == rest[0] + [sep] + Join(rest[1..], sep);
        }
        assert s == [s[0]] + s[1..];
      }
    }
  }

  /** Splitting a join of separator-free segments gives back the segments. */
  lemma {:induction false} SplitJoin(parts: seq<string>, sep: char)
    requires |parts| >= 1
    requires forall k :: 0 <= k < |parts| ==> sep !in parts[k]
    ensures Split(Join(parts, sep), sep) == parts
  {
    if |parts| == 1 {
      SplitOfPlain(parts[0], sep);
    } else {
      SplitJoin(parts[1..], sep);
      SplitAppend(parts[0], Join(parts[1..], sep), sep);
      assert [parts[0]] + parts[1..] == parts;
    }
  }

  /** A string without the separator splits into itself. */
  lemma {:induction false} SplitOfPlain(s: string, sep: char)
    requires sep !in s
    ensures Split(s, sep) == [s]
  {
    if s != [] {
      SplitOfPlain(s[1..], sep);
      assert [s[0]] + s[1..] == s;
    }
  }

  /** Splitting `a + [sep] + b`, where `a` holds no separator, puts `a` in front of the split of `b`. */
  lemma {:induction false} SplitAppend(a: string, b: string, sep: char)
    requires sep !in a
    ensures Split(a + [sep] + b, sep) == [a] + Split(b, sep)
  {
    if a == [] {
      assert a + [sep] + b == [sep] + b;
      assert ([sep] + b)[1..] == b;
    } else {
      SplitAppend(a[1..], b, sep);
      var s := a + [sep] + b;
      assert s[0] == a[0] && s[1..] == a[1..] + [sep] + b;
      assert [a[0]] + a[1..] == a;
    }
  }
}
