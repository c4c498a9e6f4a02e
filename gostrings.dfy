/**
 * The two functions of Go's `strings` package that the authentication core
 * relies on, for a non-empty separator: `strings.Split` and
 * `strings.Replace(s, old, new, -1)`. Both scan left to right and use the
 * leftmost non-overlapping occurrences of the separator.
 */
module GoStrings {

  /** `sep` occurs in `s` starting at index `i`. */
  predicate OccursAt<T(==)>(s: seq<T>, sep: seq<T>, i: int) {
    0 <= i && i + |sep| <= |s| && s[i..i + |sep|] == sep
  }

  /** `sep` occurs nowhere in `s`. */
  ghost predicate Free<T>(s: seq<T>, sep: seq<T>) {
    forall i :: !OccursAt(s, sep, i)
  }

  /** `strings.Split(s, sep)`: the pieces of `s` between the occurrences of `sep`. */
  function Split<T(==)>(s: seq<T>, sep: seq<T>): (r: seq<seq<T>>)
    requires |sep| > 0
    ensures |r| >= 1
    decreases |s|
  {
    if |s| < |sep| then [s]
    else if s[..|sep|] == sep then [[]] + Split(s[|sep|..], sep)
    else
      var t := Split(s[1..], sep);
      [[s[0]] + t[0]] + t[1..]
  }

  /**
   * The fields glued together with `sep` between them: the inverse of Split,
   * used to state what Split returns and how records are written. Every
   * split has at least one piece, so only non-empty field lists are joined.
   */
  function Join<T>(fields: seq<seq<T>>, sep: seq<T>): (r: seq<T>)
    requires |fields| >= 1
    ensures fields[0] <= r
    decreases |fields|
  {
    if |fields| == 1 then fields[0] else fields[0] + sep + Join(fields[1..], sep)
  }

  /** `strings.Replace(s, old, new, -1)`, written here with `pattern` for `old` and `replacement` for `new`: every occurrence of the pattern replaced. */
  function ReplaceAll<T(==)>(s: seq<T>, pattern: seq<T>, replacement: seq<T>): (r: seq<T>)
    requires |pattern| > 0
    ensures Free(s, pattern) ==> r == s
    decreases |s|
  {
    if |s| < |pattern| then s
    else if s[..|pattern|] == pattern then
      assert OccursAt(s, pattern, 0);
      replacement + ReplaceAll(s[|pattern|..], pattern, replacement)
    else
      FreeTail(s, pattern);
      [s[0]] + ReplaceAll(s[1..], pattern, replacement)
  }

  /** A string free of `sep` stays free of it without its first element. */
  lemma FreeTail<T>(s: seq<T>, sep: seq<T>)
    requires |s| > 0
    ensures Free(s, sep) ==> Free(s[1..], sep)
  {
    if Free(s, sep) {
      forall i ensures !OccursAt(s[1..], sep, i) {
        if i >= 0 {
          OccursAtTail(s, sep, i);
        }
      }
    }
  }

  lemma OccursAtTail<T>(s: seq<T>, sep: seq<T>, i: int)
    requires |s| > 0 && 0 <= i
    ensures OccursAt(s[1..], sep, i) <==> OccursAt(s, sep, i + 1)
  {
    if 0 <= i && i + 1 + |sep| <= |s| {
      assert s[1..][i..i + |sep|] == s[i + 1..i + 1 + |sep|];
    }
  }

  /** Splitting and joining again gives back the input. */
  lemma {:induction false} JoinSplit<T>(s: seq<T>, sep: seq<T>)
    requires |sep| > 0
    ensures Join(Split(s, sep), sep) == s
    decreases |s|
  {
    if |s| < |sep| {
    } else if s[..|sep|] == sep {
      var t := Split(s[|sep|..], sep);
      JoinSplit(s[|sep|..], sep);
      assert ([[]] + t)[1..] == t;
      assert Join([[]] + t, sep) == [] + sep + Join(t, sep);
      assert s == s[..|sep|] + s[|sep|..];
    } else {
      var t := Split(s[1..], sep);
      JoinSplit(s[1..], sep);
      JoinConsHead(s[0], t, sep);
      assert s == [s[0]] + s[1..];
    }
  }

  lemma JoinConsHead<T>(x: T, t: seq<seq<T>>, sep: seq<T>)
    requires |t| >= 1
    ensures Join([[x] + t[0]] + t[1..], sep) == [x] + Join(t, sep)
  {
    var u := [[x] + t[0]] + t[1..];
    if |t| > 1 {
      assert u[1..] == t[1..];
    }
  }

  /** The first piece of a Split is a prefix of the input. */
  lemma {:induction false} SplitHeadIsPrefix<T>(s: seq<T>, sep: seq<T>)
    requires |sep| > 0
    ensures |Split(s, sep)[0]| <= |s| && s[..|Split(s, sep)[0]|] == Split(s, sep)[0]
    decreases |s|
  {
    if |s| < |sep| {
    } else if s[..|sep|] == sep {
    } else {
      SplitHeadIsPrefix(s[1..], sep);
      var t0 := Split(s[1..], sep)[0];
      assert s[..|t0| + 1] == [s[0]] + s[1..][..|t0|];
    }
  }

  /** No piece of a Split contains the separator. */
  lemma {:induction false} SplitFieldsFree<T>(s: seq<T>, sep: seq<T>)
    requires |sep| > 0
    ensures forall k :: 0 <= k < |Split(s, sep)| ==> Free(Split(s, sep)[k], sep)
    decreases |s|
  {
    var r := Split(s, sep);
    if |s| < |sep| {
      assert r == [s];
    } else if s[..|sep|] == sep {
      SplitFieldsFree(s[|sep|..], sep);
      assert r[1..] == Split(s[|sep|..], sep);
      forall k | 0 <= k < |r| ensures Free(r[k], sep) {
        if k == 0 {
          assert r[0] == [];
        } else {
          assert r[k] == Split(s[|sep|..], sep)[k - 1];
        }
      }
    } else {
      var t := Split(s[1..], sep);
      SplitFieldsFree(s[1..], sep);
      SplitHeadIsPrefix(s[1..], sep);
      var f := [s[0]] + t[0];
      assert r == [f] + t[1..];
      assert s[..|f|] == f;
      forall i ensures !OccursAt(f, sep, i) {
        if i == 0 && |sep| <= |f| {
          assert f[..|sep|] == s[..|sep|];
        } else if 0 < i && i + |sep| <= |f| {
          assert f[i..i + |sep|] == t[0][i - 1..i - 1 + |sep|];
          assert !OccursAt(t[0], sep, i - 1);
        }
      }
      forall k | 0 <= k < |r| ensures Free(r[k], sep) {
        if k > 0 {
          assert r[k] == t[k];
        }
      }
    }
  }

  /** Split with a separator that does not occur gives the input as the only piece. */
  lemma {:induction false} SplitFree<T>(s: seq<T>, sep: seq<T>)
    requires |sep| > 0 && Free(s, sep)
    ensures Split(s, sep) == [s]
    decreases |s|
  {
    if |s| >= |sep| {
      assert !OccursAt(s, sep, 0);
      forall i ensures !OccursAt(s[1..], sep, i) {
        if i >= 0 {
          OccursAtTail(s, sep, i);
        }
      }
      SplitFree(s[1..], sep);
      assert [s[0]] + s[1..] == s;
    }
  }

  /**
   * Split cuts at the leftmost occurrence of the separator: the first piece
   * is everything before it, the rest is the Split of everything after it.
   */
  lemma {:induction false} SplitAtLeftmost<T>(s: seq<T>, sep: seq<T>, i: nat)
    requires |sep| > 0 && OccursAt(s, sep, i)
    requires forall j :: 0 <= j < i ==> !OccursAt(s, sep, j)
    ensures Split(s, sep) == [s[..i]] + Split(s[i + |sep|..], sep)
    decreases |s|
  {
    if i == 0 {
    } else {
      assert !OccursAt(s, sep, 0);
      OccursAtTail(s, sep, i - 1);
      forall j | 0 <= j < i - 1 ensures !OccursAt(s[1..], sep, j) {
        OccursAtTail(s, sep, j);
      }
      SplitAtLeftmost(s[1..], sep, i - 1);
      assert s[1..][i - 1 + |sep|..] == s[i + |sep|..];
      assert [s[0]] + s[1..][..i - 1] == s[..i];
    }
  }

  /** With a one-element separator, Split inverts Join of pieces free of it. */
  lemma {:induction false} SplitJoin<T>(fields: seq<seq<T>>, c: T)
    requires |fields| >= 1
    requires forall k :: 0 <= k < |fields| ==> c !in fields[k]
    ensures Split(Join(fields, [c]), [c]) == fields
    decreases |fields|
  {
    var s := Join(fields, [c]);
    if |fields| == 1 {
      forall i ensures !OccursAt(s, [c], i) {
        if 0 <= i < |s| {
          assert s[i..i + 1] == [fields[0][i]];
        }
      }
      SplitFree(s, [c]);
    } else {
      var f := fields[0];
      var rest := Join(fields[1..], [c]);
      assert s == f + [c] + rest;
      assert OccursAt(s, [c], |f|) by {
        assert s[|f|..|f| + 1] == [c];
      }
      forall j | 0 <= j < |f| ensures !OccursAt(s, [c], j) {
        assert s[j..j + 1] == [f[j]];
      }
      SplitAtLeftmost(s, [c], |f|);
      assert s[..|f|] == f;
      assert s[|f| + 1..] == rest;
      SplitJoin(fields[1..], c);
      assert fields == [f] + fields[1..];
    }
  }

  /** For a one-element separator, a piece is free of it iff the element is absent. */
  lemma FreeSingle<T>(s: seq<T>, c: T)
    ensures Free(s, [c]) <==> c !in s
  {
    if c in s {
      var i :| 0 <= i < |s| && s[i] == c;
      assert OccursAt(s, [c], i) by { assert s[i..i + 1] == [c]; }
    } else {
      forall i ensures !OccursAt(s, [c], i) {
        if 0 <= i < |s| {
          assert s[i..i + 1] == [s[i]];
        }
      }
    }
  }

  /**
   * With a one-element separator: no piece contains it, and there are at
   * least two pieces exactly when it occurs.
   */
  lemma SplitSingle<T>(s: seq<T>, c: T)
    ensures forall k :: 0 <= k < |Split(s, [c])| ==> c !in Split(s, [c])[k]
    ensures |Split(s, [c])| >= 2 <==> c in s
  {
    var r := Split(s, [c]);
    SplitFieldsFree(s, [c]);
    forall k | 0 <= k < |r| ensures c !in r[k] {
      FreeSingle(r[k], c);
    }
    FreeSingle(s, c);
    if c !in s {
      SplitFree(s, [c]);
    } else {
      JoinSplit(s, [c]);
    }
  }

  /**
   * Replacing every occurrence of `pattern` is joining the pieces between them
   * with `replacement`: the leftmost, non-overlapping occurrences are the ones replaced.
   */
  lemma {:induction false} ReplaceAllIsJoinSplit<T>(s: seq<T>, pattern: seq<T>, replacement: seq<T>)
    requires |pattern| > 0
    ensures ReplaceAll(s, pattern, replacement) == Join(Split(s, pattern), replacement)
    decreases |s|
  {
    if |s| < |pattern| {
    } else if s[..|pattern|] == pattern {
      ReplaceAllIsJoinSplit(s[|pattern|..], pattern, replacement);
      assert ([[]] + Split(s[|pattern|..], pattern))[1..] == Split(s[|pattern|..], pattern);
    } else {
      ReplaceAllIsJoinSplit(s[1..], pattern, replacement);
      JoinConsHead(s[0], Split(s[1..], pattern), replacement);
    }
  }
}
