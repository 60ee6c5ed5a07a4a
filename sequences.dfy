/** Order-preserving operations on row sequences: pandas' `drop_duplicates()`
    (keep the first of equal rows) and boolean-mask filtering. */
module Sequences {

  predicate NoDuplicates<T(==)>(s: seq<T>) {
    forall i, j :: 0 <= i < j < |s| ==> s[i] != s[j]
  }

  /** s can be obtained from t by deleting elements: the original order is kept. */
  predicate IsSubsequence<T(==)>(s: seq<T>, t: seq<T>)
    decreases |t|
  {
    if s == [] then true
    else if t == [] then false
    else if s[0] == t[0] then IsSubsequence(s[1..], t[1..])
    else IsSubsequence(s, t[1..])
  }

  /** Scanning left to right, keep an element unless an equal one was kept
      before (or is in `seen`). */
  function DropDuplicatesFrom<T(==)>(s: seq<T>, seen: set<T>): (r: seq<T>)
    decreases |s|
  {
    if s == [] then []
    else if s[0] in seen then DropDuplicatesFrom(s[1..], seen)
    else [s[0]] + DropDuplicatesFrom(s[1..], seen + {s[0]})
  }

  /** `drop_duplicates()` with the default `keep='first'`. */
  function DropDuplicates<T(==)>(s: seq<T>): seq<T>
  {
    DropDuplicatesFrom(s, {})
  }

  lemma {:induction false} DropDuplicatesFromSpec<T>(s: seq<T>, seen: set<T>)
    ensures forall x :: x in DropDuplicatesFrom(s, seen) <==> x in s && x !in seen
    ensures NoDuplicates(DropDuplicatesFrom(s, seen))
    ensures IsSubsequence(DropDuplicatesFrom(s, seen), s)
    decreases |s|
  {
    if s != [] {
      var r := DropDuplicatesFrom(s, seen);
      if s[0] in seen {
        DropDuplicatesFromSpec(s[1..], seen);
        SubsequenceSkip(r, s);
      } else {
        var rest := DropDuplicatesFrom(s[1..], seen + {s[0]});
        DropDuplicatesFromSpec(s[1..], seen + {s[0]});
        assert r == [s[0]] + rest;
        assert r[1..] == rest;
        forall i, j | 0 <= i < j < |r| ensures r[i] != r[j] {
          if i == 0 { assert r[j] == rest[j - 1]; } else { assert r[i] == rest[i - 1] && r[j] == rest[j - 1]; }
        }
        forall x ensures x in r <==> x in s && x !in seen {
          assert x in s <==> x == s[0] || x in s[1..];
        }
      }
    }
  }

  /** Deleting a first element of t keeps every subsequence of the rest one of t. */
  lemma SubsequenceSkip<T>(s: seq<T>, t: seq<T>)
    requires t != [] && IsSubsequence(s, t[1..])
    ensures IsSubsequence(s, t)
    decreases |t|, |s|
  {
    if s != [] && s[0] == t[0] {
      if |t| > 1 {
        SubsequenceTail(s, t[1..]);
      } else {
        assert false;
      }
    }
  }

  /** Dropping the head of a subsequence keeps it a subsequence. */
  lemma {:induction false} SubsequenceTail<T>(s: seq<T>, t: seq<T>)
    requires s != [] && IsSubsequence(s, t)
    ensures IsSubsequence(s[1..], t)
    decreases |t|, |s|
  {
    if s[0] == t[0] {
      SubsequenceSkip(s[1..], t);
    } else {
      SubsequenceTail(s, t[1..]);
      SubsequenceSkip(s[1..], t);
    }
  }

  /** The rows kept by `drop_duplicates()`: no two equal, every input row
      equal to one of them, and in their original order. */
  lemma DropDuplicatesSpec<T>(s: seq<T>)
    ensures NoDuplicates(DropDuplicates(s))
    ensures forall x :: x in DropDuplicates(s) <==> x in s
    ensures IsSubsequence(DropDuplicates(s), s)
  {
    DropDuplicatesFromSpec(s, {});
  }

  /** A sequence without duplicates is kept whole. */
  lemma {:induction false} DropDuplicatesFromDistinct<T>(s: seq<T>, seen: set<T>)
    requires NoDuplicates(s)
    requires forall x :: x in s ==> x !in seen
    ensures DropDuplicatesFrom(s, seen) == s
    decreases |s|
  {
    if s != [] {
      DropDuplicatesFromDistinct(s[1..], seen + {s[0]});
    }
  }

  /** Deduplicating twice gives the same rows as once. */
  lemma DropDuplicatesIdempotent<T>(s: seq<T>)
    ensures DropDuplicates(DropDuplicates(s)) == DropDuplicates(s)
  {
    DropDuplicatesSpec(s);
    DropDuplicatesFromDistinct(DropDuplicates(s), {});
  }

  /** Adding a row at the end: a repeat is dropped, a new row is kept last.
      So the result lists each distinct row at the place of its first occurrence. */
  lemma {:induction false} DropDuplicatesFromSnoc<T>(s: seq<T>, x: T, seen: set<T>)
    ensures DropDuplicatesFrom(s + [x], seen) ==
      if x in s || x in seen then DropDuplicatesFrom(s, seen) else DropDuplicatesFrom(s, seen) + [x]
    decreases |s|
  {
    if s == [] {
      assert [x][1..] == [];
    } else {
      assert (s + [x])[1..] == s[1..] + [x];
      if s[0] in seen {
        DropDuplicatesFromSnoc(s[1..], x, seen);
      } else {
        DropDuplicatesFromSnoc(s[1..], x, seen + {s[0]});
      }
    }
  }

  lemma DropDuplicatesSnoc<T>(s: seq<T>, x: T)
    ensures DropDuplicates(s + [x]) == if x in s then DropDuplicates(s) else DropDuplicates(s) + [x]
  {
    DropDuplicatesFromSnoc(s, x, {});
  }

  /** The elements of s for which p holds, in order (a boolean-mask selection). */
  function Filter<T(==)>(s: seq<T>, p: T -> bool): (r: seq<T>)
    ensures |r| <= |s|
    ensures forall i :: 0 <= i < |r| ==> r[i] in s && p(r[i])
    ensures forall i :: 0 <= i < |s| && p(s[i]) ==> s[i] in r
    decreases |s|
  {
    if s == [] then []
    else if p(s[0]) then [s[0]] + Filter(s[1..], p)
    else Filter(s[1..], p)
  }

  /** Filtering one more element appends it exactly when it passes. */
  lemma {:induction false} FilterSnoc<T>(s: seq<T>, x: T, p: T -> bool)
    ensures Filter(s + [x], p) == Filter(s, p) + if p(x) then [x] else []
    decreases |s|
  {
    if s == [] {
      assert s + [x] == [x];
      assert [x][1..] == [];
    } else {
      assert (s + [x])[0] == s[0];
      assert (s + [x])[1..] == s[1..] + [x];
      FilterSnoc(s[1..], x, p);
    }
  }

  /** A filtered sequence is a subsequence of the original. */
  lemma {:induction false} FilterSubsequence<T>(s: seq<T>, p: T -> bool)
    ensures IsSubsequence(Filter(s, p), s)
    decreases |s|
  {
    if s != [] {
      FilterSubsequence(s[1..], p);
      if !p(s[0]) {
        SubsequenceSkip(Filter(s, p), s);
      }
    }
  }

  /** Filtering a sequence without duplicates leaves none. */
  lemma {:induction false} FilterNoDuplicates<T>(s: seq<T>, p: T -> bool)
    requires NoDuplicates(s)
    ensures NoDuplicates(Filter(s, p))
    decreases |s|
  {
    if s != [] {
      assert NoDuplicates(s[1..]) by {
        forall i, j | 0 <= i < j < |s[1..]| ensures s[1..][i] != s[1..][j] {
          assert s[1..][i] == s[i + 1] && s[1..][j] == s[j + 1];
        }
      }
      FilterNoDuplicates(s[1..], p);
      if p(s[0]) {
        var r := Filter(s, p);
        var rest := Filter(s[1..], p);
        assert r == [s[0]] + rest;
        assert s[0] !in s[1..] by {
          forall k | 0 <= k < |s[1..]| ensures s[1..][k] != s[0] { assert s[1..][k] == s[k + 1]; }
        }
        forall i, j | 0 <= i < j < |r| ensures r[i] != r[j] {
          assert r[j] == rest[j - 1] && r[j] in s[1..];
          if i > 0 { assert r[i] == rest[i - 1]; }
        }
      }
    }
  }

  /** A subsequence of a subsequence is a subsequence. */
  lemma {:induction false} SubsequenceTrans<T>(a: seq<T>, b: seq<T>, c: seq<T>)
    requires IsSubsequence(a, b) && IsSubsequence(b, c)
    ensures IsSubsequence(a, c)
    decreases |c|
  {
    if a != [] {
      assert b != [] && c != [];
      if b[0] == c[0] {
        if a[0] == b[0] {
          SubsequenceTrans(a[1..], b[1..], c[1..]);
        } else {
          SubsequenceTrans(a, b[1..], c[1..]);
          SubsequenceSkip(a, c);
        }
      } else {
        SubsequenceTrans(a, b, c[1..]);
        SubsequenceSkip(a, c);
      }
    }
  }

  /** An element is kept exactly when it occurs in s and satisfies p. */
  lemma FilterMembers<T>(s: seq<T>, p: T -> bool)
    ensures forall x :: x in Filter(s, p) <==> x in s && p(x)
  {
    var r := Filter(s, p);
    forall x | x in r ensures x in s && p(x) {
      var i :| 0 <= i < |r| && r[i] == x;
    }
  }

  /** Every sequence is a subsequence of itself. */
  lemma {:induction false} SubsequenceRefl<T>(s: seq<T>)
    ensures IsSubsequence(s, s)
    decreases |s|
  {
    if s != [] {
      SubsequenceRefl(s[1..]);
    }
  }
}
