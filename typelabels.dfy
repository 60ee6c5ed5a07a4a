/** Stripping the vendor prefixes from `type` values: the lambda
    `x.replace('HKQuantityTypeIdentifier', '').replace('HKCategoryTypeIdentifier', '')`. */
module TypeLabels {

  const QuantityPrefix := "HKQuantityTypeIdentifier"
  const CategoryPrefix := "HKCategoryTypeIdentifier"

  /** pat occurs in s starting at index i. */
  predicate OccursAt(s: string, pat: string, i: int) {
    0 <= i && i + |pat| <= |s| && s[i..i + |pat|] == pat
  }

  /** pat occurs somewhere in s. */
  predicate Contains(s: string, pat: string) {
    exists i :: 0 <= i <= |s| && OccursAt(s, pat, i)
  }

  /** `s.replace(pat, '')`: scanning left to right, every non-overlapping
      occurrence of pat is deleted. */
  function RemoveAll(s: string, pat: string): (r: string)
    requires |pat| > 0
    ensures |r| <= |s|
    decreases |s|
  {
    if |s| < |pat| then s
    else if s[..|pat|] == pat then RemoveAll(s[|pat|..], pat)
    else [s[0]] + RemoveAll(s[1..], pat)
  }

  /** The `type` lambda: both removals, quantity prefix first. */
  function StripTypePrefixes(t: string): (r: string)
    ensures |r| <= |t|
  {
    RemoveAll(RemoveAll(t, QuantityPrefix), CategoryPrefix)
  }

  /** Removing a pattern that does not occur changes nothing. */
  lemma {:induction false} RemoveAllAbsent(s: string, pat: string)
    requires |pat| > 0 && !Contains(s, pat)
    ensures RemoveAll(s, pat) == s
    decreases |s|
  {
    if |s| >= |pat| {
      assert s[0..0 + |pat|] == s[..|pat|];
      assert !OccursAt(s, pat, 0);
      assert !Contains(s[1..], pat) by {
        forall i | OccursAt(s[1..], pat, i) ensures OccursAt(s, pat, i + 1) {
          assert s[1..][i..i + |pat|] == s[i + 1..i + 1 + |pat|];
        }
      }
      RemoveAllAbsent(s[1..], pat);
      assert [s[0]] + s[1..] == s;
    }
  }

  /** A pattern at the front is deleted and the scan resumes after it. */
  lemma RemoveAllFront(pat: string, rest: string)
    requires |pat| > 0
    ensures RemoveAll(pat + rest, pat) == RemoveAll(rest, pat)
  {
    assert (pat + rest)[..|pat|] == pat;
    assert (pat + rest)[|pat|..] == rest;
  }

  /** A run of characters none of which can start the pattern is copied unchanged. */
  lemma {:induction false} RemoveAllSkip(a: string, b: string, pat: string)
    requires |pat| > 0
    requires forall i :: 0 <= i < |a| ==> a[i] != pat[0]
    ensures RemoveAll(a + b, pat) == a + RemoveAll(b, pat)
    decreases |a|
  {
    if a == [] {
      assert a + b == b;
    } else {
      var s := a + b;
      if |s| < |pat| {
        assert RemoveAll(b, pat) == b;
      } else {
        assert s[..|pat|][0] == a[0];
        assert s[..|pat|] != pat;
        assert s[1..] == a[1..] + b;
        RemoveAllSkip(a[1..], b, pat);
        assert [a[0]] + (a[1..] + RemoveAll(b, pat)) == a + RemoveAll(b, pat);
      }
    }
  }

  /** A string containing neither prefix is left as it is. */
  lemma StripWithoutPrefixes(t: string)
    requires !Contains(t, QuantityPrefix) && !Contains(t, CategoryPrefix)
    ensures StripTypePrefixes(t) == t
  {
    RemoveAllAbsent(t, QuantityPrefix);
    RemoveAllAbsent(t, CategoryPrefix);
  }

  /** "HKQuantityTypeIdentifierStepCount" becomes "StepCount". */
  lemma StripStepCount()
    ensures StripTypePrefixes("HKQuantityTypeIdentifierStepCount") == "StepCount"
  {
    assert "HKQuantityTypeIdentifierStepCount" == QuantityPrefix + "StepCount";
    RemoveAllFront(QuantityPrefix, "StepCount");
  }

  /** On a vendor identifier, the prefix followed by a name in which neither
      prefix occurs, stripping yields the name, and stripping again changes
      nothing. */
  lemma StripIdentifier(prefix: string, name: string)
    requires prefix == QuantityPrefix || prefix == CategoryPrefix
    requires !Contains(name, QuantityPrefix) && !Contains(name, CategoryPrefix)
    ensures StripTypePrefixes(prefix + name) == name
    ensures StripTypePrefixes(StripTypePrefixes(prefix + name)) == StripTypePrefixes(prefix + name)
  {
    StripWithoutPrefixes(name);
    RemoveAllAbsent(name, QuantityPrefix);
    RemoveAllAbsent(name, CategoryPrefix);
    if prefix == QuantityPrefix {
      RemoveAllFront(QuantityPrefix, name);
    } else {
      var s := CategoryPrefix + name;
      assert s[..|QuantityPrefix|] != QuantityPrefix by { assert s[2] != QuantityPrefix[2]; }
      assert s[1..] == CategoryPrefix[1..] + name;
      RemoveAllSkip(CategoryPrefix[1..], name, QuantityPrefix);
      assert RemoveAll(s, QuantityPrefix) == s;
      RemoveAllFront(CategoryPrefix, name);
    }
  }

  /** Stripping is not idempotent in general: deleting the inner category
      prefix brings a quantity prefix together, which a second pass deletes. */
  lemma StripNotIdempotent()
    ensures StripTypePrefixes("HKQuantityHKCategoryTypeIdentifierTypeIdentifier") == QuantityPrefix
    ensures StripTypePrefixes(QuantityPrefix) == ""
  {
    NestedSpelling();
    NestedQuantityPass();
    NestedCategoryPass();
    RemoveAllFront(QuantityPrefix, "");
    assert QuantityPrefix + "" == QuantityPrefix;
    RemoveAllEmpty(CategoryPrefix);
  }

  lemma NestedSpelling()
    ensures "HKQuantity" + CategoryPrefix + "TypeIdentifier" == "HKQuantityHKCategoryTypeIdentifierTypeIdentifier"
  {
  }

  lemma RemoveAllEmpty(pat: string)
    requires |pat| > 0
    ensures RemoveAll("", pat) == ""
  {
  }

  /** A run whose head does not start the pattern, and none of whose later
      characters can, is copied unchanged. */
  lemma RemoveAllKeepRun(a: string, b: string, pat: string)
    requires |pat| > 0 && a != []
    requires forall i :: 1 <= i < |a| ==> a[i] != pat[0]
    requires |a + b| < |pat| || (a + b)[..|pat|] != pat
    ensures RemoveAll(a + b, pat) == a + RemoveAll(b, pat)
  {
    var s := a + b;
    if |s| < |pat| {
      assert RemoveAll(s, pat) == s;
      assert RemoveAll(b, pat) == b;
    } else {
      assert s[1..] == a[1..] + b;
      assert RemoveAll(s, pat) == [a[0]] + RemoveAll(a[1..] + b, pat);
      TailSkips(a, b, pat);
      ConsAppend(a, RemoveAll(b, pat));
    }
  }

  lemma TailSkips(a: string, b: string, pat: string)
    requires |pat| > 0 && a != []
    requires forall i :: 1 <= i < |a| ==> a[i] != pat[0]
    ensures RemoveAll(a[1..] + b, pat) == a[1..] + RemoveAll(b, pat)
  {
    assert forall i :: 0 <= i < |a[1..]| ==> a[1..][i] != pat[0] by {
      forall i | 0 <= i < |a[1..]| ensures a[1..][i] != pat[0] { assert a[1..][i] == a[i + 1]; }
    }
    RemoveAllSkip(a[1..], b, pat);
  }

  lemma ConsAppend(a: string, r: string)
    requires a != []
    ensures [a[0]] + (a[1..] + r) == a + r
  {
    assert [a[0]] + a[1..] == a;
  }

  /** The quantity pass finds nothing in the nested string. */
  lemma NestedQuantityPass()
    ensures var x := "HKQuantity" + CategoryPrefix + "TypeIdentifier";
      RemoveAll(x, QuantityPrefix) == x
  {
    var head, tail := "HKQuantity", "TypeIdentifier";
    var y := CategoryPrefix + tail;
    assert RemoveAll(y, QuantityPrefix) == y by {
      assert y[..|QuantityPrefix|] != QuantityPrefix by { assert y[2] != QuantityPrefix[2]; }
      RemoveAllKeepRun(CategoryPrefix, tail, QuantityPrefix);
      assert RemoveAll(tail, QuantityPrefix) == tail;
    }
    assert RemoveAll(head + y, QuantityPrefix) == head + y by {
      assert (head + y)[..|QuantityPrefix|] != QuantityPrefix by { assert (head + y)[10] != QuantityPrefix[10]; }
      RemoveAllKeepRun(head, y, QuantityPrefix);
    }
    assert head + CategoryPrefix + tail == head + y;
  }

  /** The category pass deletes the inner prefix, leaving a quantity prefix. */
  lemma NestedCategoryPass()
    ensures RemoveAll("HKQuantity" + CategoryPrefix + "TypeIdentifier", CategoryPrefix) == QuantityPrefix
  {
    var head, tail := "HKQuantity", "TypeIdentifier";
    var y := CategoryPrefix + tail;
    assert RemoveAll(y, CategoryPrefix) == tail by {
      RemoveAllFront(CategoryPrefix, tail);
      assert RemoveAll(tail, CategoryPrefix) == tail;
    }
    assert RemoveAll(head + y, CategoryPrefix) == head + tail by {
      assert (head + y)[..|CategoryPrefix|] != CategoryPrefix by { assert (head + y)[2] != CategoryPrefix[2]; }
      RemoveAllKeepRun(head, y, CategoryPrefix);
    }
    assert head + tail == QuantityPrefix;
    assert head + CategoryPrefix + tail == head + y;
  }
}
