/**
 * Dotted names: a domain name is a sequence of labels joined by a
 * separator. Both question-name extractors build their result this way,
 * one over bytes (the native library) and one over characters (DnsUtils),
 * so the join and its inverse are stated once, generically.
 */
module Labels {

  /** The parts, with exactly one `sep` between consecutive parts and none at either end. */
  function Join<T>(parts: seq<seq<T>>, sep: T): seq<T>
    decreases |parts|
  {
    if |parts| == 0 then []
    else if |parts| == 1 then parts[0]
    else Join(parts[..|parts| - 1], sep) + [sep] + parts[|parts| - 1]
  }

  /** Cuts `s` at every occurrence of `sep`; the inverse of Join on separator-free parts. */
  function Split<T(==)>(s: seq<T>, sep: T): (parts: seq<seq<T>>)
    ensures |parts| >= 1
    decreases |s|
  {
    if |s| == 0 then [[]]
    else
      var init := Split(s[..|s| - 1], sep);
      if s[|s| - 1] == sep then init + [[]]
      else init[..|init| - 1] + [init[|init| - 1] + [s[|s| - 1]]]
  }

  predicate SeparatorFree<T(==)>(parts: seq<seq<T>>, sep: T)
  {
    forall k :: 0 <= k < |parts| ==> sep !in parts[k]
  }

  predicate NonEmptyParts<T>(parts: seq<seq<T>>)
  {
    forall k :: 0 <= k < |parts| ==> |parts[k]| > 0
  }

  /** Appending one more part adds one separator and the part, unless it is the first. */
  lemma JoinSnoc<T>(parts: seq<seq<T>>, x: seq<T>, sep: T)
    ensures Join(parts + [x], sep) == if |parts| == 0 then x else Join(parts, sep) + [sep] + x
  {
    assert (parts + [x])[..|parts|] == parts;
  }

  /** A join of non-empty parts is empty exactly when there are no parts. */
  lemma {:induction false} JoinEmpty<T>(parts: seq<seq<T>>, sep: T)
    requires NonEmptyParts(parts)
    ensures (|Join(parts, sep)| == 0) == (|parts| == 0)
  {
    if |parts| > 1 {
      JoinEmpty(parts[..|parts| - 1], sep);
    }
  }

  /** The joined name starts with the first part and ends with the last: no leading or trailing separator is added. */
  lemma {:induction false} JoinEnds<T>(parts: seq<seq<T>>, sep: T)
    requires |parts| >= 1
    ensures |Join(parts, sep)| >= |parts[0]| + |parts[|parts| - 1]| - (if |parts| == 1 then |parts[0]| else 0)
    ensures Join(parts, sep)[..|parts[0]|] == parts[0]
    ensures Join(parts, sep)[|Join(parts, sep)| - |parts[|parts| - 1]|..] == parts[|parts| - 1]
  {
    if |parts| > 1 {
      var init := parts[..|parts| - 1];
      JoinEnds(init, sep);
      assert init[0] == parts[0];
      var j := Join(init, sep);
      assert Join(parts, sep) == j + [sep] + parts[|parts| - 1];
      assert (j + [sep] + parts[|parts| - 1])[..|parts[0]|] == j[..|parts[0]|];
    }
  }

  /**
   * The parts appended to `acc` one at a time, with `sep` before a part
   * whenever what has been written so far is non-empty: the way both
   * extractors build their result in a loop.
   */
  function JoinOnto<T>(acc: seq<T>, parts: seq<seq<T>>, sep: T): seq<T>
    decreases |parts|
  {
    if |parts| == 0 then acc
    else JoinOnto((if |acc| > 0 then acc + [sep] else acc) + parts[0], parts[1..], sep)
  }

  /**
   * Writing the parts after a join of non-empty parts continues the join,
   * provided every part but the last is non-empty.
   */
  lemma {:induction false} JoinOntoJoin<T>(done: seq<seq<T>>, rest: seq<seq<T>>, sep: T)
    requires NonEmptyParts(done)
    requires forall k :: 0 <= k < |rest| - 1 ==> |rest[k]| > 0
    ensures JoinOnto(Join(done, sep), rest, sep) == Join(done + rest, sep)
    decreases |rest|
  {
    if |rest| == 0 {
      assert done + rest == done;
    } else {
      JoinEmpty(done, sep);
      JoinSnoc(done, rest[0], sep);
      var done' := done + [rest[0]];
      var j := Join(done, sep);
      assert (if |j| > 0 then j + [sep] else j) + rest[0] == Join(done', sep);
      assert done' + rest[1..] == done + rest;
      if |rest| == 1 {
        assert done' == done + rest;
      } else {
        assert |rest[0]| > 0;
        JoinOntoJoin(done', rest[1..], sep);
      }
    }
  }

  /** The number of separators in a join of separator-free parts is one less than the number of parts. */
  lemma {:induction false} JoinSeparatorCount<T>(parts: seq<seq<T>>, sep: T)
    requires |parts| >= 1 && SeparatorFree(parts, sep)
    ensures multiset(Join(parts, sep))[sep] == |parts| - 1
  {
    if |parts| == 1 {
      assert sep !in parts[0];
    } else {
      var init := parts[..|parts| - 1];
      var last := parts[|parts| - 1];
      JoinSeparatorCount(init, sep);
      assert sep !in last;
      assert multiset(Join(parts, sep)) == multiset(Join(init, sep)) + multiset([sep]) + multiset(last);
    }
  }

  /** Splitting after one more non-separator extends the last part. */
  lemma SplitSnocOther<T>(s: seq<T>, c: T, sep: T)
    requires c != sep
    ensures var p := Split(s, sep); Split(s + [c], sep) == p[..|p| - 1] + [p[|p| - 1] + [c]]
  {
    assert (s + [c])[..|s|] == s;
  }

  /** Splitting after one more separator opens an empty last part. */
  lemma SplitSnocSep<T>(s: seq<T>, sep: T)
    ensures Split(s + [sep], sep) == Split(s, sep) + [[]]
  {
    assert (s + [sep])[..|s|] == s;
  }

  /** Appending separator-free elements only extends the last part. */
  lemma {:induction false} SplitAppendFree<T>(s: seq<T>, x: seq<T>, sep: T)
    requires sep !in x
    ensures var p := Split(s, sep); Split(s + x, sep) == p[..|p| - 1] + [p[|p| - 1] + x]
    decreases |x|
  {
    if |x| == 0 {
      SplitAppendNothing(s, x, sep);
    } else {
      var y, c := x[..|x| - 1], x[|x| - 1];
      assert x == y + [c];
      assert s + x == (s + y) + [c];
      SplitAppendFree(s, y, sep);
      SplitAppendOneMore(s, y, c, sep);
    }
  }

  /** The base case of SplitAppendFree: appending nothing leaves the split as it is. */
  lemma SplitAppendNothing<T>(s: seq<T>, x: seq<T>, sep: T)
    requires |x| == 0
    ensures var p := Split(s, sep); Split(s + x, sep) == p[..|p| - 1] + [p[|p| - 1] + x]
  {
    var p := Split(s, sep);
    assert s + x == s;
    assert p[|p| - 1] + x == p[|p| - 1];
    assert p[..|p| - 1] + [p[|p| - 1]] == p;
  }

  /** The step of SplitAppendFree: one more non-separator extends the already extended last part. */
  lemma SplitAppendOneMore<T>(s: seq<T>, y: seq<T>, c: T, sep: T)
    requires c != sep
    requires var p := Split(s, sep); Split(s + y, sep) == p[..|p| - 1] + [p[|p| - 1] + y]
    ensures var p := Split(s, sep); Split((s + y) + [c], sep) == p[..|p| - 1] + [p[|p| - 1] + (y + [c])]
  {
    SplitSnocOther(s + y, c, sep);
    var p := Split(s, sep);
    ExtendLast(p[..|p| - 1], p[|p| - 1], y, c);
  }

  /** Extending the last element of `init + [a + y]` by `c` gives `init + [a + (y + [c])]`. */
  lemma ExtendLast<U>(init: seq<seq<U>>, a: seq<U>, y: seq<U>, c: U)
    ensures var q := init + [a + y]; q[..|q| - 1] + [q[|q| - 1] + [c]] == init + [a + (y + [c])]
  {
    var q := init + [a + y];
    assert q[..|q| - 1] == init;
    assert (a + y) + [c] == a + (y + [c]);
  }

  /** Round trip: splitting a join of separator-free parts gives the parts back. */
  lemma {:induction false} SplitJoin<T>(parts: seq<seq<T>>, sep: T)
    requires |parts| >= 1 && SeparatorFree(parts, sep)
    ensures Split(Join(parts, sep), sep) == parts
    decreases |parts|
  {
    if |parts| == 1 {
      SplitAppendFree([], parts[0], sep);
      assert [] + parts[0] == parts[0];
    } else {
      var init, last := parts[..|parts| - 1], parts[|parts| - 1];
      calc {
        Split(Join(parts, sep), sep);
        Split(Join(init, sep) + [sep] + last, sep);
        { SplitJoin(init, sep);
          assert sep !in last;
          SplitJoinStep(Join(init, sep), init, last, sep); }
        init + [last];
        parts;
      }
    }
  }

  /** Splitting after a separator and one more separator-free part adds that part. */
  lemma SplitJoinStep<T>(j: seq<T>, init: seq<seq<T>>, last: seq<T>, sep: T)
    requires Split(j, sep) == init && sep !in last
    ensures Split(j + [sep] + last, sep) == init + [last]
  {
    var q := init + [[]];
    assert Split(j + [sep], sep) == q by {
      SplitSnocSep(j, sep);
    }
    SplitAppendFree(j + [sep], last, sep);
    assert q[..|q| - 1] == init && q[|q| - 1] + last == last;
  }
}
