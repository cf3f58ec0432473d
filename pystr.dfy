/**
 * The handful of Python `str` operations the metadata extractor relies on:
 * `split` with a separator, `sep.join`, `rsplit(c, 1)`, `replace` of one
 * character by another and `startswith`.  Strings are `seq<char>`.
 */
module PyStr {
  import opened Wrappers

  /** `sep` occurs in `s` starting at index `i`. */
  predicate OccursAt(s: string, sep: string, i: nat) {
    i + |sep| <= |s| && s[i..i + |sep|] == sep
  }

  /** Python's `sep in s`. */
  predicate Contains(s: string, sep: string) {
    exists i: nat :: i <= |s| && OccursAt(s, sep, i)
  }

  /** Python's `s.startswith(prefix)`. */
  predicate StartsWith(s: string, prefix: string) {
    |prefix| <= |s| && s[..|prefix|] == prefix
  }

  /** No proper suffix of `sep` is also a prefix of it, so two occurrences never overlap. */
  predicate NonOverlapping(sep: string) {
    forall k :: 0 < k < |sep| ==> sep[k..] != sep[..|sep| - k]
  }

  /**
   * Python's `s.split(sep)` for a non-empty separator: the pieces between
   * the occurrences of `sep` found scanning left to right, never overlapping.
   */
  function Split(s: string, sep: string): (parts: seq<string>)
    requires |sep| > 0
    ensures |parts| >= 1
    ensures StartsWith(s, parts[0])
    decreases |s|
  {
    if |s| < |sep| then [s]
    else if s[..|sep|] == sep then [""] + Split(s[|sep|..], sep)
    else
      var rest := Split(s[1..], sep);
      [[s[0]] + rest[0]] + rest[1..]
  }

  /** Python's `sep.join(parts)`. */
  function Join(sep: string, parts: seq<string>): (r: string)
    ensures |parts| == 1 ==> r == parts[0]
  {
    if |parts| == 0 then ""
    else if |parts| == 1 then parts[0]
    else parts[0] + sep + Join(sep, parts[1..])
  }

  /** Joining a piece in front of at least one more puts the separator between them. */
  lemma JoinCons(sep: string, p: string, rest: seq<string>)
    requires |rest| >= 1
    ensures Join(sep, [p] + rest) == p + sep + Join(sep, rest)
  {
    assert ([p] + rest)[1..] == rest;
  }

  /** Joining the pieces of a split with the same separator gives the string back. */
  lemma {:induction false} JoinSplit(s: string, sep: string)
    requires |sep| > 0
    ensures Join(sep, Split(s, sep)) == s
    decreases |s|
  {
    if |s| < |sep| {
    } else if s[..|sep|] == sep {
      var rest := Split(s[|sep|..], sep);
      JoinSplit(s[|sep|..], sep);
      JoinCons(sep, "", rest);
      assert s == sep + s[|sep|..];
    } else {
      var rest := Split(s[1..], sep);
      JoinSplit(s[1..], sep);
      JoinPrepend(sep, s[0], rest);
      assert s == [s[0]] + s[1..];
    }
  }

  /** Prepending a character to the first piece prepends it to the join. */
  lemma JoinPrepend(sep: string, c: char, parts: seq<string>)
    requires |parts| >= 1
    ensures Join(sep, [[c] + parts[0]] + parts[1..]) == [c] + Join(sep, parts)
  {
    var first := [c] + parts[0];
    if |parts| > 1 {
      assert parts == [parts[0]] + parts[1..];
      JoinCons(sep, first, parts[1..]);
      JoinCons(sep, parts[0], parts[1..]);
      assert first + sep + Join(sep, parts[1..]) == [c] + (parts[0] + sep + Join(sep, parts[1..]));
    }
  }

  /** No piece of a split contains the separator. */
  lemma {:induction false} SplitPartsFree(s: string, sep: string)
    requires |sep| > 0
    ensures forall p :: p in Split(s, sep) ==> !Contains(p, sep)
    decreases |s|
  {
    if |s| < |sep| {
      forall i: nat | OccursAt(s, sep, i) ensures false { }
    } else if s[..|sep|] == sep {
      SplitPartsFree(s[|sep|..], sep);
      assert !OccursAt("", sep, 0);
    } else {
      var rest := Split(s[1..], sep);
      SplitPartsFree(s[1..], sep);
      var first := [s[0]] + rest[0];
      assert StartsWith(s[1..], rest[0]);
      assert StartsWith(s, first);
      assert rest[0] in rest;
      forall i: nat | OccursAt(first, sep, i) ensures false {
        if i > 0 {
          assert first[i..i + |sep|] == rest[0][i - 1..i - 1 + |sep|];
          assert OccursAt(rest[0], sep, i - 1);
        }
      }
      assert Split(s, sep) == [first] + rest[1..];
    }
  }

  /** The first piece of a split is the text before the first separator, or all of it. */
  lemma SplitFirstPart(s: string, sep: string)
    requires |sep| > 0
    ensures !Contains(Split(s, sep)[0], sep)
    ensures Split(s, sep)[0] == s || OccursAt(s, sep, |Split(s, sep)[0]|)
  {
    var parts := Split(s, sep);
    SplitPartsFree(s, sep);
    assert parts[0] in parts;
    JoinSplit(s, sep);
    if |parts| > 1 {
      JoinCons(sep, parts[0], parts[1..]);
      assert parts == [parts[0]] + parts[1..];
      assert s == parts[0] + sep + Join(sep, parts[1..]);
      assert s[|parts[0]|..|parts[0]| + |sep|] == sep;
    }
  }

  /** The first piece of a split ends at the earliest occurrence of the separator. */
  lemma {:induction false} SplitFirstEarliest(s: string, sep: string)
    requires |sep| > 0
    ensures forall i :: 0 <= i < |Split(s, sep)[0]| ==> !OccursAt(s, sep, i)
    decreases |s|
  {
    if |s| >= |sep| && s[..|sep|] != sep {
      var rest := Split(s[1..], sep);
      SplitFirstEarliest(s[1..], sep);
      assert Split(s, sep)[0] == [s[0]] + rest[0];
      forall i | 0 <= i < |Split(s, sep)[0]| ensures !OccursAt(s, sep, i) {
        if 0 < i && i + |sep| <= |s| {
          assert !OccursAt(s[1..], sep, i - 1);
          assert s[1..][i - 1..i - 1 + |sep|] == s[i..i + |sep|];
        }
      }
    }
  }

  /** A string free of the separator splits into itself alone. */
  lemma {:induction false} SplitFree(p: string, sep: string)
    requires |sep| > 0 && !Contains(p, sep)
    ensures Split(p, sep) == [p]
    decreases |p|
  {
    if |p| >= |sep| {
      assert !OccursAt(p, sep, 0);
      forall i: nat | OccursAt(p[1..], sep, i) ensures false {
        assert p[i + 1..i + 1 + |sep|] == p[1..][i..i + |sep|];
        assert OccursAt(p, sep, i + 1);
      }
      SplitFree(p[1..], sep);
      assert [p[0]] + p[1..] == p;
    }
  }

  /** A leading separator-free piece followed by the separator splits off as one piece. */
  lemma {:induction false} SplitLeading(a: string, sep: string, t: string)
    requires |sep| > 0 && NonOverlapping(sep) && !Contains(a, sep)
    ensures Split(a + sep + t, sep) == [a] + Split(t, sep)
    decreases |a|
  {
    var s := a + sep + t;
    if |a| == 0 {
      assert s[..|sep|] == sep && s[|sep|..] == t;
    } else {
      if |a| >= |sep| {
        assert !OccursAt(a, sep, 0);
        assert a[..|sep|] == s[..|sep|];
      } else {
        assert sep[|a|..] != sep[..|sep| - |a|];
        assert s[|a|..|a| + |sep|] == sep;
        assert s[|a|..|sep|] == s[|a|..|a| + |sep|][..|sep| - |a|];
        assert s[..|sep|][|a|..] == s[|a|..|sep|];
      }
      assert s[..|sep|] != sep;
      forall i: nat | OccursAt(a[1..], sep, i) ensures false {
        assert a[i + 1..i + 1 + |sep|] == a[1..][i..i + |sep|];
        assert OccursAt(a, sep, i + 1);
      }
      SplitLeading(a[1..], sep, t);
      assert s[1..] == a[1..] + sep + t;
      assert [a[0]] + a[1..] == a;
    }
  }

  /** A string without the separator's first character does not contain the separator. */
  lemma FreeOfFirstChar(p: string, sep: string)
    requires |sep| > 0 && sep[0] !in p
    ensures !Contains(p, sep)
  {
    forall i: nat | i <= |p| ensures !OccursAt(p, sep, i) {
      if i + |sep| <= |p| {
        assert p[i..i + |sep|][0] == p[i];
      }
    }
  }

  /**
   * A leading piece without the separator's first character splits off as
   * one piece, whatever the separator (here overlapping ones such as `::`).
   */
  lemma {:induction false} SplitLeadingFree(a: string, sep: string, t: string)
    requires |sep| > 0 && sep[0] !in a
    ensures Split(a + sep + t, sep) == [a] + Split(t, sep)
    decreases |a|
  {
    var s := a + sep + t;
    if |a| == 0 {
      assert s[..|sep|] == sep && s[|sep|..] == t;
    } else {
      assert s[..|sep|][0] == a[0] != sep[0];
      SplitLeadingFree(a[1..], sep, t);
      assert s[1..] == a[1..] + sep + t;
      assert [a[0]] + a[1..] == a;
    }
  }

  /** Splitting a join of separator-free pieces gives the pieces back. */
  lemma {:induction false} SplitJoin(parts: seq<string>, sep: string)
    requires |sep| > 0 && NonOverlapping(sep) && |parts| >= 1
    requires forall p :: p in parts ==> !Contains(p, sep)
    ensures Split(Join(sep, parts), sep) == parts
    decreases |parts|
  {
    if |parts| == 1 {
      SplitFree(parts[0], sep);
    } else {
      SplitJoin(parts[1..], sep);
      SplitLeading(parts[0], sep, Join(sep, parts[1..]));
      assert parts == [parts[0]] + parts[1..];
    }
  }

  /** Index of the last `c` in `s`, as `s.rindex(c)` finds it. */
  function LastIndexOf(s: string, c: char): (r: Option<nat>)
    ensures r.None? <==> c !in s
    ensures r.Some? ==> r.value < |s| && s[r.value] == c && c !in s[r.value + 1..]
  {
    if |s| == 0 then None
    else if s[|s| - 1] == c then Some(|s| - 1)
    else
      var r := LastIndexOf(s[..|s| - 1], c);
      assert r.Some? ==> s[r.value + 1..] == s[..|s| - 1][r.value + 1..] + [s[|s| - 1]];
      r
  }

  /** `s.rsplit(c, 1)[0]`: everything before the last `c`, or `s` itself. */
  function BeforeLast(s: string, c: char): (r: string)
    ensures StartsWith(s, r)
    ensures c !in s ==> r == s
    ensures c in s ==> |r| < |s| && s[|r|] == c && c !in s[|r| + 1..]
  {
    match LastIndexOf(s, c)
    case None => s
    case Some(i) => s[..i]
  }

  /** `s.rsplit(c, 1)[-1]`: everything after the last `c`, or `s` itself. */
  function AfterLast(s: string, c: char): (r: string)
    ensures c !in r
    ensures c in s ==> s == BeforeLast(s, c) + [c] + r
    ensures c !in s ==> r == s
  {
    match LastIndexOf(s, c)
    case None => s
    case Some(i) =>
      assert s == s[..i] + [c] + s[i + 1..];
      s[i + 1..]
  }

  /** Around the last `c`: `rsplit(c, 1)` of `a + [c] + b` with `c` not in `b` gives `a` and `b`. */
  lemma SplitAtLast(a: string, c: char, b: string)
    requires c !in b
    ensures BeforeLast(a + [c] + b, c) == a
    ensures AfterLast(a + [c] + b, c) == b
  {
    var s := a + [c] + b;
    assert s[|a|] == c;
    var i := LastIndexOf(s, c).value;
    assert forall j :: i < j < |s| ==> s[j] == s[i + 1..][j - i - 1];
    assert forall j :: |a| < j < |s| ==> s[j] == b[j - |a| - 1];
    assert i == |a|;
    assert s[..|a|] == a && s[|a| + 1..] == b;
  }

  /** `s.replace(a, b)` for one-character `a` and `b`. */
  function Replace(s: string, a: char, b: char): (r: string)
    ensures |r| == |s|
    ensures forall i :: 0 <= i < |s| ==> r[i] == (if s[i] == a then b else s[i])
    ensures a != b ==> a !in r
  {
    seq(|s|, i requires 0 <= i < |s| => if s[i] == a then b else s[i])
  }

  /** For a one-character separator, containment is membership of that character. */
  lemma ContainsChar(s: string, c: char)
    ensures Contains(s, [c]) <==> c in s
  {
    if c in s {
      var i :| 0 <= i < |s| && s[i] == c;
      assert OccursAt(s, [c], i);
    }
    if Contains(s, [c]) {
      var i: nat :| i <= |s| && OccursAt(s, [c], i);
      assert s[i] == s[i..i + 1][0] == c;
    }
  }
}
