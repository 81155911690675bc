/** Sorting and deduplicating byte strings of one length, in the order of memcmp. */
module PrefixLists {
  import opened Basics

  /** memcmp(a, b, n) <= 0 for strings of the same length. */
  predicate AtMost(a: seq<byte>, b: seq<byte>) {
    a == [] || (b != [] && (a[0] < b[0] || (a[0] == b[0] && AtMost(a[1..], b[1..]))))
  }

  lemma {:induction false} AtMostTotal(a: seq<byte>, b: seq<byte>)
    ensures AtMost(a, b) || AtMost(b, a)
  {
    if a != [] && b != [] { AtMostTotal(a[1..], b[1..]); }
  }

  lemma {:induction false} AtMostTransitive(a: seq<byte>, b: seq<byte>, c: seq<byte>)
    requires AtMost(a, b) && AtMost(b, c)
    ensures AtMost(a, c)
  {
    if a != [] && a[0] == b[0] == c[0] { AtMostTransitive(a[1..], b[1..], c[1..]); }
  }

  lemma {:induction false} AtMostAntisymmetric(a: seq<byte>, b: seq<byte>)
    requires AtMost(a, b) && AtMost(b, a)
    ensures a == b
  {
    if a != [] {
      AtMostAntisymmetric(a[1..], b[1..]);
      assert a == [a[0]] + a[1..] && b == [b[0]] + b[1..];
    }
  }

  ghost predicate Sorted(s: seq<seq<byte>>) {
    forall i, j :: 0 <= i < j < |s| ==> AtMost(s[i], s[j])
  }

  ghost predicate StrictlySorted(s: seq<seq<byte>>) {
    forall i, j :: 0 <= i < j < |s| ==> AtMost(s[i], s[j]) && s[i] != s[j]
  }

  // ---------------------------------------------------------------------------
  // Sorting, standing for qsort
  // ---------------------------------------------------------------------------

  function Insert(x: seq<byte>, s: seq<seq<byte>>): seq<seq<byte>> {
    if s == [] then [x] else if AtMost(x, s[0]) then [x] + s else [s[0]] + Insert(x, s[1..])
  }

  lemma {:induction false} InsertSorts(x: seq<byte>, s: seq<seq<byte>>)
    requires Sorted(s)
    ensures Sorted(Insert(x, s))
    ensures forall y :: y in Insert(x, s) <==> y == x || y in s
  {
    hide AtMost;
    if s != [] {
      if AtMost(x, s[0]) {
        forall i | 0 <= i < |s| ensures AtMost(x, s[i]) {
          if i > 0 { AtMostTransitive(x, s[0], s[i]); }
        }
      } else {
        AtMostTotal(x, s[0]);
        InsertSorts(x, s[1..]);
        var t := Insert(x, s[1..]);
        assert s == [s[0]] + s[1..];
        forall i | 0 <= i < |t| ensures AtMost(s[0], t[i]) { assert t[i] in t; }
      }
    }
  }

  function Sort(s: seq<seq<byte>>): seq<seq<byte>> {
    if s == [] then [] else Insert(s[0], Sort(s[1..]))
  }

  lemma {:induction false} SortSorts(s: seq<seq<byte>>)
    ensures Sorted(Sort(s))
    ensures forall y :: y in Sort(s) <==> y in s
  {
    hide AtMost;
    if s != [] {
      SortSorts(s[1..]);
      InsertSorts(s[0], Sort(s[1..]));
    }
  }

  // ---------------------------------------------------------------------------
  // Dropping repetitions
  // ---------------------------------------------------------------------------

  /** Keeps the first of every run of equal entries. */
  method Dedup(s: seq<seq<byte>>) returns (r: seq<seq<byte>>)
    requires Sorted(s)
    ensures StrictlySorted(r)
    ensures forall y :: y in r <==> y in s
  {
    hide AtMost;
    r := [];
    var previous: int := -1;
    for i := 0 to |s|
      invariant StrictlySorted(r)
      invariant forall y :: y in r <==> y in s[..i]
      invariant -1 <= previous < i && (previous == -1 <==> r == [])
      invariant r == [] ==> i == 0
      invariant r != [] ==> r[|r| - 1] == s[previous] == s[i - 1]
    {
      assert s[..i + 1] == s[..i] + [s[i]];
      if previous != -1 && s[previous] == s[i] {
        continue;
      }
      Extend(r, s, i);
      previous := i;
      r := r + [s[i]];
    }
    assert s[..|s|] == s;
  }

  /** An entry different from the last one kept is different from all of them. */
  lemma Extend(r: seq<seq<byte>>, s: seq<seq<byte>>, i: nat)
    requires Sorted(s) && i < |s| && StrictlySorted(r)
    requires forall y :: y in r <==> y in s[..i]
    requires r != [] ==> r[|r| - 1] != s[i]
    ensures StrictlySorted(r + [s[i]])
  {
    hide AtMost;
    forall k | 0 <= k < |r| ensures AtMost(r[k], s[i]) && r[k] != s[i] {
      var j := IndexOf(r[k], s, i);
      if r[k] == s[i] && k < |r| - 1 {
        var last := r[|r| - 1];
        var m := IndexOf(last, s, i);
        AtMostAntisymmetric(last, r[k]);
      }
    }
  }

  lemma IndexOf(x: seq<byte>, s: seq<seq<byte>>, i: nat) returns (j: nat)
    requires i <= |s| && x in s[..i]
    ensures j < i && s[j] == x
  {
    j :| 0 <= j < i && s[..i][j] == x;
  }
}
