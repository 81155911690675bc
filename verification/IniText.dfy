/** Characters, lines and files as minIni sees them. A C string is a string without '\0'; a
    file is a string in which every line ends in '\n'. */
module IniText {

  const INI_BUFFERSIZE := 512

  predicate IsCString(s: string) { '\0' !in s }

  /** A line without its terminator. */
  predicate IsLine(s: string) { '\0' !in s && '\n' !in s }

  // ---------------------------------------------------------------------------
  // Blanks
  // ---------------------------------------------------------------------------

  predicate Blank(c: char) { c <= ' ' }

  function SkipLeading(s: string): (r: string)
    ensures |r| <= |s| && r == s[|s| - |r|..]
    ensures r != [] ==> !Blank(r[0])
  {
    if s != [] && Blank(s[0]) then SkipLeading(s[1..]) else s
  }

  function StripTrailing(s: string): (r: string)
    ensures r <= s && (r != [] ==> !Blank(r[|r| - 1]))
  {
    if s != [] && Blank(s[|s| - 1]) then StripTrailing(s[..|s| - 1]) else s
  }

  /** skipleading */
  method FindLeading(s: string) returns (i: nat)
    ensures i <= |s| && s[i..] == SkipLeading(s)
  {
    i := 0;
    assert s[0..] == s;
    while i < |s| && Blank(s[i])
      invariant i <= |s| && SkipLeading(s[i..]) == SkipLeading(s)
    {
      assert s[i..][1..] == s[i + 1..];
      i := i + 1;
    }
  }

  /** skiptrailing: the end of `s[..end]` without its trailing blanks. */
  method FindTrailing(s: string, end: nat) returns (i: nat)
    requires end <= |s|
    ensures i <= end && s[..i] == StripTrailing(s[..end])
  {
    i := end;
    while i > 0 && Blank(s[i - 1])
      invariant i <= end && StripTrailing(s[..i]) == StripTrailing(s[..end])
    {
      assert s[..i][..i - 1] == s[..i - 1];
      i := i - 1;
    }
  }

  lemma TrimNothing(s: string)
    ensures s == [] || !Blank(s[0]) ==> SkipLeading(s) == s
    ensures s == [] || !Blank(s[|s| - 1]) ==> StripTrailing(s) == s
    ensures |s| == 1 && Blank(s[0]) ==> SkipLeading(s) == []
  {
    assert |s| == 1 ==> s[1..] == [];
  }

  lemma {:induction false} StripBlankEnd(s: string, c: char)
    requires s != [] && !Blank(s[|s| - 1]) && Blank(c)
    ensures StripTrailing(s + [c]) == s
  {
    assert (s + [c])[..|s|] == s;
  }

  // ---------------------------------------------------------------------------
  // Searching
  // ---------------------------------------------------------------------------

  /** strchr: where `c` is first found, or the length. */
  function IndexOf(s: string, c: char): (i: nat)
    ensures i <= |s| && (i < |s| ==> s[i] == c) && c !in s[..i]
  {
    if s == [] || s[0] == c then 0
    else
      var rest := IndexOf(s[1..], c);
      assert s[..1 + rest] == [s[0]] + s[1..][..rest];
      1 + rest
  }

  lemma {:induction false} IndexOfFound(s: string, c: char)
    requires c in s
    ensures IndexOf(s, c) < |s|
  {
    if s[0] != c { IndexOfFound(s[1..], c); }
  }

  lemma {:induction false} IndexOfAfter(a: string, c: char, b: string)
    requires c !in a
    ensures IndexOf(a + [c] + b, c) == |a|
  {
    if a != [] {
      IndexOfAfter(a[1..], c, b);
      assert (a + [c] + b)[1..] == a[1..] + [c] + b;
      assert (a + [c] + b)[0] in a;
    }
  }

  // ---------------------------------------------------------------------------
  // Files
  // ---------------------------------------------------------------------------

  function Text(lines: seq<string>): string {
    if lines == [] then [] else lines[0] + "\n" + Text(lines[1..])
  }

  /** The position of line `k`. */
  function Offset(lines: seq<string>, k: nat): nat
    requires k <= |lines|
  {
    |Text(lines[..k])|
  }

  lemma {:induction false} TextAppend(a: seq<string>, b: seq<string>)
    ensures Text(a + b) == Text(a) + Text(b)
  {
    if a == [] {
      assert a + b == b;
    } else {
      TextAppend(a[1..], b);
      assert (a + b)[1..] == a[1..] + b;
    }
  }

  lemma TextOne(line: string)
    ensures Text([line]) == line + "\n"
  {
    assert [line][1..] == [];
    assert Text([]) == [];
  }

  /** The text between two positions that are starts of lines. */
  lemma TextSlice(lines: seq<string>, m: nat, n: nat)
    requires m <= n <= |lines|
    ensures Offset(lines, m) <= Offset(lines, n) <= |Text(lines)|
    ensures Text(lines)[Offset(lines, m)..Offset(lines, n)] == Text(lines[m..n])
    ensures Offset(lines, n) - Offset(lines, m) == |Text(lines[m..n])|
  {
    var a, b, c := lines[..m], lines[m..n], lines[n..];
    assert lines[..n] == a + b && lines == a + b + c;
    TextAppend(a, b);
    TextAppend(a + b, c);
  }

  lemma OffsetNext(lines: seq<string>, k: nat)
    requires k < |lines|
    ensures Offset(lines, k + 1) == Offset(lines, k) + |lines[k]| + 1
    ensures Offset(lines, k + 1) <= |Text(lines)|
    ensures Text(lines)[Offset(lines, k)..Offset(lines, k + 1)] == lines[k] + "\n"
  {
    TextSlice(lines, k, k + 1);
    assert lines[k..k + 1] == [lines[k]];
    TextOne(lines[k]);
  }

  lemma OffsetEnds(lines: seq<string>)
    ensures Offset(lines, 0) == 0 && Offset(lines, |lines|) == |Text(lines)|
  {
    assert lines[..0] == [] && lines[..|lines|] == lines;
  }

  /** A text of lines is made of these lines only. */
  lemma {:induction false} TextInjective(a: seq<string>, b: seq<string>)
    requires (forall i :: 0 <= i < |a| ==> IsLine(a[i])) && (forall i :: 0 <= i < |b| ==> IsLine(b[i]))
    requires Text(a) == Text(b)
    ensures a == b
    decreases |a|
  {
    if a != [] && b != [] {
      SameFirstLine(a[0], Text(a[1..]), b[0], Text(b[1..]));
      TextInjective(a[1..], b[1..]);
      assert a == [a[0]] + a[1..] && b == [b[0]] + b[1..];
    }
  }

  lemma SameFirstLine(a: string, s: string, b: string, t: string)
    requires '\n' !in a && '\n' !in b && a + "\n" + s == b + "\n" + t
    ensures a == b && s == t
  {
    IndexOfAfter(a, '\n', s);
    IndexOfAfter(b, '\n', t);
    var u := a + "\n" + s;
    assert u == a + ['\n'] + s && u == b + ['\n'] + t;
    assert u[..|a|] == a && u[..|b|] == b && u[|a| + 1..] == s && u[|b| + 1..] == t;
  }
}
