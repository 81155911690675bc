/** Lines that ini_puts did not write: with blanks, comments, a colon for the equal sign. They are
    read as the lines that it does write, but for one kind of value. */
module IniHandwritten {
  import opened Basics
  import opened CaseFold
  import opened IniText
  import opened IniQuotes
  import opened IniLookup
  import opened IniEdit

  /** Spaces, tabs and other characters up to the space. */
  predicate AllBlank(s: string) { forall i :: 0 <= i < |s| ==> s[i] <= ' ' }

  /** Nothing, or a comment mark and whatever follows. */
  predicate IsComment(t: string) { t == [] || t[0] == ';' || t[0] == '#' }

  // ---------------------------------------------------------------------------
  // Blanks
  // ---------------------------------------------------------------------------

  lemma SkipNext(s: string)
    requires s != []
    ensures SkipLeading(s) == if Blank(s[0]) then SkipLeading(s[1..]) else s
  {
  }

  lemma {:induction false} BlankBefore(s: string, i: nat)
    requires i + |SkipLeading(s)| < |s|
    ensures s[i] <= ' '
  {
    if i > 0 { BlankBefore(s[1..], i - 1); }
  }

  /** The blanks that are skipped. */
  lemma Skipped(s: string) returns (a: string)
    ensures s == a + SkipLeading(s) && AllBlank(a)
  {
    hide SkipLeading;
    a := s[..|s| - |SkipLeading(s)|];
    forall i | 0 <= i < |a| ensures a[i] <= ' ' {
      BlankBefore(s, i);
    }
  }

  lemma {:induction false} SkipPast(a: string, s: string)
    requires AllBlank(a)
    ensures SkipLeading(a + s) == SkipLeading(s)
  {
    if a == [] {
      assert a + s == s;
    } else {
      assert (a + s)[1..] == a[1..] + s && (a + s)[0] == a[0];
      SkipNext(a + s);
      hide SkipLeading;
      SkipPast(a[1..], s);
    }
  }

  lemma SkipTo(a: string, f: string)
    requires AllBlank(a) && f != [] && !Blank(f[0])
    ensures SkipLeading(a + f) == f
  {
    SkipPast(a, f);
    TrimNothing(f);
  }

  lemma SkipAppend(s: string, r: string)
    ensures SkipLeading(s + r) == if SkipLeading(s) == [] then SkipLeading(r) else SkipLeading(s) + r
  {
    hide AllBlank, SkipLeading, Blank;
    var a := Skipped(s);
    var f := SkipLeading(s);
    if f == [] {
      assert a + f == a;
      SkipPast(a, r);
    } else {
      AppendAssociative(a, f, r);
      SkipTo(a, f + r);
    }
  }

  lemma {:induction false} SkipBlanks(s: string)
    requires AllBlank(s)
    ensures SkipLeading(s) == []
  {
    if s != [] { SkipBlanks(s[1..]); }
  }

  lemma {:induction false} StripBlanks(s: string, a: string)
    requires AllBlank(a)
    ensures StripTrailing(s + a) == StripTrailing(s)
    decreases |a|
  {
    if a == [] {
      assert s + a == s;
    } else {
      StripBlanks(s, a[..|a| - 1]);
      assert (s + a)[..|s + a| - 1] == s + a[..|a| - 1];
    }
  }

  lemma {:induction false} StripKeeps(s: string, i: nat)
    requires i < |s| && !Blank(s[i])
    ensures |StripTrailing(s)| > i
    decreases |s|
  {
    if Blank(s[|s| - 1]) { StripKeeps(s[..|s| - 1], i); }
  }

  // ---------------------------------------------------------------------------
  // Comments behind a value
  // ---------------------------------------------------------------------------

  lemma {:induction false} PlainThen(s: string, t: string)
    requires (forall i :: 0 <= i < |s| ==> !Special(s[i])) && IsComment(t)
    ensures Uncommented(s + t, false) == |s|
  {
    if s == [] {
      assert s + t == t;
    } else {
      PlainThen(s[1..], t);
      assert (s + t)[1..] == s[1..] + t && (s + t)[0] == s[0];
    }
  }

  lemma {:induction false} BlanksQuoted(a: string, t: string)
    requires AllBlank(a) && IsComment(t)
    ensures Uncommented(a + t, true) >= |a| + Min(1, |t|)
  {
    if a == [] {
      assert a + t == t;
    } else {
      BlanksQuoted(a[1..], t);
      assert (a + t)[1..] == a[1..] + t && (a + t)[0] == a[0];
    }
  }

  lemma BlanksPlain(a: string)
    requires AllBlank(a)
    ensures forall i :: 0 <= i < |a| ==> !Special(a[i])
  {
  }

  /** Whether the closing quote of a value looks escaped. */
  predicate EndsInBackslash(v: string) { v != [] && v[|v| - 1] == '\\' }

  lemma EndsLater(v: string)
    requires |v| > 1
    ensures EndsInBackslash(v[1..]) <==> EndsInBackslash(v)
  {
  }

  lemma ScanOne(c: char, rest: string, quoted: bool)
    requires c != '"' && (CommentMark(c) ==> quoted) && (c == '\\' && rest != [] ==> rest[0] != '"')
    ensures Uncommented([c] + rest, quoted) == 1 + Uncommented(rest, quoted)
  {
    assert ([c] + rest)[1..] == rest;
  }

  lemma ScanPair(c: char, rest: string, quoted: bool)
    requires c == '"' || c == '\\'
    ensures Uncommented([c, '"'] + rest, quoted) == 2 + Uncommented(rest, quoted)
  {
    assert ([c, '"'] + rest)[2..] == rest;
  }

  lemma ScanQuote(rest: string, quoted: bool)
    requires rest != [] ==> rest[0] != '"'
    ensures Uncommented(['"'] + rest, quoted) == 1 + Uncommented(rest, !quoted)
  {
    assert (['"'] + rest)[1..] == rest;
  }

  /** What is behind the closing quote is outside of the quotes, unless that quote looks escaped. */
  lemma {:induction false} ScanEscaped(v: string, y: string)
    requires y != [] ==> y[0] != '"'
    ensures Uncommented(Escape(v) + (['"'] + y), true) == |Escape(v)| + 1 + Uncommented(y, EndsInBackslash(v))
  {
    if v == [] {
      hide Uncommented;
      assert Escape(v) + (['"'] + y) == ['"'] + y;
      ScanQuote(y, true);
    } else {
      EscapeStart(v[1..]);
      ScanEscapedFirst(v, y);
      if |v| > 1 { EndsLater(v); }
      ScanEscaped(v[1..], y);
    }
  }

  lemma EscapeCons(v: string, z: string)
    requires v != []
    ensures Escape(v) + z == Escaped(v[0]) + (Escape(v[1..]) + z)
  {
    hide Escaped;
    AppendAssociative(Escaped(v[0]), Escape(v[1..]), z);
  }

  lemma ScanEscapedFirst(v: string, y: string)
    requires v != []
    ensures var rest := Escape(v[1..]) + (['"'] + y);
            Uncommented(Escape(v) + (['"'] + y), true)
            == if v == ['\\'] then 2 + Uncommented(y, true) else |Escaped(v[0])| + Uncommented(rest, true)
  {
    hide Uncommented, Escape;
    var z := ['"'] + y;
    EscapeCons(v, z);
    if v == ['\\'] {
      EscapeStart(v[1..]);
      assert Escape(v[1..]) + z == z;
      BackslashQuote(y);
      ScanPair('\\', y, true);
    } else if v[0] == '"' {
      ScanPair('\\', Escape(v[1..]) + z, true);
    } else {
      if v[0] == '\\' { StartOfRest(v, z); }
      ScanOne(v[0], Escape(v[1..]) + z, true);
    }
  }

  lemma BackslashQuote(y: string)
    ensures ['\\'] + (['"'] + y) == ['\\', '"'] + y
  {
  }

  lemma StartOfRest(v: string, z: string)
    requires |v| > 1
    ensures var rest := Escape(v[1..]) + z; rest != [] && rest[0] != '"'
  {
    EscapeStart(v[1..]);
  }

  /** A quoted value is cleaned of everything behind it. */
  lemma QuotedClean(v: string, a: string, t: string)
    requires AllBlank(a) && IsComment(t) && v != [] && (EndsInBackslash(v) ==> t == [])
    ensures Clean(Wrap(v) + a + t) == (Escape(v), Dequote)
  {
    hide Escape, StripTrailing, Blank, EndsInBackslash;
    var s := Wrap(v) + a + t;
    QuotedScan(v, a, t);
    assert s[..|Wrap(v)| + |a|] == Wrap(v) + a;
    StripBlanks(Wrap(v), a);
    NotBlankQuote(Wrap(v));
    assert Unwrap(Wrap(v)) == Escape(v);
  }

  lemma NotBlankQuote(s: string)
    requires s != [] && s[|s| - 1] == '"'
    ensures StripTrailing(s) == s
  {
  }

  lemma QuotedScan(v: string, a: string, t: string)
    requires AllBlank(a) && IsComment(t) && v != []
    ensures var n, end := Uncommented(Wrap(v) + a + t, false), |Wrap(v)| + |a|;
            if EndsInBackslash(v) then end + Min(1, |t|) <= n <= end + |t| else n == end
  {
    hide Escape, Uncommented, EndsInBackslash, AllBlank, Special;
    var y := a + t;
    var e := Escape(v);
    WrapRegrouped(e, a, t);
    EscapeStart(v);
    NoQuoteFirst(a, t);
    ScanQuote(e + (['"'] + y), false);
    ScanEscaped(v, y);
    if EndsInBackslash(v) {
      BlanksQuoted(a, t);
    } else {
      BlanksPlain(a);
      PlainThen(a, t);
    }
  }

  lemma WrapRegrouped(e: string, a: string, t: string)
    ensures ['"'] + e + ['"'] + a + t == ['"'] + (e + (['"'] + (a + t)))
  {
  }

  lemma NoQuoteFirst(a: string, t: string)
    requires AllBlank(a) && IsComment(t)
    ensures a + t != [] ==> (a + t)[0] != '"'
  {
  }

  /** So is a plain one. */
  lemma PlainClean(v: string, a: string, t: string)
    requires (forall i :: 0 <= i < |v| ==> !Special(v[i])) && AllBlank(a) && IsComment(t)
    ensures Clean(SkipLeading(v + (a + t))) == (StripTrailing(SkipLeading(v)), QuoteNone)
  {
    hide SkipLeading, Special, Clean, StripTrailing, AllBlank, IsComment;
    SkipsTo(v, a, t);
    if SkipLeading(v) == [] {
      CommentOnly(t);
    } else {
      TrimmedClean(SkipLeading(v), a, t);
    }
  }

  lemma SkipsTo(v: string, a: string, t: string)
    requires AllBlank(a) && IsComment(t)
    ensures SkipLeading(v + (a + t)) == if SkipLeading(v) == [] then t else SkipLeading(v) + a + t
  {
    hide SkipLeading, AllBlank, IsComment;
    SkipAppend(v, a + t);
    SkipPast(a, t);
    CommentOnly(t);
    AppendAssociative(SkipLeading(v), a, t);
  }

  lemma CommentOnly(t: string)
    requires IsComment(t)
    ensures SkipLeading(t) == t && Clean(t) == ([], QuoteNone) && StripTrailing([]) == []
  {
    TrimNothing(t);
    PlainThen([], t);
    assert [] + t == t;
  }

  lemma TrimmedClean(f: string, a: string, t: string)
    requires (forall i :: 0 <= i < |f| ==> !Special(f[i])) && AllBlank(a) && IsComment(t)
    ensures Clean(f + a + t) == (StripTrailing(f), QuoteNone)
  {
    hide Uncommented;
    var s := f + a;
    BlanksPlain(a);
    PlainThen(s, t);
    assert (s + t)[..|s|] == s;
    StripBlanks(f, a);
    assert StripTrailing(f) != [] ==> StripTrailing(f)[0] == f[0];
  }

  /** The form in which every line has the rest of its value: blanks and a comment, or just blanks. */
  lemma RestOfLine(blanks: string, comment: string) returns (a: string, t: string)
    requires AllBlank(blanks) && IsComment(comment)
    ensures AllBlank(a) && IsComment(t) && a + t == blanks + comment + "\n" && (t == [] <==> comment == [])
  {
    if comment == [] {
      a, t := blanks + "\n", [];
    } else {
      a, t := blanks, comment + "\n";
    }
  }

  /** Blanks around a value and a comment behind it change nothing, whatever the buffer, unless the value
      is quoted and ends in a backslash. */
  lemma CommentDecodes(v: string, gap: string, blanks: string, comment: string, maxlen: nat)
    requires AllBlank(gap) && AllBlank(blanks) && IsComment(comment) && maxlen > 0
    requires NeedsQuotes(v) && EndsInBackslash(v) ==> comment == []
    ensures Decode(gap + Encode(v) + blanks + comment + "\n", maxlen) == Decode(Encode(v) + "\n", maxlen)
  {
    hide Clean, Encode, SkipLeading, AllBlank, Stored, NeedsQuotes, EndsInBackslash;
    var a, t := RestOfLine(blanks, comment);
    var rest := Encode(v) + (a + t);
    Regrouped(gap, Encode(v), blanks, comment, a + t);
    SkipAppend(gap, rest);
    SkipBlanks(gap);
    RestClean(v, a, t);
    BlankEnd();
    RestClean(v, "\n", []);
    assert "\n" + [] == "\n";
  }

  lemma BlankEnd()
    ensures AllBlank("\n") && IsComment([])
  {
  }

  lemma Regrouped(gap: string, e: string, blanks: string, comment: string, tail: string)
    requires tail == blanks + comment + "\n"
    ensures gap + e + blanks + comment + "\n" == gap + (e + tail)
  {
  }

  /** Cleaning does not depend on what is behind the value. */
  lemma RestClean(v: string, a: string, t: string)
    requires AllBlank(a) && IsComment(t) && (NeedsQuotes(v) && EndsInBackslash(v) ==> t == [])
    ensures Clean(SkipLeading(Encode(v) + (a + t)))
         == if NeedsQuotes(v) then (Escape(v), Dequote) else (StripTrailing(SkipLeading(v)), QuoteNone)
  {
    hide Clean, AllBlank, Escape, SkipLeading, EndsInBackslash;
    if NeedsQuotes(v) {
      Quotable(v);
      hide NeedsQuotes;
      QuotedStays(Wrap(v) + (a + t));
      assert Wrap(v) + (a + t) == Wrap(v) + a + t;
      QuotedClean(v, a, t);
    } else {
      PlainClean(v, a, t);
    }
  }

  lemma Quotable(v: string)
    requires NeedsQuotes(v)
    ensures v != []
  {
  }

  lemma QuotedStays(s: string)
    requires s != [] && s[0] == '"'
    ensures SkipLeading(s) == s
  {
  }

  // ---------------------------------------------------------------------------
  // The values that a comment spoils
  // ---------------------------------------------------------------------------

  lemma DequoteOne(c: char, rest: string, room: nat)
    requires room > 0 && (rest != [] ==> rest[0] != '"')
    ensures DequoteWithin([c] + rest, room) == [c] + DequoteWithin(rest, room - 1)
  {
    assert ([c] + rest)[1..] == rest;
  }

  lemma DequotePair(rest: string, room: nat)
    requires room > 0
    ensures DequoteWithin(['\\', '"'] + rest, room) == ['"'] + DequoteWithin(rest, room - 1)
  {
    assert (['\\', '"'] + rest)[2..] == rest;
  }

  lemma {:induction false} DequoteThen(v: string, x: string, room: nat)
    requires |v| <= room && (x != [] ==> x[0] != '"')
    ensures DequoteWithin(Escape(v) + x, room) == v + DequoteWithin(x, room - |v|)
  {
    hide DequoteWithin;
    if v == [] {
      assert Escape(v) + x == x && v + DequoteWithin(x, room) == DequoteWithin(x, room);
    } else {
      DequoteThen(v[1..], x, room - 1);
      EscapeStart(v[1..]);
      var rest := Escape(v[1..]) + x;
      assert Escape(v) + x == Escaped(v[0]) + rest;
      if v[0] == '"' {
        DequotePair(rest, room);
      } else {
        DequoteOne(v[0], rest, room);
      }
      assert v == [v[0]] + v[1..];
      AppendAssociative([v[0]], v[1..], DequoteWithin(x, room - |v|));
    }
  }

  /** With the escaped-looking quote and more behind it, dequoting gives more than the value. */
  lemma DequoteMoreThan(v: string, w: string, room: nat)
    requires EndsInBackslash(v) && w != [] && room > |v|
    ensures |DequoteWithin(Escape(v) + ['"'] + w, room)| > |v|
  {
    var front := v[..|v| - 1];
    assert v == front + ['\\'];
    EscapeAppend(front, ['\\']);
    assert ['\\'][1..] == [];
    assert Escape(['\\']) == ['\\'];
    var x := ['\\', '"'] + w;
    assert Escape(v) + ['"'] + w == Escape(front) + x;
    DequoteThen(front, x, room);
    assert x[2..] == w;
  }

  /** A comment behind a quoted value that ends in a backslash becomes part of the value. */
  lemma BackslashLoses(v: string, gap: string, blanks: string, comment: string, maxlen: nat)
    requires NeedsQuotes(v) && EndsInBackslash(v) && AllBlank(gap) && AllBlank(blanks)
    requires IsComment(comment) && comment != [] && |v| + 1 < maxlen
    ensures |Decode(gap + Encode(v) + blanks + comment + "\n", maxlen)| > |v|
  {
    hide AllBlank, Clean, Escape, NeedsQuotes, SkipLeading, EndsInBackslash;
    var t := comment + "\n";
    var s := Wrap(v) + (blanks + t);
    assert blanks + t == blanks + comment + "\n";
    Regrouped(gap, Encode(v), blanks, comment, blanks + t);
    SkipAppend(gap, s);
    SkipBlanks(gap);
    QuotedStays(s);
    assert s == Wrap(v) + blanks + t;
    SpoiltClean(v, blanks, t);
    SpoiltStored(v, Clean(s), maxlen);
  }

  lemma SpoiltStored(v: string, c: (string, Quoting), maxlen: nat)
    requires EndsInBackslash(v) && |v| + 1 < maxlen
    requires if c.1 == Dequote then Escape(v) + ['"'] < c.0 else c.1 == QuoteNone && |c.0| > |Wrap(v)|
    ensures |Stored(c.0, maxlen, c.1)| > |v|
  {
    hide Escape, EndsInBackslash, DequoteWithin;
    if c.1 == Dequote {
      var w := c.0[|Escape(v)| + 1..];
      assert c.0 == Escape(v) + ['"'] + w;
      DequoteMoreThan(v, w, maxlen - 1);
    } else {
      EscapeLonger(v);
    }
  }

  lemma SpoiltClean(v: string, a: string, t: string)
    requires EndsInBackslash(v) && AllBlank(a) && IsComment(t) && t != []
    ensures var c := Clean(Wrap(v) + a + t);
            if c.1 == Dequote then Escape(v) + ['"'] < c.0 else c.1 == QuoteNone && |c.0| > |Wrap(v)|
  {
    hide Escape, StripTrailing;
    var s := Wrap(v) + a + t;
    QuotedScan(v, a, t);
    var i := |Wrap(v)| + |a|;
    var cut := s[..Uncommented(s, false)];
    assert cut[i] == t[0];
    StripKeeps(cut, i);
    var r := StripTrailing(cut);
    assert r <= s && |r| > i && r[i] == t[0];
    if Wrapped(r) {
      assert |r| > i + 1;
      assert Unwrap(r) == s[1..|r| - 1];
      assert s[1..] == Escape(v) + ['"'] + a + t;
      assert s[1..|r| - 1] == s[1..][..|r| - 2];
    }
  }

  /** So a comment is harmless exactly if the value is not quoted or does not end in a backslash. */
  lemma CommentHarmlessIff(v: string, gap: string, blanks: string, comment: string, maxlen: nat)
    requires IsLine(v) && (NeedsQuotes(v) || Unpadded(v)) && |v| + 1 < maxlen
    requires AllBlank(gap) && AllBlank(blanks) && IsComment(comment) && comment != []
    ensures Decode(gap + Encode(v) + blanks + comment + "\n", maxlen) == v
       <==> !(NeedsQuotes(v) && EndsInBackslash(v))
  {
    hide *;
    LineDecodes(v, maxlen);
    if NeedsQuotes(v) && EndsInBackslash(v) {
      BackslashLoses(v, gap, blanks, comment, maxlen);
    } else {
      CommentDecodes(v, gap, blanks, comment, maxlen);
    }
  }

  // ---------------------------------------------------------------------------
  // Lines
  // ---------------------------------------------------------------------------

  function Handwritten(lead: string, key: string, pad: string, sign: char, rest: string): string {
    lead + key + pad + [sign] + rest
  }

  /** An equal sign, or a colon on a line without an equal sign. */
  predicate SignedBy(key: string, sign: char, rest: string) {
    || (sign == '=' && '=' !in key)
    || (sign == ':' && ':' !in key && '=' !in key && '=' !in rest)
  }

  lemma {:induction false} IndexOfNone(s: string, c: char)
    requires c !in s
    ensures IndexOf(s, c) == |s|
  {
    if s != [] { IndexOfNone(s[1..], c); }
  }

  lemma SignAt(front: string, sign: char, rest: string)
    requires SignedBy(front, sign, rest)
    ensures Sign(front + [sign] + rest) == |front|
  {
    hide IndexOf;
    IndexOfAfter(front, sign, rest);
    if sign == ':' {
      IndexOfNone(front + [sign] + rest, '=');
    }
  }

  lemma BlanksUnsigned(key: string, pad: string, sign: char, rest: string)
    requires AllBlank(pad) && SignedBy(key, sign, rest)
    ensures SignedBy(key + pad, sign, rest + "\n")
  {
  }

  /** What is before and behind the sign. */
  lemma HandwrittenParts(lead: string, key: string, pad: string, sign: char, rest: string)
    requires AllBlank(lead) && AllBlank(pad) && key != [] && Unpadded(key) && SignedBy(key, sign, rest)
    ensures var sp := key + pad + [sign] + (rest + "\n");
            && SkipLeading(Handwritten(lead, key, pad, sign, rest) + "\n") == sp
            && Sign(sp) == |key + pad| && StripTrailing(sp[..|key + pad|]) == key
            && sp[|key + pad| + 1..] == rest + "\n"
  {
    hide SkipLeading, StripTrailing, Sign, AllBlank, SignedBy;
    var sp := key + pad + [sign] + (rest + "\n");
    assert Handwritten(lead, key, pad, sign, rest) + "\n" == lead + sp;
    assert sp[0] == key[0];
    SkipTo(lead, sp);
    BlanksUnsigned(key, pad, sign, rest);
    SignAt(key + pad, sign, rest + "\n");
    assert sp[..|key + pad|] == key + pad;
    StripBlanks(key, pad);
    TrimNothing(key);
  }

  /** Such a line names its key and does nothing else, and its value is what is behind the sign. */
  lemma HandwrittenSays(lead: string, key: string, pad: string, sign: char, rest: string, size: nat, maxlen: nat)
    requires AllBlank(lead) && AllBlank(pad) && KeyName(key, size) && SignedBy(key, sign, rest) && maxlen > 0
    ensures var b := Handwritten(lead, key, pad, sign, rest) + "\n";
            && !Opens(b) && !Comments(b) && (forall s :: !Heads(b, s)) && (forall k :: Names(b, k) <==> EqualFold(key, k))
            && Sign(SkipLeading(b)) < |SkipLeading(b)| && ValueOf(b, maxlen) == Decode(rest + "\n", maxlen)
  {
    HandwrittenParts(lead, key, pad, sign, rest);
    hide SkipLeading, StripTrailing, Sign, AllBlank, SignedBy, Handwritten, EqualFold, Decode, IndexOf;
    var sp := key + pad + [sign] + (rest + "\n");
    assert sp[0] == key[0];
  }

  // ---------------------------------------------------------------------------
  // Files
  // ---------------------------------------------------------------------------

  /** Two lines say the same to a query. */
  ghost predicate SayTheSame(x: string, y: string, q: Query)
    requires q.maxlen > 0
  {
    var b, c := x + "\n", y + "\n";
    && Opens(b) == Opens(c) && Comments(b) == Comments(c) && Heads(b, q.section) == Heads(c, q.section)
    && Names(b, q.key) == Names(c, q.key) && (Names(b, q.key) ==> ValueOf(b, q.maxlen) == ValueOf(c, q.maxlen))
  }

  /** Then they can stand for each other. */
  lemma LineForLine(a: seq<string>, x: string, y: string, z: seq<string>, q: Query)
    requires q.maxlen > 0 && SayTheSame(x, y, q)
    ensures Lookup(a + [x] + z, q.section, q.key, q.maxlen) == Lookup(a + [y] + z, q.section, q.key, q.maxlen)
  {
    hide Lookup, Run, Opens, Comments, Heads, Names, ValueOf;
    var mode := Run(Initial(q), a, q);
    RunThrough(a, x, z, q);
    RunThrough(a, y, z, q);
    assert Step(mode, x, q) == Step(mode, y, q);
  }

  lemma RunThrough(a: seq<string>, x: string, z: seq<string>, q: Query)
    requires q.maxlen > 0
    ensures Lookup(a + [x] + z, q.section, q.key, q.maxlen)
         == Result(Run(Step(Run(Initial(q), a, q), x, q), z, q))
  {
    hide Lookup, Run, Step;
    LookupRuns(a + [x] + z, q);
    RunAppend(Initial(q), a + [x], z, q);
    RunAppend(Initial(q), a, [x], q);
    RunOne(Run(Initial(q), a, q), x, q);
  }

  /** A key line with blanks anywhere, with a colon, with a comment, is read as ini_puts would write it,
      unless its value is quoted and ends in a backslash before a comment. */
  lemma ReadsAsWritten(a: seq<string>, lead: string, key: string, pad: string, sign: char, gap: string, v: string,
                       blanks: string, comment: string, z: seq<string>, size: nat, q: Query)
    requires size > 4 && KeyName(key, size) && ValueFits(key, v, size) && q.maxlen > 0
    requires AllBlank(lead) && AllBlank(pad) && AllBlank(gap) && AllBlank(blanks) && IsComment(comment)
    requires SignedBy(key, sign, gap + Encode(v) + blanks + comment)
    requires NeedsQuotes(v) && EndsInBackslash(v) ==> comment == []
    ensures var x := Handwritten(lead, key, pad, sign, gap + Encode(v) + blanks + comment);
            Lookup(a + [x] + z, q.section, q.key, q.maxlen)
            == Lookup(a + [KeyLine(key, v, size)] + z, q.section, q.key, q.maxlen)
  {
    hide *;
    WrittenAlike(lead, key, pad, sign, gap, v, blanks, comment, size, q);
    LineForLine(a, Handwritten(lead, key, pad, sign, gap + Encode(v) + blanks + comment), KeyLine(key, v, size), z, q);
  }

  lemma WrittenAlike(lead: string, key: string, pad: string, sign: char, gap: string, v: string, blanks: string,
                     comment: string, size: nat, q: Query)
    requires size > 4 && KeyName(key, size) && ValueFits(key, v, size) && q.maxlen > 0
    requires AllBlank(lead) && AllBlank(pad) && AllBlank(gap) && AllBlank(blanks) && IsComment(comment)
    requires SignedBy(key, sign, gap + Encode(v) + blanks + comment)
    requires NeedsQuotes(v) && EndsInBackslash(v) ==> comment == []
    ensures SayTheSame(Handwritten(lead, key, pad, sign, gap + Encode(v) + blanks + comment), KeyLine(key, v, size), q)
  {
    hide Opens, Comments, Heads, Names, ValueOf, AllBlank, KeyName, SignedBy, Handwritten, KeyLine, Decode, Encode,
         NeedsQuotes, EndsInBackslash, SkipLeading, Sign, EqualFold, ValueFits;
    var rest := gap + Encode(v) + blanks + comment;
    HandwrittenSays(lead, key, pad, sign, rest, size, q.maxlen);
    KeyLineSays(key, v, size);
    KeyLineValue(key, v, size, q.maxlen);
    CommentDecodes(v, gap, blanks, comment, q.maxlen);
  }

  /** So its value is found, where no line before it has the key. */
  lemma HandwrittenFound(section: string, lead: string, key: string, pad: string, sign: char, gap: string, v: string,
                         blanks: string, comment: string, z: seq<string>, size: nat, maxlen: nat)
    requires size > 4 && SectionName(section, size) && section != "" && KeyName(key, size) && ValueFits(key, v, size)
    requires AllBlank(lead) && AllBlank(pad) && AllBlank(gap) && AllBlank(blanks) && IsComment(comment)
    requires SignedBy(key, sign, gap + Encode(v) + blanks + comment)
    requires IsLine(v) && |v| < maxlen && (if NeedsQuotes(v) then EndsInBackslash(v) ==> comment == [] else Unpadded(v))
    ensures var x := Handwritten(lead, key, pad, sign, gap + Encode(v) + blanks + comment);
            Lookup(["[" + section + "]", x] + z, section, key, maxlen) == Some(v)
  {
    hide Opens, Comments, Heads, Names, ValueOf, AllBlank, KeyName, SignedBy, Handwritten, Decode, Encode,
         NeedsQuotes, EndsInBackslash, SkipLeading, Sign, EqualFold, ValueFits, Lookup, Run, Unpadded;
    var rest := gap + Encode(v) + blanks + comment;
    var head, x, q := "[" + section + "]", Handwritten(lead, key, pad, sign, rest), Query(section, key, maxlen);
    StoredPlain(section, size - 4);
    HeadLineSays(section, size);
    FoldSame(section);
    FoldSame(key);
    HandwrittenSays(lead, key, pad, sign, rest, size, maxlen);
    CommentDecodes(v, gap, blanks, comment, maxlen);
    LineDecodes(v, maxlen);
    assert [head, x] + z == [head] + [x] + z;
    RunThrough([head], x, z, q);
    RunOne(Seeking, head, q);
    RunSettled(Found(v), z, q);
  }

  /** A line that starts with a comment mark, a blank line, and one without a sign that is no head, are
      passed over. */
  lemma Ignored(a: seq<string>, x: string, z: seq<string>, q: Query)
    requires q.maxlen > 0
    requires var sp := SkipLeading(x);
             sp != [] ==> sp[0] != '[' && (sp[0] == ';' || sp[0] == '#' || ('=' !in sp && ':' !in sp))
    ensures Lookup(a + [x] + z, q.section, q.key, q.maxlen) == Lookup(a + z, q.section, q.key, q.maxlen)
  {
    SaysNothing(x, q);
    hide Lookup, Run, Opens, Comments, Heads, Names, ValueOf, SkipLeading;
    RunThrough(a, x, z, q);
    LookupRuns(a + z, q);
    RunAppend(Initial(q), a, z, q);
  }

  lemma SaysNothing(x: string, q: Query)
    requires var sp := SkipLeading(x);
             sp != [] ==> sp[0] != '[' && (sp[0] == ';' || sp[0] == '#' || ('=' !in sp && ':' !in sp))
    ensures var b := x + "\n"; !Opens(b) && !Heads(b, q.section) && (Comments(b) || !Names(b, q.key))
  {
    hide SkipLeading;
    SkipAppend(x, "\n");
    TrimNothing("\n");
    Silent(x + "\n", SkipLeading(x + "\n"), q);
  }

  lemma Silent(b: string, sp: string, q: Query)
    requires sp == SkipLeading(b)
    requires sp != [] ==> sp[0] != '[' && (sp[0] == ';' || sp[0] == '#' || ('=' !in sp && ':' !in sp))
    ensures !Opens(b) && !Heads(b, q.section) && (Comments(b) || !Names(b, q.key))
  {
    hide SkipLeading, EqualFold, Sign, IndexOf, StripTrailing;
    if sp == [] || (sp[0] != ';' && sp[0] != '#') {
      Unsigned(sp);
    }
  }

  lemma Unsigned(sp: string)
    requires '=' !in sp && ':' !in sp
    ensures Sign(sp) == |sp|
  {
    IndexOfNone(sp, '=');
    IndexOfNone(sp, ':');
  }

  /** A head with blanks before it and anything behind it is read as ini_puts would write it. */
  lemma HeadReadsAsWritten(a: seq<string>, lead: string, section: string, tail: string, z: seq<string>, size: nat, q: Query)
    requires size > 4 && SectionName(section, size) && AllBlank(lead) && q.maxlen > 0
    ensures Lookup(a + [lead + "[" + section + "]" + tail] + z, q.section, q.key, q.maxlen)
         == Lookup(a + [HeadLine(section, size)] + z, q.section, q.key, q.maxlen)
  {
    var x := lead + "[" + section + "]" + tail;
    HandwrittenHead(lead, section, tail);
    HeadLineSays(section, size);
    hide Lookup, Run, Opens, Comments, Heads, Names, ValueOf, SkipLeading, HeadLine, EqualFold, SectionName;
    var mode := Run(Initial(q), a, q);
    RunThrough(a, x, z, q);
    RunThrough(a, HeadLine(section, size), z, q);
    assert Step(mode, x, q) == Step(mode, HeadLine(section, size), q);
  }

  lemma HandwrittenHead(lead: string, section: string, tail: string)
    requires AllBlank(lead) && ']' !in section
    ensures var b := lead + "[" + section + "]" + tail + "\n"; Opens(b) && forall s :: Heads(b, s) <==> EqualFold(section, s)
  {
    hide SkipLeading, IndexOf, EqualFold, AllBlank;
    var sp := (['['] + section) + [']'] + (tail + "\n");
    HeadRegrouped(lead, section, tail);
    SkipTo(lead, sp);
    IndexOfAfter(['['] + section, ']', tail + "\n");
    assert sp[1..|section| + 1] == section;
  }

  lemma HeadRegrouped(lead: string, section: string, tail: string)
    ensures lead + "[" + section + "]" + tail + "\n" == lead + ((['['] + section) + [']'] + (tail + "\n"))
  {
  }

  /** A line that starts with a bracket ends the section before it, whatever follows. */
  lemma SectionEnds(a: seq<string>, x: string, z: seq<string>, q: Query)
    requires q.maxlen > 0 && Start(a, q.section) <= |a| && SkipLeading(x) != [] && SkipLeading(x)[0] == '['
    ensures Lookup(a + [x] + z, q.section, q.key, q.maxlen) == Lookup(a, q.section, q.key, q.maxlen)
  {
    SkipAppend(x, "\n");
    assert Opens(x + "\n");
    hide Lookup, Opens, Heads, Names, Comments, ValueOf, SkipLeading;
    RunThrough(a, x, z, q);
    LookupRuns(a, q);
    NotSeeking(a, q);
    RunSettled(Step(Run(Initial(q), a, q), x, q), z, q);
  }

  lemma NotSeeking(a: seq<string>, q: Query)
    requires q.maxlen > 0 && Start(a, q.section) <= |a|
    ensures !Run(Initial(q), a, q).Seeking?
  {
    hide Run, Opens, Heads, Names, Comments, ValueOf, FindHead;
    var k := Start(a, q.section);
    if q.section == "" {
      StaysIn(Inside, a, q);
    } else {
      var front := a[..k - 1];
      assert a == front + [a[k - 1]] + a[k..];
      RunAppend(Seeking, front + [a[k - 1]], a[k..], q);
      RunAppend(Seeking, front, [a[k - 1]], q);
      RunOne(Run(Seeking, front, q), a[k - 1], q);
      StaysIn(Step(Run(Seeking, front, q), a[k - 1], q), a[k..], q);
    }
  }

  lemma {:induction false} StaysIn(mode: Mode, lines: seq<string>, q: Query)
    requires q.maxlen > 0 && !mode.Seeking?
    ensures !Run(mode, lines, q).Seeking?
    decreases |lines|
  {
    hide Opens, Heads, Names, Comments, ValueOf;
    if lines != [] { StaysIn(Step(mode, lines[0], q), lines[1..], q); }
  }

  /** The value of a semicolon and a backslash, without and with a comment behind it. */
  lemma BackslashExample()
    ensures var v := [';', '\\'];
            Decode(Encode(v) + "\n", 10) == v && Decode("" + Encode(v) + " " + ";x" + "\n", 10) != v
  {
    var v := [';', '\\'];
    assert Special(v[0]);
    LineDecodes(v, 10);
    CommentHarmlessIff(v, "", " ", ";x", 10);
  }
}
