/** Storing strings with and without quotes, and reading them back: save_strncpy,
    cleanstring and check_enquote. */
module IniQuotes {
  import opened Basics
  import opened IniText

  datatype Quoting = QuoteNone | Enquote | Dequote

  // ---------------------------------------------------------------------------
  // save_strncpy
  // ---------------------------------------------------------------------------

  /** The quotes of a string escaped, as far as there is room. */
  function EscapeWithin(s: string, room: nat): (r: string)
    ensures |r| <= room
  {
    if s == [] || room == 0 then []
    else if s[0] == '"' then
      if room < 2 then [] else ['\\', '"'] + EscapeWithin(s[1..], room - 2)
    else [s[0]] + EscapeWithin(s[1..], room - 1)
  }

  /** A quote or a backslash before a quote dropped, as far as there is room. */
  function DequoteWithin(s: string, room: nat): (r: string)
    ensures |r| <= room && |r| <= |s|
  {
    if s == [] || room == 0 then []
    else if |s| > 1 && (s[0] == '"' || s[0] == '\\') && s[1] == '"' then [s[1]] + DequoteWithin(s[2..], room - 1)
    else [s[0]] + DequoteWithin(s[1..], room - 1)
  }

  /** What save_strncpy leaves in a buffer of `maxlen` characters. */
  function Stored(source: string, maxlen: nat, option: Quoting): (r: string)
    requires maxlen > 0
    ensures |r| < maxlen
  {
    match option
    case Enquote =>
      if maxlen < 3 then source[..Min(|source|, maxlen - 1)] else ['"'] + EscapeWithin(source, maxlen - 3) + ['"']
    case QuoteNone => source[..Min(|source|, maxlen - 1)]
    case Dequote => DequoteWithin(source, maxlen - 1)
  }

  /** The buffer holds `r` and a terminator from `base` on. */
  ghost predicate Holds(dest: array<char>, base: nat, r: string)
    reads dest
  {
    base + |r| < dest.Length && dest[base..base + |r|] == r && dest[base + |r|] == '\0'
  }

  /** The buffer is as it was outside of `maxlen` characters from `base` on. */
  ghost predicate Outside(before: seq<char>, now: seq<char>, base: nat, maxlen: nat) {
    |now| == |before| && forall i :: 0 <= i < |now| && !(base <= i < base + maxlen) ==> now[i] == before[i]
  }

  method SaveStrncpy(dest: array<char>, base: nat, source: string, maxlen: nat, option: Quoting)
    requires IsCString(source) && 0 < maxlen && base + maxlen <= dest.Length
    modifies dest
    ensures Holds(dest, base, Stored(source, maxlen, option))
    ensures Outside(old(dest[..]), dest[..], base, maxlen)
  {
    if option == QuoteNone || (option == Enquote && maxlen < 3) {
      SaveCopy(dest, base, source, maxlen);
    } else if option == Enquote {
      SaveEnquoted(dest, base, source, maxlen);
    } else {
      SaveDequoted(dest, base, source, maxlen);
    }
  }

  /** `done` has been written from `base` on, and nothing beyond `maxlen` characters. */
  ghost predicate Filled(dest: array<char>, base: nat, maxlen: nat, done: string, before: seq<char>)
    reads dest
  {
    && base + |done| <= base + maxlen <= dest.Length && dest[base..base + |done|] == done
    && Outside(before, dest[..], base, maxlen)
  }

  lemma FilledNone(dest: array<char>, base: nat, maxlen: nat)
    requires base + maxlen <= dest.Length
    ensures Filled(dest, base, maxlen, [], dest[..])
  {
  }

  /** One character is written behind those of `done`. */
  method Put(dest: array<char>, base: nat, maxlen: nat, d: nat, c: char, ghost done: string, ghost before: seq<char>)
    requires d == |done| < maxlen && Filled(dest, base, maxlen, done, before)
    modifies dest
    ensures Filled(dest, base, maxlen, done + [c], before)
  {
    dest[base + d] := c;
  }

  /** The terminator is written. */
  method End(dest: array<char>, base: nat, maxlen: nat, d: nat, ghost done: string, ghost before: seq<char>)
    requires d == |done| < maxlen && Filled(dest, base, maxlen, done, before)
    modifies dest
    ensures Outside(before, dest[..], base, maxlen) && Holds(dest, base, done)
  {
    dest[base + d] := '\0';
  }

  method SaveCopy(dest: array<char>, base: nat, source: string, maxlen: nat)
    requires 0 < maxlen && base + maxlen <= dest.Length
    modifies dest
    ensures Holds(dest, base, source[..Min(|source|, maxlen - 1)])
    ensures Outside(old(dest[..]), dest[..], base, maxlen)
  {
    FilledNone(dest, base, maxlen);
    hide Filled, Outside, Holds;
    ghost var before := dest[..];
    var d := 0;
    assert source[..0] == [];
    while d < maxlen - 1 && d < |source|
      invariant d <= maxlen - 1 && d <= |source| && Filled(dest, base, maxlen, source[..d], before)
    {
      assert source[..d] + [source[d]] == source[..d + 1];
      Put(dest, base, maxlen, d, source[d], source[..d], before);
      d := d + 1;
    }
    End(dest, base, maxlen, d, source[..d], before);
  }

  method SaveEnquoted(dest: array<char>, base: nat, source: string, maxlen: nat)
    requires 3 <= maxlen && base + maxlen <= dest.Length
    modifies dest
    ensures Holds(dest, base, Stored(source, maxlen, Enquote))
    ensures Outside(old(dest[..]), dest[..], base, maxlen)
  {
    FilledNone(dest, base, maxlen);
    hide Filled, Outside, Holds, EscapeWithin, Escaped;
    ghost var before := dest[..];
    Put(dest, base, maxlen, 0, '"', [], before);
    ghost var done := [] + ['"'];
    var d, s := 1, 0;
    assert source[0..] == source;
    while s < |source| && d < maxlen - 2
      invariant s <= |source| && d <= maxlen - 2 && d == |done| && Filled(dest, base, maxlen, done, before)
      invariant ['"'] + EscapeWithin(source, maxlen - 3) == done + EscapeWithin(source[s..], maxlen - 2 - d)
    {
      EscapedLength(source[s]);
      if source[s] == '"' && d >= maxlen - 3 {
        break;
      }
      EscapeMore(source, s, maxlen - 2 - d, done);
      PutEscaped(dest, base, maxlen, d, source[s], done, before);
      done := done + Escaped(source[s]);
      d := d + |Escaped(source[s])|;
      s := s + 1;
    }
    EscapeEnds(source[s..], maxlen - 2 - d);
    assert done + [] == done;
    Put(dest, base, maxlen, d, '"', done, before);
    d := d + 1;
    End(dest, base, maxlen, d, done + ['"'], before);
  }

  function Escaped(c: char): string {
    if c == '"' then ['\\', c] else [c]
  }

  lemma EscapedLength(c: char)
    ensures |Escaped(c)| == if c == '"' then 2 else 1
  {
  }

  method PutEscaped(dest: array<char>, base: nat, maxlen: nat, d: nat, c: char, ghost done: string,
                    ghost before: seq<char>)
    requires d == |done| && d + |Escaped(c)| <= maxlen && Filled(dest, base, maxlen, done, before)
    modifies dest
    ensures Filled(dest, base, maxlen, done + Escaped(c), before)
  {
    hide Filled;
    if c == '"' {
      Put(dest, base, maxlen, d, '\\', done, before);
      Put(dest, base, maxlen, d + 1, c, done + ['\\'], before);
      assert done + ['\\'] + [c] == done + ['\\', c];
    } else {
      Put(dest, base, maxlen, d, c, done, before);
    }
  }

  lemma EscapeMore(source: string, s: nat, room: nat, done: string)
    requires s < |source| && |Escaped(source[s])| <= room
    ensures done + EscapeWithin(source[s..], room)
         == done + Escaped(source[s]) + EscapeWithin(source[s + 1..], room - |Escaped(source[s])|)
  {
    assert source[s..][1..] == source[s + 1..];
  }

  lemma EscapeEnds(rest: string, room: nat)
    requires rest == [] || room == 0 || (rest[0] == '"' && room == 1)
    ensures EscapeWithin(rest, room) == []
  {
  }

  /** The character escapes the quote behind it. */
  predicate SkipsOne(source: string, s: nat) {
    s + 1 < |source| && (source[s] == '"' || source[s] == '\\') && source[s + 1] == '"'
  }

  method SaveDequoted(dest: array<char>, base: nat, source: string, maxlen: nat)
    requires 0 < maxlen && base + maxlen <= dest.Length
    modifies dest
    ensures Holds(dest, base, DequoteWithin(source, maxlen - 1))
    ensures Outside(old(dest[..]), dest[..], base, maxlen)
  {
    FilledNone(dest, base, maxlen);
    hide Filled, Outside, Holds, DequoteWithin;
    ghost var before := dest[..];
    var d, s := 0, 0;
    ghost var done: string := [];
    assert source[0..] == source;
    while s < |source| && d < maxlen - 1
      invariant s <= |source| && d <= maxlen - 1 && d == |done| && Filled(dest, base, maxlen, done, before)
      invariant DequoteWithin(source, maxlen - 1) == done + DequoteWithin(source[s..], maxlen - 1 - d)
    {
      DequoteMore(source, s, maxlen - 1 - d, done);
      if SkipsOne(source, s) {
        s := s + 1;
      }
      Put(dest, base, maxlen, d, source[s], done, before);
      done := done + [source[s]];
      s := s + 1;
      d := d + 1;
    }
    DequoteEnds(source[s..], maxlen - 1 - d);
    assert done + [] == done;
    End(dest, base, maxlen, d, done, before);
  }

  lemma DequoteMore(source: string, s: nat, room: nat, done: string)
    requires s < |source| && room > 0
    ensures var t := if SkipsOne(source, s) then s + 1 else s;
            done + DequoteWithin(source[s..], room) == done + [source[t]] + DequoteWithin(source[t + 1..], room - 1)
  {
    assert source[s..][1..] == source[s + 1..];
    assert s + 1 < |source| ==> source[s..][2..] == source[s + 2..];
  }

  lemma DequoteEnds(rest: string, room: nat)
    requires rest == [] || room == 0
    ensures DequoteWithin(rest, room) == []
  {
  }

  // ---------------------------------------------------------------------------
  // cleanstring
  // ---------------------------------------------------------------------------

  predicate CommentMark(c: char) { c == ';' || c == '#' }

  /** How much of a string is before its comment; `quoted` tells whether the string starts
      inside of quotes. */
  function Uncommented(s: string, quoted: bool): (n: nat)
    ensures n <= |s| && (n < |s| ==> CommentMark(s[n]))
  {
    if s == [] || (CommentMark(s[0]) && !quoted) then 0
    else if s[0] == '"' then
      if |s| > 1 && s[1] == '"' then 2 + Uncommented(s[2..], quoted) else 1 + Uncommented(s[1..], !quoted)
    else if s[0] == '\\' && |s| > 1 && s[1] == '"' then 2 + Uncommented(s[2..], quoted)
    else 1 + Uncommented(s[1..], quoted)
  }

  method FindComment(s: string) returns (ep: nat)
    ensures ep == Uncommented(s, false)
  {
    var isString := false;
    ep := 0;
    assert s[0..] == s;
    while ep < |s| && (!CommentMark(s[ep]) || isString)
      invariant ep <= |s| && ep + Uncommented(s[ep..], isString) == Uncommented(s, false)
    {
      assert s[ep..][1..] == s[ep + 1..];
      assert ep + 1 < |s| ==> s[ep..][2..] == s[ep + 2..];
      if s[ep] == '"' {
        if ep + 1 < |s| && s[ep + 1] == '"' {
          ep := ep + 1;
        } else {
          isString := !isString;
        }
      } else if s[ep] == '\\' && ep + 1 < |s| && s[ep + 1] == '"' {
        ep := ep + 1;
      }
      ep := ep + 1;
    }
  }

  predicate Wrapped(s: string) { s != [] && s[0] == '"' && s[|s| - 1] == '"' }

  /** A lone quote counts as both the first and the last. */
  function Unwrap(s: string): string
    requires Wrapped(s)
  {
    if |s| == 1 then [] else s[1..|s| - 1]
  }

  /** A value without its comment, trailing blanks and surrounding quotes. */
  function Clean(s: string): (string, Quoting) {
    var t := StripTrailing(s[..Uncommented(s, false)]);
    if Wrapped(t) then (Unwrap(t), Dequote) else (t, QuoteNone)
  }

  method CleanString(s: string) returns (r: string, quotes: Quoting)
    ensures (r, quotes) == Clean(s)
  {
    var ep := FindComment(s);
    var end := FindTrailing(s, ep);
    r, quotes := s[..end], QuoteNone;
    if end > 0 && r[0] == '"' && r[end - 1] == '"' {
      r, quotes := if end == 1 then [] else r[1..end - 1], Dequote;
    }
  }

  // ---------------------------------------------------------------------------
  // check_enquote
  // ---------------------------------------------------------------------------

  predicate Special(c: char) { c == '"' || CommentMark(c) }

  /** The value has a quote or a comment mark, or ends in a space. */
  predicate NeedsQuotes(v: string) {
    (exists i :: 0 <= i < |v| && Special(v[i])) || (v != [] && v[|v| - 1] == ' ')
  }

  method CheckEnquote(v: string) returns (option: Quoting)
    ensures option == if NeedsQuotes(v) then Enquote else QuoteNone
  {
    var p := 0;
    while p < |v| && !Special(v[p])
      invariant p <= |v| && forall i :: 0 <= i < p ==> !Special(v[i])
    {
      p := p + 1;
    }
    return if p < |v| || (p > 0 && v[p - 1] == ' ') then Enquote else QuoteNone;
  }

  // ---------------------------------------------------------------------------
  // The round trip
  // ---------------------------------------------------------------------------

  /** The quotes of a string escaped. */
  function Escape(v: string): string {
    if v == [] then [] else Escaped(v[0]) + Escape(v[1..])
  }

  lemma {:induction false} EscapePlain(v: string)
    requires '"' !in v
    ensures Escape(v) == v
  {
    if v != [] {
      EscapePlain(v[1..]);
      assert v == [v[0]] + v[1..] && v[0] in v;
    }
  }

  lemma {:induction false} EscapeAppend(a: string, b: string)
    ensures Escape(a + b) == Escape(a) + Escape(b)
  {
    hide Escaped;
    if a == [] {
      assert a + b == b;
    } else {
      EscapeAppend(a[1..], b);
      assert (a + b)[1..] == a[1..] + b;
      AppendAssociative(Escaped(a[0]), Escape(a[1..]), Escape(b));
    }
  }

  /** A backslash is put before every quote, and nothing else is changed. */
  lemma EscapeSplits(a: string, b: string)
    requires '"' !in a
    ensures Escape(a) == a && Escape(a + ['"'] + b) == a + ['\\', '"'] + Escape(b)
  {
    hide Escape;
    EscapePlain(a);
    EscapeAppend(a + ['"'], b);
    EscapeAppend(a, ['"']);
    EscapeOfQuote();
    assert a + ['\\', '"'] + Escape(b) == (a + ['\\', '"']) + Escape(b);
  }

  lemma EscapeOfQuote()
    ensures Escape(['"']) == ['\\', '"']
  {
    var q := ['"'];
    assert q[1..] == [];
    assert Escape(q) == Escaped('"') + Escape([]);
  }

  lemma {:induction false} EscapeFits(v: string, room: nat)
    requires |Escape(v)| <= room
    ensures EscapeWithin(v, room) == Escape(v)
  {
    if v != [] { EscapeFits(v[1..], room - |Escaped(v[0])|); }
  }

  /** Without room for all, as much is escaped as fits, and never half of a pair. */
  lemma {:induction false} EscapeWithinIs(v: string, room: nat) returns (k: nat)
    ensures k <= |v| && EscapeWithin(v, room) == Escape(v[..k]) && |Escape(v[..k])| <= room
    ensures k < |v| ==> |Escape(v[..k + 1])| > room
  {
    if v == [] || |Escaped(v[0])| > room {
      k := 0;
      assert Escape(v[..0]) == [];
      assert v != [] ==> v[..1] == [v[0]] && v[..1][1..] == [];
    } else {
      var j := EscapeWithinIs(v[1..], room - |Escaped(v[0])|);
      k := j + 1;
      EscapeNext(v, k);
      if k < |v| { EscapeNext(v, k + 1); }
    }
  }

  lemma EscapeNext(v: string, k: nat)
    requires 0 < k <= |v|
    ensures Escape(v[..k]) == Escaped(v[0]) + Escape(v[1..][..k - 1])
  {
    assert v[..k][1..] == v[1..][..k - 1];
  }

  /** A value that is to be quoted has both its quotes from three characters on, and none in less. */
  lemma StoredQuotes(v: string, maxlen: nat) returns (k: nat)
    requires maxlen > 0
    ensures k <= |v|
    ensures maxlen >= 3 ==> Stored(v, maxlen, Enquote) == ['"'] + Escape(v[..k]) + ['"']
    ensures maxlen >= 3 && k < |v| ==> |Escape(v[..k + 1])| + 3 > maxlen
    ensures maxlen < 3 ==> Stored(v, maxlen, Enquote) == v[..k] && (k == maxlen - 1 || k == |v|)
  {
    hide Escape, EscapeWithin;
    if maxlen < 3 {
      k := Min(|v|, maxlen - 1);
    } else {
      k := EscapeWithinIs(v, maxlen - 3);
    }
  }

  /** Dequoting with less room gives a prefix. */
  lemma {:induction false} DequoteCut(s: string, room: nat)
    ensures var all := DequoteWithin(s, |s|); DequoteWithin(s, room) == all[..Min(room, |all|)]
  {
    DequoteBoth(s, room, |s|);
  }

  lemma {:induction false} DequoteBoth(s: string, room: nat, more: nat)
    requires |s| <= more
    ensures var all := DequoteWithin(s, more); DequoteWithin(s, room) == all[..Min(room, |all|)]
  {
    if s != [] && room > 0 {
      if |s| > 1 && (s[0] == '"' || s[0] == '\\') && s[1] == '"' {
        DequoteBoth(s[2..], room - 1, more - 1);
      } else {
        DequoteBoth(s[1..], room - 1, more - 1);
      }
    }
  }

  /** An escaped string never starts with a quote. */
  lemma EscapeStart(v: string)
    ensures Escape(v) == [] <==> v == []
    ensures Escape(v) != [] ==> Escape(v)[0] != '"'
  {
  }

  lemma {:induction false} EscapeDequotes(v: string, room: nat)
    requires |v| <= room
    ensures DequoteWithin(Escape(v), room) == v
  {
    if v != [] {
      EscapeDequotes(v[1..], room - 1);
      EscapeStart(v[1..]);
      var e := Escape(v);
      assert e[|Escaped(v[0])|..] == Escape(v[1..]);
      assert v == [v[0]] + v[1..];
    }
  }

  /** Nothing inside of an escaped value ends the search for a comment, not even when the value
      ends in a backslash, so that the closing quote looks escaped. */
  lemma {:induction false} NoCommentWithin(v: string)
    ensures Uncommented(Escape(v) + "\"\n", true) == |Escape(v)| + 2
  {
    var s := Escape(v) + "\"\n";
    if v == [] {
      assert s == ['"', '\n'] && s[1..] == ['\n'] && s[1..][1..] == [];
    } else {
      NoCommentWithin(v[1..]);
      EscapeStart(v[1..]);
      var rest := Escape(v[1..]) + "\"\n";
      assert s == Escaped(v[0]) + rest;
      assert s[|Escaped(v[0])|..] == rest;
      if v[0] == '\\' && v[1..] == [] {
        assert s == ['\\', '"', '\n'] && s[2..] == ['\n'] && s[2..][1..] == [];
      }
    }
  }

  function Wrap(v: string): string { ['"'] + Escape(v) + ['"'] }

  /** Cleaning a quoted value, as it is read from its line, takes off just the quotes. */
  lemma CleanWrapped(v: string)
    requires v != []
    ensures Clean(Wrap(v) + "\n") == (Escape(v), Dequote)
  {
    var s := Wrap(v) + "\n";
    EscapeStart(v);
    NoCommentWithin(v);
    assert s[1..] == Escape(v) + "\"\n";
    assert Uncommented(s, false) == |s|;
    assert s[..|s|] == s;
    StripBlankEnd(Wrap(v), '\n');
  }

  /** How a value is written to its line. */
  function Encode(v: string): string {
    if NeedsQuotes(v) then Wrap(v) else v
  }

  /** Quotes are written around a value exactly if it has a quote, a semicolon or a hash sign, or ends
      in a space; then every quote inside is escaped. */
  lemma EncodeIff(v: string)
    ensures Encode(v) == v <==> '"' !in v && ';' !in v && '#' !in v && (v == [] || v[|v| - 1] != ' ')
    ensures Encode(v) == v || Encode(v) == ['"'] + Escape(v) + ['"']
  {
    hide Escape;
    EscapeLonger(v);
    NeedsQuotesIff(v);
    assert NeedsQuotes(v) ==> |Encode(v)| > |v|;
  }

  lemma NeedsQuotesIff(v: string)
    ensures !NeedsQuotes(v) <==> '"' !in v && ';' !in v && '#' !in v && (v == [] || v[|v| - 1] != ' ')
  {
    if c :| c in v && Special(c) {
      var i :| 0 <= i < |v| && v[i] == c;
      assert Special(v[i]);
    }
    if i :| 0 <= i < |v| && Special(v[i]) {
      assert v[i] in v;
    }
  }

  lemma {:induction false} EscapeLonger(v: string)
    ensures |Escape(v)| >= |v|
  {
    if v != [] { EscapeLonger(v[1..]); }
  }

  /** How a value is read, into a buffer of `maxlen` characters, from what follows the equal
      sign. */
  function Decode(rest: string, maxlen: nat): (r: string)
    requires maxlen > 0
    ensures |r| < maxlen
  {
    var clean := Clean(SkipLeading(rest));
    Stored(clean.0, maxlen, clean.1)
  }

  predicate Unpadded(v: string) { v == [] || (v[0] > ' ' && v[|v| - 1] > ' ') }

  lemma {:induction false} PlainUncommented(s: string)
    requires forall i :: 0 <= i < |s| ==> !Special(s[i])
    ensures Uncommented(s, false) == |s|
  {
    if s != [] { PlainUncommented(s[1..]); }
  }

  lemma PlainCleans(s: string)
    requires forall i :: 0 <= i < |s| ==> !Special(s[i])
    ensures Clean(s) == (StripTrailing(s), QuoteNone)
  {
    PlainUncommented(s);
    assert s[..|s|] == s;
    assert StripTrailing(s) != [] ==> StripTrailing(s)[0] == s[0];
  }

  lemma PlainDecodes(v: string, maxlen: nat)
    requires !NeedsQuotes(v) && |v| < maxlen
    ensures Decode(v + "\n", maxlen) == StripTrailing(SkipLeading(v + "\n"))
  {
    hide SkipLeading, Clean, NeedsQuotes;
    var s := SkipLeading(v + "\n");
    PlainSuffix(v, s);
    PlainCleans(s);
    var t := StripTrailing(s);
    assert |t| <= |v|;
    assert t[..|t|] == t;
  }

  lemma PlainSuffix(v: string, s: string)
    requires !NeedsQuotes(v) && |s| <= |v| + 1 && s == (v + "\n")[|v| + 1 - |s|..]
    ensures forall i :: 0 <= i < |s| ==> !Special(s[i])
    ensures s != [] ==> Blank(s[|s| - 1])
  {
    forall i | 0 <= i < |s| ensures !Special(s[i]) {
      assert s[i] == (v + "\n")[|v| + 1 - |s| + i];
    }
  }

  lemma QuotedDecodes(v: string, maxlen: nat)
    requires NeedsQuotes(v) && |v| < maxlen
    ensures Decode(Encode(v) + "\n", maxlen) == v
  {
    assert v != [];
    hide NeedsQuotes, Clean, Escape;
    CleanWrapped(v);
    EscapeDequotes(v, maxlen - 1);
    WrappedStart(v);
  }

  lemma WrappedStart(v: string)
    ensures SkipLeading(Wrap(v) + "\n") == Wrap(v) + "\n"
  {
    hide Escape;
  }

  lemma TrimmedUnpadded(v: string)
    requires Unpadded(v)
    ensures StripTrailing(SkipLeading(v + "\n")) == v
  {
    hide StripTrailing, SkipLeading;
    TrimNothing(v + "\n");
    TrimNothing(v);
    if v != [] {
      StripBlankEnd(v, '\n');
    }
  }

  /** Trimming a line gives the value back exactly when it has no blanks at its ends. */
  lemma TrimmedSame(v: string)
    ensures StripTrailing(SkipLeading(v + "\n")) == v <==> Unpadded(v)
  {
    hide StripTrailing, SkipLeading;
    var s := SkipLeading(v + "\n");
    var t := StripTrailing(s);
    assert t != [] ==> t[0] == s[0];
    if Unpadded(v) {
      TrimmedUnpadded(v);
    }
  }

  /** A value without line breaks is read back from its line exactly when it is written with
      quotes, or has no blanks at its ends. */
  lemma LineDecodes(v: string, maxlen: nat)
    requires |v| < maxlen && IsLine(v)
    ensures Decode(Encode(v) + "\n", maxlen) == v <==> NeedsQuotes(v) || Unpadded(v)
  {
    if NeedsQuotes(v) {
      hide *;
      QuotedDecodes(v, maxlen);
    } else {
      hide NeedsQuotes, Decode, Unpadded, SkipLeading, StripTrailing;
      PlainDecodes(v, maxlen);
      TrimmedSame(v);
    }
  }

  /** What is read of a text: up to and with its first line break. */
  function FirstLine(s: string): string {
    if IndexOf(s, '\n') < |s| then s[..IndexOf(s, '\n') + 1] else s
  }

  lemma {:induction false} DequoteKeeps(s: string, room: nat, c: char)
    requires c !in s
    ensures c !in DequoteWithin(s, room)
  {
    if s != [] && room > 0 {
      if |s| > 1 && (s[0] == '"' || s[0] == '\\') && s[1] == '"' {
        DequoteKeeps(s[2..], room - 1, c);
      } else {
        DequoteKeeps(s[1..], room - 1, c);
      }
    }
  }

  /** A prefix of a line without trailing blanks has no line break. */
  lemma NoBreakKept(line: string, s: string, t: string)
    requires '\n' !in line && |s| <= |line| + 1 && s == (line + "\n")[|line| + 1 - |s|..]
    requires t <= s && (t != [] ==> !Blank(t[|t| - 1]))
    ensures '\n' !in t
  {
    forall i | 0 <= i < |t| ensures t[i] != '\n' {
      assert t[i] == s[i] == (line + "\n")[|line| + 1 - |s| + i];
      assert t[|t| - 1] == s[|t| - 1] == (line + "\n")[|line| + 1 - |s| + |t| - 1];
    }
  }

  /** No value with a line break comes out of a line. */
  lemma NoBreakDecoded(line: string, maxlen: nat)
    requires '\n' !in line && maxlen > 0
    ensures '\n' !in Decode(line + "\n", maxlen)
  {
    var s := SkipLeading(line + "\n");
    hide SkipLeading, StripTrailing, Uncommented, DequoteWithin;
    var t := StripTrailing(s[..Uncommented(s, false)]);
    NoBreakKept(line, s, t);
    var clean := Clean(s);
    assert '\n' !in clean.0;
    DequoteKeeps(clean.0, maxlen - 1, '\n');
  }

  lemma FirstLineWhole(v: string)
    requires '\n' !in v
    ensures FirstLine(v + "\n") == v + "\n"
  {
    IndexOfAfter(v, '\n', "");
    assert v + ['\n'] + "" == v + "\n";
  }

  lemma FirstLineCut(s: string)
    ensures exists line :: '\n' !in line && FirstLine(s + "\n") == line + "\n"
  {
    var t := s + "\n";
    assert t[|s|] == '\n';
    var i := IndexOf(t, '\n');
    IndexOfFound(t, '\n');
    assert FirstLine(t) == t[..i] + "\n";
  }

  lemma {:induction false} EscapeKeeps(v: string, c: char)
    requires c !in v && c != '\\'
    ensures c !in Escape(v)
  {
    if v != [] { EscapeKeeps(v[1..], c); }
  }

  /** What is read back of a value, as far as its line goes, is the value if and only if it has no
      line break and is written with quotes or has no blanks at its ends. */
  lemma DecodeEncode(v: string, maxlen: nat)
    requires |v| < maxlen && IsCString(v)
    ensures Decode(FirstLine(Encode(v) + "\n"), maxlen) == v
       <==> IsLine(v) && (NeedsQuotes(v) || Unpadded(v))
  {
    hide Decode, FirstLine, NeedsQuotes, Unpadded, Escape;
    if '\n' in v {
      FirstLineCut(Encode(v));
      var line :| '\n' !in line && FirstLine(Encode(v) + "\n") == line + "\n";
      NoBreakDecoded(line, maxlen);
    } else {
      EscapeKeeps(v, '\n');
      FirstLineWhole(Encode(v));
      LineDecodes(v, maxlen);
    }
  }

  /** Of printable values, exactly those that start with a space and are not quoted are lost. */
  lemma PrintableDecodes(v: string, maxlen: nat)
    requires |v| < maxlen && forall i :: 0 <= i < |v| ==> ' ' <= v[i] <= '~'
    ensures Decode(Encode(v) + "\n", maxlen) == v <==> v == [] || v[0] != ' ' || NeedsQuotes(v)
  {
    hide Decode, Encode, Special;
    LineDecodes(v, maxlen);
  }
}
