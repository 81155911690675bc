/** ini_puts: the file is rewritten in one pass. Lines to be copied are not stored but counted;
    the count is bounded by the buffer, and when it is full, or the copy is interrupted, they
    are read again from a mark and written at once. */
module IniRewrite {
  import opened Basics
  import opened IniText
  import opened IniQuotes
  import opened IniLookup
  import opened IniEdit

  // ---------------------------------------------------------------------------
  // Writing lines
  // ---------------------------------------------------------------------------

  lemma {:induction false} EscapeIsCString(s: string, room: nat)
    requires IsCString(s)
    ensures IsCString(EscapeWithin(s, room))
  {
    if s != [] && room > 0 {
      if s[0] != '"' {
        EscapeIsCString(s[1..], room - 1);
      } else if room > 1 {
        EscapeIsCString(s[1..], room - 2);
      }
    }
  }

  lemma StoredIsCString(s: string, maxlen: nat, option: Quoting)
    requires IsCString(s) && maxlen > 0 && option != Dequote
    ensures IsCString(Stored(s, maxlen, option))
  {
    if option == Enquote && maxlen >= 3 {
      EscapeIsCString(s, maxlen - 3);
    }
  }

  /** The end of the string in the buffer. */
  method StrEnd(buffer: array<char>, base: nat, ghost s: string) returns (p: nat)
    requires Holds(buffer, base, s) && IsCString(s)
    ensures p == base + |s|
  {
    p := base;
    assert s != [] ==> buffer[base..base + |s|][0] == s[0] && s[0] in s;
    while buffer[p] != '\0'
      invariant base <= p <= base + |s| && (p < base + |s| ==> buffer[p] != '\0')
      decreases base + |s| - p
    {
      p := p + 1;
      assert p < base + |s| ==> buffer[base..base + |s|][p - base] == s[p - base] && s[p - base] in s;
    }
  }

  /** The line that writekey composes in the buffer. */
  method ComposeKey(key: string, value: string, size: nat) returns (text: string)
    requires size > 4 && IsCString(key) && IsCString(value)
    ensures text == KeyLine(key, value, size) + "\n"
  {
    var buffer := new char[size];
    var option := CheckEnquote(value);
    ghost var k := Stored(key, size - 3, QuoteNone);
    StoredIsCString(key, size - 3, QuoteNone);
    SaveStrncpy(buffer, 0, key, size - 3, QuoteNone);
    var p := StrEnd(buffer, 0, k);
    buffer[p] := '=';
    p := p + 1;
    assert buffer[..p] == k + "=";
    text := ComposeValue(buffer, p, value, option, size, k + "=");
    assert text == k + "=" + Stored(value, size - p - 2, option) + "\n";
  }

  /** Behind the first `p` characters, the value and the terminators are written. */
  method ComposeValue(buffer: array<char>, p: nat, value: string, option: Quoting, size: nat, ghost front: string)
      returns (text: string)
    requires size == buffer.Length && p + 2 < size && IsCString(value) && option != Dequote && buffer[..p] == front
    modifies buffer
    ensures text == front + Stored(value, size - p - 2, option) + "\n"
  {
    ghost var v := Stored(value, size - p - 2, option);
    StoredIsCString(value, size - p - 2, option);
    SaveStrncpy(buffer, p, value, size - p - 2, option);
    assert buffer[..p] == front;
    var e := StrEnd(buffer, p, v);
    text := Terminate(buffer, p, e, front, v);
  }

  method Terminate(buffer: array<char>, p: nat, e: nat, ghost front: string, ghost v: string) returns (text: string)
    requires p <= e == p + |v| && e + 1 < buffer.Length && buffer[..p] == front && buffer[p..e] == v
    modifies buffer
    ensures text == front + v + "\n"
  {
    assert buffer[..e] == front + v;
    buffer[e] := '\n';
    buffer[e + 1] := '\0';
    text := buffer[..e + 1];
  }

  /** The line that writesection composes in the buffer. */
  method ComposeSection(section: string, size: nat) returns (text: string)
    requires size > 4 && IsCString(section)
    ensures text == HeadLine(section, size) + "\n"
  {
    var buffer := new char[size];
    buffer[0] := '[';
    ghost var s := Stored(section, size - 4, QuoteNone);
    StoredIsCString(section, size - 4, QuoteNone);
    SaveStrncpy(buffer, 1, section, size - 4, QuoteNone);
    var p := StrEnd(buffer, 1, s);
    assert buffer[..p] == "[" + s;
    buffer[p] := ']';
    text := Terminate(buffer, p, p + 1, "[" + s, "]");
  }

  class Rewriter {
    /** The size of the line buffer. */
    const size: nat
    /** What cache_flush finds in front of an empty buffer is not a line terminator. */
    const gap: bool
    const rfp: Reader
    var written: string
    var mark: nat
    var cachelen: nat
    /** The lines at the mark, behind the cached ones, and at the position of the reader. */
    ghost var marked: nat
    ghost var cached: nat
    ghost var read: nat

    constructor (text: string, size: nat, gap: bool, ghost lines: seq<string>)
      requires size > 4 && Fits(lines, size) && text == Text(lines)
      ensures fresh(rfp) && Holding(lines, "") && this.size == size && this.gap == gap
      ensures marked == cached == read == 0
    {
      this.size, this.gap := size, gap;
      rfp := new Reader(text);
      written, mark, cachelen := "", 0, 0;
      marked, cached, read := 0, 0, 0;
      new;
      OffsetEnds(lines);
      assert lines[0..0] == [];
    }

    /** With the cached lines, `output` has been written. */
    ghost predicate Holding(lines: seq<string>, output: string)
      reads this, rfp
    {
      && size > 4 && Fits(lines, size) && marked <= cached <= read <= |lines| && rfp.At(lines, read)
      && mark == Offset(lines, marked) && cachelen == Offset(lines, cached) - Offset(lines, marked) < size
      && written + Text(lines[marked..cached]) == output
    }

    /** Nothing is cached, and everything that was read is dealt with. */
    ghost predicate Clear()
      reads this
    {
      marked == cached == read
    }

    // -------------------------------------------------------------------------
    // The cache
    // -------------------------------------------------------------------------

    method ReadNext(ghost lines: seq<string>, ghost output: string) returns (ok: bool, buffer: string)
      requires Holding(lines, output)
      modifies rfp, this`read
      ensures Holding(lines, output) && ok == (old(read) < |lines|)
      ensures if ok then read == old(read) + 1 && buffer == lines[old(read)] + "\n" else read == old(read)
    {
      hide Text, IsLine, Offset, Reader.At;
      ok, buffer := rfp.ReadLine(size, lines, read);
      read := if ok then read + 1 else read;
    }

    /** cache_accum of the line that was read last. */
    method CacheAccum(buffer: string, ghost lines: seq<string>, ghost output: string) returns (ok: bool)
      requires Holding(lines, output) && cached < |lines| && read == cached + 1 && buffer == lines[cached] + "\n"
      modifies this`cachelen, this`cached
      ensures ok == (old(cachelen) + |buffer| < size)
      ensures if ok then Holding(lines, output + buffer) && cached == read
              else Holding(lines, output) && cached == old(cached)
    {
      if cachelen + |buffer| >= size {
        return false;
      }
      OffsetNext(lines, cached);
      OneMoreLine(lines, marked, cached, written);
      cachelen := cachelen + |buffer|;
      cached := cached + 1;
      return true;
    }

    lemma OneMoreLine(lines: seq<string>, m: nat, c: nat, w: string)
      requires m <= c < |lines|
      ensures w + Text(lines[m..c + 1]) == w + Text(lines[m..c]) + (lines[c] + "\n")
    {
      assert lines[m..c + 1] == lines[m..c] + [lines[c]];
      TextAppend(lines[m..c], [lines[c]]);
      TextOne(lines[c]);
    }

    /** cache_flush: whether what was written ended in a line terminator. */
    method CacheFlush(ghost lines: seq<string>, ghost output: string) returns (flag: bool)
      requires Holding(lines, output)
      modifies rfp, this`written, this`mark, this`cachelen, this`marked, this`read
      ensures Holding(lines, output) && Clear() && cached == old(cached)
      ensures flag == (old(marked) < cached || !gap)
    {
      ghost var m := marked;
      rfp.pos := mark;
      var buffer := ReadAgain(lines, m);
      flag := if |buffer| == 0 then !gap else buffer[|buffer| - 1] == '\n';
      written := written + buffer;
      mark := rfp.pos;
      cachelen := 0;
      marked, read := cached, cached;
    }

    /** The cached lines are read again, into the rest of the buffer that they leave. */
    method ReadAgain(ghost lines: seq<string>, ghost m: nat) returns (buffer: string)
      requires size > 4 && Fits(lines, size) && m <= cached <= |lines| && rfp.At(lines, m)
      requires cachelen == Offset(lines, cached) - Offset(lines, m) < size
      modifies rfp
      ensures rfp.At(lines, cached) && buffer == Text(lines[m..cached])
      ensures buffer == [] <==> m == cached
      ensures m < cached ==> buffer[|buffer| - 1] == '\n'
    {
      hide Text, Offset, Reader.At;
      buffer := [];
      ghost var x := m;
      assert lines[m..m] == [];
      NoText();
      while |buffer| < cachelen
        invariant m <= x <= cached && rfp.At(lines, x) && buffer == Text(lines[m..x])
        invariant |buffer| == Offset(lines, x) - Offset(lines, m)
        invariant if m < x then buffer != [] && buffer[|buffer| - 1] == '\n' else buffer == []
        decreases cachelen - |buffer|
      {
        LineWithin(lines, m, x, cached);
        var ok, chunk := rfp.ReadLine(size - |buffer|, lines, x);
        buffer := buffer + chunk;
        x := x + 1;
      }
      if x < cached {
        LineWithin(lines, m, x, cached);
      }
    }

    lemma NoText()
      ensures Text([]) == []
    {
    }

    lemma LineWithin(lines: seq<string>, m: nat, x: nat, c: nat)
      requires m <= x <= c <= |lines|
      ensures Offset(lines, x) <= Offset(lines, c)
      ensures x < c ==> Offset(lines, x) + |lines[x]| + 1 == Offset(lines, x + 1) <= Offset(lines, c)
      ensures x < c ==> Text(lines[m..x + 1]) == Text(lines[m..x]) + (lines[x] + "\n")
    {
      hide Text;
      TextSlice(lines, x, c);
      if x < c {
        OffsetNext(lines, x);
        TextSlice(lines, x + 1, c);
        OneMoreLine(lines, m, x, []);
        assert [] + Text(lines[m..x + 1]) == Text(lines[m..x + 1]) && [] + Text(lines[m..x]) == Text(lines[m..x]);
      }
    }
  
    /** The line that was read last is cached; if there is no room, the cache is flushed and the
        line is read again. */
    method Copy(buffer: string, ghost lines: seq<string>, ghost output: string)
      requires Holding(lines, output) && cached < |lines| && read == cached + 1 && buffer == lines[cached] + "\n"
      modifies rfp, this`written, this`mark, this`cachelen, this`marked, this`cached, this`read
      ensures Holding(lines, output + (lines[old(cached)] + "\n")) && marked < cached == read == old(cached) + 1
    {
      assert |lines[cached]| + 2 <= size;
      hide Text, Offset, Reader.At;
      var ok := CacheAccum(buffer, lines, output);
      if !ok {
        var _ := CacheFlush(lines, output);
        EmptyCache(lines, output);
        hide Holding;
        var _, again := ReadNext(lines, output);
        ok := CacheAccum(again, lines, output);
      }
    }

    lemma EmptyCache(lines: seq<string>, output: string)
      requires Holding(lines, output) && marked == cached
      ensures cachelen == 0 && written == output
    {
      assert lines[marked..cached] == [];
      NoText();
    }

    // -------------------------------------------------------------------------
    // The passes over the file
    // -------------------------------------------------------------------------

    /** Lines from `k` on have been copied behind `output`. */
    ghost predicate Copying(lines: seq<string>, k: nat, output: string)
      reads this, rfp
    {
      k <= cached <= |lines| && Holding(lines, output + Text(lines[k..cached]))
    }

    lemma CopyStarts(lines: seq<string>, output: string)
      requires Holding(lines, output)
      ensures Copying(lines, cached, output) && read <= |lines|
    {
      assert lines[cached..cached] == [];
      NoText();
      assert output + [] == output;
    }

    method ReadToCopy(ghost lines: seq<string>, ghost k: nat, ghost output: string) returns (ok: bool, buffer: string)
      requires Copying(lines, k, output)
      modifies rfp, this`read
      ensures Copying(lines, k, output) && ok == (old(read) < |lines|)
      ensures if ok then read == old(read) + 1 && buffer == lines[old(read)] + "\n" else read == old(read)
    {
      hide Holding, Text;
      ok, buffer := ReadNext(lines, output + Text(lines[k..cached]));
    }

    method CopyOn(buffer: string, ghost lines: seq<string>, ghost k: nat, ghost output: string)
      requires Copying(lines, k, output)
      requires cached < |lines| && read == cached + 1 && buffer == lines[cached] + "\n"
      modifies rfp, this`written, this`mark, this`cachelen, this`marked, this`cached, this`read
      ensures Copying(lines, k, output) && marked < cached == read == old(cached) + 1
    {
      hide Holding, Text;
      OneMoreLine(lines, k, cached, output);
      Copy(buffer, lines, output + Text(lines[k..cached]));
    }

    /** Up to the head of the section, and with it if `keep`. */
    method CopyToSection(section: string, keep: bool, ghost lines: seq<string>) returns (found: bool)
      requires Holding(lines, "") && Clear() && read == 0
      modifies rfp, this`written, this`mark, this`cachelen, this`marked, this`cached, this`read
      ensures Copying(lines, 0, "") && found == (FindHead(lines, 0, section) < |lines|)
      ensures cached == FindHead(lines, 0, section) + (if found && keep then 1 else 0)
      ensures !found ==> (marked < cached <==> lines != [])
    {
      CopyStarts(lines, "");
      hide Copying, Holding, Heads;
      while true
        invariant cached == read <= |lines| && Copying(lines, 0, "") && (marked < cached <==> read > 0)
        invariant FindHead(lines, 0, section) == FindHead(lines, read, section)
        decreases |lines| - read
      {
        var ok, buffer := ReadToCopy(lines, 0, "");
        if !ok {
          return false;
        }
        found := Heads(buffer, section);
        if !found || keep {
          CopyOn(buffer, lines, 0, "");
        }
        if found {
          return;
        }
      }
    }

    /** Up to the key, or to the end of the section. */
    method CopyToTarget(key: string, ghost lines: seq<string>, ghost k: nat, ghost output: string)
        returns (end: bool, opens: bool)
      requires Holding(lines, output) && Clear() && read == k
      modifies rfp, this`written, this`mark, this`cachelen, this`marked, this`cached, this`read
      ensures Copying(lines, k, output) && k <= |lines| && cached == FindTarget(lines, k, key)
      ensures end == (cached == |lines|) && (!end ==> read == cached + 1 && opens == OpenAt(lines, cached))
      ensures k < cached <==> marked < cached
    {
      CopyStarts(lines, output);
      hide Copying, Holding, Names, Opens;
      while true
        invariant k <= cached == read <= |lines| && Copying(lines, k, output) && (k < cached <==> marked < cached)
        invariant FindTarget(lines, k, key) == FindTarget(lines, read, key)
        decreases |lines| - read
      {
        var ok, buffer := ReadToCopy(lines, k, output);
        if !ok {
          return true, false;
        }
        opens := Opens(buffer);
        if Names(buffer, key) || opens {
          return false, opens;
        }
        CopyOn(buffer, lines, k, output);
      }
    }

    /** Up to the end of the section, without copying. */
    method SkipSection(ghost lines: seq<string>, ghost output: string) returns (end: bool)
      requires Holding(lines, output) && Clear()
      modifies rfp, this`mark, this`marked, this`cached, this`read
      ensures old(read) <= |lines| && cached == FindOpen(lines, old(read)) && Holding(lines, output)
      ensures end == (cached == |lines|) && marked == cached && (!end ==> read == cached + 1)
    {
      ghost var k := read;
      assert k <= |lines|;
      hide Opens, Holding;
      while true
        invariant k <= read <= |lines| && Clear() && Holding(lines, output)
        invariant FindOpen(lines, k) == FindOpen(lines, read)
        decreases |lines| - read
      {
        var ok, buffer := ReadNext(lines, output);
        if !ok {
          return true;
        }
        if Opens(buffer) {
          return false;
        }
        Forget(lines, output);
      }
    }

    /** The mark is moved behind the line that was read last. */
    method Forget(ghost lines: seq<string>, ghost output: string)
      requires Holding(lines, output) && marked == cached
      modifies this`mark, this`marked, this`cached
      ensures Holding(lines, output) && Clear() && read == old(read)
    {
      EmptyCache(lines, output);
      assert lines[read..read] == [];
      mark := rfp.pos;
      marked, cached := read, read;
    }

    /** The rest of the file. */
    method CopyRest(ghost lines: seq<string>, ghost output: string)
      requires Holding(lines, output) && cached == read
      modifies rfp, this`written, this`mark, this`cachelen, this`marked, this`cached, this`read
      ensures old(read) <= |lines| && written == output + Text(lines[old(read)..])
    {
      ghost var k := read;
      CopyStarts(lines, output);
      hide Copying, Holding, Text;
      var more := true;
      while more
        invariant k <= cached == read <= |lines| && Copying(lines, k, output) && (!more ==> read == |lines|)
        decreases |lines| - read, more
      {
        var buffer;
        more, buffer := ReadToCopy(lines, k, output);
        if more {
          CopyOn(buffer, lines, k, output);
        }
      }
      FlushAll(lines, k, output);
    }

    method FlushAll(ghost lines: seq<string>, ghost k: nat, ghost output: string)
      requires Copying(lines, k, output) && cached == |lines|
      modifies rfp, this`written, this`mark, this`cachelen, this`marked, this`read
      ensures written == output + Text(lines[k..])
    {
      hide Holding, Text;
      assert lines[k..cached] == lines[k..];
      var _ := CacheFlush(lines, output + Text(lines[k..]));
      EmptyCache(lines, output + Text(lines[k..]));
    }
  
    // -------------------------------------------------------------------------
    // ini_puts
    // -------------------------------------------------------------------------

    /** New text is written while nothing is cached. */
    method Write(text: string, ghost lines: seq<string>, ghost output: string)
      requires Holding(lines, output) && marked == cached
      modifies this`written
      ensures Holding(lines, output + text)
    {
      EmptyCache(lines, output);
      assert lines[marked..cached] == [];
      written := written + text;
    }
  
    lemma RestText(lines: seq<string>, j: nat)
      requires j < |lines|
      ensures (lines[j] + "\n") + Text(lines[j + 1..]) == Text(lines[j..])
    {
      assert lines[j..][1..] == lines[j + 1..];
    }

    /** The search ended at line `j`, before the end of the file: the new text takes the place of
        the line, or goes before it if it opens a section. */
    method FinishAt(text: string, opens: bool, ghost lines: seq<string>, ghost output: string, ghost j: nat)
      requires Holding(lines, output) && cached == j < |lines| && read == j + 1
      modifies rfp, this`written, this`mark, this`cachelen, this`marked, this`cached, this`read
      ensures written == output + text + Text(lines[if opens then j else j + 1..])
    {
      hide Text, Offset, Reader.At;
      var _ := CacheFlush(lines, output);
      Write(text, lines, output);
      assert cachelen == 0 && |lines[j]| + 2 <= size by { EmptyCache(lines, output + text); }
      hide Holding;
      var _, buffer := ReadNext(lines, output + text);
      if opens {
        var _ := CacheAccum(buffer, lines, output + text);
        CopyRest(lines, output + text + buffer);
        RestText(lines, j);
        assert output + text + buffer + Text(lines[j + 1..]) == output + text + (buffer + Text(lines[j + 1..]));
      } else {
        Forget(lines, output + text);
        CopyRest(lines, output + text);
      }
    }

    /** The file ended: new text, if there is any, goes behind it, on a line of its own. */
    method FinishAtEnd(text: string, ghost lines: seq<string>, ghost output: string)
      requires Holding(lines, output)
      modifies rfp, this`written, this`mark, this`cachelen, this`marked, this`read
      ensures written == output + (if text != "" && old(marked) == cached && gap then "\n" else "") + text
    {
      hide Text, Offset, Reader.At;
      var flag := CacheFlush(lines, output);
      EmptyCache(lines, output);
      if text != "" {
        if !flag {
          written := written + "\n";
        }
        written := written + text;
      }
    }
  
    /** Up to where the keys of the section start, or, to erase the section, to its head. */
    method CopyToStart(section: string, keep: bool, ghost lines: seq<string>) returns (found: bool)
      requires Holding(lines, "") && Clear() && read == 0
      modifies rfp, this`written, this`mark, this`cachelen, this`marked, this`cached, this`read
      ensures found == (Start(lines, section) <= |lines|)
      ensures found ==> Clear() && read == (if section == "" || keep then Start(lines, section) else Start(lines, section) - 1)
      ensures !found ==> cached == |lines| && (marked < cached <==> lines != [])
      ensures cached <= |lines| && Holding(lines, Text(lines[..cached]))
    {
      hide Text, FindHead, Holding;
      found := true;
      NoText();
      assert lines[..0] == [];
      if |section| > 0 {
        found := CopyToSection(section, keep, lines);
        assert Holding(lines, Text(lines[..cached])) by {
          assert lines[0..cached] == lines[..cached];
          assert "" + Text(lines[..cached]) == Text(lines[..cached]);
        }
        if !found {
          return;
        }
        assert cached <= |lines|;
      }
      Cached(lines, Text(lines[..cached]));
      var _ := CacheFlush(lines, Text(lines[..cached]));
    }

    lemma Cached(lines: seq<string>, output: string)
      requires Holding(lines, output)
      ensures marked <= cached <= read <= |lines|
    {
    }

    /** The key is replaced, inserted or, if there is no text, erased. */
    method PutsKey(key: string, text: string, ghost lines: seq<string>, ghost k: nat, ghost line: string)
      requires k <= |lines| && Holding(lines, Text(lines[..k])) && Clear() && read == k
      requires text == "" || text == line + "\n"
      modifies rfp, this`written, this`mark, this`cachelen, this`marked, this`cached, this`read
      ensures var j := FindTarget(lines, k, key);
              written == Text(if text == "" then EraseAt(lines, j) else PutAt(lines, j, line, gap && k == |lines|))
    {
      hide Text, Holding, Opens, FindTarget;
      var end, opens := CopyToTarget(key, lines, k, Text(lines[..k]));
      ghost var j := cached;
      Joined(lines, k, j);
      if end {
        Cached(lines, Text(lines[..j]));
        FinishAtEnd(text, lines, Text(lines[..j]));
        assert lines[..j] == lines;
        PutAtEndText(lines, line, gap && k == |lines|);
      } else {
        FinishAt(text, opens, lines, Text(lines[..j]), j);
        PutAtText(lines, j, line);
        EraseAtText(lines, j);
      }
    }

    lemma Joined(lines: seq<string>, k: nat, j: nat)
      requires k <= j <= |lines|
      ensures Text(lines[..k]) + Text(lines[k..j]) == Text(lines[..j])
    {
      assert lines[..j] == lines[..k] + lines[k..j];
      TextAppend(lines[..k], lines[k..j]);
    }

    lemma PutAtEndText(lines: seq<string>, line: string, g: bool)
      ensures Text(PutAt(lines, |lines|, line, g)) == Text(lines) + (if g then "\n" else "") + (line + "\n")
    {
      hide Text;
      TextAppend(lines + Gap(g), [line]);
      TextAppend(lines, Gap(g));
      TextOne(line);
      TextOne("");
      NoText();
      assert "" + "\n" == "\n";
    }

    lemma PutAtText(lines: seq<string>, j: nat, line: string)
      requires j < |lines|
      ensures Text(PutAt(lines, j, line, false))
           == Text(lines[..j]) + (line + "\n") + Text(lines[if OpenAt(lines, j) then j else j + 1..])
      ensures PutAt(lines, j, line, false) == PutAt(lines, j, line, true)
    {
      hide Text, Opens;
      var rest := lines[if OpenAt(lines, j) then j else j + 1..];
      TextAppend(lines[..j] + [line], rest);
      TextAppend(lines[..j], [line]);
      TextOne(line);
    }

    lemma EraseAtText(lines: seq<string>, j: nat)
      requires j < |lines|
      ensures Text(EraseAt(lines, j)) == Text(lines[..j]) + "" + Text(lines[if OpenAt(lines, j) then j else j + 1..])
    {
      hide Text, Opens;
      TextAppend(lines[..j], lines[if OpenAt(lines, j) then j else j + 1..]);
      assert lines == lines[..j] + lines[j..];
    }
  
    /** The section at line `h` is erased. */
    method PutsNothing(ghost lines: seq<string>, ghost h: nat)
      requires h <= |lines| && Holding(lines, Text(lines[..h])) && Clear() && read == h
      modifies rfp, this`written, this`mark, this`cachelen, this`marked, this`cached, this`read
      ensures written == Text(lines[..h] + lines[FindOpen(lines, Min(h + 1, |lines|))..])
    {
      hide Text, Holding, Opens, FindOpen;
      var _, _ := ReadNext(lines, Text(lines[..h]));
      Forget(lines, Text(lines[..h]));
      var end := SkipSection(lines, Text(lines[..h]));
      ghost var j := cached;
      TextAppend(lines[..h], lines[j..]);
      if end {
        assert lines[j..] == [];
        NoText();
        FinishAtEnd("", lines, Text(lines[..h]));
      } else {
        FinishAt("", true, lines, Text(lines[..h]), j);
        assert Text(lines[..h]) + "" == Text(lines[..h]);
      }
    }

    method PutsSection(section: string, ghost lines: seq<string>)
      requires Holding(lines, "") && Clear() && read == 0
      modifies rfp, this`written, this`mark, this`cachelen, this`marked, this`cached, this`read
      ensures size > 4 && written == Text(Edit(lines, section, EraseSection, size, gap))
    {
      assert size > 4;
      hide Text, Holding, FindHead, FindOpen;
      var found := CopyToStart(section, false, lines);
      if found {
        PutsNothing(lines, read);
        if section == "" {
          assert lines[..0] == [];
          assert [] + lines[FindOpen(lines, Min(1, |lines|))..] == lines[FindOpen(lines, Min(1, |lines|))..];
        }
      } else {
        assert lines[..cached] == lines;
        FinishAtEnd("", lines, Text(lines));
      }
    }

    /** The section is missing: a new one is appended. */
    method PutsNew(section: string, text: string, ghost lines: seq<string>, ghost line: string)
      requires Holding(lines, Text(lines)) && size > 4 && IsCString(section) && text == line + "\n"
      requires cached == |lines| && (marked < cached <==> lines != [])
      modifies rfp, this`written, this`mark, this`cachelen, this`marked, this`read
      ensures written == Text(lines + Gap(gap && lines == []) + [HeadLine(section, size), line])
    {
      hide Text, Holding, HeadLine;
      var head := ComposeSection(section, size);
      Cached(lines, Text(lines));
      FinishAtEnd(head + text, lines, Text(lines));
      NewSectionText(lines, gap && lines == [], HeadLine(section, size), line);
    }

    /** ini_puts, when the value is not there yet. */
    method Puts(section: string, request: Request, ghost lines: seq<string>)
      requires Holding(lines, "") && Clear() && read == 0 && IsCString(section)
      requires !request.EraseSection? ==> IsCString(request.key)
      requires request.Put? ==> IsCString(request.value)
      requires size > 4 && request.Put? ==> Lookup(lines, section, request.key, size) != Some(request.value)
      modifies rfp, this`written, this`mark, this`cachelen, this`marked, this`cached, this`read
      ensures size > 4 && written == Text(Edit(lines, section, request, size, gap))
    {
      assert size > 4;
      hide *;
      if request.EraseSection? {
        PutsSection(section, lines);
      } else {
        PutsEntry(section, request, lines);
      }
    }

    method PutsEntry(section: string, request: Request, ghost lines: seq<string>)
      requires Holding(lines, "") && Clear() && read == 0 && IsCString(section)
      requires !request.EraseSection? && IsCString(request.key) && (request.Put? ==> IsCString(request.value))
      requires size > 4 && request.Put? ==> Lookup(lines, section, request.key, size) != Some(request.value)
      modifies rfp, this`written, this`mark, this`cachelen, this`marked, this`cached, this`read
      ensures size > 4 && written == Text(Edit(lines, section, request, size, gap))
    {
      assert size > 4;
      hide Text, Holding, Start, FindTarget, Lookup, KeyLine, HeadLine, PutAt, EraseAt, IsCString;
      var text := "";
      ghost var line := "";
      if request.Put? {
        text := ComposeKey(request.key, request.value, size);
        line := KeyLine(request.key, request.value, size);
      }
      var found := CopyToStart(section, true, lines);
      if found {
        assert section == "" ==> read == Start(lines, section);
        PutsKey(request.key, text, lines, read, line);
      } else {
        assert lines[..cached] == lines;
        if request.Put? {
          PutsNew(section, text, lines, line);
        } else {
          FinishAtEnd("", lines, Text(lines));
        }
      }
    }

    lemma NewSectionText(lines: seq<string>, g: bool, head: string, line: string)
      ensures Text(lines + Gap(g) + [head, line])
           == Text(lines) + (if g then "\n" else "") + ((head + "\n") + (line + "\n"))
    {
      hide Text;
      TextAppend(lines + Gap(g), [head, line]);
      TextAppend(lines, Gap(g));
      TextAppend([head], [line]);
      assert [head] + [line] == [head, line];
      TextOne(head);
      TextOne(line);
      TextOne("");
      NoText();
      assert "" + "\n" == "\n";
    }
  }

  /** ini_puts on a file of lines that fit the buffer: the file it leaves is the file with its
      list of lines edited. A value that is there already is not written again. */
  method IniPuts(text: string, section: string, request: Request, size: nat, gap: bool, ghost lines: seq<string>)
      returns (result: string)
    requires size > 4 && Fits(lines, size) && text == Text(lines) && IsCString(section)
    requires !request.EraseSection? ==> IsCString(request.key)
    requires request.Put? ==> IsCString(request.value)
    ensures result == Text(Edit(lines, section, request, size, gap))
  {
    hide Text, Lookup;
    if request.Put? {
      var fp := new Reader(text);
      assert fp.At(lines, 0) by { OffsetEnds(lines); }
      var match_, found := GetKeyString(fp, section, request.key, size, size, lines);
      if match_ && found == request.value {
        return text;
      }
    }
    var w := new Rewriter(text, size, gap, lines);
    w.Puts(section, request, lines);
    return w.written;
  }

  /** ini_puts of a value when there is no file yet: it is as if the file had been empty. */
  method IniCreate(section: string, key: string, value: string, size: nat) returns (result: string)
    requires size > 4 && IsCString(section) && IsCString(key) && IsCString(value)
    ensures result == Text(Edit([], section, Put(key, value), size, false))
  {
    hide KeyLine, HeadLine;
    result := "";
    if |section| > 0 {
      result := ComposeSection(section, size);
    }
    var line := ComposeKey(key, value, size);
    result := result + line;
    NewFileText(section, HeadLine(section, size), KeyLine(key, value, size));
    NewFileEdit(section, key, value, size);
  }

  function NewFile(section: string, head: string, line: string): seq<string> {
    if section == "" then [line] else [head, line]
  }

  lemma NewFileText(section: string, head: string, line: string)
    ensures Text(NewFile(section, head, line)) == (if section == "" then "" else head + "\n") + (line + "\n")
  {
    hide Text;
    TextOne(head);
    TextOne(line);
    TextAppend([head], [line]);
    assert [head] + [line] == [head, line];
  }

  lemma NewFileEdit(section: string, key: string, value: string, size: nat)
    requires size > 4
    ensures Edit([], section, Put(key, value), size, false)
         == NewFile(section, HeadLine(section, size), KeyLine(key, value, size))
  {
    hide KeyLine, HeadLine;
  }
}
