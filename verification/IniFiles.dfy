/** The laws of putting for files, that is, for the lines that fgets reads of what ini_puts has
    written. A value with a line break does not survive that: it spills over into further lines. */
module IniFiles {
  import opened Basics
  import opened CaseFold
  import opened IniText
  import opened IniQuotes
  import opened IniLookup
  import opened IniEdit
  import opened IniLaws
  import opened IniHistory

  /** The text is read as these lines, with a buffer of `size` characters. */
  ghost predicate ReadsAs(text: string, lines: seq<string>, size: nat) {
    Fits(lines, size) && text == Text(lines)
  }

  /** A text is read as one list of lines only. */
  lemma ReadsAsOne(text: string, a: seq<string>, b: seq<string>, size: nat)
    requires ReadsAs(text, a, size) && ReadsAs(text, b, size)
    ensures a == b
  {
    hide Text;
    TextInjective(a, b);
  }

  /** No lookup in lines gives a value with a line break. */
  lemma NoBreakFound(lines: seq<string>, section: string, key: string, maxlen: nat, size: nat)
    requires Fits(lines, size) && maxlen > 0
    ensures var r := Lookup(lines, section, key, maxlen); r.Some? ==> '\n' !in r.value
  {
    var k := Start(lines, section);
    if k <= |lines| {
      var j := FindKey(lines, k, key);
      if j < |lines| && !OpenAt(lines, j) {
        NoBreakInValue(lines[j], maxlen);
      }
    }
  }

  lemma NoBreakInValue(line: string, maxlen: nat)
    requires IsLine(line) && maxlen > 0 && Sign(SkipLeading(line + "\n")) < |SkipLeading(line + "\n")|
    ensures '\n' !in ValueOf(line + "\n", maxlen)
  {
    hide *;
    var sp := SkipLeading(line + "\n");
    SuffixOfLine(line, sp, Sign(sp));
    NoBreakInRest(sp[Sign(sp) + 1..], maxlen);
    ValueIs(line + "\n", maxlen);
  }

  lemma ValueIs(b: string, maxlen: nat)
    requires maxlen > 0 && Sign(SkipLeading(b)) < |SkipLeading(b)|
    ensures ValueOf(b, maxlen) == Decode(SkipLeading(b)[Sign(SkipLeading(b)) + 1..], maxlen)
  {
    hide Decode, SkipLeading, Sign;
  }

  lemma NoBreakInRest(rest: string, maxlen: nat)
    requires maxlen > 0 && (rest != [] ==> rest[|rest| - 1] == '\n' && '\n' !in rest[..|rest| - 1])
    ensures '\n' !in Decode(rest, maxlen)
  {
    hide Decode;
    if rest == [] {
      EmptyDecodes(rest, maxlen);
    } else {
      NoBreakDecoded(rest[..|rest| - 1], maxlen);
      assert rest == rest[..|rest| - 1] + "\n";
    }
  }

  lemma SuffixOfLine(line: string, sp: string, i: nat)
    requires IsLine(line) && |sp| <= |line| + 1 && sp == (line + "\n")[|line| + 1 - |sp|..] && i < |sp|
    ensures var rest := sp[i + 1..];
            rest != [] ==> rest[|rest| - 1] == '\n' && '\n' !in rest[..|rest| - 1]
  {
    var b, rest := line + "\n", sp[i + 1..];
    assert rest == b[|b| - |rest|..];
    if rest != [] {
      assert rest[..|rest| - 1] == line[|b| - |rest|..];
    }
  }

  lemma EmptyDecodes(rest: string, maxlen: nat)
    requires rest == [] && maxlen > 0
    ensures Decode(rest, maxlen) == []
  {
    TrimNothing(rest);
  }

  /** Put/get law: the value that is put is what is looked up in the file, if and only if it has no
      line break and is quoted, or has no blanks at its ends, or was there before. */
  lemma PutThenGet(lines: seq<string>, section: string, key: string, value: string, size: nat, gap: bool,
                   file: seq<string>, maxlen: nat)
    requires size > 4 && Fits(lines, size) && SectionName(section, size) && KeyName(key, size)
    requires IsCString(value) && ValueFits(key, value, size) && |value| < maxlen
    requires ReadsAs(Text(Edit(lines, section, Put(key, value), size, gap)), file, size)
    ensures Lookup(file, section, key, maxlen) == Some(value)
       <==> IsLine(value) && (NeedsQuotes(value) || Unpadded(value) || Lookup(lines, section, key, size) == Some(value))
  {
    hide Lookup, Edit, Text, Fits, ValueFits, NeedsQuotes, Unpadded;
    if IsLine(value) {
      PutReadsAs(lines, section, key, value, size, gap, file);
      PutIsFound(lines, section, key, value, size, gap, maxlen);
    } else {
      FileFits(Text(Edit(lines, section, Put(key, value), size, gap)), file, size);
      NoBreakFound(file, section, key, maxlen, size);
    }
  }

  lemma FileFits(text: string, file: seq<string>, size: nat)
    requires ReadsAs(text, file, size)
    ensures Fits(file, size)
  {
  }

  lemma PutReadsAs(lines: seq<string>, section: string, key: string, value: string, size: nat, gap: bool, file: seq<string>)
    requires size > 4 && Fits(lines, size) && SectionName(section, size) && KeyName(key, size) && IsLine(value)
    requires ReadsAs(Text(Edit(lines, section, Put(key, value), size, gap)), file, size)
    ensures file == Edit(lines, section, Put(key, value), size, gap)
  {
    assert IsLine(section) && IsLine(key);
    hide Edit, Text, Fits, SectionName, KeyName;
    var edited := Edit(lines, section, Put(key, value), size, gap);
    EditFits(lines, section, Put(key, value), size, gap);
    ReadsAsOne(Text(edited), file, edited, size);
  }

  /** Frame law: of a value without line breaks, every lookup in the file of a pair that differs, up
      to case, is as before. */
  lemma PutKeepsOthers(lines: seq<string>, section: string, key: string, value: string, size: nat, gap: bool,
                       file: seq<string>, q: Query)
    requires size > 4 && Fits(lines, size) && SectionName(section, size) && KeyName(key, size) && IsLine(value)
    requires ReadsAs(Text(Edit(lines, section, Put(key, value), size, gap)), file, size)
    requires q.maxlen > 0 && Differs(section, key, q)
    ensures Lookup(file, q.section, q.key, q.maxlen) == Lookup(lines, q.section, q.key, q.maxlen)
  {
    hide Lookup, Edit, Text, Fits, SectionName, KeyName, Differs;
    PutReadsAs(lines, section, key, value, size, gap, file);
    PutPasses(lines, section, key, value, size, gap, q);
  }

  // ---------------------------------------------------------------------------
  // Values with line breaks
  // ---------------------------------------------------------------------------

  /** A value that, behind a line break, looks like a line of another key. */
  function Spilling(first: string, other: string, second: string): string {
    first + "\n" + other + "=" + second
  }

  lemma PartsPlain(first: string, other: string, second: string)
    requires !NeedsQuotes(Spilling(first, other, second))
    ensures !NeedsQuotes(second)
  {
    var v, n := Spilling(first, other, second), |first| + 1 + |other| + 1;
    assert forall i :: 0 <= i < |second| ==> second[i] == v[n + i];
  }

  /** The line of such a value is two lines. */
  lemma SpillingLines(key: string, first: string, other: string, second: string, size: nat)
    requires size > 4 && KeyName(key, size) && KeyName(other, size) && !NeedsQuotes(first)
    requires var v := Spilling(first, other, second); !NeedsQuotes(v) && ValueFits(key, v, size)
    ensures KeyLine(key, Spilling(first, other, second), size) + "\n"
         == KeyLine(key, first, size) + "\n" + (KeyLine(other, second, size) + "\n")
    ensures !NeedsQuotes(second) && ValueFits(key, first, size) && ValueFits(other, second, size)
  {
    var v := Spilling(first, other, second);
    PartsPlain(first, other, second);
    hide NeedsQuotes, Stored;
    var whole := KeyLineStart(key, v, size);
    var a := KeyLineStart(key, first, size);
    var b := KeyLineStart(other, second, size);
    hide KeyLine;
    assert whole == v && a == first && b == second;
    assert key + ['='] + v + "\n" == key + ['='] + first + "\n" + (other + ['='] + second + "\n");
  }

  /** So putting it into a file with just the section is read back as two keys: the value is cut off
      at its line break, and a key appears that was not there. */
  lemma SpillsOver(section: string, key: string, first: string, other: string, second: string, size: nat)
    requires size > 4 && SectionName(section, size) && section != "" && KeyName(key, size) && KeyName(other, size)
    requires !EqualFold(key, other) && IsLine(first) && IsLine(second) && !NeedsQuotes(first)
    requires Unpadded(first) && Unpadded(second)
    requires var v := Spilling(first, other, second); !NeedsQuotes(v) && ValueFits(key, v, size)
    ensures var v := Spilling(first, other, second);
            var lines, head := [HeadLine(section, size)], HeadLine(section, size);
            var file := [head, KeyLine(key, first, size), KeyLine(other, second, size)];
            && Fits(lines, size) && ReadsAs(Text(Edit(lines, section, Put(key, v), size, false)), file, size)
            && Lookup(lines, section, other, size) == None && Lookup(file, section, other, size) == Some(second)
            && Lookup(file, section, key, size) == Some(first)
  {
    var v := Spilling(first, other, second);
    SpillingLines(key, first, other, second, size);
    var head, a, b := HeadLine(section, size), KeyLine(key, first, size), KeyLine(other, second, size);
    assert IsLine(section) && IsLine(key) && IsLine(other);
    hide NeedsQuotes, Unpadded, KeyName, SectionName, ValueFits, KeyLine, HeadLine, Spilling, EqualFold, IsLine;
    SpilledText(head, KeyLine(key, v, size), a, b);
    NewLinesFit(section, key, first, size);
    NewLinesFit(section, other, second, size);
    HeadOnly(section, key, v, size);
    HeadOnly(section, other, second, size);
    TwoKeys(section, key, first, other, second, size);
    ThreeFit(head, a, b, size);
  }

  lemma ThreeFit(a: string, b: string, c: string, size: nat)
    requires Fits([a], size) && Fits([b], size) && Fits([c], size)
    ensures Fits([a, b, c], size)
  {
    assert [a][0] == a && [b][0] == b && [c][0] == c;
  }

  lemma SpilledText(head: string, line: string, a: string, b: string)
    requires line + "\n" == a + "\n" + (b + "\n")
    ensures Text([head, line]) == Text([head, a, b])
  {
    hide Text;
    TextOne(head);
    TextOne(line);
    TextOne(a);
    TextOne(b);
    TextAppend([head], [line]);
    TextAppend([head], [a, b]);
    TextAppend([a], [b]);
    assert [head] + [line] == [head, line] && [a] + [b] == [a, b] && [head] + [a, b] == [head, a, b];
  }

  /** Putting a key into a file with just the section. */
  lemma HeadOnly(section: string, key: string, value: string, size: nat)
    requires size > 4 && SectionName(section, size) && section != ""
    ensures var lines := [HeadLine(section, size)];
            && Lookup(lines, section, key, size) == None
            && Edit(lines, section, Put(key, value), size, false) == [HeadLine(section, size), KeyLine(key, value, size)]
  {
    hide Opens, Heads, Names, HeadLine, KeyLine, SectionName, EqualFold, Comments;
    HeadLineSays(section, size);
    FoldSame(section);
    var lines := [HeadLine(section, size)];
    assert HeadAt(lines, 0, section);
    assert FindHead(lines, 0, section) == 0 && FindKey(lines, 1, key) == 1 && FindTarget(lines, 1, key) == 1;
    assert lines + Gap(false) + [KeyLine(key, value, size)] == [HeadLine(section, size), KeyLine(key, value, size)];
  }

  /** Two keys put one after the other are both found. */
  lemma TwoKeys(section: string, key: string, first: string, other: string, second: string, size: nat)
    requires size > 4 && SectionName(section, size) && section != "" && KeyName(key, size) && KeyName(other, size)
    requires !EqualFold(key, other) && IsLine(first) && IsLine(second) && Unpadded(first) && Unpadded(second)
    requires ValueFits(key, first, size) && ValueFits(other, second, size)
    ensures var file := [HeadLine(section, size), KeyLine(key, first, size), KeyLine(other, second, size)];
            Lookup(file, section, other, size) == Some(second) && Lookup(file, section, key, size) == Some(first)
  {
    hide NeedsQuotes, Unpadded, KeyName, SectionName, KeyLine, HeadLine, EqualFold, IsLine, Lookup, Opens, Heads, Names;
    var head, a, b := HeadLine(section, size), KeyLine(key, first, size), KeyLine(other, second, size);
    var lines := [head, a];
    HeadOnly(section, key, first, size);
    HeadOnly(section, other, second, size);
    EncodeLonger(first);
    EncodeLonger(second);
    PutIsFound([head], section, key, first, size, false, size);
    var q, r := Query(section, other, size), Query(section, key, size);
    OtherDiffers(section, key, other, q, r);
    PutPasses([head], section, key, first, size, false, q);
    NextKey(section, key, first, other, second, size);
    PutIsFound(lines, section, other, second, size, false, size);
    PutPasses(lines, section, other, second, size, false, r);
  }

  lemma OtherDiffers(section: string, key: string, other: string, q: Query, r: Query)
    requires !EqualFold(key, other) && q.key == other && r.key == key
    ensures Differs(section, key, q) && Differs(section, other, r)
  {
    if EqualFold(other, key) {
      FoldJoins(other, key, other);
    }
  }

  lemma NextKey(section: string, key: string, first: string, other: string, second: string, size: nat)
    requires size > 4 && SectionName(section, size) && section != "" && KeyName(key, size) && !EqualFold(key, other)
    requires Lookup([HeadLine(section, size), KeyLine(key, first, size)], section, other, size) == None
    ensures Edit([HeadLine(section, size), KeyLine(key, first, size)], section, Put(other, second), size, false)
         == [HeadLine(section, size), KeyLine(key, first, size), KeyLine(other, second, size)]
  {
    hide Opens, Heads, Names, HeadLine, KeyLine, SectionName, KeyName, EqualFold, Comments, Lookup;
    var lines := [HeadLine(section, size), KeyLine(key, first, size)];
    HeadLineSays(section, size);
    KeyLineSays(key, first, size);
    FoldSame(section);
    assert HeadAt(lines, 0, section) && !OpenAt(lines, 1);
    assert FindHead(lines, 0, section) == 0;
    assert FindTarget(lines, 1, other) == FindTarget(lines, 2, other) == 2;
    assert lines + Gap(false) + [KeyLine(other, second, size)] == lines + [KeyLine(other, second, size)];
  }

  /** For example "a\no=1" for the key k: it is lost, and o appears. */
  lemma BreakLoses()
    ensures var lines, v := [HeadLine("s", INI_BUFFERSIZE)], Spilling("a", "o", "1");
            exists file ::
              && ReadsAs(Text(Edit(lines, "s", Put("k", v), INI_BUFFERSIZE, false)), file, INI_BUFFERSIZE)
              && Lookup(file, "s", "k", INI_BUFFERSIZE) == Some("a")
              && Lookup(lines, "s", "o", INI_BUFFERSIZE) == None && Lookup(file, "s", "o", INI_BUFFERSIZE) == Some("1")
  {
    var v := Spilling("a", "o", "1");
    assert v == ['a', '\n', 'o', '=', '1'];
    assert !NeedsQuotes(v) && !NeedsQuotes("a");
    assert "k"[0] == 'k' && "o"[0] == 'o';
    hide Lookup, Edit, Text, HeadLine, KeyLine, NeedsQuotes;
    SpillsOver("s", "k", "a", "o", "1", INI_BUFFERSIZE);
  }
}
