/** Reading an INI file: what a line says, looking up a key of a section, and getkeystring,
    which does it line by line. */
module IniLookup {
  import opened Basics
  import opened CaseFold
  import opened IniText
  import opened IniQuotes

  // ---------------------------------------------------------------------------
  // Lines, with their terminators, as they are in the buffer
  // ---------------------------------------------------------------------------

  /** The line starts a section, or at least ends the one before it. */
  predicate Opens(b: string) {
    var sp := SkipLeading(b);
    sp != [] && sp[0] == '['
  }

  /** The line is the head of the section. */
  predicate Heads(b: string, section: string) {
    var sp := SkipLeading(b);
    var ep := IndexOf(sp, ']');
    sp != [] && sp[0] == '[' && ep < |sp| && EqualFold(sp[1..ep], section)
  }

  predicate Comments(b: string) {
    var sp := SkipLeading(b);
    sp != [] && CommentMark(sp[0])
  }

  /** Where the sign between key and value is: an equal sign or, if there is none, a colon. */
  function Sign(sp: string): (ep: nat)
    ensures ep <= |sp|
  {
    if IndexOf(sp, '=') < |sp| then IndexOf(sp, '=') else IndexOf(sp, ':')
  }

  /** What is before the sign is the key. */
  predicate Names(b: string, key: string) {
    var sp := SkipLeading(b);
    Sign(sp) < |sp| && EqualFold(StripTrailing(sp[..Sign(sp)]), key)
  }

  function ValueOf(b: string, maxlen: nat): string
    requires maxlen > 0 && Sign(SkipLeading(b)) < |SkipLeading(b)|
  {
    var sp := SkipLeading(b);
    Decode(sp[Sign(sp) + 1..], maxlen)
  }

  // ---------------------------------------------------------------------------
  // Looking up
  // ---------------------------------------------------------------------------

  predicate HeadAt(lines: seq<string>, i: nat, section: string)
    requires i < |lines|
  {
    Heads(lines[i] + "\n", section)
  }

  predicate OpenAt(lines: seq<string>, i: nat)
    requires i < |lines|
  {
    Opens(lines[i] + "\n")
  }

  predicate KeyAt(lines: seq<string>, i: nat, key: string)
    requires i < |lines|
  {
    Names(lines[i] + "\n", key) && !Comments(lines[i] + "\n")
  }

  /** The head of the section from line `k` on, or the end. */
  function FindHead(lines: seq<string>, k: nat, section: string): (r: nat)
    requires k <= |lines|
    ensures k <= r <= |lines| && (r < |lines| ==> HeadAt(lines, r, section))
    ensures forall i :: k <= i < r ==> !HeadAt(lines, i, section)
    decreases |lines| - k
  {
    if k == |lines| || HeadAt(lines, k, section) then k else FindHead(lines, k + 1, section)
  }

  /** The key from line `k` on, or the end of the section. */
  function FindKey(lines: seq<string>, k: nat, key: string): (r: nat)
    requires k <= |lines|
    ensures k <= r <= |lines| && (r < |lines| ==> OpenAt(lines, r) || KeyAt(lines, r, key))
    ensures forall i :: k <= i < r ==> !OpenAt(lines, i) && !KeyAt(lines, i, key)
    decreases |lines| - k
  {
    if k == |lines| || OpenAt(lines, k) || KeyAt(lines, k, key) then k else FindKey(lines, k + 1, key)
  }

  /** Where the keys of the section start; past the end if there is no such section. Keys of
      the section with the empty name are those above the first section. */
  function Start(lines: seq<string>, section: string): (k: nat)
    ensures k <= |lines| + 1
  {
    if section == "" then 0 else FindHead(lines, 0, section) + 1
  }

  /** The value of a key found from line `k` on. */
  function ValueFrom(lines: seq<string>, k: nat, key: string, maxlen: nat): Option<string>
    requires maxlen > 0
  {
    if k > |lines| then None
    else
      var j := FindKey(lines, k, key);
      if j == |lines| || OpenAt(lines, j) then None else Some(ValueOf(lines[j] + "\n", maxlen))
  }

  function Lookup(lines: seq<string>, section: string, key: string, maxlen: nat): Option<string>
    requires maxlen > 0
  {
    ValueFrom(lines, Start(lines, section), key, maxlen)
  }

  // ---------------------------------------------------------------------------
  // Files
  // ---------------------------------------------------------------------------

  /** All lines fit into a buffer of `size` characters, with their terminators. */
  ghost predicate Fits(lines: seq<string>, size: nat) {
    forall i :: 0 <= i < |lines| ==> IsLine(lines[i]) && |lines[i]| + 2 <= size
  }

  /** A file open for reading. */
  class Reader {
    const text: string
    var pos: nat

    constructor (text: string)
      ensures this.text == text && pos == 0
    {
      this.text, pos := text, 0;
    }

    ghost predicate At(lines: seq<string>, k: nat)
      reads this
    {
      text == Text(lines) && k <= |lines| && pos == Offset(lines, k)
    }

    /** fgets: up to the end of the line, of the file or of the buffer. */
    method Read(size: nat) returns (ok: bool, buffer: string)
      requires size > 1 && pos <= |text|
      modifies this
      ensures ok == (old(pos) < |text|) && pos == old(pos) + |buffer| <= |text|
      ensures buffer == text[old(pos)..pos] && (ok ==> 0 < |buffer| < size)
      ensures ok ==> forall i :: 0 <= i < |buffer| - 1 ==> buffer[i] != '\n'
      ensures ok ==> |buffer| == size - 1 || pos == |text| || buffer[|buffer| - 1] == '\n'
    {
      ok, buffer := pos < |text|, [];
      var start := pos;
      while pos < |text| && |buffer| < size - 1
        invariant start <= pos <= |text| && buffer == text[start..pos] && |buffer| <= size - 1
        invariant forall i :: 0 <= i < |buffer| ==> buffer[i] != '\n'
      {
        buffer := buffer + [text[pos]];
        pos := pos + 1;
        if buffer[|buffer| - 1] == '\n' {
          break;
        }
      }
    }

    /** Lines that fit are read whole. */
    method ReadLine(size: nat, ghost lines: seq<string>, ghost k: nat) returns (ok: bool, buffer: string)
      requires size > 1 && At(lines, k) && (k < |lines| ==> IsLine(lines[k]) && |lines[k]| + 2 <= size)
      modifies this
      ensures ok == (k < |lines|)
      ensures if ok then buffer == lines[k] + "\n" && At(lines, k + 1) else At(lines, k) && buffer == []
    {
      ghost var p := pos;
      OffsetEnds(lines);
      if k < |lines| {
        OffsetNext(lines, k);
      }
      ok, buffer := Read(size);
      if ok {
        WholeLine(text, p, lines[k], buffer);
      }
    }

    lemma WholeLine(text: string, p: nat, line: string, buffer: string)
      requires IsLine(line) && p + |line| + 1 <= |text| && text[p..p + |line| + 1] == line + "\n"
      requires p + |buffer| <= |text| && 0 < |buffer| && buffer == text[p..p + |buffer|]
      requires forall i :: 0 <= i < |buffer| - 1 ==> buffer[i] != '\n'
      requires |buffer| >= |line| + 1 || p + |buffer| == |text| || buffer[|buffer| - 1] == '\n'
      ensures buffer == line + "\n"
    {
      var l := line + "\n";
      var t := text[p..p + |l|];
      assert t[|line|] == '\n' == text[p + |line|];
      assert forall i :: 0 <= i < |buffer| ==> buffer[i] == text[p + i];
      forall i | 0 <= i < |line| && i < |buffer| ensures buffer[i] == line[i] {
        assert t[i] == text[p + i] && l[i] == line[i];
      }
    }
  }

  // ---------------------------------------------------------------------------
  // getkeystring
  // ---------------------------------------------------------------------------

  /** Reads up to the head of the section. */
  method SeekSection(fp: Reader, section: string, size: nat, ghost lines: seq<string>) returns (found: bool)
    requires size > 1 && Fits(lines, size) && fp.At(lines, 0)
    modifies fp
    ensures var h := FindHead(lines, 0, section);
            found == (h < |lines|) && fp.At(lines, if found then h + 1 else h)
  {
    hide Heads, Reader.At;
    ghost var i := 0;
    found := false;
    while !found
      invariant i <= |lines| && fp.At(lines, i)
      invariant if found then i > 0 && FindHead(lines, 0, section) == i - 1 < |lines|
                else FindHead(lines, 0, section) == FindHead(lines, i, section)
      decreases |lines| - i, !found
    {
      var ok, buffer := fp.ReadLine(size, lines, i);
      if !ok {
        return false;
      }
      found := Heads(buffer, section);
      i := i + 1;
    }
    return true;
  }

  /** Reads up to the key, or to the end of the section. */
  method SeekKey(fp: Reader, key: string, size: nat, ghost lines: seq<string>, ghost k: nat)
      returns (found: bool, buffer: string)
    requires size > 1 && Fits(lines, size) && k <= |lines| && fp.At(lines, k)
    modifies fp
    ensures var j := FindKey(lines, k, key);
            found == (j < |lines| && !OpenAt(lines, j)) && (found ==> buffer == lines[j] + "\n")
  {
    hide Names, Comments, Opens, Reader.At;
    ghost var i := k;
    while true
      invariant k <= i <= |lines| && fp.At(lines, i) && FindKey(lines, k, key) == FindKey(lines, i, key)
      decreases |lines| - i
    {
      var ok;
      ok, buffer := fp.ReadLine(size, lines, i);
      if !ok || Opens(buffer) {
        return false, [];
      }
      if !Comments(buffer) && Names(buffer, key) {
        return true, buffer;
      }
      i := i + 1;
    }
  }

  method GetKeyString(fp: Reader, section: string, key: string, maxlen: nat, size: nat, ghost lines: seq<string>)
      returns (ok: bool, value: string)
    requires size > 1 && maxlen > 0 && Fits(lines, size) && fp.At(lines, 0)
    modifies fp
    ensures Lookup(lines, section, key, maxlen) == if ok then Some(value) else None
  {
    hide Fits, Decode, Heads, Opens, Reader.At;
    ok, value := false, [];
    if |section| > 0 {
      var found := SeekSection(fp, section, size, lines);
      if !found {
        return;
      }
    }
    var buffer;
    ok, buffer := SeekKey(fp, key, size, lines, Start(lines, section));
    if ok {
      var sp := SkipLeading(buffer);
      var ep := Sign(sp);
      value := ReadValue(sp[ep + 1..], maxlen);
    }
  }

  /** The end of getkeystring: the value is cleaned and stored. */
  method ReadValue(rest: string, maxlen: nat) returns (value: string)
    requires maxlen > 0
    ensures value == Decode(rest, maxlen)
  {
    var i := FindLeading(rest);
    var clean, quotes := CleanString(rest[i..]);
    value := Stored(clean, maxlen, quotes);
  }
}
