/** Edits of an INI file as edits of its list of lines, and what they mean for lookups: a value
    that is put is found, and nothing else changes. */
module IniEdit {
  import opened Basics
  import opened CaseFold
  import opened IniText
  import opened IniQuotes
  import opened IniLookup

  /** What is asked of ini_puts; a key without a value is erased, and so is a section without a
      key. */
  datatype Request = Put(key: string, value: string) | Erase(key: string) | EraseSection

  // ---------------------------------------------------------------------------
  // New lines
  // ---------------------------------------------------------------------------

  /** What writesection writes. */
  function HeadLine(section: string, size: nat): string
    requires size > 4
  {
    "[" + Stored(section, size - 4, QuoteNone) + "]"
  }

  /** What writekey writes. */
  function KeyLine(key: string, value: string, size: nat): string
    requires size > 4
  {
    var k := Stored(key, size - 3, QuoteNone);
    k + "=" + Stored(value, size - (|k| + 1) - 2, if NeedsQuotes(value) then Enquote else QuoteNone)
  }

  /** A name that can be read back between brackets. */
  ghost predicate SectionName(section: string, size: nat) {
    IsLine(section) && ']' !in section && |section| + 5 <= size
  }

  /** A key that can be read back before an equal sign. */
  ghost predicate KeyName(key: string, size: nat) {
    && IsLine(key) && '=' !in key && |key| + 4 <= size
    && key != [] && Unpadded(key) && key[0] != '[' && !CommentMark(key[0])
  }

  /** There is room for the whole value on the line. */
  predicate ValueFits(key: string, value: string, size: nat) {
    |key| + 1 + |Encode(value)| + 3 <= size
  }

  // ---------------------------------------------------------------------------
  // The edit
  // ---------------------------------------------------------------------------

  /** Where ini_puts stops looking: at the key, or at the end of the section. */
  function FindTarget(lines: seq<string>, k: nat, key: string): (r: nat)
    requires k <= |lines|
    ensures k <= r <= |lines| && (r < |lines| ==> OpenAt(lines, r) || Names(lines[r] + "\n", key))
    ensures forall i :: k <= i < r ==> !OpenAt(lines, i) && !Names(lines[i] + "\n", key)
    decreases |lines| - k
  {
    if k == |lines| || OpenAt(lines, k) || Names(lines[k] + "\n", key) then k else FindTarget(lines, k + 1, key)
  }

  function FindOpen(lines: seq<string>, k: nat): (r: nat)
    requires k <= |lines|
    ensures k <= r <= |lines| && (r < |lines| ==> OpenAt(lines, r))
    ensures forall i :: k <= i < r ==> !OpenAt(lines, i)
    decreases |lines| - k
  {
    if k == |lines| || OpenAt(lines, k) then k else FindOpen(lines, k + 1)
  }

  /** An empty line if `some`. */
  function Gap(some: bool): seq<string> { if some then [""] else [] }

  /** A key line is put at line `j`, where the search for it ended. */
  function PutAt(lines: seq<string>, j: nat, line: string, gap: bool): seq<string>
    requires j <= |lines|
  {
    if j == |lines| then lines + Gap(gap) + [line]
    else if OpenAt(lines, j) then lines[..j] + [line] + lines[j..]
    else lines[..j] + [line] + lines[j + 1..]
  }

  function EraseAt(lines: seq<string>, j: nat): seq<string>
    requires j <= |lines|
  {
    if j == |lines| || OpenAt(lines, j) then lines else lines[..j] + lines[j + 1..]
  }

  /** The edited list of lines. When nothing was copied before a line is appended, ini_puts reads
      a character that was never written; `gap` is whether it is not a line terminator. */
  function Edit(lines: seq<string>, section: string, request: Request, size: nat, gap: bool): seq<string>
    requires size > 4
  {
    var k := Start(lines, section);
    match request
    case Put(key, value) =>
      if Lookup(lines, section, key, size) == Some(value) then lines
      else if k > |lines| then lines + Gap(gap && lines == []) + [HeadLine(section, size), KeyLine(key, value, size)]
      else PutAt(lines, FindTarget(lines, k, key), KeyLine(key, value, size), gap && k == |lines|)
    case Erase(key) =>
      if k > |lines| then lines else EraseAt(lines, FindTarget(lines, k, key))
    case EraseSection =>
      if section == "" then lines[FindOpen(lines, Min(1, |lines|))..]
      else if k > |lines| then lines
      else lines[..k - 1] + lines[FindOpen(lines, k)..]
  }

  // ---------------------------------------------------------------------------
  // Lookup as an automaton over the lines
  // ---------------------------------------------------------------------------

  datatype Mode = Seeking | Inside | Missing | Found(value: string)

  /** What is looked up, and the size of the buffer for its value. */
  datatype Query = Query(section: string, key: string, maxlen: nat)

  function Step(mode: Mode, line: string, q: Query): Mode
    requires q.maxlen > 0
  {
    var b := line + "\n";
    match mode
    case Seeking => if Heads(b, q.section) then Inside else Seeking
    case Inside =>
      if Opens(b) then Missing
      else if Names(b, q.key) && !Comments(b) then Found(ValueOf(b, q.maxlen))
      else Inside
    case Missing => Missing
    case Found(_) => mode
  }

  function Run(mode: Mode, lines: seq<string>, q: Query): Mode
    requires q.maxlen > 0
    decreases |lines|
  {
    if lines == [] then mode else Run(Step(mode, lines[0], q), lines[1..], q)
  }

  function Initial(q: Query): Mode { if q.section == "" then Inside else Seeking }

  function Result(mode: Mode): Option<string> {
    if mode.Found? then Some(mode.value) else None
  }

  lemma {:induction false} RunAppend(mode: Mode, a: seq<string>, b: seq<string>, q: Query)
    requires q.maxlen > 0
    ensures Run(mode, a + b, q) == Run(Run(mode, a, q), b, q)
    decreases |a|
  {
    hide Step;
    if a == [] {
      assert a + b == b;
    } else {
      RunAppend(Step(mode, a[0], q), a[1..], b, q);
      assert (a + b)[1..] == a[1..] + b;
    }
  }

  lemma RunOne(mode: Mode, line: string, q: Query)
    requires q.maxlen > 0
    ensures Run(mode, [line], q) == Step(mode, line, q)
  {
    hide Step;
    assert [line][1..] == [];
    assert Run(Step(mode, line, q), [], q) == Step(mode, line, q);
  }

  /** Once the key is found or the section has ended, nothing changes that. */
  lemma {:induction false} RunSettled(mode: Mode, lines: seq<string>, q: Query)
    requires q.maxlen > 0 && !mode.Seeking? && !mode.Inside?
    ensures Run(mode, lines, q) == mode
  {
    if lines != [] { RunSettled(mode, lines[1..], q); }
  }

  /** The search for the key. */
  lemma {:induction false} RunInside(lines: seq<string>, k: nat, q: Query)
    requires q.maxlen > 0 && k <= |lines|
    ensures Result(Run(Inside, lines[k..], q)) == ValueFrom(lines, k, q.key, q.maxlen)
    decreases |lines| - k
  {
    hide Heads, Names, Comments, Opens, ValueOf;
    if k < |lines| {
      RunRest(Inside, lines, k, q);
      if Step(Inside, lines[k], q) == Inside {
        RunInside(lines, k + 1, q);
      } else {
        RunSettled(Step(Inside, lines[k], q), lines[k + 1..], q);
      }
    }
  }

  /** The search for the section. */
  lemma {:induction false} RunSeeking(lines: seq<string>, k: nat, q: Query)
    requires q.maxlen > 0 && k <= |lines|
    ensures Result(Run(Seeking, lines[k..], q))
         == ValueFrom(lines, FindHead(lines, k, q.section) + 1, q.key, q.maxlen)
    decreases |lines| - k
  {
    hide Heads, Names, Opens, Comments, ValueFrom, ValueOf;
    if k < |lines| {
      RunRest(Seeking, lines, k, q);
      if HeadAt(lines, k, q.section) {
        RunInside(lines, k + 1, q);
      } else {
        hide Run;
        RunSeeking(lines, k + 1, q);
      }
    } else {
      NothingLeft(lines, k + 1, q);
    }
  }

  lemma RunRest(mode: Mode, lines: seq<string>, k: nat, q: Query)
    requires q.maxlen > 0 && k < |lines|
    ensures Run(mode, lines[k..], q) == Run(Step(mode, lines[k], q), lines[k + 1..], q)
  {
    hide Step;
    var rest := lines[k..];
    assert rest[0] == lines[k] && rest[1..] == lines[k + 1..];
  }

  lemma NothingLeft(lines: seq<string>, k: nat, q: Query)
    requires q.maxlen > 0 && k > |lines|
    ensures ValueFrom(lines, k, q.key, q.maxlen) == None
  {
  }

  lemma LookupRuns(lines: seq<string>, q: Query)
    requires q.maxlen > 0
    ensures Lookup(lines, q.section, q.key, q.maxlen) == Result(Run(Initial(q), lines, q))
  {
    hide ValueFrom, Run;
    assert lines[0..] == lines;
    if q.section == "" {
      RunInside(lines, 0, q);
    } else {
      RunSeeking(lines, 0, q);
    }
  }

  // ---------------------------------------------------------------------------
  // What new lines say
  // ---------------------------------------------------------------------------

  lemma StoredPlain(s: string, maxlen: nat)
    requires |s| < maxlen
    ensures Stored(s, maxlen, QuoteNone) == s
  {
    assert s[..|s|] == s;
  }

  /** A key line starts with its key and an equal sign. */
  lemma KeyLineStart(key: string, value: string, size: nat) returns (rest: string)
    requires size > 4 && |key| + 4 <= size
    ensures KeyLine(key, value, size) == key + ['='] + rest
    ensures ValueFits(key, value, size) ==> rest == Encode(value)
  {
    StoredPlain(key, size - 3);
    var room := size - (|key| + 1) - 2;
    rest := Stored(value, room, if NeedsQuotes(value) then Enquote else QuoteNone);
    if ValueFits(key, value, size) {
      if NeedsQuotes(value) {
        EscapeFits(value, room - 3);
      } else {
        StoredPlain(value, room);
      }
    }
  }

  /** What is before the sign of a line that starts with a key and an equal sign. */
  lemma KeyLineParts(key: string, rest: string)
    requires key != [] && Unpadded(key) && '=' !in key
    ensures var b := key + ['='] + rest; SkipLeading(b) == b && Sign(b) == |key| && StripTrailing(b[..|key|]) == key
  {
    var b := key + ['='] + rest;
    TrimNothing(b);
    TrimNothing(key);
    IndexOfAfter(key, '=', rest);
    assert b[..|key|] == key;
  }

  /** A key line names its key and does nothing else. */
  lemma KeyLineSays(key: string, value: string, size: nat)
    requires size > 4 && KeyName(key, size)
    ensures var b := KeyLine(key, value, size) + "\n";
            && !Opens(b) && !Comments(b)
            && (forall k :: Names(b, k) <==> EqualFold(key, k))
            && (forall s :: !Heads(b, s))
  {
    var rest := KeyLineStart(key, value, size);
    var b := KeyLine(key, value, size) + "\n";
    assert b == key + ['='] + (rest + "\n");
    KeyLineParts(key, rest + "\n");
    hide SkipLeading, Sign, StripTrailing, KeyLine, IndexOf;
    assert SkipLeading(b)[0] == key[0];
  }

  lemma KeyLineValue(key: string, value: string, size: nat, maxlen: nat)
    requires size > 4 && KeyName(key, size) && ValueFits(key, value, size) && 0 < maxlen
    ensures var b := KeyLine(key, value, size) + "\n";
            && Sign(SkipLeading(b)) < |SkipLeading(b)|
            && ValueOf(b, maxlen) == Decode(Encode(value) + "\n", maxlen)
  {
    var rest := KeyLineStart(key, value, size);
    var b := KeyLine(key, value, size) + "\n";
    assert b == key + ['='] + (rest + "\n");
    KeyLineParts(key, rest + "\n");
    hide SkipLeading, Sign, StripTrailing, KeyLine, IndexOf, Decode;
    assert b[|key| + 1..] == Encode(value) + "\n";
  }

  /** A head line heads its section and does nothing else. */
  lemma HeadLineSays(section: string, size: nat)
    requires size > 4 && SectionName(section, size)
    ensures var b := HeadLine(section, size) + "\n";
            Opens(b) && forall s :: Heads(b, s) <==> EqualFold(section, s)
  {
    StoredPlain(section, size - 4);
    var b := HeadLine(section, size) + "\n";
    TrimNothing(b);
    assert b == (['['] + section) + [']'] + "\n";
    IndexOfAfter(['['] + section, ']', "\n");
    assert b[1..|section| + 1] == section;
  }

  lemma GapSays(b: string)
    requires b == "\n"
    ensures !Opens(b) && (forall s :: !Heads(b, s)) && (forall k :: !Names(b, k))
  {
    hide SkipLeading, StripTrailing, Sign, IndexOf, EqualFold;
    TrimNothing(b);
    assert SkipLeading(b) == [];
  }
}
