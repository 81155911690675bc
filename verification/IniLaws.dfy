/** An INI file as a map from pairs of a section and a key, both up to case, to values: the
    laws of putting and erasing. */
module IniLaws {
  import opened Basics
  import opened CaseFold
  import opened IniText
  import opened IniQuotes
  import opened IniLookup
  import opened IniEdit

  /** The query is for another section or another key. */
  predicate Differs(section: string, key: string, q: Query) {
    !(EqualFold(section, q.section) && EqualFold(key, q.key))
  }

  lemma NamesDiffer(a: string, b: string)
    requires !EqualFold(a, b)
    ensures a != b
  {
  }

  lemma HeadsOpens(b: string, section: string)
    requires Heads(b, section)
    ensures Opens(b)
  {
  }

  // ---------------------------------------------------------------------------
  // Stretches of lines
  // ---------------------------------------------------------------------------

  /** Without a head, the section is not found. */
  lemma {:induction false} StaysSeeking(lines: seq<string>, q: Query)
    requires q.maxlen > 0 && forall i :: 0 <= i < |lines| ==> !HeadAt(lines, i, q.section)
    ensures Run(Seeking, lines, q) == Seeking
  {
    if lines != [] {
      hide Heads;
      assert !HeadAt(lines, 0, q.section);
      assert forall i :: 0 <= i < |lines[1..]| ==> HeadAt(lines[1..], i, q.section) == HeadAt(lines, i + 1, q.section);
      StaysSeeking(lines[1..], q);
    }
  }

  /** Without the key, the search in the section goes on. */
  lemma {:induction false} StaysInside(lines: seq<string>, q: Query)
    requires q.maxlen > 0
    requires forall i :: 0 <= i < |lines| ==> !OpenAt(lines, i) && !Names(lines[i] + "\n", q.key)
    ensures Run(Inside, lines, q) == Inside
  {
    if lines != [] {
      hide Opens, Names, Comments;
      assert !OpenAt(lines, 0);
      assert forall i :: 0 <= i < |lines[1..]| ==> OpenAt(lines[1..], i) == OpenAt(lines, i + 1);
      StaysInside(lines[1..], q);
    }
  }

  /** Outside of the section, lines that open nothing say nothing. */
  lemma {:induction false} StaysOutside(mode: Mode, lines: seq<string>, q: Query)
    requires q.maxlen > 0 && mode != Inside && forall i :: 0 <= i < |lines| ==> !OpenAt(lines, i)
    ensures Run(mode, lines, q) == mode
  {
    if lines != [] {
      OutsideStep(mode, lines[0], q);
      hide Opens, Step;
      assert !OpenAt(lines, 0);
      assert forall i :: 0 <= i < |lines[1..]| ==> OpenAt(lines[1..], i) == OpenAt(lines, i + 1);
      StaysOutside(mode, lines[1..], q);
    }
  }

  lemma OutsideStep(mode: Mode, line: string, q: Query)
    requires q.maxlen > 0 && mode != Inside
    ensures !Opens(line + "\n") ==> Step(mode, line, q) == mode
  {
    hide Opens, Heads, Names, Comments;
    if Heads(line + "\n", q.section) {
      HeadsOpens(line + "\n", q.section);
    }
  }

  lemma RunSplit(mode: Mode, a: seq<string>, line: string, b: seq<string>, q: Query)
    requires q.maxlen > 0
    ensures Run(mode, a + [line] + b, q) == Run(Step(Run(mode, a, q), line, q), b, q)
  {
    hide Step, Run;
    RunAppend(mode, a + [line], b, q);
    RunAppend(mode, a, [line], q);
    RunOne(Run(mode, a, q), line, q);
  }

  /** The search is in the section when it comes to the target. */
  lemma ReachesTarget(lines: seq<string>, q: Query, j: nat)
    requires q.maxlen > 0 && Start(lines, q.section) <= |lines| && j == FindTarget(lines, Start(lines, q.section), q.key)
    ensures Run(Initial(q), lines[..j], q) == Inside
  {
    hide Run, FindTarget, FindHead, Heads, Step;
    var k := Start(lines, q.section);
    InsideFrom(lines, q, k, j);
    if q.section == "" {
      assert lines[0..j] == lines[..j];
    } else {
      SeeksUntil(lines, q, k - 1);
      assert lines[..j] == lines[..k - 1] + [lines[k - 1]] + lines[k..j];
      EntersAt(lines, k - 1, q);
      RunSplit(Seeking, lines[..k - 1], lines[k - 1], lines[k..j], q);
    }
  }

  lemma EntersAt(lines: seq<string>, h: nat, q: Query)
    requires q.maxlen > 0 && h < |lines| && HeadAt(lines, h, q.section)
    ensures Step(Seeking, lines[h], q) == Inside
  {
  }

  lemma InsideFrom(lines: seq<string>, q: Query, k: nat, j: nat)
    requires q.maxlen > 0 && k <= |lines| && j == FindTarget(lines, k, q.key)
    ensures Run(Inside, lines[k..j], q) == Inside
  {
    hide Run, Opens, Names;
    forall i | 0 <= i < j - k ensures !OpenAt(lines[k..j], i) && !Names(lines[k..j][i] + "\n", q.key) {
      assert !OpenAt(lines, k + i);
    }
    StaysInside(lines[k..j], q);
  }

  lemma SeeksUntil(lines: seq<string>, q: Query, h: nat)
    requires q.maxlen > 0 && h == FindHead(lines, 0, q.section)
    ensures Run(Seeking, lines[..h], q) == Seeking
  {
    hide Run, Heads;
    forall i | 0 <= i < h ensures !HeadAt(lines[..h], i, q.section) {
      assert !HeadAt(lines, i, q.section);
    }
    StaysSeeking(lines[..h], q);
  }

  /** A search for another section is not in that section when it comes to the target. */
  lemma MissesTarget(lines: seq<string>, section: string, key: string, q: Query, j: nat)
    requires q.maxlen > 0 && !EqualFold(section, q.section)
    requires Start(lines, section) <= |lines| && j == FindTarget(lines, Start(lines, section), key)
    ensures Run(Initial(q), lines[..j], q) != Inside
  {
    hide Run, FindTarget, FindHead, Heads, Step, Opens, EqualFold;
    var k := Start(lines, section);
    OpensNone(lines, k, j);
    if section == "" {
      NamesDiffer(section, q.section);
      assert lines[k..j] == lines[..j];
      StaysOutside(Seeking, lines[..j], q);
    } else {
      PastHead(lines, section, q, k - 1, j);
    }
  }

  lemma OpensNone(lines: seq<string>, k: nat, j: nat)
    requires k <= j <= |lines| && forall i :: k <= i < j ==> !OpenAt(lines, i)
    ensures forall i :: 0 <= i < j - k ==> !OpenAt(lines[k..j], i)
  {
    hide Opens;
    forall i | 0 <= i < j - k ensures !OpenAt(lines[k..j], i) {
      assert !OpenAt(lines, k + i);
    }
  }

  /** The same for a section with a head at `h`. */
  lemma PastHead(lines: seq<string>, section: string, q: Query, h: nat, j: nat)
    requires q.maxlen > 0 && !EqualFold(section, q.section) && h < j <= |lines| && HeadAt(lines, h, section)
    requires forall i :: h < i < j ==> !OpenAt(lines, i)
    ensures Run(Initial(q), lines[..j], q) != Inside
  {
    hide Run, Heads, Step, Opens, EqualFold;
    var m := Run(Initial(q), lines[..h], q);
    LeavesAt(m, lines[h], section, q);
    OpensNone(lines, h + 1, j);
    RunSplit(Initial(q), lines[..h], lines[h], lines[h + 1..j], q);
    StaysOutside(Step(m, lines[h], q), lines[h + 1..j], q);
    assert lines[..j] == lines[..h] + [lines[h]] + lines[h + 1..j];
  }

  /** The head of a section is left outside of any other one. */
  lemma LeavesAt(mode: Mode, line: string, section: string, q: Query)
    requires q.maxlen > 0 && Heads(line + "\n", section) && !EqualFold(section, q.section)
    ensures Step(mode, line, q) == (if mode == Inside then Missing else mode) != Inside
  {
    hide SkipLeading, IndexOf, Names, Comments, EqualFold;
    var sp := SkipLeading(line + "\n");
    FoldJoins(sp[1..IndexOf(sp, ']')], section, q.section);
  }

  // ---------------------------------------------------------------------------
  // Putting
  // ---------------------------------------------------------------------------

  /** A line that can only name the key. */
  ghost predicate OnlyNames(line: string, key: string) {
    !Opens(line + "\n") && forall k :: Names(line + "\n", k) ==> EqualFold(key, k)
  }

  /** Such a line at the target does nothing to other searches. */
  lemma OthersPass(lines: seq<string>, section: string, key: string, j: nat, line: string, q: Query)
    requires q.maxlen > 0 && Differs(section, key, q) && OnlyNames(line, key)
    requires Start(lines, section) <= |lines| && j == FindTarget(lines, Start(lines, section), key)
    ensures Step(Run(Initial(q), lines[..j], q), line, q) == Run(Initial(q), lines[..j], q)
  {
    hide Run, Start, FindTarget, Names, Comments, Opens, Heads;
    var m := Run(Initial(q), lines[..j], q);
    if EqualFold(section, q.section) {
      if m != Inside { OutsideStep(m, line, q); }
    } else {
      MissesTarget(lines, section, key, q, j);
      OutsideStep(m, line, q);
    }
  }

  lemma TargetOnlyNames(lines: seq<string>, j: nat, key: string)
    requires j < |lines| && !OpenAt(lines, j) && Names(lines[j] + "\n", key)
    ensures OnlyNames(lines[j], key)
  {
    hide SkipLeading, StripTrailing, Sign, Opens;
    var b := lines[j] + "\n";
    var sp := SkipLeading(b);
    forall k | Names(b, k) ensures EqualFold(key, k) {
      FoldJoins(StripTrailing(sp[..Sign(sp)]), key, k);
    }
  }

  lemma NewOnlyNames(key: string, value: string, size: nat)
    requires size > 4 && KeyName(key, size)
    ensures OnlyNames(KeyLine(key, value, size), key) && OnlyNames("", key)
  {
    KeyLineSays(key, value, size);
    GapSays("" + "\n");
  }

  /** How one line at the target, in place of the key's line if there is one, changes a search. */
  lemma RunPut(mode: Mode, lines: seq<string>, j: nat, line: string, gap: bool, q: Query)
    requires q.maxlen > 0 && j <= |lines|
    ensures var m := Run(mode, lines[..j], q);
            && (j == |lines| ==> Run(mode, PutAt(lines, j, line, gap), q)
                                 == Step(if gap then Step(m, "", q) else m, line, q))
            && (j < |lines| && OpenAt(lines, j) ==>
                  Run(mode, PutAt(lines, j, line, gap), q) == Run(Step(m, line, q), lines[j..], q))
            && (j < |lines| && !OpenAt(lines, j) ==>
                  Run(mode, PutAt(lines, j, line, gap), q) == Run(Step(m, line, q), lines[j + 1..], q))
  {
    hide Run, Step, Opens;
    if j == |lines| {
      assert lines[..j] == lines;
      if gap {
        RunSplit(mode, lines, "", [line], q);
        RunOne(Step(Run(mode, lines, q), "", q), line, q);
        assert lines + [""] + [line] == lines + Gap(gap) + [line];
      } else {
        RunAppend(mode, lines, [line], q);
        RunOne(Run(mode, lines, q), line, q);
        assert lines + Gap(gap) == lines;
      }
    } else {
      RunSplit(mode, lines[..j], line, lines[j..], q);
      RunSplit(mode, lines[..j], line, lines[j + 1..], q);
    }
  }

  lemma RunAt(mode: Mode, lines: seq<string>, j: nat, q: Query)
    requires q.maxlen > 0 && j <= |lines|
    ensures var m := Run(mode, lines[..j], q);
            && Run(mode, lines, q) == Run(m, lines[j..], q)
            && (j < |lines| ==> Run(mode, lines, q) == Run(Step(m, lines[j], q), lines[j + 1..], q))
            && (j == |lines| ==> Run(mode, lines, q) == m)
  {
    hide Run, Step;
    RunAppend(mode, lines[..j], lines[j..], q);
    assert lines == lines[..j] + lines[j..];
    if j == |lines| {
      assert lines[..j] == lines;
    } else {
      RunSplit(mode, lines[..j], lines[j], lines[j + 1..], q);
      assert lines == lines[..j] + [lines[j]] + lines[j + 1..];
    }
  }

  /** Searches that the target's line and the new lines do not concern go on as before. */
  lemma PutAtPasses(lines: seq<string>, section: string, key: string, line: string, gap: bool, q: Query)
    requires q.maxlen > 0 && Differs(section, key, q) && Start(lines, section) <= |lines|
    requires OnlyNames(line, key) && OnlyNames("", key)
    ensures var j := FindTarget(lines, Start(lines, section), key);
            Run(Initial(q), PutAt(lines, j, line, gap), q) == Run(Initial(q), lines, q)
  {
    hide Run, Step, Start, Opens, Names, Differs, OnlyNames, PutAt;
    var j := FindTarget(lines, Start(lines, section), key);
    RunPut(Initial(q), lines, j, line, gap, q);
    RunAt(Initial(q), lines, j, q);
    OthersPass(lines, section, key, j, line, q);
    OthersPass(lines, section, key, j, "", q);
    if j < |lines| && !OpenAt(lines, j) {
      TargetOnlyNames(lines, j, key);
      OthersPass(lines, section, key, j, lines[j], q);
    }
  }

  lemma EraseAtPasses(lines: seq<string>, section: string, key: string, q: Query)
    requires q.maxlen > 0 && Differs(section, key, q) && Start(lines, section) <= |lines|
    ensures var j := FindTarget(lines, Start(lines, section), key);
            Run(Initial(q), EraseAt(lines, j), q) == Run(Initial(q), lines, q)
  {
    hide Run, Step, Start, Opens, Names, Differs, OnlyNames;
    var j := FindTarget(lines, Start(lines, section), key);
    RunAt(Initial(q), lines, j, q);
    if j < |lines| && !OpenAt(lines, j) {
      TargetOnlyNames(lines, j, key);
      OthersPass(lines, section, key, j, lines[j], q);
      RunAppend(Initial(q), lines[..j], lines[j + 1..], q);
    }
  }

  /** A section that is appended with one key concerns only searches for that key in it. */
  lemma AppendPasses(mode: Mode, head: string, line: string, gap: bool, section: string, key: string, q: Query)
    requires q.maxlen > 0 && Differs(section, key, q) && OnlyNames(line, key) && OnlyNames("", key)
    requires Opens(head + "\n") && forall s :: Heads(head + "\n", s) <==> EqualFold(section, s)
    ensures Result(Run(mode, Gap(gap) + [head, line], q)) == Result(mode)
  {
    hide Opens, Names, Comments, Heads, Run, OnlyNames;
    var m := if gap then Step(mode, "", q) else mode;
    assert m == mode by {
      hide Differs, EqualFold;
      GapStep(mode, q);
    }
    RunGap(mode, head, line, gap, q);
    var m2 := Step(m, head, q);
    if m2 == Inside {
      assert !EqualFold(key, q.key);
      assert Step(m2, line, q) == Inside by { InsideStep(line, key, q); }
    } else {
      OnlyOpens(line, key);
      OutsideStep(m2, line, q);
    }
  }

  lemma OnlyOpens(line: string, key: string)
    requires OnlyNames(line, key)
    ensures !Opens(line + "\n")
  {
  }

  lemma InsideStep(line: string, key: string, q: Query)
    requires q.maxlen > 0 && OnlyNames(line, key) && !EqualFold(key, q.key)
    ensures Step(Inside, line, q) == Inside
  {
    hide Opens, Names, Comments, Heads;
  }

  lemma GapStep(mode: Mode, q: Query)
    requires q.maxlen > 0
    ensures Step(mode, "", q) == mode
  {
    GapSays("" + "\n");
    hide Opens, Names, Comments, Heads;
  }

  lemma RunGap(mode: Mode, head: string, line: string, gap: bool, q: Query)
    requires q.maxlen > 0
    ensures Run(mode, Gap(gap) + [head, line], q)
         == Step(Step(if gap then Step(mode, "", q) else mode, head, q), line, q)
  {
    hide Step, Run;
    var m := if gap then Step(mode, "", q) else mode;
    RunOne(mode, "", q);
    RunNone(mode, q);
    RunAppend(mode, Gap(gap), [head, line], q);
    RunAppend(m, [head], [line], q);
    assert [head] + [line] == [head, line];
    RunOne(m, head, q);
    RunOne(Step(m, head, q), line, q);
  }

  lemma RunNone(mode: Mode, q: Query)
    requires q.maxlen > 0
    ensures Run(mode, [], q) == mode
  {
  }

  /** On lists of lines: every lookup of a pair that differs, up to case, is as before. */
  lemma PutPasses(lines: seq<string>, section: string, key: string, value: string, size: nat, gap: bool, q: Query)
    requires size > 4 && SectionName(section, size) && KeyName(key, size) && IsLine(value)
    requires q.maxlen > 0 && Differs(section, key, q)
    ensures Lookup(Edit(lines, section, Put(key, value), size, gap), q.section, q.key, q.maxlen)
         == Lookup(lines, q.section, q.key, q.maxlen)
  {
    hide Lookup, Run, Differs, KeyLine, HeadLine, OnlyNames, PutAt, FindTarget, Opens, Heads, Names, SectionName;
    var line, head := KeyLine(key, value, size), HeadLine(section, size);
    NewOnlyNames(key, value, size);
    HeadLineSays(section, size);
    var edited := Edit(lines, section, Put(key, value), size, gap);
    LookupRuns(lines, q);
    LookupRuns(edited, q);
    if Start(lines, section) > |lines| {
      var g := gap && lines == [];
      AppendPasses(Run(Initial(q), lines, q), head, line, g, section, key, q);
      RunAppend(Initial(q), lines, Gap(g) + [head, line], q);
      assert lines + Gap(g) + [head, line] == lines + (Gap(g) + [head, line]);
    } else {
      PutAtPasses(lines, section, key, line, gap && Start(lines, section) == |lines|, q);
    }
  }

  /** On lists of lines: the value that is put is what is looked up, exactly if it has no blanks at
      its ends, or is quoted, or was there before. */
  lemma PutIsFound(lines: seq<string>, section: string, key: string, value: string, size: nat, gap: bool, maxlen: nat)
    requires size > 4 && SectionName(section, size) && KeyName(key, size) && ValueFits(key, value, size)
    requires |value| < maxlen && IsLine(value)
    ensures Lookup(Edit(lines, section, Put(key, value), size, gap), section, key, maxlen) == Some(value)
       <==> NeedsQuotes(value) || Unpadded(value) || Lookup(lines, section, key, size) == Some(value)
  {
    hide Lookup, Run, KeyLine, HeadLine, PutAt, FindTarget, Opens, Heads, Names, SectionName, NeedsQuotes, Unpadded, KeyName;
    hide Start, EqualFold, Decode, Encode;
    LineDecodes(value, maxlen);
    if Lookup(lines, section, key, size) == Some(value) {
      EncodeLonger(value);
      LookupRoom(lines, section, key, value, size, maxlen);
    } else {
      var q := Query(section, key, maxlen);
      LookupRuns(Edit(lines, section, Put(key, value), size, gap), q);
      if Start(lines, section) > |lines| {
        PutNew(lines, key, value, size, gap, q);
      } else {
        PutOld(lines, key, value, size, gap, q);
      }
    }
  }

  /** The step on the new key's line. */
  lemma NewFound(key: string, value: string, size: nat, q: Query)
    requires size > 4 && KeyName(key, size) && ValueFits(key, value, size)
    requires 0 < q.maxlen && q.key == key
    ensures Step(Inside, KeyLine(key, value, size), q) == Found(Decode(Encode(value) + "\n", q.maxlen))
  {
    hide Decode, Encode, KeyName, ValueFits, KeyLine, Opens, Heads, Names, Comments, ValueOf, Fold;
    KeyLineSays(key, value, size);
    KeyLineValue(key, value, size, q.maxlen);
    assert EqualFold(key, key);
  }

  lemma PutNew(lines: seq<string>, key: string, value: string, size: nat, gap: bool, q: Query)
    requires size > 4 && KeyName(key, size) && ValueFits(key, value, size)
    requires SectionName(q.section, size) && 0 < q.maxlen && q.key == key && Start(lines, q.section) > |lines|
    ensures Run(Initial(q), lines + Gap(gap && lines == []) + [HeadLine(q.section, size), KeyLine(key, value, size)], q)
         == Found(Decode(Encode(value) + "\n", q.maxlen))
  {
    hide Decode, Encode, KeyName, ValueFits, KeyLine, HeadLine, Run, Step, Opens, Heads, Names, SectionName;
    var line, head, g := KeyLine(key, value, size), HeadLine(q.section, size), gap && lines == [];
    SeeksUntil(lines, q, |lines|);
    assert lines[..|lines|] == lines;
    RunAppend(Seeking, lines, Gap(g) + [head, line], q);
    assert lines + Gap(g) + [head, line] == lines + (Gap(g) + [head, line]);
    RunGap(Seeking, head, line, g, q);
    GapStep(Seeking, q);
    NewEntered(q.section, size, q);
    NewFound(key, value, size, q);
  }

  lemma NewEntered(section: string, size: nat, q: Query)
    requires size > 4 && SectionName(section, size) && q.section == section && q.maxlen > 0
    ensures Step(Seeking, HeadLine(section, size), q) == Inside
  {
    hide SectionName, HeadLine, Opens, Heads, Fold;
    HeadLineSays(section, size);
    assert EqualFold(section, section);
  }

  lemma PutOld(lines: seq<string>, key: string, value: string, size: nat, gap: bool, q: Query)
    requires size > 4 && KeyName(key, size) && ValueFits(key, value, size)
    requires 0 < q.maxlen && q.key == key && Start(lines, q.section) <= |lines|
    ensures var k := Start(lines, q.section);
            var edited := PutAt(lines, FindTarget(lines, k, key), KeyLine(key, value, size), gap && k == |lines|);
            Run(Initial(q), edited, q) == Found(Decode(Encode(value) + "\n", q.maxlen))
  {
    hide Decode, Encode, KeyName, ValueFits, KeyLine, Run, Step, Opens, Heads, Names, PutAt, Start;
    var k, line := Start(lines, q.section), KeyLine(key, value, size);
    var j := FindTarget(lines, k, key);
    ReachesTarget(lines, q, j);
    NewFound(key, value, size, q);
    GapStep(Inside, q);
    RunPut(Initial(q), lines, j, line, gap && k == |lines|, q);
    if j < |lines| {
      var found := Found(Decode(Encode(value) + "\n", q.maxlen));
      RunSettled(found, lines[j..], q);
      RunSettled(found, lines[j + 1..], q);
    }
  }

  /** A value that has room in one buffer is read in full into any other that it fits. */
  lemma LookupRoom(lines: seq<string>, section: string, key: string, value: string, size: nat, maxlen: nat)
    requires size > 0 && |value| + 1 < size && |value| < maxlen && Lookup(lines, section, key, size) == Some(value)
    ensures Lookup(lines, section, key, maxlen) == Some(value)
  {
    hide FindKey, Start, SkipLeading, Sign, Clean, Opens, Stored;
    var j := FindKey(lines, Start(lines, section), key);
    var sp := SkipLeading(lines[j] + "\n");
    CleanRoom(SkipLeading(sp[Sign(sp) + 1..]), value, size, maxlen);
  }

  lemma CleanRoom(s: string, value: string, size: nat, maxlen: nat)
    requires |value| + 1 < size && |value| < maxlen && Stored(Clean(s).0, size, Clean(s).1) == value
    ensures Stored(Clean(s).0, maxlen, Clean(s).1) == value
  {
    assert Clean(s).1 != Enquote;
    hide Clean;
    if Clean(s).1 == Dequote {
      DequoteRoom(Clean(s).0, size - 1, maxlen - 1);
    } else {
      assert Clean(s).0 == value;
      assert value[..|value|] == value;
    }
  }

  lemma EncodeLonger(v: string)
    ensures |v| <= |Encode(v)|
  {
    EscapeLonger(v);
  }

  lemma {:induction false} EscapeLonger(v: string)
    ensures |v| <= |Escape(v)|
  {
    if v != [] { EscapeLonger(v[1..]); }
  }

  lemma {:induction false} DequoteRoom(s: string, room: nat, other: nat)
    requires |DequoteWithin(s, room)| < room && |DequoteWithin(s, room)| <= other
    ensures DequoteWithin(s, other) == DequoteWithin(s, room)
  {
    if s != [] {
      if |s| > 1 && (s[0] == '"' || s[0] == '\\') && s[1] == '"' {
        DequoteRoom(s[2..], room - 1, other - 1);
      } else {
        DequoteRoom(s[1..], room - 1, other - 1);
      }
    }
  }

  // ---------------------------------------------------------------------------
  // Erasing
  // ---------------------------------------------------------------------------

  /** Frame law of erasing a key. */
  lemma EraseKeepsOthers(lines: seq<string>, section: string, key: string, size: nat, gap: bool, q: Query)
    requires size > 4 && q.maxlen > 0 && Differs(section, key, q)
    ensures Lookup(Edit(lines, section, Erase(key), size, gap), q.section, q.key, q.maxlen)
         == Lookup(lines, q.section, q.key, q.maxlen)
  {
    hide Lookup, Run, Differs, EraseAt, FindTarget;
    LookupRuns(lines, q);
    LookupRuns(Edit(lines, section, Erase(key), size, gap), q);
    if Start(lines, section) <= |lines| {
      EraseAtPasses(lines, section, key, q);
    }
  }

  /** Only the first line of the key is erased: then the next one is looked up, if the section
      has one. */
  lemma EraseThenGet(lines: seq<string>, section: string, key: string, size: nat, gap: bool, maxlen: nat)
    requires size > 4 && maxlen > 0
    ensures var k := Start(lines, section);
            var next := if k > |lines| then k else FindTarget(lines, k, key) + 1;
            Lookup(Edit(lines, section, Erase(key), size, gap), section, key, maxlen)
            == if next > |lines| || OpenAt(lines, next - 1) then None else ValueFrom(lines, next, key, maxlen)
  {
    hide Run, Step, ValueFrom, FindTarget, Opens;
    var q := Query(section, key, maxlen);
    var k := Start(lines, section);
    if k > |lines| {
      assert ValueFrom(lines, k, key, maxlen) == None by { NothingFrom(lines, k, key, maxlen); }
    } else {
      hide Lookup, Start;
      var j := FindTarget(lines, k, key);
      LookupRuns(Edit(lines, section, Erase(key), size, gap), q);
      ReachesTarget(lines, q, j);
      RunAt(Initial(q), lines, j, q);
      if j == |lines| {
      } else if OpenAt(lines, j) {
        OpenEnds(lines, j, q);
      } else {
        RunAppend(Initial(q), lines[..j], lines[j + 1..], q);
        RunInside(lines, j + 1, q);
      }
    }
  }

  lemma NothingFrom(lines: seq<string>, k: nat, key: string, maxlen: nat)
    requires k > |lines| && maxlen > 0
    ensures ValueFrom(lines, k, key, maxlen) == None
  {
  }

  /** A line that opens a section ends the search in the one before it. */
  lemma OpenEnds(lines: seq<string>, j: nat, q: Query)
    requires q.maxlen > 0 && j < |lines| && OpenAt(lines, j)
    ensures Step(Inside, lines[j], q) == Missing && Run(Inside, lines[j..], q) == Missing
  {
    hide Opens, Heads, Names, Comments;
    var rest := lines[j..];
    assert rest[0] == lines[j] && rest[1..] == lines[j + 1..];
    RunSettled(Missing, lines[j + 1..], q);
  }

  /** Searching in a section gives nothing if it is at its end. */
  lemma EndGivesNothing(lines: seq<string>, j: nat, q: Query)
    requires q.maxlen > 0 && j <= |lines| && (j < |lines| ==> OpenAt(lines, j))
    ensures Result(Run(Inside, lines[j..], q)) == None
  {
    hide Opens, Step;
    if j < |lines| {
      OpenEnds(lines, j, q);
    } else {
      assert lines[j..] == [];
    }
  }

  /** What is erased of a section: its head `h` and the lines up to the next one. */
  lemma SectionSays(mode: Mode, lines: seq<string>, h: nat, j: nat, section: string, q: Query)
    requires q.maxlen > 0 && h < |lines| && j == FindOpen(lines, h + 1) && HeadAt(lines, h, section)
    requires !EqualFold(section, q.section)
    ensures Run(mode, lines[h..j], q) == if mode == Inside then Missing else mode
  {
    hide Run, Step, EqualFold, Opens, Heads;
    LeavesAt(mode, lines[h], section, q);
    var m, rest := Step(mode, lines[h], q), lines[h + 1..j];
    forall i | 0 <= i < |rest| ensures !OpenAt(rest, i) {
      assert !OpenAt(lines, h + 1 + i);
    }
    StaysOutside(m, rest, q);
    RunAppend(mode, [lines[h]], rest, q);
    RunOne(mode, lines[h], q);
    assert lines[h..j] == [lines[h]] + rest;
  }

  /** Frame law of erasing a section. */
  lemma EraseSectionKeepsOthers(lines: seq<string>, section: string, size: nat, gap: bool, q: Query)
    requires size > 4 && q.maxlen > 0 && section != "" && !EqualFold(section, q.section)
    ensures Lookup(Edit(lines, section, EraseSection, size, gap), q.section, q.key, q.maxlen)
         == Lookup(lines, q.section, q.key, q.maxlen)
  {
    hide Lookup, Run, EqualFold, FindOpen, Heads, FindHead, Opens;
    LookupRuns(lines, q);
    LookupRuns(Edit(lines, section, EraseSection, size, gap), q);
    var k := Start(lines, section);
    if k <= |lines| {
      var h, j := k - 1, FindOpen(lines, k);
      var m := Run(Initial(q), lines[..h], q);
      SectionSays(m, lines, h, j, section, q);
      RunAppend(Initial(q), lines[..h], lines[j..], q);
      RunAppend(Initial(q), lines[..h], lines[h..], q);
      RunAppend(m, lines[h..j], lines[j..], q);
      assert lines == lines[..h] + lines[h..] && lines[h..] == lines[h..j] + lines[j..];
      EndGivesNothing(lines, j, q);
      RunSettled(Missing, lines[j..], q);
    }
  }

  /** Only the first section of that name is erased: then the next one is looked into. */
  lemma EraseSectionThenGet(lines: seq<string>, section: string, key: string, size: nat, gap: bool, maxlen: nat)
    requires size > 4 && maxlen > 0 && section != ""
    ensures var k := Start(lines, section);
            Lookup(Edit(lines, section, EraseSection, size, gap), section, key, maxlen)
            == if k > |lines| then None else Lookup(lines[FindOpen(lines, k)..], section, key, maxlen)
  {
    hide Run, FindOpen, Heads, FindHead, Opens;
    var q := Query(section, key, maxlen);
    var k := Start(lines, section);
    if k <= |lines| {
      hide Lookup;
      var h, j := k - 1, FindOpen(lines, k);
      SeeksUntil(lines, q, h);
      LookupRuns(lines[..h] + lines[j..], q);
      LookupRuns(lines[j..], q);
      RunAppend(Seeking, lines[..h], lines[j..], q);
    }
  }

  /** Erasing the keys above all sections: none is left. */
  lemma EraseTopThenGet(lines: seq<string>, key: string, size: nat, gap: bool, maxlen: nat)
    requires size > 4 && maxlen > 0
    ensures Lookup(Edit(lines, "", EraseSection, size, gap), "", key, maxlen) == None
  {
    hide Run, FindOpen, Opens, Lookup;
    var q := Query("", key, maxlen);
    var j := FindOpen(lines, Min(1, |lines|));
    LookupRuns(lines[j..], q);
    EndGivesNothing(lines, j, q);
  }

  /** But the first line is erased even if it is the head of a section, and the keys of that
      section with it; every other section is as before. */
  lemma EraseTopOthers(lines: seq<string>, size: nat, gap: bool, q: Query)
    requires size > 4 && q.maxlen > 0 && q.section != ""
    ensures Lookup(Edit(lines, "", EraseSection, size, gap), q.section, q.key, q.maxlen)
         == if lines != [] && HeadAt(lines, 0, q.section)
            then Lookup(lines[FindOpen(lines, 1)..], q.section, q.key, q.maxlen)
            else Lookup(lines, q.section, q.key, q.maxlen)
  {
    hide Run, FindOpen, Opens, Heads, Lookup, Step;
    var j := FindOpen(lines, Min(1, |lines|));
    if lines == [] {
      assert lines[j..] == lines;
    } else if !HeadAt(lines, 0, q.section) {
      var rest := lines[1..j];
      forall i | 0 <= i < |rest| ensures !OpenAt(rest, i) {
        assert !OpenAt(lines, 1 + i);
      }
      LookupRuns(lines, q);
      LookupRuns(lines[j..], q);
      StaysOutside(Seeking, rest, q);
      NoEntry(lines, q);
      RunSplit(Seeking, [], lines[0], lines[1..], q);
      RunNone(Seeking, q);
      RunAppend(Seeking, rest, lines[j..], q);
      assert lines == [] + [lines[0]] + lines[1..] && lines[1..] == rest + lines[j..];
    }
  }

  lemma NoEntry(lines: seq<string>, q: Query)
    requires q.maxlen > 0 && lines != [] && !HeadAt(lines, 0, q.section)
    ensures Step(Seeking, lines[0], q) == Seeking
  {
  }

  /** So a file that starts with a section loses that section. */
  lemma EraseTopLoses(section: string, key: string, value: string, size: nat, gap: bool)
    requires size > 4 && SectionName(section, size) && section != "" && KeyName(key, size)
    requires ValueFits(key, value, size) && IsLine(value) && (NeedsQuotes(value) || Unpadded(value))
    ensures var lines := [HeadLine(section, size), KeyLine(key, value, size)];
            && Lookup(lines, section, key, size) == Some(value)
            && Lookup(Edit(lines, "", EraseSection, size, gap), section, key, size) == None
  {
    hide *;
    EraseTopHad(section, key, value, size);
    EraseTopGone(section, key, value, size, gap);
  }

  lemma EraseTopHad(section: string, key: string, value: string, size: nat)
    requires size > 4 && SectionName(section, size) && section != "" && KeyName(key, size)
    requires ValueFits(key, value, size) && IsLine(value) && (NeedsQuotes(value) || Unpadded(value))
    ensures Lookup([HeadLine(section, size), KeyLine(key, value, size)], section, key, size) == Some(value)
  {
    hide Opens, Heads, Names, Lookup, KeyLine, HeadLine, SectionName, KeyName, NeedsQuotes, Unpadded, EqualFold, FindHead;
    EncodeLonger(value);
    EmptyFile(section, key, size);
    PutIsFound([], section, key, value, size, false, size);
    assert [] + Gap(false) + [HeadLine(section, size), KeyLine(key, value, size)]
        == [HeadLine(section, size), KeyLine(key, value, size)];
  }

  lemma EraseTopGone(section: string, key: string, value: string, size: nat, gap: bool)
    requires size > 4 && SectionName(section, size) && section != "" && KeyName(key, size)
    ensures var lines := [HeadLine(section, size), KeyLine(key, value, size)];
            Lookup(Edit(lines, "", EraseSection, size, gap), section, key, size) == None
  {
    hide Opens, Heads, Names, Lookup, KeyLine, HeadLine, SectionName, KeyName, EqualFold, FindHead, Edit;
    var lines := [HeadLine(section, size), KeyLine(key, value, size)];
    HeadLineSays(section, size);
    KeyLineSays(key, value, size);
    FoldSame(section);
    assert HeadAt(lines, 0, section) && !OpenAt(lines, 1);
    EraseTopOthers(lines, size, gap, Query(section, key, size));
    assert FindOpen(lines, 1) == 2 && lines[2..] == [];
    EmptyFile(section, key, size);
  }

  lemma EmptyFile(section: string, key: string, maxlen: nat)
    requires maxlen > 0 && section != ""
    ensures Start([], section) == 1 && Lookup([], section, key, maxlen) == None
  {
  }
}
