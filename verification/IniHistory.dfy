/** Whole histories of ini_puts on one file: the file stays in the form that it needs, and what
    is looked up is what was put last. */
module IniHistory {
  import opened Basics
  import opened CaseFold
  import opened IniText
  import opened IniQuotes
  import opened IniLookup
  import opened IniEdit
  import opened IniLaws
  import opened IniRewrite

  // ---------------------------------------------------------------------------
  // The file stays a file of lines that fit
  // ---------------------------------------------------------------------------

  lemma {:induction false} EscapeIsLine(s: string, room: nat)
    requires IsLine(s)
    ensures IsLine(EscapeWithin(s, room))
  {
    if s != [] && room > 0 {
      if s[0] != '"' {
        EscapeIsLine(s[1..], room - 1);
      } else if room > 1 {
        EscapeIsLine(s[1..], room - 2);
      }
    }
  }

  lemma StoredIsLine(s: string, maxlen: nat, option: Quoting)
    requires IsLine(s) && maxlen > 0 && option != Dequote
    ensures IsLine(Stored(s, maxlen, option))
  {
    if option == Enquote && maxlen >= 3 {
      EscapeIsLine(s, maxlen - 3);
    }
  }

  lemma NewLinesFit(section: string, key: string, value: string, size: nat)
    requires size > 4 && IsLine(section) && IsLine(key) && IsLine(value)
    ensures Fits([HeadLine(section, size)], size) && Fits([KeyLine(key, value, size)], size) && Fits([""], size)
  {
    hide Stored;
    var k := Stored(key, size - 3, QuoteNone);
    StoredIsLine(section, size - 4, QuoteNone);
    StoredIsLine(key, size - 3, QuoteNone);
    StoredIsLine(value, size - (|k| + 1) - 2, if NeedsQuotes(value) then Enquote else QuoteNone);
  }

  lemma FitsJoin(a: seq<string>, b: seq<string>, size: nat)
    requires Fits(a, size) && Fits(b, size)
    ensures Fits(a + b, size)
  {
  }

  lemma FitsParts(lines: seq<string>, j: nat, size: nat)
    requires Fits(lines, size) && j <= |lines|
    ensures Fits(lines[..j], size) && Fits(lines[j..], size)
  {
  }

  lemma PutAtFits(lines: seq<string>, j: nat, line: string, gap: bool, size: nat)
    requires Fits(lines, size) && Fits([line], size) && Fits([""], size) && j <= |lines|
    ensures Fits(PutAt(lines, j, line, gap), size)
  {
    assert Fits(Gap(gap), size);
    hide Fits, Opens;
    FitsJoin(lines, Gap(gap), size);
    FitsJoin(lines + Gap(gap), [line], size);
    FitsParts(lines, j, size);
    FitsJoin(lines[..j], [line], size);
    FitsJoin(lines[..j] + [line], lines[j..], size);
    if j < |lines| {
      FitsParts(lines, j + 1, size);
      FitsJoin(lines[..j] + [line], lines[j + 1..], size);
    }
  }

  lemma EraseAtFits(lines: seq<string>, j: nat, size: nat)
    requires Fits(lines, size) && j <= |lines|
    ensures Fits(EraseAt(lines, j), size)
  {
    hide Fits, Opens;
    if j < |lines| && !OpenAt(lines, j) {
      Cut(lines, j, j + 1, size);
    }
  }

  lemma Cut(lines: seq<string>, m: nat, n: nat, size: nat)
    requires Fits(lines, size) && m <= n <= |lines|
    ensures Fits(lines[..m] + lines[n..], size)
  {
    hide Fits;
    FitsParts(lines, m, size);
    FitsParts(lines, n, size);
    FitsJoin(lines[..m], lines[n..], size);
  }

  lemma PutFits(lines: seq<string>, section: string, key: string, value: string, size: nat, gap: bool)
    requires size > 4 && Fits(lines, size) && IsLine(section) && IsLine(key) && IsLine(value)
    ensures Fits(Edit(lines, section, Put(key, value), size, gap), size)
  {
    hide Fits, Opens, Start, FindTarget, Lookup, KeyLine, HeadLine, PutAt, IsLine;
    var k := Start(lines, section);
    NewLinesFit(section, key, value, size);
    if k > |lines| {
      AppendFits(lines, Gap(gap && lines == []), HeadLine(section, size), KeyLine(key, value, size), size);
    } else {
      PutAtFits(lines, FindTarget(lines, k, key), KeyLine(key, value, size), gap && k == |lines|, size);
    }
  }

  /** Every edit of a file of lines that fit is one. */
  lemma EditFits(lines: seq<string>, section: string, request: Request, size: nat, gap: bool)
    requires size > 4 && Fits(lines, size) && IsLine(section)
    requires !request.EraseSection? ==> IsLine(request.key)
    requires request.Put? ==> IsLine(request.value)
    ensures Fits(Edit(lines, section, request, size, gap), size)
  {
    hide Fits, Opens, FindHead, FindTarget, FindOpen, Lookup, KeyLine, HeadLine, PutAt, EraseAt, IsLine;
    match request {
      case Put(key, value) =>
        PutFits(lines, section, key, value, size, gap);
      case Erase(key) =>
        if Start(lines, section) <= |lines| {
          EraseAtFits(lines, FindTarget(lines, Start(lines, section), key), size);
        }
      case EraseSection =>
        if section == "" {
          FitsParts(lines, FindOpen(lines, Min(1, |lines|)), size);
        } else if Start(lines, section) <= |lines| {
          Cut(lines, Start(lines, section) - 1, FindOpen(lines, Start(lines, section)), size);
        }
    }
  }

  lemma AppendFits(lines: seq<string>, gap: seq<string>, head: string, line: string, size: nat)
    requires Fits(lines, size) && Fits([head], size) && Fits([line], size) && Fits([""], size)
    requires gap == [] || gap == [""]
    ensures Fits(lines + gap + [head, line], size)
  {
    assert Fits(gap, size);
    hide Fits;
    FitsJoin(lines, gap, size);
    FitsJoin([head], [line], size);
    assert [head] + [line] == [head, line];
    FitsJoin(lines + gap, [head, line], size);
  }

  // ---------------------------------------------------------------------------
  // Lookups do not depend on case
  // ---------------------------------------------------------------------------

  lemma StepFolds(mode: Mode, line: string, q: Query, r: Query)
    requires q.maxlen == r.maxlen > 0 && EqualFold(q.section, r.section) && EqualFold(q.key, r.key)
    ensures Step(mode, line, q) == Step(mode, line, r)
  {
    hide SkipLeading, StripTrailing, IndexOf, EqualFold, Sign, Comments, Opens, ValueOf;
    var sp := SkipLeading(line + "\n");
    if sp != [] && sp[0] == '[' && IndexOf(sp, ']') < |sp| {
      FoldAgrees(sp[1..IndexOf(sp, ']')], q.section, r.section);
    }
    if Sign(sp) < |sp| {
      FoldAgrees(StripTrailing(sp[..Sign(sp)]), q.key, r.key);
    }
  }

  lemma FoldAgrees(a: string, b: string, c: string)
    requires EqualFold(b, c)
    ensures EqualFold(a, b) <==> EqualFold(a, c)
  {
    hide Fold;
  }

  lemma {:induction false} RunFolds(mode: Mode, lines: seq<string>, q: Query, r: Query)
    requires q.maxlen == r.maxlen > 0 && EqualFold(q.section, r.section) && EqualFold(q.key, r.key)
    ensures Run(mode, lines, q) == Run(mode, lines, r)
    decreases |lines|
  {
    hide Step, EqualFold;
    if lines != [] {
      StepFolds(mode, lines[0], q, r);
      RunFolds(Step(mode, lines[0], q), lines[1..], q, r);
    }
  }

  lemma LookupFolds(lines: seq<string>, q: Query, r: Query)
    requires q.maxlen == r.maxlen > 0 && EqualFold(q.section, r.section) && EqualFold(q.key, r.key)
    ensures Lookup(lines, q.section, q.key, q.maxlen) == Lookup(lines, r.section, r.key, r.maxlen)
  {
    assert q.section == "" <==> r.section == "";
    hide Lookup, Run, EqualFold;
    LookupRuns(lines, q);
    LookupRuns(lines, r);
    RunFolds(Initial(q), lines, q, r);
  }

  // ---------------------------------------------------------------------------
  // Histories
  // ---------------------------------------------------------------------------

  datatype Setting = Setting(section: string, key: string, value: string, gap: bool)

  /** A setting that can be stored in full. */
  ghost predicate Storable(s: Setting, size: nat) {
    && SectionName(s.section, size) && KeyName(s.key, size) && IsLine(s.value) && ValueFits(s.key, s.value, size)
    && (NeedsQuotes(s.value) || Unpadded(s.value))
  }

  function PutOne(lines: seq<string>, s: Setting, size: nat): seq<string>
    requires size > 4
  {
    Edit(lines, s.section, Put(s.key, s.value), size, s.gap)
  }

  function PutAll(lines: seq<string>, history: seq<Setting>, size: nat): seq<string>
    requires size > 4
  {
    if history == [] then lines
    else PutOne(PutAll(lines, history[..|history| - 1], size), history[|history| - 1], size)
  }

  /** The value that was put last for the pair, or the one that was there before. */
  function Latest(before: Option<string>, history: seq<Setting>, q: Query): Option<string> {
    if history == [] then before
    else
      var s := history[|history| - 1];
      if Differs(s.section, s.key, q) then Latest(before, history[..|history| - 1], q) else Some(s.value)
  }

  /** After any history, every lookup gives what was put last. */
  lemma {:induction false} LatestWins(lines: seq<string>, history: seq<Setting>, size: nat, q: Query)
    requires size > 4 && forall i :: 0 <= i < |history| ==> Storable(history[i], size)
    requires forall i :: 0 <= i < |history| ==> |history[i].value| < q.maxlen
    requires q.maxlen > 0
    ensures Lookup(PutAll(lines, history, size), q.section, q.key, q.maxlen)
         == Latest(Lookup(lines, q.section, q.key, q.maxlen), history, q)
    decreases |history|
  {
    hide Lookup, Edit, EqualFold, SectionName, KeyName, ValueFits, NeedsQuotes, Unpadded;
    if history != [] {
      var s, past := history[|history| - 1], PutAll(lines, history[..|history| - 1], size);
      if Differs(s.section, s.key, q) {
        LatestWins(lines, history[..|history| - 1], size, q);
        PutPasses(past, s.section, s.key, s.value, size, s.gap, q);
      } else {
        PutIsFound(past, s.section, s.key, s.value, size, s.gap, q.maxlen);
        LookupFolds(PutOne(past, s, size), Query(s.section, s.key, q.maxlen), q);
      }
    }
  }

  /** A history of ini_puts runs on the file, and leaves the file of the edited lines. */
  method PutsAll(text: string, history: seq<Setting>, size: nat, ghost lines: seq<string>) returns (result: string)
    requires size > 4 && Fits(lines, size) && text == Text(lines)
    requires forall i :: 0 <= i < |history| ==> Storable(history[i], size)
    ensures result == Text(PutAll(lines, history, size)) && Fits(PutAll(lines, history, size), size)
  {
    PutAllNone(lines, history, size);
    hide Text, Fits, Edit, PutAll, Storable, IsLine, IsCString;
    result := text;
    for i := 0 to |history|
      invariant result == Text(PutAll(lines, history[..i], size)) && Fits(PutAll(lines, history[..i], size), size)
    {
      ghost var past := PutAll(lines, history[..i], size);
      PutAllNext(lines, history, i, size);
      result := PutsOne(result, history[i], size, past);
    }
    assert history[..|history|] == history;
  }

  method PutsOne(text: string, s: Setting, size: nat, ghost lines: seq<string>) returns (result: string)
    requires size > 4 && Fits(lines, size) && text == Text(lines) && Storable(s, size)
    ensures result == Text(PutOne(lines, s, size)) && Fits(PutOne(lines, s, size), size)
  {
    assert IsLine(s.section) && IsLine(s.key) && IsLine(s.value);
    hide Text, Fits, Edit, Storable;
    EditFits(lines, s.section, Put(s.key, s.value), size, s.gap);
    result := IniPuts(text, s.section, Put(s.key, s.value), size, s.gap, lines);
  }

  lemma PutAllNone(lines: seq<string>, history: seq<Setting>, size: nat)
    requires size > 4
    ensures PutAll(lines, history[..0], size) == lines
  {
  }

  lemma PutAllNext(lines: seq<string>, history: seq<Setting>, i: nat, size: nat)
    requires size > 4 && i < |history|
    ensures PutAll(lines, history[..i + 1], size) == PutOne(PutAll(lines, history[..i], size), history[i], size)
  {
    hide Edit;
    assert history[..i + 1][..i] == history[..i];
  }
}
