/** Files in which no section has a second head and no key a second line within its section. They
    stay so under all requests, and then an erased key or section is gone: histories of puts and
    erasures in any order act on the file as on a map. */
module IniUnique {
  import opened Basics
  import opened CaseFold
  import opened IniText
  import opened IniQuotes
  import opened IniLookup
  import opened IniEdit
  import opened IniLaws
  import opened IniHistory
  import opened IniRewrite

  // ---------------------------------------------------------------------------
  // Heads
  // ---------------------------------------------------------------------------

  ghost predicate NoHead(lines: seq<string>, s: string) {
    lines == [] || (!Heads(lines[0] + "\n", s) && NoHead(lines[1..], s))
  }

  ghost predicate HeadsOnce(lines: seq<string>) {
    lines == []
    || (HeadsOnce(lines[1..]) && forall s :: Heads(lines[0] + "\n", s) ==> NoHead(lines[1..], s))
  }

  lemma {:induction false} NoHeadAppend(a: seq<string>, b: seq<string>, s: string)
    ensures NoHead(a + b, s) <==> NoHead(a, s) && NoHead(b, s)
  {
    hide Heads;
    if a == [] {
      assert a + b == b;
    } else {
      NoHeadAppend(a[1..], b, s);
      assert (a + b)[1..] == a[1..] + b && (a + b)[0] == a[0];
    }
  }

  /** Heads of one part do not come back in the other. */
  ghost predicate HeadsApart(a: seq<string>, b: seq<string>) {
    forall s :: NoHead(a, s) || NoHead(b, s)
  }

  lemma {:induction false} HeadsOnceAppend(a: seq<string>, b: seq<string>)
    ensures HeadsOnce(a + b) <==> HeadsOnce(a) && HeadsOnce(b) && HeadsApart(a, b)
  {
    if a == [] {
      assert a + b == b;
      assert forall s :: NoHead(a, s);
    } else {
      HeadsOnceAppend(a[1..], b);
      assert (a + b)[1..] == a[1..] + b && (a + b)[0] == a[0];
      HeadsApartStep(a, b);
    }
  }

  lemma HeadsApartStep(a: seq<string>, b: seq<string>)
    requires a != []
    ensures (forall s :: Heads(a[0] + "\n", s) ==> NoHead(a[1..] + b, s)) && HeadsApart(a[1..], b)
       <==> (forall s :: Heads(a[0] + "\n", s) ==> NoHead(a[1..], s)) && HeadsApart(a, b)
  {
    hide Heads;
    forall s ensures NoHead(a[1..] + b, s) <==> NoHead(a[1..], s) && NoHead(b, s) {
      NoHeadAppend(a[1..], b, s);
    }
    assert forall s :: NoHead(a, s) <==> !Heads(a[0] + "\n", s) && NoHead(a[1..], s);
  }

  // ---------------------------------------------------------------------------
  // Keys
  // ---------------------------------------------------------------------------

  /** The line gives the key a value. */
  predicate Says(line: string, key: string) { Names(line + "\n", key) && !Comments(line + "\n") }

  predicate HasOpen(lines: seq<string>) {
    lines != [] && (Opens(lines[0] + "\n") || HasOpen(lines[1..]))
  }

  /** The key has no line before the next section. */
  predicate Absent(lines: seq<string>, key: string) {
    lines == [] || Opens(lines[0] + "\n") || (!Says(lines[0], key) && Absent(lines[1..], key))
  }

  /** The key has a line in the last section. */
  predicate AtTail(lines: seq<string>, key: string) {
    lines != []
    && (AtTail(lines[1..], key) || (!HasOpen(lines[1..]) && !Opens(lines[0] + "\n") && Says(lines[0], key)))
  }

  ghost predicate KeysOnce(lines: seq<string>) {
    lines == []
    || (&& KeysOnce(lines[1..])
        && forall k :: Says(lines[0], k) && !Opens(lines[0] + "\n") ==> Absent(lines[1..], k))
  }

  lemma {:induction false} HasOpenAppend(a: seq<string>, b: seq<string>)
    ensures HasOpen(a + b) <==> HasOpen(a) || HasOpen(b)
  {
    hide Opens;
    if a == [] {
      assert a + b == b;
    } else {
      HasOpenAppend(a[1..], b);
      assert (a + b)[1..] == a[1..] + b && (a + b)[0] == a[0];
    }
  }

  lemma {:induction false} AbsentAppend(a: seq<string>, b: seq<string>, k: string)
    ensures Absent(a + b, k) <==> Absent(a, k) && (HasOpen(a) || Absent(b, k))
  {
    hide Opens, Says;
    if a == [] {
      assert a + b == b;
    } else {
      AbsentAppend(a[1..], b, k);
      assert (a + b)[1..] == a[1..] + b && (a + b)[0] == a[0];
    }
  }

  lemma {:induction false} AtTailAppend(a: seq<string>, b: seq<string>, k: string)
    ensures AtTail(a + b, k) <==> AtTail(b, k) || (!HasOpen(b) && AtTail(a, k))
  {
    hide Opens, Says;
    if a == [] {
      assert a + b == b;
    } else {
      AtTailAppend(a[1..], b, k);
      HasOpenAppend(a[1..], b);
      assert (a + b)[1..] == a[1..] + b && (a + b)[0] == a[0];
    }
  }

  /** Keys of the last section of one part do not come back in the first of the other. */
  ghost predicate KeysApart(a: seq<string>, b: seq<string>) {
    forall k :: AtTail(a, k) ==> Absent(b, k)
  }

  lemma {:induction false} KeysOnceAppend(a: seq<string>, b: seq<string>)
    ensures KeysOnce(a + b) <==> KeysOnce(a) && KeysOnce(b) && KeysApart(a, b)
  {
    hide Opens, Says;
    if a == [] {
      assert a + b == b;
    } else {
      KeysOnceAppend(a[1..], b);
      assert (a + b)[1..] == a[1..] + b && (a + b)[0] == a[0];
      KeysApartStep(a, b);
    }
  }

  lemma KeysApartStep(a: seq<string>, b: seq<string>)
    requires a != []
    ensures (forall k :: Says(a[0], k) && !Opens(a[0] + "\n") ==> Absent(a[1..] + b, k)) && KeysApart(a[1..], b)
       <==> (forall k :: Says(a[0], k) && !Opens(a[0] + "\n") ==> Absent(a[1..], k)) && KeysApart(a, b)
  {
    hide Opens, Says;
    forall k ensures Absent(a[1..] + b, k) <==> Absent(a[1..], k) && (HasOpen(a[1..]) || Absent(b, k)) {
      AbsentAppend(a[1..], b, k);
    }
    forall k ensures AtTail(a, k) <==> AtTail(a[1..], k) || (!HasOpen(a[1..]) && !Opens(a[0] + "\n") && Says(a[0], k)) {
    }
  }

  ghost predicate Unique(lines: seq<string>) { HeadsOnce(lines) && KeysOnce(lines) }

  // ---------------------------------------------------------------------------
  // Lines taken out
  // ---------------------------------------------------------------------------

  /** The part behind is at the end of a section. */
  predicate AtBoundary(b: seq<string>) { b == [] || Opens(b[0] + "\n") }

  lemma BoundaryAbsent(b: seq<string>, k: string)
    requires AtBoundary(b)
    ensures Absent(b, k)
  {
  }

  lemma HeadsCut(a: seq<string>, m: seq<string>, b: seq<string>)
    requires HeadsOnce(a + m + b)
    ensures HeadsOnce(a + b)
  {
    hide Heads, HeadsOnce, NoHead;
    HeadsOnceAppend(a + m, b);
    HeadsOnceAppend(a, m);
    forall s ensures NoHead(a + m, s) <==> NoHead(a, s) && NoHead(m, s) {
      NoHeadAppend(a, m, s);
    }
    HeadsOnceAppend(a, b);
  }

  /** A stretch that ends at the end of a section. */
  lemma SectionCut(a: seq<string>, m: seq<string>, b: seq<string>)
    requires Unique(a + m + b) && AtBoundary(b)
    ensures Unique(a + b)
  {
    hide Heads, HeadsOnce, KeysOnce, Absent, AtTail;
    HeadsCut(a, m, b);
    KeysOnceAppend(a + m, b);
    KeysOnceAppend(a, m);
    forall k ensures Absent(b, k) {
      BoundaryAbsent(b, k);
    }
    KeysOnceAppend(a, b);
  }

  /** A line within a section. */
  lemma LineCut(a: seq<string>, x: string, b: seq<string>)
    requires Unique(a + [x] + b) && !Opens(x + "\n")
    ensures Unique(a + b)
  {
    hide Heads, HeadsOnce, KeysOnce, AtTail, Opens, Says, Absent;
    HeadsCut(a, [x], b);
    assert a + [x] + b == a + ([x] + b);
    KeysOnceAppend(a, [x] + b);
    KeysOnceAppend([x], b);
    forall k ensures Absent([x] + b, k) ==> Absent(b, k) {
      AbsentCons(x, b, k);
    }
    KeysOnceAppend(a, b);
  }

  lemma AbsentCons(x: string, b: seq<string>, k: string)
    ensures Absent([x] + b, k) <==> Opens(x + "\n") || (!Says(x, k) && Absent(b, k))
  {
    hide Opens, Says;
    assert ([x] + b)[1..] == b;
  }

  // ---------------------------------------------------------------------------
  // Lines put in
  // ---------------------------------------------------------------------------

  /** Lines that head nothing. */
  ghost predicate Headless(m: seq<string>) { forall i, s :: 0 <= i < |m| ==> !Heads(m[i] + "\n", s) }

  lemma {:induction false} HeadlessOnce(m: seq<string>)
    requires Headless(m)
    ensures HeadsOnce(m) && forall s :: NoHead(m, s)
  {
    hide Heads;
    if m != [] {
      HeadlessOnce(m[1..]);
    }
  }

  lemma HeadsPut(a: seq<string>, m: seq<string>, b: seq<string>)
    requires HeadsOnce(a + b) && Headless(m)
    ensures HeadsOnce(a + m + b)
  {
    hide Heads, HeadsOnce, NoHead, Headless;
    HeadlessOnce(m);
    HeadsOnceAppend(a, b);
    HeadsOnceAppend(a, m);
    forall s ensures NoHead(a + m, s) <==> NoHead(a, s) && NoHead(m, s) {
      NoHeadAppend(a, m, s);
    }
    HeadsOnceAppend(a + m, b);
  }

  /** The line of a key that its section did not have, at the end of the section. */
  lemma LinePut(a: seq<string>, y: string, b: seq<string>)
    requires Unique(a + b) && AtBoundary(b) && Headless([y]) && !Opens(y + "\n")
    requires forall k :: AtTail(a, k) ==> !Says(y, k)
    ensures Unique(a + [y] + b)
  {
    hide Heads, HeadsOnce, KeysOnce, AtTail, Opens, Says, Absent, Headless;
    HeadsPut(a, [y], b);
    KeysOnceAppend(a, b);
    forall k ensures Absent(b, k) {
      BoundaryAbsent(b, k);
    }
    forall k ensures Absent([y] + b, k) <==> !Says(y, k) {
      AbsentCons(y, b, k);
    }
    KeysOnceCons(y, b);
    KeysOnceAppend(a, [y] + b);
    assert a + [y] + b == a + ([y] + b);
  }

  lemma KeysOnceCons(y: string, b: seq<string>)
    ensures KeysOnce([y] + b) <==> KeysOnce(b) && forall k :: Says(y, k) && !Opens(y + "\n") ==> Absent(b, k)
  {
    hide Says, Opens, Absent;
    assert ([y] + b)[1..] == b;
  }

  /** A line in place of one for the same key. */
  lemma LineSwap(a: seq<string>, x: string, y: string, b: seq<string>)
    requires Unique(a + [x] + b) && !Opens(x + "\n") && !Opens(y + "\n") && Headless([y])
    requires forall k :: Says(x, k) <==> Says(y, k)
    ensures Unique(a + [y] + b)
  {
    hide Heads, HeadsOnce, KeysOnce, AtTail, Opens, Says, Absent, Headless;
    HeadsCut(a, [x], b);
    HeadsPut(a, [y], b);
    assert a + [x] + b == a + ([x] + b) && a + [y] + b == a + ([y] + b);
    KeysOnceAppend(a, [x] + b);
    KeysOnceCons(x, b);
    KeysOnceCons(y, b);
    forall k ensures Absent([x] + b, k) <==> Absent([y] + b, k) {
      AbsentCons(x, b, k);
      AbsentCons(y, b, k);
    }
    KeysOnceAppend(a, [y] + b);
  }

  /** A new section with one key. */
  lemma SectionPut(a: seq<string>, head: string, y: string, section: string)
    requires Unique(a) && NoHead(a, section) && Opens(head + "\n") && Headless([y]) && !Opens(y + "\n")
    requires forall s :: Heads(head + "\n", s) ==> EqualFold(section, s)
    ensures Unique(a + [head, y])
  {
    hide Heads, HeadsOnce, KeysOnce, AtTail, Opens, Says, Absent, Headless, NoHead;
    HeadlessOnce([y]);
    HeadsOnceCons(head, [y]);
    forall s ensures NoHead(a, s) || NoHead([head] + [y], s) {
      NoHeadCons(head, [y], s);
      if Heads(head + "\n", s) { NoHeadFolds(a, section, s); }
    }
    HeadsOnceAppend(a, [head] + [y]);
    KeysOnceCons(head, [y]);
    KeysOnceOne(y);
    forall k ensures Absent([head] + [y], k) {
      AbsentCons(head, [y], k);
    }
    KeysOnceAppend(a, [head] + [y]);
    assert [head] + [y] == [head, y];
  }

  lemma KeysOnceOne(y: string)
    ensures KeysOnce([y])
  {
    assert [y][1..] == [];
    assert KeysOnce([]);
  }

  lemma HeadsOnceCons(x: string, b: seq<string>)
    ensures HeadsOnce([x] + b) <==> HeadsOnce(b) && forall s :: Heads(x + "\n", s) ==> NoHead(b, s)
  {
    hide Heads, NoHead;
    assert ([x] + b)[1..] == b;
  }

  lemma NoHeadCons(x: string, b: seq<string>, s: string)
    ensures NoHead([x] + b, s) <==> !Heads(x + "\n", s) && NoHead(b, s)
  {
    hide Heads;
    assert ([x] + b)[1..] == b;
  }

  lemma {:induction false} NoHeadFolds(a: seq<string>, s: string, t: string)
    requires NoHead(a, s) && EqualFold(s, t)
    ensures NoHead(a, t)
  {
    hide EqualFold, Heads;
    if a != [] {
      NoHeadFolds(a[1..], s, t);
      HeadsFold(a[0] + "\n", s, t);
    }
  }

  lemma HeadsFold(b: string, s: string, t: string)
    requires EqualFold(s, t)
    ensures Heads(b, s) <==> Heads(b, t)
  {
    hide SkipLeading, IndexOf, EqualFold;
    var sp := SkipLeading(b);
    if sp != [] && sp[0] == '[' {
      FoldAgrees(sp[1..if IndexOf(sp, ']') < |sp| then IndexOf(sp, ']') else 1], s, t);
    }
  }

  // ---------------------------------------------------------------------------
  // All requests
  // ---------------------------------------------------------------------------

  lemma KeyLineHeadless(key: string, value: string, size: nat)
    requires size > 4 && KeyName(key, size)
    ensures var y := KeyLine(key, value, size);
            Headless([y]) && !Opens(y + "\n") && forall k :: Says(y, k) <==> EqualFold(key, k)
  {
    hide KeyLine, Heads, Names, Comments, Opens, EqualFold;
    KeyLineSays(key, value, size);
  }

  lemma GapPut(lines: seq<string>, gap: bool)
    requires Unique(lines)
    ensures Unique(lines + Gap(gap)) && forall k :: AtTail(lines + Gap(gap), k) <==> AtTail(lines, k)
  {
    if gap {
      var y := "";
      GapSays(y + "\n");
      hide Heads, HeadsOnce, KeysOnce, AtTail, Opens, Names, Comments;
      assert lines + [] == lines;
      LinePut(lines, y, []);
      assert lines + [y] + [] == lines + Gap(gap);
      forall k ensures AtTail(lines + Gap(gap), k) <==> AtTail(lines, k) {
        AtTailSnoc(lines, y, k);
      }
    } else {
      assert lines + Gap(gap) == lines;
    }
  }

  lemma AtTailSnoc(a: seq<string>, y: string, k: string)
    ensures AtTail(a + [y], k) <==> !Opens(y + "\n") && (Says(y, k) || AtTail(a, k))
  {
    hide Opens, Says;
    AtTailAppend(a, [y], k);
    assert [y][1..] == [];
    assert !HasOpen([]) && !AtTail([], k);
  }

  /** Lines that open nothing and do not name the key do not give it a value. */
  lemma {:induction false} TailFree(lines: seq<string>, key: string, k: string)
    requires forall i :: 0 <= i < |lines| ==> !OpenAt(lines, i) && !Names(lines[i] + "\n", key)
    requires EqualFold(key, k)
    ensures !AtTail(lines, k) && !HasOpen(lines)
  {
    hide EqualFold, Opens, Names, Comments;
    if lines != [] {
      var rest := lines[1..];
      assert forall i :: 0 <= i < |rest| ==> OpenAt(rest, i) == OpenAt(lines, i + 1) && rest[i] == lines[i + 1];
      TailFree(rest, key, k);
      assert !OpenAt(lines, 0);
      NamesFold(lines[0] + "\n", key, k);
    }
  }

  lemma NamesFold(b: string, key: string, k: string)
    requires EqualFold(key, k)
    ensures Names(b, key) <==> Names(b, k)
  {
    hide SkipLeading, StripTrailing, Sign, EqualFold;
    var sp := SkipLeading(b);
    if Sign(sp) < |sp| {
      FoldAgrees(StripTrailing(sp[..Sign(sp)]), key, k);
    }
  }

  /** The section up to where the search for the key ended has no line of it. */
  lemma TargetTail(lines: seq<string>, section: string, key: string, j: nat, k: string)
    requires Start(lines, section) <= |lines| && j == FindTarget(lines, Start(lines, section), key) && EqualFold(key, k)
    ensures !AtTail(lines[..j], k)
  {
    hide EqualFold, Opens, Names, Comments, AtTail, FindTarget, FindHead, Heads;
    var start := Start(lines, section);
    var mid := lines[start..j];
    forall i | 0 <= i < |mid| ensures !OpenAt(mid, i) && !Names(mid[i] + "\n", key) {
      assert !OpenAt(lines, start + i);
    }
    TailFree(mid, key, k);
    AtTailAppend(lines[..start], mid, k);
    assert lines[..j] == lines[..start] + mid;
    if start > 0 {
      var head := lines[start - 1];
      assert HeadAt(lines, start - 1, section);
      HeadsOpens(head + "\n", section);
      AtTailSnoc(lines[..start - 1], head, k);
      assert lines[..start] == lines[..start - 1] + [head];
    } else {
      NothingAtTail(lines[..start], k);
    }
  }

  lemma NothingAtTail(a: seq<string>, k: string)
    requires a == []
    ensures !AtTail(a, k)
  {
  }

  lemma {:induction false} NotFoundNoHead(lines: seq<string>, k: nat, section: string)
    requires k <= |lines| && forall i :: k <= i < |lines| ==> !HeadAt(lines, i, section)
    ensures NoHead(lines[k..], section)
    decreases |lines| - k
  {
    hide Heads;
    if k < |lines| {
      NotFoundNoHead(lines, k + 1, section);
      assert !HeadAt(lines, k, section);
      assert lines[k..][1..] == lines[k + 1..];
    }
  }

  lemma PutUnique(lines: seq<string>, section: string, key: string, value: string, size: nat, gap: bool)
    requires Unique(lines) && size > 4 && SectionName(section, size) && KeyName(key, size)
    ensures Unique(Edit(lines, section, Put(key, value), size, gap))
  {
    hide Unique, KeyLine, HeadLine, Lookup, FindHead, FindTarget, SectionName, KeyName, PutAt;
    var k, y := Start(lines, section), KeyLine(key, value, size);
    if k > |lines| {
      PutNewUnique(lines, section, y, key, value, size, gap && lines == []);
    } else {
      PutAtUnique(lines, section, key, value, size, gap && k == |lines|);
    }
  }

  lemma PutNewUnique(lines: seq<string>, section: string, y: string, key: string, value: string, size: nat, gap: bool)
    requires Unique(lines) && size > 4 && SectionName(section, size) && KeyName(key, size)
    requires y == KeyLine(key, value, size) && Start(lines, section) > |lines|
    ensures Unique(lines + Gap(gap) + [HeadLine(section, size), y])
  {
    hide Unique, KeyLine, HeadLine, Heads, Opens, SectionName, KeyName, NoHead, Headless, Says, EqualFold;
    KeyLineHeadless(key, value, size);
    HeadLineSays(section, size);
    GapPut(lines, gap);
    NotFoundNoHead(lines, 0, section);
    assert lines[0..] == lines;
    NoHeadAppend(lines, Gap(gap), section);
    GapHeadless(gap, section);
    SectionPut(lines + Gap(gap), HeadLine(section, size), y, section);
  }

  lemma GapHeadless(gap: bool, section: string)
    ensures NoHead(Gap(gap), section)
  {
    if gap {
      GapSays("" + "\n");
      assert [""][1..] == [];
    }
  }

  lemma PutAtUnique(lines: seq<string>, section: string, key: string, value: string, size: nat, gap: bool)
    requires Unique(lines) && size > 4 && KeyName(key, size) && Start(lines, section) <= |lines|
    ensures var j := FindTarget(lines, Start(lines, section), key);
            Unique(PutAt(lines, j, KeyLine(key, value, size), gap))
  {
    hide Unique, KeyLine, Opens, Heads, KeyName, Headless, Says, EqualFold, AtTail, Names, Start, PutAt;
    var j, y := FindTarget(lines, Start(lines, section), key), KeyLine(key, value, size);
    KeyLineHeadless(key, value, size);
    if j < |lines| && !OpenAt(lines, j) {
      TargetSays(lines, j, key, size);
      PutOverUnique(lines, j, y, gap);
    } else {
      forall k ensures AtTail(lines[..j], k) ==> !Says(y, k) {
        if EqualFold(key, k) { TargetTail(lines, section, key, j, k); }
      }
      PutBeforeUnique(lines, j, y, gap);
    }
  }

  /** A line over one that gives a value to the same keys. */
  lemma PutOverUnique(lines: seq<string>, j: nat, y: string, gap: bool)
    requires Unique(lines) && j < |lines| && !OpenAt(lines, j)
    requires Headless([y]) && !Opens(y + "\n") && forall k :: Says(lines[j], k) <==> Says(y, k)
    ensures Unique(PutAt(lines, j, y, gap))
  {
    hide Unique, Opens, Headless, Says;
    assert lines[..j] + [lines[j]] + lines[j + 1..] == lines;
    LineSwap(lines[..j], lines[j], y, lines[j + 1..]);
  }

  /** A line at the end of a section that does not give a value to its keys yet. */
  lemma PutBeforeUnique(lines: seq<string>, j: nat, y: string, gap: bool)
    requires Unique(lines) && j <= |lines| && (j < |lines| ==> OpenAt(lines, j))
    requires Headless([y]) && !Opens(y + "\n") && forall k :: AtTail(lines[..j], k) ==> !Says(y, k)
    ensures Unique(PutAt(lines, j, y, gap))
  {
    hide Unique, Opens, Headless, Says, AtTail;
    if j == |lines| {
      assert lines[..j] == lines;
      GapPut(lines, gap);
      assert lines + Gap(gap) + [] == lines + Gap(gap);
      LinePut(lines + Gap(gap), y, []);
      assert lines + Gap(gap) + [y] + [] == lines + Gap(gap) + [y];
    } else {
      assert lines[..j] + lines[j..] == lines;
      LinePut(lines[..j], y, lines[j..]);
    }
  }

  /** The target's line gives a value to its key, up to case, and to no other. */
  lemma TargetSays(lines: seq<string>, j: nat, key: string, size: nat)
    requires j < |lines| && !OpenAt(lines, j) && Names(lines[j] + "\n", key) && KeyName(key, size)
    ensures forall k :: Says(lines[j], k) <==> EqualFold(key, k)
  {
    var b := lines[j] + "\n";
    NotAComment(b, key, size);
    TargetOnlyNames(lines, j, key);
    hide Names, Comments, Opens, EqualFold;
    forall k ensures Says(lines[j], k) <==> EqualFold(key, k) {
      if EqualFold(key, k) { NamesFold(b, key, k); }
    }
  }

  lemma NotAComment(b: string, key: string, size: nat)
    requires Names(b, key) && KeyName(key, size)
    ensures !Comments(b)
  {
    hide SkipLeading, Sign;
    var sp := SkipLeading(b);
    var name := StripTrailing(sp[..Sign(sp)]);
    assert name[0] == sp[0] && Fold(name[0]) == Fold(key[0]);
  }

  lemma EraseAtUnique(lines: seq<string>, j: nat)
    requires Unique(lines) && j <= |lines|
    ensures Unique(EraseAt(lines, j))
  {
    hide Unique, Opens;
    if j < |lines| && !OpenAt(lines, j) {
      assert lines == lines[..j] + [lines[j]] + lines[j + 1..];
      LineCut(lines[..j], lines[j], lines[j + 1..]);
    }
  }

  lemma StretchUnique(lines: seq<string>, h: nat, j: nat)
    requires Unique(lines) && h <= j <= |lines| && (j < |lines| ==> OpenAt(lines, j))
    ensures Unique(lines[..h] + lines[j..])
  {
    hide Unique, Opens;
    assert lines == lines[..h] + lines[h..j] + lines[j..];
    SectionCut(lines[..h], lines[h..j], lines[j..]);
  }

  /** Unique files stay unique. */
  lemma EditUnique(lines: seq<string>, section: string, request: Request, size: nat, gap: bool)
    requires Unique(lines) && size > 4 && SectionName(section, size)
    requires !request.EraseSection? ==> KeyName(request.key, size)
    ensures Unique(Edit(lines, section, request, size, gap))
  {
    match request {
      case Put(key, value) =>
        hide *;
        PutUnique(lines, section, key, value, size, gap);
      case Erase(key) =>
        hide Unique, Opens, Heads, Names, FindHead, FindTarget, EraseAt, SectionName, KeyName;
        if Start(lines, section) <= |lines| {
          EraseAtUnique(lines, FindTarget(lines, Start(lines, section), key));
        }
      case EraseSection =>
        hide Unique, Opens, Heads, FindHead, FindOpen, SectionName;
        if section == "" {
          var j := FindOpen(lines, Min(1, |lines|));
          StretchUnique(lines, 0, j);
          assert lines[..0] + lines[j..] == lines[j..];
        } else if Start(lines, section) <= |lines| {
          StretchUnique(lines, Start(lines, section) - 1, FindOpen(lines, Start(lines, section)));
        }
    }
  }

  // ---------------------------------------------------------------------------
  // What is erased is gone
  // ---------------------------------------------------------------------------

  lemma {:induction false} AbsentGives(lines: seq<string>, k: nat, key: string, maxlen: nat)
    requires k <= |lines| && Absent(lines[k..], key) && maxlen > 0
    ensures ValueFrom(lines, k, key, maxlen) == None
    decreases |lines| - k
  {
    hide Opens, Names, Comments, ValueOf;
    if k < |lines| {
      assert lines[k..][1..] == lines[k + 1..];
      if !OpenAt(lines, k) {
        AbsentGives(lines, k + 1, key, maxlen);
      }
    }
  }

  /** In a unique file an erased key is gone. */
  lemma ErasedIsGone(lines: seq<string>, section: string, key: string, size: nat, gap: bool, maxlen: nat)
    requires Unique(lines) && size > 4 && KeyName(key, size) && maxlen > 0
    ensures Lookup(Edit(lines, section, Erase(key), size, gap), section, key, maxlen) == None
  {
    hide Lookup, ValueFrom, Opens, Names, Comments, KeyName, FindHead, Edit, KeysOnce, HeadsOnce;
    EraseThenGet(lines, section, key, size, gap, maxlen);
    var k := Start(lines, section);
    if k <= |lines| {
      var j := FindTarget(lines, k, key);
      if j < |lines| && !OpenAt(lines, j) {
        TargetSays(lines, j, key, size);
        FoldSame(key);
        OnceBehind(lines, j, key);
        AbsentGives(lines, j + 1, key, maxlen);
      }
    } else {
      NothingFrom(lines, k, key, maxlen);
    }
  }

  lemma OnceBehind(lines: seq<string>, j: nat, key: string)
    requires KeysOnce(lines) && j < |lines| && Says(lines[j], key) && !OpenAt(lines, j)
    ensures Absent(lines[j + 1..], key)
  {
    hide Says, Opens;
    KeysOnceAppend(lines[..j], lines[j..]);
    assert lines == lines[..j] + lines[j..];
    assert lines[j..][1..] == lines[j + 1..];
  }

  /** In a unique file an erased section is gone. */
  lemma ErasedSectionIsGone(lines: seq<string>, section: string, key: string, size: nat, gap: bool, maxlen: nat)
    requires Unique(lines) && size > 4 && section != "" && maxlen > 0
    ensures Lookup(Edit(lines, section, EraseSection, size, gap), section, key, maxlen) == None
  {
    hide Lookup, Opens, Heads, KeysOnce, HeadsOnce, NoHead, Edit, FindOpen, FindHead;
    EraseSectionThenGet(lines, section, key, size, gap, maxlen);
    var k := Start(lines, section);
    if k <= |lines| {
      HeadBehind(lines, k - 1, section);
      NoHeadFrom(lines, k, FindOpen(lines, k), section);
      NoHeadGives(lines[FindOpen(lines, k)..], section, key, maxlen);
    }
  }

  lemma NoHeadFrom(lines: seq<string>, k: nat, j: nat, section: string)
    requires k <= j <= |lines| && NoHead(lines[k..], section)
    ensures NoHead(lines[j..], section)
  {
    hide NoHead;
    NoHeadAppend(lines[k..j], lines[j..], section);
    assert lines[k..] == lines[k..j] + lines[j..];
  }

  lemma HeadBehind(lines: seq<string>, h: nat, section: string)
    requires HeadsOnce(lines) && h < |lines| && HeadAt(lines, h, section)
    ensures NoHead(lines[h + 1..], section)
  {
    hide Heads;
    HeadsOnceAppend(lines[..h], lines[h..]);
    assert lines == lines[..h] + lines[h..];
    assert lines[h..][1..] == lines[h + 1..];
  }

  lemma NoHeadGives(lines: seq<string>, section: string, key: string, maxlen: nat)
    requires NoHead(lines, section) && section != "" && maxlen > 0
    ensures Lookup(lines, section, key, maxlen) == None
  {
    hide Heads;
    NoHeadFinds(lines, 0, section);
  }

  lemma {:induction false} NoHeadFinds(lines: seq<string>, k: nat, section: string)
    requires k <= |lines| && NoHead(lines[k..], section)
    ensures FindHead(lines, k, section) == |lines|
    decreases |lines| - k
  {
    hide Heads;
    if k < |lines| {
      assert lines[k..][1..] == lines[k + 1..];
      NoHeadFinds(lines, k + 1, section);
    }
  }

  // ---------------------------------------------------------------------------
  // Histories of puts and erasures
  // ---------------------------------------------------------------------------

  datatype Change = Change(section: string, request: Request, gap: bool)

  /** A put that can be stored in full, or the erasure of a key or of a section with a name. */
  ghost predicate Feasible(c: Change, size: nat) {
    && SectionName(c.section, size)
    && match c.request
       case Put(key, value) => Storable(Setting(c.section, key, value, c.gap), size)
       case Erase(key) => KeyName(key, size)
       case EraseSection => c.section != ""
  }

  /** The change does not concern the query. */
  predicate Spares(c: Change, q: Query) {
    if c.request.EraseSection? then !EqualFold(c.section, q.section) else Differs(c.section, c.request.key, q)
  }

  function ChangeAll(lines: seq<string>, history: seq<Change>, size: nat): seq<string>
    requires size > 4
  {
    if history == [] then lines
    else
      var c := history[|history| - 1];
      Edit(ChangeAll(lines, history[..|history| - 1], size), c.section, c.request, size, c.gap)
  }

  /** What the last change that concerns the query left, or what was there before. */
  function LatestOf(before: Option<string>, history: seq<Change>, q: Query): Option<string> {
    if history == [] then before
    else
      var c := history[|history| - 1];
      if Spares(c, q) then LatestOf(before, history[..|history| - 1], q)
      else if c.request.Put? then Some(c.request.value)
      else None
  }

  lemma {:induction false} ChangesUnique(lines: seq<string>, history: seq<Change>, size: nat)
    requires Unique(lines) && size > 4 && forall i :: 0 <= i < |history| ==> Feasible(history[i], size)
    ensures Unique(ChangeAll(lines, history, size))
    decreases |history|
  {
    hide Unique, Edit, SectionName, KeyName;
    if history != [] {
      var c, past := history[|history| - 1], history[..|history| - 1];
      ChangesUnique(lines, past, size);
      assert Feasible(c, size);
      EditUnique(ChangeAll(lines, past, size), c.section, c.request, size, c.gap);
    }
  }

  /** One change, as every lookup sees it. */
  lemma ChangeSeen(lines: seq<string>, c: Change, size: nat, q: Query)
    requires Unique(lines) && size > 4 && Feasible(c, size) && q.maxlen > 0
    requires c.request.Put? ==> |c.request.value| < q.maxlen
    ensures Lookup(Edit(lines, c.section, c.request, size, c.gap), q.section, q.key, q.maxlen)
         == if Spares(c, q) then Lookup(lines, q.section, q.key, q.maxlen)
            else if c.request.Put? then Some(c.request.value) else None
  {
    hide Lookup, Edit, EqualFold, SectionName, KeyName, ValueFits, NeedsQuotes, Unpadded, Unique, IsLine;
    var edited := Edit(lines, c.section, c.request, size, c.gap);
    match c.request {
      case Put(key, value) =>
        if Spares(c, q) {
          PutPasses(lines, c.section, key, value, size, c.gap, q);
        } else {
          PutIsFound(lines, c.section, key, value, size, c.gap, q.maxlen);
          LookupFolds(edited, Query(c.section, key, q.maxlen), q);
        }
      case Erase(key) =>
        if Spares(c, q) {
          EraseKeepsOthers(lines, c.section, key, size, c.gap, q);
        } else {
          ErasedIsGone(lines, c.section, key, size, c.gap, q.maxlen);
          LookupFolds(edited, Query(c.section, key, q.maxlen), q);
        }
      case EraseSection =>
        if Spares(c, q) {
          EraseSectionKeepsOthers(lines, c.section, size, c.gap, q);
        } else {
          ErasedSectionIsGone(lines, c.section, q.key, size, c.gap, q.maxlen);
          FoldSame(q.key);
          LookupFolds(edited, Query(c.section, q.key, q.maxlen), q);
        }
    }
  }

  /** After any history of puts and erasures of a unique file, every lookup gives what the last change
      that concerns it left. */
  lemma {:induction false} LatestChangeWins(lines: seq<string>, history: seq<Change>, size: nat, q: Query)
    requires Unique(lines) && size > 4 && forall i :: 0 <= i < |history| ==> Feasible(history[i], size)
    requires q.maxlen > 0
    requires forall i :: 0 <= i < |history| && history[i].request.Put? ==> |history[i].request.value| < q.maxlen
    ensures Lookup(ChangeAll(lines, history, size), q.section, q.key, q.maxlen)
         == LatestOf(Lookup(lines, q.section, q.key, q.maxlen), history, q)
    decreases |history|
  {
    hide Lookup, Edit, Unique, Feasible, Spares;
    if history != [] {
      var past := history[..|history| - 1];
      LatestChangeWins(lines, past, size, q);
      ChangesUnique(lines, past, size);
      ChangeSeen(ChangeAll(lines, past, size), history[|history| - 1], size, q);
    }
  }

  /** The history runs on the file, and leaves the file of the edited lines. */
  method ChangesAll(text: string, history: seq<Change>, size: nat, ghost lines: seq<string>) returns (result: string)
    requires size > 4 && Fits(lines, size) && text == Text(lines)
    requires forall i :: 0 <= i < |history| ==> Feasible(history[i], size)
    ensures result == Text(ChangeAll(lines, history, size)) && Fits(ChangeAll(lines, history, size), size)
  {
    assert ChangeAll(lines, history[..0], size) == lines;
    hide Text, Fits, Edit, ChangeAll, Feasible;
    result := text;
    for i := 0 to |history|
      invariant result == Text(ChangeAll(lines, history[..i], size)) && Fits(ChangeAll(lines, history[..i], size), size)
    {
      ghost var past := ChangeAll(lines, history[..i], size);
      ChangeAllNext(lines, history, i, size);
      FeasibleLines(history[i], size);
      EditFits(past, history[i].section, history[i].request, size, history[i].gap);
      result := IniPuts(result, history[i].section, history[i].request, size, history[i].gap, past);
    }
    assert history[..|history|] == history;
  }

  lemma ChangeAllNext(lines: seq<string>, history: seq<Change>, i: nat, size: nat)
    requires size > 4 && i < |history|
    ensures var c := history[i];
            ChangeAll(lines, history[..i + 1], size)
            == Edit(ChangeAll(lines, history[..i], size), c.section, c.request, size, c.gap)
  {
    hide Edit;
    assert history[..i + 1][..i] == history[..i];
  }

  lemma FeasibleLines(c: Change, size: nat)
    requires Feasible(c, size)
    ensures IsLine(c.section) && IsCString(c.section)
    ensures !c.request.EraseSection? ==> IsLine(c.request.key) && IsCString(c.request.key)
    ensures c.request.Put? ==> IsLine(c.request.value) && IsCString(c.request.value)
  {
  }
}
