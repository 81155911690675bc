/** What an edit leaves alone: every line, comments and blank lines included, but those that the
    request is about. */
module IniKeeps {
  import opened Basics
  import opened IniText
  import opened IniLookup
  import opened IniEdit

  /** A put changes nothing, or puts one line in place of the first that has the key, or as the last of the
      section, or a new section at the end of the file. */
  lemma PutKeeps(lines: seq<string>, section: string, key: string, value: string, size: nat, gap: bool)
      returns (i: nat, j: nat, added: seq<string>)
    requires size > 4
    ensures i <= j <= |lines| && Edit(lines, section, Put(key, value), size, gap) == lines[..i] + added + lines[j..]
    ensures Lookup(lines, section, key, size) == Some(value) ==> i == j && added == []
    ensures Lookup(lines, section, key, size) != Some(value) ==>
              added != [] && added[|added| - 1] == KeyLine(key, value, size)
    ensures if i < j then j == i + 1 && Names(lines[i] + "\n", key) && |added| == 1
            else added != [] ==> i == |lines| || (OpenAt(lines, i) && |added| == 1)
    ensures i == j == |lines| && added != [] ==>
              exists some :: added == Gap(some) + (if Start(lines, section) > |lines| then [HeadLine(section, size)] else [])
                                      + [KeyLine(key, value, size)]
  {
    hide Lookup, Names, Opens, Heads, HeadLine, KeyLine, FindHead, PutAt, Gap;
    var k, line := Start(lines, section), KeyLine(key, value, size);
    i, j, added := |lines|, |lines|, [];
    if Lookup(lines, section, key, size) == Some(value) {
      assert lines[..i] + added + lines[j..] == lines;
    } else if k > |lines| {
      added := Appended(lines, gap && lines == [], [HeadLine(section, size)], line);
      assert Gap(gap && lines == []) + [HeadLine(section, size), line] == added;
      assert lines + Gap(gap && lines == []) + [HeadLine(section, size), line] == lines + added;
    } else {
      i := FindTarget(lines, k, key);
      j, added := PutAtKeeps(lines, i, line, gap && k == |lines|);
    }
  }

  lemma Appended(lines: seq<string>, some: bool, head: seq<string>, line: string) returns (added: seq<string>)
    ensures added == Gap(some) + head + [line] && lines + added == lines[..|lines|] + added + lines[|lines|..]
    ensures lines + Gap(some) + head + [line] == lines + added
  {
    hide Gap;
    added := Gap(some) + head + [line];
  }

  lemma PutAtKeeps(lines: seq<string>, i: nat, line: string, some: bool) returns (j: nat, added: seq<string>)
    requires i <= |lines|
    ensures i <= j <= |lines| && PutAt(lines, i, line, some) == lines[..i] + added + lines[j..]
    ensures if i == |lines| then j == i && added == Gap(some) + [] + [line] else added == [line]
    ensures i < |lines| ==> j == if OpenAt(lines, i) then i else i + 1
  {
    hide Opens, Gap;
    if i == |lines| {
      j := i;
      added := Appended(lines, some, [], line);
      assert lines + Gap(some) + [] + [line] == lines + Gap(some) + [line];
    } else {
      added := [line];
      j := if OpenAt(lines, i) then i else i + 1;
    }
  }

  /** Erasing a key takes out at most one line, which has the key. */
  lemma EraseKeeps(lines: seq<string>, section: string, key: string, size: nat, gap: bool) returns (i: nat, j: nat)
    requires size > 4
    ensures i <= j <= |lines| && Edit(lines, section, Erase(key), size, gap) == lines[..i] + lines[j..]
    ensures i < j ==> j == i + 1 && Names(lines[i] + "\n", key)
  {
    hide Names, Opens, Heads, FindHead;
    i, j := |lines|, |lines|;
    assert lines[..i] + lines[j..] == lines;
    var k := Start(lines, section);
    if k <= |lines| {
      var t := FindTarget(lines, k, key);
      if t < |lines| && !OpenAt(lines, t) {
        i, j := t, t + 1;
      }
    }
  }

  /** Erasing a section takes out its head and the lines up to the next line that opens a section. */
  lemma EraseSectionKeeps(lines: seq<string>, section: string, size: nat, gap: bool) returns (i: nat, j: nat)
    requires size > 4 && section != ""
    ensures i <= j <= |lines| && Edit(lines, section, EraseSection, size, gap) == lines[..i] + lines[j..]
    ensures i < j ==> HeadAt(lines, i, section) && forall m :: i < m < j ==> !OpenAt(lines, m)
    ensures i == j ==> forall m :: 0 <= m < |lines| ==> !HeadAt(lines, m, section)
    ensures j == |lines| || OpenAt(lines, j)
  {
    hide Opens, Heads;
    i, j := |lines|, |lines|;
    assert lines[..i] + lines[j..] == lines;
    var k := Start(lines, section);
    if k <= |lines| {
      i, j := k - 1, FindOpen(lines, k);
    }
  }
}
