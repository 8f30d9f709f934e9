/** `parsePasteData` (src/lib/parsePaste.ts): pasted spreadsheet text, one
    member per non-blank line, fields separated by a tab or a comma. */
module ParsePaste {
  import opened Types
  import opened Strings

  /** The field separators of the regular expression /\t|,/. */
  const FieldSeparators: set<char> := {'\t', ','}

  /** A field as emitted: trimmed, and free of separators and of `\n`. Other
      line terminators, such as `\r`, can occur inside it. */
  predicate IsCleanField(f: string) {
    IsTrimmed(f) && Avoids(f, FieldSeparators + {'\n'})
  }

  /** The lines of the trimmed text, blank ones included. */
  function Lines(text: string): (r: seq<string>)
    ensures |r| >= 1
    ensures forall i :: 0 <= i < |r| ==> Avoids(r[i], {'\n'})
  {
    Split(Trim(text), {'\n'})
  }

  /** A line `trim` reduces to "": all of it is whitespace. */
  predicate IsBlank(line: string) {
    AllWhitespace(line)
  }

  /** The lines that are not blank, in their order. */
  function NonBlank(lines: seq<string>): (r: seq<string>)
    ensures |r| <= |lines|
    ensures forall i :: 0 <= i < |r| ==> !IsBlank(r[i]) && r[i] in lines
  {
    if lines == [] then []
    else
      var last := lines[|lines| - 1];
      NonBlank(lines[..|lines| - 1]) + (if IsBlank(last) then [] else [last])
  }

  /** The fields of a line: split on tab or comma, each trimmed. */
  function Fields(line: string): (r: seq<string>)
    ensures |r| == 1 + CountIn(line, FieldSeparators)
  {
    var parts := Split(line, FieldSeparators);
    seq(|parts|, i requires 0 <= i < |parts| => Trim(parts[i]))
  }

  lemma FieldIsClean(line: string, i: nat)
    requires Avoids(line, {'\n'})
    requires i < |Fields(line)|
    ensures IsCleanField(Fields(line)[i])
  {
    var part := Split(line, FieldSeparators)[i];
    var f := Trim(part);
    assert f == Fields(line)[i];
    forall k | 0 <= k < |f| ensures f[k] !in FieldSeparators + {'\n'} {
      TrimKeepsCharacters(part, f[k]);
      var j :| 0 <= j < |part| && part[j] == f[k];
      SplitPieceInLine(line, FieldSeparators, i, j);
    }
  }

  /** A character of a piece of `Split(s, seps)` is a character of `s`. */
  lemma {:induction false} SplitPieceInLine(s: string, seps: set<char>, i: nat, j: nat)
    requires i < |Split(s, seps)| && j < |Split(s, seps)[i]|
    ensures Split(s, seps)[i][j] in s
    decreases |s|
  {
    var rest := Split(s[1..], seps);
    if s[0] in seps {
      SplitPieceInLine(s[1..], seps, i - 1, j);
    } else if i == 0 && j == 0 {
    } else if i == 0 {
      SplitPieceInLine(s[1..], seps, 0, j - 1);
    } else {
      SplitPieceInLine(s[1..], seps, i, j);
    }
  }

  /** The member one non-blank line yields: the first field is the name, the
      second (or "" when there is none) the earlier group; further fields are
      ignored. */
  function LineToMember(line: string): (m: Member)
    requires !IsBlank(line)
  {
    var parts := Fields(line);
    Member(parts[0], if |parts| >= 2 then parts[1] else "")
  }

  /** Both fields of an emitted member are clean. */
  lemma LineToMemberClean(line: string)
    requires !IsBlank(line) && Avoids(line, {'\n'})
    ensures IsCleanField(LineToMember(line).name) && IsCleanField(LineToMember(line).prevGroup)
  {
    FieldIsClean(line, 0);
    if |Fields(line)| >= 2 { FieldIsClean(line, 1); }
  }

  /** A line without tab or comma is a name alone, with no earlier group. */
  lemma SingleFieldLine(line: string)
    requires !IsBlank(line) && Avoids(line, FieldSeparators)
    ensures LineToMember(line) == Member(Trim(line), "")
  {
    assert Split(line, FieldSeparators) == [line] by { SplitWithoutSeparator(line, FieldSeparators); }
  }

  lemma {:induction false} SplitWithoutSeparator(s: string, seps: set<char>)
    requires Avoids(s, seps)
    ensures Split(s, seps) == [s]
    decreases |s|
  {
    if s != [] {
      SplitWithoutSeparator(s[1..], seps);
      assert [s[0]] + s[1..] == s;
    }
  }

  /** A tab or a comma after the name starts the earlier-group field, which
      ends at the next separator; the rest of the line is ignored. */
  lemma TwoFieldLine(name: string, sep: char, group: string, tail: string)
    requires sep in FieldSeparators
    requires Avoids(name, FieldSeparators) && Avoids(group, FieldSeparators)
    requires !IsBlank(name + [sep] + group + tail)
    requires tail == [] || tail[0] in FieldSeparators
    ensures LineToMember(name + [sep] + group + tail) == Member(Trim(name), Trim(group))
  {
    var rest := group + tail;
    var line := name + [sep] + rest;
    assert line == name + [sep] + group + tail;
    SplitAfterPiece(name, sep, rest);
    FirstPiece(group, tail);
    assert Split(line, FieldSeparators)[1] == group;
  }

  /** The first piece of `group + tail` is `group` when `tail` is empty or
      starts with a separator. */
  lemma FirstPiece(group: string, tail: string)
    requires Avoids(group, FieldSeparators)
    requires tail == [] || tail[0] in FieldSeparators
    ensures Split(group + tail, FieldSeparators)[0] == group
  {
    if tail == [] {
      assert group + tail == group;
      SplitWithoutSeparator(group, FieldSeparators);
    } else {
      assert group + tail == group + [tail[0]] + tail[1..];
      SplitAfterPiece(group, tail[0], tail[1..]);
    }
  }

  /** `Split(p + [c] + rest)` starts with `p` and continues with `Split(rest)`
      when `p` holds no separator and `c` is one. */
  lemma {:induction false} SplitAfterPiece(p: string, c: char, rest: string)
    requires Avoids(p, FieldSeparators)
    ensures c in FieldSeparators ==>
      Split(p + [c] + rest, FieldSeparators) == [p] + Split(rest, FieldSeparators)
    decreases |p|
  {
    if c in FieldSeparators && p != [] {
      SplitAfterPiece(p[1..], c, rest);
      assert (p + [c] + rest)[1..] == p[1..] + [c] + rest;
      assert [p[0]] + p[1..] == p;
    } else if c in FieldSeparators {
      assert (p + [c] + rest)[1..] == rest;
    }
  }

  /** One member per line of `lines`, all of them non-blank. */
  function ToMembers(lines: seq<string>): (r: seq<Member>)
    requires forall i :: 0 <= i < |lines| ==> !IsBlank(lines[i])
    ensures |r| == |lines|
  {
    if lines == [] then [] else ToMembers(lines[..|lines| - 1]) + [LineToMember(lines[|lines| - 1])]
  }

  /** The reference result: one member per non-blank line, in line order. */
  function Parse(text: string): seq<Member>
  {
    ToMembers(NonBlank(Lines(text)))
  }

  /** The k-th member comes from the k-th non-blank line. */
  lemma {:induction false} ToMembersAt(lines: seq<string>, k: nat)
    requires forall i :: 0 <= i < |lines| ==> !IsBlank(lines[i])
    requires k < |lines|
    ensures ToMembers(lines)[k] == LineToMember(lines[k])
  {
    if k < |lines| - 1 {
      ToMembersAt(lines[..|lines| - 1], k);
    }
  }

  /** Taking one more line adds that line's member, or nothing when it is blank. */
  lemma NextLine(lines: seq<string>, i: nat)
    requires i < |lines|
    ensures ToMembers(NonBlank(lines[..i + 1])) ==
            ToMembers(NonBlank(lines[..i])) + (if IsBlank(lines[i]) then [] else [LineToMember(lines[i])])
  {
    var full := lines[..i + 1];
    assert full[..|full| - 1] == lines[..i];
    assert full[|full| - 1] == lines[i];
    var nb := NonBlank(lines[..i]);
    if IsBlank(lines[i]) {
      assert NonBlank(full) == nb + [];
      assert nb + [] == nb;
    } else {
      var more := nb + [lines[i]];
      assert NonBlank(full) == more;
      assert more[..|more| - 1] == nb;
      assert ToMembers(more) == ToMembers(nb) + [LineToMember(lines[i])];
    }
  }

  /** A non-blank line always yields a member: a line with a single field
      is not blank, so its one trimmed field is not empty. */
  lemma NonBlankLineHasName(line: string)
    requires !IsBlank(line)
    ensures |Fields(line)| >= 2 || Fields(line)[0] != []
  {
    if CountIn(line, FieldSeparators) == 0 {
      SplitOfNoSeparators(line, FieldSeparators);
      TrimEmptyIff(line);
    }
  }

  /** Empty or whitespace-only input yields no member. */
  lemma ParseWhitespaceOnly(text: string)
    requires AllWhitespace(text)
    ensures Parse(text) == []
  {
    TrimEmptyIff(text);
    assert Lines(text) == [[]];
    assert IsBlank([]);
    assert NonBlank(Lines(text)) == NonBlank([]) + [];
  }

  /** Only `\n` ends a line: text without one, carriage returns (`\r`) and
      the other line terminators `trim` knows included, is one line and gives
      one member. So text with old Mac line endings reads as a single line. */
  lemma OnlyNewlineEndsLine(text: string)
    requires Avoids(text, {'\n'}) && !AllWhitespace(text)
    ensures !IsBlank(Trim(text))
    ensures Parse(text) == [LineToMember(Trim(text))]
  {
    var t := Trim(text);
    forall k | 0 <= k < |t| ensures t[k] !in {'\n'} {
      TrimKeepsCharacters(text, t[k]);
    }
    SplitWithoutSeparator(t, {'\n'});
    TrimEmptyIff(text);
    assert !IsBlank(t) by { assert !IsWhitespace(t[0]); }
    assert NonBlank([t]) == NonBlank([]) + [t];
  }

  /** Blank lines contribute nothing: adding one changes no result. */
  lemma BlankLinesSkipped(lines: seq<string>, blank: string)
    requires IsBlank(blank)
    ensures NonBlank(lines + [blank]) == NonBlank(lines)
  {
    assert (lines + [blank])[..|lines|] == lines;
  }

  /** `parsePasteData`: the loop over the lines of the trimmed text. */
  method ParsePasteData(pasteText: string) returns (members: seq<Member>)
    ensures members == Parse(pasteText)
    ensures |members| == |NonBlank(Lines(pasteText))|
    ensures forall k :: 0 <= k < |members| ==>
              IsCleanField(members[k].name) && IsCleanField(members[k].prevGroup)
  {
    var lines := Lines(pasteText);
    members := [];
    var i := 0;
    assert lines[..0] == [];
    while i < |lines|
      invariant 0 <= i <= |lines|
      invariant members == ToMembers(NonBlank(lines[..i]))
    {
      var line := lines[i];
      ghost var before := members;
      TrimEmptyIff(line);
      if Trim(line) != [] {
        var parts := Fields(line);
        NonBlankLineHasName(line);
        if |parts| >= 2 {
          assert LineToMember(line) == Member(parts[0], parts[1]);
          members := members + [Member(parts[0], parts[1])];
        } else if |parts| == 1 && parts[0] != [] {
          assert LineToMember(line) == Member(parts[0], "");
          members := members + [Member(parts[0], "")];
        }
      }
      assert members == before + (if IsBlank(line) then [] else [LineToMember(line)]);
      NextLine(lines, i);
      i := i + 1;
    }
    assert lines[..i] == lines;
    forall k | 0 <= k < |members|
      ensures IsCleanField(members[k].name) && IsCleanField(members[k].prevGroup)
    {
      var nb := NonBlank(lines);
      ToMembersAt(nb, k);
      LineToMemberClean(nb[k]);
    }
  }

  lemma SplitOfNoSeparators(s: string, seps: set<char>)
    requires CountIn(s, seps) == 0
    ensures Split(s, seps) == [s]
  {
    NoCountAvoids(s, seps);
    SplitWithoutSeparator(s, seps);
  }

  lemma {:induction false} NoCountAvoids(s: string, seps: set<char>)
    requires CountIn(s, seps) == 0
    ensures Avoids(s, seps)
    decreases |s|
  {
    if s != [] { NoCountAvoids(s[1..], seps); }
  }
}
