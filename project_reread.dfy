/**
 * What the readers make of the file the writers write. Both writers put the keys
 * unquoted (`  title: '...'`), the JavaScript form, and both readers only rewrite
 * quotes and trailing commas before `JSON.parse`, which needs every key quoted:
 * so a written file, once it holds a project, is never read back.
 */
module ProjectReread {
  import opened Wrappers
  import opened Text
  import opened ProjectList
  import opened ProjectCodec
  import opened ProjectRead

  /** The first record's key, as the writers write it and the readers leave it. */
  const KeyName := "[" + "\n" + "{" + "\n" + "  title"
  /** What both rewrites hand to `JSON.parse` first: an object whose first key is
      bare, which JSON does not allow. */
  const BareKey := KeyName + ":"
  /** The array literal of a written file, up to the first value's quote. */
  const ArrayHead := "[" + "\n" + RecordOpen

  lemma ArrayHeadPieces()
    ensures ArrayHead == KeyName + ": '"
    ensures WrittenHead == HeaderStart + ArrayHead
    ensures |HeaderStart| == 21 && |ArrayHead| == 14
  {
    assert TitleOpen == "  title" + ": '";
  }

  /** A written file as the local strip sees it: three lines that are not comments. */
  lemma HeadLines(rest: string)
    ensures WrittenHead + rest == (HeaderStart + "[") + "\n" + (("{" + "\n") + (TitleOpen + rest))
  {
    ConcatAssoc(FilePrefix, RecordOpen, rest);
    ConcatAssoc("{" + "\n", TitleOpen, rest);
  }

  lemma HeadLineFacts()
    ensures NoLineTerm(HeaderStart + "[") && SpaceRun(HeaderStart + "[") == 0
    ensures NoLineTerm("{") && SpaceRun("{") == 0
    ensures NoLineTerm(TitleOpen) && SpaceRun(TitleOpen) == 2 && TitleOpen[2] != '/'
  {
    SpaceRunIs(TitleOpen, 2);
  }

  /** The local strip keeps the head of a written file. */
  lemma LocalStripHead(rest: string)
    ensures LocalStrip(WrittenHead + rest, true) == WrittenHead + LocalStrip(rest, false)
  {
    HeadLines(rest);
    HeadLineFacts();
    LocalStripLineThenNext(HeaderStart + "[", ("{" + "\n") + (TitleOpen + rest));
    LocalStripLineThenNext("{", TitleOpen + rest);
    LocalStripKeepsStart(TitleOpen, rest);
    HeadLines(LocalStrip(rest, false));
  }

  /** The API strip keeps the head of a written file: it holds no `/`. */
  lemma ApiStripHead(rest: string)
    ensures ApiStrip(WrittenHead + rest) == WrittenHead + ApiStrip(rest)
  {
    assert '/' !in WrittenHead;
    ApiStripNoSlash(WrittenHead, rest);
  }

  /** The header line's words, one piece at a time. */
  lemma HeaderWords(y: string)
    ensures HeaderStart + y == "const" + (" " + ("projectsData" + (" " + ("=" + (" " + y)))))
  {
    ConcatAssoc("=", " ", y);
    ConcatAssoc(" ", "=" + " ", y);
    ConcatAssoc("projectsData", " " + ("=" + " "), y);
    ConcatAssoc(" ", "projectsData" + (" " + ("=" + " ")), y);
    ConcatAssoc("const", " " + ("projectsData" + (" " + ("=" + " "))), y);
  }

  /** The header is found where the header line starts, its `[` at index 21. */
  lemma HeaderAt(z: string)
    ensures HeaderBracket(HeaderStart + ("[" + z), 0) == Some(21)
  {
    var r3 := " " + ("[" + z);
    var r2 := " " + ("=" + r3);
    var r1 := " " + ("projectsData" + r2);
    var t := HeaderStart + ("[" + z);
    HeaderWords("[" + z);
    assert t == "const" + r1;
    assert t[0..5] == "const";
    assert t[5..] == r1;
    assert r1[1..] == "projectsData" + r2;
    SpaceRunIs(r1, 1);
    assert t[6..] == "projectsData" + r2;
    assert t[6..18] == t[6..][..12];
    assert t[6..18] == "projectsData";
    assert t[18..] == r2;
    SpaceRunIs(r2, 1);
    assert t[19] == '=';
    assert r2[1..] == "=" + r3 && ("=" + r3)[1..] == r3;
    assert t[20..] == t[18..][1..][1..];
    SpaceRunIs(r3, 1);
    assert t[21] == '[';
  }

  /** The header of a written file is found at its start. */
  lemma HeaderFound(rest: string)
    ensures FindHeader(WrittenHead + rest, 0) == Some(0)
    ensures HeaderBracket(WrittenHead + rest, 0) == Some(21)
  {
    ArrayHeadPieces();
    var x := "\n" + RecordOpen;
    ConcatAssoc(HeaderStart, ArrayHead, rest);
    ConcatAssoc("[", "\n", RecordOpen);
    ConcatAssoc("[", x, rest);
    HeaderAt(x + rest);
  }

  /** After the `[` of a written file's header, no `]` comes before index 35. */
  lemma NoCloseInHead(rest: string)
    ensures forall k :: 22 <= k < 35 ==> (WrittenHead + rest)[k] != ']'
  {
    ArrayHeadPieces();
    assert ']' !in ArrayHead;
    var t := WrittenHead + rest;
    forall k | 22 <= k < 35 ensures t[k] != ']' {
      assert t[k] == ArrayHead[k - 21];
      assert ArrayHead[k - 21] in ArrayHead;
    }
  }

  /** Where the array literal of a text that starts like a written file lies: from the
      header's `[` at index 21 to a `];` at index 35 or later. */
  lemma ExtractSpan(rest: string)
    requires Extract(WrittenHead + rest).Some?
    ensures FindEnd(WrittenHead + rest, 22).Some?
    ensures var j := FindEnd(WrittenHead + rest, 22).value;
      35 <= j && Extract(WrittenHead + rest).value == (WrittenHead + rest)[21..j + 1]
  {
    var t := WrittenHead + rest;
    HeaderFound(rest);
    NoCloseInHead(rest);
    var j := FindEnd(t, 22).value;
    assert t[j] == ']';
    assert ArraySpan(t) == Some((21, j));
  }

  /** The array literal found in a text that starts like a written file (when a
      closing `];` is found at all) starts with the first record's head. */
  lemma ExtractHead(rest: string)
    requires Extract(WrittenHead + rest).Some?
    ensures StartsWith(Extract(WrittenHead + rest).value, ArrayHead)
  {
    var t := WrittenHead + rest;
    ExtractSpan(rest);
    var j := FindEnd(t, 22).value;
    ArrayHeadPieces();
    ConcatAssoc(HeaderStart, ArrayHead, rest);
    SliceStartsWith(HeaderStart, ArrayHead, rest, j + 1);
  }

  /** A slice that starts after `h` and reaches past `a` starts with `a`. */
  lemma SliceStartsWith(h: string, a: string, rest: string, e: nat)
    requires |h| + |a| <= e <= |h| + |a| + |rest|
    ensures StartsWith((h + (a + rest))[|h|..e], a)
  {
    var t := h + (a + rest);
    assert t[|h|..] == a + rest;
    assert t[|h|..e][..|a|] == t[|h|..][..|a|];
  }

  /** The local rewrite turns the head's quote into `"` and leaves the key bare. */
  lemma LocalJsonHead(a: string)
    requires StartsWith(a, ArrayHead)
    ensures StartsWith(LocalJson(a), BareKey)
  {
    ArrayHeadPieces();
    var y := a[12..];
    assert a[..12] == BareKey;
    assert a == BareKey + y;
    assert '\'' !in BareKey && ',' !in BareKey;
    AllDoubleQuotesPrefix(BareKey, y);
    var d := AllDoubleQuotes(y);
    DropCommaPrefix(BareKey, d, ']');
    DropCommaPrefix(BareKey, DropCommaBefore(d, ']'), '}');
    StartsWithPart(BareKey, DropCommaBefore(DropCommaBefore(d, ']'), '}'));
  }

  /** The API rewrite leaves the key bare too, whatever it makes of the quoted value. */
  lemma ApiJsonHead(a: string)
    requires StartsWith(a, ArrayHead)
    ensures StartsWith(ApiJson(a), BareKey)
  {
    ArrayHeadPieces();
    var y := a[11..];
    assert a[..11] == KeyName;
    assert a == KeyName + y;
    assert y[0] == ':';
    assert ':' !in KeyName && ',' !in KeyName && '\t' !in KeyName && '\r' !in KeyName;
    SingleToDoublePrefix(KeyName, y);
    SingleToDoubleColon(y);
    var q := SingleToDouble(y);
    assert q == ":" + q[1..];
    ConcatAssoc(KeyName, ":", q[1..]);
    assert ',' !in BareKey && '\t' !in BareKey && '\r' !in BareKey;
    DropCommaPrefix(BareKey, q[1..], ']');
    DropCommaPrefix(BareKey, DropCommaBefore(q[1..], ']'), '}');
    var z := DropCommaBefore(DropCommaBefore(q[1..], ']'), '}');
    TabsToSpacesPrefix(BareKey, z);
    StartsWithPart(BareKey, TabsToSpaces(z));
  }

  /** A text that starts like a written file is never accepted by the local reader
      when `JSON.parse` rejects a bare key: no literal is found, or the rewritten
      literal is rejected. */
  lemma LocalRejectsWritten(parse: string -> Option<seq<Project>>, t: string)
    requires StartsWith(t, WrittenHead)
    requires forall j :: StartsWith(j, BareKey) ==> parse(j).None?
    ensures ReadLocal(parse, t).Err?
  {
    var rest := t[|WrittenHead|..];
    assert t == WrittenHead + rest;
    LocalStripHead(rest);
    var restS := LocalStrip(rest, false);
    if Extract(WrittenHead + restS).Some? {
      ExtractHead(restS);
      LocalJsonHead(Extract(WrittenHead + restS).value);
    }
  }

  /** The same for the API reader. */
  lemma ApiRejectsWritten(parse: string -> Option<seq<Project>>, t: string)
    requires StartsWith(t, WrittenHead)
    requires forall j :: StartsWith(j, BareKey) ==> parse(j).None?
    ensures ReadApi(parse, t).Err?
  {
    var rest := t[|WrittenHead|..];
    assert t == WrittenHead + rest;
    ApiStripHead(rest);
    var restS := ApiStrip(rest);
    if Extract(WrittenHead + restS).Some? {
      ExtractHead(restS);
      ApiJsonHead(Extract(WrittenHead + restS).value);
    }
  }

  /** Whatever list a writer writes, once it holds a project, neither reader reads the
      file back. */
  lemma WrittenNeverReadsBack(parse: string -> Option<seq<Project>>, w: Writer, ps: seq<Project>)
    requires ps != [] && ProjectsText(w, ps).Ok?
    requires forall j :: StartsWith(j, BareKey) ==> parse(j).None?
    ensures ReadLocal(parse, ProjectsText(w, ps).value).Err?
    ensures ReadApi(parse, ProjectsText(w, ps).value).Err?
  {
    WrittenStartsWithHead(w, ps);
    LocalRejectsWritten(parse, ProjectsText(w, ps).value);
    ApiRejectsWritten(parse, ProjectsText(w, ps).value);
  }
}
