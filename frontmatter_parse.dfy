/**
 * `parseFrontmatter` of api/portfolio.ts: the dependency-free reader of a
 * `---`-fenced block of `key: value` lines followed by the post body.
 */
module FrontmatterParse {
  import opened Wrappers
  import opened Text
  import opened FrontmatterData

  datatype Parsed = Parsed(frontmatter: seq<Entry>, content: string)

  /** `s.slice(1, -1)`: the text between the first and the last character. */
  function Inner(s: string): string {
    if |s| >= 2 then s[1..|s| - 1] else ""
  }

  predicate IsQuote(c: char) {
    c == '\'' || c == '"'
  }

  /** `.replace(/^['"]|['"]$/g, '')`: one quote of either kind off each end, independently. */
  function StripQuotes(e: string): string {
    var a := if |e| > 0 && IsQuote(e[0]) then e[1..] else e;
    if |a| > 0 && IsQuote(a[|a| - 1]) then a[..|a| - 1] else a
  }

  /** One array element: trimmed, then one quote stripped from each end. */
  function ParseElem(part: string): Elem {
    EStr(StripQuotes(Trim(part)))
  }

  function ParseElems(parts: seq<string>): (es: seq<Elem>)
    ensures |es| == |parts|
    ensures forall i :: 0 <= i < |parts| ==> es[i] == ParseElem(parts[i])
  {
    seq(|parts|, i requires 0 <= i < |parts| => ParseElem(parts[i]))
  }

  /** The classification of a trimmed value, tried in this order: bracketed list,
      exact `true`/`false`, text in matching quotes, anything else as it is. */
  function ParseValue(value: string): Value {
    if StartsWith(value, "[") && EndsWith(value, "]") then List(ParseElems(Split(Inner(value), ',')))
    else if value == "true" then Bool(true)
    else if value == "false" then Bool(false)
    else if (StartsWith(value, "'") && EndsWith(value, "'")) || (StartsWith(value, "\"") && EndsWith(value, "\"")) then
      Str(Inner(value))
    else Str(value)
  }

  /** One block line: split at its first colon, key and value trimmed; no colon, no entry. */
  function ParseLine(line: string): Option<Entry> {
    if ':' !in line then None
    else
      var colon := IndexOf(line, ':');
      Some(Entry(Trim(line[..colon]), ParseValue(Trim(line[colon + 1..]))))
  }

  /** The block's lines, each put into the object in turn (`fm[key] = value`). */
  function ParseLines(lines: seq<string>): seq<Entry>
    decreases |lines|
  {
    if lines == [] then []
    else
      var fm := ParseLines(lines[..|lines| - 1]);
      match ParseLine(lines[|lines| - 1])
      case None => fm
      case Some(e) => Put(fm, e.key, e.value)
  }

  /** `s` holds the closing fence `"\n---"` at index `k`. */
  predicate CloseAt(s: string, k: int) {
    0 <= k && k + 4 <= |s| && s[k] == '\n' && s[k + 1] == '-' && s[k + 2] == '-' && s[k + 3] == '-'
  }

  /** Where the first `"\n---"` in `s` starts. */
  function FindClose(s: string): (r: Option<nat>)
    ensures r.Some? ==> r.value + 4 <= |s|
    decreases |s|
  {
    if |s| < 4 then None
    else if CloseAt(s, 0) then Some(0)
    else match FindClose(s[1..])
      case None => None
      case Some(j) => Some(j + 1)
  }

  /** `raw.match(/^---\n([\s\S]*?)\n---\n?([\s\S]*)$/)`: the lazy group ends at the first
      `"\n---"` after the opening `"---\n"`; one newline after it is consumed if present. */
  function MatchBlock(raw: string): Option<(string, string)> {
    if !StartsWith(raw, "---\n") then None
    else match FindClose(raw[4..])
      case None => None
      case Some(j) =>
        var after := raw[4 + j + 4..];
        Some((raw[4..4 + j], if after != [] && after[0] == '\n' then after[1..] else after))
  }

  /** What `parseFrontmatter` returns, as a function of its input. */
  function Parse(raw: string): Parsed {
    match MatchBlock(raw)
    case None => Parsed([], raw)
    case Some((block, rest)) => Parsed(ParseLines(Split(block, '\n')), Trim(rest))
  }

  /** `parseFrontmatter`: the loop over the block's lines that fills the object. */
  method ParseFrontmatter(raw: string) returns (p: Parsed)
    ensures p == Parse(raw)
  {
    var m := MatchBlock(raw);
    if m.None? {
      return Parsed([], raw);
    }
    var block, rest := m.value.0, m.value.1;
    var lines := Split(block, '\n');
    var fm: seq<Entry> := [];
    var i := 0;
    while i < |lines|
      invariant 0 <= i <= |lines|
      invariant fm == ParseLines(lines[..i])
    {
      var line := lines[i];
      ParseLinesStep(lines, i);
      if ':' in line {
        var colon := IndexOf(line, ':');
        var key := Trim(line[..colon]);
        var value := Trim(line[colon + 1..]);
        assert ParseLine(line) == Some(Entry(key, ParseValue(value)));
        fm := Put(fm, key, ParseValue(value));
      }
      i := i + 1;
    }
    assert lines[..|lines|] == lines;
    assert Parse(raw) == Parsed(ParseLines(lines), Trim(rest));
    p := Parsed(fm, Trim(rest));
  }

  lemma ParseLinesStep(lines: seq<string>, i: nat)
    requires i < |lines|
    ensures ParseLines(lines[..i + 1]) ==
      match ParseLine(lines[i])
      case None => ParseLines(lines[..i])
      case Some(e) => Put(ParseLines(lines[..i]), e.key, e.value)
  {
    assert lines[..i + 1][..i] == lines[..i];
    assert lines[..i + 1][i] == lines[i];
  }

  // ----- the closing delimiter -----

  lemma {:induction false} FindCloseFound(s: string)
    requires FindClose(s).Some?
    ensures CloseAt(s, FindClose(s).value)
    ensures forall k :: 0 <= k < FindClose(s).value ==> !CloseAt(s, k)
    decreases |s|
  {
    if !CloseAt(s, 0) {
      FindCloseFound(s[1..]);
      var j := FindClose(s[1..]).value;
      assert CloseAt(s[1..], j);
      forall k | 0 < k < j + 1 ensures !CloseAt(s, k) {
        assert !CloseAt(s[1..], k - 1);
      }
    }
  }

  lemma {:induction false} FindCloseMissing(s: string)
    requires FindClose(s).None?
    ensures forall k :: !CloseAt(s, k)
    decreases |s|
  {
    if |s| >= 4 {
      FindCloseMissing(s[1..]);
      forall k | 0 < k ensures !CloseAt(s, k) {
        assert !CloseAt(s[1..], k - 1);
      }
    }
  }

  /** The block matches exactly when the input opens with `"---\n"` and a
      `"\n---"` follows somewhere at or after index 4. */
  lemma MatchBlockIff(raw: string)
    ensures MatchBlock(raw).Some? <==> StartsWith(raw, "---\n") && exists j :: 4 <= j && CloseAt(raw, j)
  {
    if StartsWith(raw, "---\n") {
      var s := raw[4..];
      match FindClose(s)
      case None =>
        FindCloseMissing(s);
        forall j | 4 <= j ensures !CloseAt(raw, j) {
          assert !CloseAt(s, j - 4);
        }
      case Some(k) =>
        FindCloseFound(s);
        assert CloseAt(raw, k + 4);
    }
  }

  /** The block ends at the FIRST fence after the opening line (the group is lazy),
      and what follows the fence loses at most one newline. */
  lemma MatchBlockFirstFence(raw: string, j: nat)
    requires StartsWith(raw, "---\n") && 4 <= j && CloseAt(raw, j)
    requires forall k :: 4 <= k < j ==> !CloseAt(raw, k)
    ensures MatchBlock(raw).Some?
    ensures MatchBlock(raw).value.0 == raw[4..j]
    ensures MatchBlock(raw).value.1 == if j + 4 < |raw| && raw[j + 4] == '\n' then raw[j + 5..] else raw[j + 4..]
  {
    var s := raw[4..];
    assert CloseAt(s, j - 4);
    MatchBlockIff(raw);
    FindCloseFound(s);
    var f := FindClose(s).value;
    if f < j - 4 {
      assert CloseAt(raw, f + 4);
    }
  }

  /** Without a block the frontmatter is empty and the content is the raw input, untrimmed. */
  lemma ParseFallback(raw: string)
    requires !StartsWith(raw, "---\n") || forall j :: 4 <= j ==> !CloseAt(raw, j)
    ensures Parse(raw) == Parsed([], raw)
  {
    MatchBlockIff(raw);
  }

  // ----- lines and values -----

  /** A line splits at its first colon: later colons stay in the value. */
  lemma ParseLineAtFirstColon(key: string, value: string)
    requires ':' !in key
    ensures ParseLine(key + ":" + value) == Some(Entry(Trim(key), ParseValue(Trim(value))))
  {
    var line := key + ":" + value;
    assert line[|key|] == ':';
    assert line[..|key|] == key;
    IndexOfUnique(line, ':', |key|);
    assert line[|key| + 1..] == value;
  }

  /** A line without a colon is skipped. */
  lemma ParseLinesSkipsNoColon(lines: seq<string>, line: string)
    requires ':' !in line
    ensures ParseLines(lines + [line]) == ParseLines(lines)
  {
    assert (lines + [line])[..|lines|] == lines;
  }

  /** A later line with a key already seen overwrites that key's value in place;
      every other key keeps its value and the object keeps its key order. */
  lemma ParseLinesLaterWins(lines: seq<string>, line: string, e: Entry)
    requires ParseLine(line) == Some(e)
    ensures Lookup(ParseLines(lines + [line]), e.key) == Some(e.value)
    ensures forall k :: k != e.key ==> Lookup(ParseLines(lines + [line]), k) == Lookup(ParseLines(lines), k)
    ensures e.key in Keys(ParseLines(lines)) ==> Keys(ParseLines(lines + [line])) == Keys(ParseLines(lines))
  {
    assert (lines + [line])[..|lines|] == lines;
    PutLookup(ParseLines(lines), e.key, e.value);
    PutKeys(ParseLines(lines), e.key, e.value);
  }

  /** The parsed object never holds a key twice. */
  lemma {:induction false} ParseLinesUnique(lines: seq<string>)
    ensures UniqueKeys(ParseLines(lines))
    decreases |lines|
  {
    if lines != [] {
      ParseLinesUnique(lines[..|lines| - 1]);
      match ParseLine(lines[|lines| - 1])
      case None =>
      case Some(e) => PutUnique(ParseLines(lines[..|lines| - 1]), e.key, e.value);
    }
  }

  /** A bracketed value is an array of its comma-separated pieces. */
  lemma ParseValueBracketed(inner: string)
    ensures ParseValue("[" + inner + "]") == List(ParseElems(Split(inner, ',')))
  {
    var v := "[" + inner + "]";
    assert v[..1] == "[" && v[|v| - 1..] == "]";
    assert Inner(v) == inner;
  }

  /** A line that parses to an entry puts that entry into the object. */
  lemma ParseLinesSnoc(lines: seq<string>, line: string, e: Entry)
    requires ParseLine(line) == Some(e)
    ensures ParseLines(lines + [line]) == Put(ParseLines(lines), e.key, e.value)
  {
    assert (lines + [line])[..|lines|] == lines;
  }

  /** Text in matching single or double quotes loses exactly those quotes. */
  lemma ParseValueQuoted(s: string)
    ensures ParseValue("'" + s + "'") == Str(s)
    ensures ParseValue("\"" + s + "\"") == Str(s)
  {
    var a := "'" + s + "'";
    var b := "\"" + s + "\"";
    assert a[1..|a| - 1] == s;
    assert b[1..|b| - 1] == s;
    assert a[..1] == "'" && a[|a| - 1..] == "'";
    assert b[..1] == "\"" && b[|b| - 1..] == "\"";
  }

  lemma ParseValueBooleans()
    ensures ParseValue("true") == Bool(true)
    ensures ParseValue("false") == Bool(false)
  {
    assert "true"[..1] == "t";
    assert "false"[..1] == "f";
  }

  /** A value that is neither bracketed, nor `true`/`false`, nor in matching quotes
      stays raw: `[a`, `'a` and `"a'` among them. */
  lemma ParseValueRaw(value: string)
    requires !(StartsWith(value, "[") && EndsWith(value, "]"))
    requires value != "true" && value != "false"
    requires !(StartsWith(value, "'") && EndsWith(value, "'"))
    requires !(StartsWith(value, "\"") && EndsWith(value, "\""))
    ensures ParseValue(value) == Str(value)
  {
  }

  /** Values with an opening bracket or quote and no matching end are kept as they are. */
  lemma ParseValueUnmatched()
    ensures ParseValue("[a") == Str("[a")
    ensures ParseValue("'a") == Str("'a")
    ensures ParseValue("\"a'") == Str("\"a'")
  {
    assert "[a"[1..] == "a";
    assert "'a"[1..] == "a";
    assert "\"a'"[2..] == "'";
    ParseValueRaw("[a");
    ParseValueRaw("'a");
    ParseValueRaw("\"a'");
  }

  /** `[]` is not an empty array: splitting the empty text gives one empty element. */
  lemma EmptyBracketsGiveOneEmptyElement()
    ensures ParseValue("[]") == List([EStr("")])
  {
    assert Inner("[]") == "";
    assert Split("", ',') == [""];
    assert Trim("") == "";
    assert StripQuotes("") == "";
  }
}
