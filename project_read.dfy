/**
 * The two readers of the projects file: each strips comments, extracts the
 * array literal assigned to `projectsData`, rewrites it towards JSON and hands
 * it to `JSON.parse`, which the model takes as a parameter. The local reader is
 * `parseProjectsFile` in src/project-tools.ts; the API reader is the text part
 * of `listProjects` in api/portfolio.ts.
 */
module ProjectRead {
  import opened Wrappers
  import opened Text
  import opened ProjectList

  /** The line terminators of JavaScript regular expressions (what `.` does not match
      and after which `^` matches in multiline mode). */
  predicate IsLineTerm(c: char) {
    c == '\n' || c == '\r' || c == '\U{2028}' || c == '\U{2029}'
  }

  predicate NoLineTerm(s: string) {
    forall i :: 0 <= i < |s| ==> !IsLineTerm(s[i])
  }

  /** The length of the longest whitespace prefix: what a greedy `\s*` takes. */
  function SpaceRun(s: string): (n: nat)
    ensures n <= |s|
    ensures forall i :: 0 <= i < n ==> IsSpace(s[i])
    ensures n < |s| ==> !IsSpace(s[n])
  {
    if s != [] && IsSpace(s[0]) then 1 + SpaceRun(s[1..]) else 0
  }

  /** The length of the rest of the line: what a greedy `.*` takes. */
  function LineRun(s: string): (n: nat)
    ensures n <= |s|
    ensures forall i :: 0 <= i < n ==> !IsLineTerm(s[i])
    ensures n < |s| ==> IsLineTerm(s[n])
  {
    if s != [] && !IsLineTerm(s[0]) then 1 + LineRun(s[1..]) else 0
  }

  /** `//` at index `i`. */
  predicate SlashesAt(s: string, i: int) {
    0 <= i && i + 1 < |s| && s[i] == '/' && s[i + 1] == '/'
  }

  predicate NoSlashes(s: string) {
    forall i :: 0 <= i < |s| ==> !SlashesAt(s, i)
  }

  // ----- comments -----

  /** `\s*\/\/` matches at the front of `s`. A shorter whitespace run is followed by
      whitespace, not `/`, so only the longest one can succeed. */
  predicate CommentLineAt(s: string) {
    SlashesAt(s, SpaceRun(s))
  }

  /** Where the match of `\s*\/\/.*` at the front of `s` ends. */
  function CommentLineEnd(s: string): (n: nat)
    requires CommentLineAt(s)
    ensures 2 <= n <= |s|
  {
    var w := SpaceRun(s);
    w + 2 + LineRun(s[w + 2..])
  }

  /** `content.replace(/^\s*\/\/.*$/gm, '')`: at the start of a line (`atStart`), a match
      removes the whitespace before `//` (which may run over empty lines) and the
      comment up to the end of its line. */
  function LocalStrip(s: string, atStart: bool): string
    decreases |s|
  {
    if s == [] then []
    else if atStart && CommentLineAt(s) then LocalStrip(s[CommentLineEnd(s)..], false)
    else [s[0]] + LocalStrip(s[1..], IsLineTerm(s[0]))
  }

  /** `raw.replace(/\/\/.*$/gm, '')`: every `//` to the end of its line, wherever it is. */
  function ApiStrip(s: string): string
    decreases |s|
  {
    if s == [] then []
    else if SlashesAt(s, 0) then ApiStrip(s[2 + LineRun(s[2..])..])
    else [s[0]] + ApiStrip(s[1..])
  }

  // ----- the array literal -----

  /** `const\s+projectsData\s*=\s*\[` at index `c`: the index of its `[`. */
  function HeaderBracket(s: string, c: nat): (r: Option<nat>)
    ensures r.Some? ==> c < r.value < |s| && s[r.value] == '['
  {
    var a := c + 5;
    if a > |s| || s[c..a] != "const" then None
    else
      var w := SpaceRun(s[a..]);
      var b := a + w;
      if w == 0 || b + 12 > |s| || s[b..b + 12] != "projectsData" then None
      else
        var d := b + 12 + SpaceRun(s[b + 12..]);
        if d >= |s| || s[d] != '=' then None
        else
          var e := d + 1 + SpaceRun(s[d + 1..]);
          if e >= |s| || s[e] != '[' then None else Some(e)
  }

  /** The first header at or after `c`. */
  function FindHeader(s: string, c: nat): (r: Option<nat>)
    ensures r.Some? ==> c <= r.value && HeaderBracket(s, r.value).Some?
    decreases |s| - c
  {
    if c >= |s| then None
    else if HeaderBracket(s, c).Some? then Some(c)
    else FindHeader(s, c + 1)
  }

  /** The header found is the first one at or after `c`. */
  lemma {:induction false} FindHeaderFirst(s: string, c: nat)
    requires FindHeader(s, c).Some?
    ensures forall k :: c <= k < FindHeader(s, c).value ==> HeaderBracket(s, k).None?
    decreases |s| - c
  {
    forall k | c <= k < FindHeader(s, c).value ensures HeaderBracket(s, k).None? {
      NoHeaderBefore(s, c, k);
    }
  }

  lemma {:induction false} NoHeaderBefore(s: string, c: nat, k: nat)
    requires FindHeader(s, c).Some? && c <= k < FindHeader(s, c).value
    ensures HeaderBracket(s, k).None?
    decreases k - c
  {
    if c < k {
      assert HeaderBracket(s, c).None?;
      NoHeaderBefore(s, c + 1, k);
    }
  }

  /** When no header is found at or after `c`, there is none there. */
  lemma {:induction false} FindHeaderNone(s: string, c: nat)
    requires FindHeader(s, c).None?
    ensures forall k :: c <= k ==> HeaderBracket(s, k).None?
    decreases |s| - c
  {
    if c >= |s| {
      forall k | c <= k ensures HeaderBracket(s, k).None? {
        HeaderBracketBeyond(s, k);
      }
    } else {
      FindHeaderNone(s, c + 1);
    }
  }

  lemma HeaderBracketBeyond(s: string, k: nat)
    requires |s| <= k
    ensures HeaderBracket(s, k).None?
  {
  }

  /** `];` at index `j`. */
  predicate EndAt(s: string, j: int) {
    0 <= j && j + 1 < |s| && s[j] == ']' && s[j + 1] == ';'
  }

  /** The first `];` at or after `k`: where the lazy `[\s\S]*?\]` followed by `;` stops. */
  function FindEnd(s: string, k: nat): (r: Option<nat>)
    ensures r.Some? ==> k <= r.value && EndAt(s, r.value)
    ensures r.Some? ==> forall j :: k <= j < r.value ==> !EndAt(s, j)
    ensures r.None? ==> forall j :: k <= j ==> !EndAt(s, j)
    decreases |s| - k
  {
    if k + 1 >= |s| then None
    else if EndAt(s, k) then Some(k)
    else FindEnd(s, k + 1)
  }

  /** Where the captured group of
      `/(?:export\s+)?const\s+projectsData\s*=\s*(\[[\s\S]*?\]);/` lies: from the `[`
      of the first header to the first `];` after it. The optional `export` prefix
      moves where the match starts but never the captured group, so the first
      header decides; when no `];` follows the first header, none follows a later
      one either, and the match fails. */
  function ArraySpan(s: string): (r: Option<(nat, nat)>)
    ensures r.Some? ==> r.value.0 < r.value.1 && EndAt(s, r.value.1) && s[r.value.0] == '['
    ensures r.Some? ==> forall k :: r.value.0 + 1 <= k < r.value.1 ==> !EndAt(s, k)
  {
    match FindHeader(s, 0)
    case None => None
    case Some(c) =>
      var b := HeaderBracket(s, c).value;
      match FindEnd(s, b + 1)
      case None => None
      case Some(j) => Some((b, j))
  }

  /** `match[1]`. */
  function Extract(s: string): Option<string> {
    if ArraySpan(s).Some? then Some(s[ArraySpan(s).value.0..ArraySpan(s).value.1 + 1]) else None
  }

  // ----- towards JSON -----

  /** `.replace(/'/g, '"')`. */
  function AllDoubleQuotes(s: string): (r: string)
    ensures |r| == |s| && '\'' !in r
    ensures forall i :: 0 <= i < |s| ==> r[i] == if s[i] == '\'' then '"' else s[i]
  {
    seq(|s|, i requires 0 <= i < |s| => if s[i] == '\'' then '"' else s[i])
  }

  /** The quote rewrite passes a text without `'` through, before whatever follows. */
  lemma AllDoubleQuotesPrefix(p: string, q: string)
    requires '\'' !in p
    ensures AllDoubleQuotes(p + q) == p + AllDoubleQuotes(q)
  {
    var r := AllDoubleQuotes(p + q);
    var e := p + AllDoubleQuotes(q);
    forall k | 0 <= k < |r| ensures r[k] == e[k] {
      if k < |p| {
        assert (p + q)[k] == p[k] && p[k] in p;
      } else {
        assert (p + q)[k] == q[k - |p|];
      }
    }
    assert r == e;
  }

  /** `\s*` then `close` at the front of `s`. */
  predicate ClosesNext(s: string, close: char) {
    SpaceRun(s) < |s| && s[SpaceRun(s)] == close
  }

  /** `.replace(/,\s*\]/g, ']')` (with `close` = `]`) and `.replace(/,\s*}/g, '}')`. */
  function DropCommaBefore(s: string, close: char): string
    decreases |s|
  {
    if s == [] then []
    else if s[0] == ',' && ClosesNext(s[1..], close) then
      [close] + DropCommaBefore(s[SpaceRun(s[1..]) + 2..], close)
    else [s[0]] + DropCommaBefore(s[1..], close)
  }

  /** The first `'` at or after `k`. */
  function NextQuote(s: string, k: nat): (r: Option<nat>)
    ensures r.Some? ==> k <= r.value < |s| && s[r.value] == '\''
    ensures r.Some? ==> forall j :: k <= j < r.value ==> s[j] != '\''
    decreases |s| - k
  {
    if k >= |s| then None
    else if s[k] == '\'' then Some(k)
    else NextQuote(s, k + 1)
  }

  /** Where `:\s*'([^']*)'` matches at the front of `s`: the run between the quotes
      is `s[o..e]`. */
  function QuotedAt(s: string): (r: Option<(nat, nat)>)
    ensures r.Some? ==> 2 <= r.value.0 <= r.value.1 < |s|
  {
    if s == [] || s[0] != ':' then None
    else
      var o := 2 + SpaceRun(s[1..]);
      if o - 1 < |s| && s[o - 1] == '\'' then
        if NextQuote(s, o).Some? then Some((o, NextQuote(s, o).value)) else None
      else None
  }

  /** The replacement `: "$1"`. */
  function Requote(v: string): string {
    ": \"" + v + "\""
  }

  /** `.replace(/:\s*'([^']*)'/g, ': "$1"')`: a colon, whitespace, then a single-quoted run
      up to the next `'` becomes `: "<run>"`. */
  function SingleToDouble(s: string): string
    decreases |s|
  {
    if s == [] then []
    else if QuotedAt(s).Some? then
      var o, e := QuotedAt(s).value.0, QuotedAt(s).value.1;
      Requote(s[o..e]) + SingleToDouble(s[e + 1..])
    else [s[0]] + SingleToDouble(s[1..])
  }

  /** `.replace(/[\t\r]/g, ' ')`. */
  function TabsToSpaces(s: string): (r: string)
    ensures |r| == |s| && '\t' !in r && '\r' !in r
    ensures forall i :: 0 <= i < |s| && s[i] != '\t' && s[i] != '\r' ==> r[i] == s[i]
  {
    seq(|s|, i requires 0 <= i < |s| => if s[i] == '\t' || s[i] == '\r' then ' ' else s[i])
  }

  /** The tab rewrite passes a text without tabs and carriage returns through, before
      whatever follows. */
  lemma TabsToSpacesPrefix(p: string, q: string)
    requires '\t' !in p && '\r' !in p
    ensures TabsToSpaces(p + q) == p + TabsToSpaces(q)
  {
    var r := TabsToSpaces(p + q);
    var e := p + TabsToSpaces(q);
    forall k | 0 <= k < |r| ensures r[k] == e[k] {
      if k < |p| {
        assert (p + q)[k] == p[k] && p[k] in p;
      } else {
        assert (p + q)[k] == q[k - |p|];
      }
    }
    assert r == e;
  }

  function LocalJson(a: string): string {
    DropCommaBefore(DropCommaBefore(AllDoubleQuotes(a), ']'), '}')
  }

  function ApiJson(a: string): string {
    TabsToSpaces(DropCommaBefore(DropCommaBefore(SingleToDouble(a), ']'), '}'))
  }

  // ----- the readers -----

  /** `parseProjectsFile`: `InvalidFormat` exactly when no array literal is found,
      `ParseFailed` exactly when one is found and `JSON.parse` rejects the rewritten
      text, and otherwise what `JSON.parse` returns. */
  function ReadLocal(parse: string -> Option<seq<Project>>, content: string): (r: Result<seq<Project>, ProjectError>)
    ensures r == Err(InvalidFormat) <==> Extract(LocalStrip(content, true)).None?
    ensures r.Ok? ==> Extract(LocalStrip(content, true)).Some? && parse(LocalJson(Extract(LocalStrip(content, true)).value)) == Some(r.value)
    ensures Extract(LocalStrip(content, true)).Some? ==>
      (r == Err(ParseFailed) <==> parse(LocalJson(Extract(LocalStrip(content, true)).value)).None?)
    ensures r.Ok? || r == Err(InvalidFormat) || r == Err(ParseFailed)
  {
    match Extract(LocalStrip(content, true))
    case None => Err(InvalidFormat)
    case Some(a) =>
      match parse(LocalJson(a))
      case None => Err(ParseFailed)
      case Some(ps) => Ok(ps)
  }

  /** The text part of the API's `listProjects`. */
  function ReadApi(parse: string -> Option<seq<Project>>, raw: string): (r: Result<seq<Project>, ProjectError>)
    ensures r == Err(InvalidFormat) <==> Extract(ApiStrip(raw)).None?
    ensures r.Ok? ==> Extract(ApiStrip(raw)).Some? && parse(ApiJson(Extract(ApiStrip(raw)).value)) == Some(r.value)
    ensures Extract(ApiStrip(raw)).Some? ==> (r == Err(ParseFailed) <==> parse(ApiJson(Extract(ApiStrip(raw)).value)).None?)
    ensures r.Ok? || r == Err(InvalidFormat) || r == Err(ParseFailed)
  {
    match Extract(ApiStrip(raw))
    case None => Err(InvalidFormat)
    case Some(a) =>
      match parse(ApiJson(a))
      case None => Err(ParseFailed)
      case Some(ps) => Ok(ps)
  }

  // ----- comment stripping -----

  /** Away from a line start, a text without line terminators passes the local strip unchanged. */
  lemma {:induction false} LocalStripInsideLine(s: string)
    requires NoLineTerm(s)
    ensures LocalStrip(s, false) == s
    decreases |s|
  {
    if s != [] {
      LocalStripInsideLine(s[1..]);
    }
  }

  /** The local strip keeps a line that is not a comment line, `//` in a URL included. */
  lemma LocalStripKeepsLine(line: string)
    requires NoLineTerm(line)
    requires !CommentLineAt(line)
    ensures LocalStrip(line, true) == line
  {
    if line != [] {
      LocalStripInsideLine(line[1..]);
    }
  }

  /** A line that starts with neither a blank nor `/` is kept by the local strip
      whole, `//` later in it (a URL) included. */
  lemma LocalStripKeepsSlashes(a: string, b: string)
    requires a != [] && !IsSpace(a[0]) && a[0] != '/'
    requires NoLineTerm(a) && NoLineTerm(b)
    ensures LocalStrip(a + "//" + b, true) == a + "//" + b
  {
    var line := a + "//" + b;
    assert line[0] == a[0];
    assert NoLineTerm(line) by {
      forall i | 0 <= i < |line| ensures !IsLineTerm(line[i]) {
        if i >= |a| + 2 {
          assert line[i] == b[i - |a| - 2];
        } else if i < |a| {
          assert line[i] == a[i];
        }
      }
    }
    LocalStripKeepsLine(line);
  }

  lemma {:induction false} SpaceRunAppend(a: string, b: string)
    requires SpaceRun(a) < |a|
    ensures SpaceRun(a + b) == SpaceRun(a)
    decreases |a|
  {
    if IsSpace(a[0]) {
      assert (a + b)[1..] == a[1..] + b;
      SpaceRunAppend(a[1..], b);
    }
  }

  lemma {:induction false} LineRunAppend(a: string, b: string)
    requires NoLineTerm(a)
    requires b != [] && IsLineTerm(b[0])
    ensures LineRun(a + b) == |a|
    decreases |a|
  {
    if a != [] {
      assert (a + b)[1..] == a[1..] + b;
      LineRunAppend(a[1..], b);
    }
  }

  /** Away from a line start, a text without line terminators passes the local strip
      unchanged, before whatever follows. */
  lemma {:induction false} LocalStripPlain(a: string, b: string)
    requires NoLineTerm(a)
    ensures LocalStrip(a + b, false) == a + LocalStrip(b, false)
    decreases |a|
  {
    if a == [] {
      assert a + b == b;
    } else {
      assert (a + b)[0] == a[0];
      assert (a + b)[1..] == a[1..] + b;
      LocalStripPlain(a[1..], b);
      ConcatAssoc([a[0]], a[1..], LocalStrip(b, false));
      assert [a[0]] + a[1..] == a;
    }
  }

  /** A line whose first non-blank is not `/` is not a comment line, and the local strip
      keeps it, up to its line terminator. */
  lemma LocalStripKeepsStart(line: string, rest: string)
    requires line != [] && NoLineTerm(line)
    requires SpaceRun(line) < |line| && line[SpaceRun(line)] != '/'
    ensures LocalStrip(line + rest, true) == line + LocalStrip(rest, false)
  {
    var s := line + rest;
    SpaceRunAppend(line, rest);
    assert s[SpaceRun(line)] == line[SpaceRun(line)];
    assert !CommentLineAt(s);
    assert s[0] == line[0];
    assert s[1..] == line[1..] + rest;
    LocalStripPlain(line[1..], rest);
    ConcatAssoc([line[0]], line[1..], LocalStrip(rest, false));
    assert [line[0]] + line[1..] == line;
  }

  /** The same line with its newline: the strip is back at a line start after it. */
  lemma LocalStripLineThenNext(line: string, rest: string)
    requires line != [] && NoLineTerm(line)
    requires SpaceRun(line) < |line| && line[SpaceRun(line)] != '/'
    ensures LocalStrip(line + "\n" + rest, true) == line + "\n" + LocalStrip(rest, true)
  {
    LocalStripKeepsStart(line, "\n" + rest);
    var t := "\n" + rest;
    assert t[0] == '\n' && t[1..] == rest;
    assert LocalStrip(t, false) == "\n" + LocalStrip(rest, true);
    ConcatAssoc(line, "\n", rest);
    ConcatAssoc(line, "\n", LocalStrip(rest, true));
  }

  /** A whole comment line at a line start goes, up to (not including) its line terminator. */
  lemma LocalStripDropsCommentLine(line: string, rest: string)
    requires NoLineTerm(line) && CommentLineAt(line)
    requires rest != [] && IsLineTerm(rest[0])
    ensures LocalStrip(line + rest, true) == LocalStrip(rest, false)
  {
    var s := line + rest;
    var w := SpaceRun(line);
    SpaceRunAppend(line, rest);
    assert s[w + 2..] == line[w + 2..] + rest;
    LineRunAppend(line[w + 2..], rest);
    assert CommentLineEnd(s) == |line|;
    assert s[|line|..] == rest;
  }

  /** The API strip passes a text without `/` through unchanged, before whatever follows. */
  lemma {:induction false} ApiStripNoSlash(a: string, b: string)
    requires '/' !in a
    ensures ApiStrip(a + b) == a + ApiStrip(b)
    decreases |a|
  {
    if a != [] {
      assert a[0] in a;
      assert (a + b)[0] == a[0];
      assert (a + b)[1..] == a[1..] + b;
      assert '/' !in a[1..] by {
        forall i | 0 <= i < |a| - 1 ensures a[1..][i] != '/' {
          assert a[1..][i] == a[i + 1];
        }
      }
      assert !SlashesAt(a + b, 0);
      assert ApiStrip(a + b) == [a[0]] + ApiStrip(a[1..] + b);
      ApiStripNoSlash(a[1..], b);
      assert a == [a[0]] + a[1..];
      assert [a[0]] + (a[1..] + ApiStrip(b)) == a + ApiStrip(b);
    } else {
      assert a + b == b;
    }
  }

  /** The API strip cuts a line at its first `//`, so a URL loses everything after `https:`. */
  lemma ApiStripCutsAtSlashes(a: string, b: string)
    requires '/' !in a
    requires NoLineTerm(b)
    ensures ApiStrip(a + "//" + b) == a
  {
    ApiStripNoSlash(a, "//" + b);
    var t := "//" + b;
    assert SlashesAt(t, 0);
    assert t[2..] == b;
    LineRunWhole(b);
    assert a + "//" + b == a + t;
  }

  lemma {:induction false} LineRunWhole(b: string)
    requires NoLineTerm(b)
    ensures LineRun(b) == |b|
    decreases |b|
  {
    if b != [] {
      LineRunWhole(b[1..]);
    }
  }

  /** The URL line the local strip keeps loses its address under the API strip. */
  lemma ApiStripCutsUrl()
    ensures ApiStrip("  href: 'https://example.com',") == "  href: 'https:"
  {
    var a := "  href: 'https:";
    var b := "example.com',";
    assert "  href: 'https://example.com'," == a + "//" + b;
    assert NoLineTerm(b);
    ApiStripCutsAtSlashes(a, b);
  }

  /** The API strip leaves no `//` behind, and what it keeps first is the input's
      first character or a line terminator. */
  lemma {:induction false} ApiStripNoComment(s: string)
    ensures NoSlashes(ApiStrip(s))
    ensures ApiStrip(s) != [] ==> ApiStrip(s)[0] == s[0] || IsLineTerm(ApiStrip(s)[0])
    decreases |s|
  {
    if s != [] {
      if SlashesAt(s, 0) {
        var k := 2 + LineRun(s[2..]);
        ApiStripNoComment(s[k..]);
        if ApiStrip(s[k..]) != [] {
          assert IsLineTerm(s[k]);
        }
      } else {
        var r := ApiStrip(s[1..]);
        ApiStripNoComment(s[1..]);
        var full := [s[0]] + r;
        assert r != [] ==> r[0] == s[1] || IsLineTerm(r[0]);
        forall i | 0 <= i < |full| ensures !SlashesAt(full, i) {
          if i > 0 {
            assert !SlashesAt(r, i - 1);
          }
        }
      }
    }
  }

  // ----- the array literal -----

  /** Without a header there is no array literal, and the reader reports a bad format. */
  lemma NoHeaderInvalid(parse: string -> Option<seq<Project>>, content: string)
    requires forall c :: HeaderBracket(LocalStrip(content, true), c).None?
    ensures ReadLocal(parse, content) == Err(InvalidFormat)
  {
  }

  /** The extracted literal runs from `[` to the first `];` after it, and stops there:
      a `];` inside a value cuts the array short. */
  lemma ExtractFirstEnd(s: string)
    requires Extract(s).Some?
    ensures var a := Extract(s).value;
      |a| >= 2 && a[0] == '[' && a[|a| - 1] == ']' &&
      forall k :: 0 <= k < |a| - 1 ==> !EndAt(a, k)
  {
    var b, j := ArraySpan(s).value.0, ArraySpan(s).value.1;
    var a := s[b..j + 1];
    assert Extract(s).value == a;
    NoEndInSlice(s, b, j);
    assert a[0] == s[b] && a[|a| - 1] == s[j];
  }

  lemma NoEndInSlice(s: string, b: nat, j: nat)
    requires b < j && EndAt(s, j) && s[b] == '['
    requires forall k :: b + 1 <= k < j ==> !EndAt(s, k)
    ensures var a := s[b..j + 1];
      forall k :: 0 <= k < |a| - 1 ==> !EndAt(a, k)
  {
    var a := s[b..j + 1];
    forall k | 0 <= k < |a| - 1 ensures !EndAt(a, k) {
      if 0 < k {
        assert !EndAt(s, b + k);
        assert a[k] == s[b + k] && a[k + 1] == s[b + k + 1];
      }
    }
  }

  // ----- towards JSON -----

  /** A text without commas passes the trailing-comma rewrite unchanged. */
  lemma {:induction false} DropCommaPlain(s: string, close: char)
    requires ',' !in s
    ensures DropCommaBefore(s, close) == s
    decreases |s|
  {
    if s != [] {
      DropCommaPlain(s[1..], close);
    }
  }

  /** A text without commas passes the trailing-comma rewrite unchanged, before
      whatever follows. */
  lemma {:induction false} DropCommaPrefix(p: string, q: string, close: char)
    requires ',' !in p
    ensures DropCommaBefore(p + q, close) == p + DropCommaBefore(q, close)
    decreases |p|
  {
    if p == [] {
      assert p + q == q;
    } else {
      assert (p + q)[0] == p[0];
      assert p[0] in p;
      assert (p + q)[1..] == p[1..] + q;
      assert ',' !in p[1..] by {
        forall i | 0 <= i < |p| - 1 ensures p[1..][i] != ',' {
          assert p[1..][i] == p[i + 1];
        }
      }
      DropCommaPrefix(p[1..], q, close);
      ConcatAssoc([p[0]], p[1..], DropCommaBefore(q, close));
      assert [p[0]] + p[1..] == p;
    }
  }

  /** A comma, blanks and the closer become the closer alone. */
  lemma DropCommaRemoves(blanks: string, close: char, rest: string)
    requires forall i :: 0 <= i < |blanks| ==> IsSpace(blanks[i])
    requires !IsSpace(close)
    ensures DropCommaBefore("," + blanks + [close] + rest, close) == [close] + DropCommaBefore(rest, close)
  {
    var s := "," + blanks + [close] + rest;
    var t := blanks + [close] + rest;
    assert s[1..] == t;
    BlanksRun(blanks, [close]);
    SpaceRunAppend(blanks + [close], rest);
    assert (blanks + [close] + rest) == (blanks + [close]) + rest;
    assert SpaceRun(t) == |blanks|;
    assert s[|blanks| + 2..] == rest;
  }

  lemma {:induction false} BlanksRun(blanks: string, b: string)
    requires forall i :: 0 <= i < |blanks| ==> IsSpace(blanks[i])
    requires b != [] && !IsSpace(b[0])
    ensures SpaceRun(blanks + b) == |blanks|
    decreases |blanks|
  {
    if blanks != [] {
      assert (blanks + b)[1..] == blanks[1..] + b;
      BlanksRun(blanks[1..], b);
    }
  }

  /** Of two commas before a `]` only the second goes: `,,]` becomes `,]`, and the
      result is still not JSON. */
  lemma DoubleCommaSurvives()
    ensures DropCommaBefore(",,]", ']') == ",]"
  {
    var s := ",,]";
    assert s[1..] == ",]";
    assert SpaceRun(",]") == 0;
    assert !ClosesNext(",]", ']');
    assert SpaceRun("]") == 0;
    assert ClosesNext("]", ']');
    assert ",]"[2..] == [];
  }

  lemma {:induction false} NextQuoteAt(s: string, k: nat, e: nat)
    requires k <= e < |s| && s[e] == '\''
    requires forall j :: k <= j < e ==> s[j] != '\''
    ensures NextQuote(s, k) == Some(e)
    decreases e - k
  {
    if k < e {
      NextQuoteAt(s, k + 1, e);
    }
  }

  /** A greedy `\s*` takes exactly the blanks before the first non-blank. */
  lemma {:induction false} SpaceRunIs(x: string, n: nat)
    requires n < |x| && !IsSpace(x[n])
    requires forall i :: 0 <= i < n ==> IsSpace(x[i])
    ensures SpaceRun(x) == n
    decreases n
  {
    if n > 0 {
      SpaceRunIs(x[1..], n - 1);
    }
  }

  /** A text without colons passes the quote rewrite unchanged, before whatever follows. */
  lemma {:induction false} SingleToDoublePrefix(p: string, q: string)
    requires ':' !in p
    ensures SingleToDouble(p + q) == p + SingleToDouble(q)
    decreases |p|
  {
    if p == [] {
      assert p + q == q;
    } else {
      assert (p + q)[0] == p[0];
      assert p[0] in p;
      assert (p + q)[1..] == p[1..] + q;
      assert ':' !in p[1..] by {
        forall i | 0 <= i < |p| - 1 ensures p[1..][i] != ':' {
          assert p[1..][i] == p[i + 1];
        }
      }
      SingleToDoublePrefix(p[1..], q);
      ConcatAssoc([p[0]], p[1..], SingleToDouble(q));
      assert [p[0]] + p[1..] == p;
    }
  }

  /** The quote rewrite keeps a leading colon, whether a quoted run follows or not. */
  lemma SingleToDoubleColon(q: string)
    requires q != [] && q[0] == ':'
    ensures SingleToDouble(q) != [] && SingleToDouble(q)[0] == ':'
  {
  }

  /** One step of the rewrite: a colon, `w` blanks and a quote, then a run up to the
      next quote at `e`. */
  lemma SingleToDoubleStep(s: string, w: nat, e: nat, v: string, rest: string)
    requires 1 + w < |s| && s[0] == ':' && s[1 + w] == '\''
    requires SpaceRun(s[1..]) == w
    requires NextQuote(s, 2 + w) == Some(e)
    requires s[2 + w..e] == v && s[e + 1..] == rest
    ensures SingleToDouble(s) == Requote(v) + SingleToDouble(rest)
  {
    QuotedAtIs(s, w, e);
  }

  lemma QuotedAtIs(s: string, w: nat, e: nat)
    requires 1 + w < |s| && s[0] == ':' && s[1 + w] == '\''
    requires SpaceRun(s[1..]) == w
    requires NextQuote(s, 2 + w) == Some(e)
    ensures QuotedAt(s) == Some((2 + w, e))
  {
  }

  /** Where the pieces of `:<blanks>'<v>'<rest>` lie. */
  lemma QuotedPieces(blanks: string, v: string, rest: string)
    requires forall i :: 0 <= i < |blanks| ==> IsSpace(blanks[i])
    requires '\'' !in v
    ensures var s := ":" + blanks + "'" + v + "'" + rest;
      var w := |blanks|;
      var e := 2 + w + |v|;
      1 + w < |s| && s[0] == ':' && s[1 + w] == '\'' && e < |s| &&
      s[2 + w..e] == v && s[e + 1..] == rest &&
      (forall i :: 0 <= i < w ==> IsSpace(s[1..][i])) && !IsSpace(s[1..][w]) &&
      s[e] == '\'' && (forall j :: 2 + w <= j < e ==> s[j] != '\'')
  {
    var s := ":" + blanks + "'" + v + "'" + rest;
    var w := |blanks|;
    var e := 2 + w + |v|;
    forall i | 0 <= i < w ensures IsSpace(s[1..][i]) {
      assert s[1..][i] == blanks[i];
    }
    forall j | 2 + w <= j < e ensures s[j] != '\'' {
      assert s[j] == v[j - 2 - w];
    }
  }

  /** A colon, blanks and a single-quoted run without quotes become `: "<run>"`. */
  lemma SingleToDoubleValue(blanks: string, v: string, rest: string)
    requires forall i :: 0 <= i < |blanks| ==> IsSpace(blanks[i])
    requires '\'' !in v
    ensures SingleToDouble(":" + blanks + "'" + v + "'" + rest) == ": \"" + v + "\"" + SingleToDouble(rest)
  {
    var s := ":" + blanks + "'" + v + "'" + rest;
    var w := |blanks|;
    var e := 2 + w + |v|;
    QuotedPieces(blanks, v, rest);
    SpaceRunIs(s[1..], w);
    NextQuoteAt(s, 2 + w, e);
    SingleToDoubleStep(s, w, e, v, rest);
  }

  /** The API rewrite does not know the writers' `\'` escape: the value ends at the
      escaped quote, and the rest of the value is left behind the closing `"`. */
  lemma EscapedQuoteEndsValue(x: string, y: string)
    requires '\'' !in x && '\'' !in y
    ensures SingleToDouble(": '" + EscapeQuotes(x + "'" + y) + "'") == ": \"" + x + "\\\"" + SingleToDouble(y + "'")
  {
    EscapeOneQuote(x, y);
    var v := x + "\\";
    var rest := y + "'";
    var t := ": '" + EscapeQuotes(x + "'" + y) + "'";
    Regroup(": '", v, "'", y);
    assert t == ": '" + v + "'" + rest;
    QuotedValueAfterColon(v, rest);
    Regroup3(": \"", x, "\\", "\"");
    assert "\\" + "\"" == "\\\"";
    assert ": \"" + v + "\"" == ": \"" + x + "\\\"";
  }

  lemma QuotedValueAfterColon(v: string, rest: string)
    requires '\'' !in v
    ensures SingleToDouble(": '" + v + "'" + rest) == ": \"" + v + "\"" + SingleToDouble(rest)
  {
    assert ": '" == ":" + " " + "'";
    SingleToDoubleValue(" ", v, rest);
  }

  lemma EscapeOneQuote(x: string, y: string)
    requires '\'' !in x && '\'' !in y
    ensures EscapeQuotes(x + "'" + y) == x + "\\" + "'" + y
    ensures '\'' !in x + "\\"
  {
    var q := "'" + y;
    ConcatAssoc(x, "'", y);
    EscapeQuotesAppend(x, q);
    assert EscapeQuotes(q) == "\\'" + y by {
      assert q[0] == '\'' && q[1..] == y;
    }
    assert "\\'" == "\\" + "'";
    ConcatAssoc(x, "\\" + "'", y);
    ConcatAssoc(x, "\\", "'");
  }

  lemma Regroup3(a: string, x: string, b: string, c: string)
    ensures a + (x + b) + c == a + x + (b + c)
  {
  }

  lemma Regroup(a: string, v: string, q: string, y: string)
    ensures a + (v + q + y) + q == a + v + q + (y + q)
  {
  }

  lemma {:induction false} EscapeQuotesAppend(a: string, b: string)
    ensures EscapeQuotes(a + b) == EscapeQuotes(a) + EscapeQuotes(b)
    decreases |a|
  {
    if a == [] {
      assert a + b == b;
    } else {
      var h := if a[0] == '\'' then "\\'" else [a[0]];
      assert (a + b)[0] == a[0];
      assert (a + b)[1..] == a[1..] + b;
      EscapeQuotesAppend(a[1..], b);
      assert EscapeQuotes(a + b) == h + EscapeQuotes(a[1..] + b);
      assert EscapeQuotes(a) == h + EscapeQuotes(a[1..]);
      ConcatAssoc(h, EscapeQuotes(a[1..]), EscapeQuotes(b));
    }
  }
}
