/**
 * What the API's reader recovers from what the API's writer wrote: a post file
 * is `buildFrontmatter(fm) + "\n\n" + body`, and `parseFrontmatter` of it gives
 * back every written entry, in the written order, and the trimmed body.
 */
module FrontmatterRoundTrip {
  import opened Wrappers
  import opened Text
  import opened FrontmatterData
  import opened FrontmatterParse
  import opened FrontmatterBuild

  /** Three hyphens at the start: what would turn a line into a closing fence. */
  predicate OpensWithDashes(s: string) {
    |s| >= 3 && s[0] == '-' && s[1] == '-' && s[2] == '-'
  }

  /** A key the line reader can recover: no surrounding space, no colon, no newline,
      and not starting with `---`. */
  predicate SafeKey(k: string) {
    IsTrimmed(k) && ':' !in k && '\n' !in k && !OpensWithDashes(k)
  }

  /** An array element the reader can recover: a string with no surrounding space,
      no comma, no newline and no quote at either end. */
  predicate SafeElem(e: Elem) {
    e.EStr? && IsTrimmed(e.s) && ',' !in e.s && '\n' !in e.s &&
    (e.s == [] || (!IsQuote(e.s[0]) && !IsQuote(e.s[|e.s| - 1])))
  }

  /** Strings without newlines, booleans, and non-empty arrays of such elements
      survive; other values are not written at all. */
  predicate SafeValue(v: Value) {
    match v
    case Str(s) => '\n' !in s
    case Bool(_) => true
    case List(es) => es != [] && forall i :: 0 <= i < |es| ==> SafeElem(es[i])
    case Other(_) => true
  }

  predicate SafeEntry(e: Entry) {
    SafeKey(e.key) && SafeValue(e.value)
  }

  // ----- array values -----

  function Prefixed(xs: seq<string>): (r: seq<string>)
    ensures |r| == |xs|
    ensures forall i :: 0 <= i < |xs| ==> r[i] == " " + xs[i]
  {
    seq(|xs|, i requires 0 <= i < |xs| => " " + xs[i])
  }

  lemma {:induction false} PrefixedJoin(xs: seq<string>)
    requires xs != []
    ensures Join(Prefixed(xs), ",") == " " + Join(xs, ", ")
    decreases |xs|
  {
    if |xs| > 1 {
      PrefixedJoin(xs[1..]);
      assert Prefixed(xs) == [" " + xs[0]] + Prefixed(xs[1..]);
      JoinCons(" " + xs[0], Prefixed(xs[1..]), ",");
      JoinCons(xs[0], xs[1..], ", ");
      assert xs == [xs[0]] + xs[1..];
    }
  }

  /** `a, b, c` is `a`, ` b` and ` c` joined with bare commas. */
  lemma SpacedJoin(xs: seq<string>)
    requires xs != []
    ensures Join([xs[0]] + Prefixed(xs[1..]), ",") == Join(xs, ", ")
  {
    if |xs| > 1 {
      var a, t := xs[0], xs[1..];
      var rest := Join(t, ", ");
      assert Join(xs, ", ") == a + ", " + rest;
      JoinCons(a, Prefixed(t), ",");
      PrefixedJoin(t);
      assert Join([a] + Prefixed(t), ",") == a + "," + (" " + rest);
      ConcatAssoc(a, ",", " " + rest);
      ConcatAssoc(",", " ", rest);
      assert "," + " " == ", ";
      ConcatAssoc(a, ", ", rest);
    } else {
      assert [xs[0]] + Prefixed(xs[1..]) == [xs[0]];
    }
  }

  lemma StripQuotesPlain(x: string)
    requires x == [] || (!IsQuote(x[0]) && !IsQuote(x[|x| - 1]))
    ensures StripQuotes(x) == x
  {
  }

  /** Splitting `a, b, c` at commas gives `a`, ` b` and ` c`. */
  lemma SplitSpaced(xs: seq<string>)
    requires xs != []
    requires forall i :: 0 <= i < |xs| ==> ',' !in xs[i]
    ensures Split(Join(xs, ", "), ',') == [xs[0]] + Prefixed(xs[1..])
  {
    SpacedJoin(xs);
    var parts := [xs[0]] + Prefixed(xs[1..]);
    forall k | 0 <= k < |parts| ensures ',' !in parts[k] {
      if k > 0 {
        assert parts[k] == " " + xs[k];
      }
    }
    SplitJoin(parts, ',');
  }

  /** A safe element reads back as itself, with or without the space the writer puts before it. */
  lemma ParseSafeElem(x: string)
    requires SafeElem(EStr(x))
    ensures ParseElem(x) == EStr(x)
    ensures ParseElem(" " + x) == EStr(x)
  {
    TrimAfterSpace(x);
    StripQuotesPlain(x);
  }

  lemma ParseSpacedElems(es: seq<Elem>)
    requires es != [] && forall i :: 0 <= i < |es| ==> SafeElem(es[i])
    ensures ParseElems([ElemTexts(Api, es)[0]] + Prefixed(ElemTexts(Api, es)[1..])) == es
  {
    var xs := ElemTexts(Api, es);
    var parts := [xs[0]] + Prefixed(xs[1..]);
    var got := ParseElems(parts);
    forall i | 0 <= i < |es| ensures got[i] == es[i] {
      assert es[i] == EStr(xs[i]);
      ParseSafeElem(xs[i]);
      if i > 0 {
        assert parts[i] == " " + xs[i];
      }
    }
  }

  /** A written array of safe strings reads back as the same array. */
  lemma ParseListText(es: seq<Elem>)
    requires es != [] && forall i :: 0 <= i < |es| ==> SafeElem(es[i])
    ensures ParseValue(ValueText(Api, List(es))) == List(es)
  {
    var xs := ElemTexts(Api, es);
    ParseValueBracketed(Join(xs, ", "));
    SplitSpaced(xs);
    ParseSpacedElems(es);
  }

  // ----- one line -----

  lemma ValueTextShape(v: Value)
    requires Renders(v) && SafeValue(v)
    ensures IsTrimmed(ValueText(Api, v)) && '\n' !in ValueText(Api, v)
  {
    match v
    case List(es) =>
      var xs := ElemTexts(Api, es);
      JoinAvoids(xs, ", ", '\n');
    case Str(s) =>
    case Bool(b) =>
  }

  lemma ParseValueText(v: Value)
    requires Renders(v) && SafeValue(v)
    ensures ParseValue(ValueText(Api, v)) == v
  {
    match v
    case List(es) => ParseListText(es);
    case Str(s) => ParseValueQuoted(s);
    case Bool(b) => ParseValueBooleans();
  }

  /** A written line reads back as the entry it was written from. */
  lemma ParseApiLine(e: Entry)
    requires Renders(e.value) && SafeEntry(e)
    ensures ParseLine(Line(Api, e.key, e.value)) == Some(e)
  {
    var text := ValueText(Api, e.value);
    ValueTextShape(e.value);
    assert Line(Api, e.key, e.value) == e.key + ":" + (" " + text);
    ParseLineAtFirstColon(e.key, " " + text);
    TrimAfterSpace(text);
    ParseValueText(e.value);
  }

  /** A written line holds no newline and cannot be mistaken for a fence. */
  lemma ApiLineShape(e: Entry)
    requires Renders(e.value) && SafeEntry(e)
    ensures '\n' !in Line(Api, e.key, e.value)
    ensures !OpensWithDashes(Line(Api, e.key, e.value))
  {
    var line := Line(Api, e.key, e.value);
    ValueTextShape(e.value);
    assert line[|e.key|] == ':';
    if |e.key| >= 3 {
      assert line[..3] == e.key[..3];
    }
  }

  /** Parsing the written lines gives back the written entries, in order. */
  lemma {:induction false} ParseRenderedLines(sel: seq<Entry>)
    requires UniqueKeys(sel)
    requires forall i :: 0 <= i < |sel| ==> Renders(sel[i].value) && SafeEntry(sel[i])
    ensures ParseLines(RenderLines(Api, sel)) == sel
    decreases |sel|
  {
    if sel != [] {
      var init := sel[..|sel| - 1];
      var e := sel[|sel| - 1];
      var line := Line(Api, e.key, e.value);
      assert sel == init + [e];
      assert UniqueKeys(init) && e.key !in Keys(init) by {
        forall i | 0 <= i < |init| ensures init[i] == sel[i] && init[i].key != e.key {
        }
      }
      ParseRenderedLines(init);
      RenderLinesSnoc(Api, init, e);
      ParseApiLine(e);
      ParseLinesSnoc(RenderLines(Api, init), line, e);
      PutNew(init, e.key, e.value);
    }
  }

  // ----- the fence -----

  lemma CloseAtShift(x: string, d: nat, p: int)
    requires d <= p && d <= |x|
    ensures CloseAt(x, p) <==> CloseAt(x[d..], p - d)
  {
  }

  /** None of the written lines' newlines starts a `"\n---"`, whatever follows
      the lines, provided it starts with a newline. */
  lemma {:induction false} NoFenceInLines(ls: seq<string>, tail: string)
    requires ls != [] && tail != [] && tail[0] == '\n'
    requires forall i :: 0 <= i < |ls| ==> '\n' !in ls[i] && !OpensWithDashes(ls[i])
    ensures forall p :: 0 <= p < |Join(ls, "\n")| ==> !CloseAt(Join(ls, "\n") + tail, p)
    decreases |ls|
  {
    var b := Join(ls, "\n");
    var x := b + tail;
    if |ls| == 1 {
      forall p | 0 <= p < |b| ensures !CloseAt(x, p) {
        assert x[p] == ls[0][p];
      }
    } else {
      var first := ls[0];
      var rest := ls[1..];
      JoinCons(first, rest, "\n");
      assert ls == [first] + rest;
      var y := Join(rest, "\n") + tail;
      assert x == first + "\n" + y;
      assert x[|first| + 1..] == y;
      NoFenceInLines(rest, tail);
      var r := rest[0];
      JoinStartsWithFirst(rest, "\n");
      assert y[..|r|] == r;
      assert y[|r|] == '\n';
      NoFenceCons(first, r, y, |Join(rest, "\n")|);
    }
  }

  /** One line more in front: no `"\n---"` starts in the line, none at the newline
      after it (the next line does not open with dashes), and none later. */
  lemma NoFenceCons(first: string, r: string, y: string, n: nat)
    requires '\n' !in first && !OpensWithDashes(r)
    requires |r| < |y| && y[..|r|] == r && y[|r|] == '\n'
    requires forall p :: 0 <= p < n ==> !CloseAt(y, p)
    ensures forall p :: 0 <= p < |first| + 1 + n ==> !CloseAt(first + "\n" + y, p)
  {
    var x := first + "\n" + y;
    assert x[|first| + 1..] == y;
    forall p | 0 <= p < |first| + 1 + n ensures !CloseAt(x, p) {
      if p < |first| {
        assert x[p] == first[p];
      } else if p == |first| {
        if |r| >= 3 {
          assert x[p + 1] == r[0] && x[p + 2] == r[1] && x[p + 3] == r[2];
        } else {
          assert x[p + 1 + |r|] == y[|r|];
        }
      } else {
        CloseAtShift(x, |first| + 1, p);
      }
    }
  }

  /** When no `"\n---"` starts inside `b`, the block of `---\n b \n---\n\n body`
      is `b`, and the rest starts after the one newline the pattern consumes. */
  lemma MatchAfterBlock(b: string, body: string)
    requires forall p :: 0 <= p < |b| ==> !CloseAt(b + ("\n---\n\n" + body), p)
    ensures MatchBlock("---\n" + (b + ("\n---\n\n" + body))) == Some((b, "\n" + body))
  {
    var tail := "\n---\n\n" + body;
    var raw := "---\n" + (b + tail);
    var j := 4 + |b|;
    FencePieces(b, body);
    forall k | 4 <= k < j ensures !CloseAt(raw, k) {
      CloseAtShift(raw, 4, k);
    }
    MatchBlockFirstFence(raw, j);
  }

  /** Where the pieces of `---\n b \n---\n\n body` lie. */
  lemma FencePieces(b: string, body: string)
    ensures var raw := "---\n" + (b + ("\n---\n\n" + body));
      var j := 4 + |b|;
      StartsWith(raw, "---\n") && raw[4..] == b + ("\n---\n\n" + body) &&
      CloseAt(raw, j) && raw[4..j] == b && j + 4 < |raw| && raw[j + 4] == '\n' &&
      raw[j + 5..] == "\n" + body
  {
    var tail := "\n---\n\n" + body;
    var raw := "---\n" + (b + tail);
    var j := 4 + |b|;
    assert raw[..4] == "---\n";
    assert raw[4..] == b + tail;
    assert raw[j..] == tail;
    assert tail[..5] == "\n---\n";
    assert tail[5..] == "\n" + body;
  }

  lemma ConcatFence(b: string, body: string)
    ensures "---\n" + b + "\n---" + "\n\n" + body == "---\n" + (b + ("\n---\n\n" + body))
  {
  }

  /** The block of a fenced text of safe lines is the joined lines. */
  lemma MatchFencedLines(lines: seq<string>, body: string)
    requires lines != []
    requires forall i :: 0 <= i < |lines| ==> '\n' !in lines[i] && !OpensWithDashes(lines[i])
    ensures MatchBlock(Fenced(lines) + "\n\n" + body) == Some((Join(lines, "\n"), "\n" + body))
  {
    FencedNonEmpty(lines);
    var b := Join(lines, "\n");
    var f := Fenced(lines);
    var tail := "\n---\n\n" + body;
    assert f == "---\n" + b + "\n---";
    ConcatFence(b, body);
    assert f + "\n\n" + body == "---\n" + (b + tail);
    NoFenceInLines(lines, tail);
    MatchAfterBlock(b, body);
  }

  /** A fenced block of safe lines followed by a blank line and a body reads back
      as those lines and the trimmed body. */
  lemma ParseFencedLines(lines: seq<string>, body: string)
    requires lines != []
    requires forall i :: 0 <= i < |lines| ==> '\n' !in lines[i] && !OpensWithDashes(lines[i])
    ensures Parse(Fenced(lines) + "\n\n" + body) == Parsed(ParseLines(lines), Trim(body))
  {
    MatchFencedLines(lines, body);
    TrimSkipsSpace('\n', body);
    SplitJoin(lines, '\n');
  }

  lemma WrittenSafe(fm: seq<Entry>)
    requires forall i :: 0 <= i < |fm| ==> SafeEntry(fm[i])
    ensures forall i :: 0 <= i < |Written(fm)| ==> Renders(Written(fm)[i].value) && SafeEntry(Written(fm)[i])
  {
    WrittenFromObject(fm);
    forall i | 0 <= i < |Written(fm)| ensures SafeEntry(Written(fm)[i]) {
      var j :| 0 <= j < |fm| && fm[j] == Written(fm)[i];
    }
  }

  /** The API's writer and reader agree: `parseFrontmatter(buildFrontmatter(fm) + "\n\n" + body)`
      gives back exactly the written entries, in the canonical key order, and the
      trimmed body, as long as at least one entry is written. */
  lemma ApiRoundTrip(fm: seq<Entry>, body: string)
    requires UniqueKeys(fm)
    requires forall i :: 0 <= i < |fm| ==> SafeEntry(fm[i])
    requires Written(fm) != []
    ensures Parse(ApiText(fm) + "\n\n" + body) == Parsed(Written(fm), Trim(body))
  {
    ApiSelectsWritten(fm);
    var w := Written(fm);
    WrittenOrder(fm);
    WrittenSafe(fm);
    var lines := RenderLines(Api, w);
    ParseRenderedLines(w);
    forall i | 0 <= i < |lines| ensures '\n' !in lines[i] && !OpensWithDashes(lines[i]) {
      ApiLineShape(w[i]);
    }
    ParseFencedLines(lines, body);
  }

  /** Key by key: every string, boolean or array value reads back as it was, and
      every other key reads back as absent. */
  lemma ApiRoundTripLookup(fm: seq<Entry>, body: string, k: string)
    requires UniqueKeys(fm)
    requires forall i :: 0 <= i < |fm| ==> SafeEntry(fm[i])
    requires Written(fm) != []
    ensures Lookup(Parse(ApiText(fm) + "\n\n" + body).frontmatter, k) ==
            if Lookup(fm, k).Some? && Renders(Lookup(fm, k).value) then Lookup(fm, k) else None
  {
    ApiRoundTrip(fm, body);
    WrittenLookup(fm, k);
  }

  lemma {:induction false} SelectedOfEmpty(keys: seq<string>)
    ensures Selected([], keys) == []
    decreases |keys|
  {
    if keys != [] {
      SelectedOfEmpty(keys[..|keys| - 1]);
    }
  }

  /** With nothing written the block is `---\n---`, which the reader's pattern
      does not match (its opening `---\n` takes the only newline), so the whole
      file, fences included, comes back as the content, as long as the body opens
      no fence of its own. */
  lemma EmptyFrontmatterNotRecovered(body: string)
    requires !StartsWith(body, "---")
    requires forall j :: !CloseAt(body, j)
    ensures Parse(ApiText([]) + "\n\n" + body) == Parsed([], "---\n---\n\n" + body)
  {
    SelectedOfEmpty(ApiKeys([]));
    FencedEmpty();
    var raw := ApiText([]) + "\n\n" + body;
    assert raw == "---\n---\n\n" + body;
    assert raw[9..] == body;
    forall j | 4 <= j ensures !CloseAt(raw, j) {
      if j == 8 && |body| >= 3 {
        assert body[..3] == [body[0], body[1], body[2]];
        assert raw[9] == body[0] && raw[10] == body[1] && raw[11] == body[2];
      } else if j > 8 {
        CloseAtShift(raw, 9, j);
      }
    }
    ParseFallback(raw);
  }

  /** A body whose second line is `---` (a Markdown rule, say) closes the empty
      block there: the blank line and the body's first line are read as the block,
      and only what follows the rule is content. */
  lemma RuleInBodyClosesEmptyBlock(a: string, c: string)
    requires '\n' !in a && !StartsWith(a, "---")
    ensures var p := Parse(ApiText([]) + "\n\n" + (a + "\n---" + c));
      p.frontmatter == ParseLines(Split("---\n\n" + a, '\n')) &&
      p.content == Trim(if c != [] && c[0] == '\n' then c[1..] else c)
  {
    SelectedOfEmpty(ApiKeys([]));
    FencedEmpty();
    var raw := ApiText([]) + "\n\n" + (a + "\n---" + c);
    assert raw == "---\n---\n\n" + (a + "\n---" + c);
    RulePieces(a, c);
    RuleNoEarlierClose(a, c);
    MatchBlockFirstFence(raw, 9 + |a|);
  }

  lemma RuleNoEarlierClose(a: string, c: string)
    requires '\n' !in a && !StartsWith(a, "---")
    ensures var raw := "---\n---\n\n" + (a + "\n---" + c);
      forall k :: 4 <= k < 9 + |a| ==> !CloseAt(raw, k)
  {
    var raw := "---\n---\n\n" + (a + "\n---" + c);
    RulePieces(a, c);
    forall k | 4 <= k < 9 + |a| ensures !CloseAt(raw, k) {
      if k >= 9 {
        assert raw[k] == a[k - 9];
      } else if k == 8 && |a| >= 3 {
        assert raw[9] == a[0] && raw[10] == a[1] && raw[11] == a[2];
        assert a[..3] == [a[0], a[1], a[2]];
      } else if k == 8 {
        assert raw[9 + |a|] == '\n';
      }
    }
  }

  /** Where the pieces of `---\n---\n\n a \n--- c` lie. */
  lemma RulePieces(a: string, c: string)
    ensures var raw := "---\n---\n\n" + (a + "\n---" + c);
      var j := 9 + |a|;
      StartsWith(raw, "---\n") && CloseAt(raw, j) && raw[4..j] == "---\n\n" + a &&
      raw[j + 4..] == c && raw[4] == '-' && raw[5] == '-' && raw[6] == '-' && raw[7] == '\n' && raw[8] == '\n' &&
      (forall k :: 9 <= k < j ==> raw[k] == a[k - 9]) && raw[j] == '\n'
  {
    var raw := "---\n---\n\n" + (a + "\n---" + c);
    var j := 9 + |a|;
    assert raw[..4] == "---\n";
    assert raw[9..] == a + "\n---" + c;
    assert raw[j..] == "\n---" + c;
    assert raw[4..9] == "---\n\n";
  }
}
