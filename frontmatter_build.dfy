/**
 * The two frontmatter writers: `buildFrontmatter` of src/utils.ts (the local
 * server) and `buildFrontmatter` of api/portfolio.ts (the serverless API).
 * Both write a `---` fence, one `key: value` line per written entry, and a
 * closing `---`; they differ in key enumeration, quote escaping and the text of
 * non-string array elements.
 */
module FrontmatterBuild {
  import opened Wrappers
  import opened Text
  import opened FrontmatterData

  /** The keys written first, in this order, when present. */
  const PreferredKeys: seq<string> := ["title", "date", "tags", "draft", "summary", "pinned", "pinnedtext"]

  /** Which writer: the local one escapes quotes and writes non-string array
      elements as JSON; the API one does neither. */
  datatype Style = Local | Api

  /** Arrays, strings and booleans get a line; any other value is skipped. */
  predicate Renders(v: Value) {
    !v.Other?
  }

  predicate Distinct(s: seq<string>) {
    forall i, j :: 0 <= i < j < |s| ==> s[i] != s[j]
  }

  function ElemText(style: Style, e: Elem): string {
    match e
    case EStr(s) => s
    case EOther(json, text) => if style == Local then json else text
  }

  function ElemTexts(style: Style, es: seq<Elem>): (r: seq<string>)
    ensures |r| == |es|
    ensures forall i :: 0 <= i < |es| ==> r[i] == ElemText(style, es[i])
  {
    seq(|es|, i requires 0 <= i < |es| => ElemText(style, es[i]))
  }

  /** The text after `key: `. */
  function ValueText(style: Style, v: Value): string
    requires Renders(v)
  {
    match v
    case List(es) => "[" + Join(ElemTexts(style, es), ", ") + "]"
    case Str(s) => "'" + (if style == Local then EscapeQuotes(s) else s) + "'"
    case Bool(b) => if b then "true" else "false"
  }

  function Line(style: Style, k: string, v: Value): string
    requires Renders(v)
  {
    k + ": " + ValueText(style, v)
  }

  /** The entries of `fm` for `keys`, in the order of `keys`: a key absent from
      `fm`, or holding a value that is not rendered, contributes nothing. */
  function Selected(fm: seq<Entry>, keys: seq<string>): (sel: seq<Entry>)
    ensures forall i :: 0 <= i < |sel| ==> Renders(sel[i].value)
    decreases |keys|
  {
    if keys == [] then []
    else
      var prev := Selected(fm, keys[..|keys| - 1]);
      var k := keys[|keys| - 1];
      match Lookup(fm, k)
      case None => prev
      case Some(v) => if Renders(v) then prev + [Entry(k, v)] else prev
  }

  /** The keys of `ks` that are not preferred keys, in order. */
  function Extras(ks: seq<string>): seq<string>
    decreases |ks|
  {
    if ks == [] then []
    else
      var prev := Extras(ks[..|ks| - 1]);
      if ks[|ks| - 1] in PreferredKeys then prev else prev + [ks[|ks| - 1]]
  }

  /** `[...new Set(s)]`: the first occurrence of each element, in order. */
  function Dedup(s: seq<string>): seq<string>
    decreases |s|
  {
    if s == [] then []
    else
      var d := Dedup(s[..|s| - 1]);
      if s[|s| - 1] in d then d else d + [s[|s| - 1]]
  }

  function RenderLines(style: Style, sel: seq<Entry>): (lines: seq<string>)
    requires forall i :: 0 <= i < |sel| ==> Renders(sel[i].value)
    ensures |lines| == |sel|
  {
    seq(|sel|, i requires 0 <= i < |sel| => Line(style, sel[i].key, sel[i].value))
  }

  /** The lines between an opening and a closing `---`, joined with newlines. */
  function Fenced(lines: seq<string>): string {
    Join(["---"] + lines + ["---"], "\n")
  }

  /** What the local writer writes, in its order: the present preferred keys,
      then the other keys in object order. */
  function Written(fm: seq<Entry>): seq<Entry> {
    Selected(fm, PreferredKeys) + Selected(fm, Extras(Keys(fm)))
  }

  function LocalText(fm: seq<Entry>): string {
    Fenced(RenderLines(Local, Written(fm)))
  }

  /** The API writer's key list: the preferred keys, then the object's keys, deduplicated. */
  function ApiKeys(fm: seq<Entry>): seq<string> {
    Dedup(PreferredKeys + Keys(fm))
  }

  function ApiText(fm: seq<Entry>): string {
    Fenced(RenderLines(Api, Selected(fm, ApiKeys(fm))))
  }

  // ----- the writers -----

  /** The loop both writers run over a key list: a line for every key the object
      has whose value is rendered, appended to `start`. */
  method PushLines(style: Style, fm: seq<Entry>, keys: seq<string>, start: seq<string>) returns (lines: seq<string>)
    ensures lines == start + RenderLines(style, Selected(fm, keys))
  {
    lines := start;
    var i := 0;
    while i < |keys|
      invariant 0 <= i <= |keys|
      invariant lines == start + RenderLines(style, Selected(fm, keys[..i]))
    {
      var key := keys[i];
      ghost var sel := Selected(fm, keys[..i]);
      SelectedStep(fm, keys, i);
      if key in Keys(fm) {
        var value := Lookup(fm, key).value;
        if Renders(value) {
          RenderLinesSnoc(style, sel, Entry(key, value));
          ConcatAssoc(start, RenderLines(style, sel), [Line(style, key, value)]);
          lines := lines + [Line(style, key, value)];
        }
      }
      i := i + 1;
    }
    assert keys[..i] == keys;
  }

  /** The second loop of the local writer: a line for every key of the object
      that is not a preferred key and whose value is rendered, in object order. */
  method PushExtraLines(fm: seq<Entry>, start: seq<string>) returns (lines: seq<string>)
    ensures lines == start + RenderLines(Local, Selected(fm, Extras(Keys(fm))))
  {
    lines := start;
    var ks := Keys(fm);
    var j := 0;
    while j < |ks|
      invariant 0 <= j <= |ks|
      invariant lines == start + RenderLines(Local, Selected(fm, Extras(ks[..j])))
    {
      var key := ks[j];
      ExtrasStep(ks, j);
      if key !in PreferredKeys {
        assert Extras(ks[..j + 1]) == Extras(ks[..j]) + [key];
        var value := Lookup(fm, key).value;
        ghost var sel := Selected(fm, Extras(ks[..j]));
        SelectedSnoc(fm, Extras(ks[..j]), key);
        if Renders(value) {
          assert Selected(fm, Extras(ks[..j + 1])) == sel + [Entry(key, value)];
          RenderLinesSnoc(Local, sel, Entry(key, value));
          ConcatAssoc(start, RenderLines(Local, sel), [Line(Local, key, value)]);
          lines := lines + [Line(Local, key, value)];
        } else {
          assert Selected(fm, Extras(ks[..j + 1])) == sel;
        }
      } else {
        assert Extras(ks[..j + 1]) == Extras(ks[..j]);
      }
      j := j + 1;
    }
    assert ks[..j] == ks;
  }

  /** `buildFrontmatter` of src/utils.ts: a loop over the preferred keys, then a
      loop over the object's own keys that skips the preferred ones. */
  method BuildFrontmatterLocal(fm: seq<Entry>) returns (text: string)
    ensures text == LocalText(fm)
  {
    var lines := PushLines(Local, fm, PreferredKeys, ["---"]);
    lines := PushExtraLines(fm, lines);
    ghost var a := RenderLines(Local, Selected(fm, PreferredKeys));
    ghost var b := RenderLines(Local, Selected(fm, Extras(Keys(fm))));
    RenderLinesAppend(Local, Selected(fm, PreferredKeys), Selected(fm, Extras(Keys(fm))));
    assert lines == ["---"] + (a + b) by {
      ConcatAssoc(["---"], a, b);
    }
    lines := lines + ["---"];
    text := Join(lines, "\n");
  }

  /** `buildFrontmatter` of api/portfolio.ts: one loop over the deduplicated key
      list, skipping keys the object does not have. */
  method BuildFrontmatterApi(fm: seq<Entry>) returns (text: string)
    ensures text == ApiText(fm)
  {
    var allKeys := ApiKeys(fm);
    var lines := PushLines(Api, fm, allKeys, ["---"]);
    lines := lines + ["---"];
    text := Join(lines, "\n");
  }

  // ----- step lemmas for the loops -----

  lemma SelectedStep(fm: seq<Entry>, keys: seq<string>, i: nat)
    requires i < |keys|
    ensures Selected(fm, keys[..i + 1]) ==
      match Lookup(fm, keys[i])
      case None => Selected(fm, keys[..i])
      case Some(v) => if Renders(v) then Selected(fm, keys[..i]) + [Entry(keys[i], v)] else Selected(fm, keys[..i])
  {
    assert keys[..i + 1][..i] == keys[..i];
    assert keys[..i + 1][i] == keys[i];
  }

  lemma ExtrasStep(ks: seq<string>, j: nat)
    requires j < |ks|
    ensures Extras(ks[..j + 1]) == if ks[j] in PreferredKeys then Extras(ks[..j]) else Extras(ks[..j]) + [ks[j]]
  {
    assert ks[..j + 1][..j] == ks[..j];
    assert ks[..j + 1][j] == ks[j];
  }

  lemma SelectedSnoc(fm: seq<Entry>, keys: seq<string>, k: string)
    ensures Selected(fm, keys + [k]) ==
      match Lookup(fm, k)
      case None => Selected(fm, keys)
      case Some(v) => if Renders(v) then Selected(fm, keys) + [Entry(k, v)] else Selected(fm, keys)
  {
    assert (keys + [k])[..|keys|] == keys;
  }

  lemma RenderLinesSnoc(style: Style, sel: seq<Entry>, e: Entry)
    requires forall i :: 0 <= i < |sel| ==> Renders(sel[i].value)
    requires Renders(e.value)
    ensures RenderLines(style, sel + [e]) == RenderLines(style, sel) + [Line(style, e.key, e.value)]
  {
  }

  lemma RenderLinesAppend(style: Style, a: seq<Entry>, b: seq<Entry>)
    requires forall i :: 0 <= i < |a| ==> Renders(a[i].value)
    requires forall i :: 0 <= i < |b| ==> Renders(b[i].value)
    ensures RenderLines(style, a + b) == RenderLines(style, a) + RenderLines(style, b)
  {
  }

  // ----- key enumeration -----

  lemma {:induction false} ExtrasIff(ks: seq<string>, k: string)
    ensures k in Extras(ks) <==> k in ks && k !in PreferredKeys
    decreases |ks|
  {
    if ks != [] {
      var init := ks[..|ks| - 1];
      ExtrasIff(init, k);
      assert ks == init + [ks[|ks| - 1]];
    }
  }

  lemma {:induction false} ExtrasDistinct(ks: seq<string>)
    requires Distinct(ks)
    ensures Distinct(Extras(ks))
    decreases |ks|
  {
    if ks != [] {
      var init := ks[..|ks| - 1];
      var last := ks[|ks| - 1];
      ExtrasDistinct(init);
      ExtrasIff(init, last);
      assert last !in init;
    }
  }

  lemma {:induction false} DedupOfDistinct(s: seq<string>)
    requires Distinct(s)
    ensures Dedup(s) == s
    decreases |s|
  {
    if s != [] {
      var init := s[..|s| - 1];
      DedupOfDistinct(init);
      assert s[|s| - 1] !in init;
      assert s == init + [s[|s| - 1]];
    }
  }

  lemma PreferredKeysDistinct()
    ensures Distinct(PreferredKeys)
  {
  }

  /** Deduplicating the preferred keys followed by distinct object keys keeps the
      preferred keys and appends the object keys that are not preferred. */
  lemma {:induction false} DedupPreferredThen(ks: seq<string>)
    requires Distinct(ks)
    ensures Dedup(PreferredKeys + ks) == PreferredKeys + Extras(ks)
    decreases |ks|
  {
    if ks == [] {
      PreferredKeysDistinct();
      DedupOfDistinct(PreferredKeys);
      assert PreferredKeys + ks == PreferredKeys;
    } else {
      var init := ks[..|ks| - 1];
      var last := ks[|ks| - 1];
      DedupPreferredThen(init);
      assert (PreferredKeys + ks)[..|PreferredKeys + ks| - 1] == PreferredKeys + init;
      assert (PreferredKeys + ks)[|PreferredKeys + ks| - 1] == last;
      ExtrasIff(init, last);
      assert last !in init;
      assert ks[..|ks| - 1] == init;
      ConcatAssoc(PreferredKeys, Extras(init), [last]);
    }
  }

  lemma KeysDistinct(fm: seq<Entry>)
    requires UniqueKeys(fm)
    ensures Distinct(Keys(fm))
  {
  }

  /** Both writers enumerate keys in the same order: the API writer's deduplicated
      list is the preferred keys followed by the object's other keys. */
  lemma ApiKeysCanonical(fm: seq<Entry>)
    requires UniqueKeys(fm)
    ensures ApiKeys(fm) == PreferredKeys + Extras(Keys(fm))
  {
    KeysDistinct(fm);
    DedupPreferredThen(Keys(fm));
  }

  lemma {:induction false} SelectedAppend(fm: seq<Entry>, a: seq<string>, b: seq<string>)
    ensures Selected(fm, a + b) == Selected(fm, a) + Selected(fm, b)
    decreases |b|
  {
    if b != [] {
      var init := b[..|b| - 1];
      SelectedAppend(fm, a, init);
      assert (a + b)[..|a + b| - 1] == a + init;
      assert (a + b)[|a + b| - 1] == b[|b| - 1];
    } else {
      assert a + b == a;
    }
  }

  /** The API writer selects exactly the entries the local writer writes, in the same order. */
  lemma ApiSelectsWritten(fm: seq<Entry>)
    requires UniqueKeys(fm)
    ensures Selected(fm, ApiKeys(fm)) == Written(fm)
  {
    ApiKeysCanonical(fm);
    SelectedAppend(fm, PreferredKeys, Extras(Keys(fm)));
  }

  /** A key gets a line exactly when it is listed, present in the object, and rendered. */
  lemma {:induction false} SelectedIff(fm: seq<Entry>, keys: seq<string>, k: string)
    ensures k in Keys(Selected(fm, keys)) <==> k in keys && Lookup(fm, k).Some? && Renders(Lookup(fm, k).value)
    decreases |keys|
  {
    if keys != [] {
      var init := keys[..|keys| - 1];
      var last := keys[|keys| - 1];
      SelectedIff(fm, init, k);
      assert keys == init + [last];
      var prev := Selected(fm, init);
      match Lookup(fm, last)
      case None =>
      case Some(v) =>
        if Renders(v) {
          assert Keys(prev + [Entry(last, v)]) == Keys(prev) + [last];
        }
    }
  }

  /** Every written entry carries the object's own value for its key. */
  lemma {:induction false} SelectedValues(fm: seq<Entry>, keys: seq<string>)
    ensures forall i :: 0 <= i < |Selected(fm, keys)| ==> Lookup(fm, Selected(fm, keys)[i].key) == Some(Selected(fm, keys)[i].value)
    decreases |keys|
  {
    if keys != [] {
      SelectedValues(fm, keys[..|keys| - 1]);
    }
  }

  /** Listing each key once writes each key at most once. */
  lemma {:induction false} SelectedUnique(fm: seq<Entry>, keys: seq<string>)
    requires Distinct(keys)
    ensures UniqueKeys(Selected(fm, keys))
    decreases |keys|
  {
    if keys != [] {
      var init := keys[..|keys| - 1];
      var last := keys[|keys| - 1];
      SelectedUnique(fm, init);
      SelectedIff(fm, init, last);
      assert last !in init;
      var prev := Selected(fm, init);
      match Lookup(fm, last)
      case None =>
      case Some(v) =>
        if Renders(v) {
          assert last !in Keys(prev);
          assert Keys(prev + [Entry(last, v)]) == Keys(prev) + [last];
        }
    }
  }

  /** What both writers write: every key of the object whose value is an array, a
      string or a boolean, exactly once, with its value. */
  lemma WrittenIff(fm: seq<Entry>, k: string)
    ensures k in Keys(Written(fm)) <==> Lookup(fm, k).Some? && Renders(Lookup(fm, k).value)
  {
    var a := Selected(fm, PreferredKeys);
    var b := Selected(fm, Extras(Keys(fm)));
    assert Keys(a + b) == Keys(a) + Keys(b);
    SelectedIff(fm, PreferredKeys, k);
    SelectedIff(fm, Extras(Keys(fm)), k);
    ExtrasIff(Keys(fm), k);
  }

  /** The written entries hold no key twice, and the preferred keys come before all others. */
  lemma WrittenOrder(fm: seq<Entry>)
    requires UniqueKeys(fm)
    ensures UniqueKeys(Written(fm))
    ensures forall i, j :: 0 <= i < j < |Written(fm)| && Written(fm)[j].key in PreferredKeys ==>
                           Written(fm)[i].key in PreferredKeys
  {
    var a := Selected(fm, PreferredKeys);
    var b := Selected(fm, Extras(Keys(fm)));
    var w := a + b;
    PreferredKeysDistinct();
    KeysDistinct(fm);
    ExtrasDistinct(Keys(fm));
    SelectedUnique(fm, PreferredKeys);
    SelectedUnique(fm, Extras(Keys(fm)));
    forall i | 0 <= i < |a| ensures a[i].key in PreferredKeys {
      assert a[i].key in Keys(a);
      SelectedIff(fm, PreferredKeys, a[i].key);
    }
    forall i | 0 <= i < |b| ensures b[i].key !in PreferredKeys {
      assert b[i].key in Keys(b);
      SelectedIff(fm, Extras(Keys(fm)), b[i].key);
      ExtrasIff(Keys(fm), b[i].key);
    }
    forall i, j | 0 <= i < j < |w| ensures w[i].key != w[j].key {
      if j < |a| {
      } else if i >= |a| {
        assert w[i] == b[i - |a|] && w[j] == b[j - |a|];
      } else {
        assert w[j] == b[j - |a|];
      }
    }
  }

  // ----- the two texts -----

  /** A value free of quotes in strings and of non-string array elements. */
  predicate Plain(v: Value) {
    match v
    case Str(s) => '\'' !in s
    case List(es) => forall i :: 0 <= i < |es| ==> es[i].EStr?
    case _ => true
  }

  lemma PlainLineAgrees(k: string, v: Value)
    requires Renders(v) && Plain(v)
    ensures Line(Api, k, v) == Line(Local, k, v)
  {
    match v
    case List(es) =>
      assert ElemTexts(Api, es) == ElemTexts(Local, es);
    case Str(s) =>
    case Bool(b) =>
  }

  /** Every written entry is an entry of the object. */
  lemma WrittenFromObject(fm: seq<Entry>)
    ensures forall i :: 0 <= i < |Written(fm)| ==> Written(fm)[i] in fm
  {
    var a := Selected(fm, PreferredKeys);
    var b := Selected(fm, Extras(Keys(fm)));
    var w := a + b;
    SelectedValues(fm, PreferredKeys);
    SelectedValues(fm, Extras(Keys(fm)));
    forall i | 0 <= i < |w| ensures w[i] in fm {
      var e := w[i];
      if i < |a| {
        assert e == a[i];
      } else {
        assert e == b[i - |a|];
      }
      assert Lookup(fm, e.key) == Some(e.value);
      LookupFound(fm, e.key);
    }
  }

  /** Reading a key back from what was written: the object's own value when it is
      rendered, nothing otherwise. */
  lemma WrittenLookup(fm: seq<Entry>, k: string)
    requires UniqueKeys(fm)
    ensures Lookup(Written(fm), k) ==
            if Lookup(fm, k).Some? && Renders(Lookup(fm, k).value) then Lookup(fm, k) else None
  {
    var w := Written(fm);
    WrittenIff(fm, k);
    WrittenOrder(fm);
    if k in Keys(w) {
      var i :| 0 <= i < |w| && Keys(w)[i] == k;
      WrittenFromObject(fm);
      assert w[i] in fm;
      var j :| 0 <= j < |fm| && fm[j] == w[i];
    }
  }

  /** On objects whose strings hold no quote and whose arrays hold only strings,
      the two writers produce the same text. */
  lemma ApiMatchesLocal(fm: seq<Entry>)
    requires UniqueKeys(fm)
    requires forall i :: 0 <= i < |fm| ==> Plain(fm[i].value)
    ensures ApiText(fm) == LocalText(fm)
  {
    ApiSelectsWritten(fm);
    var w := Written(fm);
    WrittenFromObject(fm);
    forall i | 0 <= i < |w| ensures RenderLines(Api, w)[i] == RenderLines(Local, w)[i] {
      var j :| 0 <= j < |fm| && fm[j] == w[i];
      PlainLineAgrees(w[i].key, w[i].value);
    }
    assert RenderLines(Api, w) == RenderLines(Local, w);
    assert ApiText(fm) == Fenced(RenderLines(Api, w));
  }

  /** With nothing to write the text is the two fences alone. */
  lemma FencedEmpty()
    ensures Fenced([]) == "---\n---"
  {
    var all: seq<string> := ["---", "---"];
    assert ["---"] + [] + ["---"] == all;
    assert all[1..] == ["---"];
  }

  lemma FencedNonEmpty(lines: seq<string>)
    requires lines != []
    ensures Fenced(lines) == "---\n" + Join(lines, "\n") + "\n---"
  {
    JoinSnoc(lines, "---", "\n");
    assert ["---"] + lines + ["---"] == ["---"] + (lines + ["---"]);
    JoinCons("---", lines + ["---"], "\n");
  }

  /** The written text opens with `---` and a newline and closes with a newline and `---`. */
  lemma FencedShape(lines: seq<string>)
    ensures StartsWith(Fenced(lines), "---\n")
    ensures EndsWith(Fenced(lines), "\n---")
  {
    var front: string;
    if lines == [] {
      FencedEmpty();
      front := "---";
    } else {
      FencedNonEmpty(lines);
      front := "---\n" + Join(lines, "\n");
    }
    var t := Fenced(lines);
    assert t == front + "\n---";
    assert t[..4] == "---\n";
    assert t[|front|..] == "\n---";
  }
}
