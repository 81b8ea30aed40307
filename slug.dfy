/**
 * `titleToSlug` (src/utils.ts, and the identical copy in api/portfolio.ts):
 * lower-case, trim, drop every character that is not a word character,
 * whitespace or `-`, turn each whitespace run into one `-`, and squeeze
 * each run of `-` into one.
 */
module Slug {
  import opened Text

  /** What `[^\w\s-]` does not remove. */
  predicate Kept(c: char) {
    IsWordChar(c) || IsSpace(c) || c == '-'
  }

  /** The characters a slug is made of. */
  predicate SlugChar(c: char) {
    'a' <= c <= 'z' || '0' <= c <= '9' || c == '_' || c == '-'
  }

  predicate NoDoubleHyphen(s: string) {
    forall i :: 0 <= i < |s| - 1 ==> !(s[i] == '-' && s[i + 1] == '-')
  }

  /** What a slug looks like: slug characters only, never two hyphens in a row. */
  predicate IsSlug(s: string) {
    (forall i :: 0 <= i < |s| ==> SlugChar(s[i])) && NoDoubleHyphen(s)
  }

  /** `.replace(/[^\w\s-]/g, '')`. */
  function RemoveDisallowed(s: string): string {
    if s == [] then []
    else (if Kept(s[0]) then [s[0]] else []) + RemoveDisallowed(s[1..])
  }

  /** `.replace(/\s+/g, '-')`: every maximal whitespace run becomes one hyphen. */
  function HyphenateSpaces(s: string): string
    decreases |s|
  {
    if s == [] then []
    else if IsSpace(s[0]) then "-" + HyphenateSpaces(TrimStart(s[1..]))
    else [s[0]] + HyphenateSpaces(s[1..])
  }

  /** The text after the leading run of hyphens. */
  function SkipHyphens(s: string): (r: string)
    ensures |r| <= |s| && r == s[|s| - |r|..]
    ensures r == [] || r[0] != '-'
  {
    if s != [] && s[0] == '-' then SkipHyphens(s[1..]) else s
  }

  /** `.replace(/-+/g, '-')`: every maximal hyphen run becomes one hyphen. */
  function SqueezeHyphens(s: string): string
    decreases |s|
  {
    if s == [] then []
    else if s[0] == '-' then "-" + SqueezeHyphens(SkipHyphens(s[1..]))
    else [s[0]] + SqueezeHyphens(s[1..])
  }

  /** `titleToSlug`. */
  function TitleToSlug(title: string): string {
    SqueezeHyphens(HyphenateSpaces(RemoveDisallowed(Trim(Lower(title)))))
  }

  /** The filter keeps only allowed characters, each taken from the input,
      and leaves an input of allowed characters alone. */
  lemma {:induction false} RemoveDisallowedKeeps(s: string)
    ensures forall c :: c in RemoveDisallowed(s) ==> Kept(c) && c in s
    ensures (forall i :: 0 <= i < |s| ==> Kept(s[i])) ==> RemoveDisallowed(s) == s
  {
    if s != [] {
      RemoveDisallowedKeeps(s[1..]);
      assert s == [s[0]] + s[1..];
    }
  }

  /** After the whitespace step no whitespace is left. */
  lemma {:induction false} HyphenateSpacesNoSpace(s: string)
    ensures NoSpace(HyphenateSpaces(s))
    decreases |s|
  {
    if s != [] {
      if IsSpace(s[0]) {
        HyphenateSpacesNoSpace(TrimStart(s[1..]));
      } else {
        HyphenateSpacesNoSpace(s[1..]);
      }
    }
  }

  /** Every character the whitespace step emits is the input's own or a hyphen. */
  lemma {:induction false} HyphenateSpacesChars(s: string)
    ensures forall c :: c in HyphenateSpaces(s) ==> c in s || c == '-'
    decreases |s|
  {
    if s != [] {
      if IsSpace(s[0]) {
        var rest := TrimStart(s[1..]);
        HyphenateSpacesChars(rest);
        assert forall c :: c in rest ==> c in s;
        assert HyphenateSpaces(s) == "-" + HyphenateSpaces(rest);
      } else {
        HyphenateSpacesChars(s[1..]);
        assert HyphenateSpaces(s) == [s[0]] + HyphenateSpaces(s[1..]);
      }
    }
  }

  /** Text without whitespace passes the whitespace step unchanged. */
  lemma {:induction false} HyphenateSpacesKeepsWords(s: string)
    requires NoSpace(s)
    ensures HyphenateSpaces(s) == s
    decreases |s|
  {
    if s != [] {
      HyphenateSpacesKeepsWords(s[1..]);
      assert s == [s[0]] + s[1..];
    }
  }

  lemma NoDoubleHyphenCons(c: char, t: string)
    requires NoDoubleHyphen(t)
    requires t == [] || c != '-' || t[0] != '-'
    ensures NoDoubleHyphen([c] + t)
  {
    forall i | 0 < i < |t| ensures ([c] + t)[i] == t[i - 1] && ([c] + t)[i + 1] == t[i] {
    }
  }

  /** Dropping the first character keeps a string free of hyphen pairs. */
  lemma NoDoubleHyphenTail(s: string)
    requires s != [] && NoDoubleHyphen(s)
    ensures NoDoubleHyphen(s[1..])
  {
    forall i | 0 <= i < |s| - 2 ensures !(s[1..][i] == '-' && s[1..][i + 1] == '-') {
      assert s[1..][i] == s[i + 1] && s[1..][i + 1] == s[i + 2];
    }
  }

  /** After the hyphen step no two hyphens touch, and a leading hyphen appears only if
      the input had one. */
  lemma {:induction false} SqueezeNoDouble(s: string)
    ensures NoDoubleHyphen(SqueezeHyphens(s))
    ensures SqueezeHyphens(s) == [] || SqueezeHyphens(s)[0] != '-' || s[0] == '-'
    decreases |s|
  {
    if s != [] {
      if s[0] == '-' {
        var rest := SkipHyphens(s[1..]);
        SqueezeNoDouble(rest);
        NoDoubleHyphenCons('-', SqueezeHyphens(rest));
      } else {
        SqueezeNoDouble(s[1..]);
        NoDoubleHyphenCons(s[0], SqueezeHyphens(s[1..]));
      }
    }
  }

  /** Every character the hyphen step emits is the input's own. */
  lemma {:induction false} SqueezeChars(s: string)
    ensures forall c :: c in SqueezeHyphens(s) ==> c in s
    decreases |s|
  {
    if s != [] {
      if s[0] == '-' {
        var rest := SkipHyphens(s[1..]);
        SqueezeChars(rest);
        assert forall c :: c in rest ==> c in s;
      } else {
        SqueezeChars(s[1..]);
        assert forall c :: c in s[1..] ==> c in s;
      }
    }
  }

  /** An input with no hyphen pairs passes the hyphen step unchanged. */
  lemma {:induction false} SqueezeKeeps(s: string)
    requires NoDoubleHyphen(s)
    ensures SqueezeHyphens(s) == s
    decreases |s|
  {
    if s != [] {
      NoDoubleHyphenTail(s);
      SqueezeKeeps(s[1..]);
      if s[0] == '-' {
        assert SkipHyphens(s[1..]) == s[1..];
      }
      assert s == [s[0]] + s[1..];
    }
  }

  /** After the hyphen step no two hyphens touch; every character comes from the
      input; a leading hyphen appears only if the input had one; and an input with
      no hyphen pairs is left alone. */
  lemma SqueezeHyphensShape(s: string)
    ensures NoDoubleHyphen(SqueezeHyphens(s))
    ensures forall c :: c in SqueezeHyphens(s) ==> c in s
    ensures SqueezeHyphens(s) == [] || SqueezeHyphens(s)[0] != '-' || s[0] == '-'
    ensures NoDoubleHyphen(s) ==> SqueezeHyphens(s) == s
  {
    SqueezeNoDouble(s);
    SqueezeChars(s);
    if NoDoubleHyphen(s) {
      SqueezeKeeps(s);
    }
  }

  /** The characters left after lowering, trimming and filtering are allowed ones and
      not upper-case. */
  lemma FilteredChars(title: string)
    ensures forall c :: c in RemoveDisallowed(Trim(Lower(title))) ==> Kept(c) && !IsUpper(c)
  {
    var lowered := Lower(title);
    var trimmed := Trim(lowered);
    RemoveDisallowedKeeps(trimmed);
    TrimChars(lowered);
    forall c | c in lowered ensures !IsUpper(c) {
      var i :| 0 <= i < |lowered| && lowered[i] == c;
    }
  }

  /** The whitespace step turns text of allowed, non-upper-case characters into
      slug characters. */
  lemma HyphenatedChars(kept: string)
    requires forall c :: c in kept ==> Kept(c) && !IsUpper(c)
    ensures forall c :: c in HyphenateSpaces(kept) ==> SlugChar(c)
  {
    var h := HyphenateSpaces(kept);
    HyphenateSpacesNoSpace(kept);
    HyphenateSpacesChars(kept);
    forall c | c in h ensures SlugChar(c) {
      var i :| 0 <= i < |h| && h[i] == c;
      assert !IsSpace(c);
    }
  }

  /** Every slug is made of lower-case ASCII letters, digits, `_` and `-`, with no
      whitespace and never two hyphens next to each other. */
  lemma TitleToSlugShape(title: string)
    ensures IsSlug(TitleToSlug(title))
    ensures NoSpace(TitleToSlug(title))
  {
    var kept := RemoveDisallowed(Trim(Lower(title)));
    var hyphenated := HyphenateSpaces(kept);
    var slug := SqueezeHyphens(hyphenated);
    assert slug == TitleToSlug(title);
    FilteredChars(title);
    HyphenatedChars(kept);
    SqueezeNoDouble(hyphenated);
    SqueezeChars(hyphenated);
    forall i | 0 <= i < |slug| ensures SlugChar(slug[i]) {
      assert slug[i] in hyphenated;
    }
  }

  /** A slug is its own slug: each step of the chain leaves it unchanged. */
  lemma SlugIsFixedPoint(s: string)
    requires IsSlug(s)
    ensures TitleToSlug(s) == s
  {
    forall i | 0 <= i < |s| ensures !IsUpper(s[i]) && !IsSpace(s[i]) && Kept(s[i]) {
      assert SlugChar(s[i]);
    }
    var lowered := Lower(s);
    assert forall i :: 0 <= i < |s| ==> lowered[i] == s[i];
    assert lowered == s;
    assert NoSpace(s);
    var trimmed := Trim(s);
    assert trimmed == s;
    RemoveDisallowedKeeps(s);
    HyphenateSpacesKeepsWords(s);
    SqueezeHyphensShape(s);
    calc {
      TitleToSlug(s);
      SqueezeHyphens(HyphenateSpaces(RemoveDisallowed(trimmed)));
      SqueezeHyphens(HyphenateSpaces(RemoveDisallowed(s)));
      SqueezeHyphens(HyphenateSpaces(s));
      SqueezeHyphens(s);
      s;
    }
  }

  /** `titleToSlug(titleToSlug(t)) == titleToSlug(t)`. */
  lemma TitleToSlugIdempotent(title: string)
    ensures TitleToSlug(TitleToSlug(title)) == TitleToSlug(title)
  {
    TitleToSlugShape(title);
    SlugIsFixedPoint(TitleToSlug(title));
  }

  lemma {:induction false} RemoveDisallowedAppend(a: string, b: string)
    ensures RemoveDisallowed(a + b) == RemoveDisallowed(a) + RemoveDisallowed(b)
  {
    if a == [] {
      assert a + b == b;
    } else {
      assert (a + b)[1..] == a[1..] + b;
      RemoveDisallowedAppend(a[1..], b);
    }
  }

  lemma {:induction false} HyphenateWord(w: string, t: string)
    requires NoSpace(w)
    ensures HyphenateSpaces(w + t) == w + HyphenateSpaces(t)
  {
    if w == [] {
      assert w + t == t;
    } else {
      assert (w + t)[1..] == w[1..] + t;
      HyphenateWord(w[1..], t);
    }
  }

  /** One space between a word and the rest becomes one hyphen. */
  lemma HyphenateStep(w: string, t: string)
    requires NoSpace(w) && t != [] && !IsSpace(t[0])
    ensures HyphenateSpaces(w + " " + t) == w + "-" + HyphenateSpaces(t)
  {
    var u := " " + t;
    HyphenateWord(w, u);
    assert IsSpace(u[0]) && u[1..] == t;
    assert TrimStart(t) == t;
    assert HyphenateSpaces(u) == "-" + HyphenateSpaces(t);
    ConcatAssoc(w, " ", t);
    ConcatAssoc(w, "-", HyphenateSpaces(t));
  }

  lemma {:induction false} SqueezeWord(w: string, t: string)
    requires '-' !in w
    ensures SqueezeHyphens(w + t) == w + SqueezeHyphens(t)
  {
    if w == [] {
      assert w + t == t;
    } else {
      assert (w + t)[1..] == w[1..] + t;
      SqueezeWord(w[1..], t);
    }
  }

  /** One hyphen between a word and the rest stays one hyphen. */
  lemma SqueezeStep(w: string, t: string)
    requires '-' !in w && t != [] && t[0] != '-'
    ensures SqueezeHyphens(w + "-" + t) == w + "-" + SqueezeHyphens(t)
  {
    var u := "-" + t;
    SqueezeWord(w, u);
    assert u[0] == '-' && u[1..] == t;
    assert SkipHyphens(t) == t;
    assert SqueezeHyphens(u) == "-" + SqueezeHyphens(t);
    ConcatAssoc(w, "-", t);
    ConcatAssoc(w, "-", SqueezeHyphens(t));
  }

  lemma HelloWorldLowered()
    ensures Lower("Hello World") == "hello world"
  {
  }

  lemma HelloWorldTrimmed()
    ensures Trim("hello world") == "hello world"
  {
    assert IsTrimmed("hello world");
  }

  lemma HelloWorldFilterSteps()
    ensures RemoveDisallowed(Trim(Lower("Hello World"))) == "hello world"
  {
    HelloWorldLowered();
    HelloWorldTrimmed();
    HelloWorldKept();
    RemoveDisallowedKeeps("hello world");
  }

  lemma HelloWorldKept()
    ensures forall i :: 0 <= i < |"hello world"| ==> Kept("hello world"[i])
  {
    var s := "hello world";
    forall i | 0 <= i < |s| ensures Kept(s[i]) {
      assert s[i] == ' ' || 'a' <= s[i] <= 'z';
    }
  }

  lemma HelloWorldHyphenated()
    ensures HyphenateSpaces("hello world") == "hello-world"
  {
    assert "hello" + " " + "world" == "hello world";
    assert "hello" + "-" + "world" == "hello-world";
    HyphenateStep("hello", "world");
    HyphenateSpacesKeepsWords("world");
  }

  lemma HelloWorldSqueezed()
    ensures SqueezeHyphens("hello-world") == "hello-world"
  {
    assert "hello" + "-" + "world" == "hello-world";
    SqueezeStep("hello", "world");
    SqueezeKeeps("world");
  }

  lemma HelloWorldHyphenSteps()
    ensures SqueezeHyphens(HyphenateSpaces("hello world")) == "hello-world"
  {
    HelloWorldHyphenated();
    HelloWorldSqueezed();
  }

  lemma HelloWorldSlug()
    ensures TitleToSlug("Hello World") == "hello-world"
  {
    HelloWorldFilterSteps();
    HelloWorldHyphenSteps();
  }

  lemma FirstPostWhitespaceStep()
    ensures HyphenateSpaces("my first post") == "my-first-post"
  {
    assert NoSpace("my") && NoSpace("first") && NoSpace("post");
    assert "my" + " " + "first post" == "my first post";
    assert "first" + " " + "post" == "first post";
    assert "my" + "-" + "first-post" == "my-first-post";
    assert "first" + "-" + "post" == "first-post";
    HyphenateStep("my", "first post");
    HyphenateStep("first", "post");
    HyphenateSpacesKeepsWords("post");
  }

  lemma FirstPostHyphenStep()
    ensures SqueezeHyphens("my-first-post") == "my-first-post"
  {
    assert "my" + "-" + "first-post" == "my-first-post";
    assert "first" + "-" + "post" == "first-post";
    SqueezeStep("my", "first-post");
    SqueezeStep("first", "post");
    SqueezeHyphensShape("post");
  }

  lemma FirstPostLowered()
    ensures Lower("My First Post!") == "my first post!"
  {
  }

  lemma FirstPostTrimmed()
    ensures Trim("my first post!") == "my first post!"
  {
    var s := "my first post!";
    assert s[0] == 'm' && s[|s| - 1] == '!';
  }

  lemma FirstPostCaseSteps()
    ensures Trim(Lower("My First Post!")) == "my first post!"
  {
    FirstPostLowered();
    FirstPostTrimmed();
  }

  /** A disallowed character at the end is dropped and the rest kept. */
  lemma RemoveDisallowedDropsLast(w: string, c: char)
    requires forall i :: 0 <= i < |w| ==> Kept(w[i])
    requires !Kept(c)
    ensures RemoveDisallowed(w + [c]) == w
  {
    RemoveDisallowedAppend(w, [c]);
    RemoveDisallowedKeeps(w);
  }

  lemma FirstPostBangDropped()
    ensures RemoveDisallowed("my first post!") == "my first post"
  {
    assert "my first post!" == "my first post" + ['!'];
    RemoveDisallowedDropsLast("my first post", '!');
  }

  lemma FirstPostFilterSteps()
    ensures RemoveDisallowed(Trim(Lower("My First Post!"))) == "my first post"
  {
    FirstPostCaseSteps();
    FirstPostBangDropped();
  }

  lemma MyFirstPostSlug()
    ensures TitleToSlug("My First Post!") == "my-first-post"
  {
    FirstPostFilterSteps();
    FirstPostWhitespaceStep();
    FirstPostHyphenStep();
  }
}
