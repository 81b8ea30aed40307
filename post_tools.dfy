/**
 * `PostTools` of src/post-tools.ts: blog posts kept as `<slug>.mdx` files in
 * the posts directory, written with the local frontmatter serialiser and read
 * back with `gray-matter`, which the model takes as a parameter.
 */
module PostTools {
  import opened Wrappers
  import opened Text
  import opened Slug
  import opened FrontmatterData
  import opened FrontmatterBuild

  /** What `gray-matter` returns: the frontmatter object and the text after it. */
  datatype Matter = Matter(data: seq<Entry>, content: string)

  datatype Post = Post(slug: string, frontmatter: seq<Entry>, content: string)

  datatype PostError =
    | Required(field: string)
    | TitleNotString
    | AlreadyExists(slug: string)
    | NotFound(slug: string)
    | ContentNotString      // `content.trim()` on an absent body

  const Ext := ".mdx"

  /** `<slug>.mdx`: the file name of a post in the posts directory. */
  function FileName(slug: string): string {
    slug + Ext
  }

  /** `file.replace(/\.mdx$/, '')` on a name that ends in `.mdx`. */
  function SlugOf(name: string): string
    requires EndsWith(name, Ext)
  {
    name[..|name| - |Ext|]
  }

  /** `!frontmatter[k]`. */
  predicate Missing(fm: seq<Entry>, k: string) {
    Lookup(fm, k).None? || !Truthy(Lookup(fm, k).value)
  }

  /** The checks of `createPost` in their order; `draft` only has to be defined, so
      `draft: false` passes. */
  function CheckRequired(fm: seq<Entry>): Option<PostError> {
    if Missing(fm, "title") then Some(Required("title"))
    else if Missing(fm, "date") then Some(Required("date"))
    else if Missing(fm, "tags") then Some(Required("tags"))
    else if Lookup(fm, "draft").None? then Some(Required("draft"))
    else if Missing(fm, "summary") then Some(Required("summary"))
    else None
  }

  /** `titleToSlug(frontmatter.title)`: a title that is not a string has no `toLowerCase`. */
  function SlugFor(fm: seq<Entry>): Result<string, PostError> {
    match Lookup(fm, "title")
    case Some(Str(t)) => Ok(TitleToSlug(t))
    case _ => Err(TitleNotString)
  }

  /** `${fm}\n\n${content}`: a serialised frontmatter block, a blank line, the body. */
  function Joined(fmText: string, content: string): string {
    fmText + "\n\n" + content
  }

  /** The text a post file holds. */
  function FileText(fm: seq<Entry>, content: string): string {
    Joined(LocalText(fm), content)
  }

  class Tools {
    /** The posts directory: file name to text. */
    var files: map<string, string>
    const matter: string -> Matter

    constructor(files0: map<string, string>, matter: string -> Matter)
      ensures files == files0 && this.matter == matter
    {
      files := files0;
      this.matter := matter;
    }

    /** What `getPost` returns for a slug whose file exists. */
    function Read(slug: string): (p: Post)
      reads this
      requires FileName(slug) in files
      ensures p.slug == slug && IsTrimmed(p.content)
    {
      var m := matter(files[FileName(slug)]);
      Post(slug, m.data, Trim(m.content))
    }

    /** `getPost`: `NotFound` without the file, otherwise its frontmatter and trimmed body. */
    method GetPost(slug: string) returns (r: Result<Post, PostError>)
      ensures FileName(slug) !in files ==> r == Err(NotFound(slug))
      ensures FileName(slug) in files ==> r == Ok(Read(slug))
    {
      var path := FileName(slug);
      if path !in files {
        return Err(NotFound(slug));
      }
      var m := matter(files[path]);
      r := Ok(Post(slug, m.data, Trim(m.content)));
    }

    /** `createPost`: the field checks, then the slug, then the existence check; past
        them exactly the new file is added. An absent body is written as `undefined`,
        and the `trim` of the returned post then fails after the write. */
    method CreatePost(fm: seq<Entry>, content: Option<string>) returns (r: Result<Post, PostError>)
      modifies this
      ensures CheckRequired(fm).Some? ==> r == Err(CheckRequired(fm).value) && files == old(files)
      ensures CheckRequired(fm).None? && SlugFor(fm).Err? ==> r == Err(TitleNotString) && files == old(files)
      ensures CheckRequired(fm).None? && SlugFor(fm).Ok? ==>
        var slug := SlugFor(fm).value;
        if FileName(slug) in old(files) then r == Err(AlreadyExists(slug)) && files == old(files)
        else
          files == old(files)[FileName(slug) := FileText(fm, Shown(content))] &&
          r == if content.Some? then Ok(Post(slug, fm, Trim(content.value))) else Err(ContentNotString)
    {
      var missing := CheckRequired(fm);
      if missing.Some? {
        return Err(missing.value);
      }
      var slug := SlugFor(fm);
      if slug.Err? {
        return Err(slug.error);
      }
      var path := FileName(slug.value);
      if path in files {
        return Err(AlreadyExists(slug.value));
      }
      WritePost(slug.value, fm, Shown(content));
      if content.None? {
        return Err(ContentNotString);
      }
      r := Ok(Post(slug.value, fm, Trim(content.value)));
    }

    /** `updatePost`: the read post's frontmatter spread with the updates, the body
        replaced only when one is given, written back under the same slug. */
    method UpdatePost(slug: string, updates: seq<Entry>, content: Option<string>) returns (r: Result<Post, PostError>)
      modifies this
      ensures FileName(slug) !in old(files) ==> r == Err(NotFound(slug)) && files == old(files)
      ensures FileName(slug) in old(files) ==>
        var post := old(Read(slug));
        var merged := Merge(post.frontmatter, updates);
        var body := if content.Some? then content.value else post.content;
        r == Ok(Post(slug, merged, Trim(body))) &&
        files == old(files)[FileName(slug) := FileText(merged, body)]
    {
      var post := GetPost(slug);
      if post.Err? {
        return Err(post.error);
      }
      var merged := Merge(post.value.frontmatter, updates);
      var body := if content.Some? then content.value else post.value.content;
      WritePost(slug, merged, body);
      r := Ok(Post(slug, merged, Trim(body)));
    }

    /** `writeFileSync` of the serialised frontmatter, a blank line and the body:
        only that file changes. */
    method WritePost(slug: string, fm: seq<Entry>, content: string)
      modifies this
      ensures files == old(files)[FileName(slug) := FileText(fm, content)]
    {
      var text := BuildFrontmatterLocal(fm);
      files := files[FileName(slug) := Joined(text, content)];
    }

    /** `deletePost`: `NotFound` without the file, otherwise only that file goes. */
    method DeletePost(slug: string) returns (r: Result<(), PostError>)
      modifies this
      ensures FileName(slug) !in old(files) ==> r == Err(NotFound(slug)) && files == old(files)
      ensures FileName(slug) in old(files) ==> r == Ok(()) && files == old(files) - {FileName(slug)}
    {
      var path := FileName(slug);
      if path !in files {
        return Err(NotFound(slug));
      }
      files := files - {path};
      r := Ok(());
    }

    /** `readdirSync`: the directory's names, each once, in an order the model leaves open. */
    method ReadDir() returns (names: seq<string>)
      ensures forall n :: n in names <==> n in files
      ensures forall i, j :: 0 <= i < j < |names| ==> names[i] != names[j]
    {
      names := [];
      var rest := files.Keys;
      while rest != {}
        invariant rest <= files.Keys
        invariant forall n :: n in names <==> n in files && n !in rest
        invariant forall i, j :: 0 <= i < j < |names| ==> names[i] != names[j]
        decreases |rest|
      {
        var n :| n in rest;
        names := names + [n];
        rest := rest - {n};
      }
    }

    /** `readdirSync(...).filter(f => f.endsWith('.mdx'))`: the `.mdx` names, each once. */
    method MdxNames() returns (mdx: seq<string>)
      ensures forall n :: n in mdx <==> n in files && EndsWith(n, Ext)
      ensures Distinct(mdx)
    {
      var names := ReadDir();
      mdx := [];
      var i := 0;
      while i < |names|
        invariant 0 <= i <= |names|
        invariant forall n :: n in mdx <==> n in names[..i] && EndsWith(n, Ext)
        invariant Distinct(mdx)
      {
        assert names[..i + 1] == names[..i] + [names[i]];
        if EndsWith(names[i], Ext) {
          assert names[i] !in names[..i];
          DistinctSnoc(mdx, names[i]);
          mdx := mdx + [names[i]];
        }
        i := i + 1;
      }
      assert names[..i] == names;
    }

    /** `listPosts`: the `.mdx` names, each read through `getPost` under the name
        without its extension. */
    method ListPosts() returns (posts: seq<Post>)
      ensures forall k :: 0 <= k < |posts| ==> FileName(posts[k].slug) in files && posts[k] == Read(posts[k].slug)
      ensures forall n :: n in files && EndsWith(n, Ext) ==> SlugOf(n) in Slugs(posts)
      ensures Distinct(Slugs(posts))
    {
      var mdx := MdxNames();
      posts := ReadAll(mdx);
      ListedSlugs(mdx, posts);
    }

    /** One `getPost` per name, in order. */
    method ReadAll(mdx: seq<string>) returns (posts: seq<Post>)
      requires forall k :: 0 <= k < |mdx| ==> mdx[k] in files && EndsWith(mdx[k], Ext)
      ensures |posts| == |mdx|
      ensures forall k :: 0 <= k < |mdx| ==> FileName(SlugOf(mdx[k])) in files && posts[k] == Read(SlugOf(mdx[k]))
    {
      posts := [];
      var j := 0;
      while j < |mdx|
        invariant 0 <= j <= |mdx|
        invariant |posts| == j
        invariant forall k :: 0 <= k < j ==> FileName(SlugOf(mdx[k])) in files && posts[k] == Read(SlugOf(mdx[k]))
      {
        SlugOfName(mdx[j]);
        var post := GetPost(SlugOf(mdx[j]));
        posts := posts + [post.value];
        j := j + 1;
      }
    }
  }

  /** The slugs of a list of posts, in order. */
  function Slugs(posts: seq<Post>): (r: seq<string>)
    ensures |r| == |posts|
    ensures forall k :: 0 <= k < |posts| ==> r[k] == posts[k].slug
  {
    seq(|posts|, k requires 0 <= k < |posts| => posts[k].slug)
  }

  /** Posts read one per name, in the names' order: every name's slug is listed, and
      no slug twice, because no name comes twice. */
  lemma ListedSlugs(mdx: seq<string>, posts: seq<Post>)
    requires forall k :: 0 <= k < |mdx| ==> EndsWith(mdx[k], Ext)
    requires Distinct(mdx) && |posts| == |mdx|
    requires forall k :: 0 <= k < |mdx| ==> posts[k].slug == SlugOf(mdx[k])
    ensures forall k :: 0 <= k < |mdx| ==> SlugOf(mdx[k]) in Slugs(posts)
    ensures Distinct(Slugs(posts))
  {
    forall k | 0 <= k < |mdx| ensures SlugOf(mdx[k]) in Slugs(posts) {
      assert Slugs(posts)[k] == SlugOf(mdx[k]);
    }
    forall a, b | 0 <= a < b < |posts|
      ensures Slugs(posts)[a] != Slugs(posts)[b]
    {
      SlugOfName(mdx[a]);
      SlugOfName(mdx[b]);
    }
  }

  lemma SlugOfName(name: string)
    requires EndsWith(name, Ext)
    ensures FileName(SlugOf(name)) == name
  {
    assert name == name[..|name| - |Ext|] + name[|name| - |Ext|..];
  }

  lemma DistinctSnoc(s: seq<string>, x: string)
    requires Distinct(s) && x !in s
    ensures Distinct(s + [x])
  {
  }

  /** `draft: false` is a defined draft flag: a create is not refused for it. */
  lemma DraftFalseAccepted(fm: seq<Entry>)
    requires !Missing(fm, "title") && !Missing(fm, "date") && !Missing(fm, "tags") && !Missing(fm, "summary")
    requires Lookup(fm, "draft") == Some(Bool(false))
    ensures CheckRequired(fm).None?
  {
  }

  /** The checks pass exactly when title, date, tags and summary are truthy and draft is present. */
  lemma CheckRequiredIff(fm: seq<Entry>)
    ensures CheckRequired(fm).None? <==>
      !Missing(fm, "title") && !Missing(fm, "date") && !Missing(fm, "tags") &&
      Lookup(fm, "draft").Some? && !Missing(fm, "summary")
  {
  }

  /** The stored name is the slug of the title plus `.mdx`, and the slug can be read
      back off the name. */
  lemma FileNameOfTitle(fm: seq<Entry>)
    requires SlugFor(fm).Ok?
    ensures Lookup(fm, "title").value.Str?
    ensures var n := FileName(TitleToSlug(Lookup(fm, "title").value.s));
      EndsWith(n, Ext) && SlugOf(n) == SlugFor(fm).value
  {
    var n := FileName(SlugFor(fm).value);
    assert n[|n| - |Ext|..] == Ext;
  }
}
