/**
 * The serverless API of api/portfolio.ts: posts and the projects file kept in a
 * GitHub repository and reached through its contents API. Every file there
 * carries a `sha`, the hash of its content; a write must name the `sha` of the
 * file it replaces (or none for a new file) and is refused otherwise. The model
 * keeps the repository as a map from path to content and `sha`, takes the hash
 * as a parameter, and logs every request it is sent.
 */
module PortfolioApi {
  import opened Wrappers
  import opened Text
  import opened Slug
  import opened FrontmatterData
  import opened FrontmatterParse
  import opened FrontmatterBuild
  import opened ProjectList
  import opened ProjectCodec
  import opened ProjectRead

  /** The default `POSTS_DIR` and `PROJECTS_FILE`. */
  const PostsDir := "data/posts"
  const ProjectsFile := "data/projectsData.js"

  datatype Blob = Blob(content: string, sha: nat)

  /** The requests the handler sends to the contents API. */
  datatype Request =
    | GetReq(path: string)
    | ListReq(dir: string)
    | PutReq(path: string, content: string, sha: Option<nat>, message: string)
    | DeleteReq(path: string, delSha: nat, message: string)

  datatype ApiError =
    | Missing              // GitHub 404
    | Conflict             // GitHub 409/422: the named sha is not the file's
    | TitleNotString       // `titleToSlug(undefined)` and the like
    | ProjectsFailed(e: ProjectError)

  datatype RemotePost = RemotePost(slug: string, frontmatter: seq<Entry>, content: string, sha: nat)

  function PostPath(slug: string): string {
    PostsDir + "/" + slug + ".mdx"
  }

  /** A write naming `sha` is accepted exactly when it names the current file's sha,
      or names none and there is no file. */
  predicate Accepts(files: map<string, Blob>, path: string, sha: Option<nat>) {
    if path in files then sha == Some(files[path].sha) else sha.None?
  }

  /** Every file's sha is the hash of its content, as GitHub's blob shas are. */
  predicate ShasMatch(files: map<string, Blob>, hash: string -> nat) {
    forall p :: p in files ==> files[p].sha == hash(files[p].content)
  }

  /** A file as the repository stores it: its content and the content's hash. */
  function Stored(hash: string -> nat, content: string): Blob {
    Blob(content, hash(content))
  }

  /** What a post file holds after a create or an update. */
  function PostText(fm: seq<Entry>, body: string): string {
    ApiText(fm) + "\n\n" + body
  }

  /** The projects file the API writer produces; it never fails. */
  function ProjectsFileText(ps: seq<Project>): string {
    ApiWriterTotal(ps);
    ProjectsText(ApiWriter, ps).value
  }

  lemma {:induction false} ApiWriterTotal(ps: seq<Project>)
    ensures ProjectsText(ApiWriter, ps).Ok?
    ensures RecordTexts(ApiWriter, ps).Ok?
    decreases |ps|
  {
    if ps != [] {
      ApiWriterTotal(ps[..|ps| - 1]);
      FieldsFailIff(ApiWriter, ps[|ps| - 1]);
    }
  }

  class Repo {
    var files: map<string, Blob>
    ghost var requests: seq<Request>
    /** The blob hash GitHub names files by. */
    const hash: string -> nat
    /** `JSON.parse`, restricted to texts that denote a list of projects. */
    const parse: string -> Option<seq<Project>>

    /** Every stored sha is its content's hash. */
    predicate Valid()
      reads this`files
    {
      ShasMatch(files, hash)
    }

    /** A repository holding the given contents, each under its hash. */
    constructor(contents: map<string, string>, hash: string -> nat, parse: string -> Option<seq<Project>>)
      ensures files == map p | p in contents :: Stored(hash, contents[p])
      ensures requests == [] && this.hash == hash && this.parse == parse
      ensures Valid()
    {
      files := map p | p in contents :: Stored(hash, contents[p]);
      this.hash := hash;
      this.parse := parse;
      requests := [];
    }

    // ----- the contents API -----

    /** GET of one file. */
    method Fetch(path: string) returns (r: Result<Blob, ApiError>)
      modifies this`requests
      ensures r == if path in files then Ok(files[path]) else Err(Missing)
      ensures requests == old(requests) + [GetReq(path)]
    {
      requests := requests + [GetReq(path)];
      if path !in files {
        return Err(Missing);
      }
      r := Ok(files[path]);
    }

    /** PUT of one file: accepted when the sha matches, and the file is then stored
        under its new content's hash. */
    method Put(path: string, content: string, sha: Option<nat>, message: string) returns (r: Result<(), ApiError>)
      requires Valid()
      modifies this
      ensures Valid()
      ensures requests == old(requests) + [PutReq(path, content, sha, message)]
      ensures Accepts(old(files), path, sha) ==> r == Ok(()) && files == old(files)[path := Stored(hash, content)]
      ensures !Accepts(old(files), path, sha) ==> r == Err(Conflict) && files == old(files)
    {
      requests := requests + [PutReq(path, content, sha, message)];
      if !Accepts(files, path, sha) {
        return Err(Conflict);
      }
      files := files[path := Stored(hash, content)];
      r := Ok(());
    }

    /** DELETE of one file, with the same sha check. */
    method Remove(path: string, sha: nat, message: string) returns (r: Result<(), ApiError>)
      requires Valid()
      modifies this
      ensures Valid()
      ensures requests == old(requests) + [DeleteReq(path, sha, message)]
      ensures Accepts(old(files), path, Some(sha)) ==> r == Ok(()) && files == old(files) - {path}
      ensures !Accepts(old(files), path, Some(sha)) ==> r == Err(Conflict) && files == old(files)
    {
      requests := requests + [DeleteReq(path, sha, message)];
      if !Accepts(files, path, Some(sha)) {
        return Err(Conflict);
      }
      files := files - {path};
      r := Ok(());
    }

    /** GET of a directory: the paths directly inside it, each once, in an order the
        model leaves open. Git keeps no empty directory, so a directory holding no file
        at any depth is absent and GitHub answers 404. */
    method ListDir(dir: string) returns (r: Result<seq<string>, ApiError>)
      modifies this`requests
      ensures requests == old(requests) + [ListReq(dir)]
      ensures r.Err? <==> DirAbsent(files, dir)
      ensures r.Err? ==> r.error == Missing
      ensures r.Ok? ==> forall p :: p in r.value <==> p in files && InDir(dir, p)
      ensures r.Ok? ==> forall i, j :: 0 <= i < j < |r.value| ==> r.value[i] != r.value[j]
    {
      requests := requests + [ListReq(dir)];
      if forall p | p in files :: !Under(dir, p) {
        return Err(Missing);
      }
      var paths := [];
      var rest := set p | p in files && InDir(dir, p);
      while rest != {}
        invariant forall p :: p in paths <==> p in files && InDir(dir, p) && p !in rest
        invariant forall p :: p in rest ==> p in files && InDir(dir, p)
        invariant forall i, j :: 0 <= i < j < |paths| ==> paths[i] != paths[j]
        decreases |rest|
      {
        var p :| p in rest;
        paths := paths + [p];
        rest := rest - {p};
      }
      r := Ok(paths);
    }

    // ----- posts -----

    /** What `getPost` returns for a file that exists. */
    function Read(slug: string): RemotePost
      reads this`files
      requires PostPath(slug) in files
    {
      var b := files[PostPath(slug)];
      var p := Parse(b.content);
      RemotePost(slug, p.frontmatter, p.content, b.sha)
    }

    /** `getPost`: one GET; the file's frontmatter, its body (trimmed when a frontmatter
        block is found, the raw text otherwise) and its sha. */
    method GetPost(slug: string) returns (r: Result<RemotePost, ApiError>)
      modifies this`requests
      ensures r == if PostPath(slug) in files then Ok(Read(slug)) else Err(Missing)
      ensures requests == old(requests) + [GetReq(PostPath(slug))]
    {
      var b := Fetch(PostPath(slug));
      if b.Err? {
        return Err(b.error);
      }
      var p := ParseFrontmatter(b.value.content);
      r := Ok(RemotePost(slug, p.frontmatter, p.content, b.value.sha));
    }

    /** `createPost`: no field checks; the slug from the title, then a PUT without a sha,
        which the repository refuses when the file exists. The content is returned as
        given, untrimmed. */
    method CreatePost(fm: seq<Entry>, content: Option<string>) returns (r: Result<(string, seq<Entry>, Option<string>), ApiError>)
      requires Valid()
      modifies this
      ensures Valid()
      ensures (match Lookup(fm, "title") case Some(Str(_)) => false case _ => true) ==>
        r == Err(TitleNotString) && files == old(files) && requests == old(requests)
      ensures (match Lookup(fm, "title") case Some(Str(_)) => true case _ => false) ==>
        var t := Lookup(fm, "title").value.s;
        var path := PostPath(TitleToSlug(t));
        var text := PostText(fm, Shown(content));
        requests == old(requests) + [PutReq(path, text, None, "Create post: " + t)] &&
        if path in old(files) then r == Err(Conflict) && files == old(files)
        else r == Ok((TitleToSlug(t), fm, content)) && files == old(files)[path := Stored(hash, text)]
    {
      var title := Lookup(fm, "title");
      if !(title.Some? && title.value.Str?) {
        return Err(TitleNotString);
      }
      var slug := TitleToSlug(title.value.s);
      var text := BuildFrontmatterApi(fm);
      var put := Put(PostPath(slug), text + "\n\n" + Shown(content), None, "Create post: " + title.value.s);
      if put.Err? {
        return Err(put.error);
      }
      r := Ok((slug, fm, content));
    }

    /** `updatePost`: a GET for the current file and its sha, the spread merge, the body
        kept unless a new one is given, and a PUT naming the sha just read, which the
        repository therefore accepts. */
    method UpdatePost(slug: string, updates: seq<Entry>, newContent: Option<string>) returns (r: Result<(seq<Entry>, string), ApiError>)
      requires Valid()
      modifies this
      ensures Valid()
      ensures PostPath(slug) !in old(files) ==>
        r == Err(Missing) && files == old(files) && requests == old(requests) + [GetReq(PostPath(slug))]
      ensures PostPath(slug) in old(files) ==>
        var existing := old(Read(slug));
        var merged := FrontmatterData.Merge(existing.frontmatter, updates);
        var body := if newContent.Some? then newContent.value else existing.content;
        var text := PostText(merged, body);
        r == Ok((merged, body)) &&
        requests == old(requests) + [GetReq(PostPath(slug)),
                                     PutReq(PostPath(slug), text, Some(old(files)[PostPath(slug)].sha), "Update post: " + slug)] &&
        files == old(files)[PostPath(slug) := Stored(hash, text)]
    {
      var existing := GetPost(slug);
      if existing.Err? {
        return Err(existing.error);
      }
      var merged := FrontmatterData.Merge(existing.value.frontmatter, updates);
      var body := if newContent.Some? then newContent.value else existing.value.content;
      var text := BuildFrontmatterApi(merged);
      var put := Put(PostPath(slug), text + "\n\n" + body, Some(existing.value.sha), "Update post: " + slug);
      r := Ok((merged, body));
    }

    /** `deletePost`: a GET for the sha, then a DELETE naming it. */
    method DeletePost(slug: string) returns (r: Result<(), ApiError>)
      requires Valid()
      modifies this
      ensures Valid()
      ensures PostPath(slug) !in old(files) ==>
        r == Err(Missing) && files == old(files) && requests == old(requests) + [GetReq(PostPath(slug))]
      ensures PostPath(slug) in old(files) ==>
        r == Ok(()) && files == old(files) - {PostPath(slug)} &&
        requests == old(requests) + [GetReq(PostPath(slug)),
                                     DeleteReq(PostPath(slug), old(files)[PostPath(slug)].sha, "Delete post: " + slug)]
    {
      var existing := GetPost(slug);
      if existing.Err? {
        return Err(existing.error);
      }
      r := Remove(PostPath(slug), existing.value.sha, "Delete post: " + slug);
    }

    /** `listPosts`: the directory listing, then one GET per `.mdx` entry, read under
        the entry's name without `.mdx`. An absent posts directory fails the listing. */
    method ListPosts() returns (r: Result<seq<RemotePost>, ApiError>)
      modifies this`requests
      ensures r.Err? <==> DirAbsent(files, PostsDir)
      ensures r.Err? ==> r.error == Missing && requests == old(requests) + [ListReq(PostsDir)]
      ensures r.Ok? ==> forall k :: 0 <= k < |r.value| ==> PostFile(files, PostPath(r.value[k].slug)) && r.value[k] == Read(r.value[k].slug)
      ensures r.Ok? ==> forall p :: PostFile(files, p) ==> p in Paths(r.value)
      ensures r.Ok? ==> Distinct(Paths(r.value))
      ensures r.Ok? ==> requests == old(requests) + [ListReq(PostsDir)] + GetReqs(Paths(r.value))
    {
      var listing := ListDir(PostsDir);
      if listing.Err? {
        return Err(listing.error);
      }
      var paths := listing.value;
      ghost var listed := requests;
      var posts := [];
      var i := 0;
      while i < |paths|
        invariant 0 <= i <= |paths|
        invariant Gathered(paths, i, posts)
        invariant requests == listed + GetReqs(Paths(posts))
      {
        var p := paths[i];
        if EndsWith(p, ".mdx") {
          var slug := EntrySlug(p);
          var post := GetPost(slug);
          TakeEntry(paths, i, posts, post.value);
          posts := posts + [post.value];
        } else {
          SkipEntry(paths, i, posts);
        }
        i := i + 1;
      }
      assert paths[..i] == paths;
      r := Ok(posts);
    }

    /** The facts `ListPosts` keeps after the first `i` entries of the listing `paths`:
        every post is the read of a post file listed so far, every `.mdx` entry so far
        was read, and no path twice. */
    ghost predicate Gathered(paths: seq<string>, i: nat, posts: seq<RemotePost>)
      reads this`files
      requires i <= |paths|
    {
      && (forall k :: 0 <= k < |posts| ==> PostFile(files, PostPath(posts[k].slug)) && posts[k] == Read(posts[k].slug))
      && (forall k :: 0 <= k < |posts| ==> Paths(posts)[k] in paths[..i])
      && (forall m :: 0 <= m < i && EndsWith(paths[m], ".mdx") ==> paths[m] in Paths(posts))
      && Distinct(Paths(posts))
    }

    /** A step of `ListPosts` past an entry that is not `.mdx`. */
    lemma SkipEntry(paths: seq<string>, i: nat, posts: seq<RemotePost>)
      requires i < |paths| && !EndsWith(paths[i], ".mdx")
      requires Gathered(paths, i, posts)
      ensures Gathered(paths, i + 1, posts)
    {
      assert paths[..i + 1] == paths[..i] + [paths[i]];
    }

    /** One `.mdx` step of `ListPosts`: appending the post read for entry `i` keeps
        the loop's facts, now up to `i + 1`. */
    lemma TakeEntry(paths: seq<string>, i: nat, posts: seq<RemotePost>, post: RemotePost)
      requires i < |paths| && Distinct(paths) && PostFile(files, paths[i])
      requires post == Read(EntrySlug(paths[i]))
      requires Gathered(paths, i, posts)
      ensures Gathered(paths, i + 1, posts + [post])
      ensures GetReqs(Paths(posts + [post])) == GetReqs(Paths(posts)) + [GetReq(paths[i])]
    {
      PathsSnoc(posts, post);
      GetReqsSnoc(Paths(posts), paths[i]);
      NewEntryDistinct(paths, i, Paths(posts));
    }

    // ----- projects -----

    /** `listProjects`: a GET of the projects file, then the API reader. */
    method ListProjects() returns (r: Result<(seq<Project>, nat), ApiError>)
      modifies this`requests
      ensures requests == old(requests) + [GetReq(ProjectsFile)]
      ensures ProjectsFile !in files ==> r == Err(Missing)
      ensures ProjectsFile in files ==>
        match ReadApi(parse, files[ProjectsFile].content)
        case Err(e) => r == Err(ProjectsFailed(e))
        case Ok(ps) => r == Ok((ps, files[ProjectsFile].sha))
    {
      var b := Fetch(ProjectsFile);
      if b.Err? {
        return Err(b.error);
      }
      var ps := ReadApi(parse, b.value.content);
      if ps.Err? {
        return Err(ProjectsFailed(ps.error));
      }
      r := Ok((ps.value, b.value.sha));
    }

    /** `writeProjects`: the regenerated file, PUT with the sha the listing returned. */
    method WriteProjects(ps: seq<Project>, sha: nat, message: string) returns (r: Result<(), ApiError>)
      requires Valid()
      modifies this
      ensures Valid()
      ensures requests == old(requests) + [PutReq(ProjectsFile, ProjectsFileText(ps), Some(sha), message)]
      ensures Accepts(old(files), ProjectsFile, Some(sha)) ==>
        r == Ok(()) && files == old(files)[ProjectsFile := Stored(hash, ProjectsFileText(ps))]
      ensures !Accepts(old(files), ProjectsFile, Some(sha)) ==> r == Err(Conflict) && files == old(files)
    {
      var text := ProjectCodec.WriteProjects(ApiWriter, ps);
      ApiWriterTotal(ps);
      r := Put(ProjectsFile, text.value, Some(sha), message);
    }

    /** POST /api/projects: the request body is pushed as it is, with no title check. */
    method CreateProject(body: Project) returns (r: Result<Project, ApiError>)
      requires Valid()
      modifies this
      ensures Valid()
      ensures ProjectsFile !in old(files) ==>
        r == Err(Missing) && files == old(files) && requests == old(requests) + [GetReq(ProjectsFile)]
      ensures ProjectsFile in old(files) && ReadApi(parse, old(files)[ProjectsFile].content).Err? ==>
        r == Err(ProjectsFailed(ReadApi(parse, old(files)[ProjectsFile].content).error)) && files == old(files) &&
        requests == old(requests) + [GetReq(ProjectsFile)]
      ensures ProjectsFile in old(files) && ReadApi(parse, old(files)[ProjectsFile].content).Ok? ==>
        var ps := ReadApi(parse, old(files)[ProjectsFile].content).value;
        var text := ProjectsFileText(ps + [body]);
        r == Ok(body) && files == old(files)[ProjectsFile := Stored(hash, text)] &&
        requests == old(requests) + [GetReq(ProjectsFile),
                                     PutReq(ProjectsFile, text, Some(old(files)[ProjectsFile].sha), "Create project: " + Shown(body.title))]
    {
      var listed := ListProjects();
      if listed.Err? {
        return Err(listed.error);
      }
      var (projects, sha) := listed.value;
      projects := projects + [body];
      // The sha was just read, so the PUT is accepted.
      var _ := WriteProjects(projects, sha, "Create project: " + Shown(body.title));
      r := Ok(body);
    }

    /** PUT /api/projects/<title>: 404 and no write without a match; otherwise the first
        match is replaced by its merge, the file PUT with the listing's sha. */
    method UpdateProject(title: string, u: Project) returns (r: Result<Project, ApiError>)
      requires Valid()
      modifies this
      ensures Valid()
      ensures ProjectsFile !in old(files) ==>
        r == Err(Missing) && files == old(files) && requests == old(requests) + [GetReq(ProjectsFile)]
      ensures ProjectsFile in old(files) && ReadApi(parse, old(files)[ProjectsFile].content).Err? ==>
        r == Err(ProjectsFailed(ReadApi(parse, old(files)[ProjectsFile].content).error)) && files == old(files) &&
        requests == old(requests) + [GetReq(ProjectsFile)]
      ensures ProjectsFile in old(files) && ReadApi(parse, old(files)[ProjectsFile].content).Ok? ==>
        var ps := ReadApi(parse, old(files)[ProjectsFile].content).value;
        match Update(ps, title, u)
        case Err(e) => r == Err(ProjectsFailed(e)) && files == old(files) && requests == old(requests) + [GetReq(ProjectsFile)]
        case Ok((ps', rec)) =>
          r == Ok(rec) && files == old(files)[ProjectsFile := Stored(hash, ProjectsFileText(ps'))] &&
          requests == old(requests) + [GetReq(ProjectsFile),
                                       PutReq(ProjectsFile, ProjectsFileText(ps'), Some(old(files)[ProjectsFile].sha), "Update project: " + title)]
    {
      var listed := ListProjects();
      if listed.Err? {
        return Err(listed.error);
      }
      var (projects, sha) := listed.value;
      var idx := FindIndex(projects, title);
      if idx.None? {
        return Err(ProjectsFailed(NotFound(title)));
      }
      projects := projects[idx.value := ProjectList.Merge(projects[idx.value], u)];
      var _ := WriteProjects(projects, sha, "Update project: " + title);
      r := Ok(projects[idx.value]);
    }

    /** DELETE /api/projects/<title>: 404 and no write without a match; otherwise the
        first match is spliced out. */
    method DeleteProject(title: string) returns (r: Result<(), ApiError>)
      requires Valid()
      modifies this
      ensures Valid()
      ensures ProjectsFile !in old(files) ==>
        r == Err(Missing) && files == old(files) && requests == old(requests) + [GetReq(ProjectsFile)]
      ensures ProjectsFile in old(files) && ReadApi(parse, old(files)[ProjectsFile].content).Err? ==>
        r == Err(ProjectsFailed(ReadApi(parse, old(files)[ProjectsFile].content).error)) && files == old(files) &&
        requests == old(requests) + [GetReq(ProjectsFile)]
      ensures ProjectsFile in old(files) && ReadApi(parse, old(files)[ProjectsFile].content).Ok? ==>
        var ps := ReadApi(parse, old(files)[ProjectsFile].content).value;
        match Delete(ps, title)
        case Err(e) => r == Err(ProjectsFailed(e)) && files == old(files) && requests == old(requests) + [GetReq(ProjectsFile)]
        case Ok(ps') =>
          r == Ok(()) && files == old(files)[ProjectsFile := Stored(hash, ProjectsFileText(ps'))] &&
          requests == old(requests) + [GetReq(ProjectsFile),
                                       PutReq(ProjectsFile, ProjectsFileText(ps'), Some(old(files)[ProjectsFile].sha), "Delete project: " + title)]
    {
      var listed := ListProjects();
      if listed.Err? {
        return Err(listed.error);
      }
      var (projects, sha) := listed.value;
      var idx := FindIndex(projects, title);
      if idx.None? {
        return Err(ProjectsFailed(NotFound(title)));
      }
      projects := projects[..idx.value] + projects[idx.value + 1..];
      r := WriteProjects(projects, sha, "Delete project: " + title);
    }
  }

  /** A path somewhere below `dir`. */
  predicate Under(dir: string, p: string) {
    |p| > |dir| + 1 && p[..|dir| + 1] == dir + "/"
  }

  /** A path directly inside `dir`. */
  predicate InDir(dir: string, p: string) {
    Under(dir, p) && '/' !in p[|dir| + 1..]
  }

  /** No file lies below `dir`, so the repository has no such directory. */
  predicate DirAbsent(files: map<string, Blob>, dir: string) {
    forall p :: p in files ==> !Under(dir, p)
  }

  /** A `.mdx` file directly inside the posts directory. */
  predicate PostFile(files: map<string, Blob>, p: string) {
    p in files && InDir(PostsDir, p) && EndsWith(p, ".mdx")
  }

  /** The slug of a `.mdx` entry of the posts directory: its name without `.mdx`. */
  function EntrySlug(p: string): (slug: string)
    requires EndsWith(p, ".mdx")
    requires InDir(PostsDir, p)
    ensures PostPath(slug) == p
  {
    var name := p[|PostsDir| + 1..];
    assert |name| >= 4 by {
      assert p[|p| - 4..][0] == '.';
      assert p[|PostsDir|] == '/';
    }
    var slug := name[..|name| - 4];
    assert p == PostsDir + "/" + name;
    slug
  }

  /** The paths of a list of posts, in order. */
  function Paths(posts: seq<RemotePost>): (r: seq<string>)
    ensures |r| == |posts|
    ensures forall k :: 0 <= k < |posts| ==> r[k] == PostPath(posts[k].slug)
  {
    seq(|posts|, k requires 0 <= k < |posts| => PostPath(posts[k].slug))
  }

  /** One GET per path, in order. */
  function GetReqs(paths: seq<string>): (r: seq<Request>)
    ensures |r| == |paths|
    ensures forall k :: 0 <= k < |paths| ==> r[k] == GetReq(paths[k])
  {
    seq(|paths|, k requires 0 <= k < |paths| => GetReq(paths[k]))
  }

  lemma GetReqsSnoc(paths: seq<string>, p: string)
    ensures GetReqs(paths + [p]) == GetReqs(paths) + [GetReq(p)]
  {
  }

  /** Taking entry `i` of a listing without repeats, after entries taken only from
      before it, keeps the taken entries distinct and drawn from the listing so far. */
  lemma NewEntryDistinct(paths: seq<string>, i: nat, ps: seq<string>)
    requires i < |paths| && Distinct(paths) && Distinct(ps)
    requires forall k :: 0 <= k < |ps| ==> ps[k] in paths[..i]
    ensures Distinct(ps + [paths[i]])
    ensures forall k :: 0 <= k < |ps| + 1 ==> (ps + [paths[i]])[k] in paths[..i + 1]
  {
    assert paths[..i + 1] == paths[..i] + [paths[i]];
    assert paths[i] !in paths[..i];
  }

  lemma PathsSnoc(posts: seq<RemotePost>, p: RemotePost)
    ensures Paths(posts + [p]) == Paths(posts) + [PostPath(p.slug)]
  {
  }

  /** After an accepted write that changes the file's hash, a second write naming the sha
      read before the first one is refused: the optimistic check at work. */
  lemma StaleShaRefused(files: map<string, Blob>, hash: string -> nat, path: string, content: string, sha: nat)
    requires ShasMatch(files, hash)
    requires Accepts(files, path, Some(sha))
    requires hash(content) != hash(files[path].content)
    ensures !Accepts(files[path := Stored(hash, content)], path, Some(sha))
    ensures ShasMatch(files[path := Stored(hash, content)], hash)
  {
  }

  /** A write that leaves the content as it was leaves the sha as it was, so a second
      writer still holding the sha read before it is accepted, not refused. */
  lemma SameContentKeepsSha(files: map<string, Blob>, hash: string -> nat, path: string, sha: nat)
    requires ShasMatch(files, hash)
    requires Accepts(files, path, Some(sha))
    ensures Accepts(files[path := Stored(hash, files[path].content)], path, Some(sha))
    ensures files[path := Stored(hash, files[path].content)] == files
  {
  }

  /** Creating a file over an existing one is refused. */
  lemma CreateOverExistingRefused(files: map<string, Blob>, path: string)
    requires path in files
    ensures !Accepts(files, path, None)
  {
  }
}
