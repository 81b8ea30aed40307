/**
 * The project list behind the portfolio's project cards: the `Project` record
 * of src/types.ts and the list edits that create, update and delete records
 * (src/project-tools.ts and the project branches of the API handler in
 * api/portfolio.ts). Every edit reads the whole list, changes one record and
 * hands the whole list to a writer.
 */
module ProjectList {
  import opened Wrappers

  /** A project card. Records come from `JSON.parse` or from a request body, so
      any field may be missing (`None`); all fields the model keeps are strings. */
  datatype Project = Project(
    title: Option<string>,
    description: Option<string>,
    imgSrc: Option<string>,
    href: Option<string>,
    github: Option<string>,
    tech1: Option<string>,
    tech2: Option<string>,
    tech3: Option<string>)

  datatype ProjectError =
    | TitleRequired
    | DescriptionRequired
    | ImgSrcRequired
    | HrefRequired
    | AlreadyExists(title: string)
    | NotFound(title: string)
    | FileNotFound
    | InvalidFormat
    | ParseFailed
    | MissingField(field: string)

  /** JavaScript truthiness of an optional string field. */
  predicate Truthy(f: Option<string>) {
    f.Some? && f.value != ""
  }

  /** An update that carries no field. */
  const NoChanges := Project(None, None, None, None, None, None, None, None)

  function Override(old_: Option<string>, new_: Option<string>): Option<string> {
    if new_.Some? then new_ else old_
  }

  /** `{ ...p, ...u }`: every field `u` carries replaces the one in `p`. */
  function Merge(p: Project, u: Project): Project {
    Project(
      Override(p.title, u.title),
      Override(p.description, u.description),
      Override(p.imgSrc, u.imgSrc),
      Override(p.href, u.href),
      Override(p.github, u.github),
      Override(p.tech1, u.tech1),
      Override(p.tech2, u.tech2),
      Override(p.tech3, u.tech3))
  }

  /** The four checks of `createProject`, in their order: the first failing one is reported. */
  function Validate(p: Project): Option<ProjectError> {
    if !Truthy(p.title) then Some(TitleRequired)
    else if !Truthy(p.description) then Some(DescriptionRequired)
    else if !Truthy(p.imgSrc) then Some(ImgSrcRequired)
    else if !Truthy(p.href) then Some(HrefRequired)
    else None
  }

  /** `findIndex(p => p.title === title)`: the first record with that title. */
  function FindIndex(ps: seq<Project>, title: string): (r: Option<nat>)
    ensures r.Some? ==> r.value < |ps| && ps[r.value].title == Some(title)
    ensures r.Some? ==> forall j :: 0 <= j < r.value ==> ps[j].title != Some(title)
    ensures r.None? ==> forall j :: 0 <= j < |ps| ==> ps[j].title != Some(title)
  {
    if ps == [] then None
    else if ps[0].title == Some(title) then Some(0)
    else match FindIndex(ps[1..], title)
      case None => None
      case Some(i) => Some(i + 1)
  }

  /** No two records share a title. */
  predicate UniqueTitles(ps: seq<Project>) {
    forall i, j :: 0 <= i < j < |ps| && ps[i].title.Some? ==> ps[i].title != ps[j].title
  }

  /** The list part of `createProject`: refuse a title already present, otherwise append. */
  function Add(ps: seq<Project>, p: Project): Result<seq<Project>, ProjectError>
    requires p.title.Some?
  {
    if FindIndex(ps, p.title.value).Some? then Err(AlreadyExists(p.title.value)) else Ok(ps + [p])
  }

  /** The list part of `updateProject` and of the API's PUT: the first match is
      replaced by its merge with the update; the merged record is returned. */
  function Update(ps: seq<Project>, title: string, u: Project): Result<(seq<Project>, Project), ProjectError> {
    match FindIndex(ps, title)
    case None => Err(NotFound(title))
    case Some(i) => Ok((ps[i := Merge(ps[i], u)], Merge(ps[i], u)))
  }

  /** The list part of `deleteProject` and of the API's DELETE: `splice(index, 1)` at the first match. */
  function Delete(ps: seq<Project>, title: string): Result<seq<Project>, ProjectError> {
    match FindIndex(ps, title)
    case None => Err(NotFound(title))
    case Some(i) => Ok(ps[..i] + ps[i + 1..])
  }

  // ----- the merge -----

  /** An empty update changes nothing. */
  lemma MergeNoChanges(p: Project)
    ensures Merge(p, NoChanges) == p
  {
  }

  /** Applying the same update twice is applying it once. */
  lemma MergeIdempotent(p: Project, u: Project)
    ensures Merge(Merge(p, u), u) == Merge(p, u)
  {
  }

  /** Two updates in a row are one update by their own merge. */
  lemma MergeAssociative(p: Project, u: Project, v: Project)
    ensures Merge(Merge(p, u), v) == Merge(p, Merge(u, v))
  {
  }

  // ----- validation -----

  /** A project passes validation exactly when all four required fields are truthy. */
  lemma ValidateIff(p: Project)
    ensures Validate(p).None? <==> Truthy(p.title) && Truthy(p.description) && Truthy(p.imgSrc) && Truthy(p.href)
  {
  }

  /** Of several missing fields the one checked first is reported. */
  lemma ValidateReportsTitleFirst(p: Project)
    requires !Truthy(p.title)
    ensures Validate(p) == Some(TitleRequired)
  {
  }

  // ----- create -----

  /** A create either refuses a present title or appends the record last, found there by its title. */
  lemma AddAppends(ps: seq<Project>, p: Project)
    requires p.title.Some?
    ensures Add(ps, p).Err? <==> exists j :: 0 <= j < |ps| && ps[j].title == p.title
    ensures Add(ps, p).Ok? ==> Add(ps, p).value == ps + [p] && FindIndex(Add(ps, p).value, p.title.value) == Some(|ps|)
  {
    if Add(ps, p).Ok? {
      var r := ps + [p];
      FindIndexAppend(ps, p);
    }
  }

  lemma {:induction false} FindIndexAppend(ps: seq<Project>, p: Project)
    requires p.title.Some?
    requires FindIndex(ps, p.title.value).None?
    ensures FindIndex(ps + [p], p.title.value) == Some(|ps|)
    decreases |ps|
  {
    if ps != [] {
      assert (ps + [p])[1..] == ps[1..] + [p];
      FindIndexAppend(ps[1..], p);
    }
  }

  /** A create keeps titles unique. */
  lemma AddKeepsUnique(ps: seq<Project>, p: Project)
    requires p.title.Some?
    requires UniqueTitles(ps)
    requires Add(ps, p).Ok?
    ensures UniqueTitles(Add(ps, p).value)
  {
    var r := ps + [p];
    forall i, j | 0 <= i < j < |r| && r[i].title.Some? ensures r[i].title != r[j].title {
      if j == |ps| {
        assert r[i] == ps[i];
      }
    }
  }

  /** The API's POST appends without looking for the title, so it can add a second
      record with a title already present. */
  lemma ApiCreateAllowsDuplicate()
    ensures var a := Project(Some("a"), None, None, None, None, None, None, None);
            UniqueTitles([a]) && !UniqueTitles([a] + [a])
  {
    var a := Project(Some("a"), None, None, None, None, None, None, None);
    var r := [a] + [a];
    assert r[0].title == r[1].title;
  }

  // ----- update -----

  /** An update keeps the length, replaces exactly the first match by its merge,
      leaves every other record alone, and returns the new record. */
  lemma UpdateShape(ps: seq<Project>, title: string, u: Project)
    ensures Update(ps, title, u).Err? <==> forall j :: 0 <= j < |ps| ==> ps[j].title != Some(title)
    ensures Update(ps, title, u).Ok? ==>
      var (r, rec) := Update(ps, title, u).value;
      var i := FindIndex(ps, title).value;
      |r| == |ps| && rec == Merge(ps[i], u) && r[i] == rec &&
      (forall j :: 0 <= j < |ps| && j != i ==> r[j] == ps[j])
  {
  }

  /** An update that does not rename keeps the record findable at the same place. */
  lemma UpdateKeepsPlace(ps: seq<Project>, title: string, u: Project)
    requires u.title.None? || u.title == Some(title)
    requires Update(ps, title, u).Ok?
    ensures FindIndex(Update(ps, title, u).value.0, title) == FindIndex(ps, title)
  {
    var i := FindIndex(ps, title).value;
    var r := Update(ps, title, u).value.0;
    FindIndexAt(r, title, i);
  }

  lemma {:induction false} FindIndexAt(ps: seq<Project>, title: string, i: nat)
    requires i < |ps| && ps[i].title == Some(title)
    requires forall j :: 0 <= j < i ==> ps[j].title != Some(title)
    ensures FindIndex(ps, title) == Some(i)
    decreases i
  {
    if i > 0 {
      FindIndexAt(ps[1..], title, i - 1);
    }
  }

  /** An update does not look for title collisions: renaming a record to another
      record's title leaves two records with that title. */
  lemma UpdateCanBreakUniqueness()
    ensures var a := Project(Some("a"), None, None, None, None, None, None, None);
            var b := Project(Some("b"), None, None, None, None, None, None, None);
            var u := Project(Some("a"), None, None, None, None, None, None, None);
            UniqueTitles([a, b]) && Update([a, b], "b", u).Ok? && !UniqueTitles(Update([a, b], "b", u).value.0)
  {
    var a := Project(Some("a"), None, None, None, None, None, None, None);
    var b := Project(Some("b"), None, None, None, None, None, None, None);
    var u := Project(Some("a"), None, None, None, None, None, None, None);
    FindIndexAt([a, b], "b", 1);
    var r := Update([a, b], "b", u).value.0;
    assert r == [a, Merge(b, u)];
    assert r[0].title == r[1].title;
  }

  // ----- delete -----

  /** A delete removes exactly the first match and keeps the others in their order. */
  lemma DeleteShape(ps: seq<Project>, title: string)
    ensures Delete(ps, title).Err? <==> forall j :: 0 <= j < |ps| ==> ps[j].title != Some(title)
    ensures Delete(ps, title).Ok? ==>
      var r := Delete(ps, title).value;
      var i := FindIndex(ps, title).value;
      |r| == |ps| - 1 &&
      (forall j :: 0 <= j < i ==> r[j] == ps[j]) &&
      (forall j :: i <= j < |r| ==> r[j] == ps[j + 1]) &&
      multiset(r) + multiset{ps[i]} == multiset(ps)
  {
    if Delete(ps, title).Ok? {
      var i := FindIndex(ps, title).value;
      assert ps == ps[..i] + [ps[i]] + ps[i + 1..];
    }
  }

  /** A delete keeps titles unique, and then the title is gone. */
  lemma DeleteKeepsUnique(ps: seq<Project>, title: string)
    requires UniqueTitles(ps)
    requires Delete(ps, title).Ok?
    ensures UniqueTitles(Delete(ps, title).value)
    ensures FindIndex(Delete(ps, title).value, title).None?
  {
    var i := FindIndex(ps, title).value;
    var r := Delete(ps, title).value;
    DeleteShape(ps, title);
    forall a, b | 0 <= a < b < |r| && r[a].title.Some? ensures r[a].title != r[b].title {
      var a' := if a < i then a else a + 1;
      var b' := if b < i then b else b + 1;
      assert r[a] == ps[a'] && r[b] == ps[b'];
    }
    forall j | 0 <= j < |r| ensures r[j].title != Some(title) {
      var j' := if j < i then j else j + 1;
      assert r[j] == ps[j'];
    }
  }
}
