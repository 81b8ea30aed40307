/**
 * `ProjectTools` of src/project-tools.ts: the project list kept in one local
 * file. Every edit lists the file, changes the list in place and regenerates
 * the whole file with the local writer.
 */
module ProjectTools {
  import opened Wrappers
  import opened ProjectList
  import opened ProjectCodec
  import opened ProjectRead

  /** What `listProjects` yields for a file state: `FileNotFound` without a file,
      otherwise what `parseProjectsFile` makes of its text. */
  function Listing(parse: string -> Option<seq<Project>>, file: Option<string>): Result<seq<Project>, ProjectError> {
    if file.None? then Err(FileNotFound) else ReadLocal(parse, file.value)
  }

  class Tools {
    /** The projects file; `None` when it does not exist. */
    var file: Option<string>
    /** `JSON.parse`, restricted to texts that denote a list of projects. */
    const parse: string -> Option<seq<Project>>

    constructor(file0: Option<string>, parse: string -> Option<seq<Project>>)
      ensures file == file0 && this.parse == parse
    {
      file := file0;
      this.parse := parse;
    }

    function Listed(): Result<seq<Project>, ProjectError>
      reads this
    {
      Listing(parse, file)
    }

    /** `listProjects`: reads and decodes the file; nothing changes. */
    method ListProjects() returns (r: Result<seq<Project>, ProjectError>)
      ensures r == Listed()
      ensures r == Err(FileNotFound) <==> file.None?
    {
      if file.None? {
        return Err(FileNotFound);
      }
      r := ReadLocal(parse, file.value);
    }

    /** `writeProjectsFile`: the file becomes the regenerated text, unless a record lacks
        a required field, in which case the writer throws before the file is touched. */
    method WriteProjectsFile(ps: seq<Project>) returns (r: Result<(), ProjectError>)
      modifies this
      ensures ProjectsText(FileWriter, ps).Ok? ==> r == Ok(()) && file == Some(ProjectsText(FileWriter, ps).value)
      ensures ProjectsText(FileWriter, ps).Err? ==> r == Err(ProjectsText(FileWriter, ps).error) && file == old(file)
    {
      var text := WriteProjects(FileWriter, ps);
      if text.Err? {
        return Err(text.error);
      }
      file := Some(text.value);
      r := Ok(());
    }

    /** `createProject`: the four field checks, then the duplicate check, then the
        project is pushed onto the list and the file rewritten. */
    method CreateProject(p: Project) returns (r: Result<Project, ProjectError>)
      modifies this
      ensures Validate(p).Some? ==> r == Err(Validate(p).value) && file == old(file)
      ensures Validate(p).None? && old(Listed()).Err? ==> r == Err(old(Listed()).error) && file == old(file)
      ensures Validate(p).None? && old(Listed()).Ok? ==>
        match Add(old(Listed()).value, p)
        case Err(e) => r == Err(e) && file == old(file)
        case Ok(ps) =>
          match ProjectsText(FileWriter, ps)
          case Err(e) => r == Err(e) && file == old(file)
          case Ok(t) => r == Ok(p) && file == Some(t)
    {
      var invalid := Validate(p);
      if invalid.Some? {
        return Err(invalid.value);
      }
      var listed := ListProjects();
      if listed.Err? {
        return Err(listed.error);
      }
      var projects := listed.value;
      if FindIndex(projects, p.title.value).Some? {
        return Err(AlreadyExists(p.title.value));
      }
      projects := projects + [p];
      var written := WriteProjectsFile(projects);
      if written.Err? {
        return Err(written.error);
      }
      r := Ok(p);
    }

    /** `updateProject`: the first record with the title is replaced, in place, by its
        merge with the updates; the file is rewritten and the merged record returned. */
    method UpdateProject(title: string, u: Project) returns (r: Result<Project, ProjectError>)
      modifies this
      ensures old(Listed()).Err? ==> r == Err(old(Listed()).error) && file == old(file)
      ensures old(Listed()).Ok? ==>
        match Update(old(Listed()).value, title, u)
        case Err(e) => r == Err(e) && file == old(file)
        case Ok((ps, rec)) =>
          match ProjectsText(FileWriter, ps)
          case Err(e) => r == Err(e) && file == old(file)
          case Ok(t) => r == Ok(rec) && file == Some(t)
    {
      var listed := ListProjects();
      if listed.Err? {
        return Err(listed.error);
      }
      var projects := listed.value;
      var index := FindIndex(projects, title);
      if index.None? {
        return Err(NotFound(title));
      }
      var updated := Merge(projects[index.value], u);
      projects := projects[index.value := updated];
      var written := WriteProjectsFile(projects);
      if written.Err? {
        return Err(written.error);
      }
      r := Ok(updated);
    }

    /** `deleteProject`: the first record with the title is spliced out and the file rewritten. */
    method DeleteProject(title: string) returns (r: Result<(), ProjectError>)
      modifies this
      ensures old(Listed()).Err? ==> r == Err(old(Listed()).error) && file == old(file)
      ensures old(Listed()).Ok? ==>
        match Delete(old(Listed()).value, title)
        case Err(e) => r == Err(e) && file == old(file)
        case Ok(ps) =>
          match ProjectsText(FileWriter, ps)
          case Err(e) => r == Err(e) && file == old(file)
          case Ok(t) => r == Ok(()) && file == Some(t)
    {
      var listed := ListProjects();
      if listed.Err? {
        return Err(listed.error);
      }
      var projects := listed.value;
      var index := FindIndex(projects, title);
      if index.None? {
        return Err(NotFound(title));
      }
      projects := projects[..index.value] + projects[index.value + 1..];
      r := WriteProjectsFile(projects);
    }
  }

  /** A create that passes validation writes the old list with the project appended,
      and the project's fields satisfy the writer, so only an old record can make it fail. */
  lemma CreateWritesAppended(ps: seq<Project>, p: Project)
    requires Validate(p).None?
    requires Add(ps, p).Ok?
    ensures Add(ps, p).value == ps + [p]
    ensures Fields(FileWriter, p).Ok?
    ensures RecordTexts(FileWriter, ps).Ok? ==> ProjectsText(FileWriter, ps + [p]).Ok?
  {
    ValidateIff(p);
    FieldsFailIff(FileWriter, p);
    var q := ps + [p];
    assert q[..|q| - 1] == ps;
  }
}
