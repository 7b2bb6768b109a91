/** The pure parts of the project initialisation script (scripts/init_project.py):
    stripping a typed answer, falling back to a default, falling back from the
    git identity to fixed placeholders, and rewriting the `project` table of
    pyproject.toml. Reading the terminal, running git and reading or writing
    the TOML file are left to the caller: their results are parameters here. */
module InitProject {
  import opened Wrappers

  // ------------------------------------------------------------------ strip

  /** Python's `str.isspace` for one character: the ASCII whitespace and
      separator controls, NEL, NBSP and the Unicode space separators. */
  predicate IsSpace(c: char)
  {
    var n := c as int;
    || n == 0x20
    || 0x09 <= n <= 0x0D
    || 0x1C <= n <= 0x1F
    || n == 0x85
    || n == 0xA0
    || n == 0x1680
    || 0x2000 <= n <= 0x200A
    || n == 0x2028
    || n == 0x2029
    || n == 0x202F
    || n == 0x205F
    || n == 0x3000
  }

  /** `s` holds a character that is not whitespace. */
  predicate HasVisible(s: string)
  {
    exists k :: 0 <= k < |s| && !IsSpace(s[k])
  }

  /** `r` is what remains of `s` once its leading and trailing whitespace is
      removed, and it starts at offset `i` of `s`. */
  ghost predicate StrippedAt(s: string, i: int, r: string)
  {
    && 0 <= i
    && i + |r| <= |s|
    && s[i .. i + |r|] == r
    && (forall k :: 0 <= k < i ==> IsSpace(s[k]))
    && (forall k :: i + |r| <= k < |s| ==> IsSpace(s[k]))
    && (|r| == 0 || (!IsSpace(r[0]) && !IsSpace(r[|r| - 1])))
  }

  function TrimStart(s: string): (r: string)
    ensures |r| <= |s|
    ensures r == s[|s| - |r| ..]
    ensures forall k :: 0 <= k < |s| - |r| ==> IsSpace(s[k])
    ensures |r| == 0 || !IsSpace(r[0])
  {
    if |s| > 0 && IsSpace(s[0]) then TrimStart(s[1..]) else s
  }

  function TrimEnd(s: string): (r: string)
    ensures |r| <= |s|
    ensures r == s[..|r|]
    ensures forall k :: |r| <= k < |s| ==> IsSpace(s[k])
    ensures |r| == 0 || !IsSpace(r[|r| - 1])
  {
    if |s| > 0 && IsSpace(s[|s| - 1]) then TrimEnd(s[..|s| - 1]) else s
  }

  /** `str.strip()` with no argument. */
  function Strip(s: string): (r: string)
    ensures exists i :: StrippedAt(s, i, r)
  {
    var front := TrimStart(s);
    var r := TrimEnd(front);
    assert StrippedAt(s, |s| - |front|, r);
    r
  }

  /** A stripped string is empty exactly when the original is all whitespace. */
  lemma StrippedEmptyIff(s: string, i: int, r: string)
    requires StrippedAt(s, i, r)
    ensures |r| == 0 <==> !HasVisible(s)
  {
    if |r| == 0 {
      assert forall k :: 0 <= k < |s| ==> IsSpace(s[k]);
    } else {
      assert s[i] == r[0];
    }
  }

  /** `Strip` returns the empty string exactly for all-whitespace strings. */
  lemma StripEmptyIff(s: string)
    ensures |Strip(s)| == 0 <==> !HasVisible(s)
  {
    var i :| StrippedAt(s, i, Strip(s));
    StrippedEmptyIff(s, i, Strip(s));
  }

  /** There is only one way to strip a string. */
  lemma StrippedUnique(s: string, i: int, r: string, j: int, u: string)
    requires StrippedAt(s, i, r)
    requires StrippedAt(s, j, u)
    ensures r == u
  {
    StrippedEmptyIff(s, i, r);
    StrippedEmptyIff(s, j, u);
    if |r| > 0 {
      assert s[i] == r[0];
      assert s[j] == u[0];
      assert i == j;
      assert s[i + |r| - 1] == r[|r| - 1];
      assert s[j + |u| - 1] == u[|u| - 1];
      assert |r| == |u|;
    }
  }

  /** `Strip` returns the one string that meets the description of stripping. */
  lemma StripCharacterized(s: string, i: int, r: string)
    requires StrippedAt(s, i, r)
    ensures Strip(s) == r
  {
    var j :| StrippedAt(s, j, Strip(s));
    StrippedUnique(s, i, r, j, Strip(s));
  }

  /** Stripping twice is stripping once. */
  lemma StripIdempotent(s: string)
    ensures Strip(Strip(s)) == Strip(s)
  {
    var r := Strip(s);
    assert r[0 .. |r|] == r;
    StripCharacterized(r, 0, r);
  }

  // ------------------------------------------------------- answers, defaults

  /** `prompt_with_default` once the terminal has returned the line `response`:
      the stripped response, or `default` when nothing visible was typed. */
  function PromptWithDefault(response: string, default: string): (answer: string)
    ensures HasVisible(response) ==> |answer| > 0 && exists i :: StrippedAt(response, i, answer)
    ensures !HasVisible(response) ==> answer == default
  {
    var stripped := Strip(response);
    StripEmptyIff(response);
    if stripped != "" then stripped else default
  }

  /** Typing the answer again at the same prompt gives the same answer, as
      long as the default itself has no surrounding whitespace. */
  lemma PromptAnswerStable(response: string, default: string)
    requires Strip(default) == default
    ensures PromptWithDefault(PromptWithDefault(response, default), default)
         == PromptWithDefault(response, default)
  {
    var answer := PromptWithDefault(response, default);
    if HasVisible(response) {
      var i :| StrippedAt(response, i, answer);
      StripCharacterized(response, i, answer);
      StripIdempotent(response);
      var j :| StrippedAt(answer, j, Strip(answer));
      StrippedEmptyIff(answer, j, Strip(answer));
    } else {
      var j :| StrippedAt(default, j, Strip(default));
      StrippedEmptyIff(default, j, Strip(default));
    }
  }

  const DefaultProjectName: string := "my-python-project"
  const DefaultDescription: string := "A Python project"
  const PlaceholderAuthorName: string := "Your Name"
  const PlaceholderAuthorEmail: string := "your.email@example.com"

  /** `get_git_config(key) or placeholder`. `gitOutput` is what
      `git config user.<key>` printed, or `None` when git exited with a
      non-zero status (`CalledProcessError`); the output is stripped, and
      `None` and the empty string both fall back. */
  function GitDefault(gitOutput: Option<string>, placeholder: string): (d: string)
    ensures gitOutput.Some? && HasVisible(gitOutput.value) ==>
      |d| > 0 && exists i :: StrippedAt(gitOutput.value, i, d)
    ensures gitOutput.None? || !HasVisible(gitOutput.value) ==> d == placeholder
  {
    match gitOutput
    case None => placeholder
    case Some(out) =>
      var value := Strip(out);
      StripEmptyIff(out);
      if value != "" then value else placeholder
  }

  /** The four lines typed at the prompts, as read, before stripping. */
  datatype Answers = Answers(name: string, description: string,
                             authorName: string, authorEmail: string)

  /** The project information the script goes on with. */
  datatype ProjectInfo = ProjectInfo(name: string, description: string,
                                     authorName: string, authorEmail: string)

  /** A string that is non-empty and neither starts nor ends with whitespace. */
  predicate Clean(s: string)
  {
    |s| > 0 && !IsSpace(s[0]) && !IsSpace(s[|s| - 1])
  }

  /** The clean strings are exactly the non-empty strings that stripping leaves
      unchanged. */
  lemma CleanIffStripFixed(s: string)
    ensures Clean(s) <==> |s| > 0 && Strip(s) == s
  {
    if Clean(s) {
      assert s[0 .. |s|] == s;
      StripCharacterized(s, 0, s);
    }
  }

  /** The defaults and placeholders of the script are clean. */
  lemma DefaultsAreClean()
    ensures Clean(DefaultProjectName) && Clean(DefaultDescription)
    ensures Clean(PlaceholderAuthorName) && Clean(PlaceholderAuthorEmail)
  {
  }

  lemma PromptIsClean(response: string, default: string)
    requires Clean(default)
    ensures Clean(PromptWithDefault(response, default))
  {
    var answer := PromptWithDefault(response, default);
    if HasVisible(response) {
      var i :| StrippedAt(response, i, answer);
    }
  }

  lemma GitDefaultIsClean(gitOutput: Option<string>, placeholder: string)
    requires Clean(placeholder)
    ensures Clean(GitDefault(gitOutput, placeholder))
  {
    var d := GitDefault(gitOutput, placeholder);
    if gitOutput.Some? && HasVisible(gitOutput.value) {
      var i :| StrippedAt(gitOutput.value, i, d);
    }
  }

  /** The four prompts of `main`, in order, with their defaults. Whatever is
      typed and whatever git reports, every collected field is non-empty and
      has no surrounding whitespace. */
  function CollectProjectInfo(answers: Answers, gitName: Option<string>,
                              gitEmail: Option<string>): (info: ProjectInfo)
    ensures Clean(info.name) && Clean(info.description)
    ensures Clean(info.authorName) && Clean(info.authorEmail)
  {
    var nameDefault := GitDefault(gitName, PlaceholderAuthorName);
    var emailDefault := GitDefault(gitEmail, PlaceholderAuthorEmail);
    DefaultsAreClean();
    GitDefaultIsClean(gitName, PlaceholderAuthorName);
    GitDefaultIsClean(gitEmail, PlaceholderAuthorEmail);
    PromptIsClean(answers.name, DefaultProjectName);
    PromptIsClean(answers.description, DefaultDescription);
    PromptIsClean(answers.authorName, nameDefault);
    PromptIsClean(answers.authorEmail, emailDefault);
    ProjectInfo(
      PromptWithDefault(answers.name, DefaultProjectName),
      PromptWithDefault(answers.description, DefaultDescription),
      PromptWithDefault(answers.authorName, nameDefault),
      PromptWithDefault(answers.authorEmail, emailDefault))
  }

  /** With blank answers and no usable git identity, the author is the fixed
      placeholder identity; with blank answers and a git identity, it is the
      stripped git identity. */
  lemma AuthorFallback(answers: Answers, gitName: Option<string>, gitEmail: Option<string>)
    requires !HasVisible(answers.authorName) && !HasVisible(answers.authorEmail)
    ensures var info := CollectProjectInfo(answers, gitName, gitEmail);
      && (gitName.None? || !HasVisible(gitName.value) ==> info.authorName == PlaceholderAuthorName)
      && (gitEmail.None? || !HasVisible(gitEmail.value) ==> info.authorEmail == PlaceholderAuthorEmail)
      && (gitName.Some? && HasVisible(gitName.value) ==> info.authorName == Strip(gitName.value))
      && (gitEmail.Some? && HasVisible(gitEmail.value) ==> info.authorEmail == Strip(gitEmail.value))
  {
    var info := CollectProjectInfo(answers, gitName, gitEmail);
    if gitName.Some? && HasVisible(gitName.value) {
      var i :| StrippedAt(gitName.value, i, info.authorName);
      StripCharacterized(gitName.value, i, info.authorName);
    }
    if gitEmail.Some? && HasVisible(gitEmail.value) {
      var i :| StrippedAt(gitEmail.value, i, info.authorEmail);
      StripCharacterized(gitEmail.value, i, info.authorEmail);
    }
  }

  // ------------------------------------------------------------ pyproject.toml

  /** A TOML value as `tomli` loads it (floats and dates are not modelled). */
  datatype TomlValue =
    | Str(s: string)
    | Int(i: int)
    | Bool(b: bool)
    | Array(items: seq<TomlValue>)
    | Table(entries: map<string, TomlValue>)

  /** The top-level table of a loaded TOML document. */
  type Document = map<string, TomlValue>

  /** The exceptions the update raises before it writes anything. */
  datatype UpdateError =
    | KeyError(key: string)   // the document has no `project` table
    | TypeError               // `project` is not a table, so item assignment fails

  /** The authors entry the update writes: a one-element array of one inline
      table with a name and an email. */
  function AuthorsEntry(authorName: string, authorEmail: string): TomlValue
  {
    Array([Table(map["name" := Str(authorName), "email" := Str(authorEmail)])])
  }

  /** `update_pyproject_toml` between loading and dumping the document:
      overwrites `name`, `description` and `authors` in the `project` table.
      On failure the file is not rewritten. */
  function UpdatePyproject(doc: Document, projectName: string, description: string,
                           authorName: string, authorEmail: string): (r: Result<Document, UpdateError>)
    ensures "project" !in doc ==> r == Failure(KeyError("project"))
    ensures "project" in doc && !doc["project"].Table? ==> r == Failure(TypeError)
    ensures r.Success? <==> "project" in doc && doc["project"].Table?
    ensures r.Success? ==> r.value.Keys == doc.Keys
    ensures r.Success? ==> forall k :: k in doc && k != "project" ==> r.value[k] == doc[k]
    ensures r.Success? ==> r.value["project"].Table?
    ensures r.Success? ==> var project := r.value["project"].entries;
      && project.Keys == doc["project"].entries.Keys + {"name", "description", "authors"}
      && project["name"] == Str(projectName)
      && project["description"] == Str(description)
      && project["authors"].Array?
      && |project["authors"].items| == 1
      && project["authors"].items[0] == Table(map["name" := Str(authorName), "email" := Str(authorEmail)])
      && forall k :: k in doc["project"].entries && k !in {"name", "description", "authors"} ==>
           project[k] == doc["project"].entries[k]
  {
    if "project" !in doc then Failure(KeyError("project"))
    else match doc["project"]
      case Table(project) =>
        Success(doc["project" := Table(project["name" := Str(projectName)]
                                             ["description" := Str(description)]
                                             ["authors" := AuthorsEntry(authorName, authorEmail)])])
      case _ => Failure(TypeError)
  }

  /** Running the update a second time with the same arguments changes nothing. */
  lemma UpdateIdempotent(doc: Document, projectName: string, description: string,
                         authorName: string, authorEmail: string)
    requires UpdatePyproject(doc, projectName, description, authorName, authorEmail).Success?
    ensures var once := UpdatePyproject(doc, projectName, description, authorName, authorEmail).value;
      UpdatePyproject(once, projectName, description, authorName, authorEmail) == Success(once)
  {
    var once := UpdatePyproject(doc, projectName, description, authorName, authorEmail).value;
    var project := once["project"].entries;
    var again := project["name" := Str(projectName)]
                        ["description" := Str(description)]
                        ["authors" := AuthorsEntry(authorName, authorEmail)];
    assert again == project;
    assert once["project" := Table(again)] == once;
  }

  /** The result does not depend on the previous name, description or authors:
      two documents that differ only there update to the same document. */
  lemma UpdateForgetsOldFields(doc1: Document, doc2: Document, projectName: string,
                               description: string, authorName: string, authorEmail: string)
    requires "project" in doc1 && doc1["project"].Table?
    requires "project" in doc2 && doc2["project"].Table?
    requires doc1.Keys == doc2.Keys
    requires forall k :: k in doc1 && k != "project" ==> doc1[k] == doc2[k]
    requires doc1["project"].entries - {"name", "description", "authors"}
          == doc2["project"].entries - {"name", "description", "authors"}
    ensures UpdatePyproject(doc1, projectName, description, authorName, authorEmail)
         == UpdatePyproject(doc2, projectName, description, authorName, authorEmail)
  {
    var r1 := UpdatePyproject(doc1, projectName, description, authorName, authorEmail).value;
    var r2 := UpdatePyproject(doc2, projectName, description, authorName, authorEmail).value;
    var p1 := r1["project"].entries;
    var p2 := r2["project"].entries;
    var old1 := doc1["project"].entries;
    var old2 := doc2["project"].entries;
    forall k | k in p1
      ensures k in p2 && p1[k] == p2[k]
    {
      if k !in {"name", "description", "authors"} {
        assert k in old1 - {"name", "description", "authors"};
        assert old1[k] == (old1 - {"name", "description", "authors"})[k];
      }
    }
    forall k | k in p2
      ensures k in p1
    {
      if k !in {"name", "description", "authors"} {
        assert k in old2 - {"name", "description", "authors"};
      }
    }
    assert p1 == p2;
    assert r1 == r2;
  }
}
