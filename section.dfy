/** A section of the site: the `_index.md` document of one content folder,
    with the pages and subsections found under that folder. */
module Sections {
  import opened Wrappers
  import opened Paths

  /** The front matter keys a section reads; the other keys of a front
      matter block are not part of this model. */
  datatype FrontMatter = FrontMatter(
    title: Option<string>,
    description: Option<string>,
    template: Option<string>)

  /** A page of the site. A section only ever reads its file path; `rest`
      stands for everything else a page holds, which is opaque here. */
  datatype Page = Page(filePath: FilePath, rest: seq<string>)

  /** Errors: one raised by a collaborator (front matter parser, file
      reader, template engine), or a render error wrapped with the path of
      the section being rendered. */
  datatype Error =
    | Raised(message: string)
    | RenderFailed(filePath: FilePath, cause: Error)

  /** The site configuration, as far as a section uses it: the rule that
      turns a URL path into a permalink. */
  datatype Config = Config(makePermalink: string -> string)

  /** `front_matter::split_content`: the front matter and the body of a
      document, or the error of a malformed front matter block. */
  type SplitContent = (FilePath, string) -> Result<(FrontMatter, string), Error>

  /** `utils::find_content_components`: the folder names from the content
      folder down to the folder holding the file. */
  type FindContentComponents = FilePath -> seq<string>

  /** `utils::read_file`: the text of a file, or an I/O error. */
  type ReadFile = FilePath -> Result<string, Error>

  datatype Section = Section(
    filePath: FilePath,           // the `_index.md` file
    relativePath: string,         // that file, from the content folder, with `/`
    parentPath: FilePath,         // the folder holding the `_index.md` file
    components: seq<string>,      // folder names from the content folder to here
    path: string,                 // the URL path
    permalink: string,            // the full URL
    meta: FrontMatter,
    pages: seq<Page>,             // direct pages that could be sorted
    ignoredPages: seq<Page>,      // direct pages that could not
    subsections: seq<Section>)

  // ---------------------------------------------------------------------
  // Construction

  /** `Section::new`: a section with only its file, folder and front matter
      set. The source unwraps `parent()`, so a path without a parent is a
      caller error. */
  function New(filePath: FilePath, meta: FrontMatter): (s: Section)
    requires filePath != []
    ensures s.filePath == filePath && s.meta == meta
    ensures s.parentPath + [filePath[|filePath| - 1]] == filePath
    ensures s.components == [] && s.path == "" && s.permalink == "" && s.relativePath == ""
    ensures s.pages == [] && s.ignoredPages == [] && s.subsections == []
  {
    Section(filePath, "", Parent(filePath).value, [], "", "", meta, [], [], [])
  }

  /** The identity a parsed section carries: its URL path is its folder
      names joined with "/", its permalink is what the configuration makes
      of that path, and its relative path is `_index.md` under that path. */
  predicate Identified(s: Section, config: Config)
  {
    && s.path == Join(s.components, "/")
    && s.permalink == config.makePermalink(s.path)
    && s.relativePath == (if s.components == [] then "_index.md" else s.path + "/_index.md")
  }

  /** What `Section::parse` promises of its result `r` for the document
      `content` at `filePath`: the front matter parser's error, unchanged,
      when it fails; otherwise a fresh, identified section of that file with
      the parsed front matter and no pages or subsections yet. */
  predicate ParsedFrom(r: Result<Section, Error>, filePath: FilePath, content: string,
                       config: Config, splitContent: SplitContent,
                       findContentComponents: FindContentComponents)
  {
    match splitContent(filePath, content)
    case Failure(e) => r == Failure(e)
    case Success(split) =>
      && r.Success?
      && r.value.filePath == filePath
      && Parent(filePath) == Some(r.value.parentPath)
      && r.value.meta == split.0
      && r.value.components == findContentComponents(filePath)
      && Identified(r.value, config)
      && r.value.pages == [] && r.value.ignoredPages == [] && r.value.subsections == []
  }

  /** `Section::parse`: split the document, build the bare section, then set
      its components, path, permalink and relative path one after another.
      The source panics on a parentless path only once the split succeeded. */
  method Parse(filePath: FilePath, content: string, config: Config,
               splitContent: SplitContent, findContentComponents: FindContentComponents)
    returns (r: Result<Section, Error>)
    requires splitContent(filePath, content).Success? ==> filePath != []
    ensures ParsedFrom(r, filePath, content, config, splitContent, findContentComponents)
  {
    var split := splitContent(filePath, content);
    if split.Failure? {
      return Failure(split.error);
    }
    var section := New(filePath, split.value.0);
    section := section.(components := findContentComponents(section.filePath));
    section := section.(path := Join(section.components, "/"));
    section := section.(permalink := config.makePermalink(section.path));
    if section.components == [] {
      section := section.(relativePath := "_index.md");
    } else {
      section := section.(relativePath := Join(section.components, "/") + "/_index.md");
    }
    return Success(section);
  }

  /** `Section::from_file`: read the file, then parse it; a read error is
      returned unchanged and nothing is parsed. */
  method FromFile(path: FilePath, config: Config, readFile: ReadFile,
                  splitContent: SplitContent, findContentComponents: FindContentComponents)
    returns (r: Result<Section, Error>)
    requires readFile(path).Success? && splitContent(path, readFile(path).value).Success? ==> path != []
    ensures readFile(path).Failure? ==> r == Failure(readFile(path).error)
    ensures readFile(path).Success? ==>
      ParsedFrom(r, path, readFile(path).value, config, splitContent, findContentComponents)
  {
    var content := readFile(path);
    if content.Failure? {
      return Failure(content.error);
    }
    r := Parse(path, content.value, config, splitContent, findContentComponents);
  }

  // ---------------------------------------------------------------------
  // Queries

  /** `Section::is_index`: the section of the content folder itself, the
      one with no folder names; its URL path is therefore empty. */
  predicate IsIndex(s: Section)
    ensures IsIndex(s) <==> |s.components| == 0
    ensures IsIndex(s) ==> Join(s.components, "/") == ""
  {
    s.components == []
  }

  /** `Section::get_template_name`: the front matter's template when it names
      one, else `index.html` for the index section and `section.html` for
      every other section. */
  function TemplateName(s: Section): (name: string)
    ensures s.meta.template.Some? ==> name == s.meta.template.value
    ensures s.meta.template.None? ==> (name == "index.html" <==> IsIndex(s))
    ensures s.meta.template.None? ==> (name == "section.html" <==> !IsIndex(s))
  {
    match s.meta.template
    case Some(t) => t
    case None => if IsIndex(s) then "index.html" else "section.html"
  }

  /** The file paths of some pages, in their order. */
  function PagePaths(pages: seq<Page>): (paths: seq<FilePath>)
    ensures |paths| == |pages|
    ensures forall i :: 0 <= i < |pages| ==> paths[i] == pages[i].filePath
  {
    if pages == [] then [] else [pages[0].filePath] + PagePaths(pages[1..])
  }

  /** `Section::all_pages_path`: grow a list with the file paths of the
      sorted pages, then with those of the ignored pages. */
  method AllPagesPath(s: Section) returns (paths: seq<FilePath>)
    ensures paths == PagePaths(s.pages) + PagePaths(s.ignoredPages)
  {
    paths := [];
    for i := 0 to |s.pages|
      invariant |paths| == i
      invariant forall k :: 0 <= k < i ==> paths[k] == s.pages[k].filePath
    {
      paths := paths + [s.pages[i].filePath];
    }
    for i := 0 to |s.ignoredPages|
      invariant |paths| == |s.pages| + i
      invariant forall k :: 0 <= k < |s.pages| ==> paths[k] == s.pages[k].filePath
      invariant forall k :: 0 <= k < i ==> paths[|s.pages| + k] == s.ignoredPages[k].filePath
    {
      paths := paths + [s.ignoredPages[i].filePath];
    }
  }

  // ---------------------------------------------------------------------
  // The view templates see

  /** The serialized form of a section: six fields and nothing else. Pages
      are serialized by their own contract, which is opaque here, so they
      are carried as they are. */
  datatype SectionView = SectionView(
    title: Option<string>,
    description: Option<string>,
    path: string,
    permalink: string,
    pages: seq<Page>,
    subsections: seq<SectionView>)

  /** `impl Serialize for Section`. */
  function Serialize(s: Section): (v: SectionView)
    ensures v.title == s.meta.title && v.description == s.meta.description
    ensures v.path == "/" + s.path && v.permalink == s.permalink
    ensures v.pages == s.pages
    ensures |v.subsections| == |s.subsections|
    ensures forall i :: 0 <= i < |s.subsections| ==> v.subsections[i] == Serialize(s.subsections[i])
    decreases s
  {
    SectionView(s.meta.title, s.meta.description, "/" + s.path, s.permalink, s.pages,
                seq(|s.subsections|, i requires 0 <= i < |s.subsections| => Serialize(s.subsections[i])))
  }

  /** The serialization of every section of a list, in order. */
  function SerializeAll(sections: seq<Section>): (vs: seq<SectionView>)
    ensures |vs| == |sections|
    ensures forall i :: 0 <= i < |sections| ==> vs[i] == Serialize(sections[i])
  {
    seq(|sections|, i requires 0 <= i < |sections| => Serialize(sections[i]))
  }

  /** Two sections agree on everything the serialized view shows: title,
      description, path, permalink and pages, and the same of their
      subsections pairwise, at every depth. */
  predicate SamePublicFields(s: Section, t: Section)
    decreases s
  {
    && s.meta.title == t.meta.title
    && s.meta.description == t.meta.description
    && s.path == t.path
    && s.permalink == t.permalink
    && s.pages == t.pages
    && |s.subsections| == |t.subsections|
    && forall i :: 0 <= i < |s.subsections| ==> SamePublicFields(s.subsections[i], t.subsections[i])
  }

  // ---------------------------------------------------------------------
  // Rendering

  /** The Tera context `render_html` builds. */
  datatype RenderContext = RenderContext(
    config: Config,
    section: SectionView,
    currentUrl: string,
    currentPath: string,
    sections: Option<seq<SectionView>>)

  /** The context of `render_html`: the configuration, the section itself,
      its permalink as the current URL, its path as the current path, and,
      for the index section only, the sections it was given. */
  function ContextOf(s: Section, sections: seq<Section>, config: Config): (ctx: RenderContext)
    ensures ctx.section == Serialize(s) && ctx.config == config
    ensures ctx.currentUrl == s.permalink && ctx.currentPath == s.path
    ensures ctx.sections.Some? <==> IsIndex(s)
    ensures ctx.sections.Some? ==> ctx.sections.value == SerializeAll(sections)
  {
    RenderContext(config, Serialize(s), s.permalink, s.path,
                  if IsIndex(s) then Some(SerializeAll(sections)) else None)
  }

  /** `Section::render_html`: render the section's template in its context;
      a template engine error comes back wrapped with the section's file. */
  function RenderHtml(s: Section, sections: seq<Section>, config: Config,
                      render: (string, RenderContext) -> Result<string, Error>): (r: Result<string, Error>)
    ensures var out := render(TemplateName(s), ContextOf(s, sections, config));
      && (out.Success? ==> r == out)
      && (out.Failure? ==> r == Failure(RenderFailed(s.filePath, out.error)))
  {
    match render(TemplateName(s), ContextOf(s, sections, config))
    case Success(html) => Success(html)
    case Failure(e) => Failure(RenderFailed(s.filePath, e))
  }
}
