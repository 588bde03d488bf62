/** What follows from the definitions of a section: how its identity
    strings relate to its folder names, which files it reports, and what
    its serialized view shows. */
module SectionProperties {
  import opened Wrappers
  import opened Paths
  import opened Sections

  /** No folder name contains the path separator. */
  predicate SlashFree(components: seq<string>)
  {
    forall i :: 0 <= i < |components| ==> '/' !in components[i]
  }

  /** The folder names a relative path `<path>/_index.md` or `_index.md`
      was made from, read back by splitting `<path>` at "/". */
  function ComponentsOf(relativePath: string): seq<string>
  {
    if |relativePath| >= 10 && relativePath[|relativePath| - 10..] == "/_index.md"
    then Split(relativePath[..|relativePath| - 10], '/')
    else []
  }

  // ---------------------------------------------------------------------
  // Identity

  /** The index section is exactly the one whose relative path is the bare
      `_index.md`. */
  lemma IndexIffRootRelativePath(s: Section, config: Config)
    requires Identified(s, config)
    ensures IsIndex(s) <==> s.relativePath == "_index.md"
  {
  }

  /** Path and relative path are functions of the folder names alone,
      whatever the configuration; the permalink is a function of the folder
      names and the configuration. */
  lemma IdentityDeterminedByComponents(s: Section, t: Section, config: Config, config': Config)
    requires Identified(s, config) && Identified(t, config')
    requires s.components == t.components
    ensures s.path == t.path && s.relativePath == t.relativePath
    ensures config == config' ==> s.permalink == t.permalink
  {
  }

  /** When no folder name contains "/", the folder names can be read back
      from the relative path. */
  lemma RelativePathRecoversComponents(s: Section, config: Config)
    requires Identified(s, config) && SlashFree(s.components)
    ensures ComponentsOf(s.relativePath) == s.components
  {
    if s.components == [] {
      assert s.relativePath == "_index.md";
    } else {
      var rp := s.relativePath;
      assert rp[|rp| - 10..] == "/_index.md" && rp[..|rp| - 10] == s.path;
      SplitJoin(s.components, '/');
    }
  }

  /** Two sections with slash-free folder names have the same relative path
      exactly when they have the same folder names, whatever configurations
      they were identified under. */
  lemma RelativePathsDistinguishSections(s: Section, t: Section, config: Config, config': Config)
    requires Identified(s, config) && SlashFree(s.components)
    requires Identified(t, config') && SlashFree(t.components)
    ensures s.relativePath == t.relativePath <==> s.components == t.components
  {
    RelativePathRecoversComponents(s, config);
    RelativePathRecoversComponents(t, config');
  }

  /** Splitting a non-index section's path at "/" gives its folder names
      back when none of them contains "/"; and the path is always the join
      of its own split. */
  lemma PathSplitsIntoComponents(s: Section, config: Config)
    requires Identified(s, config)
    ensures Join(Split(s.path, '/'), "/") == s.path
    ensures !IsIndex(s) && SlashFree(s.components) ==> Split(s.path, '/') == s.components
  {
    JoinSplit(s.path, '/');
    if !IsIndex(s) && SlashFree(s.components) {
      SplitJoin(s.components, '/');
    }
  }

  /** The index section's path "" splits into one empty name, not into its
      (empty) folder names. */
  lemma IndexPathDoesNotSplitBack(s: Section, config: Config)
    requires Identified(s, config) && IsIndex(s)
    ensures Split(s.path, '/') == [""] != s.components
  {
  }

  /** A folder name holding "/" is split in two when read back. */
  lemma SlashInNameDoesNotSplitBack()
    ensures Split(Join(["a/b"], "/"), '/') == ["a", "b"]
  {
    assert Join(["a/b"], "/") == "a/b" == "a" + ['/'] + "b";
    SplitAfterRun("a", "b", '/');
    SplitWithoutDelimiter("b", '/');
  }

  /** Parsing `content/_index.md`, whose folder names are empty and whose
      front matter names no template. */
  lemma ParseIndexScenario(r: Result<Section, Error>, filePath: FilePath, content: string,
                           config: Config, splitContent: SplitContent,
                           findContentComponents: FindContentComponents)
    requires ParsedFrom(r, filePath, content, config, splitContent, findContentComponents)
    requires splitContent(filePath, content).Success?
    requires splitContent(filePath, content).value.0.template.None?
    requires findContentComponents(filePath) == []
    ensures r.Success?
    ensures r.value.path == "" && r.value.relativePath == "_index.md"
    ensures IsIndex(r.value) && TemplateName(r.value) == "index.html"
  {
  }

  /** Parsing `content/blog/tech/_index.md`, whose front matter names no
      template. */
  lemma ParseNestedScenario(r: Result<Section, Error>, filePath: FilePath, content: string,
                            config: Config, splitContent: SplitContent,
                            findContentComponents: FindContentComponents)
    requires ParsedFrom(r, filePath, content, config, splitContent, findContentComponents)
    requires splitContent(filePath, content).Success?
    requires splitContent(filePath, content).value.0.template.None?
    requires findContentComponents(filePath) == ["blog", "tech"]
    ensures r.Success?
    ensures r.value.path == "blog/tech" && r.value.relativePath == "blog/tech/_index.md"
    ensures r.value.permalink == config.makePermalink("blog/tech")
    ensures !IsIndex(r.value) && TemplateName(r.value) == "section.html"
  {
    assert Join(["blog", "tech"], "/") == "blog" + "/" + Join(["tech"], "/");
  }

  /** Parsing a document whose front matter is malformed gives the parser's
      error and no section. */
  lemma ParseMalformedScenario(r: Result<Section, Error>, filePath: FilePath, content: string,
                               config: Config, splitContent: SplitContent,
                               findContentComponents: FindContentComponents)
    requires ParsedFrom(r, filePath, content, config, splitContent, findContentComponents)
    requires splitContent(filePath, content).Failure?
    ensures r.Failure? && r.error == splitContent(filePath, content).error
  {
  }

  // ---------------------------------------------------------------------
  // Pages

  /** A file path is listed for a section exactly when one of its sorted or
      ignored pages has it. */
  lemma AllPagesPathMembership(s: Section, p: FilePath)
    ensures p in PagePaths(s.pages) + PagePaths(s.ignoredPages)
        <==> exists pg :: (pg in s.pages || pg in s.ignoredPages) && pg.filePath == p
  {
  }

  /** Nothing is removed: a page held both as sorted and as ignored has its
      file path listed twice. */
  lemma AllPagesPathKeepsDuplicates(s: Section, pg: Page)
    requires pg in s.pages && pg in s.ignoredPages
    ensures multiset(PagePaths(s.pages) + PagePaths(s.ignoredPages))[pg.filePath] >= 2
  {
  }

  // ---------------------------------------------------------------------
  // Serialized view

  /** Two sections serialize alike exactly when they agree on the public
      fields, at every depth: file path, parent path, folder names, relative
      path and ignored pages never reach the view. */
  lemma {:induction false} SerializeShowsExactlyPublicFields(s: Section, t: Section)
    ensures Serialize(s) == Serialize(t) <==> SamePublicFields(s, t)
    decreases s
  {
    var vs, vt := Serialize(s), Serialize(t);
    if |s.subsections| == |t.subsections| {
      forall i | 0 <= i < |s.subsections|
        ensures vs.subsections[i] == vt.subsections[i] <==> SamePublicFields(s.subsections[i], t.subsections[i])
      {
        SerializeShowsExactlyPublicFields(s.subsections[i], t.subsections[i]);
      }
      if SamePublicFields(s, t) {
        assert vs.subsections == vt.subsections;
      }
    }
    if vs == vt {
      assert "/" + s.path == vs.path == vt.path == "/" + t.path;
      assert s.path == ("/" + s.path)[1..];
      assert |s.subsections| == |t.subsections|;
      forall i | 0 <= i < |s.subsections|
        ensures SamePublicFields(s.subsections[i], t.subsections[i])
      {
        assert vs.subsections[i] == vt.subsections[i];
      }
    }
  }

  /** The section a template sees has the leading slash its current path
      lacks. */
  lemma ContextPathsDiffer(s: Section, sections: seq<Section>, config: Config)
    ensures ContextOf(s, sections, config).section.path == "/" + ContextOf(s, sections, config).currentPath
  {
  }
}
