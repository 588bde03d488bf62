# Sections of a static site

This project models the `Section` entity of the static-site generator
(Gutenberg, later Zola): the `_index.md` document of one content folder,
together with the pages and subsections found under that folder.

It covers:

- how a section's identity is derived when it is parsed. `path` is the folder
  names joined with `/`. `relative_path` is `_index.md` for the content folder
  itself and `<path>/_index.md` for any other folder. `permalink` is what the
  configuration makes of `path`;
- the bare constructor;
- template-name resolution and the index test;
- the list of page files a section accounts for;
- the six-field view that templates see when a section is serialized;
- the context `render_html` hands to the template engine.

Modules:

- `Wrappers` (wrappers.dfy): `Option` and `Result`.
- `Paths` (paths.dfy): a filesystem path as the sequence of its names,
  `Parent`, `Join` and a reference `Split` (Rust's `str::split`). It proves
  that split and join are inverse, under the stated conditions.
- `Sections` (section.dfy): the `Section` datatype and every operation of
  `src/section.rs`. `Parse` is a method, because the source assigns the
  fields of a local section one after another. `FromFile` is a method
  because it calls `Parse`.
  `AllPagesPath` is a method with the source's two extend steps as loops.
  The rest are functions. `ParsedFrom` is the one statement of what parsing
  promises. Both parse methods ensure it, and lemmas reason from it.
- `SectionProperties` (section_properties.dfy): lemmas relating the identity
  strings to the folder names, the page list to the pages, and the serialized
  view to the section.

The collaborators are parameters: the front matter parser
(`split_content`), the folder-name finder (`find_content_components`), the
configuration's permalink rule, the file reader and the template engine.
Their internals are not modelled. The model states only what the section
does with their results.

Two claims that are easy to make about sections hold only with extra
conditions. The code does not guarantee either one in general:

- Splitting `path` at `/` gives back `components` only for a non-index
  section whose folder names contain no `/`. The index section's path `""`
  splits into `[""]`, not into `[]` (`IndexPathDoesNotSplitBack`). A name
  holding `/` splits in two (`SlashInNameDoesNotSplitBack`).
- `all_pages_path` does not remove duplicates. A page held both as sorted
  and as ignored is listed twice (`AllPagesPathKeepsDuplicates`). The list
  is free of duplicates only when the tree-assembly phase keeps the two
  lists disjoint.

## Model

| member | source | states |
|---|---|---|
| `Paths.Parent` | src/section.rs:45 | `parent()` is None exactly for the path with no names; otherwise the parent followed by the last name is the path |
| `Paths.SplitJoin` | src/section.rs:60 | splitting the `/`-join of a non-empty list of slash-free names at `/` gives back the list |
| `Paths.JoinSplit` | src/section.rs:60 | joining the runs of any string split at `/` with `/` gives back the string |
| `Sections.New` | src/section.rs:39-54 | the file path is stored as given; the parent path is that path without its last name; the front matter is stored; components, path, permalink and relative path are empty; the three collections are empty; a path with no parent is refused (the source panics on `unwrap`) |
| `Sections.Parse` | src/section.rs:56-69 | fails exactly when the front matter parser fails, with its error unchanged; otherwise it returns the file's section with the parsed front matter, the parent folder, the found components, path = components joined by `/`, permalink = config's permalink of path, relative path `_index.md` or `<path>/_index.md`, and no pages, ignored pages or subsections |
| `Sections.FromFile` | src/section.rs:72-77 | a read error is returned unchanged; otherwise the result is what parsing the file's text promises |
| `Sections.IsIndex` | src/section.rs:109-111 | holds exactly when the section has no folder names, and then its joined URL path is empty |
| `Sections.TemplateName` | src/section.rs:79-89 | a front matter template is returned verbatim wherever the section sits; without one the name is `index.html` exactly for the index section and `section.html` exactly for every other section |
| `Sections.PagePaths` | src/section.rs:115-116 | one file path per page, each the file path of the page at the same position |
| `Sections.AllPagesPath` | src/section.rs:113-118 | the result is the sorted pages' file paths in order, followed by the ignored pages' file paths in order |
| `Sections.Serialize` | src/section.rs:121-131 | the view's title and description are the front matter's; its path is `/` followed by the section's path; its permalink and pages are the section's; its subsections are the section's subsections, each serialized by this same projection, in order |
| `Sections.SerializeAll` | src/section.rs:101 | the sibling sections handed to the index template are serialized one by one, in order |
| `Sections.ContextOf` | src/section.rs:95-102 | the render context holds the config, the serialized section, the permalink as current URL and the path as current path, and it holds the serialized sibling sections exactly when the section is the index |
| `Sections.RenderHtml` | src/section.rs:92-106 | the resolved template is rendered in that context; the engine's output is returned as is, and its error comes back wrapped with the section's file path |
| `SectionProperties.IndexIffRootRelativePath` | src/section.rs:109-111 | for a parsed section, `is_index` holds exactly when the relative path is the bare `_index.md` |
| `SectionProperties.IdentityDeterminedByComponents` | src/section.rs:59-66 | two parsed sections with the same components have the same path and relative path under any two configurations, and the same permalink under the same configuration |
| `SectionProperties.RelativePathRecoversComponents` | src/section.rs:62-66 | when no folder name contains `/`, the components can be read back from the relative path |
| `SectionProperties.RelativePathsDistinguishSections` | src/section.rs:62-66 | sections with slash-free folder names have equal relative paths exactly when they have equal components, under any two configurations |
| `SectionProperties.PathSplitsIntoComponents` | src/section.rs:59-60 | the path is the join of its own split; for a non-index section with slash-free names, splitting the path gives the components |
| `SectionProperties.IndexPathDoesNotSplitBack` | src/section.rs:59-60 | the index section's path splits into `[""]`, which differs from its empty components |
| `SectionProperties.SlashInNameDoesNotSplitBack` | src/section.rs:60 | the folder name `a/b` comes back from the path as two names |
| `SectionProperties.ParseIndexScenario` | src/section.rs:56-69 | parsing the content folder's own index without a template override gives path `""`, relative path `_index.md`, an index section and the template `index.html` |
| `SectionProperties.ParseNestedScenario` | src/section.rs:56-69 | parsing `blog/tech/_index.md` without a template override gives path `blog/tech`, relative path `blog/tech/_index.md`, the permalink of `blog/tech`, a non-index section and the template `section.html` |
| `SectionProperties.ParseMalformedScenario` | src/section.rs:57 | malformed front matter gives the parser's error and no section |
| `SectionProperties.AllPagesPathMembership` | src/section.rs:113-118 | a file path is listed exactly when some sorted or ignored page has it |
| `SectionProperties.AllPagesPathKeepsDuplicates` | src/section.rs:113-118 | a page that is both sorted and ignored has its file path listed at least twice |
| `SectionProperties.SerializeShowsExactlyPublicFields` | src/section.rs:121-131 | two sections serialize alike exactly when they agree on title, description, path, permalink and pages, and their subsections do too, pairwise at every depth; so file path, parent path, components, relative path and ignored pages never reach the view |
| `SectionProperties.ContextPathsDiffer` | src/section.rs:98-99 | in the render context the serialized section's path is the current path with a leading `/` |

## Left out

- Front matter parsing, folder-name discovery, permalink construction, file reading and template rendering are parameters. The model does not state their internals.
- Front matter keys other than `title`, `description` and `template` are not modelled, because a section reads no others.
- A page is its file path plus an opaque remainder. Its own serialization is not modelled: the view carries the pages unchanged.
- The configuration is only its permalink rule. How it serializes itself into the render context is not modelled.
- Error messages are not modelled. The text `chain_err` adds in `render_html` becomes the `RenderFailed(filePath, cause)` wrapper.
- Paths are sequences of names. Platform prefixes, root markers and `Path::display` are not modelled. The path with no names is the only one without a parent.
- The derived `Clone`, `Debug` and `PartialEq` are not modelled. A datatype has value semantics and equality already.
- serde's serializer mechanics and its possible serializer errors are not modelled. Only the six-field projection is.
- Sections.New, Sections.Parse, Sections.FromFile: a file path with no parent is excluded by a `requires` rather than modelled as the panic of `parent().unwrap()`. `Parse` and `FromFile` exclude it only where the source would reach that `unwrap`.
