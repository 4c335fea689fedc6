# glsl-types: validate, merge and emit, in Dafny

glsl-types watches a folder of GLSL shaders. When a `.vert` or `.frag` file
changes, it finds the other file of the pair. It checks that the two shaders
agree on their uniforms and varyings. It then writes a TypeScript module that
embeds both sources and describes the merged uniforms and the vertex
attributes. This project models three parts of that in Dafny:

- `TypeScript` (type_script.dfy), from `generator/type_script.rs`.
  - The four fail-fast checks and the uniform merge.
  - The line-by-line emission of the output text.
  - The GLSL type to label table.
  - `GenerateTsTypesFile` follows the source's loops and is proved equal to the
    specification function `Generate`. Lemmas about `Generate` and its parts
    state the properties.
- `Cli` (cli.dfy), from the debounced callback in `cli.rs`: the path and
  extension guards, the derivation of the shader pair, and the existence gate
  in front of generation and import resolution. It is a pure decision function
  over the event's paths and the set of existing files.
- `Imports` (imports.dfy), from `import_resolver/imports.rs`.
  - The `FileImports` visitor is a class whose `imports` map `VisitImport`
    updates in place.
  - `GetFileImports` walks a sequence of imports and is proved equal to the
    fold `Collect`.

Supporting modules:

- `Paths` (paths.dfy) models the parts of Rust's `std::path` the core relies
  on: `parent`, `file_name`, `file_stem`/`extension` with Rust's
  split-at-the-last-dot rules, `join` and `strip_prefix`.
- `Common` (common.dfy) holds the extracted shader data: name/type
  declarations of uniforms, attributes and varyings. It also models
  `capitalize_first_letter` (`generator/common.rs` is not part of this model).
- `Wrappers` (wrappers.dfy) holds `Option` and `Result`.

The model stands in for the source's effects as follows:

- Reading the two shader files is a lookup in `files: map<Path, ShaderFile>`.
  Each entry holds a file's text and the declarations extracted from it.
  `p.exists()` is `p in files`.
- Writing the output file is the `Artifact` (path and text) inside an `Ok`
  result. A failed check is an `Err` naming the offending declaration, so no
  artifact is produced.
- `canonicalize` is a lookup in `canonical: map<Path, Path>`, which gives the
  canonical form of every existing path.

Some choices follow the code closely:

- The output file is named after the vertex file's stem as written, without
  capitalisation (type_script.rs:151). Only the exported constant uses the
  capitalised stem.
- The label table has no `sampler` entry. Samplers and every other type
  outside the 19 listed get `"UNKNOWN"` (type_script.rs:182).
- An unresolvable relative import makes `canonicalize().unwrap()` panic
  (imports.rs:35). There is no error value in the code. The model reports it
  as `Err(Unresolved(path))`, which stops the walk, just as the panic ends it.
- The import map is keyed by identifier with the last write winning
  (imports.rs:38). It is a plain map and keeps no insertion order.

## Model

| member | source | states |
|---|---|---|
| TypeScript.Label | src/generator/type_script.rs:157-185 | a type gets the sentinel "UNKNOWN" exactly when it is outside the 19-entry table |
| TypeScript.LabelInjective | src/generator/type_script.rs:157-185 | the 19 table types have pairwise distinct labels |
| TypeScript.LabelIsWord | src/generator/type_script.rs:157-185 | every label is a non-empty word of letters and digits, so it cannot break the emitted string literal |
| TypeScript.FirstViolation | src/generator/type_script.rs:22-36 | the reported name belongs to the first declaration, in loop order, that breaks the check; None exactly when no declaration breaks it |
| TypeScript.FirstViolationAgreesWith | src/generator/type_script.rs:22-36 | the type-agreement check finds nothing exactly when all same-named declarations of the two lists have equal types |
| TypeScript.ValidateAcceptsExactlyConsistent | src/generator/type_script.rs:22-109 | a pair passes all four checks iff shared uniforms agree in type, the varying name sets cover each other in both directions and shared varyings agree in type; on success the result is the merged uniform list |
| TypeScript.ValidateErrorNamesOffender | src/generator/type_script.rs:22-109 | each error names a genuine offender (a clashing uniform, a varying missing on the named side, a clashing varying), every earlier check passed, and any uniform clash is reported as a uniform conflict |
| TypeScript.MergeNames | src/generator/type_script.rs:39-53 | a name is in the merged list iff it is a vertex or a fragment uniform name |
| TypeScript.MergeIsVertexThenFragmentOnly | src/generator/type_script.rs:39-53 | the merged list is exactly the vertex uniforms in vertex order followed by the first declaration of each fragment-only name in fragment order |
| TypeScript.FragmentOnlyMembers | src/generator/type_script.rs:41-53 | the appended uniforms are exactly the fragment uniforms whose name is neither a vertex name nor an earlier fragment name |
| TypeScript.MergeKeepsNamesUnique | src/generator/type_script.rs:41-53 | merging never duplicates a name: unique vertex names stay unique after the merge |
| TypeScript.MergeIsUnion | src/generator/type_script.rs:22-53 | once the uniform types agree (and fragment names are unique), a declaration is in the merged list iff it is a vertex or a fragment uniform |
| TypeScript.EntryIsOneLine | src/generator/type_script.rs:131-135 | one emitted entry is exactly one line, ending in a newline |
| TypeScript.EntriesLineCount | src/generator/type_script.rs:129-146 | a uniforms or attributes block has exactly one line per declaration |
| TypeScript.RenderBeginsWithHeaderAndSources | src/generator/type_script.rs:111-122 | the output starts with the two "DO NOT EDIT" / "generated by glsl-types" lines, then the vertex and fragment sources embedded verbatim |
| TypeScript.GenerateWritesOnlyConsistentPairs | src/generator/type_script.rs:7-155 | an artifact is produced iff the pair is consistent; it goes to output folder / vertex stem + ".ts" and holds the vertex uniforms, then the fragment-only uniforms, then the vertex attributes |
| TypeScript.GenerateIgnoresFragmentAttributes | src/generator/type_script.rs:138-146 | the fragment shader's attributes never affect the output |
| TypeScript.FindTypeConflict | src/generator/type_script.rs:22-36 | the nested loop returns the first name of the first list whose type clashes with a same-named declaration of the second list, or None |
| TypeScript.FindMissing | src/generator/type_script.rs:56-92 | the `found`-flag loop returns the first name of the first list absent from the second, or None |
| TypeScript.MergeUniforms | src/generator/type_script.rs:39-53 | the push loop computes the merged uniform list |
| TypeScript.EmitEntries | src/generator/type_script.rs:130-146 | the loop appends exactly one entry per declaration, in order |
| TypeScript.EmitTsFile | src/generator/type_script.rs:111-149 | the successive appends produce the rendered module text |
| TypeScript.GenerateTsTypesFile | src/generator/type_script.rs:7-155 | the method's result (error or artifact) is the one the specification `Generate` gives for the same files |
| Common.CapitalizeFirstLetter | src/generator/type_script.rs:124-125 | the exported name is the stem with a leading lower-case ASCII letter upper-cased, the rest unchanged |
| Paths.StripPrefix | src/cli.rs:82-84 | strip_prefix succeeds exactly when the prefix is a leading part of the path, and then prefix + remainder is the path |
| Paths.LastDot | src/cli.rs:75 | the index of the last '.' of a file name, None exactly when it has no dot |
| Paths.StemDotExtension | src/cli.rs:89-92 | a file name with an extension is its (non-empty) stem, a dot and that extension |
| Paths.SplitOfStemDotExtension | src/cli.rs:89-92 | stem + "." + ext splits back into that stem and extension |
| Cli.ShaderPair | src/cli.rs:89-92 | both derived paths lie in the trigger's folder; a pair exists exactly when the path is not empty |
| Cli.ShaderPairOfEitherStage | src/cli.rs:89-92 | stem.vert and stem.frag in one folder derive the same pair, stem.vert then stem.frag |
| Cli.TriggerIsInItsPair | src/cli.rs:89-92 | a .vert trigger is the pair's vertex path and a .frag trigger its fragment path |
| Cli.StripPrefixKeepsFileName | src/cli.rs:84 | stripping the input folder's parent keeps the trigger's file name |
| Cli.RelativeTriggerIsInItsPair | src/cli.rs:84-92 | after stripping the input folder's parent, the pair derived from the remainder holds that remainder: as the vertex path for a .vert trigger, as the fragment path for a .frag trigger |
| Cli.HandleEventAsWritten | src/cli.rs:70-80 | the callback as written: it does nothing exactly when the event has no path or its first path has an extension other than .vert/.frag, and it panics when that path has no extension |
| Cli.AfterExtensionGuard | src/cli.rs:82-155 | past the extension filter the callback never does nothing; it panics exactly when the input folder has no parent, the trigger is not under that parent, or nothing remains after stripping it |
| Cli.HandleEvent | src/cli.rs:68-80 | the corrected callback (see "## Findings"): it does nothing exactly when the event has no path or its first path is not a .vert or .frag file, paths without an extension included |
| Cli.HandleEventGuards | src/cli.rs:70-80 | an event without paths is ignored, only the first path is examined, other extensions are ignored |
| Cli.HandleEventPairingGate | src/cli.rs:94-153 | generation runs only when both files exist; a missing vertex file is reported before a missing fragment file; imports are resolved, for the relative trigger path, only after generation succeeded |
| Cli.PathWithoutExtensionPanicsAsWritten | src/cli.rs:69-80 | as written, every event whose first path has no extension panics; the corrected callback ignores each such event |
| Cli.FolderEventPanicsAsWritten | src/cli.rs:69-80 | an instance: the event for a new folder shaders/lights panics as written and is ignored by the corrected callback |
| Cli.HandleEventAgreesWhereExtensionPresent | src/cli.rs:74-80 | the corrected callback differs from the code only for paths without an extension |
| Imports.Resolve | src/import_resolver/imports.rs:33-36 | only a relative import can fail, and only for a target that has no canonical form; a resolved relative import is always some existing path's canonical form |
| Imports.CollectStoresResolvedPath | src/import_resolver/imports.rs:33-38 | for the last import binding an identifier, the stored path is the target itself when absolute, and the canonical form of base + target (which must exist) when relative |
| Imports.FileImports.constructor | src/import_resolver/imports.rs:23-28 | the base path is the importing file's parent and the map starts empty |
| Imports.FileImports.VisitImport | src/import_resolver/imports.rs:32-40 | a visited import inserts its resolved path under its identifier, overwriting any earlier entry, and changes nothing else |
| Imports.GetFileImports | src/import_resolver/imports.rs:7-14 | the walk returns exactly the map the visitor accumulated over all imports in order |
| Imports.CollectKeys | src/import_resolver/imports.rs:38 | the map's keys are exactly the identifiers visited, so it has at most as many entries as there are imports |
| Imports.CollectLastWriteWins | src/import_resolver/imports.rs:38 | each identifier maps to the path of the last import that binds it |
| Imports.CollectFailsAtFirstUnresolved | src/import_resolver/imports.rs:35 | resolution fails iff some relative import does not exist, and the first such import is the one reported |

## Left out

- Shader parsing and declaration extraction (`common::extract_shader_data`) are not part of this model. Each file's extracted uniforms, attributes and varyings are given with its text.
- The debouncer (`debounce.rs`) is not part of this model. Its timers and threads are concurrency; the model handles one already-debounced event.
- The notify watcher, its error printing and the endless sleep loop (cli.rs:157-173) are event delivery and a long-running loop.
- Argument parsing and the creation of the input and output folders (cli.rs:34-66) are bootstrap I/O.
- Console output, colours, `print_level` and the elapsed-time measurement are presentation only.
- `std::fs::read_to_string`, `std::fs::write` and `canonicalize` are the `files` and `canonical` maps and the returned `Artifact`. A read or write failure, and a race between the existence check and the read, are not modelled.
- The canonical input folder is a parameter, because computing it needs the real filesystem (cli.rs:82). A failure of that `canonicalize` is not modelled.
- `import_resolver::resolve_imports` (cli.rs:152) is not part of this model. `Generated.importsOf` records the path it is called with.
- The napi entry point `start_cli` (lib.rs:12-15) is a thin FFI wrapper.
- The glsl crate's `Visitor`/`Host` traversal is a sequence of imports in source order.
- Path components are plain names. `PathBuf::from` on an import string and the splitting of strings at '/' are outside the model, because import targets are given as parsed paths.
- `FileImports::new` panics through `parent().unwrap()` for a path without a parent (imports.rs:25). The constructor's precondition excludes such a path, so that panic is not modelled.
- `to_str().unwrap()` panics for a path that is not valid UTF-8 (cli.rs:90, type_script.rs:124). Names here are strings, which cannot express such a path.
- Common.CapitalizeFirstLetter: covers ASCII only. Rust's Unicode upper-casing of other leading characters is not modelled.
- Validate runs the merge after the varying checks rather than between them, as the source does. The merge cannot fail, so every result is the same; `GenerateTsTypesFile` keeps the source's order.

## Findings

| source | as written | input that shows it | evidently intended | confidence | as-written member | corrected member |
|---|---|---|---|---|---|---|
| src/cli.rs:69-80 | `file_path.extension().unwrap()` runs before the extension filter, so a path without an extension panics inside the callback | an event for a new folder `shaders/lights` (the comment at line 69 means to ignore folder events) | a path without an extension is not a .vert or .frag file and is ignored | medium, not executed | Cli.PathWithoutExtensionPanicsAsWritten | Cli.HandleEvent |
