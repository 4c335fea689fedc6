/**
 * cli.rs, lines 68-155: what the debounced watcher callback does with one
 * change event. Console output and timing are left out; each early return of
 * the callback is an Outcome. `files` holds every shader file that exists,
 * with its text and extracted declarations, so `p in files` is p.exists().
 */
module Cli {
  import opened Wrappers
  import opened Paths
  import opened Common
  import TypeScript

  datatype Outcome =
    /** No path, or a file that is neither .vert nor .frag. */
    | Ignored
    /** An unwrap on None or Err ends the callback. */
    | Panicked
    /** One file of the pair does not exist; `create` is the one the user is asked to create. */
    | MissingShaders(file: Path, create: Path)
    /** Generation reported failure and wrote nothing. */
    | Rejected(error: TypeScript.CheckError)
    /** The artifact was written, then the trigger's imports were resolved. */
    | Generated(artifact: TypeScript.Artifact, importsOf: Path)

  /** extension() of a path: the extension of its file name, if it has one. */
  function ExtensionOf(p: Path): Option<string>
  {
    match FileName(p)
    case None => None
    case Some(name) => Extension(name)
  }

  predicate IsShaderExtension(ext: Option<string>)
  {
    ext == Some("vert") || ext == Some("frag")
  }

  /** Lines 89-92: the vertex and fragment paths in the trigger's folder, named after its stem. */
  function ShaderPair(file: Path): (r: Option<(Path, Path)>)
    ensures r.Some? <==> |file.parts| > 0
    ensures r.Some? ==> Parent(r.value.0) == Parent(file) == Parent(r.value.1)
  {
    match Parent(file)
    case None => None
    case Some(folder) =>
      var stem := Stem(FileName(file).value);
      Some((Child(folder, stem + ".vert"), Child(folder, stem + ".frag")))
  }

  /** Whichever file of a pair triggers, the same two paths are derived. */
  lemma ShaderPairOfEitherStage(folder: Path, stem: string)
    requires stem != ""
    ensures ShaderPair(Child(folder, stem + ".vert")) == Some((Child(folder, stem + ".vert"), Child(folder, stem + ".frag")))
    ensures ShaderPair(Child(folder, stem + ".frag")) == Some((Child(folder, stem + ".vert"), Child(folder, stem + ".frag")))
  {
    SplitOfStemDotExtension(stem, "vert");
    SplitOfStemDotExtension(stem, "frag");
    assert stem + "." + "vert" == stem + ".vert";
    assert stem + "." + "frag" == stem + ".frag";
  }

  /** The trigger itself is the member of the pair its extension names. */
  lemma TriggerIsInItsPair(file: Path)
    requires IsShaderExtension(ExtensionOf(file))
    ensures ShaderPair(file).Some?
    ensures ExtensionOf(file) == Some("vert") ==> ShaderPair(file).value.0 == file
    ensures ExtensionOf(file) == Some("frag") ==> ShaderPair(file).value.1 == file
  {
    var name := FileName(file).value;
    StemDotExtension(name);
    var folder := Parent(file).value;
    assert Child(folder, name) == file;
    var stem := Stem(name);
    assert stem + "." + "vert" == stem + ".vert";
    assert stem + "." + "frag" == stem + ".frag";
  }

  /** Lines 82-155: everything after the extension guard. */
  function AfterExtensionGuard(file: Path, inputFolderCanonical: Path, files: map<Path, ShaderFile>, outputFolder: Path): (r: Outcome)
    ensures !r.Ignored?
    ensures r.Panicked? <==> Parent(inputFolderCanonical).None? || StripPrefix(file, Parent(inputFolderCanonical).value).None? ||
                             StripPrefix(file, Parent(inputFolderCanonical).value).value.parts == []
  {
    match Parent(inputFolderCanonical)
    case None => Panicked
    case Some(inputParent) =>
      match StripPrefix(file, inputParent)
      case None => Panicked
      case Some(relative) =>
        match ShaderPair(relative)
        case None => Panicked
        case Some((vertex, fragment)) =>
          if vertex !in files || fragment !in files then
            MissingShaders(relative, if vertex !in files then vertex else fragment)
          else
            match TypeScript.Generate(vertex, fragment, outputFolder, files)
            case Err(e) => Rejected(e)
            case Ok(artifact) => Generated(artifact, relative)
  }

  /** The callback as written: `extension().unwrap()` panics on a path without an extension. */
  function HandleEventAsWritten(paths: seq<Path>, inputFolderCanonical: Path, files: map<Path, ShaderFile>, outputFolder: Path): (r: Outcome)
    ensures r.Ignored? <==> |paths| == 0 || (ExtensionOf(paths[0]).Some? && !IsShaderExtension(ExtensionOf(paths[0])))
    ensures |paths| > 0 && ExtensionOf(paths[0]).None? ==> r.Panicked?
  {
    if |paths| == 0 then Ignored
    else
      match ExtensionOf(paths[0])
      case None => Panicked
      case Some(ext) =>
        if ext != "vert" && ext != "frag" then Ignored
        else AfterExtensionGuard(paths[0], inputFolderCanonical, files, outputFolder)
  }

  /** The callback with a path without an extension ignored like any other non-shader path. */
  function HandleEvent(paths: seq<Path>, inputFolderCanonical: Path, files: map<Path, ShaderFile>, outputFolder: Path): (r: Outcome)
    ensures r.Ignored? <==> |paths| == 0 || !IsShaderExtension(ExtensionOf(paths[0]))
  {
    if |paths| == 0 || !IsShaderExtension(ExtensionOf(paths[0])) then Ignored
    else AfterExtensionGuard(paths[0], inputFolderCanonical, files, outputFolder)
  }

  /** An event whose first path has no extension (a folder, say) reaches the unwrap and panics as written; the corrected callback ignores it. */
  lemma PathWithoutExtensionPanicsAsWritten(paths: seq<Path>, inputFolderCanonical: Path, files: map<Path, ShaderFile>, outputFolder: Path)
    requires paths != [] && ExtensionOf(paths[0]).None?
    ensures HandleEventAsWritten(paths, inputFolderCanonical, files, outputFolder) == Panicked
    ensures HandleEvent(paths, inputFolderCanonical, files, outputFolder) == Ignored
  {
  }

  /** An instance: the event for a newly created folder shaders/lights. */
  lemma FolderEventPanicsAsWritten(inputFolderCanonical: Path, files: map<Path, ShaderFile>, outputFolder: Path)
    ensures var folder := Path(true, ["home", "shaders", "lights"]);
      && HandleEventAsWritten([folder], inputFolderCanonical, files, outputFolder) == Panicked
      && HandleEvent([folder], inputFolderCanonical, files, outputFolder) == Ignored
  {
    var folder := Path(true, ["home", "shaders", "lights"]);
    assert LastDot("lights").None?;
    PathWithoutExtensionPanicsAsWritten([folder], inputFolderCanonical, files, outputFolder);
  }

  /** Where the first path has an extension, the corrected callback behaves as written. */
  lemma HandleEventAgreesWhereExtensionPresent(paths: seq<Path>, inputFolderCanonical: Path, files: map<Path, ShaderFile>, outputFolder: Path)
    requires paths == [] || ExtensionOf(paths[0]).Some?
    ensures HandleEvent(paths, inputFolderCanonical, files, outputFolder) == HandleEventAsWritten(paths, inputFolderCanonical, files, outputFolder)
  {
  }

  /** An event without paths does nothing, only the first path counts, and non-shader files are ignored. */
  lemma HandleEventGuards(paths: seq<Path>, inputFolderCanonical: Path, files: map<Path, ShaderFile>, outputFolder: Path)
    ensures paths == [] ==> HandleEvent(paths, inputFolderCanonical, files, outputFolder) == Ignored
    ensures paths != [] ==> HandleEvent(paths, inputFolderCanonical, files, outputFolder) == HandleEvent([paths[0]], inputFolderCanonical, files, outputFolder)
    ensures paths != [] && !IsShaderExtension(ExtensionOf(paths[0])) ==> HandleEvent(paths, inputFolderCanonical, files, outputFolder) == Ignored
  {
  }

  /**
   * The existence gate: generation runs only when both files exist, a missing
   * vertex file is reported before a missing fragment file, and imports are
   * resolved only after generation succeeded.
   */
  lemma HandleEventPairingGate(file: Path, inputFolderCanonical: Path, files: map<Path, ShaderFile>, outputFolder: Path,
                               relative: Path, vertex: Path, fragment: Path)
    requires IsShaderExtension(ExtensionOf(file))
    requires Parent(inputFolderCanonical).Some? && StripPrefix(file, Parent(inputFolderCanonical).value) == Some(relative)
    requires ShaderPair(relative) == Some((vertex, fragment))
    ensures var r := HandleEvent([file], inputFolderCanonical, files, outputFolder);
      && (r.MissingShaders? <==> vertex !in files || fragment !in files)
      && (r.MissingShaders? ==> r.file == relative && r.create == if vertex !in files then vertex else fragment)
      && (r.Generated? || r.Rejected? ==> vertex in files && fragment in files)
      && (r.Generated? <==> vertex in files && fragment in files && TypeScript.Generate(vertex, fragment, outputFolder, files).Ok?)
      && (r.Generated? ==> Ok(r.artifact) == TypeScript.Generate(vertex, fragment, outputFolder, files) && r.importsOf == relative)
      && !r.Panicked? && !r.Ignored?
  {
  }

  /** The relative path keeps the trigger's file name. */
  lemma StripPrefixKeepsFileName(file: Path, prefix: Path)
    requires StripPrefix(file, prefix).Some? && |StripPrefix(file, prefix).value.parts| > 0
    ensures FileName(StripPrefix(file, prefix).value) == FileName(file)
  {
    var relative := StripPrefix(file, prefix).value;
    assert file.parts == prefix.parts + relative.parts;
  }

  /** The pair derived from the relative path contains the trigger's relative path, in the slot its extension names. */
  lemma RelativeTriggerIsInItsPair(file: Path, prefix: Path, relative: Path)
    requires IsShaderExtension(ExtensionOf(file))
    requires StripPrefix(file, prefix) == Some(relative) && |relative.parts| > 0
    ensures ShaderPair(relative).Some?
    ensures ExtensionOf(file) == Some("vert") ==> ShaderPair(relative).value.0 == relative
    ensures ExtensionOf(file) == Some("frag") ==> ShaderPair(relative).value.1 == relative
  {
    StripPrefixKeepsFileName(file, prefix);
    TriggerIsInItsPair(relative);
  }
}
