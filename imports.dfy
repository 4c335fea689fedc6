/**
 * import_resolver/imports.rs: collects the import directives of one parsed
 * shader into a map from each import's identifier to the file it names.
 * The syntax-tree walk is a pass over the imports in source order, and
 * canonicalisation is a lookup in `canonical`, which gives the canonical form
 * of every path that exists.
 */
module Imports {
  import opened Wrappers
  import opened Paths

  /** glsl::syntax::Path: an import target written in angle brackets or in quotes. */
  datatype ImportPath = Absolute(path: Path) | Relative(path: Path)

  /** One import directive: the identifier it binds and the file it names. */
  datatype Import = Import(identifier: string, path: ImportPath)

  /** canonicalize() fails when the joined path does not exist; the source unwraps it and panics. */
  datatype ImportError = Unresolved(path: Path)

  /** The path stored for one import: absolute targets as written, relative ones joined to the base and canonicalised. */
  function Resolve(basePath: Path, target: ImportPath, canonical: map<Path, Path>): (r: Result<Path, ImportError>)
    ensures r.Err? ==> target.Relative? && r.error.path !in canonical
    ensures r.Ok? && target.Relative? ==> r.value in canonical.Values
  {
    match target
    case Absolute(p) => Ok(p)
    case Relative(p) =>
      var joined := Join(basePath, p);
      if joined in canonical then Ok(canonical[joined]) else Err(Unresolved(joined))
  }

  /** The map after visiting `imports` in order, each insert replacing an earlier entry with the same key. */
  function Collect(basePath: Path, imports: seq<Import>, canonical: map<Path, Path>): Result<map<string, Path>, ImportError>
    decreases |imports|
  {
    if imports == [] then Ok(map[])
    else
      var last := imports[|imports| - 1];
      match Collect(basePath, imports[..|imports| - 1], canonical)
      case Err(e) => Err(e)
      case Ok(m) =>
        match Resolve(basePath, last.path, canonical)
        case Err(e) => Err(e)
        case Ok(p) => Ok(m[last.identifier := p])
  }

  function Identifiers(imports: seq<Import>): set<string>
  {
    set i | 0 <= i < |imports| :: imports[i].identifier
  }

  /** Import `i` is the last one binding its identifier. */
  predicate IsLastFor(imports: seq<Import>, i: nat)
    requires i < |imports|
  {
    forall l :: i < l < |imports| ==> imports[l].identifier != imports[i].identifier
  }

  /** The keys are exactly the identifiers visited, so there are at most as many entries as imports. */
  lemma {:induction false} CollectKeys(basePath: Path, imports: seq<Import>, canonical: map<Path, Path>)
    requires Collect(basePath, imports, canonical).Ok?
    ensures Collect(basePath, imports, canonical).value.Keys == Identifiers(imports)
    ensures |Collect(basePath, imports, canonical).value| <= |imports|
    decreases |imports|
  {
    if imports != [] {
      var init := imports[..|imports| - 1];
      var last := imports[|imports| - 1];
      CollectKeys(basePath, init, canonical);
      var m := Collect(basePath, init, canonical).value;
      assert Identifiers(imports) == Identifiers(init) + {last.identifier} by {
        forall x | x in Identifiers(imports) ensures x in Identifiers(init) + {last.identifier} {
          var i :| 0 <= i < |imports| && imports[i].identifier == x;
          if i < |init| { assert init[i].identifier == x; }
        }
        forall x | x in Identifiers(init) ensures x in Identifiers(imports) {
          var i :| 0 <= i < |init| && init[i].identifier == x;
          assert imports[i].identifier == x;
        }
      }
      var m' := m[last.identifier := Resolve(basePath, last.path, canonical).value];
      if last.identifier in m {
        assert m'.Keys == m.Keys;
      } else {
        assert m'.Keys == m.Keys + {last.identifier};
      }
    }
  }

  /** Last write wins: each identifier maps to the path of the last import that binds it. */
  lemma {:induction false} CollectLastWriteWins(basePath: Path, imports: seq<Import>, canonical: map<Path, Path>, i: nat)
    requires Collect(basePath, imports, canonical).Ok?
    requires i < |imports| && IsLastFor(imports, i)
    ensures imports[i].identifier in Collect(basePath, imports, canonical).value
    ensures Resolve(basePath, imports[i].path, canonical) == Ok(Collect(basePath, imports, canonical).value[imports[i].identifier])
    decreases |imports|
  {
    var init := imports[..|imports| - 1];
    if i < |init| {
      assert IsLastFor(init, i) by {
        forall l | i < l < |init| ensures init[l].identifier != init[i].identifier {
          assert init[l] == imports[l];
        }
      }
      CollectLastWriteWins(basePath, init, canonical, i);
      assert imports[|imports| - 1].identifier != imports[i].identifier;
    }
  }

  /** The stored path of an identifier: the last binding import's target as written if absolute, else the canonical form of base + target. */
  lemma CollectStoresResolvedPath(basePath: Path, imports: seq<Import>, canonical: map<Path, Path>, i: nat)
    requires Collect(basePath, imports, canonical).Ok?
    requires i < |imports| && IsLastFor(imports, i)
    ensures var m := Collect(basePath, imports, canonical).value;
      && imports[i].identifier in m
      && (imports[i].path.Absolute? ==> m[imports[i].identifier] == imports[i].path.path)
      && (imports[i].path.Relative? ==> Join(basePath, imports[i].path.path) in canonical &&
                                        m[imports[i].identifier] == canonical[Join(basePath, imports[i].path.path)])
  {
    CollectLastWriteWins(basePath, imports, canonical, i);
  }

  /** A relative import whose target does not exist stops the collection, and the first such import is reported. */
  lemma {:induction false} CollectFailsAtFirstUnresolved(basePath: Path, imports: seq<Import>, canonical: map<Path, Path>)
    ensures Collect(basePath, imports, canonical).Err? <==>
      exists i :: 0 <= i < |imports| && Resolve(basePath, imports[i].path, canonical).Err?
    ensures Collect(basePath, imports, canonical).Err? ==>
      exists i :: 0 <= i < |imports| && Resolve(basePath, imports[i].path, canonical) == Err(Collect(basePath, imports, canonical).error) &&
        forall k :: 0 <= k < i ==> Resolve(basePath, imports[k].path, canonical).Ok?
    decreases |imports|
  {
    if imports != [] {
      var init := imports[..|imports| - 1];
      CollectFailsAtFirstUnresolved(basePath, init, canonical);
      if exists i :: 0 <= i < |init| && Resolve(basePath, init[i].path, canonical).Err? {
        var i :| 0 <= i < |init| && Resolve(basePath, init[i].path, canonical).Err?;
        assert imports[i] == init[i];
      }
      if Collect(basePath, init, canonical).Err? {
        var i :| 0 <= i < |init| && Resolve(basePath, init[i].path, canonical) == Err(Collect(basePath, init, canonical).error) &&
          forall k :: 0 <= k < i ==> Resolve(basePath, init[k].path, canonical).Ok?;
        assert imports[i] == init[i];
        assert forall k :: 0 <= k < i ==> imports[k] == init[k];
      } else {
        forall k | 0 <= k < |init| ensures Resolve(basePath, imports[k].path, canonical).Ok? {
          assert imports[k] == init[k];
        }
      }
    }
  }

  /** Once a prefix of the imports fails, the whole collection fails with the same error. */
  lemma {:induction false} CollectErrorPersists(basePath: Path, imports: seq<Import>, canonical: map<Path, Path>, k: nat)
    requires k <= |imports| && Collect(basePath, imports[..k], canonical).Err?
    ensures Collect(basePath, imports, canonical) == Collect(basePath, imports[..k], canonical)
    decreases |imports|
  {
    if k < |imports| {
      var init := imports[..|imports| - 1];
      assert init[..k] == imports[..k];
      CollectErrorPersists(basePath, init, canonical, k);
    } else {
      assert imports[..k] == imports;
    }
  }

  /** FileImports: the visitor state, the importing file's folder and the map built so far. */
  class FileImports {
    var basePath: Path
    var imports: map<string, Path>

    /** FileImports::new: the base is the parent of the importing file; the map starts empty. */
    constructor (filePath: Path)
      requires Parent(filePath).Some?
      ensures basePath == Parent(filePath).value && imports == map[]
    {
      basePath := Parent(filePath).value;
      imports := map[];
    }

    /** visit_import: resolve the target and insert it under the import's identifier. */
    method VisitImport(imp: Import, canonical: map<Path, Path>) returns (resolved: Result<Path, ImportError>)
      modifies this
      ensures basePath == old(basePath)
      ensures resolved == Resolve(basePath, imp.path, canonical)
      ensures resolved.Ok? ==> imports == old(imports)[imp.identifier := resolved.value]
      ensures resolved.Err? ==> imports == old(imports)
    {
      var path: Path;
      if imp.path.Absolute? {
        path := imp.path.path;
      } else {
        var joined := Join(basePath, imp.path.path);
        if joined !in canonical {
          return Err(Unresolved(joined));
        }
        path := canonical[joined];
      }
      imports := imports[imp.identifier := path];
      resolved := Ok(path);
    }
  }

  /** get_file_imports: walk every import of the tree with a fresh visitor and return its map. */
  method GetFileImports(ast: seq<Import>, filePath: Path, canonical: map<Path, Path>) returns (r: Result<map<string, Path>, ImportError>)
    requires Parent(filePath).Some?
    ensures r == Collect(Parent(filePath).value, ast, canonical)
  {
    var visitor := new FileImports(filePath);
    for i := 0 to |ast|
      invariant visitor.basePath == Parent(filePath).value
      invariant Collect(visitor.basePath, ast[..i], canonical) == Ok(visitor.imports)
    {
      var resolved := visitor.VisitImport(ast[i], canonical);
      assert ast[..i + 1][..i] == ast[..i];
      if resolved.Err? {
        CollectErrorPersists(visitor.basePath, ast, canonical, i + 1);
        return Err(resolved.error);
      }
    }
    assert ast[..|ast|] == ast;
    return Ok(visitor.imports);
  }
}
