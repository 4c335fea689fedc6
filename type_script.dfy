/**
 * generator/type_script.rs: cross-checks the declarations of a vertex and a
 * fragment shader, merges their uniforms and renders the TypeScript module
 * that embeds both sources. A check that fails aborts before anything is
 * written; here that is an Err result instead of a written Artifact.
 */
module TypeScript {
  import opened Wrappers
  import opened Paths
  import opened Common

  // ----- convert_glsl_to_ts_label -------------------------------------------

  /** The label emitted for a declared type; every type outside the table is "UNKNOWN". */
  function Label(t: GlslType): (r: string)
    ensures r == "UNKNOWN" <==> t.Other?
  {
    match t
    case Float => "float"
    case Vec2 => "vec2"
    case Vec3 => "vec3"
    case Vec4 => "vec4"
    case Int => "int"
    case IVec2 => "ivec2"
    case IVec3 => "ivec3"
    case IVec4 => "ivec4"
    case UInt => "uint"
    case UVec2 => "uvec2"
    case UVec3 => "uvec3"
    case UVec4 => "uvec4"
    case Bool => "bool"
    case BVec2 => "bvec2"
    case BVec3 => "bvec3"
    case BVec4 => "bvec4"
    case Mat2 => "mat2"
    case Mat3 => "mat3"
    case Mat4 => "mat4"
    case Other(_) => "UNKNOWN"
  }

  /** Distinct table types get distinct labels, so a label identifies its type. */
  lemma LabelInjective(a: GlslType, b: GlslType)
    requires !a.Other? && !b.Other?
    requires Label(a) == Label(b)
    ensures a == b
  {
  }

  /** A label is a non-empty word of letters and digits: it cannot break the string literal it is emitted in. */
  lemma LabelIsWord(t: GlslType)
    ensures |Label(t)| > 0
    ensures forall k :: 0 <= k < |Label(t)| ==> IsWordChar(Label(t)[k])
  {
  }

  predicate IsWordChar(c: char)
  {
    'a' <= c <= 'z' || 'A' <= c <= 'Z' || '0' <= c <= '9'
  }

  // ----- the four checks ----------------------------------------------------

  /** Why a shader pair is rejected; each carries the offending name. */
  datatype CheckError =
    | UniformTypeConflict(name: string)
    | VaryingMissingInFragment(name: string)
    | VaryingMissingInVertex(name: string)
    | VaryingTypeConflict(name: string)

  predicate HasName(ds: seq<Decl>, n: string)
  {
    exists j :: 0 <= j < |ds| && ds[j].name == n
  }

  /** A declaration is checked either for type agreement with, or for presence in, the other shader's list. */
  datatype Rule = AgreesWith(others: seq<Decl>) | DeclaredIn(others: seq<Decl>)

  predicate Violates(d: Decl, rule: Rule)
  {
    match rule
    case AgreesWith(others) => exists j :: 0 <= j < |others| && others[j].name == d.name && others[j].ty != d.ty
    case DeclaredIn(others) => !HasName(others, d.name)
  }

  /** The name of the first declaration of `ds` that breaks `rule`: the loop order of the checks. */
  function FirstViolation(ds: seq<Decl>, rule: Rule): (r: Option<string>)
    ensures r.None? <==> forall i :: 0 <= i < |ds| ==> !Violates(ds[i], rule)
    ensures r.Some? ==> exists i :: 0 <= i < |ds| && Violates(ds[i], rule) && ds[i].name == r.value &&
                                    forall k :: 0 <= k < i ==> !Violates(ds[k], rule)
  {
    if ds == [] then None
    else if Violates(ds[0], rule) then Some(ds[0].name)
    else
      var r := FirstViolation(ds[1..], rule);
      assert forall i :: 1 <= i < |ds| ==> ds[i] == ds[1..][i - 1];
      r
  }

  /** The first failing check decides the error; no error means the merged uniforms. */
  function Validate(v: ShaderData, f: ShaderData): Result<seq<Decl>, CheckError>
  {
    match FirstViolation(v.uniforms, AgreesWith(f.uniforms))
    case Some(n) => Err(UniformTypeConflict(n))
    case None =>
      match FirstViolation(v.varyings, DeclaredIn(f.varyings))
      case Some(n) => Err(VaryingMissingInFragment(n))
      case None =>
        match FirstViolation(f.varyings, DeclaredIn(v.varyings))
        case Some(n) => Err(VaryingMissingInVertex(n))
        case None =>
          match FirstViolation(v.varyings, AgreesWith(f.varyings))
          case Some(n) => Err(VaryingTypeConflict(n))
          case None => Ok(Merge(v.uniforms, f.uniforms))
  }

  /** Same-named declarations of the two lists have the same type. */
  predicate TypesAgree(xs: seq<Decl>, ys: seq<Decl>)
  {
    forall i, j :: 0 <= i < |xs| && 0 <= j < |ys| && xs[i].name == ys[j].name ==> xs[i].ty == ys[j].ty
  }

  /** Every name of `xs` is declared in `ys`. */
  predicate NamesCovered(xs: seq<Decl>, ys: seq<Decl>)
  {
    forall i :: 0 <= i < |xs| ==> HasName(ys, xs[i].name)
  }

  /** What the checks demand of a shader pair, stated without their loop order. */
  predicate Consistent(v: ShaderData, f: ShaderData)
  {
    && TypesAgree(v.uniforms, f.uniforms)
    && NamesCovered(v.varyings, f.varyings)
    && NamesCovered(f.varyings, v.varyings)
    && TypesAgree(v.varyings, f.varyings)
  }

  lemma FirstViolationAgreesWith(xs: seq<Decl>, ys: seq<Decl>)
    ensures FirstViolation(xs, AgreesWith(ys)).None? <==> TypesAgree(xs, ys)
  {
    if !TypesAgree(xs, ys) {
      var i, j :| 0 <= i < |xs| && 0 <= j < |ys| && xs[i].name == ys[j].name && xs[i].ty != ys[j].ty;
      assert Violates(xs[i], AgreesWith(ys));
    }
  }

  /** A pair passes validation exactly when it is consistent, and then the result is the merged uniform list. */
  lemma ValidateAcceptsExactlyConsistent(v: ShaderData, f: ShaderData)
    ensures Validate(v, f).Ok? <==> Consistent(v, f)
    ensures Validate(v, f).Ok? ==> Validate(v, f).value == Merge(v.uniforms, f.uniforms)
  {
    FirstViolationAgreesWith(v.uniforms, f.uniforms);
    FirstViolationAgreesWith(v.varyings, f.varyings);
  }

  /** The checks run in order and fail fast: each error names a genuine offender, and every earlier check passed. */
  lemma ValidateErrorNamesOffender(v: ShaderData, f: ShaderData, n: string)
    ensures Validate(v, f) == Err(UniformTypeConflict(n)) ==>
      exists i, j :: 0 <= i < |v.uniforms| && 0 <= j < |f.uniforms| &&
        v.uniforms[i].name == n == f.uniforms[j].name && v.uniforms[i].ty != f.uniforms[j].ty
    ensures !TypesAgree(v.uniforms, f.uniforms) ==> Validate(v, f).Err? && Validate(v, f).error.UniformTypeConflict?
    ensures Validate(v, f) == Err(VaryingMissingInFragment(n)) ==>
      TypesAgree(v.uniforms, f.uniforms) && HasName(v.varyings, n) && !HasName(f.varyings, n)
    ensures Validate(v, f) == Err(VaryingMissingInVertex(n)) ==>
      TypesAgree(v.uniforms, f.uniforms) && NamesCovered(v.varyings, f.varyings) && HasName(f.varyings, n) && !HasName(v.varyings, n)
    ensures Validate(v, f) == Err(VaryingTypeConflict(n)) ==>
      TypesAgree(v.uniforms, f.uniforms) && NamesCovered(v.varyings, f.varyings) && NamesCovered(f.varyings, v.varyings) &&
      exists i, j :: 0 <= i < |v.varyings| && 0 <= j < |f.varyings| &&
        v.varyings[i].name == n == f.varyings[j].name && v.varyings[i].ty != f.varyings[j].ty
  {
    FirstViolationAgreesWith(v.uniforms, f.uniforms);
    FirstViolationAgreesWith(v.varyings, f.varyings);
  }

  // ----- merging the uniforms ----------------------------------------------

  /** Vertex uniforms, then each fragment uniform whose name the list does not hold yet. */
  function Merge(vs: seq<Decl>, fs: seq<Decl>): seq<Decl>
    decreases |fs|
  {
    if fs == [] then vs
    else
      var merged := Merge(vs, fs[..|fs| - 1]);
      var u := fs[|fs| - 1];
      if HasName(merged, u.name) then merged else merged + [u]
  }

  /** Fragment uniform `j` is new: its name is neither a vertex uniform nor an earlier fragment uniform. */
  predicate IsNew(vs: seq<Decl>, fs: seq<Decl>, j: nat)
    requires j < |fs|
  {
    !HasName(vs, fs[j].name) && forall k :: 0 <= k < j ==> fs[k].name != fs[j].name
  }

  /** The fragment-only uniforms: the first declaration of each name the vertex shader lacks, in fragment order. */
  function FragmentOnly(vs: seq<Decl>, fs: seq<Decl>): seq<Decl>
    decreases |fs|
  {
    if fs == [] then []
    else FragmentOnly(vs, fs[..|fs| - 1]) + (if IsNew(vs, fs, |fs| - 1) then [fs[|fs| - 1]] else [])
  }

  /** The merged list holds exactly the names of both lists. */
  lemma {:induction false} MergeNames(vs: seq<Decl>, fs: seq<Decl>, n: string)
    ensures HasName(Merge(vs, fs), n) <==> HasName(vs, n) || HasName(fs, n)
    decreases |fs|
  {
    if fs != [] {
      var init := fs[..|fs| - 1];
      MergeNames(vs, init, n);
      var merged := Merge(vs, init);
      var u := fs[|fs| - 1];
      if HasName(fs, n) && !HasName(init, n) {
        assert u.name == n;
      }
      if HasName(init, n) {
        var j :| 0 <= j < |init| && init[j].name == n;
        assert fs[j].name == n;
      }
      if !HasName(merged, u.name) {
        assert (merged + [u])[|merged|] == u;
        if HasName(merged + [u], n) && n != u.name {
          var j :| 0 <= j < |merged + [u]| && (merged + [u])[j].name == n;
          assert merged[j].name == n;
        }
        if HasName(merged, n) {
          var j :| 0 <= j < |merged| && merged[j].name == n;
          assert (merged + [u])[j].name == n;
        }
      }
    }
  }

  /** The merged list is the vertex uniforms followed by the fragment-only uniforms. */
  lemma {:induction false} MergeIsVertexThenFragmentOnly(vs: seq<Decl>, fs: seq<Decl>)
    ensures Merge(vs, fs) == vs + FragmentOnly(vs, fs)
    decreases |fs|
  {
    if fs != [] {
      var init := fs[..|fs| - 1];
      var last := |fs| - 1;
      MergeIsVertexThenFragmentOnly(vs, init);
      MergeNames(vs, init, fs[last].name);
      if HasName(init, fs[last].name) {
        var k :| 0 <= k < |init| && init[k].name == fs[last].name;
        assert fs[k].name == fs[last].name;
        assert !IsNew(vs, fs, last);
      }
      if !IsNew(vs, fs, last) && !HasName(vs, fs[last].name) {
        var k :| 0 <= k < last && fs[k].name == fs[last].name;
        assert init[k].name == fs[last].name;
      }
    }
  }

  predicate UniqueNames(ds: seq<Decl>)
  {
    forall i, j :: 0 <= i < j < |ds| ==> ds[i].name != ds[j].name
  }

  /** Merging never duplicates a name: unique vertex names stay unique after the merge. */
  lemma {:induction false} MergeKeepsNamesUnique(vs: seq<Decl>, fs: seq<Decl>)
    requires UniqueNames(vs)
    ensures UniqueNames(Merge(vs, fs))
    decreases |fs|
  {
    if fs != [] {
      var init := fs[..|fs| - 1];
      MergeKeepsNamesUnique(vs, init);
      var merged := Merge(vs, init);
      var u := fs[|fs| - 1];
      if !HasName(merged, u.name) {
        var m := merged + [u];
        forall i, j | 0 <= i < j < |m| ensures m[i].name != m[j].name {
          if j == |merged| {
            assert m[i] == merged[i];
          }
        }
      }
    }
  }

  /** With agreeing types and no repeated fragment name, every declaration of either list is in the merge, and nothing else. */
  lemma MergeIsUnion(vs: seq<Decl>, fs: seq<Decl>)
    requires TypesAgree(vs, fs) && UniqueNames(fs)
    ensures forall d :: d in Merge(vs, fs) <==> d in vs || d in fs
  {
    MergeIsVertexThenFragmentOnly(vs, fs);
    FragmentOnlyMembers(vs, fs);
    forall d | d in fs ensures d in Merge(vs, fs) {
      var j :| 0 <= j < |fs| && fs[j] == d;
      if HasName(vs, d.name) {
        var i :| 0 <= i < |vs| && vs[i].name == d.name;
        assert vs[i] == d;
      } else {
        assert IsNew(vs, fs, j);
      }
    }
  }

  /** The fragment-only list holds exactly the new fragment uniforms. */
  lemma {:induction false} FragmentOnlyMembers(vs: seq<Decl>, fs: seq<Decl>)
    ensures forall d :: d in FragmentOnly(vs, fs) <==> exists j :: 0 <= j < |fs| && fs[j] == d && IsNew(vs, fs, j)
    decreases |fs|
  {
    if fs != [] {
      var init := fs[..|fs| - 1];
      FragmentOnlyMembers(vs, init);
      forall j | 0 <= j < |init| ensures IsNew(vs, init, j) == IsNew(vs, fs, j) && init[j] == fs[j] {
      }
    }
  }

  // ----- rendering ---------------------------------------------------------

  /** One `name: "label",` line of the uniforms or attributes object. */
  function Entry(d: Decl): string
  {
    "        " + d.name + ": \"" + Label(d.ty) + "\",\n"
  }

  function Entries(ds: seq<Decl>): string
  {
    if ds == [] then "" else Entry(ds[0]) + Entries(ds[1..])
  }

  /** The two header lines, then both sources embedded verbatim between backquotes. */
  function Preamble(vertexText: string, fragmentText: string): string
  {
    "// DO NOT EDIT THIS FILE\n" +
    "// This file is generated by glsl-types\n\n" +
    "const VERTEX_SHADER_SOURCE = `" + vertexText + "`;\n\n" +
    "const FRAGMENT_SHADER_SOURCE = `" + fragmentText + "`;\n\n"
  }

  /** The generated module: the preamble, then the exported object. */
  function Render(vertexText: string, fragmentText: string, typeName: string, uniforms: seq<Decl>, attributes: seq<Decl>): string
  {
    Preamble(vertexText, fragmentText) +
    "export const " + typeName + " = {\n" +
    "    uniforms: {\n" + Entries(uniforms) + "    },\n" +
    "    attributes: {\n" + Entries(attributes) + "    },\n" +
    "    vertexShaderSource: VERTEX_SHADER_SOURCE,\n" +
    "    fragmentShaderSource: FRAGMENT_SHADER_SOURCE,\n" +
    "};\n"
  }

  lemma {:induction false} EntriesAppend(xs: seq<Decl>, ys: seq<Decl>)
    ensures Entries(xs + ys) == Entries(xs) + Entries(ys)
  {
    if xs == [] {
      assert xs + ys == ys;
    } else {
      assert (xs + ys)[1..] == xs[1..] + ys;
      EntriesAppend(xs[1..], ys);
    }
  }

  lemma EntriesSnoc(ds: seq<Decl>, i: nat)
    requires i < |ds|
    ensures Entries(ds[..i + 1]) == Entries(ds[..i]) + Entry(ds[i])
  {
    EntriesAppend(ds[..i], [ds[i]]);
    assert ds[..i + 1] == ds[..i] + [ds[i]];
    assert Entries([ds[i]]) == Entry(ds[i]) + Entries([]);
  }

  function CountChar(c: char, s: string): nat
  {
    if s == [] then 0 else (if s[0] == c then 1 else 0) + CountChar(c, s[1..])
  }

  lemma {:induction false} CountCharAppend(c: char, s: string, t: string)
    ensures CountChar(c, s + t) == CountChar(c, s) + CountChar(c, t)
  {
    if s == [] {
      assert s + t == t;
    } else {
      assert (s + t)[1..] == s[1..] + t;
      CountCharAppend(c, s[1..], t);
    }
  }

  lemma CountCharFree(c: char, s: string)
    requires forall k :: 0 <= k < |s| ==> s[k] != c
    ensures CountChar(c, s) == 0
  {
  }

  /** An entry is exactly one line when the declared name holds no line break. */
  lemma EntryIsOneLine(d: Decl)
    requires forall k :: 0 <= k < |d.name| ==> d.name[k] != '\n'
    ensures CountChar('\n', Entry(d)) == 1 && Entry(d)[|Entry(d)| - 1] == '\n'
  {
    LabelIsWord(d.ty);
    CountCharFree('\n', d.name);
    CountCharFree('\n', Label(d.ty));
    CountCharAppend('\n', "        ", d.name);
    CountCharAppend('\n', "        " + d.name, ": \"");
    CountCharAppend('\n', "        " + d.name + ": \"", Label(d.ty));
    CountCharAppend('\n', "        " + d.name + ": \"" + Label(d.ty), "\",\n");
  }

  /** A block of entries has one line per declaration. */
  lemma {:induction false} EntriesLineCount(ds: seq<Decl>)
    requires forall i :: 0 <= i < |ds| ==> forall k :: 0 <= k < |ds[i].name| ==> ds[i].name[k] != '\n'
    ensures CountChar('\n', Entries(ds)) == |ds|
  {
    if ds != [] {
      EntryIsOneLine(ds[0]);
      EntriesLineCount(ds[1..]);
      CountCharAppend('\n', Entry(ds[0]), Entries(ds[1..]));
    }
  }

  /** The generated text starts with the two header lines and then embeds both sources verbatim. */
  lemma RenderBeginsWithHeaderAndSources(vertexText: string, fragmentText: string, typeName: string, uniforms: seq<Decl>, attributes: seq<Decl>)
    ensures "// DO NOT EDIT THIS FILE\n" + "// This file is generated by glsl-types\n\n" <=
            Render(vertexText, fragmentText, typeName, uniforms, attributes)
    ensures Preamble(vertexText, fragmentText) <= Render(vertexText, fragmentText, typeName, uniforms, attributes)
  {
    var h := "// DO NOT EDIT THIS FILE\n" + "// This file is generated by glsl-types\n\n";
    var h1 := h + "const VERTEX_SHADER_SOURCE = `";
    var h2 := h1 + vertexText;
    var h3 := h2 + "`;\n\n";
    var h4 := h3 + "const FRAGMENT_SHADER_SOURCE = `";
    var h5 := h4 + fragmentText;
    var p := h5 + "`;\n\n";
    PrefixOfAppend(h, "const VERTEX_SHADER_SOURCE = `");
    PrefixOfAppend(h1, vertexText);
    PrefixTrans(h, h1, h2);
    PrefixOfAppend(h2, "`;\n\n");
    PrefixTrans(h, h2, h3);
    PrefixOfAppend(h3, "const FRAGMENT_SHADER_SOURCE = `");
    PrefixTrans(h, h3, h4);
    PrefixOfAppend(h4, fragmentText);
    PrefixTrans(h, h4, h5);
    PrefixOfAppend(h5, "`;\n\n");
    PrefixTrans(h, h5, p);
    assert p == Preamble(vertexText, fragmentText);

    var x1 := p + "export const ";
    var x2 := x1 + typeName;
    var x3 := x2 + " = {\n";
    var x4 := x3 + "    uniforms: {\n";
    var x5 := x4 + Entries(uniforms);
    var x6 := x5 + "    },\n";
    var x7 := x6 + "    attributes: {\n";
    var x8 := x7 + Entries(attributes);
    var x9 := x8 + "    },\n";
    var x10 := x9 + "    vertexShaderSource: VERTEX_SHADER_SOURCE,\n";
    var x11 := x10 + "    fragmentShaderSource: FRAGMENT_SHADER_SOURCE,\n";
    var out := x11 + "};\n";
    assert out == Render(vertexText, fragmentText, typeName, uniforms, attributes);
    PrefixOfAppend(p, "export const ");
    PrefixOfAppend(x1, typeName);
    PrefixTrans(p, x1, x2);
    PrefixOfAppend(x2, " = {\n");
    PrefixTrans(p, x2, x3);
    PrefixOfAppend(x3, "    uniforms: {\n");
    PrefixTrans(p, x3, x4);
    PrefixOfAppend(x4, Entries(uniforms));
    PrefixTrans(p, x4, x5);
    PrefixOfAppend(x5, "    },\n");
    PrefixTrans(p, x5, x6);
    PrefixOfAppend(x6, "    attributes: {\n");
    PrefixTrans(p, x6, x7);
    PrefixOfAppend(x7, Entries(attributes));
    PrefixTrans(p, x7, x8);
    PrefixOfAppend(x8, "    },\n");
    PrefixTrans(p, x8, x9);
    PrefixOfAppend(x9, "    vertexShaderSource: VERTEX_SHADER_SOURCE,\n");
    PrefixTrans(p, x9, x10);
    PrefixOfAppend(x10, "    fragmentShaderSource: FRAGMENT_SHADER_SOURCE,\n");
    PrefixTrans(p, x10, x11);
    PrefixOfAppend(x11, "};\n");
    PrefixTrans(p, x11, out);
    PrefixTrans(h, p, out);
  }

  lemma PrefixTrans(a: string, b: string, c: string)
    requires a <= b && b <= c
    ensures a <= c
  {
  }

  lemma AppendAssoc(a: string, b: string, c: string)
    ensures (a + b) + c == a + (b + c)
  {
  }

  lemma PrefixOfAppend(s: string, t: string)
    ensures s <= s + t
  {
  }

  // ----- generate_ts_types_file ----------------------------------------------

  /** The generated file: where it goes and what it holds. */
  datatype Artifact = Artifact(path: Path, text: string)

  /** The outcome of one generation for a vertex/fragment pair read from `files`. */
  function Generate(vertexPath: Path, fragmentPath: Path, outputFolder: Path, files: map<Path, ShaderFile>): Result<Artifact, CheckError>
    requires vertexPath in files && fragmentPath in files && FileName(vertexPath).Some?
  {
    var v := files[vertexPath];
    var f := files[fragmentPath];
    match Validate(v.data, f.data)
    case Err(e) => Err(e)
    case Ok(uniforms) =>
      var stem := Stem(FileName(vertexPath).value);
      Ok(Artifact(Child(outputFolder, stem + ".ts"),
                  Render(v.text, f.text, CapitalizeFirstLetter(stem), uniforms, v.data.attributes)))
  }

  /** A file is produced exactly for a consistent pair; it holds the merged uniforms and only the vertex attributes. */
  lemma GenerateWritesOnlyConsistentPairs(vertexPath: Path, fragmentPath: Path, outputFolder: Path, files: map<Path, ShaderFile>)
    requires vertexPath in files && fragmentPath in files && FileName(vertexPath).Some?
    ensures var r := Generate(vertexPath, fragmentPath, outputFolder, files);
      var v := files[vertexPath].data;
      var f := files[fragmentPath].data;
      var stem := Stem(FileName(vertexPath).value);
      && (r.Ok? <==> Consistent(v, f))
      && (r.Ok? ==> r.value.path == Child(outputFolder, stem + ".ts"))
      && (r.Ok? ==> r.value.text == Render(files[vertexPath].text, files[fragmentPath].text, CapitalizeFirstLetter(stem),
                                            v.uniforms + FragmentOnly(v.uniforms, f.uniforms), v.attributes))
  {
    var v := files[vertexPath].data;
    var f := files[fragmentPath].data;
    ValidateAcceptsExactlyConsistent(v, f);
    MergeIsVertexThenFragmentOnly(v.uniforms, f.uniforms);
  }

  /** The fragment shader's attributes never reach the output. */
  lemma GenerateIgnoresFragmentAttributes(vertexPath: Path, fragmentPath: Path, outputFolder: Path, files: map<Path, ShaderFile>, attributes: seq<Decl>)
    requires vertexPath in files && fragmentPath in files && FileName(vertexPath).Some? && vertexPath != fragmentPath
    ensures var f := files[fragmentPath];
      var files' := files[fragmentPath := ShaderFile(f.text, ShaderData(f.data.uniforms, attributes, f.data.varyings))];
      Generate(vertexPath, fragmentPath, outputFolder, files') == Generate(vertexPath, fragmentPath, outputFolder, files)
  {
  }

  /** Check loop shape shared by the uniform and the varying type checks (lines 22-36 and 95-109). */
  method FindTypeConflict(xs: seq<Decl>, ys: seq<Decl>) returns (conflict: Option<string>)
    ensures conflict == FirstViolation(xs, AgreesWith(ys))
  {
    for i := 0 to |xs|
      invariant forall k :: 0 <= k < i ==> !Violates(xs[k], AgreesWith(ys))
    {
      for j := 0 to |ys|
        invariant forall l :: 0 <= l < j ==> !(ys[l].name == xs[i].name && ys[l].ty != xs[i].ty)
      {
        if xs[i].name == ys[j].name && xs[i].ty != ys[j].ty {
          assert Violates(xs[i], AgreesWith(ys));
          return Some(xs[i].name);
        }
      }
    }
    return None;
  }

  /** Check loop shape with a `found` flag shared by the two varying presence checks (lines 56-92). */
  method FindMissing(xs: seq<Decl>, ys: seq<Decl>) returns (missing: Option<string>)
    ensures missing == FirstViolation(xs, DeclaredIn(ys))
  {
    for i := 0 to |xs|
      invariant forall k :: 0 <= k < i ==> HasName(ys, xs[k].name)
    {
      var found := false;
      var j := 0;
      while j < |ys|
        invariant 0 <= j <= |ys|
        invariant !found ==> forall l :: 0 <= l < j ==> ys[l].name != xs[i].name
        invariant found ==> HasName(ys, xs[i].name)
      {
        if xs[i].name == ys[j].name {
          found := true;
          break;
        }
        j := j + 1;
      }
      if !found {
        return Some(xs[i].name);
      }
    }
    return None;
  }

  /** Lines 39-53: start from the vertex uniforms and push each fragment uniform not found in the list. */
  method MergeUniforms(vs: seq<Decl>, fs: seq<Decl>) returns (uniforms: seq<Decl>)
    ensures uniforms == Merge(vs, fs)
  {
    uniforms := vs;
    for i := 0 to |fs|
      invariant uniforms == Merge(vs, fs[..i])
    {
      var found := false;
      var j := 0;
      while j < |uniforms|
        invariant 0 <= j <= |uniforms|
        invariant !found ==> forall l :: 0 <= l < j ==> uniforms[l].name != fs[i].name
        invariant found ==> HasName(uniforms, fs[i].name)
      {
        if uniforms[j].name == fs[i].name {
          found := true;
          break;
        }
        j := j + 1;
      }
      assert fs[..i + 1][..i] == fs[..i];
      if !found {
        uniforms := uniforms + [fs[i]];
      }
    }
    assert fs[..|fs|] == fs;
  }

  /** Appends one entry per declaration, in order (the two loops of lines 130-146). */
  method EmitEntries(out: string, ds: seq<Decl>) returns (out': string)
    ensures out' == out + Entries(ds)
  {
    out' := out;
    for i := 0 to |ds|
      invariant out' == out + Entries(ds[..i])
    {
      var line := Entry(ds[i]);
      EntriesSnoc(ds, i);
      AppendAssoc(out, Entries(ds[..i]), line);
      out' := out' + line;
    }
    assert ds[..|ds|] == ds;
  }

  /** Lines 111-149: the output text built by successive appends. */
  method EmitTsFile(vertexText: string, fragmentText: string, typeName: string, uniforms: seq<Decl>, attributes: seq<Decl>)
    returns (out: string)
    ensures out == Render(vertexText, fragmentText, typeName, uniforms, attributes)
  {
    out := "// DO NOT EDIT THIS FILE\n";
    out := out + "// This file is generated by glsl-types\n\n";
    out := out + "const VERTEX_SHADER_SOURCE = `" + vertexText + "`;\n\n";
    out := out + "const FRAGMENT_SHADER_SOURCE = `" + fragmentText + "`;\n\n";
    out := out + "export const " + typeName + " = {\n";
    out := out + "    uniforms: {\n";
    out := EmitEntries(out, uniforms);
    out := out + "    },\n";
    out := out + "    attributes: {\n";
    out := EmitEntries(out, attributes);
    out := out + "    },\n";
    out := out + "    vertexShaderSource: VERTEX_SHADER_SOURCE,\n";
    out := out + "    fragmentShaderSource: FRAGMENT_SHADER_SOURCE,\n";
    out := out + "};\n";
  }

  /**
   * generate_ts_types_file: read both shaders, run the four checks in order,
   * merge the uniforms and render the file named after the vertex stem.
   */
  method GenerateTsTypesFile(vertexPath: Path, fragmentPath: Path, outputFolder: Path, files: map<Path, ShaderFile>)
    returns (r: Result<Artifact, CheckError>)
    requires vertexPath in files && fragmentPath in files && FileName(vertexPath).Some?
    ensures r == Generate(vertexPath, fragmentPath, outputFolder, files)
  {
    var vertexFile := files[vertexPath];
    var fragmentFile := files[fragmentPath];
    var v := vertexFile.data;
    var f := fragmentFile.data;

    var conflict := FindTypeConflict(v.uniforms, f.uniforms);
    if conflict.Some? {
      return Err(UniformTypeConflict(conflict.value));
    }

    var uniforms := MergeUniforms(v.uniforms, f.uniforms);

    var missing := FindMissing(v.varyings, f.varyings);
    if missing.Some? {
      return Err(VaryingMissingInFragment(missing.value));
    }
    missing := FindMissing(f.varyings, v.varyings);
    if missing.Some? {
      return Err(VaryingMissingInVertex(missing.value));
    }

    conflict := FindTypeConflict(v.varyings, f.varyings);
    if conflict.Some? {
      return Err(VaryingTypeConflict(conflict.value));
    }

    var stem := Stem(FileName(vertexPath).value);
    var text := EmitTsFile(vertexFile.text, fragmentFile.text, CapitalizeFirstLetter(stem), uniforms, v.attributes);
    return Ok(Artifact(Child(outputFolder, stem + ".ts"), text));
  }
}
