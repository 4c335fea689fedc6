/**
 * The shader interface that declaration extraction (generator/common.rs, not
 * part of this model) hands to the generator: the declared GLSL type of every
 * uniform, attribute and varying, in source order.
 */
module Common {
  /** The glsl crate's TypeSpecifierNonArray: the 19 types the label table names, and every other one. */
  datatype GlslType =
    | Float | Vec2 | Vec3 | Vec4
    | Int | IVec2 | IVec3 | IVec4
    | UInt | UVec2 | UVec3 | UVec4
    | Bool | BVec2 | BVec3 | BVec4
    | Mat2 | Mat3 | Mat4
    | Other(spelling: string)

  /** A uniform, attribute or varying declaration: its name and declared type. */
  datatype Decl = Decl(name: string, ty: GlslType)

  /** What extraction returns for one shader, each list in declaration order. */
  datatype ShaderData = ShaderData(uniforms: seq<Decl>, attributes: seq<Decl>, varyings: seq<Decl>)

  /** One shader file as read from disk: its text and the declarations extracted from it. */
  datatype ShaderFile = ShaderFile(text: string, data: ShaderData)

  /** common::capitalize_first_letter, on ASCII: upper-cases a leading lower-case letter. */
  function CapitalizeFirstLetter(s: string): (r: string)
    ensures |r| == |s| && (s != [] ==> r[1..] == s[1..])
    ensures s != [] && 'a' <= s[0] <= 'z' ==> r[0] == s[0] - 'a' + 'A'
    ensures s != [] && !('a' <= s[0] <= 'z') ==> r[0] == s[0]
  {
    if s != [] && 'a' <= s[0] <= 'z' then [s[0] - 'a' + 'A'] + s[1..] else s
  }
}
