/**
 * The slice of the reflection library the shader code relies on: the type
 * identities it names by GUID and the type registry that knows, for each
 * registered type, how a default-constructed instance looks in memory.
 */
module Reflection {
  import opened Base

  /**
   * The GUIDs `GetStaticTypeInfo<T>().guid` yields for the types the shader
   * code names (each static type has its own GUID), and any other GUID.
   */
  datatype TypeId =
    | Float | Int | Vec2f | Vec3f | Vec4f | Mat3f | Mat4f | Sampler
    | OtherType(guid: nat)

  /** The default-constructed `edt::GUID`. */
  const NullType: TypeId := OtherType(0)

  /**
   * `GetTypeRegistry()`: each registered type with the bytes of a
   * default-constructed instance; their count is the instance size.
   */
  type Registry = map<TypeId, seq<byte>>

  /**
   * `sizeof` of the static types: `float`, `int`, the Eigen float vectors and
   * matrices, and `SamplerUniform` (a `uint8_t` index followed by a
   * `std::shared_ptr`, 24 bytes on a 64-bit target).
   */
  function StaticSize(t: TypeId): (r: nat)
    requires !t.OtherType?
    ensures r > 0
  {
    match t
    case Float => 4
    case Int => 4
    case Vec2f => 8
    case Vec3f => 12
    case Vec4f => 16
    case Mat3f => 36
    case Mat4f => 64
    case Sampler => 24
  }

  /** The types the shader code names statically. */
  const StaticTypes: set<TypeId> := {Float, Int, Vec2f, Vec3f, Vec4f, Mat3f, Mat4f, Sampler}

  /** The static types are registered, each with a default instance of its own size. */
  predicate StaticTypesRegistered(reg: Registry)
  {
    forall t | t in StaticTypes :: t in reg && |reg[t]| == StaticSize(t)
  }

  /** The types a GLSL uniform can be mapped to, which `ShaderUniform::SendValue` knows how to upload. */
  const GlTypes: set<TypeId> := {Float, Vec2f, Vec3f, Vec4f, Mat3f, Mat4f, Sampler}

  /** A type that `ShaderUniform::SendValue` knows how to upload. */
  predicate GlSendable(t: TypeId)
  {
    t in GlTypes
  }
}
