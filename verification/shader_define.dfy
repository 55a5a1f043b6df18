/**
 * `ShaderDefine` of klgl/shader: a named, typed compile-time constant that is
 * read from the shader's JSON description and turned into a `#define` line
 * prepended to the GLSL sources. Number formatting (`fmt::format("{}", …)`)
 * is a parameter of the model.
 */
module ShaderDefines {
  import opened Base
  import opened Reflection
  import opened NameCache
  import opened Names

  datatype Define = Define(value: seq<byte>, name: Name, typeId: TypeId)

  /** The protected default constructor: no value, the invalid name, the null GUID. */
  const Blank: Define := Define([], Default, NullType)

  /** Formatters for the bytes of an `int` and of a `float`. */
  datatype Formatter = Formatter(int32: seq<byte> -> string, float32: seq<byte> -> string)

  /**
   * `SetValue`: throws `std::runtime_error` when the define's type is not in
   * the registry; otherwise the value becomes a copy of the bytes, whatever
   * their count.
   */
  function SetValue(d: Define, reg: Registry, bytes: seq<byte>): (r: Outcome<Define>)
    ensures r.Threw? <==> d.typeId !in reg
    ensures r.Threw? ==> r == Threw(RuntimeError, d)
    ensures r.Done? ==> r.state == Define(bytes, d.name, d.typeId)
  {
    if d.typeId !in reg then Threw(RuntimeError, d) else Done(d.(value := bytes))
  }

  /** `MoveFrom`: the destination takes all fields; the source keeps name and type but loses its value. */
  function MoveFrom(dst: Define, src: Define): (r: (Define, Define))
    ensures r.0 == src
    ensures r.1.value == [] && r.1.name == src.name && r.1.typeId == src.typeId
  {
    (src, src.(value := []))
  }

  /** The JSON "type" strings `ReadFromJson` accepts and the type each selects. */
  function TypeForName(typeName: string): (r: Option<TypeId>)
    ensures r.Some? ==> r.value in {Float, Int, Vec3f, Vec2f}
  {
    if typeName == "float" then Some(Float)
    else if typeName == "int" then Some(Int)
    else if typeName == "vec3" then Some(Vec3f)
    else if typeName == "vec2" then Some(Vec2f)
    else None
  }

  /** The JSON name of each type a define can have; the partner of `TypeForName`. */
  function JsonName(t: TypeId): (r: Option<string>)
  {
    match t
    case Float => Some("float")
    case Int => Some("int")
    case Vec3f => Some("vec3")
    case Vec2f => Some("vec2")
    case _ => None
  }

  /** `TypeForName` and `JsonName` are inverse to each other on the accepted names. */
  lemma TypeNamesInverse(typeName: string, t: TypeId)
    ensures TypeForName(typeName) == Some(t) <==> JsonName(t) == Some(typeName)
  {
  }

  /**
   * `ReadFromJson`: interns the "name" first, then selects the type by the
   * "type" string (throwing `std::runtime_error` for any other string) and
   * stores the "default" value through `SetValue`. `defaultBytes` are the
   * in-memory bytes of the parsed default, a value of the selected type.
   */
  function ReadFromJson(c: Cache, reg: Registry, name: string, typeName: string, defaultBytes: seq<byte>)
    : (r: (Result<Define>, Cache))
    requires TypeForName(typeName).Some? ==> |defaultBytes| == StaticSize(TypeForName(typeName).value)
    ensures r.1 == FromString(c, name).1
    ensures r.0.Err? <==> TypeForName(typeName).None? || TypeForName(typeName).value !in reg
    ensures r.0.Err? ==> r.0.error == RuntimeError
    ensures r.0.Ok? ==> r.0.value == Define(defaultBytes, FromString(c, name).0, TypeForName(typeName).value)
  {
    var (n, c1) := FromString(c, name);
    var d := Blank.(name := n);
    match TypeForName(typeName)
    case None => (Err(RuntimeError), c1)
    case Some(t) =>
      match SetValue(d.(typeId := t), reg, defaultBytes)
      case Done(d1) => (Ok(d1), c1)
      case Threw(e, _) => (Err(e), c1)
  }

  /** What `CastBuffer` asserts before reading a value as its type. */
  predicate ValueSized(d: Define)
  {
    d.typeId in {Int, Float, Vec3f, Vec2f} ==> |d.value| == StaticSize(d.typeId)
  }

  /** Every define read from JSON holds a value of its type's size. */
  lemma ReadFromJsonSized(c: Cache, reg: Registry, name: string, typeName: string, defaultBytes: seq<byte>)
    requires TypeForName(typeName).Some? ==> |defaultBytes| == StaticSize(TypeForName(typeName).value)
    ensures ReadFromJson(c, reg, name, typeName, defaultBytes).0.Ok? ==>
      ValueSized(ReadFromJson(c, reg, name, typeName, defaultBytes).0.value)
  {
  }

  /** A define read from JSON reads its JSON name back, while the name table has room. */
  lemma ReadFromJsonName(c: Cache, reg: Registry, name: string, typeName: string, defaultBytes: seq<byte>)
    requires TypeForName(typeName).Some? ==> |defaultBytes| == StaticSize(TypeForName(typeName).value)
    requires Valid(c) && (name in c.viewToId || c.nextId < InvalidNameId)
    ensures var (r, c1) := ReadFromJson(c, reg, name, typeName, defaultBytes);
      r.Ok? ==> GetView(c1, r.value.name) == Ok(name)
  {
    ViewRoundTrip(c, name);
  }

  /** "#define ", the start of every generated line. */
  const DefinePrefix: string := "#define "

  /** `vec3({}, {}, {})` over the three floats of an `Eigen::Vector3f`. */
  function Vec3Text(f: Formatter, v: seq<byte>): string
    requires |v| == 12
  {
    "vec3(" + f.float32(v[0..4]) + ", " + f.float32(v[4..8]) + ", " + f.float32(v[8..12]) + ")"
  }

  /** `vec2({}, {})` over the two floats of an `Eigen::Vector2f`. */
  function Vec2Text(f: Formatter, v: seq<byte>): string
    requires |v| == 8
  {
    "vec2(" + f.float32(v[0..4]) + ", " + f.float32(v[4..8]) + ")"
  }

  /** The value text of `GenDefine` as written: `int`, `float` and `vec3` only, "" for any other type. */
  function ValueTextAsWritten(f: Formatter, d: Define): string
    requires ValueSized(d)
  {
    if d.typeId == Int then f.int32(d.value)
    else if d.typeId == Float then f.float32(d.value)
    else if d.typeId == Vec3f then Vec3Text(f, d.value)
    else ""
  }

  /** The value text with the `vec2` case `ReadFromJson` accepts but `GenDefine` forgets. */
  function ValueText(f: Formatter, d: Define): string
    requires ValueSized(d)
  {
    if d.typeId == Vec2f then Vec2Text(f, d.value) else ValueTextAsWritten(f, d)
  }

  /** `#define <name> <value>\n`; the name's `GetView` throws `std::logic_error` for an unknown id. */
  function DefineLine(c: Cache, d: Define, text: string): (r: Result<string>)
    ensures r.Err? <==> GetView(c, d.name).Err?
    ensures r.Err? ==> r.error == LogicError
    ensures r.Ok? ==>
      (|r.value| > |DefinePrefix| && r.value[..|DefinePrefix|] == DefinePrefix && r.value[|r.value| - 1] == '\n')
  {
    match GetView(c, d.name)
    case Err(e) => Err(e)
    case Ok(view) =>
      var line := DefinePrefix + view + " " + text + "\n";
      assert line[..|DefinePrefix|] == DefinePrefix;
      Ok(line)
  }

  /** `GenDefine` as written. */
  function GenDefineAsWritten(c: Cache, f: Formatter, d: Define): Result<string>
    requires ValueSized(d)
  {
    DefineLine(c, d, ValueTextAsWritten(f, d))
  }

  /** `GenDefine` with `vec2` values formatted like `vec3` ones. */
  function GenDefine(c: Cache, f: Formatter, d: Define): (r: Result<string>)
    requires ValueSized(d)
    ensures d.typeId != Vec2f ==> r == GenDefineAsWritten(c, f, d)
  {
    DefineLine(c, d, ValueText(f, d))
  }

  /**
   * How the GLSL preprocessor reads a generated line: after "#define ", the
   * macro name runs to the first space, and the replacement text to the
   * final newline.
   */
  function ParseDefine(line: string): (r: Option<(string, string)>)
  {
    if |line| <= |DefinePrefix| || line[..|DefinePrefix|] != DefinePrefix || line[|line| - 1] != '\n' then None
    else
      var body := line[|DefinePrefix|..|line| - 1];
      match IndexOf(body, ' ')
      case None => None
      case Some(k) => Some((body[..k], body[k + 1..]))
  }

  /**
   * A generated line defines the macro under the define's name with the
   * value text as replacement, when the name has no space in it.
   */
  lemma DefineLineParses(c: Cache, d: Define, text: string)
    requires GetView(c, d.name).Ok? && ' ' !in GetView(c, d.name).value
    ensures DefineLine(c, d, text).Ok?
    ensures ParseDefine(DefineLine(c, d, text).value) == Some((GetView(c, d.name).value, text))
  {
    var view := GetView(c, d.name).value;
    var line := DefineLine(c, d, text).value;
    assert line == DefinePrefix + (view + [' '] + text) + "\n";
    assert line[|DefinePrefix|..|line| - 1] == view + [' '] + text;
    IndexOfAfter(view, ' ', text);
    assert (view + [' '] + text)[..|view|] == view;
    assert (view + [' '] + text)[|view| + 1..] == text;
  }

  /** As written, a `vec2` define, which `ReadFromJson` accepts, becomes a macro with an empty replacement. */
  lemma Vec2DefineIsEmpty(c: Cache, f: Formatter, d: Define)
    requires d.typeId == Vec2f && |d.value| == 8
    requires GetView(c, d.name).Ok? && ' ' !in GetView(c, d.name).value
    ensures GenDefineAsWritten(c, f, d).Ok?
    ensures ParseDefine(GenDefineAsWritten(c, f, d).value) == Some((GetView(c, d.name).value, ""))
  {
    DefineLineParses(c, d, "");
  }

  /** Corrected, every type `ReadFromJson` accepts becomes a macro with a non-empty replacement. */
  lemma DefineHasValue(c: Cache, f: Formatter, d: Define)
    requires d.typeId in {Float, Int, Vec3f, Vec2f} && ValueSized(d)
    requires GetView(c, d.name).Ok? && ' ' !in GetView(c, d.name).value
    requires |f.int32(d.value)| > 0 && |f.float32(d.value)| > 0
    ensures GenDefine(c, f, d).Ok?
    ensures var p := ParseDefine(GenDefine(c, f, d).value);
      p.Some? && p.value.0 == GetView(c, d.name).value && |p.value.1| > 0
  {
    DefineLineParses(c, d, ValueText(f, d));
  }

  /** A moved-to define generates the line its source would have. */
  lemma MovePreservesLine(c: Cache, f: Formatter, dst: Define, src: Define)
    requires ValueSized(src)
    ensures GenDefine(c, f, MoveFrom(dst, src).0) == GenDefine(c, f, src)
  {
  }
}
