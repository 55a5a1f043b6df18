/**
 * The bookkeeping half of klgl's `Shader`: looking defines and uniforms up by
 * name through cached handles, reading and writing their values, uploading
 * uniforms, and rebuilding the uniform list from the active uniforms a newly
 * linked program reports. Compiling, linking and the GL calls themselves are
 * outside the model; what GL reports is passed in.
 */
module Shaders {
  import opened Base
  import opened Reflection
  import opened NameCache
  import opened Names
  import U = ShaderUniforms
  import D = ShaderDefines

  datatype Shader = Shader(defines: seq<D.Define>, uniforms: seq<U.Uniform>, needRecompile: bool)

  /** `DefineHandle` and `UniformHandle`: a cached position and the name it was found under. */
  datatype Handle = Handle(index: nat, name: Name)

  /** The names of a list of defines or uniforms, position by position. */
  function NamesOf<T>(xs: seq<T>, nameOf: T -> Name): (r: seq<Name>)
    ensures |r| == |xs| && forall i | 0 <= i < |xs| :: r[i] == nameOf(xs[i])
  {
    seq(|xs|, i requires 0 <= i < |xs| => nameOf(xs[i]))
  }

  function DefineNames(ds: seq<D.Define>): seq<Name>
  {
    NamesOf(ds, (d: D.Define) => d.name)
  }

  function UniformNames(us: seq<U.Uniform>): seq<Name>
  {
    NamesOf(us, (u: U.Uniform) => u.name)
  }

  /** The exception a "not found" or "wrong type" message throws: formatting the name may itself throw. */
  function ReportError(c: Cache, n: Name): (e: Error)
    ensures e == LogicError <==> GetView(c, n).Err?
  {
    if GetView(c, n).Err? then LogicError else RuntimeError
  }

  // Defines

  /** `FindDefine`: the first define with the name. */
  function FindDefine(s: Shader, n: Name): (r: Option<Handle>)
    ensures r.None? <==> forall i | 0 <= i < |s.defines| :: s.defines[i].name != n
    ensures r.Some? ==> r.value.name == n && r.value.index < |s.defines| && s.defines[r.value.index].name == n
    ensures r.Some? ==> forall i | 0 <= i < r.value.index :: s.defines[i].name != n
  {
    var names := DefineNames(s.defines);
    match IndexOf(names, n)
    case None => None
    case Some(k) =>
      assert forall i | 0 <= i < k :: names[..k][i] == s.defines[i].name;
      Some(Handle(k, n))
  }

  /** `GetDefine`: the handle, or the exception reporting that the define is not found. */
  function GetDefine(c: Cache, s: Shader, n: Name): (r: Result<Handle>)
    ensures r.Ok? <==> FindDefine(s, n).Some?
    ensures r.Ok? ==> r.value == FindDefine(s, n).value
    ensures r.Err? ==> r.error == ReportError(c, n)
  {
    match FindDefine(s, n)
    case Some(h) => Ok(h)
    case None => Err(ReportError(c, n))
  }

  /** A handle that still points at a define of its name. */
  predicate DefineResolves(s: Shader, h: Handle)
  {
    h.index < |s.defines| && s.defines[h.index].name == h.name
  }

  /** `UpdateDefineHandle`: a handle that resolves is kept; any other is looked up again by name. */
  function UpdateDefineHandle(c: Cache, s: Shader, h: Handle): (r: Result<Handle>)
    ensures DefineResolves(s, h) ==> r == Ok(h)
    ensures r.Ok? ==> DefineResolves(s, r.value) && r.value.name == h.name
    ensures r.Err? <==> forall i | 0 <= i < |s.defines| :: s.defines[i].name != h.name
  {
    if DefineResolves(s, h) then Ok(h) else GetDefine(c, s, h.name)
  }

  /**
   * `GetDefineValue`: the value of the handle's define, or `std::runtime_error`
   * when its type is not the one asked for. The handle is updated even when
   * the type check throws.
   */
  function GetDefineValue(c: Cache, s: Shader, h: Handle, t: TypeId): (r: (Result<seq<byte>>, Handle))
    ensures UpdateDefineHandle(c, s, h).Err? ==> r == (Err(UpdateDefineHandle(c, s, h).error), h)
    ensures UpdateDefineHandle(c, s, h).Ok? ==>
      && r.1 == UpdateDefineHandle(c, s, h).value
      && (r.0.Ok? <==> s.defines[r.1.index].typeId == t)
      && (r.0.Ok? ==> r.0.value == s.defines[r.1.index].value)
  {
    match UpdateDefineHandle(c, s, h)
    case Err(e) => (Err(e), h)
    case Ok(h1) =>
      var d := s.defines[h1.index];
      if d.typeId != t then (Err(ReportError(c, d.name)), h1) else (Ok(d.value), h1)
  }

  /**
   * `SetDefineValue`: writes the bytes into the handle's define and asks for a
   * recompile, and only then throws `std::runtime_error` when the type is not
   * the one given.
   */
  function SetDefineValue(c: Cache, reg: Registry, s: Shader, h: Handle, t: TypeId, bytes: seq<byte>)
    : (r: (Outcome<Shader>, Handle))
    ensures UpdateDefineHandle(c, s, h).Err? ==> r == (Threw(UpdateDefineHandle(c, s, h).error, s), h)
    ensures UpdateDefineHandle(c, s, h).Ok? ==> r.1 == UpdateDefineHandle(c, s, h).value
    ensures r.0.Done? ==> r.1.index < |r.0.state.defines| && r.0.state.defines[r.1.index] == D.Define(bytes, r.1.name, t)
  {
    match UpdateDefineHandle(c, s, h)
    case Err(e) => (Threw(e, s), h)
    case Ok(h1) =>
      var d := s.defines[h1.index];
      match D.SetValue(d, reg, bytes)
      case Threw(e, _) => (Threw(e, s), h1)
      case Done(d1) =>
        var s1 := s.(defines := s.defines[h1.index := d1], needRecompile := true);
        if d.typeId != t then (Threw(RuntimeError, s1), h1) else (Done(s1), h1)
  }

  /**
   * Setting a define through a handle that resolves changes that define's
   * value only (or throws with nothing changed), and reading it back with
   * the same type yields the bytes.
   */
  lemma SetThenGetDefine(c: Cache, reg: Registry, s: Shader, h: Handle, t: TypeId, bytes: seq<byte>)
    requires DefineResolves(s, h) && s.defines[h.index].typeId == t && t in reg
    ensures var (o, h1) := SetDefineValue(c, reg, s, h, t, bytes);
      && o.Done? && h1 == h && o.state.needRecompile
      && |o.state.defines| == |s.defines|
      && (forall i | 0 <= i < |s.defines| && i != h.index :: o.state.defines[i] == s.defines[i])
      && GetDefineValue(c, o.state, h1, t) == (Ok(bytes), h)
  {
  }

  /** With the wrong type, the value is still written and a recompile requested before the throw. */
  lemma SetDefineWrongTypeStillWrites(c: Cache, reg: Registry, s: Shader, h: Handle, t: TypeId, bytes: seq<byte>)
    requires DefineResolves(s, h) && s.defines[h.index].typeId != t && s.defines[h.index].typeId in reg
    ensures var (o, h1) := SetDefineValue(c, reg, s, h, t, bytes);
      && o == Threw(RuntimeError, o.state)
      && o.state.needRecompile && o.state.defines[h.index].value == bytes
  {
  }

  // Uniforms

  /** `FindUniform`: the first uniform with the name. */
  function FindUniform(s: Shader, n: Name): (r: Option<Handle>)
    ensures r.None? <==> forall i | 0 <= i < |s.uniforms| :: s.uniforms[i].name != n
    ensures r.Some? ==> r.value.name == n && r.value.index < |s.uniforms| && s.uniforms[r.value.index].name == n
    ensures r.Some? ==> forall i | 0 <= i < r.value.index :: s.uniforms[i].name != n
  {
    var names := UniformNames(s.uniforms);
    match IndexOf(names, n)
    case None => None
    case Some(k) =>
      assert forall i | 0 <= i < k :: names[..k][i] == s.uniforms[i].name;
      Some(Handle(k, n))
  }

  /** `GetUniform(Name)`: the handle, or the exception reporting that the uniform is not found. */
  function GetUniform(c: Cache, s: Shader, n: Name): (r: Result<Handle>)
    ensures r.Ok? <==> FindUniform(s, n).Some?
    ensures r.Ok? ==> r.value == FindUniform(s, n).value
    ensures r.Err? ==> r.error == ReportError(c, n)
  {
    match FindUniform(s, n)
    case Some(h) => Ok(h)
    case None => Err(ReportError(c, n))
  }

  predicate UniformResolves(s: Shader, h: Handle)
  {
    h.index < |s.uniforms| && s.uniforms[h.index].name == h.name
  }

  /** `UpdateUniformHandle`: a handle that resolves is kept; any other is looked up again by name. */
  function UpdateUniformHandle(c: Cache, s: Shader, h: Handle): (r: Result<Handle>)
    ensures UniformResolves(s, h) ==> r == Ok(h)
    ensures r.Ok? ==> UniformResolves(s, r.value) && r.value.name == h.name
    ensures r.Err? <==> forall i | 0 <= i < |s.uniforms| :: s.uniforms[i].name != h.name
  {
    if UniformResolves(s, h) then Ok(h) else GetUniform(c, s, h.name)
  }

  /** `GetUniformValueViewRaw`: the value of the handle's uniform, after the type check. */
  function GetUniformValue(c: Cache, s: Shader, h: Handle, t: TypeId): (r: (Result<seq<byte>>, Handle))
    ensures UpdateUniformHandle(c, s, h).Err? ==> r == (Err(UpdateUniformHandle(c, s, h).error), h)
    ensures UpdateUniformHandle(c, s, h).Ok? ==>
      && r.1 == UpdateUniformHandle(c, s, h).value
      && (r.0.Ok? <==> s.uniforms[r.1.index].typeId == t)
      && (r.0.Ok? ==> r.0.value == s.uniforms[r.1.index].value)
      && (r.0.Err? ==> r.0.error == RuntimeError)
  {
    match UpdateUniformHandle(c, s, h)
    case Err(e) => (Err(e), h)
    case Ok(h1) =>
      match U.EnsureTypeMatch(s.uniforms[h1.index], t)
      case Err(e) => (Err(e), h1)
      case Ok(_) => (Ok(s.uniforms[h1.index].value), h1)
  }

  /** The bytes are an instance of `t`: every non-empty uniform of that type has a value of their size. */
  predicate FitsType(s: Shader, t: TypeId, bytes: seq<byte>)
  {
    forall i | 0 <= i < |s.uniforms| && s.uniforms[i].typeId == t ::
      U.IsEmpty(s.uniforms[i]) || |s.uniforms[i].value| == |bytes|
  }

  /** `SetUniform(handle, type, value)`: the type check, then `ShaderUniform::SetValue`. */
  function SetUniform(c: Cache, s: Shader, h: Handle, t: TypeId, bytes: seq<byte>): (r: (Outcome<Shader>, Handle))
    requires FitsType(s, t, bytes)
    ensures UpdateUniformHandle(c, s, h).Err? ==> r == (Threw(UpdateUniformHandle(c, s, h).error, s), h)
    ensures UpdateUniformHandle(c, s, h).Ok? ==>
      && r.1 == UpdateUniformHandle(c, s, h).value
      && (r.0.Done? <==> s.uniforms[r.1.index].typeId == t && !U.IsEmpty(s.uniforms[r.1.index]))
    ensures r.0.Threw? ==> r.0.state == s
    ensures r.0.Done? ==>
      && r.1.index < |r.0.state.uniforms|
      && r.0.state.uniforms[r.1.index].value == bytes && !r.0.state.uniforms[r.1.index].sent
  {
    match UpdateUniformHandle(c, s, h)
    case Err(e) => (Threw(e, s), h)
    case Ok(h1) =>
      var u := s.uniforms[h1.index];
      match U.EnsureTypeMatch(u, t)
      case Err(e) => (Threw(e, s), h1)
      case Ok(_) =>
        match U.SetValue(u, bytes)
        case Threw(e, _) => (Threw(e, s), h1)
        case Done(u1) => (Done(s.(uniforms := s.uniforms[h1.index := u1])), h1)
  }

  /** A value set through a handle reads back, and is uploaded by the next send of that uniform. */
  lemma SetThenGetUniform(c: Cache, s: Shader, h: Handle, t: TypeId, bytes: seq<byte>)
    requires FitsType(s, t, bytes)
    requires UniformResolves(s, h) && s.uniforms[h.index].typeId == t && !U.IsEmpty(s.uniforms[h.index])
    ensures var (o, h1) := SetUniform(c, s, h, t, bytes);
      && o.Done? && h1 == h
      && (forall i | 0 <= i < |s.uniforms| && i != h.index :: o.state.uniforms[i] == s.uniforms[i])
      && GetUniformValue(c, o.state, h, t) == (Ok(bytes), h)
      && (GlSendable(t) ==> SendUniform(c, o.state, h).2)
  {
  }

  /** `SendUniform(handle)`: `ShaderUniform::SendValue` on the handle's uniform; the flag says whether it uploaded. */
  function SendUniform(c: Cache, s: Shader, h: Handle): (r: (Outcome<Shader>, Handle, bool))
    ensures r.2 ==> UpdateUniformHandle(c, s, h).Ok?
    ensures UpdateUniformHandle(c, s, h).Ok? ==>
      r.2 == U.SendValue(s.uniforms[UpdateUniformHandle(c, s, h).value.index]).1
  {
    match UpdateUniformHandle(c, s, h)
    case Err(e) => (Threw(e, s), h, false)
    case Ok(h1) =>
      var (o, uploaded) := U.SendValue(s.uniforms[h1.index]);
      var s1 := s.(uniforms := s.uniforms[h1.index := o.state]);
      match o
      case Done(_) => (Done(s1), h1, uploaded)
      case Threw(e, _) => (Threw(e, s1), h1, uploaded)
  }

  /**
   * `SendUniforms` from position `i` on: `SendValue` on each uniform in turn,
   * stopping at the first that throws. The count is the number of uploads.
   */
  function SendFrom(us: seq<U.Uniform>, i: nat): (r: (Outcome<seq<U.Uniform>>, nat))
    requires i <= |us|
    ensures |r.0.state| == |us| && r.0.state[..i] == us[..i]
    decreases |us| - i
  {
    if i == |us| then (Done(us), 0)
    else
      var (o, uploaded) := U.SendValue(us[i]);
      var us1 := us[i := o.state];
      assert us1[..i] == us[..i];
      match o
      case Threw(e, _) => (Threw(e, us1), 0)
      case Done(_) =>
        var (o2, n) := SendFrom(us1, i + 1);
        assert o2.state[..i] == o2.state[..i + 1][..i];
        (o2, n + if uploaded then 1 else 0)
  }

  /** `SendUniforms`. */
  function SendUniforms(us: seq<U.Uniform>): (r: (Outcome<seq<U.Uniform>>, nat))
  {
    SendFrom(us, 0)
  }

  /** A uniform that a send of all uniforms neither skips nor fails on. */
  predicate Uploadable(u: U.Uniform)
  {
    !U.IsEmpty(u) && GlSendable(u.typeId)
  }

  /** How many uniforms from position `i` on still wait for an upload. */
  function PendingFrom(us: seq<U.Uniform>, i: nat): nat
    requires i <= |us|
    decreases |us| - i
  {
    if i == |us| then 0 else (if us[i].sent then 0 else 1) + PendingFrom(us, i + 1)
  }

  /**
   * When every uniform can be uploaded, sending them all succeeds, uploads
   * exactly the pending ones and leaves every uniform marked sent with its
   * value unchanged.
   */
  lemma {:induction false} SendFromUploadsPending(us: seq<U.Uniform>, i: nat)
    requires i <= |us|
    requires forall j | i <= j < |us| :: Uploadable(us[j])
    ensures var (o, n) := SendFrom(us, i);
      && o.Done? && n == PendingFrom(us, i)
      && forall j | i <= j < |us| :: o.state[j] == us[j].(sent := true)
    decreases |us| - i
  {
    if i < |us| {
      var us1 := us[i := us[i].(sent := true)];
      SendFromUploadsPending(us1, i + 1);
      PendingFromUpdate(us, i);
    }
  }

  /** Positions before `i` do not count towards `PendingFrom(us, i)`. */
  lemma {:induction false} PendingFromUpdate(us: seq<U.Uniform>, i: nat)
    requires i < |us|
    ensures PendingFrom(us[i := us[i].(sent := true)], i + 1) == PendingFrom(us, i + 1)
  {
    PendingFromFrame(us, us[i := us[i].(sent := true)], i + 1);
  }

  /** `PendingFrom(us, i)` depends on `us[i..]` only. */
  lemma {:induction false} PendingFromFrame(a: seq<U.Uniform>, b: seq<U.Uniform>, i: nat)
    requires i <= |a| == |b| && a[i..] == b[i..]
    ensures PendingFrom(a, i) == PendingFrom(b, i)
    decreases |a| - i
  {
    if i < |a| {
      assert a[i] == a[i..][0] && b[i] == b[i..][0];
      assert a[i + 1..] == a[i..][1..] && b[i + 1..] == b[i..][1..];
      PendingFromFrame(a, b, i + 1);
    }
  }

  /** Sending a second time uploads nothing and changes nothing. */
  lemma SendUniformsTwice(us: seq<U.Uniform>)
    requires forall j | 0 <= j < |us| :: Uploadable(us[j])
    ensures var (o, _) := SendUniforms(us);
      o.Done? && SendUniforms(o.state) == (Done(o.state), 0)
  {
    SendFromUploadsPending(us, 0);
    var r := SendUniforms(us).0.state;
    SendFromFixed(r, 0);
  }

  /** Sending uniforms that are all marked sent returns them as they are. */
  lemma {:induction false} SendFromFixed(us: seq<U.Uniform>, i: nat)
    requires i <= |us| && forall j | i <= j < |us| :: us[j].sent && !U.IsEmpty(us[j])
    ensures SendFrom(us, i) == (Done(us), 0)
    decreases |us| - i
  {
    if i < |us| {
      assert us[i := us[i]] == us;
      SendFromFixed(us, i + 1);
    }
  }

  // Rebuilding the uniform list after linking

  /** `GL_FLOAT`, `GL_FLOAT_VEC2`, … : the GLSL type codes of the OpenGL API. */
  const GL_FLOAT: nat := 0x1406
  const GL_FLOAT_VEC2: nat := 0x8B50
  const GL_FLOAT_VEC3: nat := 0x8B51
  const GL_FLOAT_VEC4: nat := 0x8B52
  const GL_FLOAT_MAT3: nat := 0x8B5B
  const GL_FLOAT_MAT4: nat := 0x8B5C
  const GL_SAMPLER_2D: nat := 0x8B5E

  /** `ConvertGlType`: the C++ type a GLSL uniform type is held as, if it is supported. */
  function ConvertGlType(glType: nat): (r: Option<TypeId>)
    ensures r.Some? ==> GlSendable(r.value)
  {
    if glType == GL_FLOAT then Some(Float)
    else if glType == GL_FLOAT_VEC2 then Some(Vec2f)
    else if glType == GL_FLOAT_VEC3 then Some(Vec3f)
    else if glType == GL_FLOAT_VEC4 then Some(Vec4f)
    else if glType == GL_FLOAT_MAT3 then Some(Mat3f)
    else if glType == GL_FLOAT_MAT4 then Some(Mat4f)
    else if glType == GL_SAMPLER_2D then Some(Sampler)
    else None
  }

  /** The GLSL type code of each type a uniform can hold; the partner of `ConvertGlType`. */
  function GlCode(t: TypeId): Option<nat>
  {
    match t
    case Float => Some(GL_FLOAT)
    case Vec2f => Some(GL_FLOAT_VEC2)
    case Vec3f => Some(GL_FLOAT_VEC3)
    case Vec4f => Some(GL_FLOAT_VEC4)
    case Mat3f => Some(GL_FLOAT_MAT3)
    case Mat4f => Some(GL_FLOAT_MAT4)
    case Sampler => Some(GL_SAMPLER_2D)
    case _ => None
  }

  /** `ConvertGlType` and `GlCode` are inverse; every uploadable type has a code. */
  lemma ConvertGlTypeInverse(glType: nat, t: TypeId)
    ensures ConvertGlType(glType) == Some(t) <==> GlCode(t) == Some(glType)
    ensures GlSendable(t) <==> GlCode(t).Some?
  {
  }

  /** What `glGetActiveUniform` and `glGetUniformLocation` report for one active uniform. */
  datatype ActiveUniform = ActiveUniform(name: Name, glType: nat, location: nat)

  /** The active uniforms of a supported type, in order; the others are skipped. */
  function Supported(actives: seq<ActiveUniform>): (r: seq<ActiveUniform>)
    ensures |r| <= |actives|
    ensures forall a | a in r :: a in actives && ConvertGlType(a.glType).Some?
  {
    if |actives| == 0 then []
    else
      var rest := Supported(actives[1..]);
      if ConvertGlType(actives[0].glType).Some? then [actives[0]] + rest else rest
  }

  /** An active uniform of a supported type is kept. */
  lemma {:induction false} SupportedKeeps(actives: seq<ActiveUniform>, a: ActiveUniform)
    requires a in actives && ConvertGlType(a.glType).Some?
    ensures a in Supported(actives)
  {
    if actives[0] != a {
      SupportedKeeps(actives[1..], a);
    }
  }

  /** No two entries share a name. */
  predicate UniqueNames(ns: seq<Name>)
  {
    forall i, j | 0 <= i < j < |ns| :: ns[i] != ns[j]
  }

  /** No two active uniforms share a name, as GL reports them. */
  predicate UniqueActives(actives: seq<ActiveUniform>)
  {
    forall i, j | 0 <= i < j < |actives| :: actives[i].name != actives[j].name
  }

  /** Skipping unsupported uniforms keeps the names distinct. */
  lemma {:induction false} SupportedUnique(actives: seq<ActiveUniform>)
    requires UniqueActives(actives)
    ensures UniqueActives(Supported(actives))
  {
    if |actives| > 0 {
      var tail := actives[1..];
      SupportedUnique(tail);
      if ConvertGlType(actives[0].glType).Some? {
        HeadNameFresh(actives);
        var rest := Supported(tail);
        assert forall j | 0 <= j < |rest| :: rest[j] in tail;
      }
    }
  }

  /** The first active uniform's name does not occur again. */
  lemma HeadNameFresh(actives: seq<ActiveUniform>)
    requires |actives| > 0 && UniqueActives(actives)
    ensures forall a | a in actives[1..] :: a.name != actives[0].name
  {
    forall a | a in actives[1..]
      ensures a.name != actives[0].name
    {
      var k :| 0 <= k < |actives| - 1 && actives[1..][k] == a;
      assert actives[k + 1] == a;
    }
  }

  /** The static types a GLSL uniform can map to are registered with non-empty default values. */
  predicate GlTypesRegistered(reg: Registry)
  {
    forall t | t in GlTypes :: t in reg && |reg[t]| > 0
  }

  /** A uniform holding a value of its registered type's size. */
  predicate Sized(reg: Registry, u: U.Uniform)
  {
    u.typeId in reg && |u.value| == |reg[u.typeId]| && !U.IsEmpty(u)
  }

  /**
   * One entry of the new list as written: a uniform of the same name is moved
   * over (keeping value and sent flag when the type is unchanged, reset by
   * `SetType` otherwise); a new name gets a default value of its type. Either
   * way the location is the one just reported.
   */
  function EntryAsWritten(prev: seq<U.Uniform>, reg: Registry, a: ActiveUniform): (u: U.Uniform)
    requires GlTypesRegistered(reg) && ConvertGlType(a.glType).Some?
    requires forall v | v in prev :: Sized(reg, v)
    ensures u.name == a.name && u.typeId == ConvertGlType(a.glType).value && u.location == a.location
    ensures Sized(reg, u)
  {
    var t := ConvertGlType(a.glType).value;
    match IndexOf(UniformNames(prev), a.name)
    case Some(k) =>
      var v := prev[k];
      assert v in prev && v.name == UniformNames(prev)[k];
      assert t in GlTypes;
      var v1 := if t != v.typeId then U.SetType(v, reg, t).state else v;
      assert Sized(reg, v1);
      v1.(location := a.location)
    case None =>
      U.SetType(U.Fresh.(name := a.name), reg, t).state.(location := a.location)
  }

  /** The moved-over list before the sampler pass, as written. */
  function RebuildAsWritten(prev: seq<U.Uniform>, reg: Registry, actives: seq<ActiveUniform>): (r: seq<U.Uniform>)
    requires GlTypesRegistered(reg) && forall v | v in prev :: Sized(reg, v)
    ensures |r| == |Supported(actives)|
    ensures forall i | 0 <= i < |r| :: Sized(reg, r[i])
  {
    var sup := Supported(actives);
    seq(|sup|, i requires 0 <= i < |sup| => EntryAsWritten(prev, reg, sup[i]))
  }

  /** The sampler pass on one uniform: a `SamplerUniform` gets its position as texture unit. */
  function SamplerAssigned(u: U.Uniform, i: nat): (r: U.Uniform)
    requires !U.IsEmpty(u)
    ensures r.name == u.name && r.typeId == u.typeId && r.location == u.location && |r.value| == |u.value|
    ensures u.typeId == Sampler ==> r.value[0] == i % 256 && r.value[1..] == u.value[1..] && !r.sent
    ensures u.typeId != Sampler ==> r == u
  {
    if u.typeId == Sampler then u.(value := u.value[0 := i % 256], sent := false) else u
  }

  /**
   * The sampler pass from position `i` on: every `SamplerUniform` has its
   * `sampler_index` (the first byte) set to its position modulo 256 through
   * `SetValue`, which throws `std::logic_error` on an empty uniform.
   */
  function AssignSamplersFrom(us: seq<U.Uniform>, i: nat): (r: Outcome<seq<U.Uniform>>)
    requires i <= |us|
    ensures |r.state| == |us|
    decreases |us| - i
  {
    if i == |us| then Done(us)
    else if us[i].typeId != Sampler then AssignSamplersFrom(us, i + 1)
    else if U.IsEmpty(us[i]) then Threw(LogicError, us)
    else AssignSamplersFrom(us[i := SamplerAssigned(us[i], i)], i + 1)
  }

  /** When no uniform is empty the sampler pass succeeds and changes each one as `SamplerAssigned` says. */
  lemma {:induction false} AssignSamplersFacts(us: seq<U.Uniform>, i: nat)
    requires i <= |us| && forall j | 0 <= j < |us| :: !U.IsEmpty(us[j])
    ensures AssignSamplersFrom(us, i).Done?
    ensures forall j | 0 <= j < i :: AssignSamplersFrom(us, i).state[j] == us[j]
    ensures forall j | i <= j < |us| :: AssignSamplersFrom(us, i).state[j] == SamplerAssigned(us[j], j)
    decreases |us| - i
  {
    if i < |us| {
      if us[i].typeId != Sampler {
        AssignSamplersFacts(us, i + 1);
      } else {
        var us1 := us[i := SamplerAssigned(us[i], i)];
        AssignSamplersFacts(us1, i + 1);
      }
    }
  }

  /**
   * `UpdateUniforms` as written: with no active uniform the old list stays;
   * otherwise the list is rebuilt and then the sampler pass runs.
   */
  function UpdateUniformsAsWritten(prev: seq<U.Uniform>, reg: Registry, actives: seq<ActiveUniform>)
    : (r: Outcome<seq<U.Uniform>>)
    requires GlTypesRegistered(reg) && forall v | v in prev :: Sized(reg, v)
  {
    if |actives| == 0 then Done(prev)
    else AssignSamplersFrom(RebuildAsWritten(prev, reg, actives), 0)
  }

  /** Every uniform marked for upload. */
  function Unsent(us: seq<U.Uniform>): (r: seq<U.Uniform>)
    ensures |r| == |us| && forall i | 0 <= i < |us| :: r[i] == us[i].(sent := false)
  {
    seq(|us|, i requires 0 <= i < |us| => us[i].(sent := false))
  }

  /**
   * `UpdateUniforms` with the evident intent: the new program has none of the
   * values yet, so every rebuilt uniform is marked for upload.
   */
  function UpdateUniforms(prev: seq<U.Uniform>, reg: Registry, actives: seq<ActiveUniform>)
    : (r: Outcome<seq<U.Uniform>>)
    requires GlTypesRegistered(reg) && forall v | v in prev :: Sized(reg, v)
  {
    if |actives| == 0 then Done(prev)
    else AssignSamplersFrom(Unsent(RebuildAsWritten(prev, reg, actives)), 0)
  }

  /**
   * The rebuilt list, as written: one uniform per supported active uniform in
   * order, with its name, type and location, a value of its type's size, the
   * sampler index set for samplers, and the old value kept when the type did
   * not change. Names stay distinct.
   */
  lemma UpdateUniformsAsWrittenShape(prev: seq<U.Uniform>, reg: Registry, actives: seq<ActiveUniform>)
    requires GlTypesRegistered(reg) && forall v | v in prev :: Sized(reg, v)
    requires |actives| > 0 && UniqueActives(actives)
    ensures var r := UpdateUniformsAsWritten(prev, reg, actives);
      var sup := Supported(actives);
      && r.Done? && |r.state| == |sup|
      && UniqueNames(UniformNames(r.state))
      && forall i | 0 <= i < |sup| :: Fits(reg, r.state[i], sup[i], i)
  {
    var us := RebuildAsWritten(prev, reg, actives);
    AssignSamplersFacts(us, 0);
    var r := AssignSamplersFrom(us, 0).state;
    var sup := Supported(actives);
    forall i | 0 <= i < |sup|
      ensures Fits(reg, r[i], sup[i], i)
    {
      EntryFits(prev, reg, sup[i], i);
    }
    SupportedUnique(actives);
    assert forall i | 0 <= i < |r| :: UniformNames(r)[i] == sup[i].name;
  }

  /** A rebuilt uniform as the active uniform at position `i` describes it. */
  predicate Fits(reg: Registry, u: U.Uniform, a: ActiveUniform, i: nat)
  {
    && u.name == a.name && u.location == a.location
    && ConvertGlType(a.glType) == Some(u.typeId) && Sized(reg, u)
    && (u.typeId == Sampler ==> u.value[0] == i % 256 && !u.sent)
  }

  lemma EntryFits(prev: seq<U.Uniform>, reg: Registry, a: ActiveUniform, i: nat)
    requires GlTypesRegistered(reg) && forall v | v in prev :: Sized(reg, v)
    requires ConvertGlType(a.glType).Some?
    ensures Fits(reg, SamplerAssigned(EntryAsWritten(prev, reg, a), i), a, i)
  {
  }

  /**
   * A uniform that survives the recompile with its type keeps its value and,
   * as written, its sent flag, although the new program has not received
   * the value.
   */
  lemma KeptUniformStaysSent(prev: seq<U.Uniform>, reg: Registry, actives: seq<ActiveUniform>, k: nat, i: nat)
    requires GlTypesRegistered(reg) && forall v | v in prev :: Sized(reg, v)
    requires |actives| > 0
    requires k < |prev| && forall j | 0 <= j < k :: prev[j].name != prev[k].name
    requires i < |Supported(actives)| && Supported(actives)[i].name == prev[k].name
    requires ConvertGlType(Supported(actives)[i].glType) == Some(prev[k].typeId) && prev[k].typeId != Sampler
    ensures var r := UpdateUniformsAsWritten(prev, reg, actives);
      r.Done? && r.state[i].value == prev[k].value && r.state[i].sent == prev[k].sent
  {
    var us := RebuildAsWritten(prev, reg, actives);
    AssignSamplersFacts(us, 0);
    FirstNamed(prev, k);
    EntryKeeps(prev, reg, Supported(actives)[i], k);
  }

  /** `std::find_if` by name finds the first uniform of that name. */
  lemma FirstNamed(us: seq<U.Uniform>, k: nat)
    requires k < |us| && forall j | 0 <= j < k :: us[j].name != us[k].name
    ensures IndexOf(UniformNames(us), us[k].name) == Some(k)
  {
    var names := UniformNames(us);
    assert names[..k] + [us[k].name] + names[k + 1..] == names;
    IndexOfAfter(names[..k], us[k].name, names[k + 1..]);
  }

  /** A uniform found under the active name, with the type unchanged, is moved over with only its location reset. */
  lemma EntryKeeps(prev: seq<U.Uniform>, reg: Registry, a: ActiveUniform, k: nat)
    requires GlTypesRegistered(reg) && forall v | v in prev :: Sized(reg, v)
    requires k < |prev| && IndexOf(UniformNames(prev), a.name) == Some(k)
    requires ConvertGlType(a.glType) == Some(prev[k].typeId)
    ensures EntryAsWritten(prev, reg, a) == prev[k].(location := a.location)
  {
  }

  /** The concrete case: a float uniform, uploaded to the old program, is not uploaded to the new one. */
  lemma StaleUniformNotResent(reg: Registry, u: U.Uniform)
    requires GlTypesRegistered(reg) && Sized(reg, u) && u.typeId == Float && u.sent
    ensures var actives := [ActiveUniform(u.name, GL_FLOAT, u.location)];
      var r := UpdateUniformsAsWritten([u], reg, actives);
      r == Done([u]) && SendUniforms(r.state) == (Done([u]), 0)
  {
    var actives := [ActiveUniform(u.name, GL_FLOAT, u.location)];
    assert Supported(actives) == actives;
    FirstNamed([u], 0);
    EntryKeeps([u], reg, actives[0], 0);
    var us := RebuildAsWritten([u], reg, actives);
    assert us == [u];
    AssignSamplersFacts(us, 0);
    assert AssignSamplersFrom(us, 0).state == [u];
    SendFromFixed([u], 0);
  }

  /**
   * Corrected, the rebuilt list has the same shape and kept values, and the
   * next `SendUniforms` uploads every uniform to the new program.
   */
  lemma UpdateUniformsResends(prev: seq<U.Uniform>, reg: Registry, actives: seq<ActiveUniform>)
    requires GlTypesRegistered(reg) && forall v | v in prev :: Sized(reg, v)
    requires |actives| > 0
    ensures var r := UpdateUniforms(prev, reg, actives);
      && r.Done? && |r.state| == |Supported(actives)|
      && (forall i | 0 <= i < |r.state| ::
            r.state[i] == SamplerAssigned(RebuildAsWritten(prev, reg, actives)[i], i).(sent := false))
      && SendUniforms(r.state).0.Done? && SendUniforms(r.state).1 == |r.state|
  {
    var us := Unsent(RebuildAsWritten(prev, reg, actives));
    AssignSamplersFacts(us, 0);
    var r := UpdateUniforms(prev, reg, actives).state;
    SendFromUploadsPending(r, 0);
    NonePendingSent(r, 0);
  }

  /** With no uniform marked sent, every uniform is pending. */
  lemma {:induction false} NonePendingSent(us: seq<U.Uniform>, i: nat)
    requires i <= |us| && forall j | i <= j < |us| :: !us[j].sent
    ensures PendingFrom(us, i) == |us| - i
    decreases |us| - i
  {
    if i < |us| {
      NonePendingSent(us, i + 1);
    }
  }

  /** A recompile whose program reports no active uniform keeps the old list, flags included. */
  lemma NoActiveUniformsKeepsOld(prev: seq<U.Uniform>, reg: Registry)
    requires GlTypesRegistered(reg) && forall v | v in prev :: Sized(reg, v)
    ensures UpdateUniformsAsWritten(prev, reg, []) == Done(prev)
    ensures UpdateUniforms(prev, reg, []) == Done(prev)
  {
  }
}
