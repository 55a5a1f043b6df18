/**
 * `ShaderUniform` of klgl/shader: a typed byte buffer bound to a uniform
 * location, with a `sent` flag that suppresses repeated uploads of an
 * unchanged value. The OpenGL upload itself is reported as a boolean.
 */
module ShaderUniforms {
  import opened Base
  import opened Reflection
  import Names

  datatype Uniform = Uniform(value: seq<byte>, name: Names.Name, location: nat, typeId: TypeId, sent: bool)

  /**
   * A default-constructed uniform. The source leaves `location_` without an
   * initialiser; the model fixes it to 0.
   */
  const Fresh: Uniform := Uniform([], Names.Default, 0, NullType, false)

  /** `IsEmpty`: no value buffer. */
  predicate IsEmpty(u: Uniform)
  {
    |u.value| == 0
  }

  /** What every reachable uniform satisfies: an empty one has never been marked sent. */
  predicate WellFormed(u: Uniform)
  {
    IsEmpty(u) ==> !u.sent
  }

  /**
   * `Clear`: drops the value and the sent flag of a non-empty uniform; an
   * empty one, such as a moved-from uniform, is left as it is, sent flag
   * included.
   */
  function Clear(u: Uniform): (r: Uniform)
    ensures IsEmpty(r) && r.sent == (IsEmpty(u) && u.sent)
    ensures WellFormed(u) ==> WellFormed(r)
    ensures r.name == u.name && r.location == u.location && r.typeId == u.typeId
  {
    if !IsEmpty(u) then u.(value := [], sent := false) else u
  }

  /** Clearing twice is clearing once. */
  lemma ClearIdempotent(u: Uniform)
    ensures Clear(Clear(u)) == Clear(u)
  {
  }

  /**
   * `SetType`: clears, then throws `std::runtime_error` for a type the
   * registry does not know; otherwise takes the type and a default-constructed
   * value of its instance size. The sent flag survives only on a uniform that
   * was already empty.
   */
  function SetType(u: Uniform, reg: Registry, t: TypeId): (r: Outcome<Uniform>)
    ensures t !in reg ==> r.Threw? && r.error == RuntimeError && IsEmpty(r.state)
    ensures t in reg ==> r.Done? && r.state.typeId == t && r.state.value == reg[t]
    ensures r.state.sent == (IsEmpty(u) && u.sent)
    ensures WellFormed(u) ==> !r.state.sent
    ensures r.state.name == u.name && r.state.location == u.location
  {
    var c := Clear(u);
    if t !in reg then Threw(RuntimeError, c)
    else Done(c.(typeId := t, value := reg[t]))
  }

  /** `EnsureTypeMatch`: throws `std::runtime_error` exactly when the types differ. */
  function EnsureTypeMatch(u: Uniform, t: TypeId): (r: Result<()>)
    ensures r.Err? <==> u.typeId != t
    ensures r.Err? ==> r.error == RuntimeError
  {
    if u.typeId != t then Err(RuntimeError) else Ok(())
  }

  /**
   * `SetValue`: throws `std::logic_error` on an empty uniform; otherwise
   * clears the sent flag and copies the bytes. The source asserts that the
   * new value has the type's instance size; that is the precondition here.
   */
  function SetValue(u: Uniform, bytes: seq<byte>): (r: Outcome<Uniform>)
    requires IsEmpty(u) || |bytes| == |u.value|
    ensures IsEmpty(u) ==> r == Threw(LogicError, u)
    ensures !IsEmpty(u) ==> r.Done? && r.state.value == bytes && !r.state.sent
    ensures r.state.name == u.name && r.state.typeId == u.typeId && r.state.location == u.location
  {
    if IsEmpty(u) then Threw(LogicError, u)
    else Done(u.(sent := false, value := bytes))
  }

  /**
   * `SendValue`: throws `std::logic_error` on an empty uniform, returns at
   * once when already sent, and otherwise sets the flag first and then
   * uploads, or throws `std::runtime_error` for a type it cannot upload. The
   * second component says whether a value was uploaded.
   */
  function SendValue(u: Uniform): (r: (Outcome<Uniform>, bool))
    ensures r.1 <==> !IsEmpty(u) && !u.sent && GlSendable(u.typeId)
    ensures IsEmpty(u) ==> r.0 == Threw(LogicError, u)
    ensures !IsEmpty(u) ==> r.0.state == u.(sent := true)
    ensures r.0.Threw? && !IsEmpty(u) ==> r.0.error == RuntimeError && !u.sent
  {
    if IsEmpty(u) then (Threw(LogicError, u), false)
    else if u.sent then (Done(u), false)
    else
      var u' := u.(sent := true);
      if GlSendable(u.typeId) then (Done(u'), true)
      else (Threw(RuntimeError, u'), false)
  }

  /**
   * `MoveFrom`: the destination is cleared and then takes every field of the
   * source; the source's value vector is left empty by the move.
   */
  function MoveFrom(dst: Uniform, src: Uniform): (r: (Uniform, Uniform))
    ensures r.0 == src
    ensures IsEmpty(r.1) && r.1.name == src.name && r.1.typeId == src.typeId
  {
    (src, src.(value := []))
  }

  /** Sending twice without a new value uploads once: the second call changes nothing. */
  lemma SendIdempotent(u: Uniform)
    requires !IsEmpty(u)
    ensures var u1 := SendValue(u).0.state;
      SendValue(u1) == (Done(u1), false)
  {
  }

  /**
   * A type that cannot be uploaded throws after the flag is set, so a retry
   * returns silently without uploading or throwing.
   */
  lemma RetryAfterUnsupportedIsSilent(u: Uniform)
    requires !IsEmpty(u) && !u.sent && !GlSendable(u.typeId)
    ensures SendValue(u).0.Threw?
    ensures var u1 := SendValue(u).0.state;
      SendValue(u1) == (Done(u1), false)
  {
  }

  /** A new value is uploaded by the next send, whatever was sent before. */
  lemma SetValueThenSend(u: Uniform, bytes: seq<byte>)
    requires !IsEmpty(u) && |bytes| == |u.value| && GlSendable(u.typeId)
    ensures var u1 := SetValue(u, bytes).state;
      SendValue(u1).1 && SendValue(u1).0 == Done(u1.(sent := true)) && u1.value == bytes
  {
  }

  /** Using an empty uniform, to set or to send, throws `std::logic_error` and changes nothing. */
  lemma EmptyUniformThrows(u: Uniform, bytes: seq<byte>)
    requires IsEmpty(u)
    ensures SetValue(u, bytes) == Threw(LogicError, u)
    ensures SendValue(u) == (Threw(LogicError, u), false)
  {
  }

  /**
   * A moved-from uniform keeps its source's sent flag, and `Clear` in
   * `SetType` leaves it: given a type again, it holds a value that the next
   * send does not upload.
   */
  lemma MovedFromRetypedStaysSent(dst: Uniform, src: Uniform, reg: Registry, t: TypeId)
    requires src.sent && t in reg && |reg[t]| > 0
    ensures var u := SetType(MoveFrom(dst, src).1, reg, t);
      u.Done? && !IsEmpty(u.state) && u.state.sent && SendValue(u.state) == (Done(u.state), false)
  {
  }

  /** A moved-to uniform sends exactly as the source would have. */
  lemma MovePreservesSending(dst: Uniform, src: Uniform)
    ensures SendValue(MoveFrom(dst, src).0) == SendValue(src)
  {
  }
}
