/**
 * `Name` of klgl/name_cache: a 32-bit id into the interning table. A
 * default-constructed name holds the invalid id; comparison looks at ids only.
 */
module Names {
  import opened Base
  import opened NameCache

  datatype Name = Name(id: NameId)

  /** `Name()`: the invalid id. */
  const Default: Name := Name(InvalidNameId)

  /** `IsValid`. */
  predicate IsValid(n: Name)
  {
    n.id != InvalidNameId
  }

  /**
   * The `const char*`, `std::string` and `std::string_view` constructors: all
   * three intern the characters and keep the id.
   */
  function FromString(c: Cache, s: string): (r: (Name, Cache))
    ensures r.1 == GetId(c, s).1
    ensures s in c.viewToId ==> r.0 == Name(c.viewToId[s]) && r.1 == c
  {
    var (id, c1) := GetId(c, s);
    (Name(id), c1)
  }

  /**
   * `GetView`: "" for an invalid name, the interned string for a known id,
   * and a `std::logic_error` for a valid id the cache does not know.
   */
  function GetView(c: Cache, n: Name): (r: Result<string>)
    ensures !IsValid(n) ==> r == Ok("")
    ensures IsValid(n) ==> (r.Ok? <==> n.id in c.idToStr)
    ensures r.Err? ==> r.error == LogicError
  {
    if !IsValid(n) then Ok("")
    else match FindView(c, n.id)
      case Some(v) => Ok(v)
      case None => Err(LogicError)
  }

  /** `operator<`: ids compared as integers. */
  predicate Less(a: Name, b: Name)
  {
    a.id < b.id
  }

  /** A name made from a string reads that string back, as long as its id is valid. */
  lemma ViewRoundTrip(c: Cache, s: string)
    requires Valid(c)
    requires s in c.viewToId || c.nextId < InvalidNameId
    ensures GetView(FromString(c, s).1, FromString(c, s).0) == Ok(s)
  {
    FindViewOfGetId(c, s);
  }

  /** Once the counter reaches the invalid id, a new string gets the invalid name, which reads as "". */
  lemma ExhaustedNameReadsEmpty(c: Cache, s: string)
    requires c.nextId == InvalidNameId && s !in c.viewToId
    ensures !IsValid(FromString(c, s).0)
    ensures GetView(FromString(c, s).1, FromString(c, s).0) == Ok("")
  {
    GetIdExhausted(c, s);
  }

  /** With interning, two names made from strings are equal exactly when the strings are. */
  lemma {:induction false} EqualIffSameString(c: Cache, s: string, t: string)
    requires Valid(c)
    requires s in c.viewToId || c.nextId < InvalidNameId
    requires t in GetId(c, s).1.viewToId || GetId(c, s).1.nextId < InvalidNameId
    ensures var (a, c1) := FromString(c, s);
      (FromString(c1, t).0 == a) <==> s == t
  {
    GetIdInjective(c, s, t);
  }

  /** `operator<` is a strict total order on names, consistent with `operator==`. */
  lemma LessIsStrictOrder(a: Name, b: Name, d: Name)
    ensures !Less(a, a)
    ensures Less(a, b) && Less(b, d) ==> Less(a, d)
    ensures Less(a, b) || a == b || Less(b, a)
  {
  }
}
