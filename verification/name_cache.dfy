/**
 * The process-wide string interning table of klgl/name_cache: every string
 * gets a 32-bit id the first time it is seen, and the id can be turned back
 * into the string. The singleton is threaded through the operations as a
 * value.
 */
module NameCache {
  import opened Base

  /** `Name::NameId`, an unsigned 32-bit integer. */
  type NameId = x: nat | x < U32_LIMIT

  /** `Name::kInvalidNameId`: the largest 32-bit value. */
  const InvalidNameId: NameId := U32_LIMIT - 1

  /** `next_id_`, `view_to_id_` and `id_to_str_`. */
  datatype Cache = Cache(nextId: NameId, viewToId: map<string, NameId>, idToStr: map<NameId, string>)

  /** The cache as the program starts with it. */
  const Initial: Cache := Cache(0, map[], map[])

  /**
   * The two maps are inverse to each other, every id handed out is below
   * `nextId`, and the counter has not yet reached the invalid id.
   */
  predicate Valid(c: Cache)
  {
    && c.nextId <= InvalidNameId
    && (forall s :: s in c.viewToId ==>
          c.viewToId[s] < c.nextId && c.viewToId[s] in c.idToStr && c.idToStr[c.viewToId[s]] == s)
    && (forall id :: id in c.idToStr ==>
          id < c.nextId && c.idToStr[id] in c.viewToId && c.viewToId[c.idToStr[id]] == id)
  }

  /** `FindView`: the string an id was issued for, if any. */
  function FindView(c: Cache, id: NameId): Option<string>
  {
    if id in c.idToStr then Some(c.idToStr[id]) else None
  }

  /**
   * `GetId`: a string already seen keeps its id; a new string takes
   * `next_id_`, which then advances with 32-bit wrap-around, and is recorded
   * in both directions.
   */
  function GetId(c: Cache, s: string): (r: (NameId, Cache))
    ensures s in r.1.viewToId && r.1.viewToId[s] == r.0
    ensures s in c.viewToId ==> r.1 == c
    ensures s !in c.viewToId ==> r.0 == c.nextId && r.1.nextId == (c.nextId + 1) % U32_LIMIT
  {
    if s in c.viewToId then
      (c.viewToId[s], c)
    else
      var id := c.nextId;
      (id, Cache((id + 1) % U32_LIMIT, c.viewToId[s := id], c.idToStr[id := s]))
  }

  lemma InitialValid()
    ensures Valid(Initial)
  {
  }

  /** Interning keeps the table consistent while the counter stays below the invalid id. */
  lemma GetIdValid(c: Cache, s: string)
    requires Valid(c)
    requires s in c.viewToId || c.nextId < InvalidNameId
    ensures Valid(GetId(c, s).1)
  {
  }

  /** Asking again for the same string returns the same id and changes nothing. */
  lemma GetIdIdempotent(c: Cache, s: string)
    ensures GetId(GetId(c, s).1, s) == GetId(c, s)
  {
  }

  /** Different strings get different ids while the counter has room. */
  lemma GetIdInjective(c: Cache, s: string, t: string)
    requires Valid(c)
    requires s in c.viewToId || c.nextId < InvalidNameId
    requires t in GetId(c, s).1.viewToId || GetId(c, s).1.nextId < InvalidNameId
    ensures var (i, c1) := GetId(c, s);
      (GetId(c1, t).0 == i) <==> s == t
  {
    var (i, c1) := GetId(c, s);
    GetIdValid(c, s);
    var (j, c2) := GetId(c1, t);
    if s != t && t in c1.viewToId {
      assert c1.idToStr[j] == t;
      assert c1.idToStr[i] == s;
    }
  }

  /** Every issued id reads back its string. */
  lemma FindViewOfGetId(c: Cache, s: string)
    requires Valid(c)
    ensures FindView(GetId(c, s).1, GetId(c, s).0) == Some(s)
  {
  }

  /** An id at or above the counter was never issued and reads back as nothing. */
  lemma FindViewUnissued(c: Cache, id: NameId)
    requires Valid(c) && id >= c.nextId
    ensures FindView(c, id) == None
  {
  }

  /**
   * When the counter has reached the invalid id, the next new string is given
   * that id and the counter wraps to 0.
   */
  lemma GetIdExhausted(c: Cache, s: string)
    requires c.nextId == InvalidNameId && s !in c.viewToId
    ensures GetId(c, s).0 == InvalidNameId && GetId(c, s).1.nextId == 0
  {
  }
}
