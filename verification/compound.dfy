/** The accessors of a Compound's map (tag.go `Compound.Get`, `Set`, `Has`
    and the typed getters). A getter fails with `NotFound` on a missing name
    and otherwise hands the tag to the matching coercion. */
module Compounds {
  import opened Ints
  import opened Results
  import opened Cursor
  import opened Tags
  import opened Coercions

  type Entries = map<Bytes, Tag>

  /** `Get`: the tag stored under a name, if any. */
  function Get(m: Entries, name: Bytes): (r: Option<Tag>)
    ensures r.Some? <==> name in m
    ensures r.Some? ==> r.value == m[name]
  {
    if name in m then Some(m[name]) else None
  }

  /** `Set`: store a tag under its own name, replacing what was there. */
  function Set(m: Entries, t: Tag): (r: Entries)
    ensures r.Keys == m.Keys + {t.name}
    ensures r[t.name] == t
    ensures forall n | n in m && n != t.name :: r[n] == m[n]
  {
    m[t.name := t]
  }

  /** `Has`: whether a tag is stored under a name, which is exactly when
      Get finds one. */
  predicate Has(m: Entries, name: Bytes)
    ensures Has(m, name) <==> Get(m, name).Some?
  {
    name in m
  }

  /** After Set, Get finds the new tag under its name and every other name
      as before; Has gains exactly that name. */
  lemma SetThenGet(m: Entries, t: Tag, name: Bytes)
    ensures Get(Set(m, t), name) == if name == t.name then Some(t) else Get(m, name)
    ensures Has(Set(m, t), name) <==> name == t.name || Has(m, name)
  {
  }

  /** Setting a tag that is already stored under its name changes nothing,
      and setting twice under one name keeps only the second. */
  lemma SetIdempotentAndLastWins(m: Entries, t: Tag, u: Tag)
    ensures Get(m, t.name) == Some(t) ==> Set(m, t) == m
    ensures u.name == t.name ==> Set(Set(m, t), u) == Set(m, u)
  {
  }

  /** `GetBool`. */
  function GetBool(m: Entries, name: Bytes): (r: Result<bool>)
    ensures r.Err? <==> !Has(m, name)
    ensures r.Err? ==> r.error == NotFound
    ensures r.Ok? ==> r.value == ToBool(m[name].value)
  {
    match Get(m, name)
    case None => Err(NotFound)
    case Some(t) => Ok(ToBool(t.value))
  }

  /** `GetByte` (target `ToByte`), `GetShort` (`ToInt16`), `GetInt`
      (`ToInt32`) and `GetLong` (`ToInt64`). */
  function GetInteger(m: Entries, name: Bytes, target: Target): (r: Coerced<int>)
    ensures !Has(m, name) ==> r == Failed(NotFound)
    ensures Has(m, name) ==> r == ToInteger(m[name].value, target)
  {
    match Get(m, name)
    case None => Failed(NotFound)
    case Some(t) => ToInteger(t.value, target)
  }

  /** `GetByteArray`. */
  function GetByteArray(m: Entries, name: Bytes, helper: ByteOrder): (r: Result<Bytes>)
    ensures !Has(m, name) ==> r == Err(NotFound)
    ensures Has(m, name) ==> r == ToByteArray(m[name].value, helper)
  {
    match Get(m, name)
    case None => Err(NotFound)
    case Some(t) => ToByteArray(t.value, helper)
  }

  /** `GetIntArray`. */
  function GetIntArray(m: Entries, name: Bytes): (r: Result<seq<int32>>)
    ensures !Has(m, name) ==> r == Err(NotFound)
    ensures Has(m, name) ==> r == ToIntArray(m[name].value)
  {
    match Get(m, name)
    case None => Err(NotFound)
    case Some(t) => ToIntArray(t.value)
  }

  /** `GetList`: the elements of a List tag; any other kind is refused. */
  function GetList(m: Entries, name: Bytes): (r: Result<seq<Tag>>)
    ensures r.Ok? <==> Has(m, name) && m[name].value.List?
    ensures r.Ok? ==> r.value == m[name].value.elems
    ensures r.Err? ==> r.error == (if Has(m, name) then CannotCast else NotFound)
  {
    match Get(m, name)
    case None => Err(NotFound)
    case Some(t) =>
      match t.value
      case List(_, elems) => Ok(elems)
      case _ => Err(CannotCast)
  }

  /** `GetCompound`: the map of a Compound tag; any other kind is refused. */
  function GetCompound(m: Entries, name: Bytes): (r: Result<Entries>)
    ensures r.Ok? <==> Has(m, name) && m[name].value.Compound?
    ensures r.Ok? ==> r.value == m[name].value.entries
    ensures r.Err? ==> r.error == (if Has(m, name) then CannotCast else NotFound)
  {
    match Get(m, name)
    case None => Err(NotFound)
    case Some(t) =>
      match t.value
      case Compound(entries) => Ok(entries)
      case _ => Err(CannotCast)
  }

  /** A value stored with Set is what the typed getters then return. */
  lemma GettersSeeSet(m: Entries, t: Tag, target: Target)
    ensures GetBool(Set(m, t), t.name) == Ok(ToBool(t.value))
    ensures GetInteger(Set(m, t), t.name, target) == ToInteger(t.value, target)
    ensures GetIntArray(Set(m, t), t.name) == ToIntArray(t.value)
    ensures t.value.List? ==> GetList(Set(m, t), t.name) == Ok(t.value.elems)
    ensures t.value.Compound? ==> GetCompound(Set(m, t), t.name) == Ok(t.value.entries)
  {
  }
}
