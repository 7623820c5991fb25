/** `NodeNamesCollector`: the per-type registry of node names filled in by generated static constructors. */
module NodeNames {
  import opened Wrappers

  /** The identity of a registered type `T`. */
  type TypeKey = string

  datatype RegistryError = NotRegistered(key: TypeKey)

  /** What `GetFor<T>` answers for a registry state: the name, or the "is not registered" failure. */
  function Lookup(names: map<TypeKey, string>, key: TypeKey): (r: Result<string, RegistryError>)
    ensures r.Ok? <==> key in names
    ensures r.Ok? ==> r.value == names[key]
    ensures r.Err? ==> r.error == NotRegistered(key)
  {
    if key in names then Ok(names[key]) else Err(NotRegistered(key))
  }

  /** The `Cache<T>.NodeName` fields of every type, absent while still null. */
  class NodeNamesCollector {
    var names: map<TypeKey, string>

    constructor ()
      ensures names == map[]
    {
      names := map[];
    }

    /** `RegisterFor<T>(nodeName)`: sets the entry of `T`, replacing an earlier one. */
    method RegisterFor(key: TypeKey, nodeName: string)
      modifies this
      ensures names == old(names)[key := nodeName]
    {
      names := names[key := nodeName];
    }

    /** `GetFor<T>()`. */
    function GetFor(key: TypeKey): (r: Result<string, RegistryError>)
      reads this
      ensures r == Lookup(names, key)
    {
      if key in names then Ok(names[key]) else Err(NotRegistered(key))
    }
  }

  /** Registering `T` makes `GetFor<T>` return that name and leaves every other type's answer alone. */
  lemma RegisterThenGet(names: map<TypeKey, string>, key: TypeKey, nodeName: string, other: TypeKey)
    ensures Lookup(names[key := nodeName], key) == Ok(nodeName)
    ensures other != key ==> Lookup(names[key := nodeName], other) == Lookup(names, other)
  {
  }

  /** Registering twice: the last name wins. */
  lemma LastRegistrationWins(names: map<TypeKey, string>, key: TypeKey, first: string, second: string)
    ensures names[key := first][key := second] == names[key := second]
  {
  }

  /** A registry filled by a sequence of registrations answers with the last name given for each type. */
  function RegisterAll(names: map<TypeKey, string>, registrations: seq<(TypeKey, string)>): map<TypeKey, string>
    decreases |registrations|
  {
    if registrations == [] then names
    else RegisterAll(names[registrations[0].0 := registrations[0].1], registrations[1..])
  }

  lemma {:induction false} RegisterAllLookup(names: map<TypeKey, string>, registrations: seq<(TypeKey, string)>, key: TypeKey)
    ensures (exists i :: 0 <= i < |registrations| && registrations[i].0 == key) ==>
      exists i :: 0 <= i < |registrations| && registrations[i].0 == key
        && Lookup(RegisterAll(names, registrations), key) == Ok(registrations[i].1)
        && forall j :: i < j < |registrations| ==> registrations[j].0 != key
    ensures (forall i :: 0 <= i < |registrations| ==> registrations[i].0 != key) ==>
      Lookup(RegisterAll(names, registrations), key) == Lookup(names, key)
    decreases |registrations|
  {
    if registrations != [] {
      var head := registrations[0];
      var rest := registrations[1..];
      RegisterAllLookup(names[head.0 := head.1], rest, key);
      if exists i :: 0 <= i < |rest| && rest[i].0 == key {
        var i :| 0 <= i < |rest| && rest[i].0 == key
          && Lookup(RegisterAll(names[head.0 := head.1], rest), key) == Ok(rest[i].1)
          && forall j :: i < j < |rest| ==> rest[j].0 != key;
        assert registrations[i + 1] == rest[i];
        forall j | i + 1 < j < |registrations| ensures registrations[j].0 != key {
          assert registrations[j] == rest[j - 1];
        }
      } else {
        forall j | 0 <= j < |rest| ensures rest[j].0 != key {
        }
        if head.0 == key {
          forall j | 0 < j < |registrations| ensures registrations[j].0 != key {
            assert registrations[j] == rest[j - 1];
          }
        } else {
          forall i | 0 <= i < |registrations| ensures registrations[i].0 != key {
            if i > 0 { assert registrations[i] == rest[i - 1]; }
          }
        }
      }
    }
  }
}
