/** The menu registry modules fill at start-up: a list of menu definitions, each checked for the
    keys the front end needs before it is appended. */
module Menu {
  import opened Wrappers

  /** A JSON value, as a menu definition holds them. */
  datatype Json =
    | JNull
    | JBool(b: bool)
    | JNumber(n: int)
    | JString(s: string)
    | JArray(items: seq<Json>)
    | JObject(fields: map<string, Json>)

  type MenuDefinition = map<string, Json>

  const RequiredKeys: set<string> := {"id", "title", "routes"}

  const MissingKeys := "Menu definition missing required keys"

  /** `{"id", "title", "routes"}.issubset(definition.keys())`: further keys are allowed. */
  predicate HasRequiredKeys(definition: MenuDefinition)
  {
    RequiredKeys <= definition.Keys
  }

  /** The check is a subset test: a definition passes exactly when it has the three keys,
      whatever further keys it holds. */
  lemma RequiredKeysOnly(definition: MenuDefinition, extra: string, value: Json)
    ensures HasRequiredKeys(definition) <==> "id" in definition && "title" in definition && "routes" in definition
    ensures HasRequiredKeys(definition) ==> HasRequiredKeys(definition[extra := value])
  {
  }

  /** The definitions of `attempts` that a registry accepts, in the order they came. */
  function Accepted(attempts: seq<MenuDefinition>): (r: seq<MenuDefinition>)
    ensures |r| <= |attempts|
  {
    if attempts == [] then []
    else
      var init := Accepted(attempts[..|attempts| - 1]);
      if HasRequiredKeys(attempts[|attempts| - 1]) then init + [attempts[|attempts| - 1]] else init
  }

  /** Exactly the definitions with the required keys are accepted. */
  lemma {:induction false} AcceptedExactly(attempts: seq<MenuDefinition>)
    ensures forall d :: d in Accepted(attempts) <==> d in attempts && HasRequiredKeys(d)
  {
    if attempts != [] {
      var init := attempts[..|attempts| - 1];
      AcceptedExactly(init);
      assert attempts == init + [attempts[|attempts| - 1]];
    }
  }

  /** `MENU_REGISTRY` with the functions that change and read it. */
  class MenuRegistry {
    var menus: seq<MenuDefinition>
    /** Every definition ever offered to `RegisterModuleMenu`, accepted or not. */
    ghost var attempts: seq<MenuDefinition>

    /** The registry holds the accepted definitions of all attempts, in registration order. */
    ghost predicate Valid()
      reads this
    {
      menus == Accepted(attempts)
    }

    /** The empty list the module starts with. */
    constructor()
      ensures Valid()
      ensures menus == [] && attempts == []
    {
      menus := [];
      attempts := [];
    }

    /** `register_module_menu`: a definition lacking a required key raises `ValueError` and
        leaves the registry as it was; any other is appended after the earlier ones. */
    method RegisterModuleMenu(definition: MenuDefinition) returns (r: Outcome<string>)
      requires Valid()
      modifies this
      ensures Valid()
      ensures attempts == old(attempts) + [definition]
      ensures r.Pass? <==> HasRequiredKeys(definition)
      ensures r.Fail? ==> r.error == MissingKeys && menus == old(menus)
      ensures r.Pass? ==> menus == old(menus) + [definition]
    {
      attempts := attempts + [definition];
      assert attempts[..|attempts| - 1] == old(attempts);
      if !HasRequiredKeys(definition) {
        return Fail(MissingKeys);
      }
      menus := menus + [definition];
      return Pass;
    }

    /** `get_registered_menus`: the registered definitions in registration order. */
    function GetRegisteredMenus(): (r: seq<MenuDefinition>)
      reads this
      requires Valid()
      ensures r == Accepted(attempts)
      ensures forall d :: d in r ==> HasRequiredKeys(d)
    {
      AcceptedExactly(attempts);
      menus
    }
  }
}
