/**
 * Environment.java: the shell's variable store, a string-to-string map that
 * is updated in place and is seeded with the exit-status variable `?`.
 */
module Environments {

  /** `vars.getOrDefault(key, "")`: the value of a name, `""` when it is unset. */
  function Lookup(vars: map<string, string>, key: string): (v: string)
    ensures key in vars ==> v == vars[key]
    ensures key !in vars ==> v == ""
  {
    if key in vars then vars[key] else ""
  }

  /** After storing `value` under `key`, `key` reads `value` and every other name reads as before. */
  lemma LookupUpdate(vars: map<string, string>, key: string, value: string, other: string)
    ensures Lookup(vars[key := value], key) == value
    ensures other != key ==> Lookup(vars[key := value], other) == Lookup(vars, other)
  {
  }

  /** The map a fresh Environment holds: `?` is `"0"` and nothing else is set. */
  const Initial: map<string, string> := map["?" := "0"]

  class Environment {
    /** The variables, as the Java `HashMap` holds them. */
    var vars: map<string, string>
    /** The names stored through SetVar since construction. */
    ghost var setNames: set<string>

    ghost predicate Valid()
      reads this
    {
      vars.Keys == setNames + {"?"}
    }

    /** `new Environment()`: `?` maps to `"0"`, nothing else is set. */
    constructor()
      ensures Valid()
      ensures vars == Initial && setNames == {}
    {
      vars := Initial;
      setNames := {};
    }

    /** `getVar`: the value of `key`, `""` when it is unset; it never fails. */
    function GetVar(key: string): (v: string)
      reads this
      requires Valid()
      ensures key in setNames || key == "?" ==> v == vars[key]
      ensures key !in setNames && key != "?" ==> v == ""
    {
      Lookup(vars, key)
    }

    /** `setVar`: stores or overwrites `key`; every other name keeps its value. */
    method SetVar(key: string, value: string)
      requires Valid()
      modifies this
      ensures Valid()
      ensures vars == old(vars)[key := value]
      ensures setNames == old(setNames) + {key}
      ensures GetVar(key) == value
      ensures forall k :: k != key ==> GetVar(k) == old(GetVar(k))
    {
      vars := vars[key := value];
      setNames := setNames + {key};
    }

    /** `containsVar`: true exactly for a name that was set, and for `?`. */
    function ContainsVar(key: string): (r: bool)
      reads this
      requires Valid()
      ensures r <==> key in setNames || key == "?"
    {
      key in vars
    }
  }

  /** The scenario of the environment's unit tests, on any names and values. */
  method SetAndGet(u: string, v1: string, v2: string, h: string, hv: string, n: string)
    returns (status: string, got: string, other: string, missing: string, has: bool, hasNot: bool)
    requires u != h && n != u && n != h && n != "?"
    ensures status == "0" && got == v2 && other == hv && missing == ""
    ensures has && !hasNot
  {
    var env := new Environment();
    status := env.GetVar("?");
    env.SetVar(u, v1);
    env.SetVar(u, v2);
    env.SetVar(h, hv);
    got := env.GetVar(u);
    other := env.GetVar(h);
    missing := env.GetVar(n);
    has := env.ContainsVar(u);
    hasNot := env.ContainsVar(n);
  }
}
