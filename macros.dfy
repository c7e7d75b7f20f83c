/**
 * The macros of leptos_hotkeys/src/macros.rs: `scopes!`, which builds a
 * scope set that always holds the wildcard, and the arms of `use_hotkeys!`
 * and `use_hotkeys_ref!`, which pass `["*"]` when no scope is named and
 * exactly the named scopes otherwise.
 */
module Macros {
  import opened Wrappers
  import Scopes
  import Dispatch

  /** `scopes!(a, b, …)`: a set with `"*"` inserted first, then every argument in turn. */
  method ScopesMacro(args: seq<string>) returns (r: set<string>)
    ensures r == Scopes.ScopeSet(args)
  {
    r := {Scopes.Wildcard};
    for i := 0 to |args|
      invariant r == Scopes.ScopeSet(args[..i])
    {
      assert args[..i + 1][..i] == args[..i];
      r := r + {args[i]};
    }
    assert args[..|args|] == args;
  }

  /** The scope list a hook macro passes on: the named scopes, or `["*"]` when there are none. */
  function ScopeArgs(scopes: seq<string>): seq<string> {
    if |scopes| == 0 then [Scopes.Wildcard] else scopes
  }

  /** `use_hotkeys!((combination, scopes…) => callback)`, apart from the callback. */
  function UseHotkeys(combination: string, scopes: seq<string>): Dispatch.Binding {
    Dispatch.UseHotkeysScoped(combination, ScopeArgs(scopes))
  }

  /** `use_hotkeys_ref!((node_ref, combination, scopes…) => callback)`: a fresh reference with no handler yet. */
  method UseHotkeysRef(combination: string, scopes: seq<string>) returns (r: Dispatch.HotkeyRef)
    ensures fresh(r) && r.handler == None
    ensures r.binding == UseHotkeys(combination, scopes)
  {
    r := new Dispatch.HotkeyRef(combination, ScopeArgs(scopes));
  }

  /** A binding that names no scope is in scope exactly while the wildcard is active. */
  lemma DefaultScopeFollowsWildcard(combination: string, activeScopes: set<string>)
    ensures Dispatch.WithinScope(UseHotkeys(combination, []).scopes, activeScopes) <==> Scopes.Wildcard in activeScopes
  {
    assert UseHotkeys(combination, []).scopes[0] == Scopes.Wildcard;
  }

  /** A binding that names scopes is in scope exactly while one of them is active; the wildcard is not added. */
  lemma NamedScopesExactly(combination: string, scopes: seq<string>, activeScopes: set<string>)
    requires |scopes| > 0
    ensures Dispatch.WithinScope(UseHotkeys(combination, scopes).scopes, activeScopes) <==>
            exists s :: s in scopes && s in activeScopes
  {
    if exists s :: s in scopes && s in activeScopes {
      var s :| s in scopes && s in activeScopes;
      var i :| 0 <= i < |scopes| && scopes[i] == s;
    }
  }

  /**
   * Under any provider scopes built by `scopes!`, a default binding starts in
   * scope, and a binding naming only other, non-wildcard scopes starts out of it.
   */
  lemma InitialScopes(combination: string, args: seq<string>, scopes: seq<string>)
    requires forall i :: 0 <= i < |scopes| ==> scopes[i] != Scopes.Wildcard && scopes[i] !in args
    ensures Dispatch.WithinScope(UseHotkeys(combination, []).scopes, Scopes.ScopeSet(args))
    ensures |scopes| > 0 ==> !Dispatch.WithinScope(UseHotkeys(combination, scopes).scopes, Scopes.ScopeSet(args))
  {
    DefaultScopeFollowsWildcard(combination, Scopes.ScopeSet(args));
  }
}
