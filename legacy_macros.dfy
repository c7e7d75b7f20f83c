/**
 * The macros of src/macros.rs. `scopes!` expands as in the current crate,
 * into a `HashSet` instead of a `BTreeSet` (`Macros.ScopesMacro` models
 * both). The hook macros choose their scope list the same way, and hand it
 * to the older crate's hooks.
 */
module LegacyMacros {
  import opened Wrappers
  import Scopes
  import Dispatch
  import LegacyDispatch
  import LegacyProvider
  import Macros

  /** `use_hotkeys!((combination, scopes…) => callback)`, apart from the callback. */
  function UseHotkeys(combination: string, scopes: seq<string>): Dispatch.Binding {
    LegacyDispatch.UseHotkeysScoped(combination, Macros.ScopeArgs(scopes))
  }

  /** `use_hotkeys_ref!((combination, scopes…) => callback)`: a fresh reference with no listener yet. */
  method UseHotkeysRef(combination: string, scopes: seq<string>) returns (r: LegacyDispatch.HotkeyRef)
    ensures fresh(r) && r.listeners == []
    ensures r.binding == UseHotkeys(combination, scopes)
  {
    r := new LegacyDispatch.HotkeyRef(combination, Macros.ScopeArgs(scopes));
  }

  /**
   * With the provider's default scopes, a binding that names no scope is in
   * scope and one that names only other scopes is not.
   */
  lemma DefaultProviderScopes(combination: string, scopes: seq<string>)
    requires forall i :: 0 <= i < |scopes| ==> scopes[i] != Scopes.Wildcard
    ensures Dispatch.WithinScope(UseHotkeys(combination, []).scopes, LegacyProvider.DefaultScopes())
    ensures |scopes| > 0 ==> !Dispatch.WithinScope(UseHotkeys(combination, scopes).scopes, LegacyProvider.DefaultScopes())
  {
    assert UseHotkeys(combination, []).scopes[0] == Scopes.Wildcard;
  }
}
