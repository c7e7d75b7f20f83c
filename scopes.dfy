/**
 * The active-scope set and the three operations every provider exposes on it
 * (`enable_scope`, `disable_scope`, `toggle_scope`), plus the set the
 * `scopes!` macro builds.
 */
module Scopes {

  /** The scope every binding registered without explicit scopes belongs to. */
  const Wildcard: string := "*"

  /** `enable_scope`: insert the scope, but only when it is absent. */
  function Enable(active: set<string>, scope: string): (r: set<string>)
    ensures r == active + {scope}
  {
    if scope !in active then active + {scope} else active
  }

  /** `disable_scope`: remove the scope; nothing else changes. */
  function Disable(active: set<string>, scope: string): (r: set<string>)
    ensures scope !in r
    ensures forall t :: t != scope ==> (t in r <==> t in active)
  {
    active - {scope}
  }

  /** `toggle_scope`: remove the scope when present, insert it otherwise. */
  function Toggle(active: set<string>, scope: string): (r: set<string>)
    ensures scope in r <==> scope !in active
    ensures forall t :: t != scope ==> (t in r <==> t in active)
  {
    if scope in active then active - {scope} else active + {scope}
  }

  lemma EnableIdempotent(active: set<string>, scope: string)
    ensures Enable(Enable(active, scope), scope) == Enable(active, scope)
  {
  }

  /** Disabling a scope that is not active is a no-op. */
  lemma DisableAbsent(active: set<string>, scope: string)
    requires scope !in active
    ensures Disable(active, scope) == active
  {
  }

  lemma DisableIdempotent(active: set<string>, scope: string)
    ensures Disable(Disable(active, scope), scope) == Disable(active, scope)
  {
  }

  /** Toggling twice restores the set. */
  lemma ToggleInvolution(active: set<string>, scope: string)
    ensures Toggle(Toggle(active, scope), scope) == active
  {
  }

  /** A toggle is a disable when the scope is active and an enable when it is not. */
  lemma ToggleIsEnableOrDisable(active: set<string>, scope: string)
    ensures Toggle(active, scope) == if scope in active then Disable(active, scope) else Enable(active, scope)
  {
  }

  /** What `scopes!(x1, ..., xn)` evaluates to: the wildcard and every argument. */
  function ScopeSet(args: seq<string>): (r: set<string>)
    ensures Wildcard in r
    ensures forall t :: t in r <==> t == Wildcard || t in args
    decreases |args|
  {
    if |args| == 0 then {Wildcard} else ScopeSet(args[..|args| - 1]) + {args[|args| - 1]}
  }

  /** Duplicate arguments collapse, and argument order does not matter. */
  lemma ScopeSetIgnoresOrder(xs: seq<string>, ys: seq<string>)
    requires forall t :: t in xs <==> t in ys
    ensures ScopeSet(xs) == ScopeSet(ys)
  {
  }
}
