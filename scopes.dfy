/** One lexical block: the map from the symbols declared in it to their
    slot indices (src/semantic/scope.rs:11-39). A scope does not own slots;
    its frame does. */
module Scopes {
  import opened Symbols
  import opened Types

  datatype Scope = Scope(variables: map<Symbol, SlotIx>)

  /** The scope of a freshly entered block. */
  const Empty: Scope := Scope(map[])

  /** Every index the scope holds is below `n`. */
  ghost predicate Bounded(scope: Scope, n: nat) {
    forall s :: s in scope.variables ==> scope.variables[s] < n
  }

  /** Different symbols of one scope hold different slots. */
  ghost predicate Injective(scope: Scope) {
    forall s, t :: s in scope.variables && t in scope.variables && s != t ==>
      scope.variables[s] != scope.variables[t]
  }

  /** The slot bound to `symbol` in this block alone; enclosing blocks are
      the frame's business. */
  function Resolve(scope: Scope, symbol: Symbol): (r: Option<SlotIx>)
    ensures r.Some? <==> symbol in scope.variables
    ensures r.Some? ==> r.value == scope.variables[symbol]
  {
    if symbol in scope.variables then Some(scope.variables[symbol]) else None
  }

  /** Binds `symbol` to `ix` unless the block already binds it; the flag
      says whether the binding was made. A refused declaration changes
      nothing. */
  function Declare(scope: Scope, symbol: Symbol, ix: SlotIx): (r: (bool, Scope))
    ensures r.0 <==> Resolve(scope, symbol).None?
    ensures !r.0 ==> r.1 == scope
    ensures Resolve(r.1, symbol) == if r.0 then Some(ix) else Resolve(scope, symbol)
    ensures forall t :: t != symbol ==> Resolve(r.1, t) == Resolve(scope, t)
    ensures r.1.variables.Keys == scope.variables.Keys + {symbol}
    ensures Bounded(scope, ix) ==> Bounded(r.1, ix + 1)
    ensures Bounded(scope, ix) && Injective(scope) ==> Injective(r.1)
  {
    if symbol in scope.variables then (false, scope)
    else (true, Scope(scope.variables[symbol := ix]))
  }
}
