/** One function's compile-time activation record: the kinds of its slots,
    which only grow, and the stack of its open blocks
    (src/semantic/scope.rs:42-135).

    A frame is owned by value by the resolver's frame stack and is never
    shared, so each of the source's `&mut self` operations is a function
    from the frame before to the frame after. */
module Frames {
  import opened Symbols
  import opened Types
  import Scopes

  datatype Frame = Frame(slots: seq<SlotKind>, scopes: seq<Scopes.Scope>)

  /** Slot indices are dense: every index any block holds names an existing
      slot, and within a block distinct symbols hold distinct slots. */
  ghost predicate Valid(f: Frame) {
    forall j :: 0 <= j < |f.scopes| ==>
      Scopes.Bounded(f.scopes[j], |f.slots|) && Scopes.Injective(f.scopes[j])
  }

  /** The bindings of the root block (none when no block is open). */
  function RootVars(f: Frame): map<Symbol, SlotIx> {
    if |f.scopes| == 0 then map[] else f.scopes[0].variables
  }

  /** Block `j` binds `symbol` and no block nested inside it does. */
  ghost predicate InnermostHolder(scopes: seq<Scopes.Scope>, j: int, symbol: Symbol) {
    0 <= j < |scopes| && symbol in scopes[j].variables &&
    forall m :: j < m < |scopes| ==> symbol !in scopes[m].variables
  }

  /** A new frame, with no slots and no block yet. */
  function New(): (f: Frame)
    ensures Valid(f) && f.slots == [] && f.scopes == []
  {
    Frame([], [])
  }

  /** Opens an empty block; it hides nothing. */
  function EnterBlock(f: Frame): (r: Frame)
    ensures r.slots == f.slots && r.scopes == f.scopes + [Scopes.Empty]
    ensures forall s :: Resolve(r, s) == Resolve(f, s)
    ensures Valid(f) ==> Valid(r)
  {
    var r := Frame(f.slots, f.scopes + [Scopes.Empty]);
    assert r.scopes[..|f.scopes|] == f.scopes;
    r
  }

  /** Closes the innermost block; the slots it allocated stay. */
  function ExitBlock(f: Frame): (r: Frame)
    requires |f.scopes| > 0
    ensures r.slots == f.slots && r.scopes == f.scopes[..|f.scopes| - 1]
    ensures Valid(f) ==> Valid(r)
  {
    Frame(f.slots, f.scopes[..|f.scopes| - 1])
  }

  /** Searches the blocks innermost first. */
  function ResolveIn(scopes: seq<Scopes.Scope>, symbol: Symbol): Option<SlotIx>
    decreases |scopes|
  {
    if |scopes| == 0 then None
    else
      match Scopes.Resolve(scopes[|scopes| - 1], symbol)
      case Some(ix) => Some(ix)
      case None => ResolveIn(scopes[..|scopes| - 1], symbol)
  }

  /** What `ResolveIn` finds: nothing exactly when no block binds the
      symbol, otherwise the binding of the innermost block that does. */
  lemma {:induction false} ResolveInFinds(scopes: seq<Scopes.Scope>, symbol: Symbol)
    ensures ResolveIn(scopes, symbol).None? <==>
      forall j :: 0 <= j < |scopes| ==> symbol !in scopes[j].variables
    ensures ResolveIn(scopes, symbol).Some? ==>
      exists j :: InnermostHolder(scopes, j, symbol) &&
                  ResolveIn(scopes, symbol).value == scopes[j].variables[symbol]
    decreases |scopes|
  {
    if |scopes| > 0 {
      var last := |scopes| - 1;
      if symbol in scopes[last].variables {
        assert InnermostHolder(scopes, last, symbol);
      } else {
        var init := scopes[..last];
        ResolveInFinds(init, symbol);
        if ResolveIn(init, symbol).Some? {
          var j :| InnermostHolder(init, j, symbol) && ResolveIn(init, symbol).value == init[j].variables[symbol];
          assert InnermostHolder(scopes, j, symbol);
        }
      }
    }
  }

  /** The slot `symbol` denotes in this frame, searching the open blocks
      innermost first; absence is no error here, since the symbol may live
      in an enclosing frame. */
  function Resolve(f: Frame, symbol: Symbol): Option<SlotIx> {
    ResolveIn(f.scopes, symbol)
  }

  /** In a valid frame the slot a symbol resolves to exists. */
  lemma ResolveBounded(f: Frame, symbol: Symbol)
    requires Valid(f)
    ensures Resolve(f, symbol).Some? ==> Resolve(f, symbol).value < |f.slots|
  {
    ResolveInFinds(f.scopes, symbol);
  }

  /** Shadowing: `Resolve` yields nothing exactly when no open block binds
      the symbol, and otherwise the binding of the innermost block that
      binds it. */
  lemma ResolveInnermost(f: Frame, symbol: Symbol)
    ensures Resolve(f, symbol).None? <==>
      forall j :: 0 <= j < |f.scopes| ==> symbol !in f.scopes[j].variables
    ensures forall j :: InnermostHolder(f.scopes, j, symbol) ==>
      Resolve(f, symbol) == Some(f.scopes[j].variables[symbol])
  {
    ResolveInFinds(f.scopes, symbol);
    forall j | InnermostHolder(f.scopes, j, symbol)
      ensures Resolve(f, symbol) == Some(f.scopes[j].variables[symbol])
    {
      var i :| InnermostHolder(f.scopes, i, symbol) &&
               Resolve(f, symbol).value == f.scopes[i].variables[symbol];
      assert i == j;
    }
  }

  /** Declares `symbol` in the innermost block with the next slot index and
      a `Regular` slot; a symbol already declared in that same block is a
      duplicate, and then nothing changes. */
  function Declare(f: Frame, symbol: Symbol, pos: SourcePos): (r: (Frame, Result<SlotIx>))
    requires |f.scopes| > 0
    ensures r.1.Ok? <==> symbol !in f.scopes[|f.scopes| - 1].variables
    ensures r.1.Err? ==> r.0 == f && r.1.error == DuplicateVariable(symbol, pos)
    ensures r.1.Ok? ==>
      && r.1.value == |f.slots|
      && r.0.slots == f.slots + [Regular]
      && |r.0.scopes| == |f.scopes|
      && r.0.scopes[..|f.scopes| - 1] == f.scopes[..|f.scopes| - 1]
      && r.0.scopes[|f.scopes| - 1].variables == f.scopes[|f.scopes| - 1].variables[symbol := |f.slots|]
    ensures Valid(f) ==> Valid(r.0)
  {
    var last := |f.scopes| - 1;
    var ix: SlotIx := |f.slots|;
    var (added, scope) := Scopes.Declare(f.scopes[last], symbol, ix);
    if added then
      (Frame(f.slots + [Regular], f.scopes[last := scope]), Ok(ix))
    else
      (f, Err(DuplicateVariable(symbol, pos)))
  }

  /** Looks `symbol` up in the root block only; if it is absent, binds it
      there to a new slot of the given kind. Keying on the root block keeps
      the binding visible for the rest of the frame. */
  function ResolveOrDeclare(f: Frame, symbol: Symbol, kind: SlotKind): (r: (Frame, SlotIx))
    requires |f.scopes| > 0
    ensures symbol in RootVars(r.0) && RootVars(r.0)[symbol] == r.1
    ensures symbol in RootVars(f) ==> r == (f, RootVars(f)[symbol])
    ensures symbol !in RootVars(f) ==>
      && r.1 == |f.slots|
      && r.0.slots == f.slots + [kind]
      && |r.0.scopes| == |f.scopes|
      && r.0.scopes[1..] == f.scopes[1..]
      && RootVars(r.0) == RootVars(f)[symbol := r.1]
    ensures Valid(f) ==> Valid(r.0) && r.1 < |r.0.slots|
  {
    match Scopes.Resolve(f.scopes[0], symbol)
    case Some(ix) => (f, ix)
    case None =>
      var ix: SlotIx := |f.slots|;
      var root := Scopes.Declare(f.scopes[0], symbol, ix).1;
      (Frame(f.slots + [kind], f.scopes[0 := root]), ix)
  }

  /** Marks slot `ix` as captured by a nested function; nothing else changes. */
  function Close(f: Frame, ix: SlotIx): (r: Frame)
    requires ix < |f.slots|
    ensures |r.slots| == |f.slots| && r.slots[ix] == Closed
    ensures forall i :: 0 <= i < |f.slots| && i != ix ==> r.slots[i] == f.slots[i]
    ensures r.scopes == f.scopes
    ensures Valid(f) ==> Valid(r)
  {
    Frame(f.slots[ix := Closed], f.scopes)
  }

  /** The finalised layout handed to the code generator: the slot kinds, in
      index order. */
  function Info(f: Frame): (r: FrameInfo)
    ensures |r.slots| == |f.slots| && forall i :: 0 <= i < |f.slots| ==> r.slots[i] == f.slots[i]
  {
    FrameInfo(f.slots)
  }

  /** A successful declaration is what the symbol now resolves to, and every
      other symbol resolves as before. */
  lemma DeclareShadows(f: Frame, symbol: Symbol, pos: SourcePos)
    requires |f.scopes| > 0
    ensures var (g, r) := Declare(f, symbol, pos);
      r.Ok? ==> Resolve(g, symbol) == Some(r.value) &&
                forall t :: t != symbol ==> Resolve(g, t) == Resolve(f, t)
  {
    var (g, r) := Declare(f, symbol, pos);
    if r.Ok? {
      var last := |f.scopes| - 1;
      assert InnermostHolder(g.scopes, last, symbol);
      ResolveInnermost(g, symbol);
      forall t | t != symbol
        ensures Resolve(g, t) == Resolve(f, t)
      {
        assert g.scopes[..last] == f.scopes[..last];
      }
    }
  }

  /** Declaring in a fresh inner block always succeeds and shadows the outer
      binding; leaving the block makes every symbol, the shadowed one
      included, resolve as before. */
  lemma ShadowThenRestore(f: Frame, symbol: Symbol, pos: SourcePos)
    ensures var (g, r) := Declare(EnterBlock(f), symbol, pos);
      && r == Ok(|f.slots|)
      && Resolve(g, symbol) == Some(|f.slots|)
      && forall t :: Resolve(ExitBlock(g), t) == Resolve(f, t)
  {
    var e := EnterBlock(f);
    var (g, r) := Declare(e, symbol, pos);
    DeclareShadows(e, symbol, pos);
    assert ExitBlock(g).scopes == f.scopes;
  }

  /** A symbol declared in a block that has been left is not visible in a
      sibling block entered afterwards: it resolves as it did before the
      first block was entered. */
  lemma SiblingBlockHidden(f: Frame, symbol: Symbol, pos: SourcePos)
    ensures var h := EnterBlock(ExitBlock(Declare(EnterBlock(f), symbol, pos).0));
      Resolve(h, symbol) == Resolve(f, symbol) && h.scopes == f.scopes + [Scopes.Empty]
  {
    ShadowThenRestore(f, symbol, pos);
  }

  /** Two distinct symbols declared in the same block resolve to distinct
      slots. */
  lemma DistinctInBlock(f: Frame, s: Symbol, t: Symbol)
    requires Valid(f) && |f.scopes| > 0 && s != t
    requires s in f.scopes[|f.scopes| - 1].variables && t in f.scopes[|f.scopes| - 1].variables
    ensures Resolve(f, s).Some? && Resolve(f, t).Some? && Resolve(f, s) != Resolve(f, t)
  {
    var last := |f.scopes| - 1;
    assert InnermostHolder(f.scopes, last, s);
    assert InnermostHolder(f.scopes, last, t);
    ResolveInnermost(f, s);
    ResolveInnermost(f, t);
  }

  /** A second `ResolveOrDeclare` of the same symbol returns the same slot
      and changes nothing, whatever kind it asks for. */
  lemma ResolveOrDeclareIdempotent(f: Frame, symbol: Symbol, first: SlotKind, second: SlotKind)
    requires |f.scopes| > 0
    ensures var (g, ix) := ResolveOrDeclare(f, symbol, first);
      |g.scopes| > 0 && ResolveOrDeclare(g, symbol, second) == (g, ix) &&
      |g.slots| <= |f.slots| + 1
  {
  }

  /** Closing a slot twice is closing it once. */
  lemma CloseIdempotent(f: Frame, ix: SlotIx)
    requires ix < |f.slots|
    ensures Close(Close(f, ix), ix) == Close(f, ix)
  {
  }

  /** Changing only the root block's binding of other symbols leaves the
      resolution of `t` alone. */
  lemma {:induction false} ResolveInRootSwap(a: seq<Scopes.Scope>, b: seq<Scopes.Scope>, t: Symbol)
    requires |a| == |b| > 0 && a[1..] == b[1..]
    requires Scopes.Resolve(a[0], t) == Scopes.Resolve(b[0], t)
    ensures ResolveIn(a, t) == ResolveIn(b, t)
    decreases |a|
  {
    if |a| > 1 {
      var n := |a| - 1;
      assert a[n] == a[1..][n - 1] == b[1..][n - 1] == b[n];
      assert a[..n][1..] == a[1..][..n - 1] == b[1..][..n - 1] == b[..n][1..];
      ResolveInRootSwap(a[..n], b[..n], t);
    }
  }
}
