/** The invariants the resolver keeps over its frame stack, innermost frame
    last, and the proofs that each operation of src/semantic/scope.rs keeps
    them.

    `WellFormed` holds whatever the symbols: every slot index a block holds
    exists, and every `Capture { from }` slot names an existing slot of the
    frame directly enclosing it.

    `Chained` describes the capture chains: every name a frame captured is
    bound in its root block to a `Capture` of the slot its enclosing frame
    uses for the same variable. It holds as long as the resolver is only
    ever given source identifiers, which cannot contain the `@` of the
    synthesised capture names (src/semantic/scope.rs:218-220). */
module Invariants {
  import opened Symbols
  import opened Types
  import Scopes
  import opened Frames
  import opened Capture

  /** Every `Capture` slot of `f` copies one of the `n` slots of its parent. */
  ghost predicate CapturesFit(f: Frame, n: nat) {
    forall i :: 0 <= i < |f.slots| && f.slots[i].Capture? ==> f.slots[i].from < n
  }

  /** The number of slots of the frame enclosing frame `k` (none for the
      outermost frame, which captures nothing). */
  function ParentSize(frames: seq<Frame>, k: nat): nat
    requires k < |frames|
  {
    if k == 0 then 0 else |frames[k - 1].slots|
  }

  /** The innermost frame. */
  function Top(frames: seq<Frame>): Frame
    requires |frames| > 0
  {
    frames[|frames| - 1]
  }

  /** The frames with the innermost one replaced. */
  function SetTop(frames: seq<Frame>, g: Frame): (r: seq<Frame>)
    requires |frames| > 0
  {
    frames[|frames| - 1 := g]
  }

  ghost predicate WellFormed(frames: seq<Frame>) {
    && AllValid(frames)
    && forall k :: 0 <= k < |frames| ==> CapturesFit(frames[k], ParentSize(frames, k))
  }

  /** The slot of `parent` that a capture chain for the source name `t`
      continues from: `t`'s own slot if the parent resolves `t`, otherwise
      the parent's own capture of `t`. */
  function ChainTarget(parent: Frame, t: Symbol): Option<SlotIx> {
    match Resolve(parent, t)
    case Some(ix) => Some(ix)
    case None =>
      if Captured(t) in RootVars(parent) then Some(RootVars(parent)[Captured(t)]) else None
  }

  /** Every capture in `child`'s root block is a `Capture` of the slot its
      parent uses for the same variable. */
  ghost predicate Linked(parent: Frame, child: Frame) {
    forall t :: IsSourceName(t) && Captured(t) in RootVars(child) ==>
      && RootVars(child)[Captured(t)] < |child.slots|
      && ChainTarget(parent, t).Some?
      && child.slots[RootVars(child)[Captured(t)]] == Capture(ChainTarget(parent, t).value)
  }

  /** Source identifiers are bound to existing slots that are not captures. */
  ghost predicate SourceSlots(f: Frame) {
    forall j, t :: 0 <= j < |f.scopes| && IsSourceName(t) && t in f.scopes[j].variables ==>
      f.scopes[j].variables[t] < |f.slots| && !f.slots[f.scopes[j].variables[t]].Capture?
  }

  ghost predicate Chained(frames: seq<Frame>) {
    forall k :: 0 <= k < |frames| ==>
      SourceSlots(frames[k]) && (0 < k ==> Linked(frames[k - 1], frames[k]))
  }

  /** `g` keeps `f`'s slots and adds at most one slot, which is not a
      capture. */
  ghost predicate Extends(f: Frame, g: Frame) {
    && |f.slots| <= |g.slots| <= |f.slots| + 1
    && (forall i :: 0 <= i < |f.slots| ==> g.slots[i] == f.slots[i])
    && (forall i :: |f.slots| <= i < |g.slots| ==> !g.slots[i].Capture?)
  }

  /** `g`'s root block holds no capture that `f`'s did not, with the same slot. */
  ghost predicate SameCaptures(f: Frame, g: Frame) {
    forall t :: IsSourceName(t) && Captured(t) in RootVars(g) ==>
      Captured(t) in RootVars(f) && RootVars(g)[Captured(t)] == RootVars(f)[Captured(t)]
  }

  lemma GrowKeepsFit(f: Frame, g: Frame, n: nat)
    requires CapturesFit(f, n) && Extends(f, g)
    ensures CapturesFit(g, n)
  {
    forall i | 0 <= i < |g.slots| && g.slots[i].Capture?
      ensures g.slots[i].from < n
    {
      assert i < |f.slots|;
    }
  }

  lemma GrowKeepsLinked(parent: Frame, f: Frame, g: Frame)
    requires Linked(parent, f) && Extends(f, g) && SameCaptures(f, g)
    ensures Linked(parent, g)
  {
  }

  /** Replacing the innermost frame by a valid frame `g` that grew from it
      without captures keeps well-formedness. Every operation of `Stack` on
      the innermost frame alone is such a replacement. */
  lemma ReplaceTopWellFormed(frames: seq<Frame>, g: Frame)
    requires |frames| > 0 && WellFormed(frames)
    requires Valid(g) && Extends(Top(frames), g)
    ensures WellFormed(SetTop(frames, g))
  {
    var top := |frames| - 1;
    var fs := SetTop(frames, g);
    assert fs[top] == g && forall k :: 0 <= k < top ==> fs[k] == frames[k];
    GrowKeepsFit(frames[top], g, ParentSize(frames, top));
    assert ParentSize(fs, top) == ParentSize(frames, top);
  }

  /** If that replacement also binds source identifiers to non-capture
      slots and adds no capture binding, it keeps the chains. */
  lemma ReplaceTopChained(frames: seq<Frame>, g: Frame)
    requires |frames| > 0 && Chained(frames)
    requires Extends(Top(frames), g) && SourceSlots(g) && SameCaptures(Top(frames), g)
    ensures Chained(SetTop(frames, g))
  {
    var top := |frames| - 1;
    var fs := SetTop(frames, g);
    assert fs[top] == g && forall k :: 0 <= k < top ==> fs[k] == frames[k];
    if top > 0 {
      GrowKeepsLinked(frames[top - 1], frames[top], g);
    }
  }

  /** Opening a block adds no slot and no binding. */
  lemma EnterBlockGrows(f: Frame)
    ensures var g := EnterBlock(f);
      Extends(f, g) && (SourceSlots(f) ==> SourceSlots(g) && SameCaptures(f, g))
  {
    var g := EnterBlock(f);
    if SourceSlots(f) {
      forall j, t | 0 <= j < |g.scopes| && IsSourceName(t) && t in g.scopes[j].variables
        ensures g.scopes[j].variables[t] < |g.slots| && !g.slots[g.scopes[j].variables[t]].Capture?
      {
        assert j < |f.scopes|;
        assert g.scopes[j] == f.scopes[j];
      }
      if |f.scopes| > 0 {
        assert RootVars(g) == RootVars(f);
      } else {
        assert RootVars(g) == map[];
      }
    }
  }

  /** Closing a block drops bindings and keeps every slot. */
  lemma ExitBlockGrows(f: Frame)
    requires |f.scopes| > 0
    ensures var g := ExitBlock(f);
      Extends(f, g) && (SourceSlots(f) ==> SourceSlots(g) && SameCaptures(f, g))
  {
    var g := ExitBlock(f);
    if SourceSlots(f) {
      forall j, t | 0 <= j < |g.scopes| && IsSourceName(t) && t in g.scopes[j].variables
        ensures g.scopes[j].variables[t] < |g.slots| && !g.slots[g.scopes[j].variables[t]].Capture?
      {
        assert g.scopes[j] == f.scopes[j];
      }
      if |f.scopes| > 1 {
        assert RootVars(g) == RootVars(f);
      } else {
        assert RootVars(g) == map[];
      }
    }
  }

  /** A declaration adds at most one `Regular` slot; for a source identifier
      it binds no capture name and gives the identifier a non-capture slot. */
  lemma DeclareGrows(f: Frame, symbol: Symbol, pos: SourcePos)
    requires |f.scopes| > 0
    ensures var g := Declare(f, symbol, pos).0;
      && Extends(f, g)
      && (SourceSlots(f) && IsSourceName(symbol) ==> SourceSlots(g) && SameCaptures(f, g))
  {
    var (g, r) := Declare(f, symbol, pos);
    var last := |f.scopes| - 1;
    if r.Ok? && SourceSlots(f) && IsSourceName(symbol) {
      forall j, t | 0 <= j < |g.scopes| && IsSourceName(t) && t in g.scopes[j].variables
        ensures g.scopes[j].variables[t] < |g.slots| && !g.slots[g.scopes[j].variables[t]].Capture?
      {
        if j < last {
          assert g.scopes[j] == g.scopes[..last][j] == f.scopes[..last][j] == f.scopes[j];
        } else if t != symbol {
          assert g.scopes[j].variables[t] == f.scopes[j].variables[t];
        }
      }
      if last > 0 {
        assert g.scopes[0] == g.scopes[..last][0] == f.scopes[..last][0] == f.scopes[0];
      }
    }
  }

  /** Resolve-or-declare with a kind other than `Capture` adds at most one
      slot of that kind; for a source identifier it binds no capture name
      and gives the identifier a non-capture slot. */
  lemma ResolveOrDeclareGrows(f: Frame, symbol: Symbol, kind: SlotKind)
    requires |f.scopes| > 0 && !kind.Capture?
    ensures var g := ResolveOrDeclare(f, symbol, kind).0;
      && Extends(f, g)
      && (SourceSlots(f) && IsSourceName(symbol) ==> SourceSlots(g) && SameCaptures(f, g))
  {
    var (g, ix) := ResolveOrDeclare(f, symbol, kind);
    if symbol !in RootVars(f) && SourceSlots(f) && IsSourceName(symbol) {
      forall j, t | 0 <= j < |g.scopes| && IsSourceName(t) && t in g.scopes[j].variables
        ensures g.scopes[j].variables[t] < |g.slots| && !g.slots[g.scopes[j].variables[t]].Capture?
      {
        if j > 0 {
          assert g.scopes[j] == g.scopes[1..][j - 1] == f.scopes[1..][j - 1] == f.scopes[j];
        } else if t != symbol {
          assert g.scopes[0].variables[t] == RootVars(g)[t] == RootVars(f)[t];
        }
      }
    }
  }

  /** `Stack::enter_frame` keeps both invariants: the new frame has no slot
      and no capture. */
  lemma EnterFrameKeeps(frames: seq<Frame>)
    requires WellFormed(frames)
    ensures WellFormed(frames + [EnterBlock(New())])
    ensures Chained(frames) ==> Chained(frames + [EnterBlock(New())])
  {
    var fs := frames + [EnterBlock(New())];
    assert forall k :: 0 <= k < |frames| ==> fs[k] == frames[k];
    assert RootVars(fs[|frames|]) == map[];
  }

  /** `Stack::exit_frame` keeps both invariants: the frames below the
      innermost one are untouched. */
  lemma ExitFrameKeeps(frames: seq<Frame>)
    requires |frames| > 0 && WellFormed(frames)
    ensures WellFormed(frames[..|frames| - 1])
    ensures Chained(frames) ==> Chained(frames[..|frames| - 1])
  {
    var fs := frames[..|frames| - 1];
    assert forall k :: 0 <= k < |fs| ==> fs[k] == frames[k];
    assert forall k :: 0 <= k < |fs| ==> ParentSize(fs, k) == ParentSize(frames, k);
  }

  /** Closing a source identifier's slot in frame `o` keeps the chains: that
      slot is no capture, so no capture binding pointed at it. */
  lemma CloseKeepsChained(frames: seq<Frame>, o: nat, t: Symbol, ix: SlotIx)
    requires o < |frames| && Chained(frames) && IsSourceName(t)
    requires Resolve(frames[o], t) == Some(ix) && ix < |frames[o].slots|
    ensures Chained(frames[o := Close(frames[o], ix)])
  {
    var f := frames[o];
    var g := Close(f, ix);
    var fs := frames[o := g];
    ResolveInFinds(f.scopes, t);
    var j :| InnermostHolder(f.scopes, j, t) && ix == f.scopes[j].variables[t];
    assert !f.slots[ix].Capture?;
    assert SourceSlots(g) by {
      forall j, u | 0 <= j < |g.scopes| && IsSourceName(u) && u in g.scopes[j].variables
        ensures g.scopes[j].variables[u] < |g.slots| && !g.slots[g.scopes[j].variables[u]].Capture?
      {
        assert f.scopes[j].variables[u] < |f.slots|;
      }
    }
    forall k | 0 <= k < |fs|
      ensures SourceSlots(fs[k]) && (0 < k ==> Linked(fs[k - 1], fs[k]))
    {
      if k == o && 0 < k {
        assert Linked(frames[k - 1], f);
      } else if k == o + 1 {
        forall u ensures ChainTarget(g, u) == ChainTarget(f, u) {
          assert Resolve(g, u) == Resolve(f, u);
        }
        assert Linked(f, frames[k]);
      }
    }
  }

  /** One step of the capture walk keeps the chains and continues the chain
      for `t` from the slot the previous frame uses. */
  lemma ThreadStepChained(frames: seq<Frame>, lo: nat, t: Symbol, from: SlotIx)
    requires 0 < lo < |frames| && |frames[lo].scopes| > 0
    requires Chained(frames) && IsSourceName(t)
    requires ChainTarget(frames[lo - 1], t) == Some(from)
    requires Resolve(frames[lo], t).None?
    ensures var (g, ix) := ResolveOrDeclare(frames[lo], Captured(t), Capture(from));
      Chained(frames[lo := g]) && ChainTarget(g, t) == Some(ix)
  {
    var c := Captured(t);
    var f := frames[lo];
    var (g, ix) := ResolveOrDeclare(f, c, Capture(from));
    var fs := frames[lo := g];
    if c !in RootVars(f) {
      assert Touched(f, g, c) by {
        forall u | u != c
          ensures Scopes.Resolve(g.scopes[0], u) == Scopes.Resolve(f.scopes[0], u)
        {
          assert RootVars(g) == RootVars(f)[c := ix];
        }
      }
      forall u | IsSourceName(u) ensures Resolve(g, u) == Resolve(f, u) {
        TouchedResolves(f, g, c, u);
      }
      assert SourceSlots(g) by {
        forall j, u | 0 <= j < |g.scopes| && IsSourceName(u) && u in g.scopes[j].variables
          ensures g.scopes[j].variables[u] < |g.slots| && !g.slots[g.scopes[j].variables[u]].Capture?
        {
          if j > 0 {
            assert g.scopes[j] == g.scopes[1..][j - 1] == f.scopes[1..][j - 1] == f.scopes[j];
          } else {
            assert g.scopes[0].variables[u] == RootVars(g)[u] == RootVars(f)[u];
          }
        }
      }
      assert Linked(frames[lo - 1], g) by {
        forall u | IsSourceName(u) && Captured(u) in RootVars(g)
          ensures && RootVars(g)[Captured(u)] < |g.slots|
                  && ChainTarget(frames[lo - 1], u).Some?
                  && g.slots[RootVars(g)[Captured(u)]] == Capture(ChainTarget(frames[lo - 1], u).value)
        {
          if u != t {
            if Captured(u) == c {
              CapturedInjective(u, t);
            }
            assert Linked(frames[lo - 1], f);
          }
        }
      }
      if lo + 1 < |frames| {
        var child := frames[lo + 1];
        assert Linked(f, child);
        assert Linked(g, child) by {
          forall u | IsSourceName(u) && Captured(u) in RootVars(child)
            ensures ChainTarget(g, u) == ChainTarget(f, u)
          {
            if u == t {
              // `c` was not bound in `f`, so no frame further in captured `t`.
              assert false;
            }
            if Captured(u) == c {
              CapturedInjective(u, t);
            }
          }
        }
      }
      forall k | 0 <= k < |fs|
        ensures SourceSlots(fs[k]) && (0 < k ==> Linked(fs[k - 1], fs[k]))
      {
      }
    } else {
      assert fs == frames;
      assert Linked(frames[lo - 1], f);
    }
  }

  /** Closing a slot changes no slot count and adds no capture. */
  lemma CloseWellFormed(frames: seq<Frame>, o: nat, ix: SlotIx)
    requires o < |frames| && ix < |frames[o].slots| && WellFormed(frames)
    ensures WellFormed(frames[o := Close(frames[o], ix)])
  {
    var closed := frames[o := Close(frames[o], ix)];
    forall k | 0 <= k < |closed|
      ensures CapturesFit(closed[k], ParentSize(closed, k))
    {
      assert CapturesFit(frames[k], ParentSize(frames, k));
    }
  }

  /** One step of the capture walk keeps well-formedness. */
  lemma ThreadStepWellFormed(frames: seq<Frame>, lo: nat, c: Symbol, from: SlotIx)
    requires 0 < lo < |frames| && |frames[lo].scopes| > 0 && WellFormed(frames)
    requires from < |frames[lo - 1].slots|
    ensures var (g, ix) := ResolveOrDeclare(frames[lo], c, Capture(from));
      WellFormed(frames[lo := g]) && ix < |g.slots|
  {
    var f := frames[lo];
    var (g, ix) := ResolveOrDeclare(f, c, Capture(from));
    var fs := frames[lo := g];
    assert Valid(f);
    assert CapturesFit(g, ParentSize(frames, lo)) by {
      forall i | 0 <= i < |g.slots| && g.slots[i].Capture?
        ensures g.slots[i].from < ParentSize(frames, lo)
      {
        if i < |f.slots| {
          assert CapturesFit(f, ParentSize(frames, lo));
        }
      }
    }
    forall k | 0 <= k < |fs|
      ensures CapturesFit(fs[k], ParentSize(fs, k))
    {
      if k == lo + 1 {
        assert CapturesFit(frames[k], ParentSize(frames, k));
      }
    }
  }

  /** The capture walk keeps well-formedness: each new `Capture` copies an
      existing slot of the frame before it. */
  lemma {:induction false} ThreadWellFormed(frames: seq<Frame>, lo: nat, c: Symbol, from: SlotIx)
    requires 0 < lo <= |frames| && RootsFrom(frames, lo) && WellFormed(frames)
    requires from < |frames[lo - 1].slots|
    ensures WellFormed(Thread(frames, lo, c, from).0)
    decreases |frames| - lo
  {
    if lo < |frames| {
      var (g, ix) := ResolveOrDeclare(frames[lo], c, Capture(from));
      ThreadStepWellFormed(frames, lo, c, from);
      ThreadWellFormed(frames[lo := g], lo + 1, c, ix);
    }
  }

  lemma CaptureChainWellFormed(frames: seq<Frame>, symbol: Symbol, hit: Hit)
    requires hit.frame < |frames| - 1 && hit.slot < |frames[hit.frame].slots|
    requires RootsFrom(frames, hit.frame + 1) && WellFormed(frames)
    ensures WellFormed(CaptureChain(frames, symbol, hit).0)
  {
    CaptureChainUnfold(frames, symbol, hit);
    CloseWellFormed(frames, hit.frame, hit.slot);
    ThreadWellFormed(frames[hit.frame := Close(frames[hit.frame], hit.slot)],
                     hit.frame + 1, Captured(symbol), hit.slot);
  }

  /** `Stack::resolve` keeps well-formedness, whatever the symbol. */
  lemma ResolveWellFormed(frames: seq<Frame>, symbol: Symbol, pos: SourcePos)
    requires WellFormed(frames) && CaptureReady(frames, symbol)
    ensures WellFormed(ResolveSpec(frames, symbol, pos).0)
  {
    match Origin(frames, symbol)
    case None =>
    case Some(o) =>
      if o.frame < |frames| - 1 {
        ResolveIsCapture(frames, symbol, pos, o);
        CaptureChainWellFormed(frames, symbol, o);
      }
  }

  /** The capture walk for the source name `t`, started where the chain
      continues from `from`, keeps the chains. */
  lemma {:induction false} ThreadChained(frames: seq<Frame>, lo: nat, t: Symbol, from: SlotIx)
    requires 0 < lo <= |frames| && RootsFrom(frames, lo)
    requires Chained(frames) && IsSourceName(t)
    requires ChainTarget(frames[lo - 1], t) == Some(from)
    requires forall k :: lo <= k < |frames| ==> Resolve(frames[k], t).None?
    ensures Chained(Thread(frames, lo, Captured(t), from).0)
    decreases |frames| - lo
  {
    if lo < |frames| {
      var (g, ix) := ResolveOrDeclare(frames[lo], Captured(t), Capture(from));
      ThreadStepChained(frames, lo, t, from);
      ThreadChained(frames[lo := g], lo + 1, t, ix);
    }
  }

  /** The capture chain of a source name found in frame `hit.frame` and in
      no later frame keeps the chains. */
  lemma CaptureChainChained(frames: seq<Frame>, symbol: Symbol, hit: Hit)
    requires hit.frame < |frames| - 1 && hit.slot < |frames[hit.frame].slots|
    requires RootsFrom(frames, hit.frame + 1) && Chained(frames) && IsSourceName(symbol)
    requires Resolve(frames[hit.frame], symbol) == Some(hit.slot)
    requires forall k :: hit.frame < k < |frames| ==> Resolve(frames[k], symbol).None?
    ensures Chained(CaptureChain(frames, symbol, hit).0)
  {
    var o := hit.frame;
    var closed := frames[o := Close(frames[o], hit.slot)];
    CaptureChainUnfold(frames, symbol, hit);
    CloseKeepsChained(frames, o, symbol, hit.slot);
    assert Resolve(closed[o], symbol) == Some(hit.slot);
    assert forall k :: o + 1 <= k < |closed| ==> closed[k] == frames[k];
    ThreadChained(closed, o + 1, symbol, hit.slot);
  }

  /** `Stack::resolve` of a source identifier keeps the chains. */
  lemma ResolveChained(frames: seq<Frame>, symbol: Symbol, pos: SourcePos)
    requires AllValid(frames) && CaptureReady(frames, symbol)
    requires Chained(frames) && IsSourceName(symbol)
    ensures Chained(ResolveSpec(frames, symbol, pos).0)
  {
    match Origin(frames, symbol)
    case None =>
    case Some(o) =>
      if o.frame < |frames| - 1 {
        ResolveIsCapture(frames, symbol, pos, o);
        CaptureChainChained(frames, symbol, o);
      }
  }

  /** A frame that binds the capture name of `t` binds it to a `Capture` of
      the slot its parent uses for `t`. */
  lemma ChainLink(fs: seq<Frame>, k: nat, t: Symbol, from: SlotIx)
    requires 0 < k < |fs| && Chained(fs) && IsSourceName(t)
    requires Captured(t) in RootVars(fs[k]) && ChainTarget(fs[k - 1], t) == Some(from)
    ensures RootVars(fs[k])[Captured(t)] < |fs[k].slots|
    ensures fs[k].slots[RootVars(fs[k])[Captured(t)]] == Capture(from)
  {
    assert Linked(fs[k - 1], fs[k]);
  }

  /** The capture chain for `symbol` from slot `o.slot` of frame `o.frame`
      as it stands in `fs`: the origin slot is `Closed`; every later frame
      binds the capture name in its root block to a `Capture` of the
      previous frame's slot for the variable (the origin slot itself for
      the first of them); `j` is the innermost frame's capture. */
  ghost predicate CaptureShape(fs: seq<Frame>, symbol: Symbol, o: Hit, j: SlotIx) {
    var c := Captured(symbol);
    && o.frame < |fs| - 1 && o.slot < |fs[o.frame].slots|
    && fs[o.frame].slots[o.slot] == Closed
    && (forall k :: o.frame < k < |fs| ==>
          && c in RootVars(fs[k]) && RootVars(fs[k])[c] < |fs[k].slots|
          && fs[k].slots[RootVars(fs[k])[c]] ==
               Capture(if k == o.frame + 1 then o.slot else RootVars(fs[k - 1])[c]))
    && j == RootVars(fs[|fs| - 1])[c]
  }

  lemma CaptureChainShape(frames: seq<Frame>, symbol: Symbol, hit: Hit)
    requires hit.frame < |frames| - 1 && hit.slot < |frames[hit.frame].slots|
    requires RootsFrom(frames, hit.frame + 1) && Chained(frames) && IsSourceName(symbol)
    requires Resolve(frames[hit.frame], symbol) == Some(hit.slot)
    requires forall k :: hit.frame < k < |frames| ==> Resolve(frames[k], symbol).None?
    ensures CaptureShape(CaptureChain(frames, symbol, hit).0, symbol, hit, CaptureChain(frames, symbol, hit).1)
  {
    var c := Captured(symbol);
    var fs := CaptureChain(frames, symbol, hit).0;
    CaptureChainChained(frames, symbol, hit);
    forall k | hit.frame < k < |fs|
      ensures && c in RootVars(fs[k]) && RootVars(fs[k])[c] < |fs[k].slots|
              && fs[k].slots[RootVars(fs[k])[c]] ==
                   Capture(if k == hit.frame + 1 then hit.slot else RootVars(fs[k - 1])[c])
    {
      assert Touched(frames[k], fs[k], c);
      if k == hit.frame + 1 {
        assert Resolve(fs[hit.frame], symbol) == Some(hit.slot);
        ChainLink(fs, k, symbol, hit.slot);
      } else {
        assert Touched(frames[k - 1], fs[k - 1], c);
        TouchedResolves(frames[k - 1], fs[k - 1], c, symbol);
        ChainLink(fs, k, symbol, RootVars(fs[k - 1])[c]);
      }
    }
  }

  /** What `Stack::resolve` leaves behind for a source identifier found in
      an enclosing frame: the capture chain `CaptureShape` describes, ending
      in the slot it returns. */
  lemma ResolveCaptureShape(frames: seq<Frame>, symbol: Symbol, pos: SourcePos, o: Hit)
    requires AllValid(frames) && CaptureReady(frames, symbol)
    requires Chained(frames) && IsSourceName(symbol)
    requires Origin(frames, symbol) == Some(o) && o.frame < |frames| - 1
    ensures var once := ResolveSpec(frames, symbol, pos);
      once.1.Ok? && CaptureShape(once.0, symbol, o, once.1.value)
  {
    ResolveIsCapture(frames, symbol, pos, o);
    CaptureChainShape(frames, symbol, o);
  }

  /** Slot kinds only move forward from `f` to `g`: an old slot keeps its
      kind or a slot that is not a capture becomes `Closed`, and every new
      slot is a `Capture`. */
  ghost predicate KindsAdvance(f: Frame, g: Frame) {
    && |f.slots| <= |g.slots|
    && (forall i :: 0 <= i < |f.slots| ==>
          g.slots[i] == f.slots[i] || (g.slots[i] == Closed && !f.slots[i].Capture?))
    && (forall i :: |f.slots| <= i < |g.slots| ==> g.slots[i].Capture?)
  }

  /** The slot a source identifier resolves to is not a capture. */
  lemma SourceResolvesPlain(f: Frame, t: Symbol)
    requires SourceSlots(f) && IsSourceName(t) && Resolve(f, t).Some?
    ensures Resolve(f, t).value < |f.slots| && !f.slots[Resolve(f, t).value].Capture?
  {
    ResolveInFinds(f.scopes, t);
    var j :| InnermostHolder(f.scopes, j, t) && Resolve(f, t).value == f.scopes[j].variables[t];
  }

  /** The capture chain closes the origin slot, which holds no capture,
      leaves every other old slot as it was, and otherwise only appends
      `Capture` slots, at most one per frame. */
  lemma CaptureChainKindsAdvance(frames: seq<Frame>, symbol: Symbol, hit: Hit)
    requires hit.frame < |frames| - 1 && hit.slot < |frames[hit.frame].slots|
    requires RootsFrom(frames, hit.frame + 1) && Chained(frames) && IsSourceName(symbol)
    requires Resolve(frames[hit.frame], symbol) == Some(hit.slot)
    ensures var fs := CaptureChain(frames, symbol, hit).0;
      forall k :: 0 <= k < |frames| ==>
        KindsAdvance(frames[k], fs[k]) && |fs[k].slots| <= |frames[k].slots| + 1
    ensures var fs := CaptureChain(frames, symbol, hit).0;
      forall k, i :: 0 <= k < |frames| && 0 <= i < |frames[k].slots| && (k != hit.frame || i != hit.slot) ==>
        fs[k].slots[i] == frames[k].slots[i]
  {
    var c := Captured(symbol);
    var fs := CaptureChain(frames, symbol, hit).0;
    SourceResolvesPlain(frames[hit.frame], symbol);
    CaptureChainInstalls(frames, symbol, hit);
    forall k | 0 <= k < |frames|
      ensures KindsAdvance(frames[k], fs[k]) && |fs[k].slots| <= |frames[k].slots| + 1
    {
      if k > hit.frame + 1 {
        assert InstalledAfter(frames, fs, c, k);
      }
    }
  }

  /** `Stack::resolve` of a source identifier moves slot kinds only forward:
      a `Regular` slot may become `Closed`, a `Closed` or `Capture` slot
      never changes, and every slot it adds is a `Capture`, at most one per
      frame. */
  lemma ResolveKindsAdvance(frames: seq<Frame>, symbol: Symbol, pos: SourcePos)
    requires AllValid(frames) && CaptureReady(frames, symbol)
    requires Chained(frames) && IsSourceName(symbol)
    ensures var fs := ResolveSpec(frames, symbol, pos).0;
      forall k :: 0 <= k < |frames| ==>
        KindsAdvance(frames[k], fs[k]) && |fs[k].slots| <= |frames[k].slots| + 1
  {
    match Origin(frames, symbol)
    case None =>
    case Some(o) =>
      if o.frame < |frames| - 1 {
        ResolveIsCapture(frames, symbol, pos, o);
        CaptureChainKindsAdvance(frames, symbol, o);
      }
  }

  /** `Stack::resolve` keeps well-formedness whatever the symbol, and the
      chains for a source identifier. */
  lemma ResolveKeeps(frames: seq<Frame>, symbol: Symbol, pos: SourcePos)
    requires WellFormed(frames) && CaptureReady(frames, symbol)
    ensures WellFormed(ResolveSpec(frames, symbol, pos).0)
    ensures Chained(frames) && IsSourceName(symbol) ==> Chained(ResolveSpec(frames, symbol, pos).0)
  {
    ResolveWellFormed(frames, symbol, pos);
    if Chained(frames) && IsSourceName(symbol) {
      ResolveChained(frames, symbol, pos);
    }
  }
}
