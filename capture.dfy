/** The closure-capture protocol of `Stack::resolve`
    (src/semantic/scope.rs:193-248), stated as functions over the stack of
    frames, innermost frame last. The resolver's method follows these
    functions step by step. */
module Capture {
  import opened Symbols
  import opened Types
  import Scopes
  import opened Frames

  /** Where a symbol was found: the index of the frame and that frame's slot. */
  datatype Hit = Hit(frame: nat, slot: SlotIx)

  ghost predicate AllValid(frames: seq<Frame>) {
    forall k :: 0 <= k < |frames| ==> Valid(frames[k])
  }

  /** Every frame from `lo` on has its root block open. */
  ghost predicate RootsFrom(frames: seq<Frame>, lo: nat) {
    forall k :: lo <= k < |frames| ==> |frames[k].scopes| > 0
  }

  /** The nearest frame, searching innermost first, that resolves `symbol`,
      with the slot it resolves to. */
  function Origin(frames: seq<Frame>, symbol: Symbol): (r: Option<Hit>)
    ensures r.None? <==> forall k :: 0 <= k < |frames| ==> Resolve(frames[k], symbol).None?
    ensures r.Some? ==>
      && r.value.frame < |frames|
      && Resolve(frames[r.value.frame], symbol) == Some(r.value.slot)
      && forall k :: r.value.frame < k < |frames| ==> Resolve(frames[k], symbol).None?
    decreases |frames|
  {
    if |frames| == 0 then None
    else
      var top := |frames| - 1;
      match Resolve(frames[top], symbol)
      case Some(ix) => Some(Hit(top, ix))
      case None =>
        var r := Origin(frames[..top], symbol);
        assert forall k :: 0 <= k < top ==> frames[..top][k] == frames[k];
        r
  }

  /** The capture walk can run: every frame after the origin has a root block. */
  ghost predicate CaptureReady(frames: seq<Frame>, symbol: Symbol) {
    match Origin(frames, symbol)
    case None => true
    case Some(hit) => RootsFrom(frames, hit.frame + 1)
  }

  /** What `ResolveOrDeclare(f, c, _)` does to the bindings: the root block
      binds `c` (`f` is unchanged if it already did), no other binding
      changes and the old slots are a prefix of the new ones. */
  ghost predicate Touched(f: Frame, g: Frame, c: Symbol) {
    && |f.scopes| > 0
    && |g.scopes| == |f.scopes|
    && g.scopes[1..] == f.scopes[1..]
    && c in RootVars(g)
    && (forall t :: t != c ==> Scopes.Resolve(g.scopes[0], t) == Scopes.Resolve(f.scopes[0], t))
    && |f.slots| <= |g.slots|
    && g.slots[..|f.slots|] == f.slots
    && (c in RootVars(f) ==> g == f)
  }

  /** `g` is `f` after `ResolveOrDeclare(f, c, Capture(from))`: besides
      `Touched`, a frame that did not bind `c` gains exactly one slot, a
      `Capture` of `from` at its old slot count, which `c` is bound to. */
  ghost predicate Installed(f: Frame, g: Frame, c: Symbol, from: SlotIx) {
    && Touched(f, g, c)
    && (c !in RootVars(f) ==> g.slots == f.slots + [Capture(from)] && RootVars(g)[c] == |f.slots|)
  }

  /** Frame `k` of `fs` is frame `k` of `frames` after `ResolveOrDeclare`
      of `c` as a `Capture` of the slot frame `k - 1` of `fs` binds `c` to. */
  ghost predicate InstalledAfter(frames: seq<Frame>, fs: seq<Frame>, c: Symbol, k: int) {
    && 0 < k < |frames| == |fs|
    && c in RootVars(fs[k - 1])
    && Installed(frames[k], fs[k], c, RootVars(fs[k - 1])[c])
  }

  /** The loop of src/semantic/scope.rs:237-244: frames `lo` to the innermost,
      outermost first, each resolve-or-declare `c` in its root block as a
      capture of the index the previous frame produced. Returns the frames
      after the walk and the innermost frame's index. */
  function Thread(frames: seq<Frame>, lo: nat, c: Symbol, from: SlotIx): (r: (seq<Frame>, SlotIx))
    requires lo <= |frames| && RootsFrom(frames, lo)
    ensures |r.0| == |frames| && forall k :: 0 <= k < lo ==> r.0[k] == frames[k]
    ensures forall k :: lo <= k < |frames| ==> Touched(frames[k], r.0[k], c)
    ensures lo == |frames| ==> r.1 == from
    ensures lo < |frames| ==> c in RootVars(r.0[|frames| - 1]) && r.1 == RootVars(r.0[|frames| - 1])[c]
    ensures lo < |frames| && Valid(frames[|frames| - 1]) ==> r.1 < |r.0[|frames| - 1].slots|
    decreases |frames| - lo
  {
    if lo == |frames| then (frames, from)
    else
      var (g, ix) := ResolveOrDeclare(frames[lo], c, Capture(from));
      var next := frames[lo := g];
      assert Touched(frames[lo], g, c) by {
        var f := frames[lo];
        if c !in RootVars(f) {
          forall t | t != c
            ensures Scopes.Resolve(g.scopes[0], t) == Scopes.Resolve(f.scopes[0], t)
          {
            assert RootVars(g) == RootVars(f)[c := ix];
          }
        }
      }
      Thread(next, lo + 1, c, ix)
  }

  /** Steps b and c of the capture protocol for a symbol found in frame
      `hit.frame` below the innermost one: close the origin slot, then
      thread the capture chain from the next frame inwards. */
  function CaptureChain(frames: seq<Frame>, symbol: Symbol, hit: Hit): (r: (seq<Frame>, SlotIx))
    requires hit.frame < |frames| - 1 && hit.slot < |frames[hit.frame].slots|
    requires RootsFrom(frames, hit.frame + 1)
    ensures |r.0| == |frames|
    ensures forall k :: 0 <= k < hit.frame ==> r.0[k] == frames[k]
    ensures r.0[hit.frame] == Close(frames[hit.frame], hit.slot)
    ensures forall k :: hit.frame < k < |frames| ==> Touched(frames[k], r.0[k], Captured(symbol))
    ensures Captured(symbol) in RootVars(r.0[|frames| - 1]) &&
            r.1 == RootVars(r.0[|frames| - 1])[Captured(symbol)]
    ensures Valid(frames[|frames| - 1]) ==> r.1 < |r.0[|frames| - 1].slots|
  {
    var o := hit.frame;
    var closed := frames[o := Close(frames[o], hit.slot)];
    assert forall k :: o < k < |frames| ==> closed[k] == frames[k];
    Thread(closed, o + 1, Captured(symbol), hit.slot)
  }

  /** `Stack::resolve` on the frames, innermost last. An undeclared symbol is
      an error that changes nothing; a symbol of the innermost frame
      resolves directly, changing nothing; a symbol of an enclosing frame
      goes through `CaptureChain`. The result always names a slot of the
      innermost frame. */
  function ResolveSpec(frames: seq<Frame>, symbol: Symbol, pos: SourcePos): (r: (seq<Frame>, Result<SlotIx>))
    requires AllValid(frames) && CaptureReady(frames, symbol)
    ensures |r.0| == |frames|
    ensures r.1.Err? <==> Origin(frames, symbol).None?
    ensures r.1.Err? ==> r.0 == frames && r.1.error == UndeclaredVariable(symbol, pos)
    ensures r.1.Ok? ==> |frames| > 0 && r.1.value < |r.0[|frames| - 1].slots|
    ensures Origin(frames, symbol).Some? && Origin(frames, symbol).value.frame == |frames| - 1 ==>
      r == (frames, Ok(Origin(frames, symbol).value.slot))
  {
    match Origin(frames, symbol)
    case None => (frames, Err(UndeclaredVariable(symbol, pos)))
    case Some(hit) =>
      ResolveBounded(frames[hit.frame], symbol);
      if hit.frame == |frames| - 1 then (frames, Ok(hit.slot))
      else
        var (fs, j) := CaptureChain(frames, symbol, hit);
        (fs, Ok(j))
  }

  /** For a symbol of an enclosing frame, `ResolveSpec` is the capture chain. */
  lemma ResolveIsCapture(frames: seq<Frame>, symbol: Symbol, pos: SourcePos, o: Hit)
    requires AllValid(frames) && CaptureReady(frames, symbol)
    requires Origin(frames, symbol) == Some(o) && o.frame < |frames| - 1
    ensures o.slot < |frames[o.frame].slots| && RootsFrom(frames, o.frame + 1)
    ensures ResolveSpec(frames, symbol, pos) ==
      (CaptureChain(frames, symbol, o).0, Ok(CaptureChain(frames, symbol, o).1))
  {
    ResolveBounded(frames[o.frame], symbol);
  }

  /** A frame whose root block gained a binding of `c` resolves every other
      symbol as before. */
  lemma TouchedResolves(f: Frame, g: Frame, c: Symbol, t: Symbol)
    requires Touched(f, g, c) && t != c
    ensures Resolve(g, t) == Resolve(f, t)
  {
    ResolveInRootSwap(g.scopes, f.scopes, t);
  }

  lemma {:induction false} ThreadKeepsValid(frames: seq<Frame>, lo: nat, c: Symbol, from: SlotIx)
    requires lo <= |frames| && RootsFrom(frames, lo) && AllValid(frames)
    ensures AllValid(Thread(frames, lo, c, from).0)
    decreases |frames| - lo
  {
    if lo < |frames| {
      var (g, ix) := ResolveOrDeclare(frames[lo], c, Capture(from));
      ThreadKeepsValid(frames[lo := g], lo + 1, c, ix);
    }
  }

  lemma CaptureChainKeepsValid(frames: seq<Frame>, symbol: Symbol, hit: Hit)
    requires hit.frame < |frames| - 1 && hit.slot < |frames[hit.frame].slots|
    requires RootsFrom(frames, hit.frame + 1) && AllValid(frames)
    ensures AllValid(CaptureChain(frames, symbol, hit).0)
  {
    var closed := frames[hit.frame := Close(frames[hit.frame], hit.slot)];
    CaptureChainUnfold(frames, symbol, hit);
    forall k | 0 <= k < |closed| ensures Valid(closed[k]) {
      assert Valid(frames[k]);
    }
    ThreadKeepsValid(closed, hit.frame + 1, Captured(symbol), hit.slot);
  }

  /** Resolution keeps every frame's slot indices dense. */
  lemma ResolveKeepsValid(frames: seq<Frame>, symbol: Symbol, pos: SourcePos)
    requires AllValid(frames) && CaptureReady(frames, symbol)
    ensures AllValid(ResolveSpec(frames, symbol, pos).0)
  {
    match Origin(frames, symbol)
    case None =>
    case Some(o) =>
      if o.frame < |frames| - 1 {
        ResolveIsCapture(frames, symbol, pos, o);
        CaptureChainKeepsValid(frames, symbol, o);
      }
  }

  /** Frames that resolve `symbol` alike have the same origin for it. */
  lemma {:induction false} OriginCongruent(a: seq<Frame>, b: seq<Frame>, symbol: Symbol)
    requires |a| == |b|
    requires forall k :: 0 <= k < |a| ==> Resolve(a[k], symbol) == Resolve(b[k], symbol)
    ensures Origin(a, symbol) == Origin(b, symbol)
    decreases |a|
  {
    if |a| > 0 {
      var top := |a| - 1;
      OriginCongruent(a[..top], b[..top], symbol);
    }
  }

  /** Once every frame from `lo` on binds `c` in its root block, the walk
      changes nothing and returns the innermost binding. */
  lemma {:induction false} ThreadSettled(frames: seq<Frame>, lo: nat, c: Symbol, from: SlotIx)
    requires lo < |frames| && RootsFrom(frames, lo)
    requires forall k :: lo <= k < |frames| ==> c in RootVars(frames[k])
    ensures Thread(frames, lo, c, from) == (frames, RootVars(frames[|frames| - 1])[c])
    decreases |frames| - lo
  {
    var (g, ix) := ResolveOrDeclare(frames[lo], c, Capture(from));
    assert frames[lo := g] == frames;
    if lo + 1 < |frames| {
      ThreadSettled(frames, lo + 1, c, ix);
    }
  }

  /** The capture chain changes no frame's resolution of the symbol itself,
      so its origin stays where it was. */
  lemma CaptureChainKeepsOrigin(frames: seq<Frame>, symbol: Symbol, hit: Hit)
    requires hit.frame < |frames| - 1 && hit.slot < |frames[hit.frame].slots|
    requires RootsFrom(frames, hit.frame + 1)
    ensures Origin(CaptureChain(frames, symbol, hit).0, symbol) == Origin(frames, symbol)
  {
    var fs := CaptureChain(frames, symbol, hit).0;
    forall k | 0 <= k < |frames|
      ensures Resolve(fs[k], symbol) == Resolve(frames[k], symbol)
    {
      if k > hit.frame {
        TouchedResolves(frames[k], fs[k], Captured(symbol), symbol);
      }
    }
    OriginCongruent(fs, frames, symbol);
  }

  /** Each frame of the walk that did not bind `c` gains exactly one slot:
      the first a `Capture` of `from`, every later one a `Capture` of the
      slot its predecessor binds `c` to. */
  lemma {:induction false} ThreadInstalls(frames: seq<Frame>, lo: nat, c: Symbol, from: SlotIx)
    requires lo < |frames| && RootsFrom(frames, lo)
    ensures var fs := Thread(frames, lo, c, from).0;
      && Installed(frames[lo], fs[lo], c, from)
      && forall k :: lo < k < |frames| ==> InstalledAfter(frames, fs, c, k)
    decreases |frames| - lo
  {
    var fs := Thread(frames, lo, c, from).0;
    var (g, ix) := ResolveOrDeclare(frames[lo], c, Capture(from));
    var next := frames[lo := g];
    ThreadUnfold(frames, lo, c, from);
    assert fs == Thread(next, lo + 1, c, ix).0;
    assert fs[lo] == g;
    if lo + 1 < |frames| {
      ThreadInstalls(next, lo + 1, c, ix);
      assert next[lo + 1] == frames[lo + 1];
      forall k | lo + 1 < k < |frames|
        ensures InstalledAfter(frames, fs, c, k)
      {
        assert InstalledAfter(next, fs, c, k);
        assert next[k] == frames[k];
      }
    }
  }

  /** The capture chain gives each frame after the origin that did not yet
      bind the capture name exactly one new slot: a `Capture` of the origin
      slot in the first, of the predecessor's capture in every later one. */
  lemma CaptureChainInstalls(frames: seq<Frame>, symbol: Symbol, hit: Hit)
    requires hit.frame < |frames| - 1 && hit.slot < |frames[hit.frame].slots|
    requires RootsFrom(frames, hit.frame + 1)
    ensures var c := Captured(symbol);
      var fs := CaptureChain(frames, symbol, hit).0;
      && Installed(frames[hit.frame + 1], fs[hit.frame + 1], c, hit.slot)
      && forall k :: hit.frame + 1 < k < |frames| ==> InstalledAfter(frames, fs, c, k)
  {
    var closed := frames[hit.frame := Close(frames[hit.frame], hit.slot)];
    CaptureChainUnfold(frames, symbol, hit);
    var c := Captured(symbol);
    var fs := CaptureChain(frames, symbol, hit).0;
    ThreadInstalls(closed, hit.frame + 1, c, hit.slot);
    assert closed[hit.frame + 1] == frames[hit.frame + 1];
    forall k | hit.frame + 1 < k < |frames|
      ensures InstalledAfter(frames, fs, c, k)
    {
      assert InstalledAfter(closed, fs, c, k);
      assert closed[k] == frames[k];
    }
  }

  /** One step of the walk: frame `lo` resolves or declares `c`, and the
      walk goes on from the next frame with the index it got. */
  lemma ThreadUnfold(frames: seq<Frame>, lo: nat, c: Symbol, from: SlotIx)
    requires lo < |frames| && RootsFrom(frames, lo)
    ensures var (g, ix) := ResolveOrDeclare(frames[lo], c, Capture(from));
      && RootsFrom(frames[lo := g], lo + 1)
      && Thread(frames, lo, c, from) == Thread(frames[lo := g], lo + 1, c, ix)
  {
  }

  /** `CaptureChain` is the close of the origin slot followed by `Thread`. */
  lemma CaptureChainUnfold(frames: seq<Frame>, symbol: Symbol, hit: Hit)
    requires hit.frame < |frames| - 1 && hit.slot < |frames[hit.frame].slots|
    requires RootsFrom(frames, hit.frame + 1)
    ensures RootsFrom(frames[hit.frame := Close(frames[hit.frame], hit.slot)], hit.frame + 1)
    ensures CaptureChain(frames, symbol, hit) ==
      Thread(frames[hit.frame := Close(frames[hit.frame], hit.slot)], hit.frame + 1, Captured(symbol), hit.slot)
  {
  }

  /** Frames whose origin slot is closed and whose later frames all bind
      the captured name are a fixed point of the capture chain. */
  lemma CaptureChainFixed(fs: seq<Frame>, symbol: Symbol, hit: Hit, j: SlotIx)
    requires hit.frame < |fs| - 1 && hit.slot < |fs[hit.frame].slots|
    requires RootsFrom(fs, hit.frame + 1)
    requires Close(fs[hit.frame], hit.slot) == fs[hit.frame]
    requires forall k :: hit.frame < k < |fs| ==> Captured(symbol) in RootVars(fs[k])
    requires Captured(symbol) in RootVars(fs[|fs| - 1]) && j == RootVars(fs[|fs| - 1])[Captured(symbol)]
    ensures CaptureChain(fs, symbol, hit) == (fs, j)
  {
    assert fs[hit.frame := Close(fs[hit.frame], hit.slot)] == fs;
    CaptureChainUnfold(fs, symbol, hit);
    ThreadSettled(fs, hit.frame + 1, Captured(symbol), hit.slot);
  }

  /** Running the capture chain a second time changes nothing. */
  lemma CaptureChainSettled(frames: seq<Frame>, symbol: Symbol, hit: Hit)
    requires hit.frame < |frames| - 1 && hit.slot < |frames[hit.frame].slots|
    requires RootsFrom(frames, hit.frame + 1)
    ensures var once := CaptureChain(frames, symbol, hit);
      && hit.slot < |once.0[hit.frame].slots| && RootsFrom(once.0, hit.frame + 1)
      && CaptureChain(once.0, symbol, hit) == once
  {
    var once := CaptureChain(frames, symbol, hit);
    CloseIdempotent(frames[hit.frame], hit.slot);
    CaptureChainFixed(once.0, symbol, hit, once.1);
  }

  /** Capture deduplication: resolving the same symbol again from the same
      innermost frame returns the identical slot and changes no frame at
      all, so no frame gains a second capture slot for one variable. */
  lemma ResolveIdempotent(frames: seq<Frame>, symbol: Symbol, pos: SourcePos)
    requires AllValid(frames) && CaptureReady(frames, symbol)
    ensures var once := ResolveSpec(frames, symbol, pos);
      AllValid(once.0) && CaptureReady(once.0, symbol) &&
      ResolveSpec(once.0, symbol, pos) == once
  {
    ResolveKeepsValid(frames, symbol, pos);
    match Origin(frames, symbol)
    case None =>
    case Some(o) =>
      if o.frame < |frames| - 1 {
        ResolveIsCapture(frames, symbol, pos, o);
        var fs := CaptureChain(frames, symbol, o).0;
        CaptureChainKeepsOrigin(frames, symbol, o);
        CaptureChainSettled(frames, symbol, o);
        ResolveIsCapture(fs, symbol, pos, o);
      }
  }
}
