/** The resolver's stack of function frames, innermost frame last
    (src/semantic/scope.rs:138-261). Every operation but `Resolve` works on
    the innermost frame alone; `Resolve` installs closure captures across
    frames. */
module Stacks {
  import opened Symbols
  import opened Types
  import opened Frames
  import opened Capture
  import opened Invariants

  class Stack {
    var frames: seq<Frame>

    /** Slot indices are dense and every capture copies an existing slot of
        the enclosing frame. */
    ghost predicate Valid()
      reads this
    {
      WellFormed(frames)
    }

    /** An empty stack. */
    constructor ()
      ensures Valid() && Chained(frames) && frames == []
    {
      frames := [];
    }

    /** Pushes a new frame with its root block open. */
    method EnterFrame()
      requires Valid()
      modifies this
      ensures Valid() && frames == old(frames) + [Frames.EnterBlock(New())]
      ensures old(Chained(frames)) ==> Chained(frames)
    {
      var frame := New();
      frame := Frames.EnterBlock(frame);
      EnterFrameKeeps(frames);
      frames := frames + [frame];
    }

    /** Pops the innermost frame, closing its root block, and returns its
        slot layout. The frame must hold only its root block. */
    method ExitFrame() returns (info: FrameInfo)
      requires Valid() && |frames| > 0 && |Top(frames).scopes| == 1
      modifies this
      ensures Valid() && frames == old(frames[..|frames| - 1])
      ensures info == Info(Frames.ExitBlock(old(Top(frames))))
      ensures info.slots == old(Top(frames).slots)
      ensures old(Chained(frames)) ==> Chained(frames)
    {
      var frame := frames[|frames| - 1];
      ExitFrameKeeps(frames);
      frames := frames[..|frames| - 1];
      frame := Frames.ExitBlock(frame);
      assert frame.scopes == [];
      info := Info(frame);
    }

    /** Opens a block in the innermost frame. */
    method EnterBlock()
      requires Valid() && |frames| > 0
      modifies this
      ensures Valid() && frames == SetTop(old(frames), Frames.EnterBlock(old(Top(frames))))
      ensures old(Chained(frames)) ==> Chained(frames)
    {
      var g := Frames.EnterBlock(Top(frames));
      EnterBlockGrows(Top(frames));
      ReplaceTopWellFormed(frames, g);
      if Chained(frames) {
        ReplaceTopChained(frames, g);
      }
      frames := SetTop(frames, g);
    }

    /** Closes the innermost block of the innermost frame. */
    method ExitBlock()
      requires Valid() && |frames| > 0 && |Top(frames).scopes| > 0
      modifies this
      ensures Valid() && frames == SetTop(old(frames), Frames.ExitBlock(old(Top(frames))))
      ensures old(Chained(frames)) ==> Chained(frames)
    {
      var g := Frames.ExitBlock(Top(frames));
      ExitBlockGrows(Top(frames));
      ReplaceTopWellFormed(frames, g);
      if Chained(frames) {
        ReplaceTopChained(frames, g);
      }
      frames := SetTop(frames, g);
    }

    /** Declares `symbol` in the innermost block of the innermost frame. */
    method Declare(symbol: Symbol, pos: SourcePos) returns (r: Result<SlotIx>)
      requires Valid() && |frames| > 0 && |Top(frames).scopes| > 0
      modifies this
      ensures Valid()
      ensures frames == SetTop(old(frames), Frames.Declare(old(Top(frames)), symbol, pos).0)
      ensures r == Frames.Declare(old(Top(frames)), symbol, pos).1
      ensures old(Chained(frames)) && IsSourceName(symbol) ==> Chained(frames)
    {
      var f := Top(frames);
      var (g, res) := Frames.Declare(f, symbol, pos);
      assert Frames.Valid(f);
      DeclareGrows(f, symbol, pos);
      ReplaceTopWellFormed(frames, g);
      if Chained(frames) && IsSourceName(symbol) {
        ReplaceTopChained(frames, g);
      }
      frames := SetTop(frames, g);
      r := res;
    }

    /** Resolves `symbol` from the innermost frame. A variable of an
        enclosing frame is captured: its slot is closed and every frame
        from the next one inwards resolves or declares the capture name in
        its root block as a `Capture` of the previous frame's slot. */
    method Resolve(symbol: Symbol, pos: SourcePos) returns (r: Result<SlotIx>)
      requires Valid() && CaptureReady(frames, symbol)
      modifies this
      ensures (frames, r) == ResolveSpec(old(frames), symbol, pos)
      ensures Valid()
      ensures old(Chained(frames)) && IsSourceName(symbol) ==> Chained(frames)
    {
      ghost var frames0 := frames;
      match Origin(frames, symbol) {
        case None =>
          r := Err(UndeclaredVariable(symbol, pos));
        case Some(hit) =>
          ResolveBounded(frames[hit.frame], symbol);
          if hit.frame == |frames| - 1 {
            r := Ok(hit.slot);
          } else {
            ResolveIsCapture(frames, symbol, pos, hit);
            var slot := CaptureFrom(symbol, hit);
            r := Ok(slot);
          }
      }
      ResolveKeeps(frames0, symbol, pos);
    }

    /** Closes the origin slot of `symbol` and installs its capture in every
        frame after the origin (src/semantic/scope.rs:231-244). */
    method CaptureFrom(symbol: Symbol, hit: Hit) returns (slot: SlotIx)
      requires hit.frame < |frames| - 1 && hit.slot < |frames[hit.frame].slots|
      requires RootsFrom(frames, hit.frame + 1)
      modifies this
      ensures (frames, slot) == CaptureChain(old(frames), symbol, hit)
    {
      CaptureChainUnfold(frames, symbol, hit);
      frames := frames[hit.frame := Close(frames[hit.frame], hit.slot)];
      slot := ThreadCaptures(hit.frame + 1, Captured(symbol), hit.slot);
    }

    /** The capture loop of `Resolve`: frames `lo` to the innermost, outermost
        first, each resolve or declare `c` in its root block as a `Capture`
        of the index the previous frame produced. */
    method ThreadCaptures(lo: nat, c: Symbol, from: SlotIx) returns (slot: SlotIx)
      requires lo <= |frames| && RootsFrom(frames, lo)
      modifies this
      ensures (frames, slot) == Thread(old(frames), lo, c, from)
    {
      ghost var frames0 := frames;
      slot := from;
      var i := lo;
      while i < |frames|
        invariant lo <= i <= |frames| == |frames0|
        invariant RootsFrom(frames, i)
        invariant Thread(frames, i, c, slot) == Thread(frames0, lo, c, from)
        decreases |frames| - i
      {
        ThreadUnfold(frames, i, c, slot);
        var (g, ix) := Frames.ResolveOrDeclare(frames[i], c, Capture(slot));
        frames := frames[i := g];
        slot := ix;
        i := i + 1;
      }
    }

    /** Resolves or declares `symbol` as a `Regular` slot in the root block
        of the innermost frame. */
    method ResolveOrDeclare(symbol: Symbol) returns (ix: SlotIx)
      requires Valid() && |frames| > 0 && |Top(frames).scopes| > 0
      modifies this
      ensures Valid()
      ensures frames == SetTop(old(frames), Frames.ResolveOrDeclare(old(Top(frames)), symbol, Regular).0)
      ensures ix == Frames.ResolveOrDeclare(old(Top(frames)), symbol, Regular).1
      ensures old(Chained(frames)) && IsSourceName(symbol) ==> Chained(frames)
    {
      var f := Top(frames);
      var (g, res) := Frames.ResolveOrDeclare(f, symbol, Regular);
      assert Frames.Valid(f);
      ResolveOrDeclareGrows(f, symbol, Regular);
      ReplaceTopWellFormed(frames, g);
      if Chained(frames) && IsSourceName(symbol) {
        ReplaceTopChained(frames, g);
      }
      frames := SetTop(frames, g);
      ix := res;
    }
  }
}
