/** Concrete runs of the resolver on small frame stacks. */
module Scenarios {
  import opened Symbols
  import opened Types
  import Scopes
  import opened Frames
  import opened Capture
  import opened Invariants

  /** Pushing a frame and popping it again restores the stack; the popped
      frame holds only its root block and its frame info has no slot. */
  lemma EnterExitFrame(frames: seq<Frame>)
    ensures var pushed := frames + [EnterBlock(New())];
      && |Top(pushed).scopes| == 1
      && pushed[..|pushed| - 1] == frames
      && Info(ExitBlock(Top(pushed))).slots == []
  {
    var pushed := frames + [EnterBlock(New())];
    assert pushed[..|pushed| - 1] == frames;
  }

  /** A function that has declared `x` in its root block. */
  function Outer(x: Symbol): Frame {
    Frame([Regular], [Scopes.Scope(map[x := 0])])
  }

  /** A function that has just been entered. */
  function Inner(): Frame {
    Frame([], [Scopes.Empty])
  }

  /** A nested function after capturing `x` from its parent's slot 0. */
  function Capturing(x: Symbol): Frame {
    Frame([Capture(0)], [Scopes.Scope(map[Captured(x) := 0])])
  }

  /** `Outer` and `Inner` are what the frame operations build. */
  lemma ScenarioFrames(x: Symbol)
    ensures Declare(EnterBlock(New()), x, 0) == (Outer(x), Ok(0))
    ensures EnterBlock(New()) == Inner()
    ensures ResolveOrDeclare(Inner(), Captured(x), Capture(0)) == (Capturing(x), 0)
  {
    var r := ResolveOrDeclare(Inner(), Captured(x), Capture(0));
    assert RootVars(Inner()) == map[];
    assert RootVars(r.0) == map[Captured(x) := 0];
    assert r.0.slots == [Capture(0)];
    assert r.0.scopes == [Scopes.Scope(RootVars(r.0))];
    var d := Declare(EnterBlock(New()), x, 0);
    assert x !in EnterBlock(New()).scopes[0].variables;
    assert d.0.scopes[0].variables == map[x := 0];
    assert d.0.slots == [Regular];
    assert d.0.scopes == [Scopes.Scope(map[x := 0])];
  }

  /** From two functions deep, `x` is found in the outermost frame. */
  lemma ScenarioOrigin(x: Symbol)
    ensures Origin([Outer(x), Inner(), Inner()], x) == Some(Hit(0, 0))
  {
    var f0 := Outer(x);
    assert Resolve(Inner(), x) == None by {
      assert Inner().scopes[..0] == [];
    }
    assert Resolve(f0, x) == Some(0) by {
      assert Scopes.Resolve(f0.scopes[0], x) == Some(0);
    }
    assert Origin([f0], x) == Some(Hit(0, 0));
    assert Origin([f0, Inner()], x) == Some(Hit(0, 0)) by {
      assert [f0, Inner()][..1] == [f0];
    }
    assert [f0, Inner(), Inner()][..2] == [f0, Inner()];
  }

  /** Every frame of the scenario is valid and has its root block open. */
  lemma ScenarioReady(x: Symbol)
    ensures var frames := [Outer(x), Inner(), Inner()];
      AllValid(frames) && RootsFrom(frames, 1) && CaptureReady(frames, x)
  {
    ScenarioOrigin(x);
    assert Valid(Outer(x)) by {
      assert Scopes.Bounded(Outer(x).scopes[0], 1) && Scopes.Injective(Outer(x).scopes[0]);
    }
    assert Valid(Inner());
  }

  /** The capture chain closes slot 0 of the outermost frame and threads
      one `Capture` slot through each nested frame. */
  lemma ScenarioChain(x: Symbol)
    ensures RootsFrom([Outer(x), Inner(), Inner()], 1)
    ensures CaptureChain([Outer(x), Inner(), Inner()], x, Hit(0, 0)) ==
      ([Frame([Closed], Outer(x).scopes), Capturing(x), Capturing(x)], 0)
  {
    var frames := [Outer(x), Inner(), Inner()];
    var c := Captured(x);
    ScenarioReady(x);
    ScenarioFrames(x);
    CaptureChainUnfold(frames, x, Hit(0, 0));
    var closed := frames[0 := Close(Outer(x), 0)];
    assert closed[0] == Frame([Closed], Outer(x).scopes);
    ThreadUnfold(closed, 1, c, 0);
    ThreadUnfold(closed[1 := Capturing(x)], 2, c, 0);
    assert closed[1 := Capturing(x)][2 := Capturing(x)] ==
      [Frame([Closed], Outer(x).scopes), Capturing(x), Capturing(x)];
  }

  /** The outermost function declares `x`; two nested functions are entered
      and the innermost one reads `x`. The origin slot is closed, each
      nested function gets one `Capture` slot forwarding to its parent's
      slot for `x`, and the read yields the innermost capture slot. */
  lemma TwoLevelCapture(x: Symbol, pos: SourcePos)
    ensures var frames := [Outer(x), Inner(), Inner()];
      && AllValid(frames) && CaptureReady(frames, x)
      && ResolveSpec(frames, x, pos) ==
           ([Frame([Closed], Outer(x).scopes), Capturing(x), Capturing(x)], Ok(0))
  {
    var frames := [Outer(x), Inner(), Inner()];
    ScenarioReady(x);
    ScenarioOrigin(x);
    ResolveIsCapture(frames, x, pos, Hit(0, 0));
    ScenarioChain(x);
  }
}
