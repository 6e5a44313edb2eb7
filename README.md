# Lexical scopes and closure capture of the hush semantic analyser

This project models `src/semantic/scope.rs`: the part of the compiler front end that maps identifiers to storage slots and works out closure captures. The model is in Dafny and the properties are proved.

- A **scope** is one lexical block. It maps symbols to slot indices.
- A **frame** is one function's activation record. It holds the kinds of its slots, which only ever grow, and the stack of its open blocks.
- The **stack** holds one frame per function being analysed, with the innermost function last.

When `Stack::resolve` finds a variable in an enclosing frame, it does three things:

1. It marks the variable's slot there as `Closed`.
2. It threads a chain of `Capture { from }` slots through every frame after that one. Each frame binds the chain in its root block under a synthesised name, the variable's name followed by `@closed`.
3. Keying on that name deduplicates the chain: resolving the same variable again finds the chain already in place.

Files and modules:

- `symbols.dfy` (`Symbols`): symbols, and the synthesised capture name `Captured`.
- `types.dfy` (`Types`): slot indices, slot kinds, `FrameInfo`, errors, `Result` and `Option`.
- `scopes.dfy` (`Scopes`): `Scope` as a datatype over a `map`.
- `frames.dfy` (`Frames`): `Frame` as a datatype. A frame is owned by value by the stack's vector and is never shared, so each `&mut self` operation becomes a function from the old frame to the new one. Lemmas about shadowing go with it.
- `capture.dfy` (`Capture`): `Stack::resolve` stated as functions over the sequence of frames.
  - `Origin` is the search for the variable.
  - `Thread` is the loop that installs the captures.
  - `ResolveSpec` is the whole operation.
  - It also proves that resolving twice changes nothing the second time.
- `invariants.dfy` (`Invariants`): the two invariants the resolver keeps, and a proof for every operation that it keeps them.
  - `WellFormed` holds whatever the symbols. Every slot index stored in a block exists, and every `Capture { from }` names an existing slot of the directly enclosing frame.
  - `Chained` holds as long as only source identifiers are declared and resolved. Every capture binding is a `Capture` of the slot that the enclosing frame uses for the same variable.
- `stack.dfy` (`Stacks`): the `Stack` class, whose methods reassign its `frames` field.
  - `Stack.Resolve` searches for the variable and, for a variable of an enclosing frame, calls `Stack.CaptureFrom`.
  - `Stack.CaptureFrom` closes the origin slot and calls `Stack.ThreadCaptures`, which runs the capture loop as a `while` loop.
  - The loop is proved equal to `Thread`, and `Stack.Resolve` as a whole is proved equal to `ResolveSpec`.
- `scenarios.dfy` (`Scenarios`): concrete runs. Entering and leaving a frame restores the stack. A variable is read from two functions deep.

## Model

| member | source | states |
|---|---|---|
| Symbols.Captured | src/semantic/scope.rs:217-229 | the synthesised capture name can never be a source identifier and differs from the variable's own name |
| Symbols.CapturedInjective | src/semantic/scope.rs:217-229 | different variables get different capture names, so two capture chains never share a key |
| Scopes.Declare | src/semantic/scope.rs:21-30 | the binding is made exactly when the symbol is absent; a refused declaration changes nothing; the symbol then resolves to `ix`, and every other symbol resolves as before; the keys grow by the symbol; a scope whose indices are all below `ix` keeps its indices bounded and distinct |
| Scopes.Resolve | src/semantic/scope.rs:34-38 | the result is a slot exactly when the symbol is bound, and then it is the bound slot |
| Frames.New | src/semantic/scope.rs:55-60 | a new frame has no slot and no block, and is valid |
| Frames.EnterBlock | src/semantic/scope.rs:64-66 | pushes an empty block; the slots are unchanged; every symbol resolves as before; validity is kept |
| Frames.ExitBlock | src/semantic/scope.rs:71-75 | pops the innermost block, whose existence is the precondition; the slots stay; validity is kept |
| Frames.ResolveInnermost | src/semantic/scope.rs:94-101 | resolution fails exactly when no open block binds the symbol; otherwise it yields the binding of the innermost block that binds it (shadowing) |
| Frames.ResolveBounded | src/semantic/scope.rs:94-101 | in a valid frame a resolved slot exists |
| Frames.Declare | src/semantic/scope.rs:80-90 | succeeds exactly when the innermost block does not bind the symbol. On success it returns the old slot count, appends one `Regular` slot and binds the symbol in the innermost block only, leaving outer blocks unchanged. On a duplicate it returns `DuplicateVariable` and the frame is unchanged. Validity is kept |
| Frames.DeclareShadows | src/semantic/scope.rs:80-101 | after a successful declaration the symbol resolves to the new slot and every other symbol resolves as before |
| Frames.ShadowThenRestore | src/semantic/scope.rs:64-90 | declaring in a new block always succeeds with the next slot and shadows the outer binding; leaving the block makes every symbol resolve as before |
| Frames.SiblingBlockHidden | src/semantic/scope.rs:64-90 | a binding of a block that was left is not visible in a sibling block entered afterwards |
| Frames.DistinctInBlock | src/semantic/scope.rs:80-90 | in a valid frame, two symbols of the same block resolve to different slots |
| Frames.ResolveOrDeclare | src/semantic/scope.rs:105-119 | looks in the root block only: a bound symbol returns its slot and changes nothing; otherwise the symbol is bound in the root block to the old slot count, one slot of the given kind is appended, and the other blocks are unchanged; validity is kept and the slot exists |
| Frames.ResolveOrDeclareIdempotent | src/semantic/scope.rs:105-119 | a second call for the same symbol, with any kind, returns the same slot and changes nothing; the first call adds at most one slot |
| Frames.Close | src/semantic/scope.rs:123-125 | sets slot `ix` to `Closed`; the length, every other slot and the blocks are unchanged; validity is kept |
| Frames.CloseIdempotent | src/semantic/scope.rs:123-125 | closing a slot twice is closing it once |
| Frames.Info | src/semantic/scope.rs:129-135 | the frame info lists the frame's slot kinds in index order |
| Capture.Origin | src/semantic/scope.rs:200-212 | no result exactly when no frame resolves the symbol; otherwise the result is the innermost frame that resolves it, with its slot, and no frame nested deeper resolves it |
| Capture.Thread | src/semantic/scope.rs:237-244 | the loop leaves the frames before `lo` alone; each later frame binds the capture name in its root block, its other bindings resolve as before and its old slots are a prefix of its new ones; the index returned is the innermost frame's binding of the capture name. The new slot itself is stated by `Capture.ThreadInstalls` |
| Capture.CaptureChain | src/semantic/scope.rs:231-244 | frames before the origin are unchanged; the origin frame is `Close` of its slot; every later frame is changed as in `Thread`; the result is the innermost frame's capture, and in a valid innermost frame that slot exists. The new slots are stated by `Capture.CaptureChainInstalls` |
| Capture.ResolveSpec | src/semantic/scope.rs:193-248 | the error is `UndeclaredVariable` exactly when no frame resolves the symbol, and then nothing changes; a symbol of the innermost frame returns its slot and changes nothing; any result is a slot of the innermost frame |
| Capture.ResolveIsCapture | src/semantic/scope.rs:214-247 | a symbol from an enclosing frame is resolved by closing the origin slot and running the capture loop |
| Capture.ResolveKeepsValid | src/semantic/scope.rs:193-248 | resolution keeps every frame's slot indices dense |
| Capture.CaptureChainKeepsOrigin | src/semantic/scope.rs:200-244 | installing a capture changes no frame's resolution of the variable, so the same origin is found next time |
| Capture.ThreadInstalls | src/semantic/scope.rs:105-119 | each frame of the loop that did not yet bind the capture name gains exactly one slot, at its old slot count, bound to the capture name. In the first frame that slot is a `Capture` of `from`; in every later frame it is a `Capture` of the slot the previous frame binds the capture name to. A frame that already bound it is unchanged |
| Capture.CaptureChainInstalls | src/semantic/scope.rs:231-244 | the same for the whole chain: the first frame after the origin captures the origin slot, and every later frame captures its predecessor's slot |
| Capture.ThreadSettled | src/semantic/scope.rs:237-244 | once every frame of the walk binds the capture name, the loop changes nothing and returns the innermost binding |
| Capture.CaptureChainSettled | src/semantic/scope.rs:231-244 | running the capture chain a second time changes nothing |
| Capture.ResolveIdempotent | src/semantic/scope.rs:193-248 | resolving the same symbol a second time from the same innermost frame returns the same slot and changes no frame, so no frame gains a second capture slot for one variable |
| Invariants.ReplaceTopWellFormed | src/semantic/scope.rs:172-187 | replacing the innermost frame by a valid frame that kept its slots and added no capture slot keeps well-formedness |
| Invariants.ReplaceTopChained | src/semantic/scope.rs:172-187 | such a replacement keeps the capture chains if it binds source identifiers to non-capture slots and adds no capture binding |
| Invariants.EnterBlockGrows | src/semantic/scope.rs:64-66 | entering a block adds no slot and no capture binding |
| Invariants.ExitBlockGrows | src/semantic/scope.rs:71-75 | exiting a block adds no slot and no capture binding |
| Invariants.DeclareGrows | src/semantic/scope.rs:80-90 | a declaration adds at most one non-capture slot; for a source identifier it adds no capture binding and keeps source identifiers on non-capture slots |
| Invariants.ResolveOrDeclareGrows | src/semantic/scope.rs:105-119 | the same, for resolve-or-declare with a non-capture kind |
| Invariants.EnterFrameKeeps | src/semantic/scope.rs:147-153 | pushing a frame with its root block keeps both invariants |
| Invariants.ExitFrameKeeps | src/semantic/scope.rs:158-168 | popping the innermost frame keeps both invariants |
| Invariants.CloseWellFormed | src/semantic/scope.rs:232-233 | closing an existing slot keeps well-formedness |
| Invariants.CloseKeepsChained | src/semantic/scope.rs:232-233 | closing the slot a source identifier resolves to keeps the capture chains, because that slot is no capture |
| Invariants.ThreadStepWellFormed | src/semantic/scope.rs:239-244 | one step of the capture loop keeps well-formedness and yields an existing slot |
| Invariants.ThreadWellFormed | src/semantic/scope.rs:237-244 | the capture loop keeps well-formedness: each new `Capture` copies an existing slot of the frame before it |
| Invariants.CaptureChainWellFormed | src/semantic/scope.rs:231-244 | closing the origin slot and running the capture loop keep well-formedness |
| Invariants.ResolveWellFormed | src/semantic/scope.rs:193-248 | `Stack::resolve` keeps well-formedness whatever the symbol |
| Invariants.ThreadStepChained | src/semantic/scope.rs:239-244 | one step of the capture loop keeps the capture chains, and the chain for the variable continues from the slot just obtained |
| Invariants.ThreadChained | src/semantic/scope.rs:237-244 | the capture loop for a source identifier keeps the capture chains |
| Invariants.CaptureChainChained | src/semantic/scope.rs:231-244 | closing the origin slot and running the capture loop keep the capture chains |
| Invariants.ResolveChained | src/semantic/scope.rs:193-248 | `Stack::resolve` of a source identifier keeps the capture chains |
| Invariants.ChainLink | src/semantic/scope.rs:239-244 | a frame that binds the capture name of a variable binds it to a `Capture` of the slot its enclosing frame uses for that variable |
| Invariants.CaptureChainShape | src/semantic/scope.rs:231-244 | after the capture, the origin slot is `Closed`; each later frame binds the capture name to a `Capture` of the previous frame's slot for the variable, and the first of them copies the origin slot; the result is the innermost frame's capture |
| Invariants.ResolveCaptureShape | src/semantic/scope.rs:214-247 | resolving a source identifier of an enclosing frame succeeds and leaves exactly that capture chain, ending in the returned slot |
| Invariants.CaptureChainKindsAdvance | src/semantic/scope.rs:231-244 | the chain changes only the origin slot, which is not a capture, to `Closed`. Every other old slot keeps its kind. Each frame gains at most one slot, and any slot it gains is a `Capture` |
| Invariants.ResolveKindsAdvance | src/semantic/scope.rs:193-248 | for a source identifier, slot kinds only move forward: a non-capture slot may become `Closed`, while `Closed` and `Capture` slots never change. Every new slot is a `Capture`, and no frame gains more than one slot |
| Stacks.Stack.constructor | src/semantic/scope.rs:138-142 | the empty stack satisfies both invariants |
| Stacks.Stack.EnterFrame | src/semantic/scope.rs:147-153 | appends a new frame with its root block open; both invariants are kept |
| Stacks.Stack.ExitFrame | src/semantic/scope.rs:158-168 | removes the innermost frame, which must hold only its root block, and returns its slot kinds as the frame info; both invariants are kept |
| Stacks.Stack.EnterBlock | src/semantic/scope.rs:172-174 | the innermost frame enters a block; both invariants are kept |
| Stacks.Stack.ExitBlock | src/semantic/scope.rs:178-180 | the innermost frame exits a block; both invariants are kept |
| Stacks.Stack.Declare | src/semantic/scope.rs:185-187 | the innermost frame declares the symbol, with the result of `Frames.Declare`; well-formedness is kept, and so are the chains for a source identifier |
| Stacks.Stack.Resolve | src/semantic/scope.rs:193-248 | the method leaves exactly the frames and result of `ResolveSpec`; well-formedness is kept, and so are the chains for a source identifier |
| Stacks.Stack.CaptureFrom | src/semantic/scope.rs:231-244 | closing the origin slot and running the capture loop leave exactly the frames and the slot of `CaptureChain` |
| Stacks.Stack.ThreadCaptures | src/semantic/scope.rs:237-244 | the `while` loop over the frames from `lo` inwards leaves exactly the frames and the index of `Thread` |
| Stacks.Stack.ResolveOrDeclare | src/semantic/scope.rs:252-254 | the innermost frame resolves or declares the symbol as a `Regular` slot; well-formedness is kept, and so are the chains for a source identifier |
| Scenarios.EnterExitFrame | src/semantic/scope.rs:147-168 | after `enter_frame`, the new frame holds exactly its root block, so `exit_frame` is allowed; popping it restores the earlier frames, and its frame info has no slot |
| Scenarios.ScenarioFrames | src/semantic/scope.rs:80-90 | declaring `x` in a fresh frame yields slot 0, one `Regular` slot and `x` bound in the root block. Resolving or declaring a capture name in a fresh frame adds one `Capture` slot bound in the root block |
| Scenarios.ScenarioOrigin | src/semantic/scope.rs:200-212 | with `x` declared in the outermost of three frames and not in the two nested ones, the search finds it in frame 0 at slot 0 |
| Scenarios.ScenarioReady | src/semantic/scope.rs:147-153 | three freshly entered frames, the outer one holding `x`, are valid and have their root blocks open |
| Scenarios.ScenarioChain | src/semantic/scope.rs:231-244 | in that stack, capturing `x` closes slot 0 of frame 0 and gives each nested frame exactly one slot, a `Capture` of its parent's slot 0, bound to the capture name |
| Scenarios.TwoLevelCapture | src/semantic/scope.rs:193-248 | reading `x` from two functions deep returns slot 0 of the innermost frame and leaves the closed origin and the two capture slots |

## Left out

- The interner's string storage is not modelled, and neither are its `resolve` and `get_or_intern` calls at src/semantic/scope.rs:221-228. A symbol is modelled as its text, which is faithful because the interner is a bijection between texts and handles. `Captured` appends `@closed` to that text.
- Frames.Declare: does not model the 32-bit truncation of `slots.len() as u32`. Slot indices are unbounded; a frame would need 2^32 slots for the truncation to matter.
- Frames.ResolveOrDeclare: likewise does not model the `as u32` truncation.
- `HashMap` hashing and the entry API become operations on Dafny `map`s.
- Errors are modelled only as their constructor with the symbol and an opaque position. Building and formatting diagnostics belongs to another module.
- `FrameInfo` is modelled only as its sequence of slot kinds. Its layout is defined in `mem`, which is not part of this model.
- Panics are turned into preconditions:
  - exiting or declaring with no open block (:74, :81);
  - a missing root block (:106), which for `Stack::resolve` is `CaptureReady`;
  - an out-of-range close (:124);
  - popping an empty stack (:161);
  - an empty stack at `top` (:259).
- The `debug_assert!` at :165 is turned into the precondition of `Stacks.Stack.ExitFrame` that the frame holds exactly its root block. A release build would silently drop any other open blocks.
- The root block of a frame is meant to stay open until the frame is exited, but `Stack::exit_block` (:178-180) does not enforce this: it pops whatever block is innermost. The model follows the code, so `Stacks.Stack.ExitBlock` may close the root block. After that, `Resolve` needs `CaptureReady` and `ResolveOrDeclare` needs an open block, matching the panic at :106.
- `Stack::top` (:258-260) is not a separate member. It becomes `Invariants.Top` and `Invariants.SetTop` on the frame sequence, and its panic becomes the precondition `|frames| > 0`.
- The methods of `Stacks.Stack` require the class invariant `Valid()`, which the constructor establishes and every method keeps. The source's state always satisfies it.
- The capture-chain invariant `Chained` is proved to be kept only when the declared or resolved symbol is a source identifier. A symbol containing `@` could collide with a capture name. The front end never produces one, as the comment at :218-220 relies on.
