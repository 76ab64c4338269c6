# IDisposableAnalyzers ownership core, modelled in Dafny

This project models four pieces of the IDisposableAnalyzers ownership engine.
The engine is a Roslyn analyzer that finds `IDisposable` values that leak or that
are disposed by code that does not own them.

- **`DisposeMemberFix`** models the IDISP002 "dispose member" code fix. It has
  two recognisers for `Dispose(bool disposing)` bodies: `if (disposing)` and
  `if (!disposing) return;`. It also has the rule that decides where one
  `member.Dispose()` statement goes. The fix is modelled as a rewrite of the
  dispose method's statement list. Its properties are stated over a token
  reading of the statement tree (`Tokens`), in which blocks add nothing and an
  `if` adds an opening, an optional `else` and a closing token.
- **`TestFixture`** models NUnit lifecycle pairing. A member assigned in
  `[SetUp]` is judged by the first `[TearDown]` method. A member assigned in
  `[OneTimeSetUp]` is judged by the first `[OneTimeTearDown]` method.
- **`DisposableIsDisposed`** models `Disposable.IsDisposedBefore`. This covers
  scope selection (lambda, then accessor, then method), the scan of the
  scope's invocations filtered by the three-valued `ExecutedBefore` answer,
  the "reassigned after" veto, and the property-setter fallback.
- **`DontDisposeInjected`** models the IDISP007 rule's two handlers: which
  values each asks about, when each stops, and where each reports.

The helpers these pieces call are not modelled. Each is a parameter of the
model, or an answer stored in the syntax data. The model assumes nothing about
them beyond their answers. They are:

- the execution-order query (`Order`, answering `Yes`, `No` or `Maybe`);
- the dispose-call recogniser (`DisposeQuery`);
- the invocation and mutation walkers (`Region`);
- the ownership classifier (`CachedOrInjected`);
- the disposal query for a teardown method (`isDisposedIn`);
- the base-call lookup (`DisposeMethod.baseCallStatement`);
- the "parameter type is bool" test (`Parameter.isBoolean`);
- the single-assignment lookup (`AssignmentSite`).

The shared modules `Optional` and `Seqs` hold the option type and the
first-match scan that every `foreach … return` loop of the source performs.

## Model

| member | source | states |
|---|---|---|
| Seqs.FirstIndex | IDisposableAnalyzers/CodeFixes/DisposeMemberFix.cs:133-141 | The scan returns the first position whose element matches. It returns nothing exactly when no element matches. |
| DisposeMemberFix.TryFindIfDisposing | IDisposableAnalyzers/CodeFixes/DisposeMemberFix.cs:127-146 | Gives nothing unless the method has exactly one parameter, that parameter is bool, and the body is a block. Otherwise gives the first top-level statement `if (<parameter>)`, whose condition is the bare identifier. Gives nothing exactly when no top-level statement has that shape. |
| DisposeMemberFix.TryFindIfNotDisposingReturn | IDisposableAnalyzers/CodeFixes/DisposeMemberFix.cs:148-179 | Has the same shape requirements as `TryFindIfDisposing`. Matches only `if (!<parameter>)` whose branch is a `return`, or a block whose last statement is a `return`. Gives the first such top-level statement. |
| DisposeMemberFix.NestedIfDisposingIsNotFound | IDisposableAnalyzers/CodeFixes/DisposeMemberFix.cs:133-141 | A block at the top level is skipped whatever it holds, an `if (disposing)` included. The search result on `[block] + rest` is the result on `rest`, shifted by one position. |
| DisposeMemberFix.GuardNeedsReturn | IDisposableAnalyzers/CodeFixes/DisposeMemberFix.cs:160-177 | `if (!disposing) { … }` whose block does not end in `return`, the empty block included, is not the guard. The search result on `[that if] + rest` is the result on `rest`, shifted by one position. |
| DisposeMemberFix.ChoosePlacement | IDisposableAnalyzers/CodeFixes/DisposeMemberFix.cs:49-77 | Fixed priority order. The position after the first not-disposing guard is used exactly when such a guard exists. Otherwise the first `if (disposing)` branch is used, exactly when one exists. Otherwise a new `if` goes before the base-call statement, exactly when there is one. Otherwise the new `if` goes at the end. |
| DisposeMemberFix.AppendToBranch | IDisposableAnalyzers/CodeFixes/DisposeMemberFix.cs:58-62 | A block branch gets the dispose statement appended at its end. A single-statement branch becomes the block `{ statement; dispose; }`. |
| DisposeMemberFix.ApplyPlacement | IDisposableAnalyzers/CodeFixes/DisposeMemberFix.cs:47-78 | After the guard: the statements are the original ones with the dispose statement inserted right after the guard. Into the branch: only the `if (disposing)` statement changes, its branch extended, its condition and `else` kept. New `if`: inserted before the base-call statement, or appended at the end. |
| DisposeMemberFix.VirtualFix | IDisposableAnalyzers/CodeFixes/DisposeMemberFix.cs:47-78 | Stated against the two recognisers directly: with a guard, the dispose statement goes right after the first guard. Otherwise, with a disposing branch, the first such `if` is extended and every other statement is unchanged. Otherwise a new `if (<parameter>) { dispose; }` goes right before the base-call statement, or at the end when there is none. |
| DisposeMemberFix.IDisposableFix | IDisposableAnalyzers/CodeFixes/DisposeMemberFix.cs:84-121 | An expression body becomes the block `{ expression; dispose; }`. A block body gets the dispose statement immediately before the base-call statement, or at the end when there is none. Every other statement stays where it was. A method with no body gets no fix. |
| DisposeMemberFix.PlanFix | IDisposableAnalyzers/CodeFixes/DisposeMemberFix.cs:36-83 | The virtual `Dispose(bool)` is preferred whenever the type has one. It is fixed only when it has one parameter and a block body, with no fallback to `IDisposable.Dispose`. `IDisposable.Dispose` is used only when there is no virtual method. |
| DisposeMemberFix.ApplyPlacementTokens | IDisposableAnalyzers/CodeFixes/DisposeMemberFix.cs:47-78 | Each placement splices, into the original reading, either the dispose statement or a new `if (<parameter>) { dispose; }`. The splice point is fixed per placement: right after the guard statement, inside the disposing `if` after its branch, right before the base-call statement, or at the end. |
| DisposeMemberFix.IntoBranchTokens | IDisposableAnalyzers/CodeFixes/DisposeMemberFix.cs:56-63 | Extending the disposing branch adds the dispose statement inside that `if`, at the point right after its opening and existing branch, before any `else` and the closing. Nothing else moves. |
| DisposeMemberFix.PlanFixSplices | IDisposableAnalyzers/CodeFixes/DisposeMemberFix.cs:36-118 | Every fix adds one dispose statement at a fixed splice point. It is wrapped in a new `if` exactly when the virtual fix is used and the method has neither a not-disposing guard nor an `if (disposing)` branch. The `IDisposable` fix splices before the base-call statement or at the end. All other statements keep their original order. |
| DisposeMemberFix.PlanFixAddsOneDisposal | IDisposableAnalyzers/CodeFixes/DisposeMemberFix.cs:36-118 | Every fix raises the number of `member.Dispose()` statements in the dispose method by exactly one. |
| TestFixture.FirstMethodWith | IDisposableAnalyzers/Helpers/TestFixture.cs:66-76 | Gives the first member, in order, that is a method carrying the attribute. Gives nothing exactly when there is no such member. |
| TestFixture.TearDownAttributeFor | IDisposableAnalyzers/Helpers/TestFixture.cs:63-65 | SetUp maps to TearDown. Every other attribute type, including an unresolved one, maps to OneTimeTearDown. |
| TestFixture.IsAssignedAndDisposedInSetupAndTearDown | IDisposableAnalyzers/Helpers/TestFixture.cs:12-37 | Is false when there is no single assignment, or when the assignment is not inside a method. Is true only for a member assigned in a method carrying SetUp or OneTimeSetUp. |
| TestFixture.SetUpJudgedByFirstTearDown | IDisposableAnalyzers/Helpers/TestFixture.cs:17-22 | For a `[SetUp]` assignment, the answer is the disposal verdict of the first `[TearDown]` method in search order. |
| TestFixture.SetUpNeverUsesOneTimeTearDown | IDisposableAnalyzers/Helpers/TestFixture.cs:17-33 | For a member assigned only in a `[SetUp]` method, a positive answer always comes from a `[TearDown]` method that disposes it, never from a `[OneTimeTearDown]` method. |
| TestFixture.SetUpFallsThroughToOneTimeSetUp | IDisposableAnalyzers/Helpers/TestFixture.cs:17-32 | Take a method carrying both SetUp and OneTimeSetUp, and a hierarchy with no `[TearDown]`. Control falls through, and the first `[OneTimeTearDown]` method decides. |
| TestFixture.OneTimeSetUpJudgedByOneTimeTearDown | IDisposableAnalyzers/Helpers/TestFixture.cs:25-32 | For a `[OneTimeSetUp]` assignment in a method that does not also carry SetUp, the first `[OneTimeTearDown]` method decides. |
| TestFixture.NoPairedTearDownIsFalse | IDisposableAnalyzers/Helpers/TestFixture.cs:17-36 | When neither pairing finds a teardown method, the answer is false, whatever the disposal query says. |
| TestFixture.IsAssignedInSetUp | IDisposableAnalyzers/Helpers/TestFixture.cs:39-50 | Gives an attribute exactly when the assigning method carries SetUp or OneTimeSetUp. SetUp wins when it carries both. Gives nothing for no single assignment or an assignment outside a method. |
| TestFixture.DisposedInTearDownIsAssignedInSetUp | IDisposableAnalyzers/Helpers/TestFixture.cs:12-50 | A member that the fixture query counts as disposed is one that `IsAssignedInSetUp` reports. |
| TestFixture.TryGetTearDownMethod | IDisposableAnalyzers/Helpers/TestFixture.cs:52-79 | Gives nothing without an enclosing type. Otherwise gives the first method member, in declaration order, carrying the paired teardown attribute. Gives nothing exactly when there is none. |
| TestFixture.FixtureQueryUsesTearDownLookup | IDisposableAnalyzers/Helpers/TestFixture.cs:12-79 | Suppose the recursive search visits the fixture's own members first. Then the fixture query's verdict is the disposal verdict of the method that `TryGetTearDownMethod` finds for the setup attribute. |
| DisposableIsDisposed.BlockOfNearest | IDisposableAnalyzers/Helpers/Disposable.IsDisposed.cs:50-63 | Gives the nearest ancestor of a kind only when that ancestor has a block body. Farther ancestors of the same kind are never used. |
| DisposableIsDisposed.TryGetScope | IDisposableAnalyzers/Helpers/Disposable.IsDisposed.cs:48-68 | Picks the nearest lambda with a block body, else the nearest accessor with one, else the nearest method with one. A later kind is chosen only when no earlier kind qualifies. Gives nothing when no kind qualifies. |
| DisposableIsDisposed.IsReassignedAfter | IDisposableAnalyzers/Helpers/Disposable.IsDisposed.cs:70-86 | A veto needs a mutation inside a statement, with two `Yes` answers: the dispose call runs before that statement, and that statement runs before the expression. |
| DisposableIsDisposed.ScanScope | IDisposableAnalyzers/Helpers/Disposable.IsDisposed.cs:12-28 | The scan of the scope answers true exactly when some invocation of the chosen block disposes the symbol, is not ordered `No` against the expression, and is not vetoed. Without a block scope it answers false. |
| DisposableIsDisposed.ScanSetter | IDisposableAnalyzers/Helpers/Disposable.IsDisposed.cs:30-44 | The scan of the setter answers true exactly when some setter invocation disposes the symbol or the property and is not vetoed. It asks no order question against the expression. |
| DisposableIsDisposed.IsDisposedBefore | IDisposableAnalyzers/Helpers/Disposable.IsDisposed.cs:10-46 | The scan answers true exactly in two cases. First: some scope invocation not ordered `No` disposes the symbol and is not vetoed. Second: some setter invocation disposes the symbol or the property and is not vetoed, with no order check. |
| DisposableIsDisposed.LessPreciseOrderNeverRetracts | IDisposableAnalyzers/Helpers/Disposable.IsDisposed.cs:17-80 | Replace any ordering answers by `Maybe`. A true verdict stays true, because `Maybe` keeps a candidate and never vetoes. |
| DisposableIsDisposed.UnknownOrderKeepsEveryDisposal | IDisposableAnalyzers/Helpers/Disposable.IsDisposed.cs:17-80 | Suppose every ordering answer is `Maybe`. Then the verdict holds exactly when some invocation disposes the symbol: in the scope, or (also for the property) in the setter. |
| DisposableIsDisposed.DisposedNeedsDisposeCall | IDisposableAnalyzers/Helpers/Disposable.IsDisposed.cs:22-43 | A true verdict always rests on an invocation that the dispose recogniser accepts. |
| DisposableIsDisposed.LaterDisposalsDoNotCount | IDisposableAnalyzers/Helpers/Disposable.IsDisposed.cs:17-20 | Suppose every scope invocation is ordered `No` against the expression. Then only the setter path can make the verdict true. |
| DisposableIsDisposed.NoScopeNoSetterIsFalse | IDisposableAnalyzers/Helpers/Disposable.IsDisposed.cs:12-46 | With no block scope and no setter path, the verdict is false. |
| DontDisposeInjected.HandleUsing | IDisposableAnalyzers.Analyzers/IDISP007DontDisposeInjected.cs:37-72 | An excluded node gets no report. At most one report is made, always on a value the handler asked about and the ownership query flagged. The using expression is asked about only when it is an invocation or an identifier. Then declarators without an initializer are skipped, and the report is at the first flagged initializer value. |
| DontDisposeInjected.InvocationLocation | IDisposableAnalyzers.Analyzers/IDISP007DontDisposeInjected.cs:89 | The report is at the enclosing statement when there is one, otherwise at the invocation. |
| DontDisposeInjected.HandleInvocation | IDisposableAnalyzers.Analyzers/IDISP007DontDisposeInjected.cs:74-91 | Reports once exactly when all of these hold: the node is not excluded, there are zero arguments, there is no enclosing anonymous function, the target is the parameterless `IDisposable.Dispose`, and the value is potentially cached or injected. |
| DontDisposeInjected.OnlyExactDisposeShapeIsReported | IDisposableAnalyzers.Analyzers/IDISP007DontDisposeInjected.cs:81-87 | An invocation without the exact `x.Dispose()` shape is never reported, whatever the ownership query answers. |
| DontDisposeInjected.Analyze | IDisposableAnalyzers.Analyzers/IDISP007DontDisposeInjected.cs:37-91 | For either node kind: an excluded node gets no report, and there is at most one report. A `using` statement is reported only at an expression. |

## Left out

- Roslyn plumbing is not modelled: `async` code-fix registration, `DocumentEditor` and `SyntaxFactory` node construction, fix titles, the diagnostic descriptor's metadata, and analyzer `Initialize`. Only the resulting statement list and the report locations are modelled.
- The generated dispose statement is the opaque `DisposeStatement(member)`. Its spelling comes from a factory that is not part of this model.
- `DisposeMethod.TryFindBaseCall` is not part of this model. Its answer is the index of the top-level body statement that holds the base call. A base call nested inside another statement is not modelled: the lookup then reports the top-level statement holding it. For `try { … } finally { base.Dispose(disposing); }` the model puts the new `if` before the whole `try`, whereas the editor inserts it inside the `finally` block, right before the base call (DisposeMemberFix.cs:71).
- `DisposeMethod.TryFindVirtualDispose`, `TryFindIDisposableDispose` and `TrySingleDeclaration` are not part of this model. Their combined answer is an optional `DisposeMethod`.
- `FieldOrProperty.TryCreate`, the diagnostic-to-node lookup, and the loop over a fix context's diagnostics are not modelled. The planner works on one member.
- Type syntax compared to `KnownSymbol.Boolean` is not modelled. `Parameter.isBoolean` carries the answer.
- `AssignmentExecutionWalker.SingleFor`, `Attribute.TryFind`, `TryFindFirstMethodRecursive` and `DisposableMember.IsDisposed` are not part of this model. They appear as `AssignmentSite`, attribute membership, a caller-supplied member list in search order, and the `isDisposedIn` parameter.
- TestFixture.IsAssignedInSetUp: the `assignment` out-parameter is not returned. Only the attribute result is modelled.
- `InvocationWalker`, `MutationWalker`, `IsExecutedBefore`, `DisposeCall.IsDisposing` and the property/setter lookup are not part of this model. They appear as `Region`, `Order`, `DisposeQuery` and `PropertySetter`. Nothing is assumed of `Order` beyond its three values.
- `Disposable.IsPotentiallyCachedOrInjected` and the exclusion check are not part of this model. They are the `CachedOrInjected` parameter and the `excluded` flag.
- Concurrency, cancellation tokens, and the pooled-walker borrow and return discipline are not modelled. They affect the runtime, not what is computed.
- Node identity (invocations, statements, symbols, expressions) is modelled as natural-number ids.
