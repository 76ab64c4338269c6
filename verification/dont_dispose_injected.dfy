/** IDISP007 "Don't dispose injected": a `using` statement or a `Dispose()`
    call applied to a value the scope does not own is reported. Whether a value
    is potentially cached or injected is a query this model receives; the
    rule's own part is which values it asks about, when it stops, and where
    it reports. */
module DontDisposeInjected {
  import opened Optional
  import Seqs

  datatype ExpressionKind = InvocationExpression | IdentifierName | OtherExpression

  /** An expression node, identified by `id`, with its syntactic kind. */
  datatype Expression = Expression(id: nat, kind: ExpressionKind)

  /** A declarator of a `using` declaration, with its initializer's value. */
  datatype Declarator = Declarator(initializer: Option<Expression>)

  /** `using (expression)` or `using (declaration)`; the syntax node carries
      both slots. */
  datatype UsingStatement = UsingStatement(expression: Option<Expression>, declaration: Option<seq<Declarator>>)

  /** An invocation node: its argument count (absent without an argument
      list), whether it is inside or is an anonymous function, the parameter
      count of the method it resolves to when that is `IDisposable.Dispose`,
      and the statement around it. */
  datatype Invocation = Invocation(
    id: nat,
    argumentCount: Option<nat>,
    insideAnonymousFunction: bool,
    disposeParameterCount: Option<nat>,
    enclosingStatement: Option<nat>)

  /** Where a diagnostic is reported. */
  datatype Location = ExpressionLocation(expression: nat) | StatementLocation(statement: nat)

  /** The "potentially cached or injected" query, by node id. */
  type CachedOrInjected = nat -> bool

  // ---------------------------------------------------------------------------
  // using statements
  // ---------------------------------------------------------------------------

  /** The `using` expression is asked about only when it is an invocation or
      an identifier. */
  predicate IsCheckedUsingExpression(e: Expression)
  {
    e.kind == InvocationExpression || e.kind == IdentifierName
  }

  /** The using expression is checked and reported. */
  predicate ReportsExpression(u: UsingStatement, isCachedOrInjected: CachedOrInjected)
  {
    u.expression.Some? && IsCheckedUsingExpression(u.expression.value) && isCachedOrInjected(u.expression.value.id)
  }

  /** A declarator with an initializer whose value is potentially cached or
      injected; declarators without an initializer never are. */
  predicate ReportsDeclarator(d: Declarator, isCachedOrInjected: CachedOrInjected)
  {
    d.initializer.Some? && isCachedOrInjected(d.initializer.value.id)
  }

  /** A value the `using` handler asks about: the using expression when it
      is an invocation or an identifier, or a declarator's initializer value. */
  ghost predicate IsAskedAbout(u: UsingStatement, e: Expression)
  {
    || (u.expression == Some(e) && IsCheckedUsingExpression(e))
    || (u.declaration.Some? && exists d :: d in u.declaration.value && d.initializer == Some(e))
  }

  /** The handler for `using` statements, reporting as it goes: the using
      expression first, then each declarator in order, returning after the
      first report. */
  method HandleUsing(u: UsingStatement, excluded: bool, isCachedOrInjected: CachedOrInjected)
    returns (reports: seq<Location>)
    ensures |reports| <= 1
    ensures excluded ==> reports == []
    ensures forall l :: l in reports ==>
      exists e :: IsAskedAbout(u, e) && isCachedOrInjected(e.id) && l == ExpressionLocation(e.id)
    ensures !excluded && ReportsExpression(u, isCachedOrInjected) ==>
      reports == [ExpressionLocation(u.expression.value.id)]
    ensures !excluded && !ReportsExpression(u, isCachedOrInjected) && u.declaration.Some? ==>
      var ds := u.declaration.value;
      match Seqs.FirstIndex(ds, d => ReportsDeclarator(d, isCachedOrInjected))
      case Some(k) => reports == [ExpressionLocation(ds[k].initializer.value.id)]
      case None => reports == []
    ensures !excluded && !ReportsExpression(u, isCachedOrInjected) && u.declaration.None? ==> reports == []
  {
    reports := [];
    if excluded {
      return;
    }
    if u.expression.Some? && IsCheckedUsingExpression(u.expression.value) {
      if isCachedOrInjected(u.expression.value.id) {
        reports := reports + [ExpressionLocation(u.expression.value.id)];
        return;
      }
    }
    if u.declaration.Some? {
      var ds := u.declaration.value;
      var k := 0;
      while k < |ds|
        invariant k <= |ds|
        invariant reports == []
        invariant forall j :: 0 <= j < k ==> !ReportsDeclarator(ds[j], isCachedOrInjected)
      {
        if ds[k].initializer.None? {
          k := k + 1;
          continue;
        }
        var value := ds[k].initializer.value;
        if isCachedOrInjected(value.id) {
          assert ds[k] in ds && IsAskedAbout(u, value);
          reports := reports + [ExpressionLocation(value.id)];
          return;
        }
        k := k + 1;
      }
    }
  }

  // ---------------------------------------------------------------------------
  // Dispose() invocations
  // ---------------------------------------------------------------------------

  /** `x.Dispose()` exactly: an empty argument list, outside any anonymous
      function, resolving to `IDisposable.Dispose` with no parameters. */
  predicate HasDisposeShape(inv: Invocation)
  {
    && inv.argumentCount == Some(0)
    && !inv.insideAnonymousFunction
    && inv.disposeParameterCount == Some(0)
  }

  /** The statement around the invocation, or the invocation itself when it is
      not inside a statement. */
  function InvocationLocation(inv: Invocation): (r: Location)
    ensures inv.enclosingStatement.Some? <==> r.StatementLocation?
    ensures r.StatementLocation? ==> r.statement == inv.enclosingStatement.value
    ensures r.ExpressionLocation? ==> r.expression == inv.id
  {
    match inv.enclosingStatement
    case Some(s) => StatementLocation(s)
    case None => ExpressionLocation(inv.id)
  }

  /** The handler for invocations. */
  function HandleInvocation(inv: Invocation, excluded: bool, isCachedOrInjected: CachedOrInjected): (reports: seq<Location>)
    ensures |reports| <= 1
    ensures |reports| == 1 <==>
      && !excluded
      && inv.argumentCount == Some(0)
      && !inv.insideAnonymousFunction
      && inv.disposeParameterCount == Some(0)
      && isCachedOrInjected(inv.id)
    ensures |reports| == 1 ==> reports[0] == InvocationLocation(inv)
  {
    if excluded then []
    else if HasDisposeShape(inv) && isCachedOrInjected(inv.id) then [InvocationLocation(inv)]
    else []
  }

  // ---------------------------------------------------------------------------
  // The rule
  // ---------------------------------------------------------------------------

  /** The two node kinds the rule subscribes to. */
  datatype SyntaxNode = UsingNode(statement: UsingStatement) | InvocationNode(invocation: Invocation)

  /** The diagnostics the rule reports for one node. */
  method Analyze(node: SyntaxNode, excluded: bool, isCachedOrInjected: CachedOrInjected)
    returns (reports: seq<Location>)
    ensures |reports| <= 1
    ensures excluded ==> reports == []
    ensures forall l :: l in reports ==> l.ExpressionLocation? || node.InvocationNode?
    ensures node.InvocationNode? && reports != [] ==> isCachedOrInjected(node.invocation.id)
  {
    match node
    case UsingNode(u) =>
      reports := HandleUsing(u, excluded, isCachedOrInjected);
    case InvocationNode(inv) =>
      reports := HandleInvocation(inv, excluded, isCachedOrInjected);
  }

  /** A wrong shape is never reported, however the ownership query answers:
      arguments, a lambda around it, or a target other than the parameterless
      `IDisposable.Dispose` each silence the invocation handler. */
  lemma OnlyExactDisposeShapeIsReported(inv: Invocation, excluded: bool, isCachedOrInjected: CachedOrInjected)
    requires !HasDisposeShape(inv)
    ensures HandleInvocation(inv, excluded, isCachedOrInjected) == []
  {
  }
}
