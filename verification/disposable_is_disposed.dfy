/** "Is `symbol` disposed before `expression`": the query the rules use to
    decide that overwriting a disposable is safe. The control-flow ordering,
    the dispose-call recogniser and the syntax walkers are queries this model
    receives; it assumes nothing of them beyond their answers. */
module DisposableIsDisposed {
  import opened Optional
  import Seqs

  /** The three answers of the execution-order query. */
  datatype ExecutedBefore = Yes | No | Maybe

  /** The nodes the execution-order query is asked about: an invocation, a
      statement, or the expression the query is about. */
  datatype Node = InvocationNode(invocation: nat) | StatementNode(statement: nat) | TheExpression

  /** A write found by the mutation walker, with the statement around it
      (absent when the write is not inside a statement). */
  datatype Mutation = Mutation(statement: Option<nat>)

  /** What the walkers find in a block or a setter: its invocations and its
      mutations, in walk order. */
  datatype Region = Region(invocations: seq<nat>, mutations: seq<Mutation>)

  /** The body of a lambda, accessor or method: a block, or anything else
      (an expression body, or none). */
  datatype FunctionBody = BlockBody(region: Region) | OtherBody

  datatype AncestorKind = AnonymousFunction | Accessor | BaseMethod

  /** One ancestor of the expression, nearest first. */
  datatype Ancestor = Enclosing(kind: AncestorKind, body: FunctionBody) | OtherAncestor

  /** The setter path: the expression assigns to `property`, which has a setter. */
  datatype PropertySetter = PropertySetter(property: nat, setter: Region)

  /** One query: the symbol, the expression's ancestors (nearest first), and
      the setter path when the expression is an assignment to a property
      with a setter. */
  datatype Query = Query(symbol: nat, ancestors: seq<Ancestor>, assignedProperty: Option<PropertySetter>)

  type Order = (Node, Node) -> ExecutedBefore

  /** `isDisposing(invocation, symbol)`: the invocation disposes the symbol. */
  type DisposeQuery = (nat, nat) -> bool

  // ---------------------------------------------------------------------------
  // Scope
  // ---------------------------------------------------------------------------

  /** Lambdas come first, accessors second, methods last. */
  function Rank(k: AncestorKind): (r: nat)
  {
    match k
    case AnonymousFunction => 0
    case Accessor => 1
    case BaseMethod => 2
  }

  predicate IsKind(a: Ancestor, k: AncestorKind)
  {
    a.Enclosing? && a.kind == k
  }

  /** `i` is the nearest ancestor of kind `k`. */
  ghost predicate IsNearest(ancestors: seq<Ancestor>, k: AncestorKind, i: nat)
  {
    i < |ancestors| && IsKind(ancestors[i], k) && forall j :: 0 <= j < i ==> !IsKind(ancestors[j], k)
  }

  /** The nearest ancestor of kind `k` exists and has a block body. */
  ghost predicate NearestHasBlock(ancestors: seq<Ancestor>, k: AncestorKind)
  {
    exists i: nat :: IsNearest(ancestors, k, i) && ancestors[i].body.BlockBody?
  }

  /** The nearest ancestor of kind `k`, when it has a block body. */
  function BlockOfNearest(ancestors: seq<Ancestor>, k: AncestorKind): (r: Option<nat>)
    ensures r.Some? ==> IsNearest(ancestors, k, r.value) && ancestors[r.value].body.BlockBody?
    ensures r.None? <==> !NearestHasBlock(ancestors, k)
  {
    match Seqs.FirstIndex(ancestors, a => IsKind(a, k))
    case Some(i) => if ancestors[i].body.BlockBody? then Some(i) else None
    case None => None
  }

  /** The ancestor whose block is scanned: the nearest lambda if it has a
      block body, else the nearest accessor if it has one, else the nearest
      method if it has one. A nearer ancestor of a later kind never wins. */
  function TryGetScope(ancestors: seq<Ancestor>): (r: Option<nat>)
    ensures r.Some? ==>
      && r.value < |ancestors|
      && ancestors[r.value].Enclosing?
      && ancestors[r.value].body.BlockBody?
      && IsNearest(ancestors, ancestors[r.value].kind, r.value)
      && forall k :: Rank(k) < Rank(ancestors[r.value].kind) ==> !NearestHasBlock(ancestors, k)
    ensures r.None? <==> forall k :: !NearestHasBlock(ancestors, k)
  {
    match BlockOfNearest(ancestors, AnonymousFunction)
    case Some(i) => Some(i)
    case None =>
      match BlockOfNearest(ancestors, Accessor)
      case Some(i) => Some(i)
      case None => BlockOfNearest(ancestors, BaseMethod)
  }

  // ---------------------------------------------------------------------------
  // The reassignment veto
  // ---------------------------------------------------------------------------

  /** A mutation vetoes a dispose call only on two definite answers: the
      call runs before the mutation's statement, and that statement runs
      before the expression. */
  predicate Vetoes(m: Mutation, disposeCall: nat, order: Order)
  {
    && m.statement.Some?
    && order(InvocationNode(disposeCall), StatementNode(m.statement.value)) == Yes
    && order(StatementNode(m.statement.value), TheExpression) == Yes
  }

  ghost predicate ReassignedAfter(scope: Region, disposeCall: nat, order: Order)
  {
    exists k :: 0 <= k < |scope.mutations| && Vetoes(scope.mutations[k], disposeCall, order)
  }

  /** Scans the mutations of the scope for one that vetoes the dispose call. */
  method IsReassignedAfter(scope: Region, disposeCall: nat, order: Order) returns (r: bool)
    ensures r <==> ReassignedAfter(scope, disposeCall, order)
  {
    var k := 0;
    while k < |scope.mutations|
      invariant k <= |scope.mutations|
      invariant forall j :: 0 <= j < k ==> !Vetoes(scope.mutations[j], disposeCall, order)
    {
      if Vetoes(scope.mutations[k], disposeCall, order) {
        return true;
      }
      k := k + 1;
    }
    return false;
  }

  // ---------------------------------------------------------------------------
  // The query
  // ---------------------------------------------------------------------------

  /** An invocation of the scope counts when it is not known to run after
      the expression (`Yes` and `Maybe` both stay), disposes the symbol, and
      is not vetoed. */
  ghost predicate QualifiesInScope(q: Query, scope: Region, invocation: nat, order: Order, isDisposing: DisposeQuery)
  {
    && order(InvocationNode(invocation), TheExpression) != No
    && isDisposing(invocation, q.symbol)
    && !ReassignedAfter(scope, invocation, order)
  }

  /** A setter invocation counts when it disposes the symbol or the property
      and is not vetoed; its order against the expression is not asked. */
  ghost predicate QualifiesInSetter(q: Query, p: PropertySetter, invocation: nat, order: Order, isDisposing: DisposeQuery)
  {
    && (isDisposing(invocation, q.symbol) || isDisposing(invocation, p.property))
    && !ReassignedAfter(p.setter, invocation, order)
  }

  ghost predicate DisposedInScope(q: Query, order: Order, isDisposing: DisposeQuery)
  {
    var scope := TryGetScope(q.ancestors);
    && scope.Some?
    && var region := q.ancestors[scope.value].body.region;
       exists k :: 0 <= k < |region.invocations| && QualifiesInScope(q, region, region.invocations[k], order, isDisposing)
  }

  ghost predicate DisposedInSetter(q: Query, order: Order, isDisposing: DisposeQuery)
  {
    && q.assignedProperty.Some?
    && var p := q.assignedProperty.value;
       exists k :: 0 <= k < |p.setter.invocations| && QualifiesInSetter(q, p, p.setter.invocations[k], order, isDisposing)
  }

  /** The meaning of the query: some qualifying dispose call in the scope,
      or in the setter of the assigned property. */
  ghost predicate DisposedBefore(q: Query, order: Order, isDisposing: DisposeQuery)
  {
    DisposedInScope(q, order, isDisposing) || DisposedInSetter(q, order, isDisposing)
  }

  /** The scan of the scope's invocations, in walk order, stopping at the
      first qualifying one. */
  method ScanScope(q: Query, order: Order, isDisposing: DisposeQuery) returns (r: bool)
    ensures r <==> DisposedInScope(q, order, isDisposing)
  {
    var scope := TryGetScope(q.ancestors);
    if scope.None? {
      return false;
    }
    var region := q.ancestors[scope.value].body.region;
    var k := 0;
    while k < |region.invocations|
      invariant k <= |region.invocations|
      invariant forall j :: 0 <= j < k ==> !QualifiesInScope(q, region, region.invocations[j], order, isDisposing)
    {
      var invocation := region.invocations[k];
      if order(InvocationNode(invocation), TheExpression) != No && isDisposing(invocation, q.symbol) {
        var reassigned := IsReassignedAfter(region, invocation, order);
        if !reassigned {
          return true;
        }
      }
      k := k + 1;
    }
    return false;
  }

  /** The scan of the assigned property's setter, in walk order, stopping at
      the first qualifying invocation. */
  method ScanSetter(q: Query, order: Order, isDisposing: DisposeQuery) returns (r: bool)
    ensures r <==> DisposedInSetter(q, order, isDisposing)
  {
    if q.assignedProperty.None? {
      return false;
    }
    var p := q.assignedProperty.value;
    var k := 0;
    while k < |p.setter.invocations|
      invariant k <= |p.setter.invocations|
      invariant forall j :: 0 <= j < k ==> !QualifiesInSetter(q, p, p.setter.invocations[j], order, isDisposing)
    {
      var invocation := p.setter.invocations[k];
      if isDisposing(invocation, q.symbol) || isDisposing(invocation, p.property) {
        var reassigned := IsReassignedAfter(p.setter, invocation, order);
        if !reassigned {
          return true;
        }
      }
      k := k + 1;
    }
    return false;
  }

  /** The query as the analyzer runs it: the scope first, then the setter. */
  method IsDisposedBefore(q: Query, order: Order, isDisposing: DisposeQuery) returns (r: bool)
    ensures r <==> DisposedBefore(q, order, isDisposing)
  {
    r := ScanScope(q, order, isDisposing);
    if !r {
      r := ScanSetter(q, order, isDisposing);
    }
  }

  // ---------------------------------------------------------------------------
  // Properties
  // ---------------------------------------------------------------------------

  /** `coarse` answers like `precise`, or `Maybe` where it knows less. */
  ghost predicate LessPrecise(coarse: Order, precise: Order)
  {
    forall a, b :: coarse(a, b) == precise(a, b) || coarse(a, b) == Maybe
  }

  /** Replacing definite ordering answers by `Maybe` never withdraws a
      "disposed before" verdict: `Maybe` keeps an invocation a candidate and
      never vetoes, so uncertainty only ever makes the query answer yes, the
      answer that silences a report. */
  lemma LessPreciseOrderNeverRetracts(q: Query, precise: Order, coarse: Order, isDisposing: DisposeQuery)
    requires LessPrecise(coarse, precise)
    requires DisposedBefore(q, precise, isDisposing)
    ensures DisposedBefore(q, coarse, isDisposing)
  {
  }

  /** An ordering query that answers `Maybe` to everything. */
  ghost predicate KnowsNothing(order: Order)
  {
    forall a, b :: order(a, b) == Maybe
  }

  /** With no ordering knowledge at all, nothing is filtered out and nothing
      is vetoed: the query holds exactly when some scope invocation disposes
      the symbol, or some setter invocation disposes the symbol or the
      property. */
  lemma UnknownOrderKeepsEveryDisposal(q: Query, order: Order, isDisposing: DisposeQuery)
    requires KnowsNothing(order)
    ensures DisposedBefore(q, order, isDisposing) <==>
      || (TryGetScope(q.ancestors).Some? &&
          var region := q.ancestors[TryGetScope(q.ancestors).value].body.region;
          exists k :: 0 <= k < |region.invocations| && isDisposing(region.invocations[k], q.symbol))
      || (q.assignedProperty.Some? &&
          var p := q.assignedProperty.value;
          exists k :: 0 <= k < |p.setter.invocations| &&
            (isDisposing(p.setter.invocations[k], q.symbol) || isDisposing(p.setter.invocations[k], p.property)))
  {
  }

  /** The query only ever holds because of an invocation that the dispose
      recogniser accepts for the symbol, or, on the setter path, for the
      property. */
  lemma DisposedNeedsDisposeCall(q: Query, order: Order, isDisposing: DisposeQuery)
    requires DisposedBefore(q, order, isDisposing)
    ensures || (TryGetScope(q.ancestors).Some? &&
                var region := q.ancestors[TryGetScope(q.ancestors).value].body.region;
                exists k :: 0 <= k < |region.invocations| && isDisposing(region.invocations[k], q.symbol))
            || (q.assignedProperty.Some? &&
                var p := q.assignedProperty.value;
                exists k :: 0 <= k < |p.setter.invocations| &&
                  (isDisposing(p.setter.invocations[k], q.symbol) || isDisposing(p.setter.invocations[k], p.property)))
  {
  }

  /** When every invocation of the scope is known to run after the
      expression, only the setter path can make the query hold. */
  lemma LaterDisposalsDoNotCount(q: Query, order: Order, isDisposing: DisposeQuery)
    requires forall call :: order(InvocationNode(call), TheExpression) == No
    ensures DisposedBefore(q, order, isDisposing) <==> DisposedInSetter(q, order, isDisposing)
  {
  }

  /** Without a block scope and without the setter path the answer is false. */
  lemma NoScopeNoSetterIsFalse(q: Query, order: Order, isDisposing: DisposeQuery)
    requires forall k :: !NearestHasBlock(q.ancestors, k)
    requires q.assignedProperty.None?
    ensures !DisposedBefore(q, order, isDisposing)
  {
  }
}
