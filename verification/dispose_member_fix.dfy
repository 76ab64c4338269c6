/** The code fix for "dispose member" (IDISP002): given the member that is not
    disposed and the type's dispose method(s), it plans where one
    `member.Dispose()` statement goes. The editor calls and node factories of
    the fix are not modelled; the plan is the rewritten statement list of the
    dispose method's body. */
module DisposeMemberFix {
  import opened Optional
  import Seqs

  // ---------------------------------------------------------------------------
  // Syntax
  // ---------------------------------------------------------------------------

  datatype UnaryOperator = LogicalNot | OtherPrefixOperator

  /** The expression shapes the recognisers look at; everything else is opaque. */
  datatype Expr =
    | Identifier(name: string)
    | Prefix(operator: UnaryOperator, operand: Expr)
    | OtherExpr(text: string)

  /** Statements. `DisposeStatement(m)` is the statement the fix generates to
      dispose member `m`; how it is spelled is decided by a factory outside
      this model. */
  datatype Stmt =
    | If(condition: Expr, statement: Stmt, otherwise: Option<Stmt>)
    | Block(statements: seq<Stmt>)
    | Return(value: Option<Expr>)
    | ExpressionStatement(expression: Expr)
    | DisposeStatement(member: string)
    | OtherStatement(text: string)

  /** A parameter; `isBoolean` is the semantic answer to "is its type `bool`". */
  datatype Parameter = Parameter(name: string, isBoolean: bool)

  datatype Body = BlockBody(statements: seq<Stmt>) | ExpressionBody(expression: Expr) | NoBody

  datatype MethodDecl = MethodDecl(parameters: seq<Parameter>, body: Body)

  /** A dispose method's single declaration together with the answer of the
      base-call lookup: the index of the top-level body statement that holds the
      `base.Dispose(…)` call, if there is one. */
  datatype DisposeMethod = DisposeMethod(declaration: MethodDecl, baseCallStatement: Option<nat>)
  {
    predicate Valid()
    {
      baseCallStatement.Some? ==>
        declaration.body.BlockBody? && baseCallStatement.value < |declaration.body.statements|
    }
  }

  // ---------------------------------------------------------------------------
  // Recognisers over `Dispose(bool disposing)`
  // ---------------------------------------------------------------------------

  /** Both recognisers need exactly one parameter, typed bool, and a block body. */
  predicate HasDisposingShape(m: MethodDecl)
  {
    |m.parameters| == 1 && m.parameters[0].isBoolean && m.body.BlockBody?
  }

  /** `if (name) …`: the condition is the bare identifier, whatever the branch. */
  predicate IsIfDisposing(s: Stmt, name: string)
  {
    s.If? && s.condition == Identifier(name)
  }

  /** A `return` statement, or a block whose last statement is a `return`. */
  predicate IsReturn(s: Stmt)
  {
    match s
    case Return(_) => true
    case Block(ss) => |ss| > 0 && ss[|ss| - 1].Return?
    case _ => false
  }

  /** `if (!name) return;` or `if (!name) { …; return; }`. */
  predicate IsIfNotDisposingReturn(s: Stmt, name: string)
  {
    s.If? && s.condition == Prefix(LogicalNot, Identifier(name)) && IsReturn(s.statement)
  }

  /** The first top-level statement of the body that is `if (<parameter>)`. */
  function TryFindIfDisposing(m: MethodDecl): (r: Option<nat>)
    ensures r.Some? ==>
      && HasDisposingShape(m)
      && r.value < |m.body.statements|
      && IsIfDisposing(m.body.statements[r.value], m.parameters[0].name)
      && forall j :: 0 <= j < r.value ==> !IsIfDisposing(m.body.statements[j], m.parameters[0].name)
    ensures r.None? <==>
      || !HasDisposingShape(m)
      || forall j :: 0 <= j < |m.body.statements| ==> !IsIfDisposing(m.body.statements[j], m.parameters[0].name)
  {
    if HasDisposingShape(m) then
      var name := m.parameters[0].name;
      Seqs.FirstIndex(m.body.statements, s => IsIfDisposing(s, name))
    else
      None
  }

  /** The first top-level statement of the body that is `if (!<parameter>) return;`. */
  function TryFindIfNotDisposingReturn(m: MethodDecl): (r: Option<nat>)
    ensures r.Some? ==>
      && HasDisposingShape(m)
      && r.value < |m.body.statements|
      && IsIfNotDisposingReturn(m.body.statements[r.value], m.parameters[0].name)
      && forall j :: 0 <= j < r.value ==> !IsIfNotDisposingReturn(m.body.statements[j], m.parameters[0].name)
    ensures r.None? <==>
      || !HasDisposingShape(m)
      || forall j :: 0 <= j < |m.body.statements| ==> !IsIfNotDisposingReturn(m.body.statements[j], m.parameters[0].name)
  {
    if HasDisposingShape(m) then
      var name := m.parameters[0].name;
      Seqs.FirstIndex(m.body.statements, s => IsIfNotDisposingReturn(s, name))
    else
      None
  }

  /** Only top-level statements are recognised: a block at the top level is
      skipped whatever it holds, an `if (disposing)` included, and the search
      goes on with the statements after it. */
  lemma NestedIfDisposingIsNotFound(name: string, inner: seq<Stmt>, rest: seq<Stmt>)
    ensures var r := TryFindIfDisposing(MethodDecl([Parameter(name, true)], BlockBody([Block(inner)] + rest)));
            var onRest := TryFindIfDisposing(MethodDecl([Parameter(name, true)], BlockBody(rest)));
            && (onRest.None? ==> r.None?)
            && (onRest.Some? ==> r == Some(onRest.value + 1))
  {
  }

  /** A negation whose branch is a block that does not end in `return` (an
      empty block included) is not the guard: the search goes on with the
      statements after it. */
  lemma GuardNeedsReturn(name: string, branch: seq<Stmt>, otherwise: Option<Stmt>, rest: seq<Stmt>)
    requires !(|branch| > 0 && branch[|branch| - 1].Return?)
    ensures var wrapped := If(Prefix(LogicalNot, Identifier(name)), Block(branch), otherwise);
            var r := TryFindIfNotDisposingReturn(MethodDecl([Parameter(name, true)], BlockBody([wrapped] + rest)));
            var onRest := TryFindIfNotDisposingReturn(MethodDecl([Parameter(name, true)], BlockBody(rest)));
            && (onRest.None? ==> r.None?)
            && (onRest.Some? ==> r == Some(onRest.value + 1))
  {
  }

  // ---------------------------------------------------------------------------
  // Where the statement goes
  // ---------------------------------------------------------------------------

  /** The four places the fix can put the dispose statement. */
  datatype Placement =
    | AfterGuard(index: nat)            // right after `if (!disposing) return;`
    | IntoDisposingBranch(index: nat)   // at the end of the existing `if (disposing)` branch
    | NewIfBefore(index: nat)           // a new `if (disposing) { … }` before the base call
    | NewIfAtEnd                        // a new `if (disposing) { … }` at the end of the body

  /** The virtual fix is offered for a `Dispose(bool)` with one parameter and a
      block body; the recognisers additionally require the parameter be bool. */
  predicate OffersVirtualFix(m: MethodDecl)
  {
    |m.parameters| == 1 && m.body.BlockBody?
  }

  /** The placement of the virtual fix, in the fixed priority order: after the
      guard, else into the disposing branch, else a new `if` before the base
      call, else a new `if` at the end. */
  function ChoosePlacement(d: DisposeMethod): (r: Placement)
    requires d.Valid() && OffersVirtualFix(d.declaration)
    ensures var ss := d.declaration.body.statements;
            var name := d.declaration.parameters[0].name;
            var recognised := d.declaration.parameters[0].isBoolean;
            && (r.AfterGuard? <==>
                 recognised && exists i :: 0 <= i < |ss| && IsIfNotDisposingReturn(ss[i], name))
            && (r.AfterGuard? ==>
                 && r.index < |ss| && IsIfNotDisposingReturn(ss[r.index], name)
                 && forall j :: 0 <= j < r.index ==> !IsIfNotDisposingReturn(ss[j], name))
            && (r.IntoDisposingBranch? <==>
                 && recognised
                 && (forall i :: 0 <= i < |ss| ==> !IsIfNotDisposingReturn(ss[i], name))
                 && exists i :: 0 <= i < |ss| && IsIfDisposing(ss[i], name))
            && (r.IntoDisposingBranch? ==>
                 && r.index < |ss| && IsIfDisposing(ss[r.index], name)
                 && forall j :: 0 <= j < r.index ==> !IsIfDisposing(ss[j], name))
            && (r.NewIfBefore? <==> !r.AfterGuard? && !r.IntoDisposingBranch? && d.baseCallStatement.Some?)
            && (r.NewIfBefore? ==> Some(r.index) == d.baseCallStatement)
  {
    match TryFindIfNotDisposingReturn(d.declaration)
    case Some(g) => AfterGuard(g)
    case None =>
      match TryFindIfDisposing(d.declaration)
      case Some(i) => IntoDisposingBranch(i)
      case None =>
        match d.baseCallStatement
        case Some(b) => NewIfBefore(b)
        case None => NewIfAtEnd
  }

  /** A placement whose index points into `ss`, and at an `if` for the branch case. */
  predicate FitsIn(p: Placement, ss: seq<Stmt>)
  {
    match p
    case AfterGuard(i) => i < |ss|
    case IntoDisposingBranch(i) => i < |ss| && ss[i].If?
    case NewIfBefore(i) => i < |ss|
    case NewIfAtEnd => true
  }

  /** The branch of an existing `if (disposing)` with the dispose statement
      added: a block gets it appended, a single statement becomes the block
      `{ statement; dispose; }`. */
  function AppendToBranch(branch: Stmt, dispose: Stmt): (r: Stmt)
    ensures r.Block?
    ensures branch.Block? ==> r.statements == branch.statements + [dispose]
    ensures !branch.Block? ==> r.statements == [branch, dispose]
  {
    if branch.Block? then Block(branch.statements + [dispose]) else Block([branch, dispose])
  }

  /** `if (parameter) { dispose; }`, the statement the fix creates when there is
      no branch to extend. */
  function NewIfDisposing(parameter: string, dispose: Stmt): (r: Stmt)
  {
    If(Identifier(parameter), Block([dispose]), None)
  }

  /** `r` is `ss` with `x` placed at position `k`: the statements before `k`
      stay, and the ones from `k` on follow `x` in their order. */
  predicate InsertedAt(r: seq<Stmt>, ss: seq<Stmt>, k: nat, x: Stmt)
  {
    k <= |ss| && |r| == |ss| + 1 && r[..k] == ss[..k] && r[k] == x && r[k + 1..] == ss[k..]
  }

  /** `r` is `ss` with the statement at `i` replaced by `x`, nothing else changed. */
  predicate ReplacedAt(r: seq<Stmt>, ss: seq<Stmt>, i: nat, x: Stmt)
  {
    i < |ss| && |r| == |ss| && r[i] == x && forall j :: 0 <= j < |ss| && j != i ==> r[j] == ss[j]
  }

  /** The `if (disposing)` statement `s` with the dispose statement appended to
      its branch; the condition and any `else` stay. */
  function ExtendIf(s: Stmt, dispose: Stmt): (r: Stmt)
    requires s.If?
    ensures r.If? && r.condition == s.condition && r.otherwise == s.otherwise
    ensures r.statement == AppendToBranch(s.statement, dispose)
  {
    If(s.condition, AppendToBranch(s.statement, dispose), s.otherwise)
  }

  /** The body statements after the edit the placement describes. */
  function ApplyPlacement(ss: seq<Stmt>, p: Placement, parameter: string, dispose: Stmt): (r: seq<Stmt>)
    requires FitsIn(p, ss)
    ensures p.AfterGuard? ==> InsertedAt(r, ss, p.index + 1, dispose)
    ensures p.IntoDisposingBranch? ==> ReplacedAt(r, ss, p.index, ExtendIf(ss[p.index], dispose))
    ensures p.NewIfBefore? ==> InsertedAt(r, ss, p.index, NewIfDisposing(parameter, dispose))
    ensures p.NewIfAtEnd? ==> InsertedAt(r, ss, |ss|, NewIfDisposing(parameter, dispose))
  {
    match p
    case AfterGuard(i) => Seqs.InsertAt(ss, i + 1, dispose)
    case IntoDisposingBranch(i) => ss[i := ExtendIf(ss[i], dispose)]
    case NewIfBefore(i) => Seqs.InsertAt(ss, i, NewIfDisposing(parameter, dispose))
    case NewIfAtEnd => ss + [NewIfDisposing(parameter, dispose)]
  }

  // ---------------------------------------------------------------------------
  // The fix as a whole
  // ---------------------------------------------------------------------------

  datatype DisposeTarget = VirtualDispose | IDisposableDispose

  /** A planned fix: which dispose method is rewritten and its new block body. */
  datatype Fix = Fix(target: DisposeTarget, statements: seq<Stmt>)

  /** The fix inside `Dispose(bool disposing)`. */
  function VirtualFix(d: DisposeMethod, member: string): (r: seq<Stmt>)
    requires d.Valid() && OffersVirtualFix(d.declaration)
    ensures var m := d.declaration;
            var ss := m.body.statements;
            var dispose := DisposeStatement(member);
            var guard := TryFindIfNotDisposingReturn(m);
            var branch := TryFindIfDisposing(m);
            && (guard.Some? ==> InsertedAt(r, ss, guard.value + 1, dispose))
            && (guard.None? && branch.Some? ==> ReplacedAt(r, ss, branch.value, ExtendIf(ss[branch.value], dispose)))
            && (guard.None? && branch.None? && d.baseCallStatement.Some? ==>
                  InsertedAt(r, ss, d.baseCallStatement.value, NewIfDisposing(m.parameters[0].name, dispose)))
            && (guard.None? && branch.None? && d.baseCallStatement.None? ==>
                  InsertedAt(r, ss, |ss|, NewIfDisposing(m.parameters[0].name, dispose)))
  {
    var p := ChoosePlacement(d);
    ApplyPlacement(d.declaration.body.statements, p, d.declaration.parameters[0].name, DisposeStatement(member))
  }

  /** The fix inside `IDisposable.Dispose()`: an expression body becomes the
      block `{ expression; dispose; }`; a block body gets the statement before
      the base call, or at its end. A method without a body gets no fix. */
  function IDisposableFix(d: DisposeMethod, member: string): (r: Option<seq<Stmt>>)
    requires d.Valid()
    ensures r.None? <==> d.declaration.body.NoBody?
    ensures d.declaration.body.ExpressionBody? ==>
      r == Some([ExpressionStatement(d.declaration.body.expression), DisposeStatement(member)])
    ensures d.declaration.body.BlockBody? ==>
      var ss := d.declaration.body.statements;
      && |r.value| == |ss| + 1
      && var k := if d.baseCallStatement.Some? then d.baseCallStatement.value else |ss|;
         && r.value[k] == DisposeStatement(member)
         && r.value[..k] == ss[..k] && r.value[k + 1..] == ss[k..]
  {
    match d.declaration.body
    case ExpressionBody(e) => Some([ExpressionStatement(e), DisposeStatement(member)])
    case BlockBody(ss) =>
      (match d.baseCallStatement
       case Some(b) => Some(Seqs.InsertAt(ss, b, DisposeStatement(member)))
       case None => Some(ss + [DisposeStatement(member)]))
    case NoBody => None
  }

  /** The whole decision: the virtual `Dispose(bool)` when the type has one
      (and then only if it has one parameter and a block body, with no fallback),
      otherwise `IDisposable.Dispose()`. */
  function PlanFix(virtualDispose: Option<DisposeMethod>, disposable: Option<DisposeMethod>, member: string): (r: Option<Fix>)
    requires virtualDispose.Some? ==> virtualDispose.value.Valid()
    requires disposable.Some? ==> disposable.value.Valid()
    ensures virtualDispose.Some? ==>
      (r.Some? <==> OffersVirtualFix(virtualDispose.value.declaration))
    ensures virtualDispose.Some? && r.Some? ==> r.value.target == VirtualDispose
    ensures virtualDispose.None? && disposable.None? ==> r.None?
    ensures virtualDispose.None? && disposable.Some? ==>
      (r.Some? <==> !disposable.value.declaration.body.NoBody?)
    ensures virtualDispose.None? && r.Some? ==> r.value.target == IDisposableDispose
  {
    match virtualDispose
    case Some(v) =>
      if OffersVirtualFix(v.declaration) then Some(Fix(VirtualDispose, VirtualFix(v, member))) else None
    case None =>
      match disposable
      case Some(s) =>
        (match IDisposableFix(s, member)
         case Some(ss) => Some(Fix(IDisposableDispose, ss))
         case None => None)
      case None => None
  }

  // ---------------------------------------------------------------------------
  // Statement order: the flattened token view of a statement tree
  // ---------------------------------------------------------------------------

  /** A statement tree read in source order: simple statements, and the
      opening, `else` and closing of every `if`. Blocks add no token, so
      wrapping a statement in a block does not change the reading. */
  datatype Token = Simple(statement: Stmt) | IfOpen(condition: Expr) | IfElse | IfClose

  function Tokens(s: Stmt): (r: seq<Token>)
    decreases s
  {
    match s
    case If(c, t, e) => [IfOpen(c)] + Tokens(t) + ElseTokens(e) + [IfClose]
    case Block(ss) => TokensOf(ss)
    case _ => [Simple(s)]
  }

  function ElseTokens(e: Option<Stmt>): (r: seq<Token>)
    decreases e
  {
    match e
    case None => []
    case Some(x) => [IfElse] + Tokens(x)
  }

  function TokensOf(ss: seq<Stmt>): (r: seq<Token>)
    decreases ss
  {
    if |ss| == 0 then [] else Tokens(ss[0]) + TokensOf(ss[1..])
  }

  /** The original body read as tokens; an expression body reads as the one
      statement it evaluates. */
  function BodyTokens(m: MethodDecl): (r: seq<Token>)
  {
    match m.body
    case BlockBody(ss) => TokensOf(ss)
    case ExpressionBody(e) => [Simple(ExpressionStatement(e))]
    case NoBody => []
  }

  /** How many `member.Dispose()` statements a token reading holds. */
  function Disposals(ts: seq<Token>, member: string): (r: nat)
  {
    if |ts| == 0 then 0
    else (if ts[0] == Simple(DisposeStatement(member)) then 1 else 0) + Disposals(ts[1..], member)
  }

  /** What an edit adds to the reading: the dispose statement alone, or a new
      `if (parameter) { dispose; }` around it. */
  function NewIfTokens(parameter: string, dispose: Stmt): (r: seq<Token>)
  {
    [IfOpen(Identifier(parameter)), Simple(dispose), IfClose]
  }

  lemma {:induction false} TokensOfAppend(a: seq<Stmt>, b: seq<Stmt>)
    ensures TokensOf(a + b) == TokensOf(a) + TokensOf(b)
    decreases |a|
  {
    if |a| == 0 {
      assert a + b == b;
    } else {
      assert (a + b)[0] == a[0];
      assert (a + b)[1..] == a[1..] + b;
      TokensOfAppend(a[1..], b);
    }
  }

  lemma {:induction false} DisposalsAppend(a: seq<Token>, b: seq<Token>, member: string)
    ensures Disposals(a + b, member) == Disposals(a, member) + Disposals(b, member)
    decreases |a|
  {
    if |a| == 0 {
      assert a + b == b;
    } else {
      assert (a + b)[0] == a[0];
      assert (a + b)[1..] == a[1..] + b;
      DisposalsAppend(a[1..], b, member);
    }
  }

  /** The reading of `ss` splits at any top-level position. */
  lemma TokensOfSplit(ss: seq<Stmt>, k: nat)
    requires k <= |ss|
    ensures TokensOf(ss) == TokensOf(ss[..k]) + TokensOf(ss[k..])
  {
    assert ss == ss[..k] + ss[k..];
    TokensOfAppend(ss[..k], ss[k..]);
  }

  lemma TokensOfSingleton(s: Stmt)
    ensures TokensOf([s]) == Tokens(s)
  {
  }

  /** Splicing `ins` between `a` and `b` is inserting it at `|a|` of `a + b`. */
  lemma SpliceAt<T>(a: seq<T>, ins: seq<T>, b: seq<T>)
    ensures (a + b)[..|a|] + ins + (a + b)[|a|..] == a + ins + b
  {
  }

  /** Inserting a statement at top-level position `k` splices its reading in. */
  lemma InsertTokens(ss: seq<Stmt>, k: nat, x: Stmt) returns (n: nat)
    requires k <= |ss|
    ensures n == |TokensOf(ss[..k])| && n <= |TokensOf(ss)|
    ensures TokensOf(Seqs.InsertAt(ss, k, x)) == TokensOf(ss)[..n] + Tokens(x) + TokensOf(ss)[n..]
  {
    var a, b := ss[..k], ss[k..];
    TokensOfSplit(ss, k);
    TokensOfAppend(a + [x], b);
    TokensOfAppend(a, [x]);
    TokensOfSingleton(x);
    n := |TokensOf(a)|;
    SpliceAt(TokensOf(a), Tokens(x), TokensOf(b));
  }

  /** Extending a branch adds exactly the dispose statement at its end. */
  lemma AppendToBranchTokens(branch: Stmt, dispose: Stmt)
    requires dispose.DisposeStatement?
    ensures Tokens(AppendToBranch(branch, dispose)) == Tokens(branch) + [Simple(dispose)]
  {
    TokensOfSingleton(dispose);
    if branch.Block? {
      TokensOfAppend(branch.statements, [dispose]);
    } else {
      TokensOfAppend([branch], [dispose]);
      TokensOfSingleton(branch);
    }
  }

  /** The point of the original reading where a placement splices in what it
      adds: after the statements up to and including the guard; inside the
      disposing `if`, after its opening and its branch; before the base-call
      statement; or at the very end. */
  function SplicePoint(ss: seq<Stmt>, p: Placement): (n: nat)
    requires FitsIn(p, ss)
  {
    match p
    case AfterGuard(i) => |TokensOf(ss[..i + 1])|
    case IntoDisposingBranch(i) => |TokensOf(ss[..i])| + 1 + |Tokens(ss[i].statement)|
    case NewIfBefore(i) => |TokensOf(ss[..i])|
    case NewIfAtEnd => |TokensOf(ss)|
  }

  /** Every placement splices what it adds into the original reading at its
      splice point; the rest of the statements keep their order. */
  lemma ApplyPlacementTokens(ss: seq<Stmt>, p: Placement, parameter: string, dispose: Stmt)
    returns (n: nat)
    requires FitsIn(p, ss) && dispose.DisposeStatement?
    ensures n == SplicePoint(ss, p) && n <= |TokensOf(ss)|
    ensures var ins := if p.NewIfBefore? || p.NewIfAtEnd? then NewIfTokens(parameter, dispose) else [Simple(dispose)];
            TokensOf(ApplyPlacement(ss, p, parameter, dispose)) == TokensOf(ss)[..n] + ins + TokensOf(ss)[n..]
  {
    TokensOfSingleton(dispose);
    assert Tokens(NewIfDisposing(parameter, dispose)) == NewIfTokens(parameter, dispose);
    match p
    case AfterGuard(i) =>
      n := InsertTokens(ss, i + 1, dispose);
    case NewIfBefore(i) =>
      n := InsertTokens(ss, i, NewIfDisposing(parameter, dispose));
    case NewIfAtEnd =>
      n := InsertTokens(ss, |ss|, NewIfDisposing(parameter, dispose));
      assert ss[..|ss|] == ss;
      assert Seqs.InsertAt(ss, |ss|, NewIfDisposing(parameter, dispose)) == ss + [NewIfDisposing(parameter, dispose)];
    case IntoDisposingBranch(i) =>
      n := IntoBranchTokens(ss, i, dispose);
  }

  /** Replacing the top-level statement at `i` replaces its reading only. */
  lemma ReplaceTokens(ss: seq<Stmt>, i: nat, y: Stmt)
    requires i < |ss|
    ensures TokensOf(ss[i := y]) == TokensOf(ss[..i]) + Tokens(y) + TokensOf(ss[i + 1..])
  {
    var pre, post := ss[..i], ss[i + 1..];
    assert ss[i := y] == pre + [y] + post;
    TokensOfAppend(pre + [y], post);
    TokensOfAppend(pre, [y]);
    TokensOfSingleton(y);
  }

  /** Splicing `x` inside the middle part of a three-part sequence. */
  lemma SpliceInside<T>(p: seq<T>, q: seq<T>, r: seq<T>, s: seq<T>, x: T)
    ensures var whole := p + (q + r) + s;
            whole[..|p| + |q|] + [x] + whole[|p| + |q|..] == p + (q + [x] + r) + s
  {
    var whole := p + (q + r) + s;
    assert whole[..|p| + |q|] == p + q;
    assert whole[|p| + |q|..] == r + s;
  }

  /** The reading of an `if` whose branch was extended. */
  lemma ExtendedIfTokens(ifStmt: Stmt, dispose: Stmt)
    requires ifStmt.If? && dispose.DisposeStatement?
    ensures var q := [IfOpen(ifStmt.condition)] + Tokens(ifStmt.statement);
            var r := ElseTokens(ifStmt.otherwise) + [IfClose];
            && Tokens(ifStmt) == q + r
            && Tokens(ExtendIf(ifStmt, dispose)) == q + [Simple(dispose)] + r
  {
    AppendToBranchTokens(ifStmt.statement, dispose);
  }

  /** Extending the `if (disposing)` branch at top-level position `i` splices
      the dispose statement into the reading, inside that `if`. */
  lemma IntoBranchTokens(ss: seq<Stmt>, i: nat, dispose: Stmt) returns (n: nat)
    requires i < |ss| && ss[i].If? && dispose.DisposeStatement?
    ensures n == |TokensOf(ss[..i])| + 1 + |Tokens(ss[i].statement)| && n <= |TokensOf(ss)|
    ensures TokensOf(ApplyPlacement(ss, IntoDisposingBranch(i), "", dispose)) ==
            TokensOf(ss)[..n] + [Simple(dispose)] + TokensOf(ss)[n..]
  {
    var ifStmt := ss[i];
    ReplaceTokens(ss, i, ifStmt);
    assert ss[i := ifStmt] == ss;
    ReplaceTokens(ss, i, ExtendIf(ifStmt, dispose));
    ExtendedIfTokens(ifStmt, dispose);
    var p, s := TokensOf(ss[..i]), TokensOf(ss[i + 1..]);
    var q := [IfOpen(ifStmt.condition)] + Tokens(ifStmt.statement);
    var r := ElseTokens(ifStmt.otherwise) + [IfClose];
    SpliceInside(p, q, r, s, Simple(dispose));
    n := |p| + |q|;
  }

  /** Every fix the planner produces adds one dispose statement, wrapped in a
      new `if` exactly when the virtual method has neither a guard nor a
      disposing branch, and keeps every other statement of the dispose method
      in its original order. */
  lemma PlanFixSplices(virtualDispose: Option<DisposeMethod>, disposable: Option<DisposeMethod>, member: string)
    returns (n: nat, inserted: seq<Token>)
    requires virtualDispose.Some? ==> virtualDispose.value.Valid()
    requires disposable.Some? ==> disposable.value.Valid()
    requires PlanFix(virtualDispose, disposable, member).Some?
    ensures var fix := PlanFix(virtualDispose, disposable, member).value;
            var original := if fix.target == VirtualDispose then virtualDispose.value else disposable.value;
            var before := BodyTokens(original.declaration);
            && n <= |before|
            && TokensOf(fix.statements) == before[..n] + inserted + before[n..]
            && (inserted == [Simple(DisposeStatement(member))] ||
                (fix.target == VirtualDispose &&
                 inserted == NewIfTokens(original.declaration.parameters[0].name, DisposeStatement(member))))
            && (inserted != [Simple(DisposeStatement(member))] <==>
                  && fix.target == VirtualDispose
                  && TryFindIfNotDisposingReturn(original.declaration).None?
                  && TryFindIfDisposing(original.declaration).None?)
            && (fix.target == VirtualDispose ==>
                  n == SplicePoint(original.declaration.body.statements, ChoosePlacement(original)))
            && (fix.target == IDisposableDispose && original.declaration.body.ExpressionBody? ==> n == 1)
            && (fix.target == IDisposableDispose && original.declaration.body.BlockBody? ==>
                  var ss := original.declaration.body.statements;
                  n == |TokensOf(ss[..if original.baseCallStatement.Some? then original.baseCallStatement.value else |ss|])|)
  {
    var dispose := DisposeStatement(member);
    TokensOfSingleton(dispose);
    var fix := PlanFix(virtualDispose, disposable, member).value;
    if fix.target == VirtualDispose {
      var d := virtualDispose.value;
      var p := ChoosePlacement(d);
      var parameter := d.declaration.parameters[0].name;
      n := ApplyPlacementTokens(d.declaration.body.statements, p, parameter, dispose);
      inserted := if p.NewIfBefore? || p.NewIfAtEnd? then NewIfTokens(parameter, dispose) else [Simple(dispose)];
    } else {
      var d := disposable.value;
      inserted := [Simple(dispose)];
      match d.declaration.body
      case ExpressionBody(e) =>
        var ss := [ExpressionStatement(e), dispose];
        assert fix.statements == ss;
        TokensOfAppend([ExpressionStatement(e)], [dispose]);
        TokensOfSingleton(ExpressionStatement(e));
        n := 1;
      case BlockBody(ss) =>
        var k := if d.baseCallStatement.Some? then d.baseCallStatement.value else |ss|;
        assert fix.statements == Seqs.InsertAt(ss, k, dispose);
        n := InsertTokens(ss, k, dispose);
    }
  }

  /** Corollary: the number of `member.Dispose()` statements grows by exactly one. */
  lemma PlanFixAddsOneDisposal(virtualDispose: Option<DisposeMethod>, disposable: Option<DisposeMethod>, member: string)
    requires virtualDispose.Some? ==> virtualDispose.value.Valid()
    requires disposable.Some? ==> disposable.value.Valid()
    requires PlanFix(virtualDispose, disposable, member).Some?
    ensures var fix := PlanFix(virtualDispose, disposable, member).value;
            var original := if fix.target == VirtualDispose then virtualDispose.value else disposable.value;
            Disposals(TokensOf(fix.statements), member) == Disposals(BodyTokens(original.declaration), member) + 1
  {
    var n, inserted := PlanFixSplices(virtualDispose, disposable, member);
    var fix := PlanFix(virtualDispose, disposable, member).value;
    var original := if fix.target == VirtualDispose then virtualDispose.value else disposable.value;
    var before := BodyTokens(original.declaration);
    assert before == before[..n] + before[n..];
    DisposalsAppend(before[..n], before[n..], member);
    DisposalsAppend(before[..n] + inserted, before[n..], member);
    DisposalsAppend(before[..n], inserted, member);
    InsertedDisposals(inserted, member, original.declaration);
  }

  /** Both kinds of insertion hold exactly one `member.Dispose()`. */
  lemma InsertedDisposals(inserted: seq<Token>, member: string, m: MethodDecl)
    requires inserted == [Simple(DisposeStatement(member))] ||
             (|m.parameters| > 0 && inserted == NewIfTokens(m.parameters[0].name, DisposeStatement(member)))
    ensures Disposals(inserted, member) == 1
  {
    if |inserted| == 1 {
      assert inserted[1..] == [];
    } else {
      assert inserted[1..][1..][1..] == [];
      assert Disposals(inserted[1..][1..][1..], member) == 0;
      assert Disposals(inserted[1..][1..], member) == 0;
      assert Disposals(inserted[1..], member) == 1;
    }
  }
}
