/** Expressions written out with as few parentheses as the grammar allows, and read back. */
module Rendering {
  import opened Bytes
  import opened Entries
  import opened Expressions
  import opened Parsers

  /** Expressions the parser can produce: COUNT(*) is read elsewhere. */
  predicate Printable(e: Expr) {
    match e
    case Lit(_) => true
    case Ref(_, _) => true
    case Unary(_, a) => Printable(a)
    case Binary(_, l, r) => Printable(l) && Printable(r)
    case CountStar => false
  }

  /** The loosest level at which the expression needs no parentheses. */
  function Level(e: Expr): (n: nat)
    ensures OR_LEVEL <= n <= PRIMARY_LEVEL
  {
    match e
    case Unary(Not, _) => NOT_LEVEL
    case Unary(Neg, _) => NEG_LEVEL
    case Binary(op, _, _) => LevelOf(op)
    case _ => PRIMARY_LEVEL
  }

  function OpToken(op: BinOp): (t: Token)
    ensures OpOf(t) == Some(op)
  {
    match op
    case Or => Keyword(OrWord)
    case And => Keyword(AndWord)
    case Eq => Punct(EqSign)
    case Ne => Punct(NeSign)
    case Lt => Punct(LtSign)
    case Le => Punct(LeSign)
    case Gt => Punct(GtSign)
    case Ge => Punct(GeSign)
    case Add => Punct(Plus)
    case Sub => Punct(Minus)
    case Mul => Punct(Star)
    case Div => Punct(Slash)
  }

  function TokenFor(l: Literal): (t: Token)
    ensures LiteralToken(t) == Some(l) && OpOf(t).None? && !t.Ident? && t != Punct(LeftParen) && t != Keyword(NotWord)
  {
    match l
    case IntL(_) => Number(Some(l))
    case FloatL(_) => Number(Some(l))
    case StringL(s) => Str(s)
    case BoolL(b) => Keyword(if b then TrueWord else FalseWord)
    case NullL => Keyword(NullWord)
  }

  /** The level the left operand is read at; the right operand is one level tighter, so folds lean left. */
  function LeftLevel(op: BinOp): (n: nat)
    ensures OR_LEVEL <= n < PRIMARY_LEVEL
  {
    if LevelOf(op) == COMPARE_LEVEL then ADD_LEVEL else LevelOf(op)
  }

  /** The tokens of an expression where the given level is read. */
  function Render(e: Expr, level: nat): (ts: seq<Token>)
    requires Printable(e)
    ensures |ts| > 0
    decreases e, 1
  {
    if level <= Level(e) then Bare(e) else [Punct(LeftParen)] + Bare(e) + [Punct(RightParen)]
  }

  function Bare(e: Expr): (ts: seq<Token>)
    requires Printable(e)
    ensures |ts| > 0
    decreases e, 0
  {
    match e
    case Lit(l) => [TokenFor(l)]
    case Ref(t, n) => if t == [] then [Ident(n)] else [Ident(t), Punct(Dot), Ident(n)]
    case Unary(Not, a) => [Keyword(NotWord)] + Render(a, NOT_LEVEL)
    case Unary(Neg, a) => [Punct(Minus)] + Render(a, NEG_LEVEL)
    case Binary(op, l, r) => Render(l, LeftLevel(op)) + [OpToken(op)] + Render(r, LevelOf(op) + 1)
  }

  // ---- Reading it back -----------------------------------------------------

  /** The token does not carry on an expression read at this level. */
  predicate Ends(level: nat, t: Token) { t != Punct(Dot) && (OpOf(t).Some? ==> LevelOf(OpOf(t).value) < level) }

  /** The tokens from p to q are those of the list. */
  ghost predicate Spans(ts: seq<Token>, p: nat, q: nat, r: seq<Token>) { p <= q < |ts| && ts[p..q] == r }

  lemma {:induction false} SpansSplit(ts: seq<Token>, p: nat, q: nat, a: seq<Token>, b: seq<Token>)
    requires Spans(ts, p, q, a + b)
    ensures p + |a| <= q && Spans(ts, p, p + |a|, a) && Spans(ts, p + |a|, q, b)
  {
    assert ts[p..q] == a + b;
    assert ts[p..p + |a|] == (a + b)[..|a|] && ts[p + |a|..q] == (a + b)[|a|..];
  }

  lemma {:induction false} SpansFirst(ts: seq<Token>, p: nat, q: nat, t: Token, r: seq<Token>)
    requires Spans(ts, p, q, [t] + r)
    ensures p < q && ts[p] == t && Spans(ts, p + 1, q, r)
  {
    SpansSplit(ts, p, q, [t], r);
    assert ts[p..p + 1][0] == t;
  }

  /** Where NOT may not stand, a rendering does not start with it. */
  lemma {:induction false} NoLeadingNot(e: Expr, level: nat)
    requires Printable(e) && level > NOT_LEVEL
    ensures Render(e, level)[0] != Keyword(NotWord)
    decreases e
  {
    if level <= Level(e) && e.Binary? {
      NoLeadingNot(e.left, LeftLevel(e.bop));
    }
  }

  lemma {:induction false} NoLeadingMinus(e: Expr, level: nat)
    requires Printable(e) && level > NEG_LEVEL
    ensures Render(e, level)[0] != Punct(Minus)
  {
  }

  /** What is read at the next tighter level is read at this one too, when the following token does not carry on. */
  lemma {:induction false} Climb(level: nat, ts: seq<Token>, p: nat, e: Expr, q: nat)
    requires OR_LEVEL <= level < PRIMARY_LEVEL && Tokens(ts) && p < q < |ts|
    requires Parse(level + 1, ts, p) == Some(Parsed(e, q)) && Ends(level, ts[q])
    requires level == NOT_LEVEL ==> ts[p] != Keyword(NotWord)
    requires level == NEG_LEVEL ==> ts[p] != Punct(Minus)
    ensures Parse(level, ts, p) == Some(Parsed(e, q))
  {
  }

  /** How far a level is from the one where the expression is taken apart, the detour through parentheses included. */
  function Distance(e: Expr, level: nat): nat
    requires level <= PRIMARY_LEVEL
  {
    if level > Level(e) then 20 - level else Level(e) - level
  }

  lemma {:induction false} SameTokens(e: Expr, level: nat)
    requires Printable(e) && level != Level(e)
    ensures Render(e, level) == Render(e, level + 1)
  {
  }

  lemma {:induction false} ReadsLeaf(e: Expr, ts: seq<Token>, p: nat, q: nat)
    requires (e.Lit? || e.Ref?) && Tokens(ts) && Spans(ts, p, q, Bare(e)) && ts[q] != Punct(Dot)
    ensures Primary(ts, p) == Some(Parsed(e, q))
  {
    var r := Bare(e);
    assert forall i :: 0 <= i < |r| ==> ts[p + i] == ts[p..q][i] == r[i];
    if e.Lit? {
      assert ts[p] == r[0];
    } else if e.table == [] {
      assert ts[p] == r[0];
    } else {
      assert ts[p] == r[0] && ts[p + 1] == r[1] && ts[p + 2] == r[2];
    }
  }

  lemma {:induction false} ParensSpan(ts: seq<Token>, p: nat, q: nat, r: seq<Token>)
    requires Spans(ts, p, q, [Punct(LeftParen)] + r + [Punct(RightParen)])
    ensures p + 1 < q && ts[p] == Punct(LeftParen) && ts[q - 1] == Punct(RightParen) && Spans(ts, p + 1, q - 1, r)
  {
    var a, b := [Punct(LeftParen)], [Punct(RightParen)];
    SpansSplit(ts, p, q, a + r, b);
    SpansSplit(ts, p, p + |a + r|, a, r);
    assert ts[p..p + 1][0] == ts[p] && ts[q - 1..q][0] == ts[q - 1];
  }

  lemma {:induction false} OperatorSpan(ts: seq<Token>, p: nat, q: nat, a: seq<Token>, t: Token, b: seq<Token>)
    requires Spans(ts, p, q, a + [t] + b)
    ensures var m := p + |a|; m < q && Spans(ts, p, m, a) && ts[m] == t && Spans(ts, m + 1, q, b)
  {
    SpansSplit(ts, p, q, a + [t], b);
    SpansSplit(ts, p, p + |a| + 1, a, [t]);
    assert ts[p + |a|..p + |a| + 1][0] == ts[p + |a|];
  }

  /** A binary expression's tokens: left operand, operator, right operand. */
  lemma {:induction false} BinarySpan(e: Expr, ts: seq<Token>, p: nat, q: nat, left: nat, right: nat)
    requires Printable(e) && e.Binary? && Spans(ts, p, q, Bare(e)) && left == LeftLevel(e.bop)
             && right == LevelOf(e.bop) + 1
    ensures var m := p + |Render(e.left, left)|;
            && m < q && Spans(ts, p, m, Render(e.left, left))
            && OpOf(ts[m]) == Some(e.bop) && ts[m] != Punct(Dot) && Spans(ts, m + 1, q, Render(e.right, right))
  {
    var a, t, b := Render(e.left, left), OpToken(e.bop), Render(e.right, right);
    assert Bare(e) == a + [t] + b;
    OperatorSpan(ts, p, q, a, t, b);
  }

  /** At a level that folds, the parser gets as far as having the whole expression as its left operand. */
  lemma {:induction false} Reaches(e: Expr, level: nat, ts: seq<Token>, p: nat, q: nat)
    requires Printable(e) && Folds(level) && Tokens(ts) && Spans(ts, p, q, Render(e, level)) && Ends(level + 1, ts[q])
    ensures Parse(level, ts, p) == Tail(level, ts, e, q)
    decreases e, 2 * Distance(e, level) + 1
  {
    if level == Level(e) {
      FoldShape(e, level);
      var m := p + |Render(e.left, level)|;
      BinarySpan(e, ts, p, q, level, level + 1);
      OperatorAt(level, ts[m], e.bop);
      ReachesFold(e, level, ts, p, m, q);
    } else {
      SameTokens(e, level);
      ReadsBack(e, level + 1, ts, p, q);
      TailStart(level, ts, p, e, q);
    }
  }

  lemma {:induction false} ReachesFold(e: Expr, level: nat, ts: seq<Token>, p: nat, m: nat, q: nat)
    requires e.Binary? && Printable(e.left) && Printable(e.right) && Folds(level) && Tokens(ts) && m < q < |ts|
    requires Spans(ts, p, m, Render(e.left, level)) && Ends(level + 1, ts[m]) && OpAt(level, ts[m]) == Some(e.bop)
    requires Spans(ts, m + 1, q, Render(e.right, level + 1)) && Ends(level + 1, ts[q])
    ensures Parse(level, ts, p) == Tail(level, ts, e, q)
    decreases e, 0
  {
    Reaches(e.left, level, ts, p, m);
    ReadsBack(e.right, level + 1, ts, m + 1, q);
    TailStep(level, ts, e, m, q);
  }

  lemma {:induction false} FoldShape(e: Expr, level: nat)
    requires Printable(e) && Folds(level) && level == Level(e)
    ensures e.Binary? && Printable(e.left) && Printable(e.right) && LevelOf(e.bop) == LeftLevel(e.bop) == level
    ensures Render(e, level) == Bare(e)
  {
  }

  lemma {:induction false} OperatorAt(level: nat, t: Token, op: BinOp)
    requires OpOf(t) == Some(op) && t != Punct(Dot) && LevelOf(op) == level
    ensures Ends(level + 1, t) && OpAt(level, t) == Some(op)
  {
  }

  lemma {:induction false} TailStart(level: nat, ts: seq<Token>, p: nat, e: Expr, q: nat)
    requires Folds(level) && Tokens(ts) && p < q < |ts| && Parse(level + 1, ts, p) == Some(Parsed(e, q))
    ensures Parse(level, ts, p) == Tail(level, ts, e, q)
  {
  }

  lemma {:induction false} TailStep(level: nat, ts: seq<Token>, e: Expr, m: nat, q: nat)
    requires Folds(level) && Tokens(ts) && m < q < |ts| && e.Binary? && OpAt(level, ts[m]) == Some(e.bop)
    requires Parse(level + 1, ts, m + 1) == Some(Parsed(e.right, q))
    ensures Tail(level, ts, e.left, m) == Tail(level, ts, e, q)
  {
  }

  lemma {:induction false} ReadsComparison(e: Expr, ts: seq<Token>, p: nat, q: nat)
    requires Printable(e) && Level(e) == COMPARE_LEVEL && Tokens(ts) && Spans(ts, p, q, Bare(e))
             && Ends(COMPARE_LEVEL, ts[q])
    ensures Parse(COMPARE_LEVEL, ts, p) == Some(Parsed(e, q))
    decreases e, 1
  {
    ComparisonSpan(e, ts, p, q);
    var m := p + |Render(e.left, ADD_LEVEL)|;
    ReadsOperands(e, ts, p, m, q);
    ComparesOnce(ts, p, m, q, e);
  }

  lemma {:induction false} ReadsOperands(e: Expr, ts: seq<Token>, p: nat, m: nat, q: nat)
    requires e.Binary? && Printable(e) && Tokens(ts) && m < |ts| && q < |ts|
    requires Spans(ts, p, m, Render(e.left, ADD_LEVEL)) && Ends(ADD_LEVEL, ts[m])
    requires Spans(ts, m + 1, q, Render(e.right, ADD_LEVEL)) && Ends(ADD_LEVEL, ts[q])
    ensures Parse(ADD_LEVEL, ts, p) == Some(Parsed(e.left, m))
            && Parse(ADD_LEVEL, ts, m + 1) == Some(Parsed(e.right, q))
    decreases e, 0
  {
    ReadsBack(e.left, ADD_LEVEL, ts, p, m);
    ReadsBack(e.right, ADD_LEVEL, ts, m + 1, q);
  }

  lemma {:induction false} ComparisonSpan(e: Expr, ts: seq<Token>, p: nat, q: nat)
    requires Printable(e) && Level(e) == COMPARE_LEVEL && Spans(ts, p, q, Bare(e)) && Ends(COMPARE_LEVEL, ts[q])
    ensures e.Binary? && Ends(ADD_LEVEL, ts[q])
    ensures var m := p + |Render(e.left, ADD_LEVEL)|;
            && p < m && m + 1 < q && Spans(ts, p, m, Render(e.left, ADD_LEVEL))
            && Spans(ts, m + 1, q, Render(e.right, ADD_LEVEL))
            && OpAt(COMPARE_LEVEL, ts[m]) == Some(e.bop) && Ends(ADD_LEVEL, ts[m])
  {
    ComparisonShape(e);
    BinarySpan(e, ts, p, q, LeftLevel(e.bop), LevelOf(e.bop) + 1);
    EndsTighter(ts[q]);
    OperatorAt(COMPARE_LEVEL, ts[p + |Render(e.left, LeftLevel(e.bop))|], e.bop);
  }

  lemma {:induction false} ComparisonShape(e: Expr)
    requires Level(e) == COMPARE_LEVEL
    ensures e.Binary? && LevelOf(e.bop) == COMPARE_LEVEL && LeftLevel(e.bop) == ADD_LEVEL == LevelOf(e.bop) + 1
  {
  }

  lemma {:induction false} EndsTighter(t: Token)
    requires Ends(COMPARE_LEVEL, t)
    ensures Ends(ADD_LEVEL, t)
  {
  }

  lemma {:induction false} ComparesOnce(ts: seq<Token>, p: nat, m: nat, q: nat, e: Expr)
    requires Tokens(ts) && p < m && m + 1 < q < |ts| && e.Binary? && OpAt(COMPARE_LEVEL, ts[m]) == Some(e.bop)
    requires Parse(ADD_LEVEL, ts, p) == Some(Parsed(e.left, m))
             && Parse(ADD_LEVEL, ts, m + 1) == Some(Parsed(e.right, q))
    ensures Parse(COMPARE_LEVEL, ts, p) == Some(Parsed(e, q))
  {
  }

  lemma {:induction false} ReadsUnary(e: Expr, ts: seq<Token>, p: nat, q: nat)
    requires Printable(e) && e.Unary? && Tokens(ts) && Spans(ts, p, q, Bare(e)) && Ends(Level(e), ts[q])
    ensures Parse(Level(e), ts, p) == Some(Parsed(e, q))
    decreases e, 0
  {
    SpansFirst(ts, p, q, if e.op == Not then Keyword(NotWord) else Punct(Minus), Render(e.arg, Level(e)));
    ReadsBack(e.arg, Level(e), ts, p + 1, q);
  }

  lemma {:induction false} ReadsParens(e: Expr, ts: seq<Token>, p: nat, q: nat)
    requires Printable(e) && Level(e) < PRIMARY_LEVEL && Tokens(ts) && Spans(ts, p, q, Render(e, PRIMARY_LEVEL))
    ensures Parse(PRIMARY_LEVEL, ts, p) == Some(Parsed(e, q))
    decreases e, 20
  {
    ParensSpan(ts, p, q, Bare(e));
    ReadsBack(e, OR_LEVEL, ts, p + 1, q - 1);
  }

  lemma {:induction false} ReadsOneUp(e: Expr, level: nat, ts: seq<Token>, p: nat, q: nat)
    requires Printable(e) && level in {NOT_LEVEL, COMPARE_LEVEL, NEG_LEVEL} && level != Level(e)
    requires Tokens(ts) && Spans(ts, p, q, Render(e, level)) && Ends(level, ts[q])
    ensures Parse(level, ts, p) == Some(Parsed(e, q))
    decreases e, 2 * Distance(e, level) + 1
  {
    SameTokens(e, level);
    ReadsBack(e, level + 1, ts, p, q);
    assert ts[p] == ts[p..q][0] == Render(e, level + 1)[0];
    if level == NOT_LEVEL {
      NoLeadingNot(e, level + 1);
    } else if level == NEG_LEVEL {
      NoLeadingMinus(e, level + 1);
    }
    Climb(level, ts, p, e, q);
  }

  /** Reading the rendering of an expression gives the expression and stops right after it, whatever follows that
      does not carry the expression on. */
  lemma {:induction false} ReadsBack(e: Expr, level: nat, ts: seq<Token>, p: nat, q: nat)
    requires Printable(e) && OR_LEVEL <= level <= PRIMARY_LEVEL && Tokens(ts)
    requires Spans(ts, p, q, Render(e, level)) && Ends(level, ts[q])
    ensures Parse(level, ts, p) == Some(Parsed(e, q))
    decreases e, 2 * Distance(e, level) + 2
  {
    if Folds(level) {
      Reaches(e, level, ts, p, q);
    } else if level == PRIMARY_LEVEL {
      if Level(e) == PRIMARY_LEVEL {
        ReadsLeaf(e, ts, p, q);
      } else {
        ReadsParens(e, ts, p, q);
      }
    } else if level != Level(e) {
      ReadsOneUp(e, level, ts, p, q);
    } else if level == COMPARE_LEVEL {
      ReadsComparison(e, ts, p, q);
    } else {
      ReadsUnary(e, ts, p, q);
    }
  }

  /** The whole-expression form: parsing what was rendered gives the expression back and stops at the next token. */
  lemma {:induction false} ParseRender(e: Expr, rest: seq<Token>)
    requires Printable(e) && Tokens(rest) && Ends(OR_LEVEL, rest[0])
    ensures Tokens(Render(e, OR_LEVEL) + rest)
    ensures Parse(OR_LEVEL, Render(e, OR_LEVEL) + rest, 0) == Some(Parsed(e, |Render(e, OR_LEVEL)|))
  {
    var r := Render(e, OR_LEVEL);
    var ts := r + rest;
    assert ts[|ts| - 1] == rest[|rest| - 1];
    assert ts[0..|r|] == r && ts[|r|] == rest[0];
    ReadsBack(e, OR_LEVEL, ts, 0, |r|);
  }

  // ---- Which operator binds tighter ----------------------------------------

  /** Products before sums, sums before comparisons, then AND, then OR. */
  predicate Tighter(q: BinOp, p: BinOp) {
    || (q in {Mul, Div} && p !in {Mul, Div})
    || (q in {Add, Sub} && p !in {Mul, Div, Add, Sub})
    || (IsComparison(q) && p in {And, Or})
    || (q == And && p == Or)
  }

  lemma {:induction false} TighterLevel(q: BinOp, p: BinOp)
    ensures Tighter(q, p) <==> LevelOf(p) < LevelOf(q)
    ensures IsComparison(q) <==> LevelOf(q) == COMPARE_LEVEL
  {
  }

  lemma {:induction false} NameTokens(x: Bytes, level: nat)
    requires level <= PRIMARY_LEVEL
    ensures Render(Ref([], x), level) == [Ident(x)]
  {
  }

  /** Three operands and two operators, read from the first token. */
  function Chain(x: Bytes, p: BinOp, y: Bytes, q: BinOp, z: Bytes): (ts: seq<Token>)
    ensures Tokens(ts)
  {
    [Ident(x), OpToken(p), Ident(y), OpToken(q), Ident(z), EndOfInput]
  }

  lemma {:induction false} PairTokens(x: Bytes, p: BinOp, y: Bytes, level: nat)
    requires level <= LevelOf(p)
    ensures Render(Binary(p, Ref([], x), Ref([], y)), level) == [Ident(x), OpToken(p), Ident(y)]
  {
    NameTokens(x, LeftLevel(p));
    NameTokens(y, LevelOf(p) + 1);
  }

  /** The second operator takes the middle operand if it binds tighter, the first one otherwise. */
  lemma {:induction false} OperatorsBind(x: Bytes, p: BinOp, y: Bytes, q: BinOp, z: Bytes)
    requires !(IsComparison(p) && IsComparison(q))
    ensures Parse(OR_LEVEL, Chain(x, p, y, q, z), 0) ==
            Some(Parsed(if Tighter(q, p) then Binary(p, Ref([], x), Binary(q, Ref([], y), Ref([], z)))
                        else Binary(q, Binary(p, Ref([], x), Ref([], y)), Ref([], z)), 5))
  {
    TighterLevel(q, p);
    TighterLevel(p, q);
    if Tighter(q, p) {
      var e := Binary(p, Ref([], x), Binary(q, Ref([], y), Ref([], z)));
      NameTokens(x, LeftLevel(p));
      PairTokens(y, q, z, LevelOf(p) + 1);
      BindsAs(e, [Ident(x)], p, [Ident(y), OpToken(q), Ident(z)], Chain(x, p, y, q, z));
    } else {
      var e := Binary(q, Binary(p, Ref([], x), Ref([], y)), Ref([], z));
      PairTokens(x, p, y, LeftLevel(q));
      NameTokens(z, LevelOf(q) + 1);
      BindsAs(e, [Ident(x), OpToken(p), Ident(y)], q, [Ident(z)], Chain(x, p, y, q, z));
    }
  }

  lemma {:induction false} BindsAs(e: Expr, l: seq<Token>, op: BinOp, r: seq<Token>, ts: seq<Token>)
    requires e.Binary? && e.bop == op && Printable(e)
    requires Render(e.left, LeftLevel(op)) == l && Render(e.right, LevelOf(op) + 1) == r
    requires ts == l + [OpToken(op)] + r + [EndOfInput]
    ensures Tokens(ts) && Parse(OR_LEVEL, ts, 0) == Some(Parsed(e, |l| + 1 + |r|))
  {
    assert Render(e, OR_LEVEL) == l + [OpToken(op)] + r;
    ParseRender(e, [EndOfInput]);
  }

  /** Comparisons do not chain: the second one is left unread. */
  lemma {:induction false} ComparisonsDoNotChain(x: Bytes, p: BinOp, y: Bytes, q: BinOp, z: Bytes)
    requires IsComparison(p) && IsComparison(q)
    ensures Parse(OR_LEVEL, Chain(x, p, y, q, z), 0) == Some(Parsed(Binary(p, Ref([], x), Ref([], y)), 3))
  {
    var ts, e := Chain(x, p, y, q, z), Binary(p, Ref([], x), Ref([], y));
    TighterLevel(p, p);
    TighterLevel(q, q);
    NameTokens(x, ADD_LEVEL);
    NameTokens(y, ADD_LEVEL);
    assert ts[0..1] == [Ident(x)] && ts[2..3] == [Ident(y)];
    ReadsOperands(e, ts, 0, 1, 3);
    ComparesOnce(ts, 0, 1, 3, e);
    LeftUnread(ts, e, 3);
  }

  lemma {:induction false} LeftUnread(ts: seq<Token>, e: Expr, m: nat)
    requires Tokens(ts) && 0 < m < |ts| && ts[0] != Keyword(NotWord) && OpAt(COMPARE_LEVEL, ts[m]).Some?
    requires Parse(COMPARE_LEVEL, ts, 0) == Some(Parsed(e, m))
    ensures Parse(OR_LEVEL, ts, 0) == Some(Parsed(e, m))
  {
    assert Parse(NOT_LEVEL, ts, 0) == Some(Parsed(e, m));
    assert Parse(AND_LEVEL, ts, 0) == Tail(AND_LEVEL, ts, e, m) == Some(Parsed(e, m));
    assert Parse(OR_LEVEL, ts, 0) == Tail(OR_LEVEL, ts, e, m);
  }

  // ---- No pair of parentheses is there for nothing --------------------------

  /** NOT and a minus sign are not read where they may not stand. */
  lemma {:induction false} StopsAtSign(level: nat, ts: seq<Token>, p: nat)
    requires Tokens(ts) && p < |ts| && level <= PRIMARY_LEVEL
    requires (ts[p] == Keyword(NotWord) && level > NOT_LEVEL) || (ts[p] == Punct(Minus) && level > NEG_LEVEL)
    ensures Parse(level, ts, p).None?
    decreases PRIMARY_LEVEL - level
  {
    if level < PRIMARY_LEVEL {
      StopsAtSign(level + 1, ts, p);
    }
  }

  lemma {:induction false} SignFirst(e: Expr, ts: seq<Token>, p: nat, q: nat)
    requires Printable(e) && e.Unary? && Spans(ts, p, q, Bare(e))
    ensures p < q && ts[p] == if e.op == Not then Keyword(NotWord) else Punct(Minus)
  {
    assert Bare(e) == ts[p..q];
    assert ts[p..q][0] == ts[p];
  }

  /** Read at a tighter level than its own, an expression without its parentheses is not read to its end. */
  lemma {:induction false} StopsShort(e: Expr, level: nat, ts: seq<Token>, p: nat, q: nat)
    requires Printable(e) && Level(e) < level <= PRIMARY_LEVEL && Tokens(ts) && Spans(ts, p, q, Bare(e)) && p < q
    ensures Parse(level, ts, p).Some? ==> Parse(level, ts, p).value.pos < q
    decreases e, 1
  {
    if e.Unary? {
      SignFirst(e, ts, p, q);
      StopsAtSign(level, ts, p);
    } else {
      var left, right := LeftLevel(e.bop), LevelOf(e.bop) + 1;
      BinarySpan(e, ts, p, q, left, right);
      var m := p + |Render(e.left, left)|;
      OperatorEnds(level, ts[m], e.bop);
      StopsInLeft(e.left, left, level, ts, p, m);
    }
  }

  lemma {:induction false} OperatorEnds(level: nat, t: Token, op: BinOp)
    requires OpOf(t) == Some(op) && t != Punct(Dot) && LevelOf(op) < level
    ensures Ends(level, t)
  {
  }

  lemma {:induction false} StopsInLeft(l: Expr, left: nat, level: nat, ts: seq<Token>, p: nat, m: nat)
    requires Printable(l) && OR_LEVEL <= left <= level <= PRIMARY_LEVEL && Tokens(ts)
             && Spans(ts, p, m, Render(l, left))
    requires m < |ts| && p < m && Ends(level, ts[m])
    ensures Parse(level, ts, p).Some? ==> Parse(level, ts, p).value.pos <= m
    decreases l, 2
  {
    if left <= Level(l) < level {
      StopsShort(l, level, ts, p, m);
    } else {
      assert Render(l, level) == Render(l, left);
      ReadsBack(l, level, ts, p, m);
    }
  }

  /** At a given level an expression is read back without parentheses exactly when it is rendered without them. */
  lemma {:induction false} ParensNeededIff(e: Expr, level: nat, rest: seq<Token>)
    requires Printable(e) && OR_LEVEL <= level <= PRIMARY_LEVEL && Tokens(rest) && Ends(level, rest[0])
    ensures Tokens(Bare(e) + rest)
    ensures Parse(level, Bare(e) + rest, 0) == Some(Parsed(e, |Bare(e)|)) <==> Render(e, level) == Bare(e)
  {
    var r := Bare(e);
    var ts := r + rest;
    assert ts[|ts| - 1] == rest[|rest| - 1];
    assert ts[0..|r|] == r && ts[|r|] == rest[0];
    if level <= Level(e) {
      ReadsBack(e, level, ts, 0, |r|);
    } else {
      StopsShort(e, level, ts, 0, |r|);
      assert |Render(e, level)| == |r| + 2;
    }
  }

  // ---- Everything that is read can be rendered ------------------------------

  lemma {:induction false} ParsedPrintable(level: nat, ts: seq<Token>, p: nat)
    requires OR_LEVEL <= level <= PRIMARY_LEVEL && Tokens(ts) && p < |ts| && Parse(level, ts, p).Some?
    ensures Printable(Parse(level, ts, p).value.e)
    decreases |ts| - p, PRIMARY_LEVEL + 1 - level
  {
    if Folds(level) {
      ParsedPrintable(level + 1, ts, p);
      var l := Parse(level + 1, ts, p).value;
      TailPrintable(level, ts, l.e, l.pos);
    } else if level == NOT_LEVEL {
      if ts[p] == Keyword(NotWord) {
        ParsedPrintable(NOT_LEVEL, ts, p + 1);
      } else {
        ParsedPrintable(COMPARE_LEVEL, ts, p);
      }
    } else if level == COMPARE_LEVEL {
      ParsedPrintable(ADD_LEVEL, ts, p);
      var l := Parse(ADD_LEVEL, ts, p).value;
      if OpAt(COMPARE_LEVEL, ts[l.pos]).Some? {
        ParsedPrintable(ADD_LEVEL, ts, l.pos + 1);
      }
    } else if level == NEG_LEVEL {
      if ts[p] == Punct(Minus) {
        ParsedPrintable(NEG_LEVEL, ts, p + 1);
      } else {
        ParsedPrintable(PRIMARY_LEVEL, ts, p);
      }
    } else if ts[p] == Punct(LeftParen) {
      ParsedPrintable(OR_LEVEL, ts, p + 1);
    }
  }

  lemma {:induction false} TailPrintable(level: nat, ts: seq<Token>, left: Expr, q: nat)
    requires Folds(level) && Tokens(ts) && q < |ts| && Printable(left) && Tail(level, ts, left, q).Some?
    ensures Printable(Tail(level, ts, left, q).value.e)
    decreases |ts| - q, 0
  {
    var op := OpAt(level, ts[q]);
    if op.Some? {
      ParsedPrintable(level + 1, ts, q + 1);
      var r := Parse(level + 1, ts, q + 1).value;
      TailPrintable(level, ts, Binary(op.value, left, r.e), r.pos);
    }
  }

  /** Rendering what was parsed and parsing it again changes nothing, so redundant parentheses and the two spellings
      of "not equal" are all that rendering drops. */
  lemma {:induction false} RenderIsStable(ts: seq<Token>, p: nat, rest: seq<Token>)
    requires Tokens(ts) && p < |ts| && Parse(OR_LEVEL, ts, p).Some? && Tokens(rest) && Ends(OR_LEVEL, rest[0])
    ensures var e := Parse(OR_LEVEL, ts, p).value.e;
            && Printable(e) && Tokens(Render(e, OR_LEVEL) + rest)
            && Parse(OR_LEVEL, Render(e, OR_LEVEL) + rest, 0) == Some(Parsed(e, |Render(e, OR_LEVEL)|))
  {
    ParsedPrintable(OR_LEVEL, ts, p);
    ParseRender(Parse(OR_LEVEL, ts, p).value.e, rest);
  }
}
