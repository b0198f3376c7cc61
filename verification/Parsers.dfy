/** The expression parser over tokens, and the rendering that it inverts. */
module Parsers {
  import opened Bytes
  import opened Entries
  import opened Expressions

  datatype Word = OrWord | AndWord | NotWord | NullWord | TrueWord | FalseWord | OtherWord(text: Bytes)

  datatype Sign = EqSign | NeSign | BangEqSign | LtSign | LeSign | GtSign | GeSign | Plus | Minus | Star | Slash
    | LeftParen | RightParen
                | Dot | OtherSign(text: Bytes)

  /** A number token carries its literal, or None when its text is not a number in range. */
  datatype Token = EndOfInput | Ident(name: Bytes) | Number(val: Option<Literal>) | Str(s: Bytes) | Keyword(word: Word)
    | Punct(sign: Sign)

  /** The tokenizer puts one end token last. */
  predicate Tokens(ts: seq<Token>) { |ts| > 0 && ts[|ts| - 1].EndOfInput? }

  // ---- Grammar -------------------------------------------------------------

  // Precedence levels, loosest first.
  const OR_LEVEL: nat := 1
  const AND_LEVEL: nat := 2
  const NOT_LEVEL: nat := 3
  const COMPARE_LEVEL: nat := 4
  const ADD_LEVEL: nat := 5
  const MUL_LEVEL: nat := 6
  const NEG_LEVEL: nat := 7
  const PRIMARY_LEVEL: nat := 8

  /** Levels at which a loop folds operators to the left. */
  predicate Folds(level: nat) { level in {OR_LEVEL, AND_LEVEL, ADD_LEVEL, MUL_LEVEL} }

  function LevelOf(op: BinOp): nat {
    match op
    case Or => OR_LEVEL
    case And => AND_LEVEL
    case Add | Sub => ADD_LEVEL
    case Mul | Div => MUL_LEVEL
    case _ => COMPARE_LEVEL
  }

  /** The binary operator a token stands for. */
  function OpOf(t: Token): Option<BinOp> {
    match t
    case Keyword(OrWord) => Some(Or)
    case Keyword(AndWord) => Some(And)
    case Punct(EqSign) => Some(Eq)
    case Punct(NeSign) => Some(Ne)
    case Punct(BangEqSign) => Some(Ne)
    case Punct(LtSign) => Some(Lt)
    case Punct(LeSign) => Some(Le)
    case Punct(GtSign) => Some(Gt)
    case Punct(GeSign) => Some(Ge)
    case Punct(Plus) => Some(Add)
    case Punct(Minus) => Some(Sub)
    case Punct(Star) => Some(Mul)
    case Punct(Slash) => Some(Div)
    case _ => None
  }

  /** The operator, if it is one of this level. */
  function OpAt(level: nat, t: Token): Option<BinOp> {
    var op := OpOf(t);
    if op.Some? && LevelOf(op.value) == level then op else None
  }

  datatype Parsed = Parsed(e: Expr, pos: nat)

  /** A single-token literal. */
  function LiteralToken(t: Token): Option<Literal> {
    match t
    case Number(v) => v
    case Str(s) => Some(StringL(s))
    case Keyword(NullWord) => Some(NullL)
    case Keyword(TrueWord) => Some(BoolL(true))
    case Keyword(FalseWord) => Some(BoolL(false))
    case _ => None
  }

  /** What the parser reads at a level from position p, and where it stops. */
  function Parse(level: nat, ts: seq<Token>, p: nat): (r: Option<Parsed>)
    requires OR_LEVEL <= level <= PRIMARY_LEVEL && Tokens(ts) && p < |ts|
    ensures r.Some? ==> p < r.value.pos < |ts|
    decreases |ts| - p, PRIMARY_LEVEL + 1 - level
  {
    if Folds(level) then
      var l := Parse(level + 1, ts, p);
      if l.None? then None else Tail(level, ts, l.value.e, l.value.pos)
    else if level == NOT_LEVEL then
      if ts[p] == Keyword(NotWord) then
        var a := Parse(NOT_LEVEL, ts, p + 1);
        if a.None? then None else Some(Parsed(Unary(Not, a.value.e), a.value.pos))
      else Parse(COMPARE_LEVEL, ts, p)
    else if level == COMPARE_LEVEL then
      var l := Parse(ADD_LEVEL, ts, p);
      if l.None? then None
      else if OpAt(COMPARE_LEVEL, ts[l.value.pos]).None? then l
      else
        var r := Parse(ADD_LEVEL, ts, l.value.pos + 1);
        if r.None? then None
        else Some(Parsed(Binary(OpAt(COMPARE_LEVEL, ts[l.value.pos]).value, l.value.e, r.value.e), r.value.pos))
    else if level == NEG_LEVEL then
      if ts[p] == Punct(Minus) then
        var a := Parse(NEG_LEVEL, ts, p + 1);
        if a.None? then None else Some(Parsed(Unary(Neg, a.value.e), a.value.pos))
      else Parse(PRIMARY_LEVEL, ts, p)
    else Primary(ts, p)
  }

  /** The rest of a fold: more operators of the level, each with an operand of the next. */
  function Tail(level: nat, ts: seq<Token>, left: Expr, q: nat): (r: Option<Parsed>)
    requires Folds(level) && Tokens(ts) && q < |ts|
    ensures r.Some? ==> q <= r.value.pos < |ts|
    decreases |ts| - q, 0
  {
    var op := OpAt(level, ts[q]);
    if op.None? then Some(Parsed(left, q)) else
    var r := Parse(level + 1, ts, q + 1);
    if r.None? then None else Tail(level, ts, Binary(op.value, left, r.value.e), r.value.pos)
  }

  function Primary(ts: seq<Token>, p: nat): (r: Option<Parsed>)
    requires Tokens(ts) && p < |ts|
    ensures r.Some? ==> p < r.value.pos < |ts|
    decreases |ts| - p, 0
  {
    var t := ts[p];
    if t == Punct(LeftParen) then
      var a := Parse(OR_LEVEL, ts, p + 1);
      if a.None? || ts[a.value.pos] != Punct(RightParen) then None else Some(Parsed(a.value.e, a.value.pos + 1))
    else if t.Ident? then
      if ts[p + 1] != Punct(Dot) then Some(Parsed(Ref([], t.name), p + 1))
      else if ts[p + 2].Ident? then Some(Parsed(Ref(t.name, ts[p + 2].name), p + 3))
      else None
    else
      var l := LiteralToken(t);
      if l.None? then None else Some(Parsed(Lit(l.value), p + 1))
  }

  // ---- The two spellings of one operator -----------------------------------

  /** `<>` for `!=`, and every other token as it is. */
  function Respell(t: Token): Token { if t == Punct(BangEqSign) then Punct(NeSign) else t }

  function Respelled(ts: seq<Token>): (r: seq<Token>)
    ensures |r| == |ts| && forall i :: 0 <= i < |ts| ==> r[i] == Respell(ts[i])
  {
    seq(|ts|, i requires 0 <= i < |ts| => Respell(ts[i]))
  }

  /** Writing `<>` for every `!=` changes nothing that is read. */
  lemma {:induction false} RespelledParses(level: nat, ts: seq<Token>, p: nat)
    requires OR_LEVEL <= level <= PRIMARY_LEVEL && Tokens(ts) && p < |ts|
    ensures Tokens(Respelled(ts)) && Parse(level, Respelled(ts), p) == Parse(level, ts, p)
    decreases |ts| - p, PRIMARY_LEVEL + 1 - level, 1
  {
    if Folds(level) {
      RespelledParses(level + 1, ts, p);
      var l := Parse(level + 1, ts, p);
      if l.Some? {
        RespelledTail(level, ts, l.value.e, l.value.pos);
      }
    } else if level == NOT_LEVEL {
      if ts[p] == Keyword(NotWord) {
        RespelledParses(NOT_LEVEL, ts, p + 1);
      } else {
        RespelledParses(COMPARE_LEVEL, ts, p);
      }
    } else if level == COMPARE_LEVEL {
      RespelledComparison(ts, p);
    } else if level == NEG_LEVEL {
      if ts[p] == Punct(Minus) {
        RespelledParses(NEG_LEVEL, ts, p + 1);
      } else {
        RespelledParses(PRIMARY_LEVEL, ts, p);
      }
    } else {
      RespelledPrimary(ts, p);
    }
  }

  lemma {:induction false} RespelledComparison(ts: seq<Token>, p: nat)
    requires Tokens(ts) && p < |ts|
    ensures Tokens(Respelled(ts)) && Parse(COMPARE_LEVEL, Respelled(ts), p) == Parse(COMPARE_LEVEL, ts, p)
    decreases |ts| - p, PRIMARY_LEVEL + 1 - COMPARE_LEVEL, 0
  {
    RespelledParses(ADD_LEVEL, ts, p);
    var l := Parse(ADD_LEVEL, ts, p);
    if l.Some? && OpAt(COMPARE_LEVEL, ts[l.value.pos]).Some? {
      RespelledParses(ADD_LEVEL, ts, l.value.pos + 1);
    }
  }

  lemma {:induction false} RespelledTail(level: nat, ts: seq<Token>, left: Expr, q: nat)
    requires Folds(level) && Tokens(ts) && q < |ts|
    ensures Tokens(Respelled(ts)) && Tail(level, Respelled(ts), left, q) == Tail(level, ts, left, q)
    decreases |ts| - q, 0
  {
    var op := OpAt(level, ts[q]);
    assert OpAt(level, Respelled(ts)[q]) == op;
    if op.Some? {
      RespelledParses(level + 1, ts, q + 1);
      var r := Parse(level + 1, ts, q + 1);
      if r.Some? {
        RespelledTail(level, ts, Binary(op.value, left, r.value.e), r.value.pos);
      }
    }
  }

  lemma {:induction false} RespelledPrimary(ts: seq<Token>, p: nat)
    requires Tokens(ts) && p < |ts|
    ensures Tokens(Respelled(ts)) && Primary(Respelled(ts), p) == Primary(ts, p)
    decreases |ts| - p, 0
  {
    if ts[p] == Punct(LeftParen) {
      RespelledParses(OR_LEVEL, ts, p + 1);
    }
  }

  // ---- The parser as it runs -----------------------------------------------

  class Parser {
    const toks: seq<Token>
    var pos: nat

    ghost predicate Valid()
      reads this
    {
      Tokens(toks) && pos < |toks|
    }

    constructor (toks: seq<Token>)
      requires Tokens(toks)
      ensures Valid() && pos == 0 && this.toks == toks
    {
      this.toks, pos := toks, 0;
    }

    /** The method has read what the grammar says, from where it stood. */
    ghost predicate Read(level: nat, p: nat, e: Option<Expr>)
      requires OR_LEVEL <= level <= PRIMARY_LEVEL && Tokens(toks) && p < |toks|
      reads this
    {
      var r := Parse(level, toks, p);
      pos < |toks| && (e.Some? <==> r.Some?) && (e.Some? ==> r.value == Parsed(e.value, pos))
    }

    method Advance() returns (t: Token)
      requires Valid()
      modifies this
      ensures Valid() && t == toks[old(pos)] && pos == if old(pos) == |toks| - 1 then old(pos) else old(pos) + 1
    {
      t := toks[pos];
      if pos < |toks| - 1 {
        pos := pos + 1;
      }
    }

    method ParseExpr() returns (e: Option<Expr>)
      requires Valid()
      modifies this
      ensures Read(OR_LEVEL, old(pos), e)
      decreases |toks| - pos, 9
    {
      e := ParseOr();
    }

    method ParseOr() returns (e: Option<Expr>)
      requires Valid()
      modifies this
      ensures Read(OR_LEVEL, old(pos), e)
      decreases |toks| - pos, 8
    {
      e := ParseAnd();
      if e.None? {
        return;
      }
      while toks[pos] == Keyword(OrWord)
        invariant Valid() && e.Some? && pos > old(pos)
        invariant Tail(OR_LEVEL, toks, e.value, pos) == Parse(OR_LEVEL, toks, old(pos))
        decreases |toks| - pos
      {
        var left := e.value;
        var _ := Advance();
        e := ParseAnd();
        if e.None? {
          return;
        }
        e := Some(Binary(Or, left, e.value));
      }
    }

    method ParseAnd() returns (e: Option<Expr>)
      requires Valid()
      modifies this
      ensures Read(AND_LEVEL, old(pos), e)
      decreases |toks| - pos, 7
    {
      e := ParseNot();
      if e.None? {
        return;
      }
      while toks[pos] == Keyword(AndWord)
        invariant Valid() && e.Some? && pos > old(pos)
        invariant Tail(AND_LEVEL, toks, e.value, pos) == Parse(AND_LEVEL, toks, old(pos))
        decreases |toks| - pos
      {
        var left := e.value;
        var _ := Advance();
        e := ParseNot();
        if e.None? {
          return;
        }
        e := Some(Binary(And, left, e.value));
      }
    }

    method ParseNot() returns (e: Option<Expr>)
      requires Valid()
      modifies this
      ensures Read(NOT_LEVEL, old(pos), e)
      decreases |toks| - pos, 6
    {
      if toks[pos] == Keyword(NotWord) {
        var _ := Advance();
        e := ParseNot();
        if e.Some? {
          e := Some(Unary(Not, e.value));
        }
        return;
      }
      e := ParseComparison();
    }

    method ParseComparison() returns (e: Option<Expr>)
      requires Valid()
      modifies this
      ensures Read(COMPARE_LEVEL, old(pos), e)
      decreases |toks| - pos, 5
    {
      e := ParseAdditive();
      if e.None? {
        return;
      }
      var op := OpAt(COMPARE_LEVEL, toks[pos]);
      if op.Some? {
        var left := e.value;
        var _ := Advance();
        e := ParseAdditive();
        if e.Some? {
          e := Some(Binary(op.value, left, e.value));
        }
      }
    }

    method ParseAdditive() returns (e: Option<Expr>)
      requires Valid()
      modifies this
      ensures Read(ADD_LEVEL, old(pos), e)
      decreases |toks| - pos, 4
    {
      e := ParseMultiplicative();
      if e.None? {
        return;
      }
      while toks[pos] == Punct(Plus) || toks[pos] == Punct(Minus)
        invariant Valid() && e.Some? && pos > old(pos)
        invariant Tail(ADD_LEVEL, toks, e.value, pos) == Parse(ADD_LEVEL, toks, old(pos))
        decreases |toks| - pos
      {
        var left := e.value;
        var t := Advance();
        e := ParseMultiplicative();
        if e.None? {
          return;
        }
        e := Some(Binary(if t == Punct(Plus) then Add else Sub, left, e.value));
      }
    }

    method ParseMultiplicative() returns (e: Option<Expr>)
      requires Valid()
      modifies this
      ensures Read(MUL_LEVEL, old(pos), e)
      decreases |toks| - pos, 3
    {
      e := ParseUnary();
      if e.None? {
        return;
      }
      while toks[pos] == Punct(Star) || toks[pos] == Punct(Slash)
        invariant Valid() && e.Some? && pos > old(pos)
        invariant Tail(MUL_LEVEL, toks, e.value, pos) == Parse(MUL_LEVEL, toks, old(pos))
        decreases |toks| - pos
      {
        var left := e.value;
        var t := Advance();
        e := ParseUnary();
        if e.None? {
          return;
        }
        e := Some(Binary(if t == Punct(Star) then Mul else Div, left, e.value));
      }
    }

    method ParseUnary() returns (e: Option<Expr>)
      requires Valid()
      modifies this
      ensures Read(NEG_LEVEL, old(pos), e)
      decreases |toks| - pos, 2
    {
      if toks[pos] == Punct(Minus) {
        var _ := Advance();
        e := ParseUnary();
        if e.Some? {
          e := Some(Unary(Neg, e.value));
        }
        return;
      }
      e := ParsePrimary();
    }

    method ParsePrimary() returns (e: Option<Expr>)
      requires Valid()
      modifies this
      ensures Read(PRIMARY_LEVEL, old(pos), e)
      decreases |toks| - pos, 1
    {
      var t := toks[pos];
      if t == Punct(LeftParen) {
        var _ := Advance();
        e := ParseExpr();
        if e.Some? {
          if toks[pos] != Punct(RightParen) {
            return None;
          }
          var _ := Advance();
        }
      } else if t.Ident? {
        var _ := Advance();
        if toks[pos] != Punct(Dot) {
          return Some(Ref([], t.name));
        }
        var _ := Advance();
        if !toks[pos].Ident? {
          return None;
        }
        var col := Advance();
        e := Some(Ref(t.name, col.name));
      } else {
        var l := LiteralToken(t);
        if l.None? {
          return None;
        }
        var _ := Advance();
        e := Some(Lit(l.value));
      }
    }
  }
}
