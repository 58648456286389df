/** Tokens and the syntax tree (parser/token/token.go, parser/ast/ast.go).
  * Spans and comments carry no meaning and are left out. */
module Syntax {
  import opened Wrappers

  /** Numbers keep their text; a string token carries its decoded value. */
  datatype Token =
    | EndOfFile
    | Word(text: string)
    | IntTok(text: string)
    | DecimalTok(text: string)
    | StringTok(value: string)
    | NullTok | TrueTok | FalseTok | In
    | LParen | RParen | LBrack | RBrack | LBrace | RBrace
    | Comma | Colon | Dot
    | Assign | Eq | Ne | Lt | Le | Gt | Ge | Match
    | And | Or | Not
    | Add | Sub | Mul | Div | Mod
    | Pipe | LTuple
  {
    predicate IsUnary() {
      Not? || Add? || Sub?
    }

    /** A binary operator's precedence, or zero for other tokens. */
    function Precedence(): nat {
      match this
      case Or => 1
      case And => 2
      case Eq => 3
      case Ne => 3
      case In => 3
      case Match => 3
      case Lt => 4
      case Le => 4
      case Gt => 4
      case Ge => 4
      case Add => 5
      case Sub => 5
      case Mul => 6
      case Div => 6
      case Mod => 6
      case _ => 0
    }

    predicate IsBinary() {
      Precedence() != 0
    }
  }

  /** Values, schemas and the expressions in their clauses.  A dotted name is the list of its components. */
  datatype Expr =
    | NullLit
    | BoolLit(b: bool)
    | IntLit(raw: string)
    | DecimalLit(raw: string)
    | StringLit(s: string)
    | ListLit(elems: seq<Expr>)
    | TupleLit(elems: seq<Expr>)
    | ObjectLit(entries: seq<Entry>)
    | Ident(parts: seq<string>)
    | Path(parts: seq<string>)
    | Call(dotted: bool, parts: seq<string>, args: seq<Expr>)
    | Group(inner: Expr)
    | Unary(op: Token, x: Expr)
    | Binary(left: Expr, op: Token, right: Expr)
    | Schema(typ: Expr, clauses: seq<Expr>)
    | Union(l: Expr, r: Expr)
    | Name(parts: seq<string>)
    | Require(expr: Expr)
    | Attr(name: string, value: Option<Expr>)

  datatype Entry = Entry(key: string, value: Expr)

  /** The elements of a literal list or tuple. */
  function ElementsOf(e: Expr): Option<seq<Expr>> {
    match e
    case ListLit(es) => Some(es)
    case TupleLit(es) => Some(es)
    case _ => None
  }

  /** An expression without the parentheses around it. */
  function Ungroup(e: Expr): (r: Expr)
    ensures !r.Group?
    ensures r == e || r < e
  {
    if e.Group? then Ungroup(e.inner) else e
  }
}
