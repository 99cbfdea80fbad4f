/** The parts of a parsed Go file the rewriter looks at, as the parser hands
    them over. Positions are `go/token` positions of a file added first to a
    fresh file set, whose base is 1: byte offset `k` has position `k + 1`. */
module Ast {
  import opened Bytes

  /** One `//` or `/* */` comment: its position, the position just past it,
      and its text including the comment markers. */
  datatype Comment = Comment(pos: int, end: int, text: seq<byte>)

  /** Expressions, down to the detail placeholder recognition needs. */
  datatype Expr =
    | Call(pos: int, end: int, fun: Expr, args: seq<Expr>)
    | Selector(x: Expr, sel: seq<byte>)
    | Ident(name: seq<byte>)
    | BasicLit(value: seq<byte>)
    | OtherExpr

  /** A spec of a general declaration: `var`/`const` specs carry their
      initializers; import and type specs carry nothing of interest. */
  datatype Spec = ValueSpec(values: seq<Expr>) | OtherSpec

  /** A top-level declaration: `import`/`const`/`type`/`var`, or a function. */
  datatype Decl = GenDecl(specs: seq<Spec>) | FuncDecl

  /** Every comment of the file in source order, and its top-level declarations. */
  datatype File = File(comments: seq<Comment>, decls: seq<Decl>)
}
