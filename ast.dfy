/** The part of a Babel syntax tree the converter looks at: a module's
    top-level statements, import declarations, variable declarators, function
    declarations, expressions and JSX elements. Node kinds the converter never
    distinguishes are folded into the opaque `Compound`/`OtherStmt` variants,
    which keep their sub-expressions and nested statements in source order so
    that a traversal still reaches everything inside them. */
module Ast {
  import opened Wrappers
  import opened Numbers

  /** Why a conversion run stops: the places where the converter's code reads
      a field of a node that is not there and throws. */
  datatype ConvertError =
    | ClassNameNotString        // `className` without a string value: `attr.value.value.split`
    | SvgWithoutSpecifier       // an `.svg` import with no binding: `specifiers[0].local`
    | AnonymousFunction         // a function declaration without a name: `node.id.name`

  /** Expression kinds that differ only in how style values are classified. */
  datatype CompoundKind = Template | Binary | Conditional | Logical | Unary | OtherKind

  datatype Expr =
    | Ident(name: string)
    | StrLit(text: string)
    | NumLit(num: Number)
    | NullLit
    | Member(obj: Expr, property: Expr, computed: bool)
    | Call(callee: Expr, args: seq<Expr>)
    | ObjectExpr(props: seq<Prop>)
    | ArrayExpr(elems: seq<Expr>)
    | Arrow(params: seq<Pattern>, result: Expr)                // `(..) => expr`
    | Function(arrow: bool, params: seq<Pattern>, body: seq<Stmt>) // block-bodied
    | Compound(kind: CompoundKind, operands: seq<Expr>)
    | Jsx(element: Element)
    | Fragment(children: seq<Child>)                           // `<>...</>`
    | FontTable                                                // the object literal given to `useFonts`

  /** An object-literal member: `key: value` (or `[key]: value`), or `...argument`. */
  datatype Prop =
    | Property(key: Expr, computed: bool, value: Expr)
    | SpreadProp(argument: Expr)

  datatype Pattern =
    | PIdent(name: string)
    | PArray(elements: seq<Pattern>)
    | PObject(props: seq<PatternProp>)

  datatype PatternProp = PatternProp(key: string, value: Pattern)

  /** `<name attributes>children</closing>`; `closing` is None for `<name/>`. */
  datatype Element = Element(name: JsxName, attributes: seq<Attr>, children: seq<Child>, closing: Option<JsxName>)

  datatype JsxName = JsxIdent(id: string) | JsxMember(obj: string, property: string)

  datatype Attr =
    | JsxAttr(name: string, value: AttrValue)
    | JsxSpread(argument: Expr)

  datatype AttrValue = NoValue | StrValue(text: string) | ExprValue(expr: Expr)

  datatype Child =
    | Text(text: string)
    | Container(expr: Expr)
    | ChildElement(element: Element)
    | ChildFragment(children: seq<Child>)

  datatype Specifier =
    | DefaultSpec(local: string)
    | NamespaceSpec(local: string)
    | NamedSpec(local: string, imported: string)

  datatype DeclKind = Const | Let | Var

  datatype ExportKind = NotExported | NamedExport | DefaultExport

  datatype Declarator = Declarator(id: Pattern, init: Option<Expr>)

  datatype Stmt =
    | Import(source: string, specifiers: seq<Specifier>)
    | VarDecl(kind: DeclKind, declarations: seq<Declarator>, exported: bool)
    | FuncDecl(id: Option<string>, params: seq<Pattern>, body: seq<Stmt>, exportKind: ExportKind)
    | ExprStmt(expr: Expr)
    | Return(argument: Option<Expr>)
    | ExportDefaultExpr(expr: Expr)
    | OtherStmt(exprs: seq<Expr>, stmts: seq<Stmt>)   // if, loops, blocks, classes, try: opaque
    | TypeDecl(name: string)                          // a TypeScript interface or type, opaque

  /** `const name = init;` */
  function ConstDecl(name: string, init: Expr): Stmt {
    VarDecl(Const, [Declarator(PIdent(name), Some(init))], false)
  }

  /** `obj.property` with an identifier property. */
  function Dot(obj: string, property: string): Expr {
    Member(Ident(obj), Ident(property), false)
  }

  /** `import { name } from source` with the same local and imported name. */
  function Named(name: string): Specifier {
    NamedSpec(name, name)
  }
}
