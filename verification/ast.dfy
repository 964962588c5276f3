/**
 * The part of a Go package's syntax tree the renderer looks at: type
 * expressions, struct fields with their tags and comments, and the
 * package-level scopes of the package's files.
 */
module Ast {
  import opened Basics

  /**
   * A field tag as the renderer sees it after unquoting the tag literal and
   * looking up its `json` key: no tag at all, a literal that does not
   * unquote, or the value of the `json` key ("" when the key is absent).
   */
  datatype Tag = NoTag | Malformed | Tag(json: string)

  /**
   * A type expression. `StructT` carries an identity `id` standing for the
   * node's position in the tree: two structurally equal anonymous structs at
   * different sites are different nodes. `Other` covers map, pointer and
   * selector expressions, kept only as the text they print as.
   */
  datatype Expr =
    | Ident(name: string)
    | ArrayT(elt: Expr)
    | StructT(id: nat, fields: seq<Field>)
    | Other(text: string)

  /**
   * One line of a struct's field list: zero names for an embedded field,
   * several for `A, B int`; `comment` is the trimmed trailing comment.
   */
  datatype Field = Field(names: seq<string>, tag: Tag, comment: string, typ: Expr)

  /** A named type: a declared one, or one the renderer makes up for an anonymous struct. */
  datatype TypeSpec = TypeSpec(name: string, typ: Expr)

  /** What a file scope binds a name to. */
  datatype Obj = TypeDecl(typ: Expr) | NonType

  type File = map<string, Obj>

  /** The parsed files, in the order in which they are searched. */
  type Package = seq<File>

  /**
   * The object bound to `name` in the first file whose scope binds it, if
   * any file does.
   */
  function Lookup(files: Package, name: string): (o: Option<Obj>)
    ensures o.Some? <==> exists i :: 0 <= i < |files| && name in files[i]
    ensures o.Some? ==> exists i :: 0 <= i < |files| && name in files[i] && files[i][name] == o.value
  {
    if |files| == 0 then None
    else if name in files[0] then Some(files[0][name])
    else
      var o := Lookup(files[1..], name);
      assert forall i :: 1 <= i < |files| ==> files[i] == files[1..][i - 1];
      o
  }

  /** Every name bound in some file of the package. */
  function AllNames(files: Package): (names: set<string>)
    ensures forall i, n :: 0 <= i < |files| && n in files[i] ==> n in names
    ensures forall n :: n in names ==> Lookup(files, n).Some?
  {
    set i, n | 0 <= i < |files| && n in files[i] :: n
  }

  /**
   * The weight of anonymous-struct work an expression can generate: an
   * anonymous struct counts one for itself plus, for each field, its weight
   * once per name the field declares. Arrays weigh what their elements do.
   */
  function Size(e: Expr): nat
    decreases e
  {
    match e
    case ArrayT(elt) => Size(elt)
    case StructT(_, fs) => 1 + FieldsSize(fs)
    case _ => 0
  }

  function FieldsSize(fs: seq<Field>): nat
    decreases fs
  {
    if fs == [] then 0
    else FieldsSize(fs[..|fs| - 1]) + |fs[|fs| - 1].names| * Size(fs[|fs| - 1].typ)
  }
}
