/**
 * What describing a type produces, independently of the render queue: the
 * text typeString returns, the renderLater calls it makes, and the rows of
 * a struct's table together with the calls made while building them.
 */
module Render {
  import opened Basics
  import opened Strings
  import opened Ast
  import opened Tags

  const ElementSuffix: string := "-element"

  /** A call to renderLater: a name, and the anonymous struct to queue under it, if any. */
  datatype Call = Call(name: string, anon: Option<Expr>)

  /** One row of a JSON table: key, value type, description. */
  datatype Row = Row(key: string, typ: string, description: string)

  /** The name an array's element is described under: `-element` is added unless already there. */
  function ElementName(name: string): string {
    if HasSuffix(name, ElementSuffix) then name else name + ElementSuffix
  }

  /** The element suffix is added exactly once: the result ends with it and adding it again changes nothing. */
  lemma ElementNameOnce(name: string)
    ensures HasSuffix(ElementName(name), ElementSuffix)
    ensures ElementName(ElementName(name)) == ElementName(name)
    ensures !HasSuffix(name, ElementSuffix) ==> ElementName(name) == name + ElementSuffix
  {
    var e := name + ElementSuffix;
    assert e[|e| - |ElementSuffix|..] == ElementSuffix;
  }

  /** The value-type text typeString returns for `t` in a row keyed `name`. */
  function TypeText(t: Expr, name: string): string {
    match t
    case ArrayT(elt) => "array of " + TypeText(elt, ElementName(name))
    case Ident(n) => n
    case StructT(_, _) => if HasSuffix(name, ElementSuffix) then name else "type of " + name
    case Other(text) => text
  }

  /** The renderLater calls typeString makes for `t` under `name`: at most one, for the innermost element. */
  function Calls(t: Expr, name: string): (cs: seq<Call>)
    ensures |cs| <= 1
  {
    match t
    case ArrayT(elt) => Calls(elt, ElementName(name))
    case Ident(n) => [Call(n, None)]
    case StructT(_, _) => [Call(if HasSuffix(name, ElementSuffix) then name else "of " + name, Some(t))]
    case Other(_) => []
  }

  /** `t` wrapped in `n` array types. */
  function Nest(n: nat, t: Expr): Expr {
    if n == 0 then t else ArrayT(Nest(n - 1, t))
  }

  function Repeat(s: string, n: nat): string {
    if n == 0 then "" else s + Repeat(s, n - 1)
  }

  /**
   * Under one or more array levels the text gains one "array of " per level
   * and the element is described under the name with `-element` added once.
   */
  lemma {:induction false} NestedArrays(n: nat, t: Expr, name: string)
    requires n >= 1
    ensures TypeText(Nest(n, t), name) == Repeat("array of ", n) + TypeText(t, ElementName(name))
    ensures Calls(Nest(n, t), name) == Calls(t, ElementName(name))
  {
    if n > 1 {
      NestedArrays(n - 1, t, ElementName(name));
      ElementNameOnce(name);
    }
  }

  /** An identifier, however deeply nested in arrays, is shown as its own text and looked up by it. */
  lemma {:induction false} ArrayOfIdent(n: nat, id: string, name: string)
    ensures TypeText(Nest(n, Ident(id)), name) == Repeat("array of ", n) + id
    ensures Calls(Nest(n, Ident(id)), name) == [Call(id, None)]
  {
    if n >= 1 {
      NestedArrays(n, Ident(id), name);
    }
  }

  /**
   * An anonymous struct under arrays is shown as, and queued under, the
   * element name; a field's own anonymous struct is queued as `of <name>`
   * and shown as `type of <name>`. Either way it is queued unconditionally.
   */
  lemma {:induction false} AnonymousStruct(n: nat, id: nat, fs: seq<Field>, name: string)
    requires !HasSuffix(name, ElementSuffix)
    ensures n == 0 ==>
      TypeText(Nest(n, StructT(id, fs)), name) == "type of " + name &&
      Calls(Nest(n, StructT(id, fs)), name) == [Call("of " + name, Some(StructT(id, fs)))]
    ensures n >= 1 ==>
      TypeText(Nest(n, StructT(id, fs)), name) == Repeat("array of ", n) + name + ElementSuffix &&
      Calls(Nest(n, StructT(id, fs)), name) == [Call(name + ElementSuffix, Some(StructT(id, fs)))]
  {
    if n >= 1 {
      NestedArrays(n, StructT(id, fs), name);
      ElementNameOnce(name);
    }
  }

  /**
   * The keys rows are listed under never end in `-element` (they end in a
   * quote or in the optional marker), so every field with an anonymous
   * struct type meets the precondition of `AnonymousStruct`.
   */
  lemma DisplayNoElementSuffix(k: Key)
    ensures !HasSuffix(Display(k), ElementSuffix)
  {
    var d := Display(k);
    assert d[|d| - 1] == '"' || d[|d| - 1] == ')';
    if |ElementSuffix| <= |d| {
      assert d[|d| - |ElementSuffix|..][|ElementSuffix| - 1] == d[|d| - 1];
    }
  }

  /** A field identifier together with the field line that declares it. */
  datatype Entry = Entry(name: string, field: Field)

  function NameEntries(f: Field, names: seq<string>): (es: seq<Entry>)
    ensures |es| == |names|
    ensures forall k :: 0 <= k < |names| ==> es[k] == Entry(names[k], f)
  {
    seq(|names|, k requires 0 <= k < |names| => Entry(names[k], f))
  }

  /** The identifiers of a field list in declaration order; embedded fields contribute none. */
  function Entries(fs: seq<Field>): seq<Entry> {
    if fs == [] then []
    else Entries(fs[..|fs| - 1]) + NameEntries(fs[|fs| - 1], fs[|fs| - 1].names)
  }

  /** The identifiers of consecutive field lines are listed one after the other. */
  lemma {:induction false} EntriesConcat(a: seq<Field>, b: seq<Field>)
    ensures Entries(a + b) == Entries(a) + Entries(b)
  {
    if b == [] {
      assert a + b == a;
    } else {
      var init, last := b[..|b| - 1], b[|b| - 1];
      EntriesConcat(a, init);
      assert (a + b)[..|a + b| - 1] == a + init && (a + b)[|a + b| - 1] == last;
      calc {
        Entries(a + b);
        Entries(a + init) + NameEntries(last, last.names);
        Entries(a) + Entries(init) + NameEntries(last, last.names);
        Entries(a) + (Entries(init) + NameEntries(last, last.names));
      }
    }
  }

  /** An embedded field line declares no identifier, so it contributes nothing wherever it stands. */
  lemma EmbeddedField(a: seq<Field>, f: Field, b: seq<Field>)
    requires f.names == []
    ensures Entries(a + [f] + b) == Entries(a + b)
  {
    EntriesConcat(a + [f], b);
    EntriesConcat(a, [f]);
    EntriesConcat(a, b);
    assert [f][..0] == [];
  }

  /** The rows built so far, the calls made so far, and the error that stopped the loop, if one did. */
  datatype Described = Described(rows: seq<Row>, calls: seq<Call>, err: Option<TagError>)

  /**
   * renderType's loop over the identifiers of a struct: hidden identifiers
   * are skipped, any other tag error stops the loop, every other identifier
   * gets a row and the calls of describing its type.
   */
  function Describe(es: seq<Entry>): Described {
    if es == [] then Described([], [], None)
    else
      var d := Describe(es[..|es| - 1]);
      if d.err.Some? then d else Step(d, es[|es| - 1])
  }

  /** One iteration of the loop, for identifier `e`, after the rows and calls in `d`. */
  function Step(d: Described, e: Entry): Described {
    match FieldName(e.name, e.field.tag)
    case Err(NotExported) => d
    case Err(err) => d.(err := Some(err))
    case Ok(key) =>
      Described(d.rows + [Row(key, TypeText(e.field.typ, key), e.field.comment)],
                d.calls + Calls(e.field.typ, key), None)
  }

  /** The identifiers of fields `fs[..i]` and of the first `j` names of `fs[i]`. */
  function EntriesUpTo(fs: seq<Field>, i: nat, j: nat): seq<Entry>
    requires i < |fs| && j <= |fs[i].names|
  {
    Entries(fs[..i]) + NameEntries(fs[i], fs[i].names[..j])
  }

  lemma EntriesUpToStep(fs: seq<Field>, i: nat, j: nat)
    requires i < |fs| && j < |fs[i].names|
    ensures EntriesUpTo(fs, i, j + 1) == EntriesUpTo(fs, i, j) + [Entry(fs[i].names[j], fs[i])]
  {
  }

  lemma EntriesUpToStart(fs: seq<Field>, i: nat)
    requires i < |fs|
    ensures EntriesUpTo(fs, i, 0) == Entries(fs[..i])
  {
  }

  lemma EntriesUpToEnd(fs: seq<Field>, i: nat)
    requires i < |fs|
    ensures EntriesUpTo(fs, i, |fs[i].names|) == Entries(fs[..i + 1])
  {
    assert fs[..i + 1][..i] == fs[..i];
    assert fs[i].names[..|fs[i].names|] == fs[i].names;
  }

  lemma PrefixTransitive<T>(a: seq<T>, b: seq<T>, c: seq<T>)
    requires a <= b && b <= c
    ensures a <= c
  {
    assert c[..|a|] == b[..|a|];
  }

  /** The identifiers of a prefix of the fields are a prefix of the identifiers. */
  lemma {:induction false} EntriesPrefix(fs: seq<Field>, k: nat)
    requires k <= |fs|
    ensures Entries(fs[..k]) <= Entries(fs)
  {
    if k == |fs| {
      assert fs[..k] == fs;
    } else {
      var init := fs[..|fs| - 1];
      assert init[..k] == fs[..k];
      EntriesPrefix(init, k);
      PrefixTransitive(Entries(fs[..k]), Entries(init), Entries(fs));
    }
  }

  lemma UpToPrefix(fs: seq<Field>, i: nat, j: nat)
    requires i < |fs| && j <= |fs[i].names|
    ensures EntriesUpTo(fs, i, j) <= Entries(fs)
  {
    var f := fs[i];
    assert NameEntries(f, f.names[..j]) <= NameEntries(f, f.names);
    EntriesUpToEnd(fs, i);
    assert EntriesUpTo(fs, i, j) <= EntriesUpTo(fs, i, |f.names|);
    EntriesPrefix(fs, i + 1);
    PrefixTransitive(EntriesUpTo(fs, i, j), Entries(fs[..i + 1]), Entries(fs));
  }

  /** Stopping at an identifier of field `i` stops the description of the whole field list. */
  lemma StopsEarly(fs: seq<Field>, i: nat, j: nat)
    requires i < |fs| && j < |fs[i].names|
    requires Describe(EntriesUpTo(fs, i, j + 1)).err.Some?
    ensures Describe(Entries(fs)) == Describe(EntriesUpTo(fs, i, j + 1))
  {
    UpToPrefix(fs, i, j + 1);
    DescribeStops(EntriesUpTo(fs, i, j + 1), Entries(fs));
  }

  /** Once the loop has stopped on an error, later identifiers change nothing. */
  lemma {:induction false} DescribeStops(es: seq<Entry>, more: seq<Entry>)
    requires es <= more && Describe(es).err.Some?
    ensures Describe(more) == Describe(es)
  {
    if |more| > |es| {
      var init := more[..|more| - 1];
      assert es <= init;
      DescribeStops(es, init);
    } else {
      assert more == es;
    }
  }

  /** What renderType describes for a type: a struct's fields, nothing for any other type. */
  function DescribeType(t: Expr): Described {
    if t.StructT? then Describe(Entries(t.fields)) else Described([], [], None)
  }

  // An independent, front-to-back reading of the same loop.

  predicate BadTagAt(e: Entry) {
    FieldName(e.name, e.field.tag) == Err(BadTagLiteral)
  }

  function RowOf(e: Entry): seq<Row> {
    match FieldName(e.name, e.field.tag)
    case Ok(key) => [Row(key, TypeText(e.field.typ, key), e.field.comment)]
    case Err(_) => []
  }

  function CallsOf(e: Entry): seq<Call> {
    match FieldName(e.name, e.field.tag)
    case Ok(key) => Calls(e.field.typ, key)
    case Err(_) => []
  }

  /** One row per listed identifier, in order. */
  function AllRows(es: seq<Entry>): seq<Row> {
    if es == [] then [] else RowOf(es[0]) + AllRows(es[1..])
  }

  function AllCalls(es: seq<Entry>): seq<Call> {
    if es == [] then [] else CallsOf(es[0]) + AllCalls(es[1..])
  }

  lemma {:induction false} AllRowsSnoc(es: seq<Entry>, e: Entry)
    ensures AllRows(es + [e]) == AllRows(es) + RowOf(e)
    ensures AllCalls(es + [e]) == AllCalls(es) + CallsOf(e)
  {
    if es != [] {
      assert (es + [e])[1..] == es[1..] + [e];
      AllRowsSnoc(es[1..], e);
    }
  }

  /** One iteration agrees with the front-to-back reading of that identifier. */
  lemma StepFacts(d: Described, e: Entry)
    requires d.err.None?
    ensures Step(d, e).err.Some? <==> BadTagAt(e)
    ensures BadTagAt(e) ==> Step(d, e) == d.(err := Some(BadTagLiteral))
    ensures !BadTagAt(e) ==> Step(d, e) == Described(d.rows + RowOf(e), d.calls + CallsOf(e), None)
  {
    match FieldName(e.name, e.field.tag)
    case Ok(_) =>
    case Err(NotExported) => assert RowOf(e) == [] && CallsOf(e) == [];
    case Err(_) =>
  }

  /** The loop fails exactly when some identifier has a tag that is not a string literal. */
  lemma {:induction false} DescribeFailsIff(es: seq<Entry>)
    ensures Describe(es).err.None? <==> forall k :: 0 <= k < |es| ==> !BadTagAt(es[k])
  {
    if es != [] {
      var init := es[..|es| - 1];
      DescribeFailsIff(init);
      if Describe(init).err.None? {
        StepFacts(Describe(init), es[|es| - 1]);
      }
    }
  }

  /** Without a failure, the rows are one per listed identifier, in declaration order. */
  lemma {:induction false} DescribeRows(es: seq<Entry>)
    ensures Describe(es).err.None? ==>
      Describe(es).rows == AllRows(es) && Describe(es).calls == AllCalls(es)
  {
    if es != [] {
      var init, e := es[..|es| - 1], es[|es| - 1];
      assert es == init + [e];
      DescribeRows(init);
      AllRowsSnoc(init, e);
      if Describe(init).err.None? {
        StepFacts(Describe(init), e);
      }
    }
  }

  /** There is a first bad identifier before which `es` describes cleanly, with calls `calls`. */
  predicate FailsAt(es: seq<Entry>, k: int, calls: seq<Call>) {
    0 <= k < |es| && BadTagAt(es[k]) &&
    (forall j :: 0 <= j < k ==> !BadTagAt(es[j])) &&
    calls == AllCalls(es[..k])
  }

  /** A failure stops at the first bad identifier, keeping the calls made before it. */
  lemma {:induction false} DescribeStopsAtFirstBad(es: seq<Entry>)
    ensures Describe(es).err.Some? ==>
      Describe(es).err == Some(BadTagLiteral) && exists k :: FailsAt(es, k, Describe(es).calls)
  {
    if es != [] {
      var init := es[..|es| - 1];
      DescribeStopsAtFirstBad(init);
      if Describe(init).err.Some? {
        var k :| FailsAt(init, k, Describe(init).calls);
        FailsAtExtend(init, es, k, Describe(init).calls);
      } else if Describe(es).err.Some? {
        FailsAtLast(es);
      }
    }
  }

  lemma FailsAtExtend(es: seq<Entry>, more: seq<Entry>, k: int, calls: seq<Call>)
    requires FailsAt(es, k, calls) && es <= more
    ensures FailsAt(more, k, calls)
  {
    assert more[..k] == es[..k];
  }

  lemma FailsAtLast(es: seq<Entry>)
    requires es != [] && Describe(es[..|es| - 1]).err.None? && Describe(es).err.Some?
    ensures Describe(es).err == Some(BadTagLiteral) && FailsAt(es, |es| - 1, Describe(es).calls)
  {
    var init, e := es[..|es| - 1], es[|es| - 1];
    var d := Describe(init);
    assert Describe(es) == Step(d, e);
    StepFacts(d, e);
    assert BadTagAt(e) && Describe(es).calls == d.calls;
    DescribeFailsIff(init);
    DescribeRows(init);
    assert d.calls == AllCalls(init);
    assert forall j :: 0 <= j < |init| ==> !BadTagAt(es[j]) by {
      assert forall j :: 0 <= j < |init| ==> es[j] == init[j];
    }
  }

  // Weights: describing a struct queues less anonymous-struct weight than the struct has.

  function AnonWeight(cs: seq<Call>): nat {
    if cs == [] then 0
    else AnonWeight(cs[..|cs| - 1]) + (if cs[|cs| - 1].anon.Some? then Size(cs[|cs| - 1].anon.value) else 0)
  }

  lemma {:induction false} AnonWeightConcat(a: seq<Call>, b: seq<Call>)
    ensures AnonWeight(a + b) == AnonWeight(a) + AnonWeight(b)
  {
    if b != [] {
      assert (a + b)[..|a + b| - 1] == a + b[..|b| - 1];
      AnonWeightConcat(a, b[..|b| - 1]);
    } else {
      assert a + b == a;
    }
  }

  /** The anonymous struct typeString queues weighs what the whole expression does. */
  lemma {:induction false} CallsWeight(t: Expr, name: string)
    ensures AnonWeight(Calls(t, name)) == Size(t)
  {
    match t
    case ArrayT(elt) => CallsWeight(elt, ElementName(name));
    case StructT(_, _) =>
      var cs := Calls(t, name);
      assert cs[..0] == [];
    case Ident(_) =>
      var cs := Calls(t, name);
      assert cs[..0] == [];
    case Other(_) =>
  }

  function EntriesSize(es: seq<Entry>): nat {
    if es == [] then 0 else EntriesSize(es[..|es| - 1]) + Size(es[|es| - 1].field.typ)
  }

  lemma {:induction false} EntriesSizeConcat(a: seq<Entry>, b: seq<Entry>)
    ensures EntriesSize(a + b) == EntriesSize(a) + EntriesSize(b)
  {
    if b != [] {
      assert (a + b)[..|a + b| - 1] == a + b[..|b| - 1];
      EntriesSizeConcat(a, b[..|b| - 1]);
    } else {
      assert a + b == a;
    }
  }

  lemma {:induction false} NameEntriesSize(f: Field, names: seq<string>)
    ensures EntriesSize(NameEntries(f, names)) == |names| * Size(f.typ)
  {
    if names != [] {
      var init := names[..|names| - 1];
      assert NameEntries(f, names)[..|names| - 1] == NameEntries(f, init);
      NameEntriesSize(f, init);
      assert |names| * Size(f.typ) == |init| * Size(f.typ) + Size(f.typ);
    }
  }

  lemma {:induction false} EntriesSizeIsFieldsSize(fs: seq<Field>)
    ensures EntriesSize(Entries(fs)) == FieldsSize(fs)
  {
    if fs != [] {
      var last := fs[|fs| - 1];
      EntriesSizeIsFieldsSize(fs[..|fs| - 1]);
      EntriesSizeConcat(Entries(fs[..|fs| - 1]), NameEntries(last, last.names));
      NameEntriesSize(last, last.names);
    }
  }

  /** The calls the loop makes weigh at most what its identifiers' types do. */
  lemma {:induction false} DescribeWeight(es: seq<Entry>)
    ensures AnonWeight(Describe(es).calls) <= EntriesSize(es)
  {
    if es != [] {
      var init, e := es[..|es| - 1], es[|es| - 1];
      DescribeWeight(init);
      var d := Describe(init);
      if d.err.None? {
        match FieldName(e.name, e.field.tag)
        case Ok(key) =>
          AnonWeightConcat(d.calls, Calls(e.field.typ, key));
          CallsWeight(e.field.typ, key);
        case Err(_) =>
      }
    }
  }

  /** Describing a struct queues anonymous structs weighing strictly less than the struct itself. */
  lemma DescribeTypeWeight(t: Expr)
    ensures t.StructT? ==> AnonWeight(DescribeType(t).calls) < Size(t)
    ensures !t.StructT? ==> DescribeType(t) == Described([], [], None)
  {
    if t.StructT? {
      DescribeWeight(Entries(t.fields));
      EntriesSizeIsFieldsSize(t.fields);
    }
  }
}
