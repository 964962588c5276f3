/**
 * The JSONDoc object: the package it documents, the output buffer, the set
 * of type names already rendered and the render queue, with the methods the
 * `input` and `output` template functions run.
 */
module JsonDoc {
  import opened Basics
  import opened Strings
  import opened Ast
  import opened Tags
  import opened Render
  import opened Queue
  import opened Document

  class Doc {
    const pkg: Package
    var b: seq<Record>
    var rendered: set<string>
    var renderQueue: seq<TypeSpec>
    ghost var enqueued: seq<string>

    ghost function St(): State
      reads this
    {
      State(rendered, renderQueue, enqueued)
    }

    /** No declaration has been queued twice over the object's whole life. */
    ghost predicate Valid()
      reads this
    {
      Inv(St())
    }

    constructor (pkg: Package)
      ensures Valid() && this.pkg == pkg
      ensures b == [] && rendered == {} && renderQueue == [] && enqueued == []
    {
      this.pkg := pkg;
      b, rendered, renderQueue := [], {}, [];
      enqueued := [];
    }

    /** findObject: the object bound to `name` in the first file that binds it. */
    method FindObject(name: string) returns (o: Option<Obj>)
      ensures o == Lookup(pkg, name)
    {
      var i := 0;
      while i < |pkg|
        invariant 0 <= i <= |pkg|
        invariant Lookup(pkg, name) == Lookup(pkg[i..], name)
      {
        if name in pkg[i] {
          return Some(pkg[i][name]);
        }
        assert pkg[i..][1..] == pkg[i + 1..];
        i := i + 1;
      }
      return None;
    }

    method RenderLater(name: string, t: Option<Expr>)
      requires Valid()
      modifies this
      ensures Valid() && b == old(b)
      ensures St() == Later(pkg, old(St()), Call(name, t))
    {
      if t.Some? {
        renderQueue := renderQueue + [TypeSpec(name, t.value)];
      }
      if name in rendered {
        return;
      }
      var o := FindObject(name);
      if o.Some? && o.value.TypeDecl? {
        renderQueue := renderQueue + [TypeSpec(name, o.value.typ)];
        rendered := rendered + {name};
        enqueued := enqueued + [name];
      }
    }

    method TypeString(t: Expr, name: string) returns (s: string)
      requires Valid()
      modifies this
      ensures Valid() && b == old(b)
      ensures s == TypeText(t, name)
      ensures St() == ApplyAll(pkg, old(St()), Calls(t, name))
      decreases t
    {
      match t
      case ArrayT(elt) =>
        var n := name;
        if !HasSuffix(name, ElementSuffix) {
          n := name + ElementSuffix;
        }
        var inner := TypeString(elt, n);
        s := "array of " + inner;
      case Ident(id) =>
        RenderLater(id, None);
        assert [Call(id, None)][..0] == [];
        s := id;
      case StructT(_, _) =>
        var later := if HasSuffix(name, ElementSuffix) then name else "of " + name;
        RenderLater(later, Some(t));
        assert [Call(later, Some(t))][..0] == [];
        if HasSuffix(name, ElementSuffix) {
          s := name;
        } else {
          s := "type of " + name;
        }
      case Other(text) =>
        s := text;
    }

    method RenderType(ts: TypeSpec) returns (err: Option<Error>)
      requires Valid()
      modifies this
      ensures Valid()
      ensures St() == ApplyAll(pkg, old(St()), DescribeType(ts.typ).calls)
      ensures err.None? <==> DescribeType(ts.typ).err.None?
      ensures err.Some? ==> err == Some(BadTag)
      ensures b == old(b) + TableOf(ts.typ)
    {
      if !ts.typ.StructT? {
        return None;
      }
      var fs := ts.typ.fields;
      var rows: seq<Row> := [];
      ghost var calls: seq<Call> := [];
      for i := 0 to |fs|
        invariant Valid() && b == old(b)
        invariant Describe(Entries(fs[..i])) == Described(rows, calls, None)
        invariant St() == ApplyAll(pkg, old(St()), calls)
      {
        var f := fs[i];
        EntriesUpToStart(fs, i);
        for j := 0 to |f.names|
          invariant Valid() && b == old(b)
          invariant Describe(EntriesUpTo(fs, i, j)) == Described(rows, calls, None)
          invariant St() == ApplyAll(pkg, old(St()), calls)
        {
          EntriesUpToStep(fs, i, j);
          var key := TagToName(f.names[j], f.tag);
          if key.Err? {
            if key.error == NotExported {
              continue;
            }
            StopsEarly(fs, i, j);
            return Some(BadTag);
          }
          var text := TypeString(f.typ, key.value);
          ApplyAllConcat(pkg, old(St()), calls, Calls(f.typ, key.value));
          rows := rows + [Row(key.value, text, f.comment)];
          calls := calls + Calls(f.typ, key.value);
        }
        EntriesUpToEnd(fs, i);
      }
      assert fs[..|fs|] == fs;
      b := b + [Table(rows)];
      return None;
    }

    /**
     * renderTypeByName: the object the name is bound to must exist and be a
     * type; its declaration is then rendered directly, not through the queue.
     */
    method RenderTypeByName(name: string) returns (err: Option<Error>)
      requires Valid()
      modifies this
      ensures Valid()
      ensures var o := RenderRoot(pkg, old(St()), name);
        St() == o.st && b == old(b) + o.records && err == o.err
    {
      var o := FindObject(name);
      if o.None? {
        return Some(TypeNotFound(name));
      }
      if !o.value.TypeDecl? {
        return Some(NotAType(name));
      }
      err := RenderType(TypeSpec(name, o.value.typ));
    }

    /**
     * renderTypes: render the named root, then drain the queue. On success
     * the queue is left empty; on an error it is left as it was at the failure.
     */
    method RenderTypes(name: string) returns (err: Option<Error>)
      requires Valid()
      modifies this
      ensures Valid()
      ensures var o := RenderAll(pkg, old(St()), name);
        St() == o.st && b == old(b) + o.records && err == o.err
    {
      ghost var root := RenderRoot(pkg, old(St()), name);
      err := RenderTypeByName(name);
      if err.Some? {
        return;
      }
      err := Drain();
      ghost var rest := DrainFrom(pkg, root.st, 0);
      assert old(b) + root.records + rest.records == old(b) + Prepend(root.records, rest).records;
    }

    /**
     * The loop of renderTypes: the queue is walked by index in FIFO order
     * while rendering its items appends further ones, and at the end it is
     * truncated to empty. It terminates because each step either marks a
     * new declared name rendered, or replaces the current item by anonymous
     * structs of smaller total weight.
     */
    method Drain() returns (err: Option<Error>)
      requires Valid()
      modifies this
      ensures Valid()
      ensures var o := DrainFrom(pkg, old(St()), 0);
        err == o.err && b == old(b) + o.records &&
        St() == if err.None? then o.st.(queue := []) else o.st
    {
      err := None;
      ghost var total := DrainFrom(pkg, St(), 0);
      var i := 0;
      while i < |renderQueue|
        invariant Valid() && i <= |renderQueue| && err.None?
        invariant Prepend(old(b), total) == Prepend(b, DrainFrom(pkg, St(), i))
        decreases AllNames(pkg) - rendered, Weight(renderQueue[i..]), |renderQueue| - i
      {
        ghost var b0 := b;
        ghost var sec: seq<Record>;
        err, sec := RenderQueued(i);
        if err.Some? {
          assert sec + [] == sec;
          PrependTwice(b0, sec, Outcome(St(), [], err));
          return;
        }
        PrependTwice(b0, sec, DrainFrom(pkg, St(), i + 1));
        i := i + 1;
      }
      assert b + [] == b;
      renderQueue := [];
    }

    /**
     * The body of that loop, one step of `DrainFrom`: it appends `sec`, a
     * "Type" heading for the item at `i` followed by what renderType writes
     * for it, and either stops with its error or leaves a state from which
     * the rest of the loop continues at `i + 1`.
     */
    method RenderQueued(i: nat) returns (err: Option<Error>, ghost sec: seq<Record>)
      requires Valid() && i < |renderQueue|
      modifies this
      ensures Valid()
      ensures b == old(b) + sec
      ensures old(renderQueue) <= renderQueue
      ensures DrainFrom(pkg, old(St()), i) ==
          if err.Some? then Outcome(St(), sec, err) else Prepend(sec, DrainFrom(pkg, St(), i + 1))
      ensures AllNames(pkg) - rendered < AllNames(pkg) - old(rendered) ||
        (rendered == old(rendered) && Weight(renderQueue[i + 1..]) <= Weight(old(renderQueue)[i..]) &&
         (Weight(renderQueue[i + 1..]) == Weight(old(renderQueue)[i..]) ==> renderQueue == old(renderQueue)))
    {
      var t := renderQueue[i];
      b := b + [TypeHeading(t.name)];
      err := RenderType(t);
      sec := Section(t);
      DrainStep(pkg, old(St()), i, St());
      DrainFromStep(pkg, old(St()), i);
    }

    /**
     * input: reset the buffer to the "Input" heading, mark the root name
     * rendered so it is never queued, render it and its queue, close the div.
     */
    method Input(name: string) returns (r: Result<seq<Record>, Error>)
      requires Valid()
      modifies this
      ensures Valid()
      ensures var o := Page(pkg, old(St()), InputHeading(name), name);
        St() == o.st && b == o.records && r == if o.err.None? then Ok(b) else Err(o.err.value)
    {
      b := [InputHeading(name)];
      rendered := rendered + {name};
      var err := RenderTypes(name);
      if err.Some? {
        return Err(err.value);
      }
      b := b + [EndDiv];
      return Ok(b);
    }

    /** output: as input, under an "Output" heading. */
    method Output(name: string) returns (r: Result<seq<Record>, Error>)
      requires Valid()
      modifies this
      ensures Valid()
      ensures var o := Page(pkg, old(St()), OutputHeading(name), name);
        St() == o.st && b == o.records && r == if o.err.None? then Ok(b) else Err(o.err.value)
    {
      b := [OutputHeading(name)];
      rendered := rendered + {name};
      var err := RenderTypes(name);
      if err.Some? {
        return Err(err.value);
      }
      b := b + [EndDiv];
      return Ok(b);
    }
  }
}
