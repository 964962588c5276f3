/**
 * What a call of the `input` or `output` template function writes and
 * leaves behind, as functions of the package and of the state before the
 * call: the root's table, then every queued type under its own heading,
 * drained in FIFO order while describing each one queues more.
 */
module Document {
  import opened Basics
  import opened Ast
  import opened Render
  import opened Queue

  /** What is written to the output buffer, in place of HTML text. */
  datatype Record =
    | InputHeading(name: string)
    | OutputHeading(name: string)
    | TypeHeading(name: string)
    | Table(rows: seq<Row>)
    | EndDiv

  datatype Error = TypeNotFound(name: string) | NotAType(name: string) | BadTag

  /** The state reached, the records written, and the error that stopped rendering, if one did. */
  datatype Outcome = Outcome(st: State, records: seq<Record>, err: Option<Error>)

  /** `o` with `recs` written before its own records. */
  function Prepend(recs: seq<Record>, o: Outcome): Outcome {
    o.(records := recs + o.records)
  }

  /** What renderType writes: the table of a struct whose identifiers all describe, and nothing otherwise. */
  function TableOf(t: Expr): seq<Record> {
    if t.StructT? && DescribeType(t).err.None? then [Table(DescribeType(t).rows)] else []
  }

  /** What the drain loop writes for one queued item: its "Type" heading, then its table. */
  function Section(t: TypeSpec): seq<Record> {
    [TypeHeading(t.name)] + TableOf(t.typ)
  }

  /**
   * The loop of renderTypes from index `i`: it stops at the end of the
   * queue, which may have grown since the loop started.
   */
  function DrainFrom(files: Package, st: State, i: nat): Outcome
    requires i <= |st.queue|
    decreases AllNames(files) - st.rendered, Weight(st.queue[i..]), |st.queue| - i, 1
  {
    if i == |st.queue| then Outcome(st, [], None) else Visit(files, st, i)
  }

  /**
   * The body of that loop for the item at `i`: its section is written and
   * its renderLater calls are made; a failure stops the loop, otherwise it
   * goes on with the queue as those calls left it.
   */
  function Visit(files: Package, st: State, i: nat): Outcome
    requires i < |st.queue|
    decreases AllNames(files) - st.rendered, Weight(st.queue[i..]), |st.queue| - i, 0
  {
    var t := st.queue[i];
    var d := DescribeType(t.typ);
    var r := ApplyAll(files, st, d.calls);
    DrainStep(files, st, i, r);
    if d.err.Some? then Outcome(r, Section(t), Some(BadTag))
    else Prepend(Section(t), DrainFrom(files, r, i + 1))
  }

  /** Unfolding the loop once: the item at `i`, then the rest of the queue as its calls left it. */
  lemma DrainFromStep(files: Package, st: State, i: nat)
    requires i < |st.queue|
    ensures var t := st.queue[i];
      var d := DescribeType(t.typ);
      var r := ApplyAll(files, st, d.calls);
      i + 1 <= |r.queue| &&
      DrainFrom(files, st, i) == Visit(files, st, i) &&
      Visit(files, st, i) ==
        if d.err.Some? then Outcome(r, Section(t), Some(BadTag)) else Prepend(Section(t), DrainFrom(files, r, i + 1))
  {
    var t := st.queue[i];
    DrainStep(files, st, i, ApplyAll(files, st, DescribeType(t.typ).calls));
  }

  /**
   * The same unfolding with the item's description left out: `r` is the
   * state its renderLater calls leave and `sec` the records written for it,
   * and the step keeps the queue's front and decreases the loop's measure.
   */
  lemma Unfold(files: Package, st: State, i: nat) returns (r: State, sec: seq<Record>, failed: bool)
    requires i < |st.queue|
    ensures i + 1 <= |r.queue| && st.queue <= r.queue && st.rendered <= r.rendered
    ensures (Inv(st) ==> Inv(r)) && QueuedOnlyUnrendered(st, r)
    ensures AllNames(files) - r.rendered < AllNames(files) - st.rendered ||
      (r.rendered == st.rendered && Weight(r.queue[i + 1..]) <= Weight(st.queue[i..]) &&
       (Weight(r.queue[i + 1..]) == Weight(st.queue[i..]) ==> r.queue == st.queue))
    ensures Headings(sec) == [st.queue[i].name]
    ensures DrainFrom(files, st, i) ==
      if failed then Outcome(r, sec, Some(BadTag)) else Prepend(sec, DrainFrom(files, r, i + 1))
  {
    var t := st.queue[i];
    var d := DescribeType(t.typ);
    r, sec, failed := ApplyAll(files, st, d.calls), Section(t), d.err.Some?;
    DrainStep(files, st, i, r);
    DrainFromStep(files, st, i);
    SectionHeadings(t);
  }

  lemma PrependTwice(a: seq<Record>, b: seq<Record>, o: Outcome)
    ensures Prepend(a, Prepend(b, o)) == Prepend(a + b, o)
  {
    assert a + (b + o.records) == (a + b) + o.records;
  }

  /**
   * renderTypeByName: a missing name and a name bound to something other
   * than a type are errors that change nothing; a type declaration is
   * rendered directly, with its renderLater calls made.
   */
  function RenderRoot(files: Package, st: State, name: string): Outcome {
    match Lookup(files, name)
    case None => Outcome(st, [], Some(TypeNotFound(name)))
    case Some(NonType) => Outcome(st, [], Some(NotAType(name)))
    case Some(TypeDecl(t)) =>
      var d := DescribeType(t);
      Outcome(ApplyAll(files, st, d.calls), TableOf(t), if d.err.Some? then Some(BadTag) else None)
  }

  /**
   * renderTypes: the root is rendered directly; the queue is then drained
   * from its start and, on success, truncated to empty.
   */
  function RenderAll(files: Package, st: State, name: string): Outcome {
    var root := RenderRoot(files, st, name);
    if root.err.Some? then root
    else
      var o := Prepend(root.records, DrainFrom(files, root.st, 0));
      if o.err.None? then o.(st := o.st.(queue := [])) else o
  }

  /**
   * input and output: a fresh buffer with the heading, the root marked
   * rendered, renderTypes, and the closing record after a success.
   */
  function Page(files: Package, st: State, heading: Record, name: string): Outcome {
    var o := RenderAll(files, st.(rendered := st.rendered + {name}), name);
    Outcome(o.st, [heading] + o.records + (if o.err.None? then [EndDiv] else []), o.err)
  }

  /** The names under the "Type" headings of a buffer, in order. */
  function Headings(rs: seq<Record>): seq<string> {
    if rs == [] then []
    else Headings(rs[..|rs| - 1]) + (if rs[|rs| - 1].TypeHeading? then [rs[|rs| - 1].name] else [])
  }

  lemma {:induction false} HeadingsConcat(a: seq<Record>, b: seq<Record>)
    ensures Headings(a + b) == Headings(a) + Headings(b)
  {
    if b == [] {
      assert a + b == a;
    } else {
      var init, last := b[..|b| - 1], b[|b| - 1];
      HeadingsConcat(a, init);
      assert (a + b)[..|a + b| - 1] == a + init;
    }
  }

  lemma SectionHeadings(t: TypeSpec)
    ensures Headings(Section(t)) == [t.name]
  {
    var tab := TableOf(t.typ);
    HeadingsConcat([TypeHeading(t.name)], tab);
    assert [TypeHeading(t.name)][..0] == [];
    if tab != [] {
      assert tab[..0] == [];
    }
  }

  /** A table carries no "Type" heading. */
  lemma TableHeadings(t: Expr)
    ensures Headings(TableOf(t)) == []
  {
    if TableOf(t) != [] {
      assert TableOf(t)[..0] == [];
    }
  }

  lemma NamesPrefix(a: seq<TypeSpec>, b: seq<TypeSpec>)
    requires a <= b
    ensures Names(a) <= Names(b)
  {
  }

  /** The names of a sequence of queue items. */
  function Names(items: seq<TypeSpec>): (ns: seq<string>)
    ensures |ns| == |items| && forall k :: 0 <= k < |items| ==> ns[k] == items[k].name
  {
    seq(|items|, k requires 0 <= k < |items| => items[k].name)
  }

  /**
   * Draining only appends to the queue and only adds declared names to the
   * rendered set; it keeps every declaration queued at most once and never
   * queues a name rendered before it started; a failure is a bad tag.
   */
  lemma {:induction false} DrainFromFacts(files: Package, st: State, i: nat)
    requires i <= |st.queue|
    ensures var o := DrainFrom(files, st, i);
      st.queue <= o.st.queue && st.rendered <= o.st.rendered &&
      (Inv(st) ==> Inv(o.st)) && QueuedOnlyUnrendered(st, o.st) &&
      (o.err.Some? ==> o.err == Some(BadTag))
    decreases AllNames(files) - st.rendered, Weight(st.queue[i..]), |st.queue| - i
  {
    if i < |st.queue| {
      var r, sec, failed := Unfold(files, st, i);
      if !failed {
        DrainFromFacts(files, r, i + 1);
        var o := DrainFrom(files, r, i + 1);
        QueuedOnlyUnrenderedTrans(st, r, o.st);
        PrefixTransitive(st.queue, r.queue, o.st.queue);
      }
    }
  }

  /**
   * FIFO order, including the items appended while draining: on success
   * the "Type" headings written are the names of every item of the final
   * queue from `i` on, in queue order, so nothing queued is left unrendered.
   */
  lemma {:induction false} DrainFromHeadings(files: Package, st: State, i: nat)
    requires i <= |st.queue|
    ensures var o := DrainFrom(files, st, i);
      o.err.None? ==> i <= |o.st.queue| && Headings(o.records) == Names(o.st.queue[i..])
    decreases AllNames(files) - st.rendered, Weight(st.queue[i..]), |st.queue| - i
  {
    if i < |st.queue| {
      var r, sec, failed := Unfold(files, st, i);
      if !failed {
        DrainFromHeadings(files, r, i + 1);
        DrainFromFacts(files, r, i + 1);
        var o := DrainFrom(files, r, i + 1);
        if o.err.None? {
          HeadingsCons(sec, o.records, o.st.queue, i);
        }
      }
    } else {
      assert st.queue[i..] == [];
    }
  }

  /** A section for the item at `i`, then the headings of the items after it. */
  lemma HeadingsCons(sec: seq<Record>, rest: seq<Record>, q: seq<TypeSpec>, i: nat)
    requires i < |q| && Headings(sec) == [q[i].name] && Headings(rest) == Names(q[i + 1..])
    ensures Headings(sec + rest) == Names(q[i..])
  {
    HeadingsConcat(sec, rest);
    assert q[i..] == [q[i]] + q[i + 1..];
  }

  /**
   * renderTypes keeps every declaration queued at most once and never queues
   * a name already rendered; on success it leaves the queue empty and has
   * written, after the root's table, one "Type" heading for each item that
   * the queue held before truncation, in order: the ones that were waiting,
   * then every one queued since, the root's and the drained items' alike.
   */
  lemma RenderAllFacts(files: Package, st: State, name: string)
    ensures var o := RenderAll(files, st, name);
      st.rendered <= o.st.rendered && (Inv(st) ==> Inv(o.st)) && QueuedOnlyUnrendered(st, o.st) &&
      (o.err.None? ==> o.st.queue == [] && Names(st.queue) <= Headings(o.records))
    ensures var o := RenderAll(files, st, name);
      o.err.None? ==>
        var q := DrainFrom(files, RenderRoot(files, st, name).st, 0).st.queue;
        st.queue <= q && Headings(o.records) == Names(q)
  {
    var root := RenderRoot(files, st, name);
    if Lookup(files, name).Some? && Lookup(files, name).value.TypeDecl? {
      var t := Lookup(files, name).value.typ;
      ApplyAllFacts(files, st, DescribeType(t).calls);
      assert st.queue <= root.st.queue && st.rendered <= root.st.rendered;
    }
    if root.err.None? {
      var t := Lookup(files, name).value.typ;
      DrainFromFacts(files, root.st, 0);
      DrainFromHeadings(files, root.st, 0);
      var o := DrainFrom(files, root.st, 0);
      QueuedOnlyUnrenderedTrans(st, root.st, o.st);
      if o.err.None? {
        PrefixTransitive(st.queue, root.st.queue, o.st.queue);
        TableHeadings(t);
        HeadingsConcat(TableOf(t), o.records);
        assert o.st.queue[0..] == o.st.queue;
        NamesPrefix(st.queue, o.st.queue);
      }
    }
  }

  /**
   * A page starts with its heading and, on success, ends with the closing
   * record; a missing root, a root that is not a type, and a root with a bad
   * tag are reported as such; the root itself is never queued by the call;
   * on success every item that was waiting in the queue has its heading.
   */
  lemma PageFacts(files: Package, st: State, heading: Record, name: string)
    ensures var o := Page(files, st, heading, name);
      |o.records| >= 1 && o.records[0] == heading &&
      (o.err.None? ==> |o.records| >= 2 && o.records[|o.records| - 1] == EndDiv) &&
      (Lookup(files, name).None? ==> o.err == Some(TypeNotFound(name))) &&
      (Lookup(files, name) == Some(NonType) ==> o.err == Some(NotAType(name))) &&
      (Lookup(files, name).Some? && Lookup(files, name).value.TypeDecl? &&
        DescribeType(Lookup(files, name).value.typ).err.Some? ==>
        o.err == Some(BadTag)) &&
      st.rendered + {name} <= o.st.rendered && (Inv(st) ==> Inv(o.st)) &&
      st.enqueued <= o.st.enqueued && name !in o.st.enqueued[|st.enqueued|..]
    ensures var o := Page(files, st, heading, name);
      o.err.None? && !heading.TypeHeading? ==> Names(st.queue) <= Headings(o.records)
  {
    var st1 := st.(rendered := st.rendered + {name});
    RenderAllFacts(files, st1, name);
    var o := RenderAll(files, st1, name);
    if o.err.None? {
      HeadingsConcat([heading], o.records);
      HeadingsConcat([heading] + o.records, [EndDiv]);
      assert [heading][..0] == [] && [EndDiv][..0] == [];
    }
    assert Inv(st) ==> Inv(st1);
    forall k | |st.enqueued| <= k < |o.st.enqueued|
      ensures o.st.enqueued[k] != name
    {
      assert o.st.enqueued[k] !in st1.rendered;
    }
  }
}
