/**
 * The render queue and the set of rendered names, as a state that
 * renderLater calls transform. `enqueued` records, in order, every declared
 * type renderLater has ever queued; it is bookkeeping for the proofs.
 */
module Queue {
  import opened Basics
  import opened Ast
  import opened Render

  datatype State = State(rendered: set<string>, queue: seq<TypeSpec>, enqueued: seq<string>)

  predicate NoDup(s: seq<string>) {
    forall i, j :: 0 <= i < j < |s| ==> s[i] != s[j]
  }

  /** No declared type has been queued twice, and every queued one is marked rendered. */
  predicate Inv(st: State) {
    NoDup(st.enqueued) && forall k :: 0 <= k < |st.enqueued| ==> st.enqueued[k] in st.rendered
  }

  /**
   * Between two states, declarations were only added to the record of queued
   * ones, and none of the added ones was already marked rendered in `st0`.
   */
  predicate QueuedOnlyUnrendered(st0: State, st1: State) {
    st0.enqueued <= st1.enqueued &&
    forall k :: |st0.enqueued| <= k < |st1.enqueued| ==> st1.enqueued[k] !in st0.rendered
  }

  lemma QueuedOnlyUnrenderedTrans(st0: State, st1: State, st2: State)
    requires QueuedOnlyUnrendered(st0, st1) && QueuedOnlyUnrendered(st1, st2)
    requires st0.rendered <= st1.rendered
    ensures QueuedOnlyUnrendered(st0, st2)
  {
    forall k | |st0.enqueued| <= k < |st2.enqueued|
      ensures st2.enqueued[k] !in st0.rendered
    {
      if k < |st1.enqueued| {
        assert st2.enqueued[k] == st1.enqueued[k];
      }
    }
  }

  /** The queue items an anonymous struct call adds: exactly one. */
  function AnonItem(c: Call): seq<TypeSpec> {
    if c.anon.Some? then [TypeSpec(c.name, c.anon.value)] else []
  }

  /** Whether renderLater queues the declaration named `name`: declared as a type and not yet rendered. */
  predicate Queues(files: Package, st: State, name: string) {
    name !in st.rendered && Lookup(files, name).Some? && Lookup(files, name).value.TypeDecl?
  }

  /**
   * renderLater: an anonymous struct is queued unconditionally under the
   * given name; then the name, unless already rendered, is looked up, and a
   * type declaration found for it is queued and the name marked rendered.
   */
  function Later(files: Package, st: State, c: Call): (r: State)
    ensures st.queue <= r.queue && st.rendered <= r.rendered && st.enqueued <= r.enqueued
    ensures c.anon.Some? ==> |r.queue| > |st.queue| && r.queue[|st.queue|] == TypeSpec(c.name, c.anon.value)
    ensures Queues(files, st, c.name) ==>
      r.rendered == st.rendered + {c.name} && r.enqueued == st.enqueued + [c.name] &&
      r.queue == st.queue + AnonItem(c) + [TypeSpec(c.name, Lookup(files, c.name).value.typ)]
    ensures !Queues(files, st, c.name) ==>
      r.rendered == st.rendered && r.enqueued == st.enqueued && r.queue == st.queue + AnonItem(c)
    ensures Inv(st) ==> Inv(r)
  {
    var q := st.queue + AnonItem(c);
    if c.name in st.rendered then st.(queue := q)
    else match Lookup(files, c.name)
      case Some(TypeDecl(typ)) =>
        State(st.rendered + {c.name}, q + [TypeSpec(c.name, typ)], st.enqueued + [c.name])
      case _ => st.(queue := q)
  }

  /** The calls `cs`, made one after the other. */
  function ApplyAll(files: Package, st: State, cs: seq<Call>): State {
    if cs == [] then st else Later(files, ApplyAll(files, st, cs[..|cs| - 1]), cs[|cs| - 1])
  }

  function AnonItems(cs: seq<Call>): seq<TypeSpec> {
    if cs == [] then [] else AnonItems(cs[..|cs| - 1]) + AnonItem(cs[|cs| - 1])
  }

  /**
   * A run of renderLater calls only appends to the queue and only adds to
   * the rendered set, with declared names only; it keeps the invariant;
   * names rendered before are never queued; and when no name was newly
   * rendered, the queue grew by exactly the anonymous structs, in call order.
   */
  lemma {:induction false} ApplyAllFacts(files: Package, st: State, cs: seq<Call>)
    ensures var r := ApplyAll(files, st, cs);
      st.queue <= r.queue && st.rendered <= r.rendered && st.enqueued <= r.enqueued &&
      r.rendered - st.rendered <= AllNames(files) &&
      (Inv(st) ==> Inv(r)) &&
      QueuedOnlyUnrendered(st, r) &&
      (r.rendered == st.rendered ==> r.queue == st.queue + AnonItems(cs))
  {
    if cs != [] {
      var init := cs[..|cs| - 1];
      ApplyAllFacts(files, st, init);
      var mid := ApplyAll(files, st, init);
      var r := Later(files, mid, cs[|cs| - 1]);
      if r.rendered == st.rendered {
        assert mid.rendered == st.rendered;
        assert r.queue == mid.queue + AnonItem(cs[|cs| - 1]);
      }
    }
  }

  /** Every anonymous struct call adds one queue item and every newly queued declaration one more. */
  lemma {:induction false} ApplyAllCount(files: Package, st: State, cs: seq<Call>)
    ensures var r := ApplyAll(files, st, cs);
      |r.queue| == |st.queue| + |AnonItems(cs)| + (|r.enqueued| - |st.enqueued|)
  {
    if cs != [] {
      ApplyAllCount(files, st, cs[..|cs| - 1]);
    }
  }

  lemma {:induction false} ApplyAllConcat(files: Package, st: State, cs: seq<Call>, more: seq<Call>)
    ensures ApplyAll(files, st, cs + more) == ApplyAll(files, ApplyAll(files, st, cs), more)
  {
    if more != [] {
      assert (cs + more)[..|cs + more| - 1] == cs + more[..|more| - 1];
      ApplyAllConcat(files, st, cs, more[..|more| - 1]);
    } else {
      assert cs + more == cs;
    }
  }

  /** The anonymous-struct weight of the items in a queue. */
  function Weight(items: seq<TypeSpec>): nat {
    if items == [] then 0 else Weight(items[..|items| - 1]) + Size(items[|items| - 1].typ)
  }

  lemma {:induction false} WeightConcat(a: seq<TypeSpec>, b: seq<TypeSpec>)
    ensures Weight(a + b) == Weight(a) + Weight(b)
  {
    if b != [] {
      assert (a + b)[..|a + b| - 1] == a + b[..|b| - 1];
      WeightConcat(a, b[..|b| - 1]);
    } else {
      assert a + b == a;
    }
  }

  lemma {:induction false} AnonItemsWeight(cs: seq<Call>)
    ensures Weight(AnonItems(cs)) == AnonWeight(cs)
  {
    if cs != [] {
      var init := cs[..|cs| - 1];
      AnonItemsWeight(init);
      WeightConcat(AnonItems(init), AnonItem(cs[|cs| - 1]));
      var tail := AnonItem(cs[|cs| - 1]);
      if tail != [] {
        assert tail[..0] == [];
      }
    }
  }

  /** Replacing the item at `i` by anonymous structs found while describing it. */
  lemma {:induction false} ReplaceWeight(q: seq<TypeSpec>, i: nat, added: seq<TypeSpec>)
    requires i < |q|
    ensures Weight((q + added)[i + 1..]) + Size(q[i].typ) == Weight(q[i..]) + Weight(added)
  {
    assert (q + added)[i + 1..] == q[i + 1..] + added;
    WeightConcat(q[i + 1..], added);
    assert q[i..] == [q[i]] + q[i + 1..];
    WeightConcat([q[i]], q[i + 1..]);
    assert [q[i]][..0] == [];
  }

  /**
   * One step of the drain loop keeps the queue's front, and either marks a
   * new declared name rendered or replaces the item at `i` by anonymous
   * structs of strictly smaller total weight (by nothing, for a non-struct).
   */
  lemma DrainStep(files: Package, st: State, i: nat, r: State)
    requires i < |st.queue|
    requires r == ApplyAll(files, st, DescribeType(st.queue[i].typ).calls)
    ensures st.queue <= r.queue && st.rendered <= r.rendered && (Inv(st) ==> Inv(r))
    ensures QueuedOnlyUnrendered(st, r)
    ensures AllNames(files) - r.rendered < AllNames(files) - st.rendered ||
      (r.rendered == st.rendered && Weight(r.queue[i + 1..]) <= Weight(st.queue[i..]) &&
       (st.queue[i].typ.StructT? ==> Weight(r.queue[i + 1..]) < Weight(st.queue[i..])) &&
       (!st.queue[i].typ.StructT? ==> r.queue == st.queue))
  {
    var t := st.queue[i];
    var cs := DescribeType(t.typ).calls;
    ApplyAllFacts(files, st, cs);
    if r.rendered == st.rendered {
      assert r.queue == st.queue + AnonItems(cs);
      assert Weight(AnonItems(cs)) == AnonWeight(cs) by {
        AnonItemsWeight(cs);
      }
      DescribeTypeWeight(t.typ);
      ReplaceWeight(st.queue, i, AnonItems(cs));
      if !t.typ.StructT? {
        assert AnonItems([]) == [];
        assert st.queue + [] == st.queue;
      }
    } else {
      var n :| n in r.rendered && n !in st.rendered;
      assert n in AllNames(files) - st.rendered;
    }
  }
}
