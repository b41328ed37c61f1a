/**
 * Field bindings and their registry (Updatable.updatable_field and Updatable.updatable_fields):
 * a binding pairs a field name with the element that displays it and keeps the element's
 * box in step with its text; the registry is the ordered list of bindings.
 */
module Fields {
  import opened Wrappers
  import opened AutoSize

  /** The state of a bound DOM element: its kind, the text it shows and its box. */
  datatype Element = Element(kind: ElementKind, value: string, box: Box)

  /** An element the DOM query yields, with the field name its data attribute carries. */
  datatype Candidate = Candidate(attribute: string, element: Element)

  /** The element after update_size: same text, box recomputed from it. */
  function Sized(e: Element): (r: Element)
    ensures r.kind == e.kind && r.value == e.value
  {
    e.(box := Resize(e.kind, e.value, e.box))
  }

  /** The element after field_updated: it shows `v` and is re-sized for `v`. */
  function Shown(e: Element, v: string): (r: Element)
    ensures r.kind == e.kind && r.value == v
  {
    Sized(e.(value := v))
  }

  /** Sizing is idempotent: a sized element is already the size its text calls for. */
  lemma SizedIdempotent(e: Element)
    ensures Sized(Sized(e)) == Sized(e)
  {
  }

  /** The name and element state of each binding, in registry order. */
  ghost function Snapshot(bs: seq<Binding>): (r: seq<Candidate>)
    reads bs
  {
    if bs == [] then [] else Snapshot(bs[..|bs| - 1]) + [Candidate(bs[|bs| - 1].field, bs[|bs| - 1].element)]
  }

  /** The snapshot of a registry grown by one binding is the old snapshot plus that binding. */
  lemma SnapshotPush(bs: seq<Binding>, b: Binding)
    ensures Snapshot(bs + [b]) == Snapshot(bs) + [Candidate(b.field, b.element)]
  {
    assert (bs + [b])[..|bs|] == bs;
  }

  /** The snapshot has one entry per binding: the name and element state of the binding at the same index. */
  lemma {:induction false} SnapshotAt(bs: seq<Binding>)
    ensures |Snapshot(bs)| == |bs|
    ensures forall i :: 0 <= i < |bs| ==> Snapshot(bs)[i] == Candidate(bs[i].field, bs[i].element)
  {
    if bs != [] {
      var init := bs[..|bs| - 1];
      SnapshotAt(init);
      forall i | 0 <= i < |bs| - 1 ensures Snapshot(bs)[i] == Candidate(bs[i].field, bs[i].element) {
        assert init[i] == bs[i];
      }
    }
  }

  /** One field binding: a field name and the element bound to it. */
  class Binding {
    const field: string
    var element: Element

    /** Binds `element` to `field` and sizes it once. */
    constructor (field: string, element: Element)
      ensures this.field == field
      ensures this.element == Sized(element)
    {
      this.field := field;
      this.element := element;
      new;
      UpdateSize();
    }

    /** Recomputes the element's box from its text; the text is untouched. */
    method UpdateSize()
      modifies this
      ensures element == Sized(old(element))
    {
      element := element.(box := Resize(element.kind, element.value, element.box));
    }
  }

  /** `j` is the lowest index of a binding named `f`. */
  ghost predicate IsFirstMatch(bs: seq<Binding>, f: string, j: int)
  {
    0 <= j < |bs| && bs[j].field == f && forall k :: 0 <= k < j ==> bs[k].field != f
  }

  /** The jQuery grep of the bindings named `f`: exactly those bindings, led by the first of them. */
  function Grep(bs: seq<Binding>, f: string): (r: seq<Binding>)
    ensures forall i :: 0 <= i < |r| ==> r[i] in bs && r[i].field == f
    ensures forall j :: 0 <= j < |bs| && bs[j].field == f ==> bs[j] in r
    ensures r != [] ==> exists j :: IsFirstMatch(bs, f, j) && r[0] == bs[j]
  {
    if bs == [] then []
    else
      var rest := Grep(bs[1..], f);
      if bs[0].field == f then
        assert IsFirstMatch(bs, f, 0);
        [bs[0]] + rest
      else
        assert rest != [] ==> exists j :: IsFirstMatch(bs, f, j) && rest[0] == bs[j] by {
          if rest != [] {
            var j :| IsFirstMatch(bs[1..], f, j) && rest[0] == bs[1..][j];
            assert IsFirstMatch(bs, f, j + 1);
          }
        }
        rest
  }

  /** The ordered collection of field bindings. */
  class FieldRegistry {
    var fields: seq<Binding>

    /** An empty registry. */
    constructor ()
      ensures fields == []
    {
      fields := [];
    }

    /** Appends `b`; the bindings already there keep their order. */
    method Push(b: Binding)
      modifies this
      ensures fields == old(fields) + [b]
    {
      fields := fields + [b];
    }

    /**
     * `push(new updatable_field(field, element))`: appends a new binding of `field` to `element`,
     * sized once; it is a different object from every binding already registered.
     */
    method Add(field: string, element: Element) returns (b: Binding)
      modifies this
      ensures fresh(b) && b !in old(fields)
      ensures fields == old(fields) + [b]
      ensures Snapshot(fields) == old(Snapshot(fields)) + [Candidate(field, Sized(element))]
    {
      ghost var current := Snapshot(fields);
      b := new Binding(field, element);
      assert Snapshot(fields) == current;
      SnapshotPush(fields, b);
      Push(b);
    }

    /** The first binding named `f`, or None when no binding has that name. */
    function FindByField(f: string): (r: Option<Binding>)
      reads this
      ensures r.None? <==> forall j :: 0 <= j < |fields| ==> fields[j].field != f
      ensures r.Some? ==> exists j :: IsFirstMatch(fields, f, j) && r.value == fields[j]
    {
      var matches := Grep(fields, f);
      if matches == [] then None else Some(matches[0])
    }

    /**
     * Calls `callback` with each index and binding, from the first to the last, and
     * returns what the calls returned, in order.
     */
    method Each<T>(callback: (nat, Binding) -> T) returns (results: seq<T>)
      ensures |results| == |fields|
      ensures forall i :: 0 <= i < |fields| ==> results[i] == callback(i, fields[i])
    {
      var index, length := 0, |fields|;
      results := [];
      while index < length
        invariant index <= length
        invariant |results| == index
        invariant forall i :: 0 <= i < index ==> results[i] == callback(i, fields[i])
      {
        results := results + [callback(index, fields[index])];
        index := index + 1;
      }
    }
  }
}
