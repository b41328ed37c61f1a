/**
 * The updatable entity (Updatable): a store of named attributes, an update endpoint and a
 * registry of field bindings. Local edits write an attribute; a commit sends one PUT, and
 * the server's answer is written back into the attribute and onto the bound element.
 */
module Editing {
  import opened Wrappers
  import opened AutoSize
  import opened Fields

  /** A PUT to the update endpoint with payload {field_to_update, value_to_set}; JSON is expected back. */
  datatype Request = Put(url: string, fieldToUpdate: string, valueToSet: string)

  /**
   * The bindings the discovery pass adds for `candidates`: one per candidate whose name is owned,
   * in document order, each sized once. It never yields more bindings than candidates, and only
   * owned names.
   */
  function Discovered(attributes: map<string, string>, candidates: seq<Candidate>): (r: seq<Candidate>)
    ensures |r| <= |candidates|
    ensures forall i :: 0 <= i < |r| ==> r[i].attribute in attributes
  {
    if candidates == [] then []
    else
      var last := candidates[|candidates| - 1];
      Discovered(attributes, candidates[..|candidates| - 1])
        + (if last.attribute in attributes then [Candidate(last.attribute, Sized(last.element))] else [])
  }

  /**
   * What discovery keeps: every binding it yields carries the sized element of a candidate of
   * that name, and every candidate with an owned name yields a binding.
   */
  lemma {:induction false} DiscoveredIsOwnedCandidates(attributes: map<string, string>, candidates: seq<Candidate>)
    ensures forall d :: d in Discovered(attributes, candidates) ==>
              exists c :: c in candidates && c.attribute == d.attribute && d.element == Sized(c.element)
    ensures forall c :: c in candidates && c.attribute in attributes ==>
              Candidate(c.attribute, Sized(c.element)) in Discovered(attributes, candidates)
  {
    if candidates != [] {
      var init := candidates[..|candidates| - 1];
      DiscoveredIsOwnedCandidates(attributes, init);
      assert candidates == init + [candidates[|candidates| - 1]];
      forall d | d in Discovered(attributes, candidates)
        ensures exists c :: c in candidates && c.attribute == d.attribute && d.element == Sized(c.element)
      {
        if d in Discovered(attributes, init) {
          var c :| c in init && c.attribute == d.attribute && d.element == Sized(c.element);
          assert c in candidates;
        } else {
          var c := candidates[|candidates| - 1];
          assert c in candidates && c.attribute == d.attribute && d.element == Sized(c.element);
        }
      }
    }
  }

  /** Discovery distributes over concatenation: the bindings for `xs + ys` are those for `xs`, then those for `ys`. */
  lemma {:induction false} DiscoveredAppend(attributes: map<string, string>, xs: seq<Candidate>, ys: seq<Candidate>)
    ensures Discovered(attributes, xs + ys) == Discovered(attributes, xs) + Discovered(attributes, ys)
  {
    if ys == [] {
      assert xs + ys == xs;
    } else {
      var init := ys[..|ys| - 1];
      DiscoveredAppend(attributes, xs, init);
      assert (xs + ys)[..|xs + ys| - 1] == xs + init;
      assert (xs + ys)[|xs + ys| - 1] == ys[|ys| - 1];
    }
  }

  /**
   * Discovery over a single candidate: one sized binding when its name is owned, none otherwise.
   * With DiscoveredAppend this fixes the result, in document order, candidate by candidate.
   */
  lemma DiscoveredOne(attributes: map<string, string>, c: Candidate)
    ensures Discovered(attributes, [c]) == if c.attribute in attributes then [Candidate(c.attribute, Sized(c.element))] else []
  {
    assert [c][..0] == [];
  }

  /** Discovery over one more candidate adds at most that candidate's binding. */
  lemma DiscoveredStep(attributes: map<string, string>, candidates: seq<Candidate>, i: nat)
    requires i < |candidates|
    ensures var c := candidates[i];
            Discovered(attributes, candidates[..i + 1])
              == Discovered(attributes, candidates[..i])
                 + (if c.attribute in attributes then [Candidate(c.attribute, Sized(c.element))] else [])
  {
    assert candidates[..i + 1][..i] == candidates[..i];
  }

  /** The updatable entity. */
  class Updatable {
    /** The entity's own data attributes: the names it can manage and their current values. */
    var attributes: map<string, string>
    /** The update endpoint; None stands for an undefined or null `update_url`. */
    var updateUrl: Option<string>
    /** The field bindings. */
    const registry: FieldRegistry
    /** Every request sent so far, oldest first: the stand-in for the AJAX transport. */
    var outbox: seq<Request>

    /**
     * The display after writing `v` to field `f`: the first binding named `f` shows `v` and is
     * re-sized for it, and every other binding, and the registry itself, are as they were.
     * With no binding named `f`, nothing on display changes.
     */
    twostate predicate Reconciled(f: string, v: string)
      reads this, registry, registry.fields
    {
      && unchanged(registry)
      && match registry.FindByField(f)
         case None => unchanged(registry.fields)
         case Some(b) =>
           && b.element == Shown(old(b.element), v)
           && forall x :: x in registry.fields && x != b ==> unchanged(x)
    }

    /**
     * `new Updatable()` with the host's attributes, followed by init: the endpoint is the empty
     * string and the registry is new and empty.
     */
    constructor Init(attributes: map<string, string>)
      ensures this.attributes == attributes
      ensures updateUrl == Some("")
      ensures fresh(registry) && registry.fields == []
      ensures outbox == []
    {
      this.attributes := attributes;
      updateUrl := Some("");
      registry := new FieldRegistry();
      outbox := [];
    }

    /**
     * The discovery pass: every candidate whose name the entity owns is bound, in document order,
     * after the bindings already registered; the others are skipped.
     */
    method CreateFields(candidates: seq<Candidate>)
      modifies registry
      ensures |registry.fields| >= |old(registry.fields)|
      ensures registry.fields[..|old(registry.fields)|] == old(registry.fields)
      ensures forall j :: |old(registry.fields)| <= j < |registry.fields| ==> fresh(registry.fields[j])
      ensures forall i, j :: |old(registry.fields)| <= i < j < |registry.fields| ==> registry.fields[i] != registry.fields[j]
      ensures Snapshot(registry.fields) == old(Snapshot(registry.fields)) + Discovered(attributes, candidates)
    {
      ghost var before := registry.fields;
      ghost var shown := Snapshot(before);
      var i := 0;
      while i < |candidates|
        invariant i <= |candidates|
        invariant |registry.fields| >= |before| && registry.fields[..|before|] == before
        invariant forall j :: |before| <= j < |registry.fields| ==> fresh(registry.fields[j])
        invariant forall p, q :: |before| <= p < q < |registry.fields| ==> registry.fields[p] != registry.fields[q]
        invariant Snapshot(registry.fields) == shown + Discovered(attributes, candidates[..i])
      {
        var c := candidates[i];
        DiscoveredStep(attributes, candidates, i);
        if c.attribute in attributes {
          var b := registry.Add(c.attribute, c.element);
        }
        i := i + 1;
      }
      assert candidates[..i] == candidates;
    }

    /** A local write: an owned attribute `f` becomes `v`; anything else is ignored. Nothing is sent. */
    method SetField(f: string, v: string)
      modifies this
      ensures attributes == if f in old(attributes) then old(attributes)[f := v] else old(attributes)
      ensures updateUrl == old(updateUrl) && outbox == old(outbox)
      ensures unchanged(registry) && unchanged(registry.fields)
    {
      if f in attributes {
        attributes := attributes[f := v];
      }
    }

    /**
     * The display step after a confirmed write: the first binding named `f` shows `v` and is
     * re-sized. Without such a binding the display is left alone (updateable.js throws a
     * TypeError here, after the attribute has been written).
     */
    method FieldUpdated(f: string, v: string)
      modifies registry.fields
      ensures Reconciled(f, v)
    {
      var found := registry.FindByField(f);
      if found.Some? {
        var b := found.value;
        b.element := b.element.(value := v);
        b.UpdateSize();
      }
    }

    /** Writes `v` into the owned attribute `f` and onto its display; an unowned name changes nothing. */
    method UpdateField(f: string, v: string)
      modifies this, registry.fields
      ensures updateUrl == old(updateUrl) && outbox == old(outbox)
      ensures f in old(attributes) ==> attributes == old(attributes)[f := v] && Reconciled(f, v)
      ensures f !in old(attributes) ==> attributes == old(attributes) && unchanged(registry) && unchanged(registry.fields)
    {
      if f in attributes {
        attributes := attributes[f := v];
        FieldUpdated(f, v);
      }
    }

    /**
     * The commit step. With an unowned name or no endpoint nothing happens. A non-empty value is
     * sent as one PUT and nothing else changes yet. An empty value sends nothing and puts the
     * stored value back on display.
     */
    method Update(f: string, v: string)
      modifies this, registry.fields
      ensures attributes == old(attributes) && updateUrl == old(updateUrl)
      ensures !(f in attributes && updateUrl.Some?) ==>
                outbox == old(outbox) && unchanged(registry) && unchanged(registry.fields)
      ensures f in attributes && updateUrl.Some? && v != "" ==>
                outbox == old(outbox) + [Put(updateUrl.value, f, v)] && unchanged(registry) && unchanged(registry.fields)
      ensures f in attributes && updateUrl.Some? && v == "" ==>
                outbox == old(outbox) && Reconciled(f, attributes[f])
    {
      if f in attributes && updateUrl.Some? {
        if v != "" {
          outbox := outbox + [Put(updateUrl.value, f, v)];
        } else {
          UpdateField(f, attributes[f]);
        }
      }
    }

    /**
     * The success handler of a sent request: the server's value for the requested field is
     * written into the attribute and onto the display, even when it differs from what was sent.
     */
    method OnSuccess(request: Request, response: map<string, string>)
      requires request in outbox
      requires request.fieldToUpdate in response
      modifies this, registry.fields
      ensures updateUrl == old(updateUrl) && outbox == old(outbox)
      ensures var f := request.fieldToUpdate;
              if f in old(attributes) then
                attributes == old(attributes)[f := response[f]] && Reconciled(f, response[f])
              else
                attributes == old(attributes) && unchanged(registry) && unchanged(registry.fields)
    {
      UpdateField(request.fieldToUpdate, response[request.fieldToUpdate]);
    }
  }

  /** A commit confirmed by the server with a normalised value, from the caller's side. */
  method ConfirmedCommit()
  {
    var entity := new Updatable.Init(map["quantity" := "1"]);
    entity.CreateFields([Candidate("quantity", Element(TextInput, "1", Box(0, 20))), Candidate("price", Element(Other, "9", Box(5, 5)))]);
    assert Snapshot(entity.registry.fields) == [Candidate("quantity", Element(TextInput, "1", Box(8, 20)))];
    assert |entity.registry.fields| == 1;
    var b := entity.registry.fields[0];
    assert b.field == "quantity" && b.element == Element(TextInput, "1", Box(8, 20)) by {
      assert Snapshot(entity.registry.fields)[0] == Candidate(b.field, b.element);
    }
    entity.SetField("quantity", "02");
    entity.Update("quantity", "02");
    assert entity.outbox == [Put("", "quantity", "02")];
    entity.OnSuccess(Put("", "quantity", "02"), map["quantity" := "2"]);
    assert entity.attributes == map["quantity" := "2"];
    assert entity.registry.FindByField("quantity") == Some(b);
    assert b.element == Element(TextInput, "2", Box(8, 20));
  }
}
