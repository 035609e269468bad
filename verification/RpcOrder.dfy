/**
  What the generated `unmarshal` accepts, said without its loop: for each entry the items with its tag, and nothing
  else, decide the field.  So items of different tags may change places, at every depth.
 */
module RpcOrder {
  import opened Options
  import opened RpcMessage
  import opened RpcRoundTrip

  // ---- A field from the items of its tag ----

  /** A field that is not an array takes one item; a second one is an error. */
  lemma FieldTakesOne(schema: Schema, e: Entry, items: List<Item>)
    ensures var own, r := Only(items, e.tag), Walk(schema, e, Unset, items);
      && (own.Nil? ==> r == Some(Unset))
      && (own.Cons? && own.tail.Cons? ==> r == None)
      && (own.Cons? && own.tail.Nil? ==>
        var v := Decode(schema, e.typ, own.head.payload);
        (v.None? ==> r == None) && (v.Some? ==> r == Some(Set(v.value))))
  {
    WalkOnly(schema, e, Unset, items);
    var own := Only(items, e.tag);
    OnlyTagged(items, e.tag);
    if own.Cons? {
      var fed := Feed(schema, e, Unset, own.head);
      if fed.Some? && own.tail.Cons? { assert Feed(schema, e, fed.value, own.tail.head) == None; }
      if fed.Some? { assert Walk(schema, e, fed.value, Nil) == fed; }
    }
  }

  lemma {:induction false} OnlyTagged(items: List<Item>, tag: nat)
    ensures var own := Only(items, tag);
      own.Cons? ==> own.head.tag == tag && (own.tail.Cons? ==> own.tail.head.tag == tag)
  {
    if items.Cons? { OnlyTagged(items.tail, tag); }
  }

  /** The values of the items with a tag, in order. */
  function DecodeAll(schema: Schema, t: Type, tag: nat, items: List<Item>): Option<seq<Value>>
    decreases items
  {
    if items.Nil? then Some([])
    else if items.head.tag != tag then DecodeAll(schema, t, tag, items.tail)
    else
      match (Decode(schema, t, items.head.payload), DecodeAll(schema, t, tag, items.tail))
      case (Some(v), Some(vs)) => Some([v] + vs)
      case _ => None
  }

  /** An array takes them all. */
  lemma {:induction false} ArrayTakesAll(schema: Schema, e: Entry, values: seq<Value>, items: List<Item>)
    ensures var vs := DecodeAll(schema, e.typ, e.tag, items);
      && (vs.None? ==> Walk(schema, e, Many(values), items) == None)
      && (vs.Some? ==> Walk(schema, e, Many(values), items) == Some(Many(values + vs.value)))
    decreases items
  {
    if items.Cons? {
      var v := Decode(schema, e.typ, items.head.payload);
      if items.head.tag != e.tag {
        ArrayTakesAll(schema, e, values, items.tail);
      } else if v.Some? {
        assert Feed(schema, e, Many(values), items.head) == Some(Many(values + [v.value]));
        ArrayTakesAll(schema, e, values + [v.value], items.tail);
        var vs := DecodeAll(schema, e.typ, e.tag, items.tail);
        if vs.Some? { assert values + [v.value] + vs.value == values + ([v.value] + vs.value); }
      }
    } else {
      assert values + [] == values;
    }
  }

  // ---- Exactly what is accepted ----

  /** A required field wants one good item, an optional one at most one, and an array only good ones. */
  ghost predicate EntryAccepts(schema: Schema, e: Entry, items: List<Item>) {
    var own := Only(items, e.tag);
    if e.arity == Array then DecodeAll(schema, e.typ, e.tag, items).Some?
    else if own.Nil? then e.arity == Optional
    else own.tail.Nil? && Decode(schema, e.typ, own.head.payload).Some?
  }

  ghost predicate Accepts(schema: Schema, es: List<Entry>, items: List<Item>) {
    es.Cons? ==> EntryAccepts(schema, es.head, items) && Accepts(schema, es.tail, items)
  }

  lemma DecodedComplete(schema: Schema, t: Type, p: Payload)
    requires Decode(schema, t, p).Some?
    ensures CompleteValue(schema, t, Decode(schema, t, p).value)
  {
    if t.Struct? { AcceptedFits(schema, t.name, p.items.value); }
  }

  lemma {:induction false} AllDecodedComplete(schema: Schema, t: Type, tag: nat, items: List<Item>)
    requires DecodeAll(schema, t, tag, items).Some?
    ensures var vs := DecodeAll(schema, t, tag, items).value;
      forall i :: 0 <= i < |vs| ==> CompleteValue(schema, t, vs[i])
    decreases items
  {
    if items.Cons? {
      AllDecodedComplete(schema, t, tag, items.tail);
      if items.head.tag == tag { DecodedComplete(schema, t, items.head.payload); }
    }
  }

  lemma EntryAcceptsExactly(schema: Schema, e: Entry, blank: Slot, items: List<Item>)
    requires blank == if e.arity == Array then Many([]) else Unset
    ensures var s := Walk(schema, e, blank, items);
      s.Some? && CompleteSlot(schema, e, s.value) <==> EntryAccepts(schema, e, items)
  {
    if e.arity == Array {
      ArrayTakesAll(schema, e, [], items);
      var vs := DecodeAll(schema, e.typ, e.tag, items);
      if vs.Some? {
        AllDecodedComplete(schema, e.typ, e.tag, items);
        assert [] + vs.value == vs.value;
      }
    } else {
      FieldTakesOne(schema, e, items);
      var own := Only(items, e.tag);
      if own.Cons? && Decode(schema, e.typ, own.head.payload).Some? {
        DecodedComplete(schema, e.typ, own.head.payload);
      }
    }
  }

  lemma {:induction false} AcceptsExactly(schema: Schema, es: List<Entry>, items: List<Item>)
    ensures var r := Gather(schema, es, Fresh(es), items);
      r.Some? && Complete(schema, es, r.value) <==> Accepts(schema, es, items)
    decreases es
  {
    if es.Cons? {
      EntryAcceptsExactly(schema, es.head, Fresh(es).head, items);
      AcceptsExactly(schema, es.tail, items);
    }
  }

  /** A buffer is a message if and only if every tag is known and every entry is content with the items of its tag. */
  lemma UnmarshalAccepts(schema: Schema, name: string, items: List<Item>)
    requires UniqueTags(schema)
    ensures var es := EntriesOf(schema, name);
      Unmarshal(schema, name, items).Some? <==> Known(es, items) && Accepts(schema, es, items)
  {
    var es := EntriesOf(schema, name);
    FreshAligned(es);
    RunIsGather(schema, es, Fresh(es), items);
    AcceptsExactly(schema, es, items);
  }

  // ---- Order at every depth ----

  /**
    Two payloads that a field of type `t` cannot tell apart: nested messages whose buffers are alike, and otherwise the
    same payload.
   */
  ghost predicate AlikePayload(schema: Schema, t: Type, p: Payload, q: Payload)
    decreases p, 2
  {
    match t
    case Struct(name) =>
      if p.items.None? then q.items.None?
      else q.items.Some? && Alike(schema, EntriesOf(schema, name), p.items.value, q.items.value)
    case _ => p == q
  }

  /** The items of the entry's tag are as many in both buffers and, in their order, alike. */
  ghost predicate AlikeFor(schema: Schema, e: Entry, a: List<Item>, b: List<Item>)
    decreases a, 0, b
  {
    if a.Nil? then Absent(b, e.tag)
    else if a.head.tag != e.tag then AlikeFor(schema, e, a.tail, b)
    else if b.Nil? then false
    else if b.head.tag != e.tag then AlikeFor(schema, e, a, b.tail)
    else AlikePayload(schema, e.typ, a.head.payload, b.head.payload) && AlikeFor(schema, e, a.tail, b.tail)
  }

  /** So it is for every entry, and both buffers or neither hold an unknown tag. */
  ghost predicate Alike(schema: Schema, es: List<Entry>, a: List<Item>, b: List<Item>)
    decreases a, 2
  {
    (Known(es, a) <==> Known(es, b)) && AlikeForAll(schema, es, a, b)
  }

  ghost predicate AlikeForAll(schema: Schema, es: List<Entry>, a: List<Item>, b: List<Item>)
    decreases a, 1, es
  {
    es.Cons? ==> AlikeFor(schema, es.head, a, b) && AlikeForAll(schema, es.tail, a, b)
  }

  lemma {:induction false} DecodeAlike(schema: Schema, t: Type, p: Payload, q: Payload)
    requires UniqueTags(schema) && AlikePayload(schema, t, p, q)
    ensures Decode(schema, t, p) == Decode(schema, t, q)
    decreases p, 2
  {
    if t.Struct? && p.items.Some? { DeepOrderFree(schema, t.name, p.items.value, q.items.value); }
  }

  lemma {:induction false} WalkAlike(schema: Schema, e: Entry, s: Slot, a: List<Item>, b: List<Item>)
    requires UniqueTags(schema) && AlikeFor(schema, e, a, b)
    ensures Walk(schema, e, s, a) == Walk(schema, e, s, b)
    decreases a, 0, b
  {
    if a.Nil? {
      WalkAbsent(schema, e, s, b);
    } else if a.head.tag != e.tag {
      WalkAlike(schema, e, s, a.tail, b);
    } else if b.head.tag != e.tag {
      WalkAlike(schema, e, s, a, b.tail);
    } else {
      DecodeAlike(schema, e.typ, a.head.payload, b.head.payload);
      var fed := Feed(schema, e, s, a.head);
      assert fed == Feed(schema, e, s, b.head);
      if fed.Some? { WalkAlike(schema, e, fed.value, a.tail, b.tail); }
    }
  }

  lemma {:induction false} GatherAlike(schema: Schema, es: List<Entry>, slots: List<Slot>, a: List<Item>, b: List<Item>)
    requires UniqueTags(schema) && AlikeForAll(schema, es, a, b)
    ensures Gather(schema, es, slots, a) == Gather(schema, es, slots, b)
    decreases a, 1, es
  {
    if es.Cons? && slots.Cons? {
      WalkAlike(schema, es.head, slots.head, a, b);
      GatherAlike(schema, es.tail, slots.tail, a, b);
    }
  }

  /** Buffers that differ in how items of different tags are interleaved, at any depth, mean the same message. */
  lemma {:induction false} DeepOrderFree(schema: Schema, name: string, a: List<Item>, b: List<Item>)
    requires UniqueTags(schema) && Alike(schema, EntriesOf(schema, name), a, b)
    ensures Unmarshal(schema, name, a) == Unmarshal(schema, name, b)
    decreases a, 2
  {
    var es := EntriesOf(schema, name);
    FreshAligned(es);
    RunIsGather(schema, es, Fresh(es), a);
    RunIsGather(schema, es, Fresh(es), b);
    GatherAlike(schema, es, Fresh(es), a, b);
  }

  // ---- Reordering gives such buffers ----

  lemma {:induction false} AlikeItself(schema: Schema, t: Type, p: Payload)
    ensures AlikePayload(schema, t, p, p)
    decreases p, 3
  {
    if t.Struct? && p.items.Some? { AlikeByTag(schema, EntriesOf(schema, t.name), p.items.value, p.items.value); }
  }

  lemma {:induction false} AlikeForTag(schema: Schema, e: Entry, a: List<Item>, b: List<Item>)
    requires Only(a, e.tag) == Only(b, e.tag)
    ensures AlikeFor(schema, e, a, b)
    decreases a, 0, b
  {
    if a.Nil? {
      NoneIsAbsent(b, e.tag);
    } else if a.head.tag != e.tag {
      AlikeForTag(schema, e, a.tail, b);
    } else if b.head.tag != e.tag {
      AlikeForTag(schema, e, a, b.tail);
    } else {
      AlikeItself(schema, e.typ, a.head.payload);
      AlikeForTag(schema, e, a.tail, b.tail);
    }
  }

  lemma {:induction false} NoneIsAbsent(items: List<Item>, tag: nat)
    requires Only(items, tag).Nil?
    ensures Absent(items, tag)
  {
    if items.Cons? { NoneIsAbsent(items.tail, tag); }
  }

  lemma {:induction false} AlikeForTags(schema: Schema, es: List<Entry>, a: List<Item>, b: List<Item>)
    requires SamePerTag(a, b)
    ensures AlikeForAll(schema, es, a, b)
    decreases a, 1, es
  {
    if es.Cons? {
      assert Only(a, es.head.tag) == Only(b, es.head.tag);
      AlikeForTag(schema, es.head, a, b);
      AlikeForTags(schema, es.tail, a, b);
    }
  }

  /** Moving items past items of other tags leaves a buffer alike, also one inside a nested message. */
  lemma {:induction false} AlikeByTag(schema: Schema, es: List<Entry>, a: List<Item>, b: List<Item>)
    requires SamePerTag(a, b)
    ensures Alike(schema, es, a, b)
    decreases a, 2
  {
    KnownByTag(es, a);
    KnownByTag(es, b);
    AlikeForTags(schema, es, a, b);
  }
}
