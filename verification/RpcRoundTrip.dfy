/**
  The laws of the generated code: unmarshalling looks at each tag's items alone, it undoes marshalling, and whatever it
  accepts is a complete message that can be marshalled again.
 */
module RpcRoundTrip {
  import opened Options
  import opened RpcMessage

  // ---- One tag at a time ----

  /** What an entry makes of a buffer when it skips every item that is not its own. */
  function Walk(schema: Schema, e: Entry, s: Slot, items: List<Item>): Option<Slot>
    decreases items
  {
    if items.Nil? then Some(s)
    else if items.head.tag != e.tag then Walk(schema, e, s, items.tail)
    else
      match Feed(schema, e, s, items.head)
      case None => None
      case Some(more) => Walk(schema, e, more, items.tail)
  }

  /** Every entry by itself. */
  function Gather(schema: Schema, es: List<Entry>, slots: List<Slot>, items: List<Item>): Option<List<Slot>>
    decreases es
  {
    if es.Nil? || slots.Nil? then Some(Nil) else
      match (Walk(schema, es.head, slots.head, items), Gather(schema, es.tail, slots.tail, items))
      case (Some(s), Some(rest)) => Some(Cons(s, rest))
      case _ => None
  }

  predicate Known(es: List<Entry>, items: List<Item>) {
    items.Cons? ==> HasTag(es, items.head.tag) && Known(es, items.tail)
  }

  ghost predicate Aligned(es: List<Entry>, slots: List<Slot>) {
    if es.Nil? then slots.Nil? else slots.Cons? && Aligned(es.tail, slots.tail)
  }

  lemma {:induction false} FreshAligned(es: List<Entry>)
    ensures Aligned(es, Fresh(es))
  {
    if es.Cons? { FreshAligned(es.tail); }
  }

  lemma {:induction false} GatherSkips(schema: Schema, es: List<Entry>, slots: List<Slot>, item: Item, rest: List<Item>)
    requires !HasTag(es, item.tag)
    ensures Gather(schema, es, slots, Cons(item, rest)) == Gather(schema, es, slots, rest)
    ensures Dispatch(schema, es, slots, item) == None
  {
    if es.Cons? && slots.Cons? { GatherSkips(schema, es.tail, slots.tail, item, rest); }
  }

  lemma {:induction false} GatherStep(schema: Schema, es: List<Entry>, slots: List<Slot>, item: Item, rest: List<Item>)
    requires Unique(es) && HasTag(es, item.tag) && Aligned(es, slots)
    ensures var more := Dispatch(schema, es, slots, item);
      && (more.None? ==> Gather(schema, es, slots, Cons(item, rest)) == None)
      && (more.Some? ==> Aligned(es, more.value))
      && (more.Some? ==> Gather(schema, es, more.value, rest) == Gather(schema, es, slots, Cons(item, rest)))
  {
    if es.head.tag == item.tag {
      GatherSkips(schema, es.tail, slots.tail, item, rest);
    } else {
      GatherStep(schema, es.tail, slots.tail, item, rest);
    }
  }

  /** The loop over all items is, for each entry, a loop over that entry's items. */
  lemma {:induction false} RunIsGather(schema: Schema, es: List<Entry>, slots: List<Slot>, items: List<Item>)
    requires Unique(es) && Aligned(es, slots)
    ensures Known(es, items) ==> Run(schema, es, slots, items) == Gather(schema, es, slots, items)
    ensures !Known(es, items) ==> Run(schema, es, slots, items) == None
    decreases items
  {
    if items.Nil? {
      GatherNothing(schema, es, slots);
    } else if HasTag(es, items.head.tag) {
      GatherStep(schema, es, slots, items.head, items.tail);
      var more := Dispatch(schema, es, slots, items.head);
      if more.Some? { RunIsGather(schema, es, more.value, items.tail); }
    } else {
      GatherSkips(schema, es, slots, items.head, items.tail);
    }
  }

  lemma {:induction false} GatherNothing(schema: Schema, es: List<Entry>, slots: List<Slot>)
    requires Aligned(es, slots)
    ensures Gather(schema, es, slots, Nil) == Some(slots)
  {
    if es.Cons? { GatherNothing(schema, es.tail, slots.tail); }
  }

  // ---- The order of different tags does not matter ----

  function Only(items: List<Item>, tag: nat): List<Item> {
    if items.Nil? then Nil
    else if items.head.tag == tag then Cons(items.head, Only(items.tail, tag)) else Only(items.tail, tag)
  }

  lemma {:induction false} WalkOnly(schema: Schema, e: Entry, s: Slot, items: List<Item>)
    ensures Walk(schema, e, s, items) == Walk(schema, e, s, Only(items, e.tag))
    decreases items
  {
    if items.Cons? {
      if items.head.tag != e.tag {
        WalkOnly(schema, e, s, items.tail);
      } else {
        var more := Feed(schema, e, s, items.head);
        if more.Some? { WalkOnly(schema, e, more.value, items.tail); }
      }
    }
  }

  /** The same items, and those of each tag in the same order. */
  ghost predicate SamePerTag(a: List<Item>, b: List<Item>) {
    forall tag :: Only(a, tag) == Only(b, tag)
  }

  lemma {:induction false} GatherPerTag(schema: Schema, es: List<Entry>, slots: List<Slot>, a: List<Item>,
    b: List<Item>)
    requires SamePerTag(a, b)
    ensures Gather(schema, es, slots, a) == Gather(schema, es, slots, b)
    decreases es
  {
    if es.Cons? && slots.Cons? {
      WalkOnly(schema, es.head, slots.head, a);
      WalkOnly(schema, es.head, slots.head, b);
      assert Only(a, es.head.tag) == Only(b, es.head.tag);
      GatherPerTag(schema, es.tail, slots.tail, a, b);
    }
  }

  lemma {:induction false} KnownByTag(es: List<Entry>, items: List<Item>)
    ensures Known(es, items) <==> forall tag: nat :: Only(items, tag).Cons? ==> HasTag(es, tag)
  {
    if items.Cons? {
      KnownByTag(es, items.tail);
      assert Only(items, items.head.tag).Cons?;
      assert forall tag: nat :: tag != items.head.tag ==> Only(items, tag) == Only(items.tail, tag);
    }
  }

  lemma OrderFree(schema: Schema, name: string, a: List<Item>, b: List<Item>)
    requires UniqueTags(schema) && SamePerTag(a, b)
    ensures Unmarshal(schema, name, a) == Unmarshal(schema, name, b)
  {
    var es := EntriesOf(schema, name);
    FreshAligned(es);
    RunIsGather(schema, es, Fresh(es), a);
    RunIsGather(schema, es, Fresh(es), b);
    GatherPerTag(schema, es, Fresh(es), a, b);
    KnownByTag(es, a);
    KnownByTag(es, b);
  }

  // ---- Well-typed messages ----

  ghost predicate FitsValue(schema: Schema, t: Type, v: Value)
    decreases v, 1
  {
    match t
    case Int => v.Number? && v.n < 0x1_0000_0000
    case Int64 => v.Number? && v.n < 0x1_0000_0000_0000_0000
    case Text => v.Bytes? && 0 !in v.bytes
    case Fixed(n) => v.Bytes? && |v.bytes| == n
    case Blob => v.Bytes?
    case Struct(name) => v.Message? && v.of == name && Fits(schema, EntriesOf(schema, name), v.slots)
  }

  ghost predicate FitsSlot(schema: Schema, e: Entry, s: Slot)
    decreases s, 1
  {
    match s
    case Unset => e.arity != Array
    case Set(v) => e.arity != Array && FitsValue(schema, e.typ, v)
    case Many(vs) => e.arity == Array && forall i :: 0 <= i < |vs| ==> FitsValue(schema, e.typ, vs[i])
  }

  ghost predicate Fits(schema: Schema, es: List<Entry>, slots: List<Slot>)
    decreases slots, 2
  {
    if es.Nil? then slots.Nil?
    else slots.Cons? && FitsSlot(schema, es.head, slots.head) && Fits(schema, es.tail, slots.tail)
  }

  /** A number is taken if and only if it fits the field. */
  lemma NumbersFit(schema: Schema, p: Payload, n: nat)
    requires p.number == Some(n)
    ensures Decode(schema, Int, p) == Some(Number(n)) <==> n < 0x1_0000_0000
    ensures Decode(schema, Int, p) == None <==> n >= 0x1_0000_0000
    ensures Decode(schema, Int64, p) == Some(Number(n)) <==> n < 0x1_0000_0000_0000_0000
    ensures Decode(schema, Int64, p) == None <==> n >= 0x1_0000_0000_0000_0000
  {
  }

  /** What is not a number, not a buffer or not of the fixed length is refused; other bytes are not. */
  lemma PayloadsFit(schema: Schema, p: Payload, length: nat, name: string)
    ensures p.number == None ==> Decode(schema, Int, p) == None && Decode(schema, Int64, p) == None
    ensures p.items == None ==> Decode(schema, Struct(name), p) == None
    ensures |p.raw| != length ==> Decode(schema, Fixed(length), p) == None
    ensures |p.raw| == length ==> Decode(schema, Fixed(length), p) == Some(Bytes(p.raw))
    ensures Decode(schema, Blob, p) == Some(Bytes(p.raw))
    ensures Decode(schema, Text, p).Some? && (0 !in p.raw ==> Decode(schema, Text, p) == Some(Bytes(p.raw)))
  {
  }

  // ---- Unmarshalling undoes marshalling ----

  predicate Absent(items: List<Item>, tag: nat) {
    items.Cons? ==> items.head.tag != tag && Absent(items.tail, tag)
  }

  lemma {:induction false} WalkAppend(schema: Schema, e: Entry, s: Slot, a: List<Item>, b: List<Item>)
    ensures var m := Walk(schema, e, s, a); m.Some? ==> Walk(schema, e, s, Append(a, b)) == Walk(schema, e, m.value, b)
    decreases a
  {
    if a.Cons? {
      if a.head.tag != e.tag {
        WalkAppend(schema, e, s, a.tail, b);
      } else {
        var more := Feed(schema, e, s, a.head);
        if more.Some? { WalkAppend(schema, e, more.value, a.tail, b); }
      }
    }
  }

  lemma {:induction false} WalkAbsent(schema: Schema, e: Entry, s: Slot, items: List<Item>)
    requires Absent(items, e.tag)
    ensures Walk(schema, e, s, items) == Some(s)
  {
    if items.Cons? { WalkAbsent(schema, e, s, items.tail); }
  }

  lemma {:induction false} AppendAssoc(a: List<Item>, b: List<Item>, c: List<Item>)
    ensures Append(a, Append(b, c)) == Append(Append(a, b), c)
  {
    if a.Cons? { AppendAssoc(a.tail, b, c); }
  }

  lemma {:induction false} AbsentAppend(a: List<Item>, b: List<Item>, tag: nat)
    ensures Absent(Append(a, b), tag) <==> Absent(a, tag) && Absent(b, tag)
  {
    if a.Cons? { AbsentAppend(a.tail, b, tag); }
  }

  lemma {:induction false} KnownAppend(es: List<Entry>, a: List<Item>, b: List<Item>)
    ensures Known(es, Append(a, b)) <==> Known(es, a) && Known(es, b)
  {
    if a.Cons? { KnownAppend(es, a.tail, b); }
  }

  lemma {:induction false} ArrayTags(c: Codec, schema: Schema, e: Entry, s: Slot, i: nat, es: List<Entry>, tag: nat)
    requires s.Many? && i <= |s.values|
    ensures tag != e.tag ==> Absent(MarshalArray(c, schema, e, s, i), tag)
    ensures HasTag(es, e.tag) ==> Known(es, MarshalArray(c, schema, e, s, i))
    decreases s, |if s.Many? then s.values else []| - i
  {
    if i < |s.values| { ArrayTags(c, schema, e, s, i + 1, es, tag); }
  }

  lemma SlotTags(c: Codec, schema: Schema, e: Entry, s: Slot, es: List<Entry>, tag: nat)
    ensures tag != e.tag ==> Absent(MarshalSlot(c, schema, e, s), tag)
    ensures HasTag(es, e.tag) ==> Known(es, MarshalSlot(c, schema, e, s))
  {
    if s.Many? { ArrayTags(c, schema, e, s, 0, es, tag); }
  }

  lemma {:induction false} MarshalAbsent(c: Codec, schema: Schema, es: List<Entry>, slots: List<Slot>, tag: nat)
    requires !HasTag(es, tag)
    ensures Absent(Marshal(c, schema, es, slots), tag)
    decreases es
  {
    if es.Cons? && slots.Cons? {
      SlotTags(c, schema, es.head, slots.head, es, tag);
      MarshalAbsent(c, schema, es.tail, slots.tail, tag);
      AbsentAppend(MarshalSlot(c, schema, es.head, slots.head), Marshal(c, schema, es.tail, slots.tail), tag);
    }
  }

  ghost predicate Covers(all: List<Entry>, es: List<Entry>) {
    forall tag :: HasTag(es, tag) ==> HasTag(all, tag)
  }

  lemma {:induction false} MarshalKnown(c: Codec, schema: Schema, all: List<Entry>, es: List<Entry>, slots: List<Slot>)
    requires Covers(all, es)
    ensures Known(all, Marshal(c, schema, es, slots))
    decreases es
  {
    if es.Cons? && slots.Cons? {
      assert HasTag(es, es.head.tag);
      SlotTags(c, schema, es.head, slots.head, all, es.head.tag);
      assert Covers(all, es.tail) by {
        forall tag | HasTag(es.tail, tag) ensures HasTag(all, tag) { assert HasTag(es, tag); }
      }
      MarshalKnown(c, schema, all, es.tail, slots.tail);
      KnownAppend(all, MarshalSlot(c, schema, es.head, slots.head), Marshal(c, schema, es.tail, slots.tail));
    }
  }

  /** A value comes back from its payload. */
  lemma {:induction false} DecodeEncode(c: Codec, schema: Schema, t: Type, v: Value)
    requires Sound(c) && UniqueTags(schema) && FitsValue(schema, t, v) && CompleteValue(schema, t, v)
    ensures Decode(schema, t, Encode(c, schema, v)) == Some(v)
    decreases v, 1
  {
    if t.Struct? { UnmarshalMarshal(c, schema, t.name, v.slots); }
  }

  lemma {:induction false} WalkArray(c: Codec, schema: Schema, e: Entry, s: Slot, i: nat)
    requires Sound(c) && UniqueTags(schema) && FitsSlot(schema, e, s) && CompleteSlot(schema, e, s)
    requires s.Many? && i <= |s.values|
    ensures Walk(schema, e, Many(s.values[..i]), MarshalArray(c, schema, e, s, i)) == Some(s)
    decreases s, 0, |if s.Many? then s.values else []| - i
  {
    if i < |s.values| {
      DecodeEncode(c, schema, e.typ, s.values[i]);
      assert s.values[..i] + [s.values[i]] == s.values[..i + 1];
      WalkArray(c, schema, e, s, i + 1);
    } else {
      assert s.values[..i] == s.values;
    }
  }

  lemma {:induction false} WalkSlot(c: Codec, schema: Schema, e: Entry, blank: Slot, s: Slot)
    requires Sound(c) && UniqueTags(schema) && FitsSlot(schema, e, s) && CompleteSlot(schema, e, s)
    requires blank == if e.arity == Array then Many([]) else Unset
    ensures Walk(schema, e, blank, MarshalSlot(c, schema, e, s)) == Some(s)
    decreases s, 1
  {
    match s
    case Unset =>
    case Set(v) => DecodeEncode(c, schema, e.typ, v); WalkOne(schema, e, Item(e.tag, Encode(c, schema, v)), v);
    case Many(vs) => assert vs[..0] == []; WalkArray(c, schema, e, s, 0);
  }

  lemma WalkOne(schema: Schema, e: Entry, item: Item, v: Value)
    requires item.tag == e.tag && Decode(schema, e.typ, item.payload) == Some(v)
    ensures Walk(schema, e, Unset, Cons(item, Nil)) == Some(Set(v))
  {
    assert Feed(schema, e, Unset, item) == Some(Set(v));
    assert Walk(schema, e, Set(v), Nil) == Some(Set(v));
  }

  ghost predicate NoneOf(es: List<Entry>, items: List<Item>) {
    es.Cons? ==> Absent(items, es.head.tag) && NoneOf(es.tail, items)
  }

  lemma {:induction false} NoneOfMore(c: Codec, schema: Schema, e: Entry, s: Slot, es: List<Entry>, before: List<Item>)
    requires NoneOf(es, before) && !HasTag(es, e.tag)
    ensures NoneOf(es, Append(before, MarshalSlot(c, schema, e, s)))
  {
    if es.Cons? {
      SlotTags(c, schema, e, s, es, es.head.tag);
      AbsentAppend(before, MarshalSlot(c, schema, e, s), es.head.tag);
      NoneOfMore(c, schema, e, s, es.tail, before);
    }
  }

  /** The entries find their own items wherever those are in the buffer. */
  lemma {:induction false} GatherMarshal(c: Codec, schema: Schema, es: List<Entry>, slots: List<Slot>,
    before: List<Item>)
    requires Sound(c) && UniqueTags(schema) && Unique(es) && Fits(schema, es, slots) && Complete(schema, es, slots)
    requires NoneOf(es, before)
    ensures Gather(schema, es, Fresh(es), Append(before, Marshal(c, schema, es, slots))) == Some(slots)
    decreases slots, 2
  {
    if es.Cons? {
      var e, blank := es.head, Fresh(es).head;
      var own, rest := MarshalSlot(c, schema, e, slots.head), Marshal(c, schema, es.tail, slots.tail);
      WalkSlot(c, schema, e, blank, slots.head);
      MarshalAbsent(c, schema, es.tail, slots.tail, e.tag);
      WalkThrough(schema, e, blank, slots.head, before, own, rest);
      NoneOfMore(c, schema, e, slots.head, es.tail, before);
      AppendAssoc(before, own, rest);
      GatherMarshal(c, schema, es.tail, slots.tail, Append(before, own));
    }
  }

  lemma WalkThrough(schema: Schema, e: Entry, blank: Slot, s: Slot, before: List<Item>, own: List<Item>,
    rest: List<Item>)
    requires Absent(before, e.tag) && Absent(rest, e.tag) && Walk(schema, e, blank, own) == Some(s)
    ensures Walk(schema, e, blank, Append(before, Append(own, rest))) == Some(s)
  {
    WalkAbsent(schema, e, blank, before);
    WalkAppend(schema, e, blank, before, Append(own, rest));
    WalkAppend(schema, e, blank, own, rest);
    WalkAbsent(schema, e, s, rest);
  }

  lemma {:induction false} NoneOfNothing(es: List<Entry>)
    ensures NoneOf(es, Nil)
  {
    if es.Cons? { NoneOfNothing(es.tail); }
  }

  /** The round trip, for every schema with unique tags and every complete message of it. */
  lemma {:induction false} UnmarshalMarshal(c: Codec, schema: Schema, name: string, slots: List<Slot>)
    requires Sound(c) && UniqueTags(schema)
    requires Fits(schema, EntriesOf(schema, name), slots) && Complete(schema, EntriesOf(schema, name), slots)
    ensures Unmarshal(schema, name, Marshal(c, schema, EntriesOf(schema, name), slots)) == Some(Message(name, slots))
    decreases slots, 3
  {
    var es := EntriesOf(schema, name);
    var items := Marshal(c, schema, es, slots);
    FreshAligned(es);
    MarshalKnown(c, schema, es, es, slots);
    RunIsGather(schema, es, Fresh(es), items);
    NoneOfNothing(es);
    GatherMarshal(c, schema, es, slots, Nil);
    assert Append(Nil, items) == items;
  }

  // ---- What is accepted ----

  lemma {:induction false} FreshFits(schema: Schema, es: List<Entry>)
    ensures Fits(schema, es, Fresh(es))
  {
    if es.Cons? { FreshFits(schema, es.tail); }
  }

  lemma {:induction false} DecodedFits(schema: Schema, t: Type, p: Payload)
    requires Decode(schema, t, p).Some?
    ensures FitsValue(schema, t, Decode(schema, t, p).value)
    decreases p, 1
  {
    if t.Struct? { AcceptedFits(schema, t.name, p.items.value); }
  }

  lemma {:induction false} DispatchFits(schema: Schema, es: List<Entry>, slots: List<Slot>, item: Item)
    requires Fits(schema, es, slots) && Dispatch(schema, es, slots, item).Some?
    ensures Fits(schema, es, Dispatch(schema, es, slots, item).value)
    decreases item, 2, es
  {
    if es.head.tag == item.tag {
      DecodedFits(schema, es.head.typ, item.payload);
      FedFits(schema, es.head, slots.head, item);
    } else {
      DispatchFits(schema, es.tail, slots.tail, item);
    }
  }

  lemma FedFits(schema: Schema, e: Entry, s: Slot, item: Item)
    requires FitsSlot(schema, e, s) && Feed(schema, e, s, item).Some?
    requires Decode(schema, e.typ, item.payload).Some? &&
      FitsValue(schema, e.typ, Decode(schema, e.typ, item.payload).value)
    ensures FitsSlot(schema, e, Feed(schema, e, s, item).value)
  {
  }

  lemma {:induction false} RunFits(schema: Schema, es: List<Entry>, slots: List<Slot>, items: List<Item>)
    requires Fits(schema, es, slots) && Run(schema, es, slots, items).Some?
    ensures Fits(schema, es, Run(schema, es, slots, items).value)
    decreases items, 1
  {
    if items.Cons? {
      DispatchFits(schema, es, slots, items.head);
      RunFits(schema, es, Dispatch(schema, es, slots, items.head).value, items.tail);
    }
  }

  /** Whatever is accepted is a well-typed message of the struct, complete at every depth. */
  lemma {:induction false} AcceptedFits(schema: Schema, name: string, items: List<Item>)
    requires Unmarshal(schema, name, items).Some?
    ensures FitsValue(schema, Struct(name), Unmarshal(schema, name, items).value)
    ensures CompleteValue(schema, Struct(name), Unmarshal(schema, name, items).value)
    decreases items, 2
  {
    var es := EntriesOf(schema, name);
    FreshFits(schema, es);
    RunFits(schema, es, Fresh(es), items);
  }

  /** And survives being marshalled and unmarshalled again, whatever the buffer it came from looked like. */
  lemma AcceptedSurvives(c: Codec, schema: Schema, name: string, items: List<Item>)
    requires Sound(c) && UniqueTags(schema) && Unmarshal(schema, name, items).Some?
    ensures var m := Unmarshal(schema, name, items).value;
      m.Message? && m.of == name &&
      Unmarshal(schema, name, Marshal(c, schema, EntriesOf(schema, name), m.slots)) == Some(m)
  {
    AcceptedFits(schema, name, items);
    var m := Unmarshal(schema, name, items).value;
    UnmarshalMarshal(c, schema, name, m.slots);
  }
}
