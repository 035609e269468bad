/**
  Messages of `event_rpcgen.py`: the schema a struct declaration describes, the messages of that schema, and what the
  generated `marshal`, `unmarshal` and `complete` functions do.

  A buffer is a list of tagged items.  What libevent makes of an item's payload, as plain bytes, as an integer and as a
  buffer of its own, is part of the payload; how it encodes each of the three is a parameter.
 */
module RpcMessage {
  import opened Options

  datatype List<+T> = Nil | Cons(head: T, tail: List<T>)

  type byte = x: int | 0 <= x < 256

  // ---- Schemas ----

  datatype Type = Int | Int64 | Text | Fixed(length: nat) | Blob | Struct(name: string)
  datatype Arity = Required | Optional | Array
  datatype Entry = Entry(tag: nat, arity: Arity, typ: Type)

  type Schema = map<string, List<Entry>>

  /** A struct that is not declared does not link; it is taken to have no entries. */
  function EntriesOf(schema: Schema, name: string): List<Entry> {
    if name in schema then schema[name] else Nil
  }

  predicate HasTag(es: List<Entry>, tag: nat) {
    es.Cons? && (es.head.tag == tag || HasTag(es.tail, tag))
  }

  ghost predicate Unique(es: List<Entry>) {
    es.Cons? ==> !HasTag(es.tail, es.head.tag) && Unique(es.tail)
  }

  ghost predicate UniqueTags(schema: Schema) {
    forall name :: name in schema ==> Unique(schema[name])
  }

  // ---- Messages ----

  datatype Value = Number(n: nat) | Bytes(bytes: seq<byte>) | Message(of: string, slots: List<Slot>)

  /** A field with its `_set` flag; an array is set when it has an element. */
  datatype Slot = Unset | Set(value: Value) | Many(values: seq<Value>)

  function Fresh(es: List<Entry>): List<Slot> {
    if es.Nil? then Nil else Cons(if es.head.arity == Array then Many([]) else Unset, Fresh(es.tail))
  }

  // ---- Buffers ----

  datatype Item = Item(tag: nat, payload: Payload)
  datatype Payload = Payload(raw: seq<byte>, number: Option<nat>, items: Option<List<Item>>)

  /** libevent's encoders. */
  datatype Codec = Codec(ofNumber: nat -> Payload, ofBytes: seq<byte> -> Payload, ofItems: List<Item> -> Payload)

  ghost predicate Sound(c: Codec) {
    && (forall n: nat :: c.ofNumber(n).number == Some(n))
    && (forall b :: c.ofBytes(b).raw == b)
    && (forall l :: c.ofItems(l).items == Some(l))
  }

  function Append(a: List<Item>, b: List<Item>): List<Item> {
    if a.Nil? then b else Cons(a.head, Append(a.tail, b))
  }

  // ---- Marshalling ----

  function Encode(c: Codec, schema: Schema, v: Value): Payload
    decreases v, 1
  {
    match v
    case Number(n) => c.ofNumber(n)
    case Bytes(b) => c.ofBytes(b)
    case Message(of, slots) => c.ofItems(Marshal(c, schema, EntriesOf(schema, of), slots))
  }

  function MarshalSlot(c: Codec, schema: Schema, e: Entry, s: Slot): List<Item>
    decreases s, 1
  {
    match s
    case Unset => Nil
    case Set(v) => Cons(Item(e.tag, Encode(c, schema, v)), Nil)
    case Many(_) => MarshalArray(c, schema, e, s, 0)
  }

  function MarshalArray(c: Codec, schema: Schema, e: Entry, s: Slot, i: nat): List<Item>
    requires s.Many? && i <= |s.values|
    decreases s, 0, |s.values| - i
  {
    if i == |s.values| then Nil
    else Cons(Item(e.tag, Encode(c, schema, s.values[i])), MarshalArray(c, schema, e, s, i + 1))
  }

  /** The generated `marshal`, entry by entry. */
  function Marshal(c: Codec, schema: Schema, es: List<Entry>, slots: List<Slot>): List<Item>
    decreases slots, 2
  {
    if es.Nil? || slots.Nil? then Nil
    else Append(MarshalSlot(c, schema, es.head, slots.head), Marshal(c, schema, es.tail, slots.tail))
  }

  // ---- Completeness ----

  predicate CompleteValue(schema: Schema, t: Type, v: Value)
    decreases v, 1
  {
    t.Struct? ==> v.Message? && Complete(schema, EntriesOf(schema, v.of), v.slots)
  }

  predicate CompleteSlot(schema: Schema, e: Entry, s: Slot)
    decreases s, 1
  {
    match s
    case Unset => e.arity != Required
    case Set(v) => CompleteValue(schema, e.typ, v)
    case Many(vs) => forall i :: 0 <= i < |vs| ==> CompleteValue(schema, e.typ, vs[i])
  }

  /** The generated `complete`: every required field is set, and the messages inside are complete. */
  predicate Complete(schema: Schema, es: List<Entry>, slots: List<Slot>)
    decreases slots, 2
  {
    es.Cons? && slots.Cons? ==> CompleteSlot(schema, es.head, slots.head) && Complete(schema, es.tail, slots.tail)
  }

  /** A required field is not set here, or somewhere below. */
  ghost predicate Lacks(schema: Schema, es: List<Entry>, slots: List<Slot>)
    decreases slots, 2
  {
    es.Cons? && slots.Cons? && (SlotLacks(schema, es.head, slots.head) || Lacks(schema, es.tail, slots.tail))
  }

  ghost predicate SlotLacks(schema: Schema, e: Entry, s: Slot)
    decreases s, 1
  {
    match s
    case Unset => e.arity != Optional && e.arity != Array
    case Set(v) => e.typ.Struct? && MessageLacks(schema, v)
    case Many(vs) => e.typ.Struct? && exists i :: 0 <= i < |vs| && MessageLacks(schema, vs[i])
  }

  ghost predicate MessageLacks(schema: Schema, v: Value)
    decreases v, 1
  {
    !v.Message? || Lacks(schema, EntriesOf(schema, v.of), v.slots)
  }

  lemma {:induction false} CompleteExactly(schema: Schema, es: List<Entry>, slots: List<Slot>)
    ensures Complete(schema, es, slots) <==> !Lacks(schema, es, slots)
    decreases slots, 2
  {
    if es.Cons? && slots.Cons? {
      SlotCompleteExactly(schema, es.head, slots.head);
      CompleteExactly(schema, es.tail, slots.tail);
    }
  }

  lemma {:induction false} SlotCompleteExactly(schema: Schema, e: Entry, s: Slot)
    ensures CompleteSlot(schema, e, s) <==> !SlotLacks(schema, e, s)
    decreases s, 1
  {
    match s
    case Unset =>
    case Set(v) => if v.Message? { CompleteExactly(schema, EntriesOf(schema, v.of), v.slots); }
    case Many(vs) =>
      forall i | 0 <= i < |vs| ensures CompleteValue(schema, e.typ, vs[i]) <==>
        !(e.typ.Struct? && MessageLacks(schema, vs[i]))
      {
        if vs[i].Message? { CompleteExactly(schema, EntriesOf(schema, vs[i].of), vs[i].slots); }
      }
  }

  // ---- Unmarshalling ----

  function UpToNul(b: seq<byte>): (r: seq<byte>)
    ensures r <= b && 0 !in r && (|r| < |b| ==> b[|r|] == 0) && (0 !in b ==> r == b)
  {
    if b == [] || b[0] == 0 then [] else [b[0]] + UpToNul(b[1..])
  }

  function Limit(t: Type): nat {
    if t.Int? then 0x1_0000_0000 else 0x1_0000_0000_0000_0000
  }

  /** One payload read as a value of type `t`. */
  function Decode(schema: Schema, t: Type, p: Payload): Option<Value>
    decreases p, 1
  {
    match t
    case Int => if p.number.Some? && p.number.value < Limit(t) then Some(Number(p.number.value)) else None
    case Int64 => if p.number.Some? && p.number.value < Limit(t) then Some(Number(p.number.value)) else None
    case Text => Some(Bytes(UpToNul(p.raw)))
    case Fixed(n) => if |p.raw| == n then Some(Bytes(p.raw)) else None
    case Blob => Some(Bytes(p.raw))
    case Struct(name) => if p.items.None? then None else Unmarshal(schema, name, p.items.value)
  }

  /** One case of the generated switch. */
  function Feed(schema: Schema, e: Entry, s: Slot, item: Item): Option<Slot>
    decreases item, 1
  {
    if s.Set? then None else
      match Decode(schema, e.typ, item.payload)
      case None => None
      case Some(v) => Some(if s.Many? then Many(s.values + [v]) else Set(v))
  }

  /** The generated switch. */
  function Dispatch(schema: Schema, es: List<Entry>, slots: List<Slot>, item: Item): Option<List<Slot>>
    decreases item, 2, es
  {
    if es.Nil? || slots.Nil? then None
    else if es.head.tag == item.tag then
      match Feed(schema, es.head, slots.head, item)
      case None => None
      case Some(s) => Some(Cons(s, slots.tail))
    else
      match Dispatch(schema, es.tail, slots.tail, item)
      case None => None
      case Some(rest) => Some(Cons(slots.head, rest))
  }

  /** The generated loop. */
  function Run(schema: Schema, es: List<Entry>, slots: List<Slot>, items: List<Item>): Option<List<Slot>>
    decreases items, 1
  {
    if items.Nil? then Some(slots) else
      match Dispatch(schema, es, slots, items.head)
      case None => None
      case Some(more) => Run(schema, es, more, items.tail)
  }

  function Unmarshal(schema: Schema, name: string, items: List<Item>): Option<Value>
    decreases items, 2
  {
    var es := EntriesOf(schema, name);
    match Run(schema, es, Fresh(es), items)
    case None => None
    case Some(slots) => if Complete(schema, es, slots) then Some(Message(name, slots)) else None
  }

  /** `unmarshal` as it is generated: a loop over the buffer. */
  method UnmarshalLoop(schema: Schema, name: string, items: List<Item>) returns (r: Option<Value>)
    ensures r == Unmarshal(schema, name, items)
  {
    var es := EntriesOf(schema, name);
    var slots, rest := Fresh(es), items;
    while rest.Cons?
      invariant Run(schema, es, slots, rest) == Run(schema, es, Fresh(es), items)
      decreases rest
    {
      var more := Dispatch(schema, es, slots, rest.head);
      if more.None? { return None; }
      slots, rest := more.value, rest.tail;
    }
    if !Complete(schema, es, slots) { return None; }
    return Some(Message(name, slots));
  }
}
