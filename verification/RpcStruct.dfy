/**
  A struct while `event_rpcgen.py` reads its declaration: the entries so far and the tags they have taken.
 */
module RpcStruct {
  import opened Options
  import opened RpcMessage
  import opened RpcRoundTrip
  import opened RpcOrder

  /** A declaration as `ProcessOneEntry` hands it on; `optional` and `array` are still two separate words. */
  datatype Declared = Declared(name: string, tag: nat, optional: bool, array_: bool, typ: Type)

  /** Why an entry is refused. */
  datatype Refusal = Accepted | NotAnArrayType | OptionalArray | DuplicateTag(other: string)

  predicate CanBeArray(t: Type) {
    t.Int? || t.Int64? || t.Text? || t.Struct?
  }

  /** `Entry.Verify`. */
  function Verify(d: Declared): Refusal {
    if d.array_ && !CanBeArray(d.typ) then NotAnArrayType
    else if d.optional && d.array_ then OptionalArray
    else Accepted
  }

  function EntryOf(d: Declared): Entry {
    Entry(d.tag, if d.array_ then Array else if d.optional then Optional else Required, d.typ)
  }

  /** An entry is what its declaration says. */
  ghost predicate Declares(d: Declared, e: Entry) {
    && e.tag == d.tag && e.typ == d.typ
    && (e.arity == Array <==> d.array_)
    && (e.arity == Optional <==> !d.array_ && d.optional)
    && (e.arity == Required <==> !d.array_ && !d.optional)
  }

  /** So it is, one by one, for a whole struct. */
  ghost predicate DeclaresAll(ds: List<Declared>, es: List<Entry>) {
    if ds.Nil? then es.Nil? else es.Cons? && Declares(ds.head, es.head) && DeclaresAll(ds.tail, es.tail)
  }

  ghost predicate In<T>(x: T, xs: List<T>) {
    xs.Cons? && (xs.head == x || In(x, xs.tail))
  }

  function Snoc<T>(xs: List<T>, x: T): List<T> {
    if xs.Nil? then Cons(x, Nil) else Cons(xs.head, Snoc(xs.tail, x))
  }

  lemma {:induction false} SnocDeclares(ds: List<Declared>, es: List<Entry>, d: Declared, e: Entry)
    requires DeclaresAll(ds, es) && Declares(d, e)
    ensures DeclaresAll(Snoc(ds, d), Snoc(es, e))
  {
    if ds.Cons? { SnocDeclares(ds.tail, es.tail, d, e); }
  }

  function Last<T>(xs: List<T>): T
    requires xs.Cons?
  {
    if xs.tail.Nil? then xs.head else Last(xs.tail)
  }

  lemma {:induction false} SnocLast<T>(xs: List<T>, x: T)
    ensures Snoc(xs, x).Cons? && Last(Snoc(xs, x)) == x
  {
    if xs.Cons? { SnocLast(xs.tail, x); }
  }

  lemma {:induction false} SnocTags(es: List<Entry>, e: Entry)
    ensures forall tag :: HasTag(Snoc(es, e), tag) <==> HasTag(es, tag) || tag == e.tag
  {
    if es.Cons? { SnocTags(es.tail, e); }
  }

  lemma {:induction false} SnocUnique(es: List<Entry>, e: Entry)
    requires Unique(es) && !HasTag(es, e.tag)
    ensures Unique(Snoc(es, e))
  {
    if es.Cons? {
      SnocUnique(es.tail, e);
      SnocTags(es.tail, e);
    }
  }

  /** An array is never of fixed or variable bytes. */
  ghost predicate Sensible(es: List<Entry>) {
    es.Cons? ==> (es.head.arity == Array ==> CanBeArray(es.head.typ)) && Sensible(es.tail)
  }

  lemma {:induction false} SnocSensible(es: List<Entry>, e: Entry)
    requires Sensible(es) && (e.arity == Array ==> CanBeArray(e.typ))
    ensures Sensible(Snoc(es, e))
  {
    if es.Cons? { SnocSensible(es.tail, e); }
  }

  class StructDecl {
    const name: string
    var entries: List<Entry>
    var tags: map<nat, string>

    /** The declarations that were accepted. */
    ghost var declared: List<Declared>

    ghost predicate Valid()
      reads this
    {
      && Unique(entries) && Sensible(entries) && DeclaresAll(declared, entries)
      && forall tag :: tag in tags <==> HasTag(entries, tag)
    }

    constructor (n: string)
      ensures Valid() && name == n && entries == Nil && declared == Nil
    {
      name, entries, tags, declared := n, Nil, map[], Nil;
    }

    /** The last steps of `ProcessOneEntry`: `Verify`, then `AddEntry`, which refuses a tag already taken. */
    method Add(d: Declared) returns (r: Refusal)
      requires Valid()
      modifies this
      ensures Valid()
      // Why it is refused, by the declaration and the tags so far.
      ensures r == NotAnArrayType <==> d.array_ && (d.typ.Fixed? || d.typ.Blob?)
      ensures r == OptionalArray <==> d.array_ && d.optional && !(d.typ.Fixed? || d.typ.Blob?)
      ensures r.DuplicateTag? <==>
        !(d.array_ && (d.optional || d.typ.Fixed? || d.typ.Blob?)) && HasTag(old(entries), d.tag)
      ensures r.DuplicateTag? ==> d.tag in old(tags) && r.other == old(tags)[d.tag]
      // What is added.
      ensures r.Accepted? ==> exists e :: Declares(d, e) && entries == Snoc(old(entries), e) && Last(entries) == e
      ensures r.Accepted? ==> declared == Snoc(old(declared), d) && tags == old(tags)[d.tag := d.name]
      ensures !r.Accepted? ==> entries == old(entries) && tags == old(tags) && declared == old(declared)
    {
      r := Verify(d);
      if !r.Accepted? { return; }
      if d.tag in tags { return DuplicateTag(tags[d.tag]); }
      var e := EntryOf(d);
      SnocUnique(entries, e);
      SnocTags(entries, e);
      SnocSensible(entries, e);
      SnocDeclares(declared, entries, d, e);
      SnocLast(entries, e);
      entries := Snoc(entries, e);
      tags := tags[d.tag := d.name];
      declared := Snoc(declared, d);
    }
  }

  ghost predicate LastOfName(structs: seq<StructDecl>, i: nat, n: nat)
    requires i < n <= |structs|
  {
    forall j :: i < j < n ==> structs[j].name != structs[i].name
  }

  /** What a file of declarations describes: each struct, the last of its name, with the entries that were accepted. */
  method SchemaOf(structs: seq<StructDecl>) returns (schema: Schema)
    requires forall i :: 0 <= i < |structs| ==> structs[i].Valid()
    ensures UniqueTags(schema)
    ensures forall i :: 0 <= i < |structs| && LastOfName(structs, i, |structs|) ==>
      EntriesOf(schema, structs[i].name) == structs[i].entries
    ensures forall name :: name in schema ==> exists i :: 0 <= i < |structs| && structs[i].name == name
  {
    schema := map[];
    for i := 0 to |structs|
      invariant UniqueTags(schema)
      invariant forall j :: 0 <= j < i && LastOfName(structs, j, i) ==>
        structs[j].name in schema && schema[structs[j].name] == structs[j].entries
      invariant forall name :: name in schema ==> exists j :: 0 <= j < i && structs[j].name == name
    {
      schema := schema[structs[i].name := structs[i].entries];
    }
  }

  // ---- What the declaration means for a buffer ----

  /** Every entry but those of one tag is content with the items of its tag. */
  ghost predicate OthersAccept(schema: Schema, es: List<Entry>, tag: nat, items: List<Item>) {
    es.Cons? ==>
      (es.head.tag != tag ==> EntryAccepts(schema, es.head, items)) && OthersAccept(schema, es.tail, tag, items)
  }

  lemma {:induction false} OneEntryDecides(schema: Schema, es: List<Entry>, e: Entry, items: List<Item>)
    requires Unique(es) && In(e, es) && OthersAccept(schema, es, e.tag, items)
    ensures Accepts(schema, es, items) <==> EntryAccepts(schema, e, items)
  {
    if es.head == e {
      OthersDecide(schema, es.tail, e.tag, items);
    } else {
      InHasTag(es.tail, e);
      OneEntryDecides(schema, es.tail, e, items);
    }
  }

  lemma {:induction false} OthersDecide(schema: Schema, es: List<Entry>, tag: nat, items: List<Item>)
    requires !HasTag(es, tag) && OthersAccept(schema, es, tag, items)
    ensures Accepts(schema, es, items)
  {
    if es.Cons? { OthersDecide(schema, es.tail, tag, items); }
  }

  lemma {:induction false} InHasTag(es: List<Entry>, e: Entry)
    requires In(e, es)
    ensures HasTag(es, e.tag)
  {
    if es.head != e { InHasTag(es.tail, e); }
  }

  lemma {:induction false} DeclaredHasEntry(ds: List<Declared>, es: List<Entry>, d: Declared) returns (e: Entry)
    requires DeclaresAll(ds, es) && In(d, ds)
    ensures In(e, es) && Declares(d, e)
  {
    if ds.head == d { e := es.head; } else { e := DeclaredHasEntry(ds.tail, es.tail, d); }
  }

  /**
    A buffer without an item of a field that is no array, and otherwise as it should be, is refused if and only if the
    field was declared without `optional`.
   */
  lemma MissingFieldRefused(schema: Schema, s: StructDecl, d: Declared, items: List<Item>)
    requires s.Valid() && UniqueTags(schema) && EntriesOf(schema, s.name) == s.entries
    requires In(d, s.declared) && !d.array_ && Only(items, d.tag).Nil?
    requires Known(s.entries, items) && OthersAccept(schema, s.entries, d.tag, items)
    ensures Unmarshal(schema, s.name, items).None? <==> !d.optional
  {
    var e := DeclaredHasEntry(s.declared, s.entries, d);
    OneEntryDecides(schema, s.entries, e, items);
    UnmarshalAccepts(schema, s.name, items);
  }

  /** Whatever else the buffer holds, it is refused without an item of a field that is neither optional nor an array. */
  lemma RequiredFieldNeeded(schema: Schema, s: StructDecl, d: Declared, items: List<Item>)
    requires s.Valid() && UniqueTags(schema) && EntriesOf(schema, s.name) == s.entries
    requires In(d, s.declared) && !d.array_ && !d.optional && Only(items, d.tag).Nil?
    ensures Unmarshal(schema, s.name, items).None?
  {
    var e := DeclaredHasEntry(s.declared, s.entries, d);
    UnmarshalAccepts(schema, s.name, items);
    if Accepts(schema, s.entries, items) { AcceptsEach(schema, s.entries, e, items); }
  }

  lemma {:induction false} AcceptsEach(schema: Schema, es: List<Entry>, e: Entry, items: List<Item>)
    requires In(e, es) && Accepts(schema, es, items)
    ensures EntryAccepts(schema, e, items)
  {
    if es.head != e { AcceptsEach(schema, es.tail, e, items); }
  }
}
