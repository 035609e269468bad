/**
  Exactly what the parser takes, and that whatever it reports is written in the buffer.  A reply's spelling is said
  here without the parser; it differs from the printed form in the freedom of lengths (leading zeros, any negative
  number for null) and in the two bytes behind a bulk string, which are skipped unread.
 */
module RespSound {
  import opened RespParser

  // ---- Numerals ----

  ghost predicate AllDigits(s: string, i: nat, p: nat) {
    p <= |s| && forall j :: i <= j < p ==> IsDigit(s[j])
  }

  /** The number written between `i` and `p`, the last digit being the units. */
  ghost function NumeralValue(s: string, i: nat, p: nat): nat
    requires i <= p && AllDigits(s, i, p)
  {
    if i == p then 0 else 10 * NumeralValue(s, i, p - 1) + DigitValue(s[p - 1])
  }

  lemma {:induction false} DigitsSound(s: string, i: nat, j: nat, end: nat, len: nat)
    requires i <= j <= end <= |s| && AllDigits(s, i, j) && NumeralValue(s, i, j) == len <= INT_MAX
    ensures var r := ReadDigits(s, j, end, len);
      && (r.Done? ==> AllDigits(s, i, end) && r.value == NumeralValue(s, i, end))
      && (AllDigits(s, i, end) && NumeralValue(s, i, end) <= INT_MAX ==> r.Done?)
    decreases end - j
  {
    if j < end {
      if IsDigit(s[j]) {
        assert AllDigits(s, i, j + 1);
        var more := len * 10 + DigitValue(s[j]);
        assert NumeralValue(s, i, j + 1) == more;
        if more <= INT_MAX {
          DigitsSound(s, i, j + 1, end, more);
        } else if AllDigits(s, i, end) {
          ValueGrows(s, i, j + 1, end);
        }
      }
    }
  }

  lemma {:induction false} ValueGrows(s: string, i: nat, j: nat, end: nat)
    requires i <= j <= end && AllDigits(s, i, end)
    ensures AllDigits(s, i, j) && NumeralValue(s, i, j) <= NumeralValue(s, i, end)
    decreases end
  {
    if j < end { ValueGrows(s, i, j, end - 1); }
  }

  ghost predicate FirstClr(s: string, i: nat, p: nat) {
    i <= p && IsClr(s, p) && forall j :: i <= j < p ==> !IsClr(s, j)
  }

  /** A signed numeral that fits an `int`, from `i` to the line end at `p`; no digits at all are a zero. */
  ghost predicate SpellsLength(s: string, i: nat, p: nat, v: int) {
    && FirstClr(s, i, p)
    && var negative := i < p && s[i] == '-';
    var d := if negative then i + 1 else i;
    AllDigits(s, d, p) && var n: int := NumeralValue(s, d, p); n <= 0x7FFF_FFFF && v == if negative then -n else n
  }

  lemma LengthIsSpelled(s: string, i: nat, p: nat, v: int)
    ensures ParseLength(s, i) == Done(v, p + 2) <==> SpellsLength(s, i, p, v)
  {
    var c := Clr(s, i);
    if c.Some? {
      var d := if i < c.value && s[i] == '-' then i + 1 else i;
      DigitsSound(s, d, d, c.value, 0);
      assert FirstClr(s, i, p) <==> p == c.value;
    }
  }

  // ---- Items, arrays, replies ----

  ghost predicate SpellsLine(s: string, i: nat, q: nat, text: string) {
    i + 2 <= q <= |s| && FirstClr(s, i, q - 2) && s[i..q - 2] == text
  }

  /** The bytes counted, or null; the room for `n + 2` bytes is asked for in either case. */
  ghost predicate SpellsBulkAt(s: string, i: nat, p: nat, q: nat, text: string, n: int) {
    && SpellsLength(s, i, p, n) && n + 2 <= 0x7FFF_FFFF && p + 2 + n + 2 <= |s|
    && (n < 0 ==> q == p + 2 && text == "")
    && (n >= 0 ==> q == p + 2 + n + 2 && text == s[p + 2..p + 2 + n])
  }

  ghost predicate SpellsBulk(s: string, i: nat, q: nat, text: string) {
    exists p: nat, n: int :: SpellsBulkAt(s, i, p, q, text, n)
  }

  ghost predicate SpellsItem(s: string, i: nat, q: nat, text: string) {
    && i < |s|
    && (s[i] == '+' || s[i] == '-' || s[i] == ':' ==> SpellsLine(s, i + 1, q, text))
    && (!(s[i] == '+' || s[i] == '-' || s[i] == ':') ==> s[i] == '$' && SpellsBulk(s, i + 1, q, text))
  }

  /** The things from the `k`th on stand one behind the other from `i` to `q`. */
  ghost predicate Chain<T>(spells: (nat, nat, T) -> bool, i: nat, q: nat, all: seq<T>, k: nat)
    decreases |all| - k
  {
    if k >= |all| then i == q
    else exists m: nat :: spells(i, m, all[k]) && Chain(spells, m, q, all, k + 1)
  }

  ghost function ItemSpelling(s: string): (nat, nat, string) -> bool {
    (i: nat, q: nat, text: string) => SpellsItem(s, i, q, text)
  }

  /** Lines and bulk strings one behind the other; none of them is an array. */
  ghost predicate SpellsItems(s: string, i: nat, q: nat, texts: seq<string>) {
    Chain(ItemSpelling(s), i, q, texts, 0)
  }

  ghost predicate SpellsArrayAt(s: string, i: nat, p: nat, q: nat, texts: seq<string>) {
    SpellsLength(s, i, p, |texts|) && SpellsItems(s, p + 2, q, texts)
  }

  ghost predicate SpellsArray(s: string, i: nat, q: nat, texts: seq<string>) {
    exists p: nat :: SpellsArrayAt(s, i, p, q, texts)
  }

  ghost predicate SpellsReply(s: string, i: nat, q: nat, e: Event) {
    i < |s| &&
      match e
      case Text(kind, text) => kind == s[i] && SpellsItem(s, i, q, text)
      case Texts(texts) => s[i] == '*' && SpellsArray(s, i + 1, q, texts)
  }

  ghost function ReplySpelling(s: string): (nat, nat, Event) -> bool {
    (i: nat, q: nat, e: Event) => SpellsReply(s, i, q, e)
  }

  ghost predicate SpellsReplies(s: string, i: nat, q: nat, es: seq<Event>) {
    Chain(ReplySpelling(s), i, q, es, 0)
  }

  lemma BulkIsSpelled(s: string, i: nat, q: nat, text: string)
    ensures ParseBulk(s, i) == Done(text, q) <==> SpellsBulk(s, i, q, text)
  {
    var len := ParseLength(s, i);
    if len.Done? { LengthIsSpelled(s, i, len.next - 2, len.value); }
    if ParseBulk(s, i) == Done(text, q) {
      assert SpellsBulkAt(s, i, len.next - 2, q, text, len.value);
    }
    if SpellsBulk(s, i, q, text) {
      var p: nat, n: int :| SpellsBulkAt(s, i, p, q, text, n);
      LengthIsSpelled(s, i, p, n);
    }
  }

  lemma ItemIsSpelled(s: string, i: nat, q: nat, text: string)
    requires i < |s|
    ensures ParseItem(s, i) == Done(text, q) <==> SpellsItem(s, i, q, text)
  {
    if IsLineKind(s[i]) {
      var c := Clr(s, i + 1);
      assert c.Some? && q >= 2 ==> (FirstClr(s, i + 1, q - 2) <==> q - 2 == c.value);
    } else {
      BulkIsSpelled(s, i + 1, q, text);
    }
  }

  // ---- The element loop, around any parser of one element ----

  ghost function Times<T>(one: nat -> Parse<T>, end: nat, i: nat, count: nat, done: seq<T>): Parse<seq<T>>
    decreases count
  {
    if count == 0 then Done(done, i)
    else if i >= end then Partial
    else
      match one(i)
      case Fail(f) => Fail(f)
      case Partial => Partial
      case Done(x, p) => Times(one, end, p, count - 1, done + [x])
  }

  ghost predicate Exact<T(!new)>(one: nat -> Parse<T>, spells: (nat, nat, T) -> bool, end: nat) {
    forall i: nat, q: nat, x: T :: spells(i, q, x) <==> i < end && one(i) == Done(x, q)
  }

  lemma {:induction false} TimesSound<T(!new)>(one: nat -> Parse<T>, spells: (nat, nat, T) -> bool, end: nat, i: nat,
    count: nat, done: seq<T>, all: seq<T>, q: nat)
    requires Exact(one, spells, end) && Times(one, end, i, count, done) == Done(all, q)
    ensures |all| == |done| + count && done <= all && Chain(spells, i, q, all, |done|)
    decreases count
  {
    if count > 0 {
      var Done(x, m) := one(i);
      TimesSound(one, spells, end, m, count - 1, done + [x], all, q);
      assert spells(i, m, all[|done|]);
    }
  }

  lemma {:induction false} TimesComplete<T(!new)>(one: nat -> Parse<T>, spells: (nat, nat, T) -> bool, end: nat, i: nat,
    count: nat, done: seq<T>, all: seq<T>, q: nat)
    requires Exact(one, spells, end) && |all| == |done| + count && done <= all && Chain(spells, i, q, all, |done|)
    ensures Times(one, end, i, count, done) == Done(all, q)
    decreases count
  {
    if count > 0 {
      var m: nat :| spells(i, m, all[|done|]) && Chain(spells, m, q, all, |done| + 1);
      TimesComplete(one, spells, end, m, count - 1, done + [all[|done|]], all, q);
    } else {
      assert all == done;
    }
  }

  lemma {:induction false} LoopIsTimes<T(!new)>(loop: (nat, nat, seq<T>) -> Parse<seq<T>>, one: nat -> Parse<T>,
    end: nat, i: nat, count: nat, done: seq<T>)
    requires i <= end && forall i: nat :: (i >= end ==> one(i) == Partial) && (one(i).Done? ==> one(i).next <= end)
    requires forall i: nat, done: seq<T> :: i <= end ==> loop(i, 0, done) == Done(done, i)
    requires forall i: nat, count: nat, done: seq<T> :: ItemsTurn(loop, one(i), i, count, done)
    ensures loop(i, count, done) == Times(one, end, i, count, done)
    decreases count
  {
    if count > 0 {
      assert ItemsTurn(loop, one(i), i, count - 1, done);
      if one(i).Done? { LoopIsTimes(loop, one, end, one(i).next, count - 1, done + [one(i).value]); }
    }
  }

  lemma ItemsAreTimes(s: string, i: nat, count: nat, texts: seq<string>)
    requires i <= |s|
    ensures ParseItems(s, i, count, texts) == Times(ItemParser(s), |s|, i, count, texts)
  {
    forall i: nat, count: nat, done: seq<string>
      ensures ItemsTurn(ItemsLoop(s), ItemParser(s)(i), i, count, done)
      ensures i <= |s| ==> ItemsLoop(s)(i, 0, done) == Done(done, i)
    {
      ItemsLoopTurns(s, i, count, done);
    }
    LoopIsTimes(ItemsLoop(s), ItemParser(s), |s|, i, count, texts);
  }

  lemma ItemsExact(s: string)
    ensures Exact(ItemParser(s), ItemSpelling(s), |s|)
  {
    forall i: nat, q: nat, x: string
      ensures ItemSpelling(s)(i, q, x) <==> i < |s| && ItemParser(s)(i) == Done(x, q)
    {
      if i < |s| { ItemIsSpelled(s, i, q, x); }
    }
  }

  lemma ArraySound(s: string, i: nat, q: nat, texts: seq<string>, n: int, h: nat)
    requires ParseArray(s, i) == Done(texts, q) && ParseLength(s, i) == Done(n, h)
    ensures h >= 2 && SpellsArrayAt(s, i, h - 2, q, texts)
  {
    LengthIsSpelled(s, i, h - 2, n);
    ItemsExact(s);
    ItemsAreTimes(s, h, n, []);
    TimesSound(ItemParser(s), ItemSpelling(s), |s|, h, n, [], texts, q);
  }

  lemma ArrayComplete(s: string, i: nat, p: nat, q: nat, texts: seq<string>)
    requires SpellsArrayAt(s, i, p, q, texts)
    ensures ParseArray(s, i) == Done(texts, q)
  {
    LengthIsSpelled(s, i, p, |texts|);
    ItemsExact(s);
    ItemsAreTimes(s, p + 2, |texts|, []);
    TimesComplete(ItemParser(s), ItemSpelling(s), |s|, p + 2, |texts|, [], texts, q);
  }

  lemma ArrayIsSpelled(s: string, i: nat, q: nat, texts: seq<string>)
    ensures ParseArray(s, i) == Done(texts, q) <==> SpellsArray(s, i, q, texts)
  {
    if ParseArray(s, i) == Done(texts, q) {
      ArraySound(s, i, q, texts, ParseLength(s, i).value, ParseLength(s, i).next);
    }
    if p: nat :| SpellsArrayAt(s, i, p, q, texts) { ArrayComplete(s, i, p, q, texts); }
  }

  /** The parser takes exactly the spelled replies. */
  lemma ReplyIsSpelled(s: string, i: nat, q: nat, e: Event)
    requires i < |s|
    ensures ParseOne(s, i) == Done(e, q) <==> SpellsReply(s, i, q, e)
  {
    match e
    case Text(kind, text) => ItemIsSpelled(s, i, q, text);
    case Texts(texts) => ArrayIsSpelled(s, i + 1, q, texts);
  }

  ghost function Reported(o: Outcome): seq<Event> {
    match o case Returned(es, _) => es case Thrown(es, _) => es
  }

  lemma ChainFirst<T>(spells: (nat, nat, T) -> bool, i: nat, m: nat, q: nat, all: seq<T>, k: nat)
    requires k < |all| && spells(i, m, all[k]) && Chain(spells, m, q, all, k + 1)
    ensures Chain(spells, i, q, all, k)
  {
  }

  /** A loop around any parser of one reply. */
  lemma {:induction false} LoopSound(from: (nat, seq<Event>) -> Outcome, one: nat -> Parse<Event>,
    spells: (nat, nat, Event) -> bool, end: nat, i: nat, es: seq<Event>) returns (q: nat)
    requires i <= end && Exact(one, spells, end) && forall i: nat, es: seq<Event> :: Turn(from, one(i), i, es)
    requires forall i: nat :: (one(i).Done? ==> i < one(i).next <= end) && (i >= end ==> one(i) == Partial)
    ensures var o := from(i, es);
      es <= Reported(o) && Chain(spells, i, q, Reported(o), |es|) && (o.Returned? ==> q == o.consumed)
    decreases end - i
  {
    assert Turn(from, one(i), i, es);
    if one(i).Done? {
      q := LoopSound(from, one, spells, end, one(i).next, es + [one(i).value]);
      assert spells(i, one(i).next, one(i).value);
      ChainFirst(spells, i, one(i).next, q, Reported(from(i, es)), |es|);
    } else {
      q := i;
    }
  }

  lemma RepliesExact(s: string)
    ensures Exact(ReplyParser(s), ReplySpelling(s), |s|)
  {
    forall i: nat, q: nat, e: Event
      ensures ReplySpelling(s)(i, q, e) <==> i < |s| && ReplyParser(s)(i) == Done(e, q)
    {
      if i < |s| { ReplyIsSpelled(s, i, q, e); }
    }
  }

  /** On any buffer, thrown or not: the callbacks are the replies spelled at its start, up to the returned length. */
  lemma ReportsAreSpelled(s: string) returns (q: nat)
    ensures SpellsReplies(s, 0, q, Reported(ParseReply(s)))
    ensures ParseReply(s).Returned? ==> q == ParseReply(s).consumed
  {
    RepliesExact(s);
    forall i: nat, es: seq<Event>
      ensures Turn(Loop(s), ReplyParser(s)(i), i, es)
      ensures ReplyParser(s)(i).Done? ==> i < ReplyParser(s)(i).next <= |s|
    {
      LoopTurns(s, i, es);
    }
    q := LoopSound(Loop(s), ReplyParser(s), ReplySpelling(s), |s|, 0, []);
  }
}
