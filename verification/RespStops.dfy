/**
  The other two outcomes: exactly when the parser refuses, with which fault, and exactly when it waits for more.  As
  with the spellings, this is said of the buffer alone.
 */
module RespStops {
  import opened Options
  import opened RespParser
  import opened RespSound

  // ---- Lengths ----

  /** No CR LF from `i` on. */
  ghost predicate NoLineEnd(s: string, i: nat) {
    forall j :: i <= j ==> !IsClr(s, j)
  }

  /** Where the digits of a length start. */
  function DigitsFrom(s: string, i: nat, p: nat): nat {
    if i < p && i < |s| && s[i] == '-' then i + 1 else i
  }

  /** The digits are read up to `j`, and there one is missing, or one too many. */
  ghost predicate StopsAt(s: string, d: nat, p: nat, j: nat, f: Fault) {
    && d <= j < p <= |s| && AllDigits(s, d, j) && NumeralValue(s, d, j) <= 0x7FFF_FFFF
    && (if !IsDigit(s[j]) then f == BadLength
        else f == LengthOverflow && 10 * NumeralValue(s, d, j) + DigitValue(s[j]) > 0x7FFF_FFFF)
  }

  ghost predicate DigitsStop(s: string, d: nat, p: nat, f: Fault) {
    exists j: nat :: StopsAt(s, d, p, j, f)
  }

  lemma {:induction false} ReadDigitsStops(s: string, d: nat, j: nat, p: nat, len: nat)
    requires d <= j <= p <= |s| && AllDigits(s, d, j) && NumeralValue(s, d, j) == len <= 0x7FFF_FFFF
    ensures !ReadDigits(s, j, p, len).Partial?
    ensures ReadDigits(s, j, p, len).Fail? ==> DigitsStop(s, d, p, ReadDigits(s, j, p, len).fault)
    decreases p - j
  {
    if j < p {
      if !IsDigit(s[j]) {
        assert StopsAt(s, d, p, j, BadLength);
      } else if len * 10 + DigitValue(s[j]) > 0x7FFF_FFFF {
        assert StopsAt(s, d, p, j, LengthOverflow);
      } else {
        assert AllDigits(s, d, j + 1);
        ReadDigitsStops(s, d, j + 1, p, len * 10 + DigitValue(s[j]));
      }
    }
  }

  /** And back: what stops there is what fails. */
  lemma {:induction false} StopFails(s: string, d: nat, i: nat, p: nat, len: nat, j: nat, f: Fault)
    requires d <= i <= j && StopsAt(s, d, p, j, f) && AllDigits(s, d, i) && NumeralValue(s, d, i) == len
    ensures len <= 0x7FFF_FFFF && ReadDigits(s, i, p, len) == Fail(f)
    decreases j - i
  {
    ValueGrows(s, d, i, j);
    if i < j {
      assert AllDigits(s, d, i + 1);
      ValueGrows(s, d, i + 1, j);
      StopFails(s, d, i + 1, p, len * 10 + DigitValue(s[i]), j, f);
    }
  }

  ghost predicate LengthFails(s: string, i: nat, f: Fault) {
    exists p: nat :: FirstClr(s, i, p) && DigitsStop(s, DigitsFrom(s, i, p), p, f)
  }

  lemma LengthStops(s: string, i: nat)
    ensures ParseLength(s, i).Partial? <==> NoLineEnd(s, i)
    ensures forall f :: ParseLength(s, i) == Fail(f) <==> LengthFails(s, i, f)
  {
    var c := Clr(s, i);
    if c.Some? {
      var p := c.value;
      var d := DigitsFrom(s, i, p);
      assert FirstClr(s, i, p);
      ReadDigitsStops(s, d, d, p, 0);
      forall f ensures ParseLength(s, i) == Fail(f) <==> LengthFails(s, i, f) {
        if LengthFails(s, i, f) {
          var q: nat :| FirstClr(s, i, q) && DigitsStop(s, DigitsFrom(s, i, q), q, f);
          assert q == p;
          var j: nat :| StopsAt(s, d, p, j, f);
          StopFails(s, d, d, p, 0, j, f);
        }
      }
    }
  }

  // ---- Bulk strings and lines ----

  /** Its length fails, or leaves no room for the two bytes behind it in an `int`. */
  ghost predicate BulkFails(s: string, i: nat, f: Fault) {
    || LengthFails(s, i, f)
    || (f == LengthOverflow && exists p: nat, n: int :: SpellsLength(s, i, p, n) && n + 2 > 0x7FFF_FFFF)
  }

  /** Its line is not at an end, or its bytes and two more are not there. */
  ghost predicate BulkWaits(s: string, i: nat) {
    || NoLineEnd(s, i)
    || exists p: nat, n: int :: SpellsLength(s, i, p, n) && n + 2 <= 0x7FFF_FFFF && p + 2 + n + 2 > |s|
  }

  lemma SameLength(s: string, i: nat, p: nat, n: int, q: nat, m: int)
    requires SpellsLength(s, i, p, n) && SpellsLength(s, i, q, m)
    ensures p == q && n == m
  {
    LengthIsSpelled(s, i, p, n);
    LengthIsSpelled(s, i, q, m);
  }

  lemma BulkStops(s: string, i: nat)
    ensures ParseBulk(s, i).Partial? <==> BulkWaits(s, i)
    ensures forall f :: ParseBulk(s, i) == Fail(f) <==> BulkFails(s, i, f)
  {
    LengthStops(s, i);
    var len := ParseLength(s, i);
    if len.Done? {
      var p: nat, n := len.next - 2, len.value;
      LengthIsSpelled(s, i, p, n);
      assert SpellsLength(s, i, p, n);
      forall q: nat, m: int | SpellsLength(s, i, q, m) ensures q == p && m == n { SameLength(s, i, p, n, q, m); }
    } else {
      forall q: nat, m: int ensures !SpellsLength(s, i, q, m) { LengthIsSpelled(s, i, q, m); }
    }
  }

  ghost predicate ItemFails(s: string, i: nat, f: Fault) {
    && i < |s|
    && (s[i] == '$' ==> BulkFails(s, i + 1, f))
    && (s[i] != '$' ==> s[i] != '+' && s[i] != '-' && s[i] != ':' && f == BadType)
  }

  ghost predicate ItemWaits(s: string, i: nat) {
    && i < |s|
    && (s[i] == '$' ==> BulkWaits(s, i + 1))
    && (s[i] != '$' ==> (s[i] == '+' || s[i] == '-' || s[i] == ':') && NoLineEnd(s, i + 1))
  }

  lemma ItemStops(s: string, i: nat)
    requires i < |s|
    ensures ParseItem(s, i).Partial? <==> ItemWaits(s, i)
    ensures forall f :: ParseItem(s, i) == Fail(f) <==> ItemFails(s, i, f)
  {
    BulkStops(s, i + 1);
  }

  // ---- Arrays ----

  /** Fewer than `count` things stand from `i` on, and where the next one should, `stops` holds. */
  ghost predicate StopsAfter<T(!new)>(spells: (nat, nat, T) -> bool, stops: nat -> bool, i: nat, count: nat)
    decreases count
  {
    count > 0 && (stops(i) || exists m: nat, x: T :: spells(i, m, x) && StopsAfter(spells, stops, m, count - 1))
  }

  ghost function Failing<T>(one: nat -> Parse<T>, end: nat, f: Fault): nat -> bool {
    (i: nat) => i < end && one(i) == Fail(f)
  }

  ghost function Pausing<T>(one: nat -> Parse<T>, end: nat): nat -> bool {
    (i: nat) => i >= end || one(i) == Partial
  }

  lemma {:induction false} TimesFails<T(!new)>(one: nat -> Parse<T>, spells: (nat, nat, T) -> bool, end: nat, i: nat,
    count: nat, done: seq<T>, f: Fault)
    requires Exact(one, spells, end)
    ensures Times(one, end, i, count, done) == Fail(f) <==> StopsAfter(spells, Failing(one, end, f), i, count)
    decreases count
  {
    if count > 0 && i < end && one(i).Done? {
      var x, m := one(i).value, one(i).next;
      assert spells(i, m, x);
      TimesFails(one, spells, end, m, count - 1, done + [x], f);
    }
  }

  lemma {:induction false} TimesPauses<T(!new)>(one: nat -> Parse<T>, spells: (nat, nat, T) -> bool, end: nat, i: nat,
    count: nat, done: seq<T>)
    requires Exact(one, spells, end)
    ensures Times(one, end, i, count, done) == Partial <==> StopsAfter(spells, Pausing(one, end), i, count)
    decreases count
  {
    if count > 0 && i < end && one(i).Done? {
      var x, m := one(i).value, one(i).next;
      assert spells(i, m, x);
      TimesPauses(one, spells, end, m, count - 1, done + [x]);
    }
  }

  lemma {:induction false} StopsSame<T(!new)>(spells: (nat, nat, T) -> bool, a: nat -> bool, b: nat -> bool, i: nat,
    count: nat)
    requires forall j: nat :: a(j) <==> b(j)
    ensures StopsAfter(spells, a, i, count) <==> StopsAfter(spells, b, i, count)
    decreases count
  {
    if count > 0 {
      forall m: nat, x: T | spells(i, m, x)
        ensures StopsAfter(spells, a, m, count - 1) <==> StopsAfter(spells, b, m, count - 1)
      {
        StopsSame(spells, a, b, m, count - 1);
      }
    }
  }

  ghost function ItemFailing(s: string, f: Fault): nat -> bool {
    (i: nat) => ItemFails(s, i, f)
  }

  ghost function ItemPausing(s: string): nat -> bool {
    (i: nat) => i >= |s| || ItemWaits(s, i)
  }

  lemma ItemsStop(s: string, i: nat, count: nat)
    requires i <= |s|
    ensures ParseItems(s, i, count, []) == Partial <==> StopsAfter(ItemSpelling(s), ItemPausing(s), i, count)
    ensures forall f ::
      ParseItems(s, i, count, []) == Fail(f) <==> StopsAfter(ItemSpelling(s), ItemFailing(s, f), i, count)
  {
    var one, spells := ItemParser(s), ItemSpelling(s);
    ItemsExact(s);
    ItemsAreTimes(s, i, count, []);
    TimesPauses(one, spells, |s|, i, count, []);
    forall j: nat ensures Pausing(one, |s|)(j) <==> ItemPausing(s)(j) { if j < |s| { ItemStops(s, j); } }
    StopsSame(spells, Pausing(one, |s|), ItemPausing(s), i, count);
    forall f ensures ParseItems(s, i, count, []) == Fail(f) <==> StopsAfter(spells, ItemFailing(s, f), i, count) {
      TimesFails(one, spells, |s|, i, count, [], f);
      forall j: nat ensures Failing(one, |s|, f)(j) <==> ItemFailing(s, f)(j) { if j < |s| { ItemStops(s, j); } }
      StopsSame(spells, Failing(one, |s|, f), ItemFailing(s, f), i, count);
    }
  }

  /** Its length fails, or is not at an end, or is negative, or an element fails; an element may not be an array. */
  ghost predicate ArrayFails(s: string, i: nat, f: Fault) {
    || LengthFails(s, i, f)
    || (NoLineEnd(s, i) && f == BadArraySize)
    || exists p: nat, n: int :: SpellsLength(s, i, p, n) && ElementFails(s, p + 2, n, f)
  }

  ghost predicate ElementFails(s: string, i: nat, n: int, f: Fault) {
    if n < 0 then f == BadArraySize else StopsAfter(ItemSpelling(s), ItemFailing(s, f), i, n)
  }

  /** Its elements are not all there. */
  ghost predicate ArrayWaits(s: string, i: nat) {
    exists p: nat, n: int :: SpellsLength(s, i, p, n) && ElementWaits(s, p + 2, n)
  }

  ghost predicate ElementWaits(s: string, i: nat, n: int) {
    n >= 0 && StopsAfter(ItemSpelling(s), ItemPausing(s), i, n)
  }

  lemma ArrayAfterLength(s: string, i: nat, n: int, h: nat)
    requires ParseLength(s, i) == Done(n, h)
    ensures ParseArray(s, i) == Partial <==> ElementWaits(s, h, n)
    ensures forall f :: ParseArray(s, i) == Fail(f) <==> ElementFails(s, h, n, f)
  {
    if n >= 0 { ItemsStop(s, h, n); }
  }

  lemma ArrayStops(s: string, i: nat)
    ensures ParseArray(s, i) == Partial <==> ArrayWaits(s, i)
    ensures forall f :: ParseArray(s, i) == Fail(f) <==> ArrayFails(s, i, f)
  {
    LengthStops(s, i);
    var len := ParseLength(s, i);
    if len.Done? {
      var p: nat, n := len.next - 2, len.value;
      LengthIsSpelled(s, i, p, n);
      assert SpellsLength(s, i, p, n);
      ArrayAfterLength(s, i, n, len.next);
      forall q: nat, m: int | SpellsLength(s, i, q, m) ensures q == p && m == n { SameLength(s, i, p, n, q, m); }
    } else {
      forall q: nat, m: int ensures !SpellsLength(s, i, q, m) { LengthIsSpelled(s, i, q, m); }
    }
  }

  // ---- Replies ----

  ghost predicate ReplyFails(s: string, i: nat, f: Fault) {
    && i < |s|
    && (s[i] == '*' ==> ArrayFails(s, i + 1, f))
    && (s[i] != '*' ==> ItemFails(s, i, f))
  }

  ghost predicate ReplyWaits(s: string, i: nat) {
    && i < |s|
    && (s[i] == '*' ==> ArrayWaits(s, i + 1))
    && (s[i] != '*' ==> ItemWaits(s, i))
  }

  /** When one reply is refused, with which fault, and when the parser waits for it. */
  lemma ReplyStops(s: string, i: nat)
    requires i < |s|
    ensures ParseOne(s, i) == Partial <==> ReplyWaits(s, i)
    ensures forall f :: ParseOne(s, i) == Fail(f) <==> ReplyFails(s, i, f)
  {
    if s[i] == '*' { ArrayStops(s, i + 1); } else { ItemStops(s, i); }
  }

  // ---- The whole parser ----

  ghost predicate Progresses(from: (nat, seq<Event>) -> Outcome, one: nat -> Parse<Event>, end: nat) {
    && (forall i: nat, es: seq<Event> :: Turn(from, one(i), i, es))
    && (forall i: nat :: (one(i).Done? ==> i < one(i).next <= end) && (i >= end ==> one(i) == Partial))
  }

  /** Where a loop around `one` ends, and why. */
  lemma {:induction false} LoopEnds(from: (nat, seq<Event>) -> Outcome, one: nat -> Parse<Event>,
    spells: (nat, nat, Event) -> bool, end: nat, i: nat, es: seq<Event>) returns (q: nat)
    requires i <= end && Exact(one, spells, end) && Progresses(from, one, end)
    ensures var o := from(i, es);
      && es <= Reported(o) && Chain(spells, i, q, Reported(o), |es|)
      && (o.Returned? ==> q == o.consumed && one(q) == Partial)
      && (o.Thrown? ==> one(q) == Fail(o.fault))
    decreases end - i
  {
    assert Turn(from, one(i), i, es);
    if one(i).Done? {
      q := LoopEnds(from, one, spells, end, one(i).next, es + [one(i).value]);
      assert spells(i, one(i).next, one(i).value);
      ChainFirst(spells, i, one(i).next, q, Reported(from(i, es)), |es|);
    } else {
      q := i;
    }
  }

  /** What stands there one behind the other is taken. */
  lemma {:induction false} LoopReaches(from: (nat, seq<Event>) -> Outcome, one: nat -> Parse<Event>,
    spells: (nat, nat, Event) -> bool, end: nat, i: nat, q: nat, es: seq<Event>, k: nat)
    requires Exact(one, spells, end) && Progresses(from, one, end) && k <= |es| && Chain(spells, i, q, es, k)
    ensures from(i, es[..k]) == from(q, es)
    decreases |es| - k
  {
    if k < |es| {
      var m: nat :| spells(i, m, es[k]) && Chain(spells, m, q, es, k + 1);
      assert Turn(from, one(i), i, es[..k]);
      assert es[..k] + [es[k]] == es[..k + 1];
      LoopReaches(from, one, spells, end, m, q, es, k + 1);
    } else {
      assert es[..k] == es;
    }
  }

  lemma LoopProgresses(s: string)
    ensures Progresses(Loop(s), ReplyParser(s), |s|)
  {
    forall i: nat, es: seq<Event>
      ensures Turn(Loop(s), ReplyParser(s)(i), i, es)
      ensures ReplyParser(s)(i).Done? ==> i < ReplyParser(s)(i).next <= |s|
    {
      LoopTurns(s, i, es);
    }
  }

  /** It returns after the replies at the front of the buffer, when that is all or the next one has to wait ... */
  ghost predicate ReturnsAfter(s: string, es: seq<Event>, n: nat) {
    SpellsReplies(s, 0, n, es) && (n >= |s| || ReplyWaits(s, n))
  }

  /** ... and throws after them, when the next one is refused. */
  ghost predicate ThrowsAfter(s: string, es: seq<Event>, f: Fault) {
    exists q: nat :: SpellsReplies(s, 0, q, es) && ReplyFails(s, q, f)
  }

  lemma ParserStops(s: string, q: nat)
    ensures ReplyParser(s)(q) == Partial <==> q >= |s| || ReplyWaits(s, q)
    ensures forall f :: ReplyParser(s)(q) == Fail(f) <==> ReplyFails(s, q, f)
  {
    if q < |s| { ReplyStops(s, q); }
  }

  /** All that `parseReply` does, on every buffer. */
  lemma ParseReplyExactly(s: string, o: Outcome)
    ensures o.Returned? ==> (ParseReply(s) == o <==> ReturnsAfter(s, o.events, o.consumed))
    ensures o.Thrown? ==> (ParseReply(s) == o <==> ThrowsAfter(s, o.events, o.fault))
  {
    RepliesExact(s);
    LoopProgresses(s);
    if ParseReply(s) == o {
      var q := LoopEnds(Loop(s), ReplyParser(s), ReplySpelling(s), |s|, 0, []);
      ParserStops(s, q);
    }
    if o.Returned? && ReturnsAfter(s, o.events, o.consumed) {
      Reaches(s, o.events, o.consumed);
    }
    if o.Thrown? && ThrowsAfter(s, o.events, o.fault) {
      var q: nat :| SpellsReplies(s, 0, q, o.events) && ReplyFails(s, q, o.fault);
      Reaches(s, o.events, q);
    }
  }

  lemma Reaches(s: string, es: seq<Event>, q: nat)
    requires SpellsReplies(s, 0, q, es)
    ensures q >= |s| || ReplyWaits(s, q) ==> ParseReply(s) == Returned(es, q)
    ensures forall f :: ReplyFails(s, q, f) ==> ParseReply(s) == Thrown(es, f)
  {
    RepliesExact(s);
    LoopProgresses(s);
    assert es[..0] == [];
    LoopReaches(Loop(s), ReplyParser(s), ReplySpelling(s), |s|, 0, q, es, 0);
    ParserStops(s, q);
    assert Turn(Loop(s), ReplyParser(s)(q), q, es);
  }
}
