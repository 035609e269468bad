/**
  The RESP reply parser of `Utils.hpp`: five nested routines that walk a byte buffer and hand every
  complete reply to a callback.  One `char` stands for one byte of the C++ `std::string`, and an index
  into the buffer stands for a `const char*`.

  Each routine is written twice: as a function of the buffer and the cursor, which the proofs use, and as
  a method with the loops of the source, proved to compute that function.
 */
module RespParser {
  import opened Options

  /** The largest C++ `int`; lengths are accumulated in one. */
  const INT_MAX := 0x7FFF_FFFF

  /** Why a parse does not return: the three `logic_error`s of the source, or signed overflow of a length. */
  datatype Fault = BadLength | BadArraySize | BadType | LengthOverflow

  /** `Done` is a value and the cursor behind it; `Partial` is the source's null pointer. */
  datatype Parse<+T> = Done(value: T, next: nat) | Partial | Fail(fault: Fault)

  /** One callback: `onStringCB(kind, text)` or `onArrayStringCB(texts)`. */
  datatype Event = Text(kind: char, text: string) | Texts(texts: seq<string>)

  /** What `parseReply` does: the callbacks made, and then either a returned length or a throw. */
  datatype Outcome =
    | Returned(events: seq<Event>, consumed: nat)
    | Thrown(events: seq<Event>, fault: Fault)

  predicate IsClr(s: string, i: int) {
    0 <= i && i + 1 < |s| && s[i] == '\r' && s[i + 1] == '\n'
  }

  /** The first CR LF at or behind `from`, if there is one. */
  function Clr(s: string, from: nat): (r: Option<nat>)
    ensures r.Some? ==> from <= r.value && IsClr(s, r.value) && forall j :: from <= j < r.value ==> !IsClr(s, j)
    ensures r.None? ==> forall j :: from <= j ==> !IsClr(s, j)
    decreases |s| - from
  {
    if from + 1 >= |s| then None
    else if IsClr(s, from) then Some(from)
    else Clr(s, from + 1)
  }

  predicate IsDigit(c: char) { '0' <= c <= '9' }

  function DigitValue(c: char): nat
    requires IsDigit(c)
  {
    c as int - '0' as int
  }

  /** The digit loop of `parseLength`: the bytes from `i` to `end` appended to the number read so far. */
  function ReadDigits(s: string, i: nat, end: nat, len: nat): (r: Parse<int>)
    requires i <= end <= |s| && len <= INT_MAX
    ensures r.Done? ==> 0 <= r.value <= INT_MAX
    decreases end - i
  {
    if i == end then Done(len, end)
    else if !IsDigit(s[i]) then Fail(BadLength)
    else if len * 10 + DigitValue(s[i]) > INT_MAX then Fail(LengthOverflow)
    else ReadDigits(s, i + 1, end, len * 10 + DigitValue(s[i]))
  }

  function ParseLine(s: string, i: nat): (r: Parse<string>)
    ensures r.Done? ==> i < r.next <= |s|
    ensures !r.Fail?
  {
    match Clr(s, i)
    case None => Partial
    case Some(p) => Done(s[i..p], p + 2)
  }

  function ParseLength(s: string, i: nat): (r: Parse<int>)
    ensures r.Done? ==> i < r.next <= |s| && -INT_MAX <= r.value <= INT_MAX
  {
    match Clr(s, i)
    case None => Partial
    case Some(p) =>
      var negative := i < p && s[i] == '-';
      match ReadDigits(s, if negative then i + 1 else i, p, 0)
      case Done(len, _) => Done(if negative then -len else len, p + 2)
      case Partial => Partial
      case Fail(f) => Fail(f)
  }

  function ParseBulk(s: string, i: nat): (r: Parse<string>)
    ensures r.Done? ==> i < r.next <= |s|
  {
    match ParseLength(s, i)
    case Fail(f) => Fail(f)
    case Partial => Partial
    case Done(len, p) =>
      if len + 2 > INT_MAX then Fail(LengthOverflow)
      else if p + len + 2 > |s| then Partial
      else if len < 0 then Done("", p)
      else Done(s[p..p + len], p + len + 2)
  }

  predicate IsLineKind(c: char) { c == '+' || c == '-' || c == ':' }

  /** One line or bulk string, from its type byte on. */
  function ParseItem(s: string, i: nat): (r: Parse<string>)
    requires i < |s|
    ensures r.Done? ==> i < r.next <= |s|
  {
    if IsLineKind(s[i]) then ParseLine(s, i + 1)
    else if s[i] == '$' then ParseBulk(s, i + 1)
    else Fail(BadType)
  }

  /** The element loop of `parseArrayReply`, with `count` elements to go and `texts` already pushed. */
  function ParseItems(s: string, i: nat, count: nat, texts: seq<string>): (r: Parse<seq<string>>)
    requires i <= |s|
    ensures r.Done? ==> i <= r.next <= |s|
    decreases count
  {
    if count == 0 then Done(texts, i)
    else if i == |s| then Partial
    else
      match ParseItem(s, i)
      case Fail(f) => Fail(f)
      case Partial => Partial
      case Done(text, p) => ParseItems(s, p, count - 1, texts + [text])
  }

  /** An unfinished header reads as length -1, and the size test comes before the null test. */
  function ParseArray(s: string, i: nat): (r: Parse<seq<string>>)
    ensures r.Done? ==> i < r.next <= |s|
  {
    match ParseLength(s, i)
    case Fail(f) => Fail(f)
    case Partial => Fail(BadArraySize)
    case Done(len, p) => if len < 0 then Fail(BadArraySize) else ParseItems(s, p, len, [])
  }

  /** One turn of the loop of `parseReply`. */
  function ParseOne(s: string, i: nat): (r: Parse<Event>)
    requires i < |s|
    ensures r.Done? ==> i < r.next <= |s|
  {
    if s[i] == '*' then
      match ParseArray(s, i + 1)
      case Done(texts, p) => Done(Texts(texts), p)
      case Partial => Partial
      case Fail(f) => Fail(f)
    else
      match ParseItem(s, i)
      case Done(text, p) => Done(Text(s[i], text), p)
      case Partial => Partial
      case Fail(f) => Fail(f)
  }

  /** The loop of `parseReply` from cursor `i` on, with the callbacks `events` already made. */
  function ParseFrom(s: string, i: nat, events: seq<Event>): (o: Outcome)
    requires i <= |s|
    ensures o.Returned? ==> i <= o.consumed <= |s|
    decreases |s| - i
  {
    if i == |s| then Returned(events, i)
    else
      match ParseOne(s, i)
      case Done(e, p) => ParseFrom(s, p, events + [e])
      case Partial => Returned(events, i)
      case Fail(f) => Thrown(events, f)
  }

  function ParseReply(s: string): (o: Outcome)
    ensures o.Returned? ==> o.consumed <= |s|
  {
    ParseFrom(s, 0, [])
  }

  // ---- One turn of each loop ----

  lemma ItemsUnfold(s: string, i: nat, count: nat, texts: seq<string>, text: string, p: nat)
    requires i < |s| && ParseItem(s, i) == Done(text, p)
    ensures ParseItems(s, i, count + 1, texts) == ParseItems(s, p, count, texts + [text])
  {
  }

  /** The element loop, made total, and the parser of one element. */
  function ItemsLoop(s: string): (nat, nat, seq<string>) -> Parse<seq<string>> {
    (i: nat, count: nat, texts: seq<string>) => if i <= |s| then ParseItems(s, i, count, texts) else Partial
  }

  function ItemParser(s: string): nat -> Parse<string> {
    (i: nat) => if i < |s| then ParseItem(s, i) else Partial
  }

  ghost predicate ItemsTurn<T>(loop: (nat, nat, seq<T>) -> Parse<seq<T>>, one: Parse<T>, i: nat, count: nat,
    done: seq<T>)
  {
    && (one.Done? ==> loop(i, count + 1, done) == loop(one.next, count, done + [one.value]))
    && (one.Partial? ==> loop(i, count + 1, done) == Partial)
    && (one.Fail? ==> loop(i, count + 1, done) == Fail(one.fault))
  }

  lemma ItemsLoopTurns(s: string, i: nat, count: nat, texts: seq<string>)
    ensures ItemsLoop(s)(i, 0, texts) == if i <= |s| then Done(texts, i) else Partial
    ensures ItemsTurn(ItemsLoop(s), ItemParser(s)(i), i, count, texts)
  {
  }

  /** The outer loop, made total, and the parser of one reply. */
  function Loop(s: string): (nat, seq<Event>) -> Outcome {
    (i: nat, events: seq<Event>) => if i <= |s| then ParseFrom(s, i, events) else Returned(events, i)
  }

  function ReplyParser(s: string): nat -> Parse<Event> {
    (i: nat) => if i < |s| then ParseOne(s, i) else Partial
  }

  ghost predicate Turn(from: (nat, seq<Event>) -> Outcome, one: Parse<Event>, i: nat, events: seq<Event>) {
    && (one.Done? ==> from(i, events) == from(one.next, events + [one.value]))
    && (one.Partial? ==> from(i, events) == Returned(events, i))
    && (one.Fail? ==> from(i, events) == Thrown(events, one.fault))
  }

  lemma LoopTurns(s: string, i: nat, events: seq<Event>)
    ensures Turn(Loop(s), ReplyParser(s)(i), i, events)
    ensures var one := ReplyParser(s)(i); one.Done? ==> i < one.next <= |s|
  {
  }

  // ---- The routines with the source's loops ----

  method FindClr(b: string, from: nat) returns (r: Option<nat>)
    ensures r == Clr(b, from)
  {
    var i := from;
    while i + 1 < |b|
      invariant from <= i
      invariant Clr(b, i) == Clr(b, from)
    {
      if b[i] == '\r' && b[i + 1] == '\n' { return Some(i); }
      i := i + 1;
    }
    return None;
  }

  method ParseSimpleString(b: string, i: nat) returns (r: Parse<string>)
    ensures r == ParseLine(b, i)
  {
    var p := FindClr(b, i);
    if p.None? { return Partial; }
    return Done(b[i..p.value], p.value + 2);
  }

  method ReadLength(b: string, i: nat) returns (r: Parse<int>)
    ensures r == ParseLength(b, i)
  {
    var p := FindClr(b, i);
    if p.None? { return Partial; }
    var j, len, negative := i, 0, false;
    if j < p.value && b[j] == '-' {
      j, negative := j + 1, true;
    }
    ghost var goal := ReadDigits(b, j, p.value, 0);
    while j < p.value
      invariant j <= p.value && 0 <= len <= INT_MAX
      invariant ReadDigits(b, j, p.value, len) == goal
    {
      if !IsDigit(b[j]) { return Fail(BadLength); }
      if len * 10 + DigitValue(b[j]) > INT_MAX { return Fail(LengthOverflow); }
      len := len * 10 + DigitValue(b[j]);
      j := j + 1;
    }
    return Done(if negative then -len else len, p.value + 2);
  }

  method ParseBulkString(b: string, i: nat) returns (r: Parse<string>)
    ensures r == ParseBulk(b, i)
  {
    var length := ReadLength(b, i);
    match length
    case Fail(f) => return Fail(f);
    case Partial => return Partial;
    case Done(len, p) =>
      if len + 2 > INT_MAX { return Fail(LengthOverflow); }
      if p + (len + 2) > |b| { return Partial; }
      if len < 0 { return Done("", p); }
      return Done(b[p..p + len], p + (len + 2));
  }

  /** The inner switch on the type byte. */
  method ParseElement(b: string, i: nat) returns (r: Parse<string>)
    requires i < |b|
    ensures r == ParseItem(b, i)
  {
    if IsLineKind(b[i]) {
      r := ParseSimpleString(b, i + 1);
    } else if b[i] == '$' {
      r := ParseBulkString(b, i + 1);
    } else {
      r := Fail(BadType);
    }
  }

  method ParseArrayReply(b: string, i: nat) returns (r: Parse<seq<string>>)
    ensures r == ParseArray(b, i)
  {
    var length := ReadLength(b, i);
    if length.Fail? { return Fail(length.fault); }
    var len := if length.Done? then length.value else -1;
    if len < 0 { return Fail(BadArraySize); }
    var p: nat, texts, left: nat := length.next, [], len;
    ghost var goal := ParseItems(b, p, len, []);
    while left > 0
      invariant p <= |b|
      invariant ParseItems(b, p, left, texts) == goal
    {
      if p >= |b| { return Partial; }
      var item := ParseElement(b, p);
      match item
      case Fail(f) => return Fail(f);
      case Partial => return Partial;
      case Done(text, q) =>
        texts, p, left := texts + [text], q, left - 1;
    }
    return Done(texts, p);
  }

  /** `parseReply`; the callbacks are collected, in order, in the outcome's `events`. */
  method ParseReplyLoop(reply: string) returns (o: Outcome)
    ensures o == ParseReply(reply)
  {
    var p: nat, events := 0, [];
    ghost var goal := ParseReply(reply);
    while p < |reply|
      invariant p <= |reply|
      invariant ParseFrom(reply, p, events) == goal
    {
      var one: Parse<Event>;
      if reply[p] == '*' {
        var a := ParseArrayReply(reply, p + 1);
        one := match a case Done(texts, q) => Done(Texts(texts), q) case Partial => Partial case Fail(f) => Fail(f);
      } else {
        var t := ParseElement(reply, p);
        one := match t
          case Done(text, q) => Done(Text(reply[p], text), q)
          case Partial => Partial
          case Fail(f) => Fail(f);
      }
      match one
      case Fail(f) => return Thrown(events, f);
      case Partial => return Returned(events, p);
      case Done(e, q) => events, p := events + [e], q;
    }
    return Returned(events, p);
  }
}
