/**
  Reading a RESP stream in pieces: append what arrived, call `parseReply`, drop the returned number of
  bytes.  The laws here hold for all input, well formed or not.
 */
module RespStream {
  import opened Options
  import opened RespParser

  // ---- A finished parse does not depend on what follows it ----

  lemma ClrExtend(s: string, t: string, i: nat)
    requires Clr(s, i).Some?
    ensures Clr(s + t, i) == Clr(s, i)
  {
    var p := Clr(s, i).value;
    assert IsClr(s + t, p);
    assert forall j :: 0 <= j < p ==> IsClr(s + t, j) == IsClr(s, j);
  }

  lemma {:induction false} DigitsExtend(s: string, t: string, i: nat, end: nat, len: nat)
    requires i <= end <= |s| && len <= INT_MAX
    ensures ReadDigits(s + t, i, end, len) == ReadDigits(s, i, end, len)
    decreases end - i
  {
    if i < end && IsDigit(s[i]) && len * 10 + DigitValue(s[i]) <= INT_MAX {
      DigitsExtend(s, t, i + 1, end, len * 10 + DigitValue(s[i]));
    }
  }

  lemma LengthExtend(s: string, t: string, i: nat)
    requires !ParseLength(s, i).Partial?
    ensures ParseLength(s + t, i) == ParseLength(s, i)
  {
    ClrExtend(s, t, i);
    var p := Clr(s, i).value;
    DigitsExtend(s, t, if i < p && s[i] == '-' then i + 1 else i, p, 0);
  }

  lemma SliceExtend(s: string, t: string, i: nat, e: nat)
    requires i <= e <= |s|
    ensures (s + t)[i..e] == s[i..e]
  {
  }

  lemma LineExtend(s: string, t: string, i: nat)
    requires ParseLine(s, i).Done?
    ensures ParseLine(s + t, i) == ParseLine(s, i)
  {
    ClrExtend(s, t, i);
    SliceExtend(s, t, i, Clr(s, i).value);
  }

  lemma BulkExtend(s: string, t: string, i: nat)
    requires ParseBulk(s, i).Done?
    ensures ParseBulk(s + t, i) == ParseBulk(s, i)
  {
    LengthExtend(s, t, i);
    var Done(len, p) := ParseLength(s, i);
    if len >= 0 { SliceExtend(s, t, p, p + len); }
  }

  lemma ItemExtend(s: string, t: string, i: nat)
    requires i < |s| && ParseItem(s, i).Done?
    ensures ParseItem(s + t, i) == ParseItem(s, i)
  {
    if IsLineKind(s[i]) { LineExtend(s, t, i + 1); } else { BulkExtend(s, t, i + 1); }
  }

  lemma {:induction false} ItemsExtend(s: string, t: string, i: nat, count: nat, texts: seq<string>)
    requires i <= |s| && ParseItems(s, i, count, texts).Done?
    ensures ParseItems(s + t, i, count, texts) == ParseItems(s, i, count, texts)
    decreases count
  {
    if count > 0 {
      ItemExtend(s, t, i);
      var Done(text, p) := ParseItem(s, i);
      ItemsExtend(s, t, p, count - 1, texts + [text]);
    }
  }

  lemma OneExtend(s: string, t: string, i: nat)
    requires i < |s| && ParseOne(s, i).Done?
    ensures ParseOne(s + t, i) == ParseOne(s, i)
  {
    if s[i] == '*' {
      LengthExtend(s, t, i + 1);
      var Done(len, p) := ParseLength(s, i + 1);
      ItemsExtend(s, t, p, len, []);
    } else {
      ItemExtend(s, t, i);
    }
  }

  /** With more input, a call that returned at `n` goes on from `n` with the callbacks it had made. */
  lemma {:induction false} FromExtend(s: string, t: string, i: nat, events: seq<Event>, es: seq<Event>, n: nat)
    requires i <= |s| && ParseFrom(s, i, events) == Returned(es, n)
    ensures ParseFrom(s + t, i, events) == ParseFrom(s + t, n, es)
    decreases |s| - i
  {
    if i < |s| && ParseOne(s, i).Done? {
      OneExtend(s, t, i);
      var Done(e, p) := ParseOne(s, i);
      FromExtend(s, t, p, events + [e], es, n);
    }
  }

  // ---- A parse does not depend on what precedes its cursor ----

  /** The same result, `d` bytes further on. */
  ghost predicate Moved<T(!new)>(r: Parse<T>, r': Parse<T>, d: nat) {
    match r
    case Done(v, p) => r'.Done? && r'.value == v && r'.next == d + p
    case Partial => r'.Partial?
    case Fail(f) => r'.Fail? && r'.fault == f
  }

  /** The buffer `b` is `s` behind `d` other bytes. */
  ghost predicate Ends(b: string, s: string, d: nat) {
    |b| == d + |s| && forall j :: d <= j < |b| ==> b[j] == s[j - d]
  }

  lemma ClrShift(b: string, s: string, d: nat, i: nat, j: nat)
    requires Ends(b, s, d) && j == d + i
    ensures Clr(s, i).None? ==> Clr(b, j).None?
    ensures Clr(s, i).Some? ==> Clr(b, j) == Some(d + Clr(s, i).value)
  {
    assert forall k :: d <= k ==> IsClr(b, k) == IsClr(s, k - d);
    if Clr(s, i).Some? {
      assert IsClr(b, d + Clr(s, i).value);
    }
  }

  lemma {:induction false} DigitsShift(b: string, s: string, d: nat, i: nat, end: nat, j: nat, end': nat, len: nat)
    requires Ends(b, s, d) && i <= end <= |s| && len <= INT_MAX && j == d + i && end' == d + end
    ensures Moved(ReadDigits(s, i, end, len), ReadDigits(b, j, end', len), d)
    decreases end - i
  {
    if i < end {
      assert b[j] == s[i];
      if IsDigit(s[i]) && len * 10 + DigitValue(s[i]) <= INT_MAX {
        DigitsShift(b, s, d, i + 1, end, j + 1, end', len * 10 + DigitValue(s[i]));
      }
    }
  }

  lemma LengthShift(b: string, s: string, d: nat, i: nat, j: nat)
    requires Ends(b, s, d) && j == d + i
    ensures Moved(ParseLength(s, i), ParseLength(b, j), d)
  {
    ClrShift(b, s, d, i, j);
    if Clr(s, i).Some? {
      var p, p' := Clr(s, i).value, Clr(b, j).value;
      assert b[j] == s[i];
      if i < p && s[i] == '-' {
        DigitsShift(b, s, d, i + 1, p, j + 1, p', 0);
      } else {
        DigitsShift(b, s, d, i, p, j, p', 0);
      }
    }
  }

  lemma LineShift(b: string, s: string, d: nat, i: nat, j: nat)
    requires Ends(b, s, d) && j == d + i
    ensures Moved(ParseLine(s, i), ParseLine(b, j), d)
  {
    ClrShift(b, s, d, i, j);
    if Clr(s, i).Some? {
      assert b[j..Clr(b, j).value] == s[i..Clr(s, i).value];
    }
  }

  lemma BulkShift(b: string, s: string, d: nat, i: nat, j: nat)
    requires Ends(b, s, d) && j == d + i
    ensures Moved(ParseBulk(s, i), ParseBulk(b, j), d)
  {
    LengthShift(b, s, d, i, j);
    var r, r' := ParseLength(s, i), ParseLength(b, j);
    if r.Done? && r.value >= 0 && r.next + r.value + 2 <= |s| {
      assert b[r'.next..r'.next + r.value] == s[r.next..r.next + r.value];
    }
  }

  lemma LineItemShift(b: string, s: string, d: nat, i: nat, j: nat)
    requires Ends(b, s, d) && i < |s| && j == d + i < |b| && b[j] == s[i] && IsLineKind(s[i])
    ensures Moved(ParseItem(s, i), ParseItem(b, j), d)
  {
    LineShift(b, s, d, i + 1, j + 1);
  }

  lemma BulkItemShift(b: string, s: string, d: nat, i: nat, j: nat)
    requires Ends(b, s, d) && i < |s| && j == d + i < |b| && b[j] == s[i] == '$'
    ensures Moved(ParseItem(s, i), ParseItem(b, j), d)
  {
    BulkShift(b, s, d, i + 1, j + 1);
  }

  lemma ItemShift(b: string, s: string, d: nat, i: nat, j: nat)
    requires Ends(b, s, d) && i < |s| && j == d + i
    ensures Moved(ParseItem(s, i), ParseItem(b, j), d)
  {
    assert b[j] == s[i];
    if IsLineKind(s[i]) {
      LineItemShift(b, s, d, i, j);
    } else if s[i] == '$' {
      BulkItemShift(b, s, d, i, j);
    }
  }

  lemma {:induction false} ItemsShift(b: string, s: string, d: nat, i: nat, j: nat, count: nat, texts: seq<string>)
    requires Ends(b, s, d) && i <= |s| && j == d + i
    ensures Moved(ParseItems(s, i, count, texts), ParseItems(b, j, count, texts), d)
    decreases count
  {
    if count > 0 && i < |s| {
      ItemShift(b, s, d, i, j);
      var r, r' := ParseItem(s, i), ParseItem(b, j);
      if r.Done? {
        ItemsShift(b, s, d, r.next, r'.next, count - 1, texts + [r.value]);
      }
    }
  }

  lemma ArrayShift(b: string, s: string, d: nat, i: nat, j: nat)
    requires Ends(b, s, d) && j == d + i
    ensures Moved(ParseArray(s, i), ParseArray(b, j), d)
  {
    LengthShift(b, s, d, i, j);
    var r, r' := ParseLength(s, i), ParseLength(b, j);
    if r.Done? && r.value >= 0 {
      ItemsShift(b, s, d, r.next, r'.next, r.value, []);
    }
  }

  lemma OneShift(b: string, s: string, d: nat, i: nat, j: nat)
    requires Ends(b, s, d) && i < |s| && j == d + i
    ensures Moved(ParseOne(s, i), ParseOne(b, j), d)
  {
    assert b[j] == s[i];
    if s[i] == '*' {
      ArrayShift(b, s, d, i + 1, j + 1);
    } else {
      ItemShift(b, s, d, i, j);
    }
  }

  /** The outcome `o` for the rest of a buffer, seen from a buffer with `n` more bytes and `earlier` callbacks. */
  function Behind(earlier: seq<Event>, n: nat, o: Outcome): Outcome {
    match o
    case Returned(es, c) => Returned(earlier + es, n + c)
    case Thrown(es, f) => Thrown(earlier + es, f)
  }

  lemma {:induction false} FromShift(b: string, s: string, d: nat, i: nat, j: nat, earlier: seq<Event>,
    events: seq<Event>)
    requires Ends(b, s, d) && i <= |s| && j == d + i
    ensures ParseFrom(b, j, earlier + events) == Behind(earlier, d, ParseFrom(s, i, events))
    decreases |s| - i
  {
    if i < |s| {
      OneShift(b, s, d, i, j);
      var r, r' := ParseOne(s, i), ParseOne(b, j);
      if r.Done? {
        FromShift(b, s, d, r.next, r'.next, earlier, events + [r.value]);
        assert earlier + (events + [r.value]) == earlier + events + [r.value];
      }
    }
  }

  lemma FromShiftWhole(b: string, s: string, d: nat, earlier: seq<Event>)
    requires Ends(b, s, d)
    ensures ParseFrom(b, d, earlier) == Behind(earlier, d, ParseReply(s))
  {
    FromShift(b, s, d, 0, d, earlier, []);
    assert earlier + [] == earlier;
  }

  lemma EndsDropped(s: string, t: string, n: nat)
    requires n <= |s|
    ensures Ends(s + t, s[n..] + t, n)
  {
  }

  lemma ReplyExtend(s: string, t: string, es: seq<Event>, n: nat)
    requires ParseReply(s) == Returned(es, n)
    ensures ParseReply(s + t) == Behind(es, n, ParseReply(s[n..] + t))
  {
    FromExtend(s, t, 0, [], es, n);
    EndsDropped(s, t, n);
    FromShiftWhole(s + t, s[n..] + t, n, es);
  }

  /**
    The two families together: a call on more input makes the callbacks of the call on less input, and then does
    what a fresh call does on the bytes that one left over.
   */
  ghost predicate Resumable(parse: string -> Outcome) {
    && Bounded(parse)
    && forall s, t :: parse(s).Returned? ==>
         parse(s + t) == Behind(parse(s).events, parse(s).consumed, parse(s[parse(s).consumed..] + t))
  }

  ghost predicate Bounded(parse: string -> Outcome) {
    forall s :: parse(s).Returned? ==> parse(s).consumed <= |s|
  }

  lemma ParseReplyIsResumable()
    ensures Resumable(ParseReply)
  {
    forall s, t | ParseReply(s).Returned?
      ensures ParseReply(s + t)
           == Behind(ParseReply(s).events, ParseReply(s).consumed, ParseReply(s[ParseReply(s).consumed..] + t))
    {
      ReplyExtend(s, t, ParseReply(s).events, ParseReply(s).consumed);
    }
  }

  // ---- The reading loop, around any parser ----

  /** All callbacks made so far, and either the bytes still pending or the fault that ended the loop. */
  datatype Reader = Waiting(events: seq<Event>, pending: string) | Broken(events: seq<Event>, fault: Fault)

  ghost function Receive(parse: string -> Outcome, r: Reader, fragment: string): Reader
    requires Bounded(parse)
  {
    match r
    case Broken(_, _) => r
    case Waiting(events, pending) =>
      match parse(pending + fragment)
      case Returned(es, n) => Waiting(events + es, (pending + fragment)[n..])
      case Thrown(es, f) => Broken(events + es, f)
  }

  /** The reader after the first `n` fragments. */
  ghost function ReceiveFirst(parse: string -> Outcome, fragments: seq<string>, n: nat): Reader
    requires Bounded(parse) && n <= |fragments|
  {
    if n == 0 then Waiting([], [])
    else Receive(parse, ReceiveFirst(parse, fragments, n - 1), fragments[n - 1])
  }

  /** The first `n` fragments in one piece. */
  function JoinFirst(fragments: seq<string>, n: nat): string
    requires n <= |fragments|
  {
    if n == 0 then [] else JoinFirst(fragments, n - 1) + fragments[n - 1]
  }

  /** The reader that parsing `s` in one piece would leave. */
  ghost function ReadWhole(parse: string -> Outcome, s: string): Reader
    requires Bounded(parse)
  {
    match parse(s)
    case Returned(es, n) => Waiting(es, s[n..])
    case Thrown(es, f) => Broken(es, f)
  }

  /** One more fragment after a whole read is a whole read of the longer input, throw or not. */
  lemma ReceiveAfterWhole(parse: string -> Outcome, s: string, fragment: string)
    requires Resumable(parse) && ReadWhole(parse, s).Waiting?
    ensures Receive(parse, ReadWhole(parse, s), fragment) == ReadWhole(parse, s + fragment)
  {
    var Returned(es, n) := parse(s);
    var o := parse(s[n..] + fragment);
    assert parse(s + fragment) == Behind(es, n, o);
    if o.Returned? {
      assert (s[n..] + fragment)[o.consumed..] == (s + fragment)[n + o.consumed..];
    }
  }

  /** What has arrived after some number of fragments, at most `n`, throws when parsed in one piece. */
  ghost predicate SomeCutThrows(parse: string -> Outcome, fragments: seq<string>, n: nat)
    requires n <= |fragments|
  {
    exists k :: 0 <= k <= n && ThrowsAt(parse, fragments, k)
  }

  ghost predicate ThrowsAt(parse: string -> Outcome, fragments: seq<string>, k: nat)
    requires k <= |fragments|
  {
    parse(JoinFirst(fragments, k)).Thrown?
  }

  lemma CutSplit(parse: string -> Outcome, fragments: seq<string>, n: nat)
    requires n <= |fragments|
    ensures SomeCutThrows(parse, fragments, n) <==>
            (n > 0 && SomeCutThrows(parse, fragments, n - 1)) || ThrowsAt(parse, fragments, n)
  {
    if n > 0 && SomeCutThrows(parse, fragments, n - 1) {
      var k :| 0 <= k <= n - 1 && ThrowsAt(parse, fragments, k);
      assert 0 <= k <= n;
    }
  }

  /**
    The reading loop breaks exactly when some cut of the stream breaks the parser, and otherwise it has made
    the callbacks, and keeps the bytes, of a single call on everything received.
   */
  lemma {:induction false} ReceiveFirstIsReadWhole(parse: string -> Outcome, fragments: seq<string>, n: nat)
    requires Resumable(parse) && parse([]) == Returned([], 0) && n <= |fragments|
    ensures ReceiveFirst(parse, fragments, n).Broken? <==> SomeCutThrows(parse, fragments, n)
    ensures !SomeCutThrows(parse, fragments, n) ==>
              ReceiveFirst(parse, fragments, n) == ReadWhole(parse, JoinFirst(fragments, n))
  {
    CutSplit(parse, fragments, n);
    if n > 0 {
      ReceiveFirstIsReadWhole(parse, fragments, n - 1);
      if !SomeCutThrows(parse, fragments, n - 1) {
        CutSplit(parse, fragments, n - 1);
        ReceiveAfterWhole(parse, JoinFirst(fragments, n - 1), fragments[n - 1]);
      }
    }
  }

  ghost function ReceiveAll(fragments: seq<string>): Reader
    requires Bounded(ParseReply)
  {
    ReceiveFirst(ParseReply, fragments, |fragments|)
  }

  /** The law for `parseReply`, for every way of cutting any input into fragments. */
  lemma StreamIsWhole(fragments: seq<string>)
    ensures Bounded(ParseReply)
    ensures ReceiveAll(fragments).Broken? <==> SomeCutThrows(ParseReply, fragments, |fragments|)
    ensures !SomeCutThrows(ParseReply, fragments, |fragments|) ==>
              ReceiveAll(fragments) == ReadWhole(ParseReply, JoinFirst(fragments, |fragments|))
  {
    ParseReplyIsResumable();
    ReceiveFirstIsReadWhole(ParseReply, fragments, |fragments|);
  }
}
