/**
  The printer side of RESP, and what `parseReply` makes of a printed stream that is cut anywhere.
 */
module RespEncoding {
  import opened Options
  import opened RespParser

  const CRLF := "\r\n"

  /** A line (simple string, error or integer), a bulk string, or the null bulk string. */
  datatype Item = Line(kind: char, line: string) | Bulk(bytes: string) | Null

  datatype Reply = Single(item: Item) | Array(items: seq<Item>)

  // ---- Printing ----

  function Digit(n: nat): (c: char)
    requires n < 10
    ensures IsDigit(c) && DigitValue(c) == n
  {
    ('0' as int + n) as char
  }

  function Dec(n: nat): (s: string)
    ensures s != [] && forall k :: 0 <= k < |s| ==> IsDigit(s[k])
  {
    if n < 10 then [Digit(n)] else Dec(n / 10) + [Digit(n % 10)]
  }

  function EncItem(x: Item): (s: string)
    ensures |s| >= 3
  {
    match x
    case Line(kind, line) => [kind] + line + CRLF
    case Bulk(bytes) => "$" + Dec(|bytes|) + CRLF + bytes + CRLF
    case Null => "$-1" + CRLF
  }

  function EncItems(xs: seq<Item>): string {
    if xs == [] then [] else EncItem(xs[0]) + EncItems(xs[1..])
  }

  function Header(r: Reply): string {
    match r
    case Single(x) => []
    case Array(xs) => "*" + Dec(|xs|) + CRLF
  }

  function Enc(r: Reply): string {
    match r
    case Single(x) => EncItem(x)
    case Array(xs) => Header(r) + EncItems(xs)
  }

  // ---- What may be printed, and what is read back ----

  ghost predicate NoClr(s: string) { forall j :: !IsClr(s, j) }

  ghost predicate ItemOk(x: Item) {
    match x
    case Line(kind, line) => (kind == '+' || kind == '-' || kind == ':') && NoClr(line)
    case Bulk(bytes) => |bytes| + 2 <= 0x7FFF_FFFF
    case Null => true
  }

  ghost predicate ItemsOk(xs: seq<Item>) { forall k :: 0 <= k < |xs| ==> ItemOk(xs[k]) }

  ghost predicate ReplyOk(r: Reply) {
    match r
    case Single(x) => ItemOk(x)
    case Array(xs) => |xs| <= 0x7FFF_FFFF && ItemsOk(xs)
  }

  /** Null is reported as the empty string. */
  function TextOf(x: Item): string {
    match x
    case Line(_, line) => line
    case Bulk(bytes) => bytes
    case Null => ""
  }

  function TextsOf(xs: seq<Item>): seq<string> {
    if xs == [] then [] else [TextOf(xs[0])] + TextsOf(xs[1..])
  }

  function EventOf(r: Reply): Event {
    match r
    case Single(x) => Text(if x.Line? then x.kind else '$', TextOf(x))
    case Array(xs) => Texts(TextsOf(xs))
  }

  /** A null bulk string is recognised only with one more byte behind it. */
  function Slack(xs: seq<Item>): nat {
    if xs != [] && xs[|xs| - 1].Null? then 1 else 0
  }

  /** How many bytes from the start of `r` the parser must see before it reports `r`. */
  function Need(r: Reply): nat {
    |Enc(r)| + match r case Single(x) => Slack([x]) case Array(xs) => Slack(xs)
  }

  /** From `i` on the buffer `b` shows `x`, as far as `b` goes. */
  ghost predicate Shows(b: string, i: nat, x: string) {
    forall j :: i <= j < i + |x| && j < |b| ==> b[j] == x[j - i]
  }

  lemma ShowsParts(b: string, i: nat, x: string, p: nat, y: string)
    requires Shows(b, i, x + y) && p == i + |x|
    ensures Shows(b, i, x) && Shows(b, p, y)
  {
    forall j | i <= j < i + |x| && j < |b| ensures b[j] == x[j - i] {
      assert b[j] == (x + y)[j - i];
    }
    forall j | p <= j < p + |y| && j < |b| ensures b[j] == y[j - p] {
      assert b[j] == (x + y)[j - i];
    }
  }

  // ---- Numbers ----

  lemma {:induction false} DigitsSplit(s: string, i: nat, mid: nat, end: nat, len: nat, v: nat)
    requires i <= mid <= end <= |s| && len <= INT_MAX && ReadDigits(s, i, mid, len) == Done(v, mid)
    ensures v <= INT_MAX && ReadDigits(s, i, end, len) == ReadDigits(s, mid, end, v)
    decreases mid - i
  {
    if i < mid {
      DigitsSplit(s, i + 1, mid, end, len * 10 + DigitValue(s[i]), v);
    }
  }

  lemma DigitsOne(b: string, i: nat, len: nat, v: nat)
    requires i < |b| && IsDigit(b[i]) && v == len * 10 + DigitValue(b[i]) && v <= INT_MAX
    ensures ReadDigits(b, i, i + 1, len) == Done(v, i + 1)
  {
    assert ReadDigits(b, i + 1, i + 1, v) == Done(v, i + 1);
  }

  /** The digit loop inverts decimal printing, and never overflows on a number that fits; `e` is where it ends. */
  lemma {:induction false} DecRead(b: string, i: nat, n: nat, e: nat)
    requires n <= INT_MAX && e == i + |Dec(n)| <= |b| && Shows(b, i, Dec(n))
    ensures ReadDigits(b, i, e, 0) == Done(n, e)
    decreases n
  {
    if n < 10 {
      assert b[i] == [Digit(n)][0];
      DigitsOne(b, i, 0, n);
    } else {
      ShowsParts(b, i, Dec(n / 10), e - 1, [Digit(n % 10)]);
      assert b[e - 1] == [Digit(n % 10)][0];
      DecRead(b, i, n / 10, e - 1);
      DigitsSplit(b, i, e - 1, e, 0, n / 10);
      DigitsOne(b, e - 1, n / 10, n);
    }
  }

  /** A printed line ends at its own CR LF, and without that there is no CR LF at all. */
  lemma ClrOfLine(b: string, i: nat, line: string)
    requires NoClr(line) && Shows(b, i, line + CRLF)
    ensures i + |line| + 2 <= |b| ==> Clr(b, i) == Some(i + |line|)
    ensures |b| < i + |line| + 2 ==> Clr(b, i) == None
  {
    var x := line + CRLF;
    forall j | i <= j < i + |line| ensures !IsClr(b, j) {
      assert j + 1 < |b| ==> b[j] == x[j - i] && b[j + 1] == x[j + 1 - i];
      assert !IsClr(line, j - i);
    }
    if i + |line| + 2 <= |b| {
      assert b[i + |line|] == x[|line|] && b[i + |line| + 1] == x[|line| + 1];
      assert IsClr(b, i + |line|);
    }
  }

  /** A printed length behind a type byte at `i`; `h` is where its line ends. */
  lemma LengthOf(b: string, i: nat, kind: char, n: nat, rest: string, h: nat)
    requires n <= INT_MAX && i < |b| && Shows(b, i, [kind] + Dec(n) + CRLF + rest) && h == i + |Dec(n)| + 3
    ensures b[i] == kind && Shows(b, h, rest)
    ensures h <= |b| ==> ParseLength(b, i + 1) == Done(n, h)
    ensures |b| < h ==> ParseLength(b, i + 1) == Partial
  {
    var length := Dec(n) + CRLF;
    assert [kind] + Dec(n) + CRLF + rest == [kind] + (length + rest);
    ShowsParts(b, i, [kind], i + 1, length + rest);
    ShowsParts(b, i + 1, length, h, rest);
    NumberOf(b, i + 1, n, h - 2);
  }

  lemma NumberOf(b: string, i: nat, n: nat, e: nat)
    requires n <= INT_MAX && Shows(b, i, Dec(n) + CRLF) && e == i + |Dec(n)|
    ensures e + 2 <= |b| ==> ParseLength(b, i) == Done(n, e + 2)
    ensures |b| < e + 2 ==> ParseLength(b, i) == Partial
  {
    assert NoClr(Dec(n));
    ClrOfLine(b, i, Dec(n));
    if e + 2 <= |b| {
      ShowsParts(b, i, Dec(n), e, CRLF);
      DecRead(b, i, n, e);
      assert b[i] == Dec(n)[0];
    }
  }

  // ---- Items, arrays, replies: complete or cut ----

  lemma ShownSlice(b: string, i: nat, x: string, e: nat)
    requires Shows(b, i, x) && e == i + |x| <= |b|
    ensures b[i..e] == x
  {
  }

  lemma LineText(kind: char, line: string)
    ensures [kind] + line + CRLF == [kind] + (line + CRLF)
  {
  }

  /** A line from behind its type byte on; `p` is where its CR LF starts. */
  lemma LineBody(b: string, i: nat, line: string, p: nat)
    requires NoClr(line) && Shows(b, i, line + CRLF) && p == i + |line|
    ensures p + 2 <= |b| ==> ParseLine(b, i) == Done(line, p + 2)
    ensures |b| < p + 2 ==> ParseLine(b, i) == Partial
  {
    ClrOfLine(b, i, line);
    if p + 2 <= |b| {
      ShowsParts(b, i, line, p, CRLF);
      ShownSlice(b, i, line, p);
    }
  }

  lemma LineParse(b: string, i: nat, x: Item)
    requires x.Line? && ItemOk(x) && i < |b| && Shows(b, i, EncItem(x))
    ensures i + |EncItem(x)| <= |b| ==> ParseItem(b, i) == Done(x.line, i + |EncItem(x)|)
    ensures |b| < i + |EncItem(x)| ==> ParseItem(b, i) == Partial
  {
    LineText(x.kind, x.line);
    ShowsParts(b, i, [x.kind], i + 1, x.line + CRLF);
    assert b[i] == [x.kind][0];
    LineBody(b, i + 1, x.line, i + 1 + |x.line|);
  }

  lemma BulkText(digits: string, bytes: string)
    ensures "$" + digits + CRLF + bytes + CRLF == ['$'] + digits + CRLF + (bytes + CRLF)
    ensures |"$" + digits + CRLF + bytes + CRLF| == |digits| + |bytes| + 5
  {
  }

  /** A bulk string whose length is read, or waited for, already; `h` is where its bytes start. */
  lemma BulkBody(b: string, i: nat, bytes: string, h: nat)
    requires h <= |b| ==> ParseLength(b, i) == Done(|bytes|, h)
    requires |b| < h ==> ParseLength(b, i) == Partial
    requires |bytes| + 2 <= INT_MAX && Shows(b, h, bytes + CRLF)
    ensures h + |bytes| + 2 <= |b| ==> ParseBulk(b, i) == Done(bytes, h + |bytes| + 2)
    ensures |b| < h + |bytes| + 2 ==> ParseBulk(b, i) == Partial
  {
    if h + |bytes| + 2 <= |b| {
      ShowsParts(b, h, bytes, h + |bytes|, CRLF);
      ShownSlice(b, h, bytes, h + |bytes|);
    }
  }

  lemma BulkItem(b: string, i: nat)
    requires i < |b| && b[i] == '$'
    ensures ParseItem(b, i) == ParseBulk(b, i + 1)
  {
  }

  lemma BulkAt(b: string, i: nat, bytes: string, n: nat, rest: string, h: nat)
    requires n == |bytes| && n + 2 <= INT_MAX && rest == bytes + CRLF && h == i + |Dec(n)| + 3 && i < |b|
    requires Shows(b, i, ['$'] + Dec(n) + CRLF + rest)
    ensures h + n + 2 <= |b| ==> ParseItem(b, i) == Done(bytes, h + n + 2)
    ensures |b| < h + n + 2 ==> ParseItem(b, i) == Partial
  {
    LengthOf(b, i, '$', n, rest, h);
    BulkBody(b, i + 1, bytes, h);
    BulkItem(b, i);
  }

  lemma BulkParse(b: string, i: nat, x: Item)
    requires x.Bulk? && ItemOk(x) && i < |b| && Shows(b, i, EncItem(x))
    ensures i + |EncItem(x)| <= |b| ==> ParseItem(b, i) == Done(x.bytes, i + |EncItem(x)|)
    ensures |b| < i + |EncItem(x)| ==> ParseItem(b, i) == Partial
  {
    var n := |x.bytes|;
    BulkText(Dec(n), x.bytes);
    BulkAt(b, i, x.bytes, n, x.bytes + CRLF, i + |Dec(n)| + 3);
  }

  /** The length of a null bulk string, from behind its type byte on. */
  lemma NullLength(b: string, i: nat)
    requires Shows(b, i, "-1" + CRLF)
    ensures i + 4 <= |b| ==> ParseLength(b, i) == Done(-1, i + 4)
    ensures |b| < i + 4 ==> ParseLength(b, i) == Partial
  {
    ClrOfLine(b, i, "-1");
    if i + 4 <= |b| {
      assert b[i] == ("-1" + CRLF)[0] && b[i + 1] == ("-1" + CRLF)[1];
      DigitsOne(b, i + 1, 0, 1);
    }
  }

  lemma NullParse(b: string, i: nat)
    requires i < |b| && Shows(b, i, EncItem(Null))
    ensures i + |EncItem(Null)| < |b| ==> ParseItem(b, i) == Done("", i + |EncItem(Null)|)
    ensures |b| <= i + |EncItem(Null)| ==> ParseItem(b, i) == Partial
  {
    assert EncItem(Null) == "$" + ("-1" + CRLF);
    ShowsParts(b, i, "$", i + 1, "-1" + CRLF);
    assert b[i] == "$"[0];
    NullLength(b, i + 1);
  }

  lemma ItemParse(b: string, i: nat, x: Item)
    requires ItemOk(x) && i < |b| && Shows(b, i, EncItem(x))
    ensures i + |EncItem(x)| + Slack([x]) <= |b| ==> ParseItem(b, i) == Done(TextOf(x), i + |EncItem(x)|)
    ensures |b| < i + |EncItem(x)| + Slack([x]) ==> ParseItem(b, i) == Partial
  {
    match x
    case Line(_, _) => LineParse(b, i, x);
    case Bulk(_) => BulkParse(b, i, x);
    case Null => NullParse(b, i);
  }

  lemma SlackOfRest(xs: seq<Item>)
    requires xs != []
    ensures Slack(xs) == if |xs| == 1 then Slack([xs[0]]) else Slack(xs[1..])
    ensures |xs| > 1 ==> |EncItems(xs[1..])| > 0
  {
  }

  /** The rest of an array that is cut inside its next element is not complete. */
  lemma CutBefore(b: string, i: nat, xs: seq<Item>)
    requires xs != [] && |b| < i + |EncItem(xs[0])| + Slack([xs[0]])
    ensures |b| < i + |EncItems(xs)| + Slack(xs)
  {
    SlackOfRest(xs);
  }

  lemma ItemsWait(b: string, i: nat, count: nat, texts: seq<string>)
    requires i == |b| || (i < |b| && ParseItem(b, i) == Partial)
    ensures ParseItems(b, i, count + 1, texts) == Partial
  {
  }

  lemma ItemsShow(b: string, i: nat, xs: seq<Item>, p: nat)
    requires xs != [] && p == i + |EncItem(xs[0])| && Shows(b, i, EncItems(xs))
    ensures Shows(b, i, EncItem(xs[0])) && Shows(b, p, EncItems(xs[1..]))
    ensures i + |EncItems(xs)| == p + |EncItems(xs[1..])|
  {
    ShowsParts(b, i, EncItem(xs[0]), p, EncItems(xs[1..]));
  }

  lemma TextsCons(xs: seq<Item>, texts: seq<string>)
    requires xs != []
    ensures texts + [TextOf(xs[0])] + TextsOf(xs[1..]) == texts + TextsOf(xs)
  {
  }

  lemma ArrayUnfold(b: string, i: nat, len: nat, p: nat)
    requires ParseLength(b, i) == Done(len, p)
    ensures ParseArray(b, i) == ParseItems(b, p, len, [])
  {
  }

  /** An element that is all there, in front of the rest. */
  lemma NextItem(b: string, i: nat, xs: seq<Item>, texts: seq<string>, p: nat)
    requires xs != [] && ItemOk(xs[0]) && i < |b| && Shows(b, i, EncItem(xs[0]))
    requires p == i + |EncItem(xs[0])| && p + Slack([xs[0]]) <= |b|
    ensures ParseItems(b, i, |xs|, texts) == ParseItems(b, p, |xs[1..]|, texts + [TextOf(xs[0])])
  {
    ItemParse(b, i, xs[0]);
    ItemsUnfold(b, i, |xs[1..]|, texts, TextOf(xs[0]), p);
  }

  /** One that is not. */
  lemma NextItemCut(b: string, i: nat, xs: seq<Item>, texts: seq<string>)
    requires xs != [] && ItemOk(xs[0]) && i <= |b| && Shows(b, i, EncItem(xs[0]))
    requires |b| < i + |EncItem(xs[0])| + Slack([xs[0]])
    ensures ParseItems(b, i, |xs|, texts) == Partial && |b| < i + |EncItems(xs)| + Slack(xs)
  {
    if i < |b| { ItemParse(b, i, xs[0]); }
    ItemsWait(b, i, |xs| - 1, texts);
    CutBefore(b, i, xs);
  }

  lemma {:induction false} ItemsParse(b: string, i: nat, xs: seq<Item>, texts: seq<string>, end: nat)
    requires ItemsOk(xs) && i <= |b| && Shows(b, i, EncItems(xs)) && end == i + |EncItems(xs)|
    ensures end + Slack(xs) <= |b| ==> ParseItems(b, i, |xs|, texts) == Done(texts + TextsOf(xs), end)
    ensures |b| < end + Slack(xs) ==> ParseItems(b, i, |xs|, texts) == Partial
    decreases |xs|
  {
    if xs == [] {
      assert texts + TextsOf(xs) == texts;
    } else {
      var x, rest := xs[0], xs[1..];
      var p := i + |EncItem(x)|;
      ItemsShow(b, i, xs, p);
      if p + Slack([x]) <= |b| {
        NextItem(b, i, xs, texts, p);
        ItemsParse(b, p, rest, texts + [TextOf(x)], end);
        SlackOfRest(xs);
        TextsCons(xs, texts);
      } else {
        NextItemCut(b, i, xs, texts);
      }
    }
  }

  lemma ArrayParse(b: string, i: nat, xs: seq<Item>, h: nat)
    requires ReplyOk(Array(xs)) && i < |b| && Shows(b, i, Enc(Array(xs)))
    requires h == i + |Header(Array(xs))|
    ensures |b| < h ==> ParseArray(b, i + 1) == Fail(BadArraySize)
    ensures h + |EncItems(xs)| + Slack(xs) <= |b| ==>
              ParseArray(b, i + 1) == Done(TextsOf(xs), h + |EncItems(xs)|)
    ensures h <= |b| < h + |EncItems(xs)| + Slack(xs) ==> ParseArray(b, i + 1) == Partial
  {
    assert "*" == ['*'];
    ArrayAt(b, i, xs, EncItems(xs), h, h + |EncItems(xs)|);
  }

  lemma ArrayAt(b: string, i: nat, xs: seq<Item>, body: string, h: nat, end: nat)
    requires |xs| <= INT_MAX && ItemsOk(xs) && i < |b| && Shows(b, i, ['*'] + Dec(|xs|) + CRLF + body)
    requires h == i + |Dec(|xs|)| + 3 && body == EncItems(xs) && end == h + |body|
    ensures |b| < h ==> ParseArray(b, i + 1) == Fail(BadArraySize)
    ensures end + Slack(xs) <= |b| ==> ParseArray(b, i + 1) == Done(TextsOf(xs), end)
    ensures h <= |b| < end + Slack(xs) ==> ParseArray(b, i + 1) == Partial
  {
    LengthOf(b, i, '*', |xs|, body, h);
    if h <= |b| {
      ArrayUnfold(b, i + 1, |xs|, h);
      AllItemsParse(b, h, xs, end);
    }
  }

  lemma AllItemsParse(b: string, h: nat, xs: seq<Item>, end: nat)
    requires ItemsOk(xs) && h <= |b| && Shows(b, h, EncItems(xs)) && end == h + |EncItems(xs)|
    ensures end + Slack(xs) <= |b| ==> ParseItems(b, h, |xs|, []) == Done(TextsOf(xs), end)
    ensures |b| < end + Slack(xs) ==> ParseItems(b, h, |xs|, []) == Partial
  {
    ItemsParse(b, h, xs, [], end);
    assert [] + TextsOf(xs) == TextsOf(xs);
  }

  /** A reply is reported whole, or waited for, or, cut inside an array header, refused. */
  lemma ReplyParse(b: string, i: nat, r: Reply)
    requires ReplyOk(r) && i < |b| && Shows(b, i, Enc(r))
    ensures ParseOne(b, i)
         == if |b| < i + |Header(r)| then Fail(BadArraySize)
            else if i + Need(r) <= |b| then Done(EventOf(r), i + |Enc(r)|)
            else Partial
  {
    assert b[i] == Enc(r)[0];
    match r
    case Single(x) => ItemParse(b, i, x);
    case Array(xs) => ArrayParse(b, i, xs, i + |Header(r)|);
  }
}
