/**
  `parseReply` on a stream of printed replies that is cut anywhere, and the reading loop on such a stream.
 */
module RespCuts {
  import opened RespParser
  import opened RespStream
  import opened RespEncoding
  import L = RespLayout

  // ---- Streams of pieces the parser knows how to take ----

  /** What the parser does at the start of a piece: refuse its cut header, wait for the rest, or report it. */
  ghost predicate Behaves(piece: string, extent: L.Extent, e: Event) {
    && |piece| == extent.size
    && forall b, i: nat {:trigger Shows(b, i, piece)} ::
      i < |b| && Shows(b, i, piece) ==> TakenAs(ParseOne(b, i), |b|, i, extent, e)
  }

  ghost predicate TakenAs(r: Parse<Event>, k: nat, i: nat, extent: L.Extent, e: Event) {
    r == if k < i + extent.header then Fail(BadArraySize)
         else if i + extent.need <= k then Done(e, i + extent.size)
         else Partial
  }

  /** The pieces of a stream, their extents and the callbacks they stand for. */
  ghost predicate Stream(ps: seq<string>, ls: seq<L.Extent>, es: seq<Event>) {
    && |ps| == |ls| == |es|
    && L.Ok(ls)
    && forall m :: 0 <= m < |ps| ==> Behaves(ps[m], ls[m], es[m])
  }

  lemma {:induction false} StartIsLength(ps: seq<string>, ls: seq<L.Extent>, m: nat)
    requires |ps| == |ls| && m <= |ps| && forall j :: 0 <= j < |ps| ==> |ps[j]| == ls[j].size
    ensures |JoinFirst(ps, m)| == L.Start(ls, m)
  {
    if m > 0 {
      StartIsLength(ps, ls, m - 1);
    }
  }

  lemma {:induction false} JoinPrefix(ps: seq<string>, m: nat, n: nat)
    requires m <= n <= |ps|
    ensures JoinFirst(ps, m) <= JoinFirst(ps, n)
    decreases n - m
  {
    if m < n {
      JoinPrefix(ps, m, n - 1);
    }
  }

  lemma ShowsPiece(ps: seq<string>, b: string, m: nat)
    requires m < |ps| && b <= JoinFirst(ps, |ps|)
    ensures Shows(b, |JoinFirst(ps, m)|, ps[m])
  {
    JoinPrefix(ps, m + 1, |ps|);
    JoinNext(ps, m);
    ShowsInside(JoinFirst(ps, |ps|), b, JoinFirst(ps, m), ps[m]);
  }

  lemma JoinNext(ps: seq<string>, m: nat)
    requires m < |ps|
    ensures JoinFirst(ps, m + 1) == JoinFirst(ps, m) + ps[m]
  {
  }

  lemma ShowsInside(whole: string, b: string, pre: string, piece: string)
    requires b <= whole && pre + piece <= whole
    ensures Shows(b, |pre|, piece)
  {
    forall j | |pre| <= j < |pre| + |piece| && j < |b| ensures b[j] == piece[j - |pre|] {
      assert whole[j] == (pre + piece)[j];
    }
  }

  lemma TakeNext<T>(xs: seq<T>, m: nat)
    requires m < |xs|
    ensures xs[..m] + [xs[m]] == xs[..m + 1]
  {
  }

  /** The outcome of reading the first `k` bytes when `n` replies are reported. */
  function CutOutcome(ls: seq<L.Extent>, es: seq<Event>, n: nat, k: nat): Outcome
    requires n <= |ls| == |es|
  {
    if L.EndsInHeader(ls, n, k) then Thrown(es[..n], BadArraySize) else Returned(es[..n], L.Start(ls, n))
  }

  /** What a parsing loop does from the start `i` of a piece when the input ends at `k`. */
  ghost predicate Step(from: (nat, seq<Event>) -> Outcome, k: nat, i: nat, extent: L.Extent, events: seq<Event>,
    e: Event)
  {
    from(i, events)
    == if k == i then Returned(events, i)
       else if k < i + extent.header then Thrown(events, BadArraySize)
       else if k < i + extent.need then Returned(events, i)
       else from(i + extent.size, events + [e])
  }

  ghost predicate StepAt(from: (nat, seq<Event>) -> Outcome, ls: seq<L.Extent>, es: seq<Event>, k: nat, j: nat)
    requires j < |ls| == |es|
  {
    L.Start(ls, j) <= k ==> Step(from, k, L.Start(ls, j), ls[j], es[..j], es[j])
  }

  /** A loop that takes such steps has the outcome told by the layout alone. */
  lemma {:induction false} FoldCut(from: (nat, seq<Event>) -> Outcome, ls: seq<L.Extent>, es: seq<Event>, k: nat,
    m: nat, n: nat)
    requires |ls| == |es| && L.Ok(ls) && m <= |ls| && L.Start(ls, m) <= k <= L.Total(ls)
    requires forall j :: 0 <= j < |ls| ==> StepAt(from, ls, es, k, j)
    requires k == L.Total(ls) ==> from(k, es) == Returned(es, k)
    requires n == L.Reported(ls, m, k)
    ensures from(L.Start(ls, m), es[..m]) == CutOutcome(ls, es, n, k)
    decreases |ls| - m
  {
    if m == |ls| {
      assert es[..m] == es;
    } else {
      assert StepAt(from, ls, es, k, m);
      if L.Start(ls, m) + ls[m].need <= k {
        TakeNext(es, m);
        FoldCut(from, ls, es, k, m + 1, n);
      }
    }
  }

  lemma TurnIsStep(from: (nat, seq<Event>) -> Outcome, one: Parse<Event>, k: nat, i: nat, extent: L.Extent,
    events: seq<Event>, e: Event)
    requires i < k && TakenAs(one, k, i, extent, e) && Turn(from, one, i, events)
    requires extent.header <= extent.size <= extent.need && 0 < extent.size
    ensures Step(from, k, i, extent, events, e)
  {
  }

  lemma FromStep(b: string, i: nat, extent: L.Extent, events: seq<Event>, e: Event)
    requires i <= |b| && (i < |b| ==> TakenAs(ParseOne(b, i), |b|, i, extent, e))
    requires extent.header <= extent.size <= extent.need && 0 < extent.size
    ensures Step(Loop(b), |b|, i, extent, events, e)
  {
    if i < |b| {
      LoopTurns(b, i, events);
      TurnIsStep(Loop(b), ReplyParser(b)(i), |b|, i, extent, events, e);
    }
  }

  lemma CutPieces(ps: seq<string>, ls: seq<L.Extent>, es: seq<Event>, b: string, n: nat)
    requires Stream(ps, ls, es) && b <= JoinFirst(ps, |ps|) && n == L.Reported(ls, 0, |b|)
    ensures ParseReply(b) == CutOutcome(ls, es, n, |b|)
  {
    var from := Loop(b);
    forall j | 0 <= j < |ls| ensures StepAt(from, ls, es, |b|, j) {
      StartIsLength(ps, ls, j);
      ShowsPiece(ps, b, j);
      if L.Start(ls, j) <= |b| {
        FromStep(b, L.Start(ls, j), ls[j], es[..j], es[j]);
      }
    }
    StartIsLength(ps, ls, |ps|);
    FoldCut(from, ls, es, |b|, 0, n);
    assert es[..0] == [];
  }

  // ---- Printed replies are such pieces ----

  ghost predicate AllOk(rs: seq<Reply>) { forall k :: 0 <= k < |rs| ==> ReplyOk(rs[k]) }

  function Printed(rs: seq<Reply>): seq<string> { seq(|rs|, i requires 0 <= i < |rs| => Enc(rs[i])) }

  function ExtentOf(r: Reply): L.Extent { L.Extent(|Enc(r)|, |Header(r)|, Need(r)) }

  function Extents(rs: seq<Reply>): seq<L.Extent> { seq(|rs|, i requires 0 <= i < |rs| => ExtentOf(rs[i])) }

  function Events(rs: seq<Reply>): seq<Event> { seq(|rs|, i requires 0 <= i < |rs| => EventOf(rs[i])) }

  /** The whole stream. */
  function EncAll(rs: seq<Reply>): string { JoinFirst(Printed(rs), |rs|) }

  lemma ReplyBehaves(r: Reply)
    requires ReplyOk(r)
    ensures Behaves(Enc(r), ExtentOf(r), EventOf(r))
  {
    forall b, i: nat | i < |b| && Shows(b, i, Enc(r)) ensures TakenAs(ParseOne(b, i), |b|, i, ExtentOf(r), EventOf(r)) {
      ReplyParse(b, i, r);
    }
  }

  lemma PrintedIsStream(rs: seq<Reply>)
    requires AllOk(rs)
    ensures Stream(Printed(rs), Extents(rs), Events(rs))
  {
    forall m | 0 <= m < |rs| ensures Behaves(Printed(rs)[m], Extents(rs)[m], Events(rs)[m]) {
      ReplyBehaves(rs[m]);
    }
  }

  /** How many replies a reader of the first `k` bytes of the stream can report. */
  function Reported(rs: seq<Reply>, k: nat): nat
    requires L.Ok(Extents(rs))
  {
    L.Reported(Extents(rs), 0, k)
  }

  /**
    The parser on a stream of replies cut after any `k` bytes: it throws exactly when the cut is inside an array
    header, and otherwise it has reported every reply it can and returns where the next one starts.
   */
  lemma CutStream(rs: seq<Reply>, k: nat)
    requires AllOk(rs) && k <= |EncAll(rs)|
    ensures L.Ok(Extents(rs))
    ensures L.InHeader(Extents(rs), k) ==>
              ParseReply(EncAll(rs)[..k]) == Thrown(Events(rs)[..Reported(rs, k)], BadArraySize)
    ensures !L.InHeader(Extents(rs), k) ==>
              ParseReply(EncAll(rs)[..k])
              == Returned(Events(rs)[..Reported(rs, k)], L.Start(Extents(rs), Reported(rs, k)))
  {
    var ls, es := Extents(rs), Events(rs);
    PrintedIsStream(rs);
    CutPieces(Printed(rs), ls, es, EncAll(rs)[..k], Reported(rs, k));
    L.InHeaderIsNext(ls, k);
  }

  /** The null bulk string ends reply `r`. */
  predicate EndsInNull(r: Reply) {
    match r
    case Single(x) => x.Null?
    case Array(xs) => xs != [] && xs[|xs| - 1].Null?
  }

  /** Nothing is needed behind the last piece. */
  ghost predicate LastFits(ls: seq<L.Extent>) {
    ls == [] || ls[|ls| - 1].need == ls[|ls| - 1].size
  }

  ghost predicate FitsUnlessNull(extent: L.Extent, r: Reply) {
    extent.need == extent.size <==> !EndsInNull(r)
  }

  ghost predicate FitUnlessNull(ls: seq<L.Extent>, rs: seq<Reply>) {
    |ls| == |rs| && forall i :: 0 <= i < |rs| ==> FitsUnlessNull(ls[i], rs[i])
  }

  lemma NeedsMoreAfterNull(r: Reply)
    ensures FitsUnlessNull(ExtentOf(r), r)
  {
  }

  lemma NeedMoreAfterNull(rs: seq<Reply>)
    ensures FitUnlessNull(Extents(rs), rs)
  {
    forall i | 0 <= i < |rs| ensures FitsUnlessNull(Extents(rs)[i], rs[i]) { NeedsMoreAfterNull(rs[i]); }
  }

  /** An uncut stream comes back whole exactly when it does not end in a null bulk string. */
  lemma RoundTrip(rs: seq<Reply>)
    requires AllOk(rs)
    ensures ParseReply(EncAll(rs)) == Returned(Events(rs), |EncAll(rs)|)
       <==> (rs == [] || !EndsInNull(rs[|rs| - 1]))
  {
    PrintedIsStream(rs);
    NeedMoreAfterNull(rs);
    UncutStream(rs, Printed(rs), Extents(rs), Events(rs), EncAll(rs));
  }

  lemma UncutStream(rs: seq<Reply>, ps: seq<string>, ls: seq<L.Extent>, es: seq<Event>, whole: string)
    requires Stream(ps, ls, es) && FitUnlessNull(ls, rs) && whole == JoinFirst(ps, |ps|)
    ensures ParseReply(whole) == Returned(es, |whole|) <==> (rs == [] || !EndsInNull(rs[|rs| - 1]))
  {
    UncutPieces(ps, ls, es, whole);
    if rs != [] { assert FitsUnlessNull(ls[|rs| - 1], rs[|rs| - 1]); }
  }

  lemma UncutPieces(ps: seq<string>, ls: seq<L.Extent>, es: seq<Event>, whole: string)
    requires Stream(ps, ls, es) && whole == JoinFirst(ps, |ps|)
    ensures ParseReply(whole) == Returned(es, |whole|) <==> LastFits(ls)
  {
    StartIsLength(ps, ls, |ps|);
    CutPieces(ps, ls, es, whole, L.Reported(ls, 0, |whole|));
    UncutOutcome(ls, es);
  }

  lemma UncutOutcome(ls: seq<L.Extent>, es: seq<Event>)
    requires L.Ok(ls) && |ls| == |es|
    ensures CutOutcome(ls, es, L.Reported(ls, 0, L.Total(ls)), L.Total(ls)) == Returned(es, L.Total(ls))
      <==> LastFits(ls)
  {
    L.ReportedAtEnd(ls);
    assert es[..|es|] == es;
  }

  lemma OneReported(r: Reply, whole: string, e: Event)
    requires AllOk([r]) && !EndsInNull(r) && Enc(r) == whole && EventOf(r) == e
    ensures ParseReply(whole) == Returned([e], |whole|)
  {
    RoundTrip([r]);
    OnePrinted(r);
    assert Events([r]) == [e];
  }

  /** A simple string, an error or an integer by itself. */
  lemma LineReported(c: char, line: string)
    requires (c == '+' || c == '-' || c == ':') && NoClr(line)
    ensures ParseReply([c] + line + "\r\n") == Returned([Text(c, line)], |line| + 3)
  {
    OneReported(Single(Line(c, line)), [c] + line + "\r\n", Text(c, line));
  }

  lemma OneElement(x: Item)
    ensures Enc(Array([x])) == "*1\r\n" + EncItem(x)
    ensures TextsOf([x]) == [TextOf(x)]
  {
    assert Dec(1) == "1" && EncItems([]) == "" && [x][1..] == [];
    assert EncItems([x]) == EncItem(x);
  }

  /** And as the only element of an array. */
  lemma LineInArrayReported(c: char, line: string)
    requires (c == '+' || c == '-' || c == ':') && NoClr(line)
    ensures ParseReply("*1\r\n" + ([c] + line + "\r\n")) == Returned([Texts([line])], |line| + 7)
  {
    var x := Line(c, line);
    OneElement(x);
    OneReported(Array([x]), "*1\r\n" + ([c] + line + "\r\n"), Texts([line]));
  }

  lemma OnePrinted(r: Reply)
    ensures EncAll([r]) == Enc(r)
  {
    assert JoinFirst(Printed([r]), 0) == "";
  }

  /** The first `n` fragments end inside an array header of the stream. */
  ghost predicate FragmentEndsInHeader(rs: seq<Reply>, fragments: seq<string>, n: nat)
    requires n <= |fragments|
  {
    L.InHeader(Extents(rs), |JoinFirst(fragments, n)|)
  }

  /**
    The reading loop on a printed stream, cut into any fragments: it breaks exactly when some fragment ends inside
    an array header.
   */
  lemma StreamBreaksInHeader(rs: seq<Reply>, fragments: seq<string>)
    requires AllOk(rs) && JoinFirst(fragments, |fragments|) <= EncAll(rs)
    ensures Bounded(ParseReply)
    ensures ReceiveAll(fragments).Broken? <==>
      exists n :: 0 <= n <= |fragments| && FragmentEndsInHeader(rs, fragments, n)
  {
    StreamIsWhole(fragments);
    forall n | 0 <= n <= |fragments|
      ensures ThrowsAt(ParseReply, fragments, n) <==> FragmentEndsInHeader(rs, fragments, n)
    {
      JoinPrefix(fragments, n, |fragments|);
      ThrowsInHeader(rs, JoinFirst(fragments, n));
    }
  }

  lemma ThrowsInHeader(rs: seq<Reply>, b: string)
    requires AllOk(rs) && b <= EncAll(rs)
    ensures ParseReply(b).Thrown? <==> L.InHeader(Extents(rs), |b|)
  {
    assert b == EncAll(rs)[..|b|];
    CutStream(rs, |b|);
  }

  /** And unbroken, it ends with every reply reported, in order, and nothing pending. */
  lemma StreamDeliversAll(rs: seq<Reply>, fragments: seq<string>)
    requires AllOk(rs) && JoinFirst(fragments, |fragments|) == EncAll(rs)
    requires rs == [] || !EndsInNull(rs[|rs| - 1])
    requires forall n :: 0 <= n <= |fragments| ==> !FragmentEndsInHeader(rs, fragments, n)
    ensures Bounded(ParseReply)
    ensures ReceiveAll(fragments) == Waiting(Events(rs), "")
  {
    StreamBreaksInHeader(rs, fragments);
    StreamIsWhole(fragments);
    RoundTrip(rs);
    WholeLeavesNothing(EncAll(rs), Events(rs));
  }

  lemma WholeLeavesNothing(whole: string, es: seq<Event>)
    requires ParseReply(whole) == Returned(es, |whole|)
    ensures Bounded(ParseReply) && ReadWhole(ParseReply, whole) == Waiting(es, "")
  {
    assert whole[|whole|..] == "";
  }
}
