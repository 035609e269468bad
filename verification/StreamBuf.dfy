/**
  Poco's `BasicBufferedBidirectionalStreamBuf`: two fixed buffers and the get and put pointers of
  `std::basic_streambuf` between a caller and a device.  Pointers are indices into their buffer; the put area starts
  at 0 and ends one slot short of the buffer, and the four first slots of the read buffer are for putback.
 */
module StreamBuf {
  import opened Options

  const PUTBACK := 4

  // ---- The get area on values ----

  /** Delivered characters, then the unread window, then the rest of the device are the whole stream. */
  ghost predicate Conserved(buf: seq<char>, gptr: nat, egptr: nat, delivered: seq<char>, input: seq<char>,
    source: seq<char>)
  {
    gptr <= egptr <= |buf| && delivered + buf[gptr..egptr] + input == source
  }

  /** From `back` up to the get pointer the buffer repeats the last characters delivered. */
  ghost predicate Repeats(buf: seq<char>, back: nat, gptr: nat, delivered: seq<char>) {
    && back <= gptr <= |buf| && gptr - back <= |delivered|
    && buf[back..gptr] == delivered[|delivered| - (gptr - back)..]
  }

  lemma AtStart(buf: seq<char>, source: seq<char>)
    requires PUTBACK < |buf|
    ensures Conserved(buf, PUTBACK, PUTBACK, [], source, source) && Repeats(buf, PUTBACK, PUTBACK, [])
  {
    assert [] + buf[PUTBACK..PUTBACK] + source == source;
  }

  lemma RepeatsLess(buf: seq<char>, back: nat, back': nat, gptr: nat, delivered: seq<char>)
    requires Repeats(buf, back, gptr, delivered) && back <= back' <= gptr
    ensures Repeats(buf, back', gptr, delivered)
  {
    assert buf[back'..gptr] == buf[back..gptr][back' - back..];
  }

  lemma Refilled(buf: seq<char>, gptr: nat, buf': seq<char>, n: nat, delivered: seq<char>, input: seq<char>,
    source: seq<char>)
    requires Conserved(buf, gptr, gptr, delivered, input, source)
    requires n <= |input| && PUTBACK + n <= |buf'| && buf'[PUTBACK..PUTBACK + n] == input[..n]
    ensures Conserved(buf', PUTBACK, PUTBACK + n, delivered, input[n..], source)
  {
    assert buf[gptr..gptr] == [];
    assert input == input[..n] + input[n..];
    assert delivered + [] + input == delivered + input[..n] + input[n..];
  }

  /** `moved` is `buf` after its `n` characters from `from` on were copied to `to`. */
  ghost predicate Copied(buf: seq<char>, moved: seq<char>, to: nat, from: nat, n: nat) {
    && |moved| == |buf| && to + n <= |buf| && from + n <= |buf|
    && moved[..to] == buf[..to] && moved[to..to + n] == buf[from..from + n] && moved[to + n..] == buf[to + n..]
  }

  lemma CopiedPointwise(buf: seq<char>, moved: seq<char>, to: nat, from: nat, n: nat, d: int)
    requires |moved| == |buf| && to + n <= |buf| && from + n <= |buf| && d == from - to
    requires forall j :: 0 <= j < to ==> moved[j] == buf[j]
    requires forall j :: to <= j < to + n ==> moved[j] == buf[j + d]
    requires forall j :: to + n <= j < |buf| ==> moved[j] == buf[j]
    ensures Copied(buf, moved, to, from, n)
  {
    assert moved[to..to + n] == buf[from..from + n];
  }

  /** Copying characters onto themselves changes nothing. */
  lemma CopiedInPlace(buf: seq<char>, moved: seq<char>, to: nat, n: nat)
    requires Copied(buf, moved, to, to, n)
    ensures moved == buf
  {
    assert moved == moved[..to] + moved[to..to + n] + moved[to + n..];
    assert buf == buf[..to] + buf[to..to + n] + buf[to + n..];
  }

  lemma SameTail(buf: seq<char>, moved: seq<char>, p: nat, back: nat, gptr: nat, delivered: seq<char>)
    requires p <= back && |moved| == |buf| && Repeats(buf, back, gptr, delivered) && moved[p..] == buf[p..]
    ensures Repeats(moved, back, gptr, delivered)
  {
    var d, e := back - p, gptr - p;
    assert moved[p..][d..e] == moved[p + d..p + e];
    assert buf[p..][d..e] == buf[p + d..p + e];
  }

  /** A failed refill copied the last `n` characters down to end at `PUTBACK`; those in place above it are safe. */
  lemma Overwritten(buf: seq<char>, gptr: nat, moved: seq<char>, n: nat, known: nat, kept: nat, delivered: seq<char>)
    requires PUTBACK <= gptr <= |buf| && n <= PUTBACK && known <= gptr && Repeats(buf, gptr - known, gptr, delivered)
    requires Copied(buf, moved, PUTBACK - n, gptr - n, n) && kept == Kept(gptr, known)
    ensures |moved| == |buf| && kept <= known && Repeats(moved, gptr - kept, gptr, delivered)
  {
    RepeatsLess(buf, gptr - known, gptr - kept, gptr, delivered);
    if gptr == PUTBACK {
      CopiedInPlace(buf, moved, PUTBACK - n, n);
    } else {
      SameTail(buf, moved, PUTBACK, gptr - kept, gptr, delivered);
    }
  }

  /** The last `n` characters copied down are a putback area in front of the new window. */
  lemma Slid(buf: seq<char>, gptr: nat, moved: seq<char>, n: nat, known: nat, kept: nat, delivered: seq<char>)
    requires PUTBACK <= gptr <= |buf| && n <= PUTBACK && Copied(buf, moved, PUTBACK - n, gptr - n, n)
    requires known <= gptr && Repeats(buf, gptr - known, gptr, delivered)
    requires kept <= known && kept <= n
    ensures Repeats(moved, PUTBACK - kept, PUTBACK, delivered)
  {
    RepeatsLess(buf, gptr - known, gptr - kept, gptr, delivered);
    assert buf[gptr - kept..gptr] == buf[gptr - n..gptr][n - kept..];
    assert moved[PUTBACK - kept..PUTBACK] == moved[PUTBACK - n..PUTBACK][n - kept..];
  }

  /** Both at once. */
  lemma Saved(buf: seq<char>, gptr: nat, moved: seq<char>, n: nat, known: nat, delivered: seq<char>,
    input: seq<char>, source: seq<char>)
    requires Conserved(buf, gptr, gptr, delivered, input, source) && PUTBACK <= gptr
    requires n <= PUTBACK && known <= gptr && Repeats(buf, gptr - known, gptr, delivered) && Min(PUTBACK, known) <= n
    requires Copied(buf, moved, PUTBACK - n, gptr - n, n)
    ensures Conserved(moved, gptr, gptr, delivered, input, source)
    ensures Kept(gptr, known) <= known && Repeats(moved, gptr - Kept(gptr, known), gptr, delivered)
    ensures Repeats(moved, PUTBACK - Min(PUTBACK, known), PUTBACK, delivered)
  {
    Overwritten(buf, gptr, moved, n, known, Kept(gptr, known), delivered);
    Slid(buf, gptr, moved, n, known, Min(PUTBACK, known), delivered);
    assert moved[gptr..gptr] == buf[gptr..gptr];
  }

  lemma SameFront(moved: seq<char>, filled: seq<char>, back: nat, delivered: seq<char>)
    requires PUTBACK <= |moved| && PUTBACK <= |filled| && filled[..PUTBACK] == moved[..PUTBACK]
    requires Repeats(moved, back, PUTBACK, delivered)
    ensures Repeats(filled, back, PUTBACK, delivered)
  {
    assert filled[back..PUTBACK] == filled[..PUTBACK][back..];
    assert moved[back..PUTBACK] == moved[..PUTBACK][back..];
  }

  /** How many characters a device gives that answers `n`. */
  function Asked(n: int): nat {
    if n > 0 then n else 0
  }

  function Extra(c: Option<char>): nat {
    if c.Some? then 1 else 0
  }

  function Min(a: int, b: int): int { if a <= b then a else b }

  /** How much of a putback area known to be right stays right when a refill fails with the get pointer at `gptr`. */
  function Kept(gptr: nat, known: nat): nat
    requires gptr >= PUTBACK
  {
    if gptr == PUTBACK then known else Min(gptr - PUTBACK, known)
  }

  /**
    `Kept` promises as much as it can: wherever it drops below what was known, some content of the buffer makes the
    very next character put back a wrong one.
   */
  lemma KeptIsTight(size: nat, gptr: nat, n: nat, to: nat, from: nat, known: nat, back: nat)
    returns (buf: seq<char>, delivered: seq<char>)
    requires PUTBACK < gptr <= size && 0 < n <= PUTBACK && Kept(gptr, known) < known
    requires to == PUTBACK - n && from == gptr - n && back == gptr - Kept(gptr, known) - 1
    ensures |buf| == size && Repeats(buf, back, gptr, delivered)
    ensures forall moved | Copied(buf, moved, to, from, n) :: !Repeats(moved, back, gptr, delivered)
  {
    buf := seq(size, i => if i == PUTBACK - 1 then 'a' else 'b');
    delivered := buf[PUTBACK - 1..gptr];
    forall moved | Copied(buf, moved, to, from, n)
      ensures !Repeats(moved, back, gptr, delivered)
    {
      assert moved[to..to + n][n - 1] == moved[back] == buf[from..from + n][n - 1] == 'b';
      assert delivered[0] == 'a' && moved[back..gptr][0] == 'b';
      assert delivered[|delivered| - (gptr - back)..] == delivered;
    }
  }

  /** One character moves from the front of the window to the delivered ones. */
  lemma Bumped(buf: seq<char>, back: nat, gptr: nat, next: nat, egptr: nat, delivered: seq<char>, c: char,
    input: seq<char>,
    source: seq<char>)
    requires gptr < egptr && next == gptr + 1 && Conserved(buf, gptr, egptr, delivered, input, source) && c == buf[gptr]
    requires Repeats(buf, back, gptr, delivered)
    ensures Conserved(buf, next, egptr, delivered + [c], input, source)
    ensures Repeats(buf, back, next, delivered + [c])
    ensures |delivered| < |source| && c == source[|delivered|]
  {
    assert buf[gptr..egptr] == [c] + buf[next..egptr];
    assert buf[back..next] == buf[back..gptr] + [c];
    assert delivered + ([c] + buf[next..egptr]) + input == delivered + [c] + buf[next..egptr] + input;
  }

  /** And back. */
  lemma Ungot(buf: seq<char>, gptr: nat, egptr: nat, sure: nat, delivered: seq<char>, input: seq<char>,
    source: seq<char>)
    requires Conserved(buf, gptr, egptr, delivered, input, source)
    requires 0 < sure <= gptr && Repeats(buf, gptr - sure, gptr, delivered)
    ensures Conserved(buf, gptr - 1, egptr, delivered[..|delivered| - 1], input, source)
    ensures Repeats(buf, gptr - sure, gptr - 1, delivered[..|delivered| - 1])
    ensures buf[gptr - 1] == delivered[|delivered| - 1]
  {
    var last, k := |delivered| - 1, |delivered| - sure;
    assert buf[gptr - 1] == buf[gptr - sure..gptr][sure - 1] == delivered[k..][sure - 1] == delivered[last];
    assert buf[gptr - 1..egptr] == [buf[gptr - 1]] + buf[gptr..egptr];
    assert delivered == delivered[..last] + [buf[gptr - 1]];
    assert delivered[..last] + ([buf[gptr - 1]] + buf[gptr..egptr]) + input == delivered + buf[gptr..egptr] + input;
    assert buf[gptr - sure..gptr - 1] == buf[gptr - sure..gptr][..sure - 1];
    assert delivered[..last][k..] == delivered[k..][..sure - 1];
  }

  /** The whole get area: pointers in order, nothing lost, and the last `sure` characters right. */
  ghost predicate GetArea(buf: seq<char>, eback: nat, gptr: nat, egptr: nat, sure: nat, delivered: seq<char>,
    input: seq<char>, source: seq<char>)
  {
    && PUTBACK < |buf| && eback <= PUTBACK <= egptr && eback <= gptr
    && Conserved(buf, gptr, egptr, delivered, input, source)
    && sure <= gptr - eback && Repeats(buf, gptr - sure, gptr, delivered)
  }

  lemma SavedArea(buf: seq<char>, moved: seq<char>, eback: nat, gptr: nat, n: nat, known: nat, delivered: seq<char>,
    input: seq<char>, source: seq<char>)
    requires GetArea(buf, eback, gptr, gptr, known, delivered, input, source) && n == Min(PUTBACK, gptr - eback)
    requires Copied(buf, moved, PUTBACK - n, gptr - n, n)
    ensures GetArea(moved, eback, gptr, gptr, Kept(gptr, known), delivered, input, source)
    ensures Repeats(moved, PUTBACK - Min(PUTBACK, known), PUTBACK, delivered)
  {
    Saved(buf, gptr, moved, n, known, delivered, input, source);
  }

  lemma UngotArea(buf: seq<char>, eback: nat, gptr: nat, egptr: nat, sure: nat, delivered: seq<char>, last: nat,
    input: seq<char>, source: seq<char>)
    requires GetArea(buf, eback, gptr, egptr, sure, delivered, input, source) && 0 < sure && last + 1 == |delivered|
    ensures GetArea(buf, eback, gptr - 1, egptr, sure - 1, delivered[..last], input, source)
    ensures delivered == delivered[..last] + [buf[gptr - 1]]
  {
    Ungot(buf, gptr, egptr, sure, delivered, input, source);
  }

  class Buffer {
    const size: nat
    const readBuffer: array<char>
    const writeBuffer: array<char>
    const readable: bool
    const writable: bool
    var eback: nat
    var gptr: nat
    var egptr: nat
    var pptr: nat

    /** The device: what it has yet to deliver, and what it has accepted. */
    var input: seq<char>
    var output: seq<char>

    /** History: the stream at the start, the characters delivered to the caller, and those written by it. */
    ghost const source: seq<char>
    ghost var delivered: seq<char>
    ghost var written: seq<char>
    /** How many characters before the get pointer are sure to repeat what was delivered last. */
    ghost var sure: nat

    ghost predicate GetOk()
      reads this, readBuffer
    {
      size == readBuffer.Length && GetArea(readBuffer[..], eback, gptr, egptr, sure, delivered, input, source)
    }

    ghost predicate PutOk()
      reads this, writeBuffer
    {
      && 0 < size == writeBuffer.Length
      && pptr <= size
      && output + writeBuffer[..pptr] == written
    }

    ghost predicate Valid()
      reads this, readBuffer, writeBuffer
    {
      readBuffer != writeBuffer && GetOk() && PutOk()
    }

    /** The constructor and `resetBuffers`. */
    constructor (bufferSize: nat, in_: bool, out_: bool, stream: seq<char>)
      requires bufferSize > PUTBACK
      ensures Valid() && size == bufferSize && readable == in_ && writable == out_
      ensures source == stream && delivered == [] && written == [] && output == [] && input == stream
      ensures eback == gptr == egptr == PUTBACK && pptr == 0
      ensures fresh(readBuffer) && fresh(writeBuffer)
    {
      size, readable, writable := bufferSize, in_, out_;
      readBuffer, writeBuffer := new char[bufferSize], new char[bufferSize];
      eback, gptr, egptr, pptr := PUTBACK, PUTBACK, PUTBACK, 0;
      input, output, source, delivered, written, sure := stream, [], stream, [], [], 0;
      new;
      AtStart(readBuffer[..], stream);
    }

    // ---- Reading ----

    /** `char_traits::move` towards the front of the read buffer. */
    method MoveDown(to: nat, from: nat, n: nat)
      requires to <= from && from + n <= readBuffer.Length
      modifies readBuffer
      ensures Copied(old(readBuffer[..]), readBuffer[..], to, from, n)
    {
      ghost var before, d := readBuffer[..], from - to;
      var i := 0;
      while i < n
        invariant i <= n
        invariant forall j :: 0 <= j < to ==> readBuffer[j] == before[j]
        invariant forall j :: to <= j < to + i ==> readBuffer[j] == before[j + d]
        invariant forall j :: to + i <= j < readBuffer.Length ==> readBuffer[j] == before[j]
      {
        readBuffer[to + i] := readBuffer[from + i];
        i := i + 1;
      }
      CopiedPointwise(before, readBuffer[..], to, from, n, d);
    }

    /** The device delivers the first `n` characters it still has. */
    method ReadFromDevice(n: nat)
      requires PUTBACK + n <= readBuffer.Length && n <= |input|
      modifies this`input, readBuffer
      ensures input == old(input)[n..]
      ensures readBuffer[PUTBACK..PUTBACK + n] == old(input)[..n]
      ensures readBuffer[..PUTBACK] == old(readBuffer[..PUTBACK])
    {
      var i := 0;
      while i < n
        invariant i <= n
        invariant readBuffer[PUTBACK..PUTBACK + i] == input[..i]
        invariant readBuffer[..PUTBACK] == old(readBuffer[..PUTBACK])
        modifies readBuffer
      {
        readBuffer[PUTBACK + i] := input[i];
        i := i + 1;
      }
      input := input[n..];
    }

    /** Every character that can be put back is the right one. */
    ghost predicate PutbackExact()
      reads this
    {
      sure == gptr - eback
    }

    /** The characters to keep for putback go in front of the place of the next block. */
    method SavePutback() returns (putback: nat)
      requires GetOk() && gptr == egptr
      modifies this`sure, readBuffer
      ensures GetOk() && putback == Min(PUTBACK, gptr - eback) && sure == Kept(gptr, old(sure))
      ensures Repeats(readBuffer[..], PUTBACK - Min(PUTBACK, old(sure)), PUTBACK, delivered)
    {
      putback := gptr - eback;
      if putback > PUTBACK { putback := PUTBACK; }
      MovePutback(putback);
    }

    method MovePutback(n: nat)
      requires GetOk() && gptr == egptr && n == Min(PUTBACK, gptr - eback)
      modifies this`sure, readBuffer
      ensures GetOk() && sure == Kept(gptr, old(sure))
      ensures Repeats(readBuffer[..], PUTBACK - Min(PUTBACK, old(sure)), PUTBACK, delivered)
    {
      ghost var before, known := readBuffer[..], sure;
      MoveDown(PUTBACK - n, gptr - n, n);
      sure := Kept(gptr, known);
      SavedArea(before, readBuffer[..], eback, gptr, n, known, delivered, input, source);
    }

    /** A block of `n` characters behind a putback area of which the last `kept` characters are right. */
    method Load(n: nat, putback: nat, ghost kept: nat)
      requires GetOk() && gptr == egptr && n <= size - PUTBACK && n <= |input| && kept <= putback <= PUTBACK
      requires Repeats(readBuffer[..], PUTBACK - kept, PUTBACK, delivered)
      modifies this`eback, this`gptr, this`egptr, this`input, this`sure, readBuffer
      ensures GetOk() && gptr == PUTBACK && egptr == PUTBACK + n && input == old(input)[n..]
      ensures PUTBACK - eback == putback && sure == kept
    {
      ghost var moved, stream := readBuffer[..], input;
      ReadFromDevice(n);
      Refilled(moved, gptr, readBuffer[..], n, delivered, stream, source);
      SameFront(moved, readBuffer[..], PUTBACK - kept, delivered);
      eback, gptr, egptr, sure := PUTBACK - putback, PUTBACK, PUTBACK + n, kept;
    }

    /** The second half of `underflow`, on an exhausted window; `n` is the device's answer. */
    method Refill(n: int) returns (ok: bool)
      requires Valid() && gptr == egptr && n <= size - PUTBACK && n <= |input|
      modifies this`eback, this`gptr, this`egptr, this`input, this`sure, readBuffer
      ensures Valid() && ok == (n > 0)
      // A refill keeps up to four characters for putback ...
      ensures ok ==> gptr == 4 && egptr == 4 + n && input == old(input)[n..]
      ensures ok ==> 4 - eback == Min(4, old(gptr - eback)) && sure == Min(4, old(sure))
      // ... and a failed one has moved them already, over slots that may have been in use.
      ensures !ok ==> gptr == old(gptr) && eback == old(eback) && egptr == old(egptr) && input == old(input)
      ensures !ok ==> sure == Kept(gptr, old(sure))
      ensures old(PutbackExact()) ==> (PutbackExact() <==> ok || gptr == 4 || eback == 4)
    {
      ghost var known := sure;
      var putback := SavePutback();
      if n <= 0 { return false; }
      Load(n, putback, Min(PUTBACK, known));
      return true;
    }

    /** The next character, left where it is; `n` is the device's answer, should it be asked. */
    method Underflow(n: int) returns (c: Option<char>)
      requires Valid() && n <= size - PUTBACK && n <= |input|
      modifies this`eback, this`gptr, this`egptr, this`input, this`sure, readBuffer
      ensures Valid()
      ensures c.Some? <==> readable && (old(gptr < egptr) || n > 0)
      ensures c.Some? ==> |delivered| < |source| && c.value == source[|delivered|]
      ensures c.Some? ==> gptr < egptr && c.value == readBuffer[gptr] && (old(PutbackExact()) ==> PutbackExact())
      // After a refill the putback area is as large as it can be.
      ensures c.Some? && old(gptr == egptr) ==>
        gptr - eback == Min(4, old(gptr - eback)) && sure == Min(4, old(sure))
      ensures !readable || old(gptr < egptr) ==>
        eback == old(eback) && gptr == old(gptr) && egptr == old(egptr) && input == old(input) && sure == old(sure)
      ensures readable && old(gptr == egptr) && n <= 0 ==> gptr == old(gptr) && sure == Kept(gptr, old(sure))
      ensures readable && old(gptr == egptr) ==> input == old(input)[Asked(n)..] && egptr - gptr == Asked(n)
    {
      if !readable { return None; }
      if gptr == egptr {
        var ok := Refill(n);
        if !ok { return None; }
      }
      Bumped(readBuffer[..], gptr - sure, gptr, gptr + 1, egptr, delivered, readBuffer[gptr], input, source);
      return Some(readBuffer[gptr]);
    }

    /** One step forward inside the window. */
    method Bump()
      requires GetOk() && gptr < egptr
      modifies this`gptr, this`sure, this`delivered
      ensures GetOk() && gptr == old(gptr) + 1 && sure == old(sure) + 1 &&
        delivered == old(delivered) + [readBuffer[old(gptr)]]
    {
      var c := readBuffer[gptr];
      Bumped(readBuffer[..], gptr - sure, gptr, gptr + 1, egptr, delivered, c, input, source);
      gptr, sure, delivered := gptr + 1, sure + 1, delivered + [c];
    }

    /** `sbumpc`: the next character from the window or, when that is empty, from the device. */
    method Get(n: int) returns (c: Option<char>)
      requires Valid() && readable && n <= size - PUTBACK && n <= |input|
      modifies this`eback, this`gptr, this`egptr, this`input, this`sure, this`delivered, readBuffer
      ensures Valid() && (c.Some? <==> old(gptr < egptr) || n > 0)
      ensures c.Some? ==> old(|delivered|) < |source| && c.value == source[old(|delivered|)]
      ensures c.Some? ==> delivered == old(delivered) + [c.value] && sure > 0
      ensures c.Some? && old(PutbackExact()) ==> PutbackExact()
      ensures c.None? ==> delivered == old(delivered)
      ensures old(gptr < egptr) ==> gptr == old(gptr) + 1 && egptr == old(egptr) && input == old(input)
      ensures old(gptr == egptr) ==> input == old(input)[Asked(n)..]
    {
      c := Underflow(n);
      if c.Some? { Bump(); }
    }

    /** `sungetc`: one step back, to the character delivered last if that is still sure. */
    method Unget() returns (c: Option<char>)
      requires Valid()
      modifies this`gptr, this`sure, this`delivered
      ensures c.Some? <==> old(eback < gptr)
      ensures c.None? ==> Valid() && gptr == old(gptr) && delivered == old(delivered) && sure == old(sure)
      ensures c.Some? ==> gptr == old(gptr) - 1 && c.value == readBuffer[gptr]
      ensures c.Some? && old(sure) > 0 ==> Valid() && sure == old(sure) - 1 && old(delivered) == delivered + [c.value]
    {
      if gptr <= eback { return None; }
      c := Some(readBuffer[gptr - 1]);
      if sure > 0 {
        ghost var buf, last := readBuffer[..], |delivered| - 1;
        UngotArea(buf, eback, gptr, egptr, sure, delivered, last, input, source);
        assert buf[gptr - 1] == c.value;
        sure, delivered := sure - 1, delivered[..last];
      }
      gptr := gptr - 1;
    }

    // ---- Writing ----

    /** The device takes the first `taken` pending characters (none if negative); the buffer empties if that was all. */
    method FlushBuffer(taken: int) returns (r: int)
      requires Valid() && taken <= pptr
      modifies this`pptr, this`output
      ensures output == old(output) + writeBuffer[..Min(old(pptr), if taken > 0 then taken else 0)]
      ensures taken == old(pptr) ==> r == taken && pptr == 0 && output == written
      ensures taken != old(pptr) ==> r == -1 && pptr == old(pptr)
      // A device that takes only part of a block sees it again.
      ensures Valid() <==> taken <= 0 || taken == old(pptr)
    {
      var n := pptr;
      if taken > 0 { output := output + writeBuffer[..taken]; }
      if taken == n {
        pptr := pptr - n;
        return n;
      }
      assert taken > 0 ==> |output + writeBuffer[..pptr]| > |written|;
      return -1;
    }

    /**
      `c` into the slot kept free for it, then a flush.  The answer is `c`, or `None` for end of file: so that a flush
      without a character answers `None` whether it succeeds or not.
     */
    method Overflow(c: Option<char>, taken: int) returns (r: Option<char>)
      requires Valid() && (c.Some? && writable ==> pptr < size) && taken <= pptr + Extra(c)
      modifies this`pptr, this`output, this`written, writeBuffer
      ensures r == if writable && taken == old(pptr) + Extra(c) then c else None
      ensures !writable ==> Valid() && written == old(written) && pptr == old(pptr) && output == old(output)
      ensures writable ==> written == old(written) + (if c.Some? then [c.value] else [])
      ensures writable && taken == old(pptr) + Extra(c) ==> Valid() && pptr == 0 && output == written
      ensures writable && taken != old(pptr) + Extra(c) ==> pptr == old(pptr) + Extra(c) && (Valid() <==> taken <= 0)
    {
      if !writable { return None; }
      if c.Some? { Store(c.value); }
      var n := FlushBuffer(taken);
      if n == -1 { return None; }
      return c;
    }

    /** A character into the next free slot. */
    method Store(c: char)
      requires Valid() && pptr < size
      modifies this`pptr, this`written, writeBuffer
      ensures Valid() && pptr == old(pptr) + 1 && written == old(written) + [c]
    {
      writeBuffer[pptr] := c;
      assert writeBuffer[..pptr + 1] == old(writeBuffer[..pptr]) + [c];
      pptr, written := pptr + 1, written + [c];
    }

    /**
      `sputc`: a character into the put area or, when that is full, through `Overflow`.  A device that accepts whole
      blocks keeps the last slot free; any other leaves it taken, and then there is no room for another.
     */
    method Put(c: char, taken: int) returns (ok: bool)
      requires Valid() && writable && pptr < size && taken <= size
      modifies this`pptr, this`output, this`written, writeBuffer
      ensures written == old(written) + [c]
      ensures ok <==> old(pptr) < size - 1 || taken == size
      ensures ok ==> Valid() && pptr < size
      ensures !ok ==> pptr == size && (Valid() <==> taken <= 0)
    {
      if pptr < size - 1 {
        Store(c);
        return true;
      }
      var r := Overflow(Some(c), taken);
      return r.Some?;
    }

    method Sync(taken: int) returns (r: int)
      requires Valid() && taken <= pptr
      modifies this`pptr, this`output
      ensures r == 0 <==> old(pptr) == 0 || taken == old(pptr)
      ensures r == 0 ==> Valid() && pptr == 0 && output == written
      ensures r != 0 ==> r == -1 && pptr == old(pptr) && (Valid() <==> taken <= 0)
    {
      if pptr > 0 {
        var n := FlushBuffer(taken);
        if n == -1 { return -1; }
      }
      return 0;
    }
  }

  // ---- Both sides ----

  ghost predicate Joined(from: Buffer, to: Buffer)
    reads from, from.readBuffer, from.writeBuffer, to, to.readBuffer, to.writeBuffer
  {
    && from != to && {from.readBuffer, from.writeBuffer} !! {to.readBuffer, to.writeBuffer}
    && from.Valid() && to.Valid() && from.readable && to.writable && to.pptr < to.size
    && to.written == from.delivered
  }

  method CopyOne(from: Buffer, to: Buffer, n: int)
    requires Joined(from, to) && n <= from.size - PUTBACK && n <= |from.input|
    modifies from, from.readBuffer, to, to.writeBuffer
    ensures Joined(from, to)
    ensures old(from.gptr < from.egptr) ==>
      from.gptr == old(from.gptr) + 1 && from.egptr == old(from.egptr) && from.input == old(from.input)
    ensures old(from.gptr == from.egptr) ==> from.input == old(from.input)[Asked(n)..]
  {
    var c := from.Get(n);
    if c.Some? { var ok := to.Put(c.value, to.size); }
  }

  /** How many characters the blocks from the `i`th on bring, when `left` are there and `room` fit at a time. */
  function Taken(blocks: seq<nat>, i: nat, room: nat, left: nat): (n: nat)
    requires i <= |blocks|
    ensures n <= left
    decreases |blocks| - i
  {
    if i == |blocks| then 0 else
      var n := Min(blocks[i], Min(room, left));
      n + Taken(blocks, i + 1, room, left - n)
  }

  /** As many blocks as characters are enough, if none is empty. */
  lemma {:induction false} EnoughBlocks(blocks: seq<nat>, i: nat, room: nat, left: nat)
    requires i <= |blocks| && room > 0 && forall j :: 0 <= j < |blocks| ==> blocks[j] > 0
    ensures |blocks| - i >= left ==> Taken(blocks, i, room, left) == left
    decreases |blocks| - i
  {
    if i < |blocks| { EnoughBlocks(blocks, i + 1, room, left - Min(blocks[i], Min(room, left))); }
  }

  /**
    Copying one stream into another a character at a time, through whatever block sizes the first device answers with:
    the second device ends up with all the characters the first one has given, which are the whole stream if and only if
    the blocks are enough.
   */
  method Copy(from: Buffer, to: Buffer, blocks: seq<nat>) returns (done: bool)
    requires Joined(from, to)
    modifies from, from.readBuffer, to, to.writeBuffer
    ensures from.Valid() && to.Valid() && to.pptr == 0 && to.output == from.delivered
    ensures to.output + from.input == from.source
    ensures from.input == old(from.input)[Taken(blocks, 0, from.size - PUTBACK, old(|from.input|))..]
    ensures done <==> Taken(blocks, 0, from.size - PUTBACK, old(|from.input|)) == old(|from.input|)
    ensures done ==> to.output == from.source
    ensures (forall i :: 0 <= i < |blocks| ==> blocks[i] > 0) && |blocks| >= old(|from.input|) ==> done
  {
    ghost var start := from.input;
    CopyBlocks(from, to, blocks);
    var r := to.Sync(to.pptr);
    done := from.input == [];
    Finished(start, from.input, blocks, from.size - PUTBACK);
  }

  method CopyBlocks(from: Buffer, to: Buffer, blocks: seq<nat>)
    requires Joined(from, to)
    modifies from, from.readBuffer, to, to.writeBuffer
    ensures Joined(from, to) && from.gptr == from.egptr
    ensures Progress(old(from.input), from.input, blocks, |blocks|, from.size - PUTBACK)
  {
    ghost var start, room := from.input, from.size - PUTBACK;
    assert start[0..] == start;
    var i := 0;
    while i < |blocks| || from.gptr < from.egptr
      invariant Joined(from, to) && Progress(start, from.input, blocks, i, room)
      decreases |blocks| - i, from.egptr - from.gptr
    {
      if from.gptr < from.egptr {
        CopyOne(from, to, 0);
      } else {
        ghost var before := from.input;
        CopyOne(from, to, Min(blocks[i], Min(from.size - PUTBACK, |from.input|)));
        OneBlockMore(start, before, from.input, blocks, i, room);
        i := i + 1;
      }
    }
  }

  /** What is left is the end of what there was, and the rest of the blocks bring the rest. */
  ghost predicate Progress(start: seq<char>, input: seq<char>, blocks: seq<nat>, i: nat, room: nat) {
    && i <= |blocks| && |input| <= |start| && input == start[|start| - |input|..]
    && |start| - |input| + Taken(blocks, i, room, |input|) == Taken(blocks, 0, room, |start|)
  }

  lemma OneBlockMore(start: seq<char>, before: seq<char>, after: seq<char>, blocks: seq<nat>, i: nat, room: nat)
    requires i < |blocks| && Progress(start, before, blocks, i, room)
    requires after == before[Min(blocks[i], Min(room, |before|))..]
    ensures Progress(start, after, blocks, i + 1, room)
  {
  }

  lemma Finished(start: seq<char>, input: seq<char>, blocks: seq<nat>, room: nat)
    requires Progress(start, input, blocks, |blocks|, room) && room > 0
    ensures input == start[Taken(blocks, 0, room, |start|)..]
    ensures input == [] <==> Taken(blocks, 0, room, |start|) == |start|
    ensures (forall i :: 0 <= i < |blocks| ==> blocks[i] > 0) && |blocks| >= |start| ==> input == []
  {
    if forall i :: 0 <= i < |blocks| ==> blocks[i] > 0 { EnoughBlocks(blocks, 0, room, |start|); }
  }
}
