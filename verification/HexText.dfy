/**
  `Utility::ConvertToHex` on 16-bit words and `Utility::convertASCII`: the words in hexadecimal with `0x` before and a
  blank between them, and the bytes such a text stands for.
 */
module HexText {
  import opened Options
  import opened StringSearch

  type byte = x: int | 0 <= x < 0x100
  type word = x: int | 0 <= x < 0x1_0000

  // ---- Printing ----

  /** The table of sixteen characters. */
  function Digit(n: nat): char
    requires n < 16
  {
    if n < 10 then '0' + n as char else 'A' + (n - 10) as char
  }

  function Digits(b: byte): string {
    [Digit(b / 16), Digit(b % 16)]
  }

  function WordDigits(w: word): string {
    Digits(w / 0x100) + Digits(w % 0x100)
  }

  /** One word's text, with the blank behind it unless it is the last. */
  function Part(w: word, last: bool): string {
    "0x" + WordDigits(w) + if last then "" else " "
  }

  /** The text of the words from the `i`th on. */
  function Hex(words: seq<word>, i: nat): string
    requires i <= |words|
    decreases |words| - i
  {
    if i == |words| then "" else Part(words[i], i == |words| - 1) + Hex(words, i + 1)
  }

  method AppendWord(str: string, w: word, last: bool) returns (s: string)
    ensures s == str + Part(w, last)
  {
    s := str + "0x";
    s := s + Digits(w / 0x100);
    s := s + Digits(w % 0x100);
    if !last { s := s + " "; }
    Appended(str, "0x", Digits(w / 0x100), Digits(w % 0x100), if last then "" else " ");
  }

  lemma Appended(s: string, a: string, b: string, c: string, d: string)
    ensures s + a + b + c + d == s + (a + (b + c) + d)
    ensures d == "" ==> s + a + b + c + d == s + a + b + c
  {
  }

  method ConvertToHex(words: seq<word>) returns (s: string)
    ensures s == Hex(words, 0) && ShowsWords(s, words)
    ensures Ascii(s) == Some(BytesOf(words, 0))
  {
    s := "";
    for i := 0 to |words|
      invariant s + Hex(words, i) == Hex(words, 0)
    {
      Regroup(s, "", Part(words[i], i == |words| - 1), Hex(words, i + 1));
      s := AppendWord(s, words[i], i == |words| - 1);
    }
    assert s + "" == s;
    HexRoundTrip(words);
    HexShows(words, 0, s);
  }

  /** At `p` stands `0x` and the four digits of the word, in capitals. */
  ghost predicate ShowsWord(s: string, p: nat, w: word) {
    && p + 6 <= |s| && s[p] == '0' && s[p + 1] == 'x'
    && s[p + 2] == "0123456789ABCDEF"[w / 0x1000] && s[p + 3] == "0123456789ABCDEF"[w / 0x100 % 0x10]
    && s[p + 4] == "0123456789ABCDEF"[w / 0x10 % 0x10] && s[p + 5] == "0123456789ABCDEF"[w % 0x10]
  }

  /** A word at every seventh place, blanks between them, and nothing else. */
  ghost predicate ShowsWords(s: string, words: seq<word>) {
    && |s| == (if words == [] then 0 else 7 * |words| - 1)
    && forall i :: 0 <= i < |words| ==> ShowsWord(s, 7 * i, words[i]) && (i < |words| - 1 ==> s[7 * i + 6] == ' ')
  }

  lemma DigitOfTable(n: nat)
    requires n < 16
    ensures Digit(n) == "0123456789ABCDEF"[n]
  {
    match n
    case 0 => case 1 => case 2 => case 3 => case 4 => case 5 => case 6 => case 7 =>
    case 8 => case 9 => case 10 => case 11 => case 12 => case 13 => case 14 => case 15 =>
  }

  lemma BySixteen(w: nat, q: nat, r: nat)
    requires w == 0x10 * q + r && r < 0x10
    ensures w / 0x10 == q && w % 0x10 == r
  {
  }

  lemma NibblesOf(w: word, a: nat, b: nat, c: nat, d: nat)
    requires a == w / 0x100 / 16 && b == w / 0x100 % 16 && c == w % 0x100 / 16 && d == w % 0x100 % 16
    ensures a == w / 0x1000 && b == w / 0x100 % 0x10 && c == w / 0x10 % 0x10 && d == w % 0x10
  {
    var hi, lo := w / 0x100, w % 0x100;
    assert w == 0x100 * hi + lo && hi == 16 * a + b && lo == 16 * c + d;
    assert w == 0x1000 * a + (0x100 * b + lo) && 0x100 * b + lo < 0x1000;
    BySixteen(w, 16 * hi + c, d);
    BySixteen(16 * hi + c, hi, c);
  }

  lemma PartChars(w: word, last: bool, a: nat, b: nat, c: nat, d: nat)
    requires a == w / 0x100 / 16 && b == w / 0x100 % 16 && c == w % 0x100 / 16 && d == w % 0x100 % 16
    ensures Part(w, last) == ['0', 'x', Digit(a), Digit(b), Digit(c), Digit(d)] + if last then "" else " "
  {
  }

  lemma PartShows(w: word, last: bool)
    ensures |Part(w, last)| == (if last then 6 else 7) && ShowsWord(Part(w, last), 0, w)
    ensures !last ==> Part(w, last)[6] == ' '
  {
    var a, b, c, d := w / 0x100 / 16, w / 0x100 % 16, w % 0x100 / 16, w % 0x100 % 16;
    NibblesOf(w, a, b, c, d);
    PartChars(w, last, a, b, c, d);
    DigitOfTable(a);
    DigitOfTable(b);
    DigitOfTable(c);
    DigitOfTable(d);
  }

  lemma ShowsBehind(front: string, s: string, p: nat, w: word, q: nat)
    requires q == |front| + p
    ensures ShowsWord(s, p, w) ==> ShowsWord(front + s, q, w)
  {
  }

  lemma {:induction false} HexShows(words: seq<word>, i: nat, s: string)
    requires i <= |words| && s == Hex(words, i)
    ensures ShowsWords(s, words[i..])
    decreases |words| - i
  {
    if i < |words| {
      var part, rest := Part(words[i], i == |words| - 1), Hex(words, i + 1);
      PartShows(words[i], i == |words| - 1);
      HexShows(words, i + 1, rest);
      ShowsMore(part, rest, words[i..], words[i + 1..]);
    }
  }

  lemma ShowsMore(part: string, rest: string, words: seq<word>, more: seq<word>)
    requires words != [] && more == words[1..] && ShowsWords(rest, more)
    requires |part| == (if more == [] then 6 else 7) && ShowsWord(part, 0, words[0]) && (more != [] ==> part[6] == ' ')
    ensures ShowsWords(part + rest, words)
  {
    var s := part + rest;
    forall i | 0 <= i < |words| ensures ShowsWord(s, 7 * i, words[i]) && (i < |words| - 1 ==> s[7 * i + 6] == ' ') {
      if i > 0 {
        var j := i - 1;
        assert more[j] == words[i] && ShowsWord(rest, 7 * j, more[j]);
        ShowsBehind(part, rest, 7 * j, words[i], 7 * i);
        if i < |words| - 1 { assert rest[7 * j + 6] == ' ' && s[7 * i + 6] == rest[7 * j + 6]; }
      }
    }
  }

  function Parts(words: seq<word>): (r: seq<string>)
    ensures |r| == |words| && forall i :: 0 <= i < |words| ==> r[i] == WordDigits(words[i])
  {
    seq(|words|, i requires 0 <= i < |words| => WordDigits(words[i]))
  }

  /** The parts from the `i`th on, each with the separator in front. */
  function Tail(parts: seq<string>, i: nat): string
    requires i <= |parts|
    decreases |parts| - i
  {
    if i == |parts| then "" else SEPARATOR + parts[i] + Tail(parts, i + 1)
  }

  lemma SeparatorMoves(front: string, d: string, rest: string)
    ensures ("0x" + front + " ") + ("0x" + d + rest) == "0x" + front + (SEPARATOR + d + rest)
  {
  }

  lemma {:induction false} HexIsTail(words: seq<word>, parts: seq<string>, i: nat)
    requires i < |words| && parts == Parts(words)
    ensures Hex(words, i) == "0x" + parts[i] + Tail(parts, i + 1)
    decreases |words| - i
  {
    if i < |words| - 1 {
      HexIsTail(words, parts, i + 1);
      SeparatorMoves(parts[i], parts[i + 1], Tail(parts, i + 2));
    } else {
      assert Hex(words, i + 1) == "" && Tail(parts, i + 1) == "";
    }
  }

  // ---- Erasing the separators ----

  const SEPARATOR := " 0x"

  function EraseAt(s: string, p: nat): (r: string)
    requires OccursAt(s, SEPARATOR, p)
    ensures |r| < |s|
  {
    s[..p] + s[p + 3..]
  }

  /** All separators, the first one first. */
  function EraseAll(s: string): string
    decreases |s|
  {
    var p := FindFrom(s, SEPARATOR, 0);
    if p == -1 then s else EraseAll(EraseAt(s, p))
  }

  /** The parts alone. */
  function Joined(parts: seq<string>, i: nat): string
    requires i <= |parts|
    decreases |parts| - i
  {
    if i == |parts| then "" else parts[i] + Joined(parts, i + 1)
  }

  predicate NoBlank(s: string) {
    ' ' !in s
  }

  lemma FirstSeparator(digits: string, rest: string)
    requires NoBlank(digits)
    ensures FindFrom(digits + SEPARATOR + rest, SEPARATOR, 0) == |digits|
  {
    var s, n := digits + SEPARATOR + rest, |digits|;
    assert s[n..n + 3] == SEPARATOR;
    assert OccursAt(s, SEPARATOR, n);
    forall q | 0 <= q < n ensures !OccursAt(s, SEPARATOR, q) {
      assert s[q] == digits[q] && digits[q] in digits;
      if q + 3 <= |s| { assert s[q..q + 3][0] == s[q]; }
    }
  }

  lemma NoSeparator(digits: string)
    requires NoBlank(digits)
    ensures FindFrom(digits, SEPARATOR, 0) == -1
  {
    forall q | 0 <= q && q + 3 <= |digits| ensures !OccursAt(digits, SEPARATOR, q) {
      assert digits[q..q + 3][0] == digits[q] && digits[q] in digits;
    }
  }

  lemma EraseOne(digits: string, rest: string)
    requires NoBlank(digits)
    ensures EraseAll(digits + SEPARATOR + rest) == EraseAll(digits + rest)
  {
    var s := digits + SEPARATOR + rest;
    FirstSeparator(digits, rest);
    assert s[..|digits|] == digits && s[|digits| + 3..] == rest;
    assert EraseAt(s, |digits|) == digits + rest;
  }

  lemma EraseNone(digits: string)
    requires NoBlank(digits)
    ensures EraseAll(digits) == digits
  {
    NoSeparator(digits);
  }

  lemma Regroup(a: string, b: string, c: string, d: string)
    ensures a + (b + c + d) == a + b + (c + d)
    ensures a + (c + d) == a + c + d
  {
  }

  /** Erasing never makes a new separator, since there is no blank among the digits. */
  lemma {:induction false} EraseTail(digits: string, parts: seq<string>, i: nat, erased: string)
    requires i <= |parts| && NoBlank(digits) && forall j :: 0 <= j < |parts| ==> NoBlank(parts[j])
    requires erased == EraseAll(digits + Tail(parts, i))
    ensures erased == digits + Joined(parts, i)
    decreases |parts| - i
  {
    if i == |parts| {
      assert digits + "" == digits;
      EraseNone(digits);
    } else {
      var d, rest, more := parts[i], Tail(parts, i + 1), Joined(parts, i + 1);
      Regroup(digits, SEPARATOR, d, rest);
      Regroup(digits, SEPARATOR, d, more);
      EraseOne(digits, d + rest);
      EraseTail(digits + d, parts, i + 1, erased);
    }
  }

  // ---- Reading ----

  function DigitValue(c: char): (v: int)
    ensures -1 <= v < 16
  {
    if '0' <= c <= '9' then c as int - '0' as int
    else if 'A' <= c <= 'F' then c as int - 'A' as int + 10
    else if 'a' <= c <= 'f' then c as int - 'a' as int + 10
    else -1
  }

  predicate IsSpace(c: char) {
    c == ' ' || 9 <= c as int <= 13
  }

  /** The number at the start of a text of at most two characters; `None` when there is none. */
  function Number(s: string): Option<byte>
    requires |s| <= 2
  {
    if s == "" || DigitValue(s[0]) < 0 then None
    else if |s| == 1 || DigitValue(s[1]) < 0 then Some(DigitValue(s[0]))
    else Some(16 * DigitValue(s[0]) + DigitValue(s[1]))
  }

  /** `stoul` in base 16, cut down to a `char`; `None` is `invalid_argument`. */
  function Stoul(s: string): Option<byte>
    requires |s| <= 2
  {
    if s == "" then None
    else if IsSpace(s[0]) then Stoul(s[1..])
    else if s[0] == '+' then Number(s[1..])
    else if s[0] == '-' then
      match Number(s[1..])
      case None => None
      case Some(n) => Some((0x100 - n) % 0x100)
    else Number(s)
  }

  /** Two characters after two characters; the last part may be one. */
  function Pairs(s: string): Option<seq<byte>> {
    if s == "" then Some([]) else
      var n := if |s| == 1 then 1 else 2;
      match Stoul(s[..n])
      case None => None
      case Some(b) =>
        match Pairs(s[n..])
        case None => None
        case Some(rest) => Some([b] + rest)
  }

  /** `convertASCII`; `None` is an exception. */
  function Ascii(hex: string): Option<seq<byte>> {
    Pairs(EraseAll(hex[if |hex| < 2 then |hex| else 2..]))
  }

  method ConvertAscii(text: string) returns (r: Option<seq<byte>>)
    ensures r == Ascii(text)
  {
    var hex := text[if |text| < 2 then |text| else 2..];
    ghost var goal := EraseAll(hex);
    var p := FindFrom(hex, SEPARATOR, 0);
    while p != -1
      invariant p == FindFrom(hex, SEPARATOR, 0) && EraseAll(hex) == goal
      decreases |hex|
    {
      hex := EraseAt(hex, p);
      p := FindFrom(hex, SEPARATOR, 0);
    }
    var ascii: seq<byte>, i := [], 0;
    assert From(hex, 0) == hex;
    NothingPrefixed(Pairs(hex));
    while i < |hex|
      invariant 0 <= i && Prefixed(ascii, Pairs(From(hex, i))) == Pairs(hex)
      decreases |hex| - i
    {
      var n := if |hex| - i == 1 then 1 else 2;
      assert hex[i..][..n] == hex[i..i + n] && hex[i..][n..] == From(hex, i + 2);
      var ch := Stoul(hex[i..i + n]);
      if ch.None? { return None; }
      PairsStep(hex[i..], n, ch.value, ascii);
      ascii := ascii + [ch.value];
      i := i + 2;
    }
    assert ascii + [] == ascii;
    return Some(ascii);
  }

  lemma NothingPrefixed(r: Option<seq<byte>>)
    ensures Prefixed([], r) == r
  {
    if r.Some? { assert [] + r.value == r.value; }
  }

  ghost function From(s: string, i: nat): string {
    if i <= |s| then s[i..] else ""
  }

  lemma PairsStep(s: string, n: nat, b: byte, front: seq<byte>)
    requires s != "" && n == (if |s| == 1 then 1 else 2) && Stoul(s[..n]) == Some(b)
    ensures Prefixed(front, Pairs(s)) == Prefixed(front + [b], Pairs(s[n..]))
  {
    var r := Pairs(s[n..]);
    if r.Some? { assert front + ([b] + r.value) == front + [b] + r.value; }
  }

  ghost function Prefixed(front: seq<byte>, r: Option<seq<byte>>): Option<seq<byte>> {
    match r
    case None => None
    case Some(rest) => Some(front + rest)
  }

  // ---- There and back ----

  function BytesOf(words: seq<word>, i: nat): seq<byte>
    requires i <= |words|
    decreases |words| - i
  {
    if i == |words| then [] else [words[i] / 0x100, words[i] % 0x100] + BytesOf(words, i + 1)
  }

  lemma DigitBack(n: nat)
    requires n < 16
    ensures DigitValue(Digit(n)) == n && !IsSpace(Digit(n)) && Digit(n) != '+' && Digit(n) != '-'
  {
  }

  /** A digit as a capital or a small letter. */
  ghost predicate IsDigitOf(c: char, n: nat) {
    n < 16 && (c == "0123456789ABCDEF"[n] || c == "0123456789abcdef"[n])
  }

  lemma DigitEitherCase(c: char, n: nat)
    requires IsDigitOf(c, n)
    ensures DigitValue(c) == n && !IsSpace(c) && c != '+' && c != '-'
  {
    match n
    case 0 => case 1 => case 2 => case 3 => case 4 => case 5 => case 6 => case 7 =>
    case 8 => case 9 => case 10 => case 11 => case 12 => case 13 => case 14 => case 15 =>
  }

  ghost predicate IsHex(c: char) {
    '0' <= c <= '9' || 'A' <= c <= 'F' || 'a' <= c <= 'f'
  }

  lemma DigitOf(c: char)
    ensures IsHex(c) <==> DigitValue(c) >= 0
    ensures IsHex(c) ==> IsDigitOf(c, DigitValue(c))
  {
    if '0' <= c <= '9' { DigitOfTable(DigitValue(c)); }
    if 'A' <= c <= 'F' { DigitOfTable(DigitValue(c)); }
    if 'a' <= c <= 'f' { SmallOfTable(c, DigitValue(c)); }
  }

  lemma SmallOfTable(c: char, n: nat)
    requires 10 <= n < 16 && c as int == 'a' as int + (n - 10)
    ensures c == "0123456789abcdef"[n]
  {
    match n
    case 10 => case 11 => case 12 => case 13 => case 14 => case 15 =>
  }

  /** A blank, or one of the five control characters from tab to carriage return. */
  ghost predicate IsWhite(c: char) {
    c == ' ' || c == '\t' || c == '\n' || c as int == 11 || c as int == 12 || c == '\r'
  }

  /** One character is its digit, or nothing. */
  lemma OneCharacter(c: char, a: nat)
    ensures IsDigitOf(c, a) ==> Stoul([c]) == Some(a)
    ensures !IsHex(c) ==> Stoul([c]) == None
  {
    DigitOf(c);
    if IsDigitOf(c, a) { DigitEitherCase(c, a); }
    assert [c][1..] == "";
  }

  /** Of two characters that are not two digits, the first may be a digit alone, or blank, or a sign. */
  lemma TwoCharacters(c: char, d: char, a: nat)
    ensures IsDigitOf(c, a) && !IsHex(d) ==> Stoul([c, d]) == Some(a)
    ensures (IsWhite(c) || c == '+') && IsDigitOf(d, a) ==> Stoul([c, d]) == Some(a)
    ensures c == '-' && IsDigitOf(d, a) ==> Stoul([c, d]) == Some(if a == 0 then 0 else 256 - a)
    ensures (IsWhite(c) || c == '+' || c == '-') && !IsHex(d) ==> Stoul([c, d]) == None
    ensures !IsHex(c) && !IsWhite(c) && c != '+' && c != '-' ==> Stoul([c, d]) == None
  {
    assert [c, d][1..] == [d];
    DigitOf(c);
    DigitOf(d);
    OneCharacter(d, a);
    if IsDigitOf(c, a) { DigitEitherCase(c, a); }
    if IsDigitOf(d, a) { DigitEitherCase(d, a); }
  }

  /** The `i`th part of a text cut into pairs; the last may be one character. */
  function PairAt(s: string, i: nat): string
    requires 2 * i < |s|
  {
    if 2 * i + 1 < |s| then s[2 * i..2 * i + 2] else s[2 * i..]
  }

  /** Every part is a number, and these are the bytes. */
  ghost predicate PairsAre(s: string, v: seq<byte>) {
    |v| == (|s| + 1) / 2 && forall i :: 0 <= i < |v| ==> Stoul(PairAt(s, i)) == Some(v[i])
  }

  ghost predicate PairFails(s: string, i: nat) {
    2 * i < |s| && Stoul(PairAt(s, i)) == None
  }

  lemma PairAfter(s: string, i: nat)
    requires |s| > 2 && 2 * i < |s[2..]|
    ensures PairAt(s, i + 1) == PairAt(s[2..], i)
  {
  }

  lemma PairsAfter(s: string, b: byte, v: seq<byte>)
    requires |s| > 2 && Stoul(PairAt(s, 0)) == Some(b) && PairsAre(s[2..], v)
    ensures PairsAre(s, [b] + v)
  {
    forall i | 0 < i < |v| + 1 ensures Stoul(PairAt(s, i)) == Some(([b] + v)[i]) {
      PairAfter(s, i - 1);
    }
  }

  /** All parts are numbers, and these are the bytes in order; or one is not, and that is an exception. */
  lemma {:induction false} PairsExactly(s: string)
    ensures Pairs(s).Some? ==> PairsAre(s, Pairs(s).value)
    ensures Pairs(s).None? ==> exists i: nat :: PairFails(s, i)
    decreases |s|
  {
    if |s| > 2 {
      assert PairAt(s, 0) == s[..2];
      PairsExactly(s[2..]);
      if Pairs(s).Some? {
        PairsAfter(s, Stoul(s[..2]).value, Pairs(s[2..]).value);
      } else if Stoul(s[..2]).None? {
        assert PairFails(s, 0);
      } else {
        var i: nat :| PairFails(s[2..], i);
        PairAfter(s, i);
        assert PairFails(s, i + 1);
      }
    } else if s != "" {
      OnlyPair(s);
      assert Stoul(s) == None ==> PairFails(s, 0);
    }
  }

  lemma OnlyPair(s: string)
    requires 0 < |s| <= 2
    ensures PairAt(s, 0) == s
    ensures Stoul(s) == None ==> Pairs(s) == None
    ensures Stoul(s).Some? ==> Pairs(s) == Some([Stoul(s).value])
  {
    assert Pairs("") == Some([]);
    if |s| == 1 { assert s[..1] == s && s[1..] == ""; } else { assert s[..2] == s && s[2..] == ""; }
    if Stoul(s).Some? { assert [Stoul(s).value] + [] == [Stoul(s).value]; }
  }

  /** Two digits of either case are one byte. */
  lemma TwoDigits(c: char, d: char, a: nat, b: nat)
    requires IsDigitOf(c, a) && IsDigitOf(d, b)
    ensures Stoul([c, d]) == Some(16 * a + b) && Ascii("0x" + [c, d]) == Some([16 * a + b])
  {
    DigitEitherCase(c, a);
    DigitEitherCase(d, b);
    var t: string := [c, d];
    assert ("0x" + t)[2..] == t;
    EraseNone(t);
    assert t[..2] == t && t[2..] == "";
    assert Pairs("") == Some([]) && [16 * a + b] + [] == [16 * a + b];
  }

  lemma ByteBack(b: byte)
    ensures Stoul(Digits(b)) == Some(b) && NoBlank(Digits(b))
  {
    DigitBack(b / 16);
    DigitBack(b % 16);
  }

  lemma WordBack(w: word)
    ensures NoBlank(WordDigits(w))
  {
    ByteBack(w / 0x100);
    ByteBack(w % 0x100);
  }

  lemma PairOff(x: string, b: byte, s: string)
    requires |x| == 2 && Stoul(x) == Some(b)
    ensures Pairs(x + s) == Prefixed([b], Pairs(s))
  {
    var t := x + s;
    assert t[..2] == x && t[2..] == s;
  }

  /** Four characters that stand for two bytes. */
  ghost predicate Reads(part: string, a: byte, b: byte) {
    |part| == 4 && Stoul(part[..2]) == Some(a) && Stoul(part[2..]) == Some(b)
  }

  ghost predicate ReadsWord(part: string, w: word) {
    Reads(part, w / 0x100, w % 0x100)
  }

  lemma PairsOff(part: string, a: byte, b: byte, s: string, bytes: seq<byte>)
    requires Reads(part, a, b) && Pairs(s) == Some(bytes)
    ensures Pairs(part + s) == Some([a, b] + bytes)
  {
    Rejoin(part, s);
    PairsOfParts(part[..2], part[2..], a, b, s, bytes);
  }

  lemma Rejoin(part: string, s: string)
    requires |part| >= 2
    ensures part + s == part[..2] + (part[2..] + s)
  {
  }

  lemma PairsOfParts(x: string, y: string, a: byte, b: byte, s: string, bytes: seq<byte>)
    requires |x| == |y| == 2 && Stoul(x) == Some(a) && Stoul(y) == Some(b) && Pairs(s) == Some(bytes)
    ensures Pairs(x + (y + s)) == Some([a, b] + bytes)
  {
    PairOff(y, b, s);
    PairOff(x, a, y + s);
    assert [a] + ([b] + bytes) == [a, b] + bytes;
  }

  lemma WordOff(part: string, w: word, s: string, bytes: seq<byte>)
    requires ReadsWord(part, w) && Pairs(s) == Some(bytes)
    ensures Pairs(part + s) == Some([w / 0x100, w % 0x100] + bytes)
  {
    PairsOff(part, w / 0x100, w % 0x100, s, bytes);
  }

  lemma WordReads(w: word)
    ensures ReadsWord(WordDigits(w), w)
  {
    ByteBack(w / 0x100);
    ByteBack(w % 0x100);
    assert WordDigits(w)[..2] == Digits(w / 0x100) && WordDigits(w)[2..] == Digits(w % 0x100);
  }

  ghost predicate AllRead(words: seq<word>, parts: seq<string>) {
    |words| == |parts| && forall j :: 0 <= j < |words| ==> ReadsWord(parts[j], words[j])
  }

  lemma {:induction false} PairsBack(words: seq<word>, parts: seq<string>, i: nat)
    requires i <= |words| && AllRead(words, parts)
    ensures Pairs(Joined(parts, i)) == Some(BytesOf(words, i))
    decreases |words| - i
  {
    if i < |words| {
      PairsBack(words, parts, i + 1);
      OneMoreBack(words, parts, i);
    }
  }

  lemma OneMoreBack(words: seq<word>, parts: seq<string>, i: nat)
    requires i < |words| && AllRead(words, parts)
    requires Pairs(Joined(parts, i + 1)) == Some(BytesOf(words, i + 1))
    ensures Pairs(Joined(parts, i)) == Some(BytesOf(words, i))
  {
    WordOff(parts[i], words[i], Joined(parts, i + 1), BytesOf(words, i + 1));
  }

  /** The text of the words stands for their bytes, high before low. */
  lemma HexRoundTrip(words: seq<word>)
    ensures Ascii(Hex(words, 0)) == Some(BytesOf(words, 0))
  {
    if words == [] {
      NoSeparator("");
    } else {
      var parts := Parts(words);
      forall j | 0 <= j < |parts| ensures NoBlank(parts[j]) && ReadsWord(parts[j], words[j]) {
        WordBack(words[j]);
        WordReads(words[j]);
      }
      HexIsTail(words, parts, 0);
      WithoutPrefix(parts[0], Tail(parts, 1));
      EraseTail(parts[0], parts, 1, EraseAll(parts[0] + Tail(parts, 1)));
      PairsBack(words, parts, 0);
    }
  }

  lemma WithoutPrefix(d: string, rest: string)
    ensures Ascii("0x" + d + rest) == Pairs(EraseAll(d + rest))
  {
    assert ("0x" + d + rest)[2..] == d + rest;
  }
}
