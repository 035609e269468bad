/**
  Replacing the first occurrence of a word by a value, again and again: when that comes to an end, and when it does not.
 */
module Rewriting {
  import opened StringSearch

  predicate Contains(s: string, word: string) {
    FindFrom(s, word, 0) != -1
  }

  function Replace(s: string, word: string, value: string, p: nat): string
    requires OccursAt(s, word, p)
  {
    s[..p] + value + s[p + |word|..]
  }

  /** One turn of the loop; a string without the word stays. */
  function Turn(s: string, word: string, value: string): string {
    var p := FindFrom(s, word, 0);
    if p == -1 then s else Replace(s, word, value, p)
  }

  function Iterate(f: string -> string, s: string, n: nat): string
    decreases n
  {
    if n == 0 then s else Iterate(f, f(s), n - 1)
  }

  /** The string after `n` turns. */
  function Turns(s: string, word: string, value: string, n: nat): string {
    Iterate(Turning(word, value), s, n)
  }

  function Turning(word: string, value: string): string -> string {
    s => Turn(s, word, value)
  }

  /** Some number of turns leaves no word. */
  ghost predicate Stops(s: string, word: string, value: string) {
    exists n: nat :: StopsAt(s, word, value, n)
  }

  predicate StopsAt(s: string, word: string, value: string, n: nat) {
    !Contains(Turns(s, word, value, n), word)
  }

  // ---- Values that come to an end ----

  /** The value begins with the last `n` characters of the word, or ends with its first `n`. */
  predicate BeginsAt(value: string, word: string, n: int) {
    0 < n < |word| && n <= |value| && value[..n] == word[|word| - n..]
  }

  predicate EndsAt(value: string, word: string, n: int) {
    0 < n < |word| && n <= |value| && value[|value| - n..] == word[..n]
  }

  ghost predicate Begins(value: string, word: string) {
    exists n :: BeginsAt(value, word, n)
  }

  ghost predicate Ends(value: string, word: string) {
    exists n :: EndsAt(value, word, n)
  }

  /** The value does not hold the word, and cannot be part of a new one on both of its sides. */
  ghost predicate Tame(value: string, word: string) {
    !Contains(value, word) && !(Begins(value, word) && Ends(value, word))
  }

  // ---- Occurrences in a string put together ----

  lemma OccursChars(s: string, word: string, q: int, i: int)
    requires OccursAt(s, word, q) && 0 <= i < |word|
    ensures s[q + i] == word[i]
  {
    assert s[q..q + |word|][i] == word[i];
  }

  /** The front alone decides what occurs in it. */
  lemma OccursInFront(front: string, rest: string, rest': string, word: string, q: int)
    requires q + |word| <= |front|
    ensures OccursAt(front + rest, word, q) <==> OccursAt(front + rest', word, q)
  {
    if 0 <= q {
      assert (front + rest)[q..q + |word|] == front[q..q + |word|] == (front + rest')[q..q + |word|];
    }
  }

  lemma OccursBehind(front: string, rest: string, word: string, p: int)
    requires p >= |front|
    ensures OccursAt(front + rest, word, p) <==> OccursAt(rest, word, p - |front|)
  {
    if p + |word| <= |front + rest| {
      assert (front + rest)[p..p + |word|] == rest[p - |front|..p - |front| + |word|];
    }
  }

  /** An occurrence that ends inside the value begins in front of it, or is all in the value. */
  lemma EndsInValue(front: string, value: string, back: string, word: string, q: int)
    requires OccursAt(front + (value + back), word, q) && |front| < q + |word| <= |front| + |value|
    ensures Contains(value, word) || Begins(value, word)
  {
    var s, n := front + (value + back), q + |word| - |front|;
    if q >= |front| {
      OccursBehind(front, value + back, word, q);
      OccursInFront(value, back, "", word, q - |front|);
      assert value + "" == value;
      assert OccursAt(value, word, q - |front|);
    } else {
      forall i | 0 <= i < n ensures value[i] == word[|word| - n + i] { OccursChars(s, word, q, |word| - n + i); }
      assert value[..n] == word[|word| - n..];
      assert BeginsAt(value, word, n);
    }
  }

  /** One that begins inside the value ends behind it, or is all in the value. */
  lemma StartsInValue(front: string, value: string, back: string, word: string, q: int)
    requires OccursAt(front + (value + back), word, q) && |front| <= q < |front| + |value|
    ensures Contains(value, word) || Ends(value, word)
  {
    var p, n := q - |front|, |front| + |value| - q;
    OccursBehind(front, value + back, word, q);
    if n >= |word| {
      OccursInFront(value, back, "", word, p);
      assert value + "" == value;
      assert OccursAt(value, word, p);
    } else {
      forall i | 0 <= i < n ensures value[p + i] == word[i] { OccursChars(value + back, word, p, i); }
      assert value[|value| - n..] == word[..n];
      assert EndsAt(value, word, n);
    }
  }

  // ---- What falls with every turn ----

  /** How many occurrences start at `from` or later. */
  ghost function Occurrences(s: string, word: string, from: nat): nat
    decreases |s| - from
  {
    if from >= |s| then 0 else Occurrences(s, word, from + 1) + if OccursAt(s, word, from) then 1 else 0
  }

  lemma {:induction false} FewerLater(s: string, word: string, from: nat, later: nat)
    requires from <= later
    ensures Occurrences(s, word, later) <= Occurrences(s, word, from)
    decreases |s| - from
  {
    if from < later && from < |s| { FewerLater(s, word, from + 1, later); }
  }

  /** Behind a common back the counts agree. */
  lemma {:induction false} SameBehind(front: string, front': string, back: string, word: string, j: nat)
    ensures Occurrences(front + back, word, |front| + j) == Occurrences(front' + back, word, |front'| + j)
    decreases |back| - j
  {
    if j < |back| {
      OccursBehind(front, back, word, |front| + j);
      OccursBehind(front', back, word, |front'| + j);
      SameBehind(front, front', back, word, j + 1);
    }
  }

  /** Where nothing starts there is nothing to count. */
  lemma {:induction false} NoneBetween(s: string, word: string, from: nat, to: nat)
    requires from <= to <= |s| && forall q :: from <= q < to ==> !OccursAt(s, word, q)
    ensures Occurrences(s, word, from) == Occurrences(s, word, to)
    decreases |s| - from
  {
    if from < to { NoneBetween(s, word, from + 1, to); }
  }

  /** Two numbers for a string whose first occurrence is at `p`; zeros when there is none. */
  ghost function Rank1(s: string, word: string, value: string): nat {
    var p := FindFrom(s, word, 0);
    if |value| < |word| then |s|
    else if p == -1 then 0
    else if !Begins(value, word) then 1 + |s| - (p + |word|)
    else 1 + Occurrences(s, word, p + |word|)
  }

  ghost function Rank2(s: string, word: string): nat {
    var p := FindFrom(s, word, 0);
    if p == -1 then 0 else p
  }

  ghost predicate Falls(s: string, s': string, word: string, value: string) {
    || Rank1(s', word, value) < Rank1(s, word, value)
    || (Rank1(s', word, value) == Rank1(s, word, value) && Rank2(s', word) < Rank2(s, word))
  }

  ghost predicate FirstAt(s: string, word: string, p: int) {
    OccursAt(s, word, p) && forall q :: 0 <= q < p ==> !OccursAt(s, word, q)
  }

  /** A value that does not begin with a suffix of the word: the next occurrence reaches into the back. */
  lemma NextReachesBack(front: string, word: string, value: string, back: string, q: int)
    requires !Contains(value, word) && !Begins(value, word) && word != ""
    requires FirstAt(front + (word + back), word, |front|) && OccursAt(front + (value + back), word, q)
    ensures q + |word| > |front| + |value|
  {
    if q + |word| <= |front| {
      OccursInFront(front, value + back, word + back, word, q);
    } else if q + |word| <= |front| + |value| {
      EndsInValue(front, value, back, word, q);
    }
  }

  lemma FirstIsFound(s: string, word: string, p: int)
    requires FirstAt(s, word, p)
    ensures FindFrom(s, word, 0) == p
  {
  }

  lemma FallsByTail(front: string, word: string, value: string, back: string)
    requires !Contains(value, word) && !Begins(value, word) && word != "" && |value| >= |word|
    requires FirstAt(front + (word + back), word, |front|)
    ensures Falls(front + (word + back), front + (value + back), word, value)
  {
    var s, s' := front + (word + back), front + (value + back);
    FirstIsFound(s, word, |front|);
    var q := FindFrom(s', word, 0);
    if q != -1 { NextReachesBack(front, word, value, back, q); }
  }

  /** A value that does not end with a prefix of the word: nothing starts in it. */
  lemma NoneStartsInValue(front: string, value: string, back: string, word: string)
    requires !Contains(value, word) && !Ends(value, word)
    ensures forall q :: |front| <= q < |front| + |value| ==> !OccursAt(front + (value + back), word, q)
  {
    var s := front + (value + back);
    forall q | |front| <= q < |front| + |value| ensures !OccursAt(s, word, q) {
      if OccursAt(s, word, q) { StartsInValue(front, value, back, word, q); }
    }
  }

  /** So behind any place in it there is what there was behind the word. */
  lemma SameCount(front: string, word: string, value: string, back: string, j: nat, k: nat)
    requires !Contains(value, word) && !Ends(value, word) && |front| <= j <= |front| + |value| && k == |front| + |word|
    ensures Occurrences(front + (value + back), word, j) == Occurrences(front + (word + back), word, k)
  {
    var s', m := front + (value + back), |front| + |value|;
    NoneStartsInValue(front, value, back, word);
    NoneBetween(s', word, j, m);
    assert s' == (front + value) + back && front + (word + back) == (front + word) + back;
    SameBehind(front + value, front + word, back, word, 0);
  }

  /** An occurrence counts, and those that start behind it are fewer. */
  lemma FewerBehind(s: string, word: string, m: nat, q: nat)
    requires word != "" && OccursAt(s, word, q) && m <= q
    ensures Occurrences(s, word, q + |word|) < Occurrences(s, word, m)
  {
    FewerLater(s, word, m, q);
    FewerLater(s, word, q + 1, q + |word|);
  }

  lemma CountRank(s: string, word: string, value: string, p: nat, e: nat, n: nat)
    requires Begins(value, word) && |value| >= |word| && p == FindFrom(s, word, 0)
    requires e == p + |word| && n == Occurrences(s, word, e)
    ensures Rank1(s, word, value) == 1 + n && Rank2(s, word) == p
  {
  }

  lemma FallsByCount(front: string, word: string, value: string, back: string)
    requires !Contains(value, word) && Begins(value, word) && !Ends(value, word) && word != "" && |value| >= |word|
    requires FirstAt(front + (word + back), word, |front|)
    ensures Falls(front + (word + back), front + (value + back), word, value)
  {
    var s, s', p := front + (word + back), front + (value + back), |front|;
    var q := FindFrom(s', word, 0);
    FirstIsFound(s, word, p);
    if q != -1 {
      NextFalls(front, word, value, back, q, Occurrences(s', word, q + |word|), Occurrences(s, word, p + |word|));
    }
    RanksFall(s, s', word, value, p, q);
  }

  /** The two numbers of two strings, from where the word is found in them. */
  lemma RanksFall(s: string, s': string, word: string, value: string, p: nat, q: int)
    requires Begins(value, word) && |value| >= |word| && p == FindFrom(s, word, 0) && q == FindFrom(s', word, 0)
    requires q != -1 ==>
      var m, n := Occurrences(s', word, q + |word|), Occurrences(s, word, p + |word|);
      m < n || (m == n && q < p)
    ensures Falls(s, s', word, value)
  {
    CountRank(s, word, value, p, p + |word|, Occurrences(s, word, p + |word|));
    if q != -1 { CountRank(s', word, value, q, q + |word|, Occurrences(s', word, q + |word|)); }
  }

  /** A next occurrence behind the value has fewer occurrences behind it. */
  lemma NextBehind(front: string, word: string, value: string, back: string, q: nat, m: nat, n: nat)
    requires !Contains(value, word) && !Ends(value, word) && word != "" && q >= |front| + |value|
    requires OccursAt(front + (value + back), word, q)
    requires m == Occurrences(front + (value + back), word, q + |word|)
    requires n == Occurrences(front + (word + back), word, |front| + |word|)
    ensures m < n
  {
    var v := |front| + |value|;
    SameCount(front, word, value, back, v, |front| + |word|);
    FewerBehind(front + (value + back), word, v, q);
  }

  /** One in front of it ends in the value, and has as many behind it as the word had. */
  lemma NextInFront(front: string, word: string, value: string, back: string, q: nat, e: nat)
    requires !Contains(value, word) && !Ends(value, word) && |value| >= |word| && q < |front| && e == q + |word|
    requires FirstAt(front + (word + back), word, |front|) && OccursAt(front + (value + back), word, q)
    ensures |front| < e <= |front| + |value|
    ensures Occurrences(front + (value + back), word, e) == Occurrences(front + (word + back), word, |front| + |word|)
  {
    if e <= |front| {
      OccursInFront(front, value + back, word + back, word, q);
    } else {
      SameCount(front, word, value, back, e, |front| + |word|);
    }
  }

  /** Either fewer occurrences are behind the next one, or it lies further to the front. */
  lemma NextFalls(front: string, word: string, value: string, back: string, q: nat, m: nat, n: nat)
    requires !Contains(value, word) && !Ends(value, word) && word != "" && |value| >= |word|
    requires FirstAt(front + (word + back), word, |front|) && OccursAt(front + (value + back), word, q)
    requires m == Occurrences(front + (value + back), word, q + |word|)
    requires n == Occurrences(front + (word + back), word, |front| + |word|)
    ensures m < n || (m == n && q < |front|)
  {
    if q < |front| {
      NextInFront(front, word, value, back, q, q + |word|);
    } else {
      NoneStartsInValue(front, value, back, word);
      NextBehind(front, word, value, back, q, m, n);
    }
  }

  /** Every turn with a tame value lowers the two numbers. */
  lemma TurnFalls(s: string, word: string, value: string, p: nat)
    requires word != "" && p == FindFrom(s, word, 0) && Tame(value, word)
    ensures Falls(s, Replace(s, word, value, p), word, value)
  {
    if |value| >= |word| {
      var front, back := s[..p], s[p + |word|..];
      CutOut(s, word, value, p, front, back);
      if Begins(value, word) { FallsByCount(front, word, value, back); } else { FallsByTail(front, word, value, back); }
    }
  }

  lemma CutOut(s: string, word: string, value: string, p: nat, front: string, back: string)
    requires OccursAt(s, word, p) && front == s[..p] && back == s[p + |word|..]
    ensures s == front + (word + back) && Replace(s, word, value, p) == front + (value + back)
  {
  }

  /** All turns, for a value with which they come to an end. */
  function Rewrite(s: string, word: string, value: string): (r: string)
    requires word != "" && Tame(value, word)
    ensures !Contains(r, word)
    decreases Rank1(s, word, value), Rank2(s, word)
  {
    var p := FindFrom(s, word, 0);
    if p == -1 then s else
      TurnFalls(s, word, value, p);
      Rewrite(Replace(s, word, value, p), word, value)
  }

  lemma OneTurnMore(s: string, t: string, word: string, value: string, n: nat)
    requires t == Turn(s, word, value)
    ensures Turns(s, word, value, n + 1) == Turns(t, word, value, n)
  {
    assert Turning(word, value)(s) == t;
  }

  /** It is some number of turns. */
  lemma {:induction false} RewriteIsTurns(s: string, word: string, value: string) returns (n: nat)
    requires word != "" && Tame(value, word)
    ensures Rewrite(s, word, value) == Turns(s, word, value, n)
    decreases Rank1(s, word, value), Rank2(s, word)
  {
    var p := FindFrom(s, word, 0);
    if p == -1 {
      n := 0;
    } else {
      var t := Replace(s, word, value, p);
      TurnFalls(s, word, value, p);
      var m := RewriteIsTurns(t, word, value);
      n := m + 1;
      OneTurnMore(s, t, word, value, m);
    }
  }

  /** With a tame value the turns come to an end on every string. */
  lemma TameEnds(s: string, word: string, value: string) returns (n: nat)
    requires word != "" && Tame(value, word)
    ensures !Contains(Turns(s, word, value, n), word)
  {
    n := RewriteIsTurns(s, word, value);
  }

  // ---- Values that do not ----

  lemma OccursInMiddle(front: string, value: string, back: string, word: string, q: nat)
    requires OccursAt(value, word, q)
    ensures OccursAt(front + value + back, word, |front| + q)
  {
    OccursInFront(value, "", back, word, q);
    assert value + "" == value && front + value + back == front + (value + back);
    OccursBehind(front, value + back, word, |front| + q);
  }

  lemma TurnKeepsWord(s: string, word: string, value: string)
    requires Contains(s, word) && Contains(value, word)
    ensures Contains(Turn(s, word, value), word)
  {
    var p := FindFrom(s, word, 0);
    OccursInMiddle(s[..p], value, s[p + |word|..], word, FindFrom(value, word, 0));
  }

  ghost predicate Keeps(f: string -> string, keep: string -> bool) {
    forall t {:trigger f(t)} :: keep(t) ==> keep(f(t))
  }

  lemma {:induction false} IterateKeeps(f: string -> string, keep: string -> bool, s: string, n: nat)
    requires keep(s) && Keeps(f, keep)
    ensures keep(Iterate(f, s, n))
    decreases n
  {
    if n > 0 { IterateKeeps(f, keep, f(s), n - 1); }
  }

  /** A value that holds the word keeps it in the string for ever, once it is there. */
  lemma SelfReferenceNeverEnds(s: string, word: string, value: string, n: nat)
    requires Contains(s, word) && Contains(value, word)
    ensures Contains(Turns(s, word, value, n), word)
  {
    var f, keep := Turning(word, value), Containing(word);
    assert Keeps(f, keep) by {
      forall t | keep(t) ensures keep(f(t)) { TurnKeepsWord(t, word, value); }
    }
    IterateKeeps(f, keep, s, n);
  }

  function Containing(word: string): string -> bool {
    s => Contains(s, word)
  }

  // ---- A value that goes on for ever without holding the word ----

  function Times(x: string, n: nat): string {
    if n == 0 then "" else x + Times(x, n - 1)
  }

  const WORD := "[k]"
  const VALUE := "k]k][["

  /** The string at every other turn, and in between. */
  function Even(a: nat, b: nat): string {
    Times("k]", a) + (WORD + ("k]" + Times("[", b)))
  }

  function Odd(a: nat, b: nat): string {
    (Times("k]", a) + "[") + (WORD + Times("[", b))
  }

  ghost predicate Growing(s: string) {
    exists a: nat, b: nat :: s == Even(a, b) || s == Odd(a, b)
  }

  lemma {:induction false} NoOpening(n: nat)
    ensures '[' !in Times("k]", n)
  {
    if n > 0 { NoOpening(n - 1); }
  }

  lemma {:induction false} TimesCommutes(x: string, n: nat)
    ensures Times(x, n) + x == x + Times(x, n)
  {
    if n > 0 {
      TimesCommutes(x, n - 1);
      assert x + Times(x, n - 1) + x == x + (Times(x, n - 1) + x);
    }
  }

  /** A turn on a string whose front starts no word. */
  lemma TurnAt(front: string, word: string, value: string, back: string)
    requires forall q :: 0 <= q < |front| ==> !OccursAt(front + (word + back), word, q)
    ensures Contains(front + (word + back), word)
    ensures Turn(front + (word + back), word, value) == front + (value + back)
  {
    var s := front + (word + back);
    assert s[|front|..|front| + |word|] == word;
    assert FirstAt(s, word, |front|);
    assert s[..|front|] == front && s[|front| + |word|..] == back;
  }

  lemma NoStart(s: string, word: string, q: int, i: nat)
    requires i < |word| && 0 <= q && q + i < |s| && s[q + i] != word[i]
    ensures !OccursAt(s, word, q)
  {
    if q + |word| <= |s| { assert s[q..q + |word|][i] == s[q + i]; }
  }

  lemma EvenShape(front: string, k: string, o: string, t: string)
    ensures front + ((k + k + o + o) + (k + t)) == (front + k + k + o) + ((o + k) + t)
  {
  }

  lemma EvenTurn(a: nat, b: nat)
    ensures Contains(Even(a, b), WORD) && Turn(Even(a, b), WORD, VALUE) == Odd(a + 2, b)
  {
    var front, t := Times("k]", a), Times("[", b);
    var s := front + (WORD + ("k]" + t));
    NoOpening(a);
    forall q | 0 <= q < |front| ensures !OccursAt(s, WORD, q) {
      assert s[q] == front[q];
      NoStart(s, WORD, q, 0);
    }
    TurnAt(front, WORD, VALUE, "k]" + t);
    TwoMore("k]", a);
    EvenShape(front, "k]", "[", t);
    assert "k]" + "k]" + "[" + "[" == VALUE && "[" + "k]" == WORD;
  }

  lemma TwoMore(x: string, n: nat)
    ensures Times(x, n + 2) == Times(x, n) + x + x
  {
    TimesCommutes(x, n);
    TimesCommutes(x, n + 1);
    assert Times(x, n + 1) == Times(x, n) + x;
  }

  lemma OddShape(front: string, k: string, o: string, t: string)
    ensures (front + o) + ((k + k + o + o) + t) == front + ((o + k) + (k + (o + (o + t))))
  {
  }

  lemma OddTurn(a: nat, b: nat)
    ensures Contains(Odd(a, b), WORD) && Turn(Odd(a, b), WORD, VALUE) == Even(a, b + 2)
  {
    var front, t := Times("k]", a), Times("[", b);
    var s := (front + "[") + (WORD + t);
    NoOpening(a);
    forall q | 0 <= q < |front + "["| ensures !OccursAt(s, WORD, q) {
      if q < |front| {
        assert s[q] == front[q];
        NoStart(s, WORD, q, 0);
      } else {
        assert s[q + 1] == WORD[0];
        NoStart(s, WORD, q, 1);
      }
    }
    TurnAt(front + "[", WORD, VALUE, t);
    OddShape(front, "k]", "[", t);
    assert Times("[", b + 2) == "[" + ("[" + t);
    assert "k]" + "k]" + "[" + "[" == VALUE && "[" + "k]" == WORD;
  }

  lemma GrowingTurns(s: string)
    requires Growing(s)
    ensures Contains(s, WORD) && Growing(Turn(s, WORD, VALUE))
  {
    var a: nat, b: nat :| s == Even(a, b) || s == Odd(a, b);
    if s == Even(a, b) {
      EvenTurn(a, b);
      assert Turn(s, WORD, VALUE) == Odd(a + 2, b);
    } else {
      OddTurn(a, b);
      assert Turn(s, WORD, VALUE) == Even(a, b + 2);
    }
  }

  lemma StartGrows()
    ensures Growing("[k]k]") && !Contains(VALUE, WORD)
  {
    assert Times("k]", 0) == "" && Times("[", 0) == "";
    assert Even(0, 0) == "[k]k]";
    forall q | 0 <= q <= 3 ensures !OccursAt(VALUE, WORD, q) { NoStart(VALUE, WORD, q, 0); }
  }

  /** `k]k][[` for the key `k`: it does not hold the hole, and on `[k]k]` every turn leaves another one. */
  lemma GrowsForEver(n: nat)
    ensures !Contains(VALUE, WORD) && Contains(Turns("[k]k]", WORD, VALUE, n), WORD)
  {
    var f := Turning(WORD, VALUE);
    StartGrows();
    assert Keeps(f, Growing) by {
      forall t | Growing(t) ensures Growing(f(t)) { GrowingTurns(t); }
    }
    IterateKeeps(f, Growing, "[k]k]", n);
    GrowingTurns(Turns("[k]k]", WORD, VALUE, n));
  }
}
