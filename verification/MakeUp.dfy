/**
  `ComUtil::StrMakeUp`: each parameter's `[key]` is searched for and replaced until none is left, one key after the
  other, in a string that changes under the search.
 */
module MakeUp {
  import opened StringSearch
  import opened Rewriting

  datatype Param = Param(key: string, value: string)

  // ---- Searching and replacing ----

  function Bracketed(key: string): (r: string)
    ensures |r| == |key| + 2
  {
    "[" + key + "]"
  }

  /** The loop for this value comes to an end on every string. */
  ghost predicate Ending(p: Param) {
    Tame(p.value, Bracketed(p.key))
  }

  lemma Edges(value: string, word: string, n: int)
    ensures BeginsAt(value, word, n) ==> value[0] == word[|word| - n] && value[n - 1] == word[|word| - 1]
    ensures EndsAt(value, word, n) ==> value[|value| - n] == word[0]
  {
    if BeginsAt(value, word, n) {
      assert value[..n][0] == word[|word| - n..][0] && value[..n][n - 1] == word[|word| - n..][n - 1];
    }
    if EndsAt(value, word, n) { assert value[|value| - n..][0] == word[..n][0]; }
  }

  /** Values without `]`, or without `[`, are such ... */
  lemma OneKindOfBracketEnds(key: string, value: string)
    requires ']' !in value || '[' !in value
    ensures Ending(Param(key, value))
  {
    var word := Bracketed(key);
    assert word[0] == '[' && word[|word| - 1] == ']';
    if p :| OccursAt(value, word, p) {
      OccursChars(value, word, p, 0);
      OccursChars(value, word, p, |word| - 1);
    }
    forall n ensures BeginsAt(value, word, n) ==> ']' in value { Edges(value, word, n); }
    forall n ensures EndsAt(value, word, n) ==> '[' in value { Edges(value, word, n); }
  }

  /** ... and so is another key's hole. */
  lemma OtherHoleEnds(key: string, other: string)
    requires Plain(key) && Plain(other) && key != other
    ensures Ending(Param(key, Bracketed(other)))
  {
    var word, value := Bracketed(key), Bracketed(other);
    assert value + "" == value;
    if p :| OccursAt(value, word, p) {
      StartsWithHole(other, "", key, p);
      SameHole(other, "", key);
    }
    assert forall i :: 0 < i < |word| ==> word[i] != '[';
    forall n ensures !BeginsAt(value, word, n) { Edges(value, word, n); }
  }

  /** The keys from the `i`th on. */
  function MakeUpFrom(s: string, params: seq<Param>, i: nat): string
    requires i <= |params| && forall j :: 0 <= j < |params| ==> Ending(params[j])
    decreases |params| - i
  {
    if i == |params| then s else
      assert Ending(params[i]);
      MakeUpFrom(Rewrite(s, Bracketed(params[i].key), params[i].value), params, i + 1)
  }

  /** `StrMakeUp`, for values with which its loops come to an end. */
  method StrMakeUp(template: string, params: seq<Param>) returns (r: string)
    requires forall j :: 0 <= j < |params| ==> Ending(params[j])
    ensures r == MakeUpFrom(template, params, 0)
    ensures params != [] ==> !Contains(r, Bracketed(params[|params| - 1].key))
  {
    if template == "" {
      EmptyStays(params, 0);
      return "";
    }
    if |params| == 0 { return template; }
    r := template;
    for i := 0 to |params|
      invariant MakeUpFrom(r, params, i) == MakeUpFrom(template, params, 0)
      invariant i > 0 ==> !Contains(r, Bracketed(params[i - 1].key))
    {
      r := MakeUpKey(r, params[i].key, params[i].value);
    }
  }

  /** The inner loop. */
  method MakeUpKey(s: string, key: string, value: string) returns (r: string)
    requires Tame(value, Bracketed(key))
    ensures r == Rewrite(s, Bracketed(key), value)
  {
    r := s;
    var word := Bracketed(key);
    var p := FindFrom(r, word, 0);
    while p != -1
      invariant p == FindFrom(r, word, 0) && Rewrite(r, word, value) == Rewrite(s, word, value)
      decreases Rank1(r, word, value), Rank2(r, word)
    {
      TurnFalls(r, word, value, p);
      r := Replace(r, word, value, p);
      p := FindFrom(r, word, 0);
    }
  }

  lemma {:induction false} EmptyStays(params: seq<Param>, i: nat)
    requires i <= |params| && forall j :: 0 <= j < |params| ==> Ending(params[j])
    ensures MakeUpFrom("", params, i) == ""
    decreases |params| - i
  {
    if i < |params| { EmptyStays(params, i + 1); }
  }

  // ---- Templates ----

  /** Literal text and holes. */
  datatype Pieces = End | Text(text: string, rest: Pieces) | Hole(key: string, rest: Pieces)

  predicate Plain(key: string) {
    '[' !in key && ']' !in key
  }

  /** Every `]` closes a hole. */
  ghost predicate Proper(ps: Pieces) {
    match ps
    case End => true
    case Text(t, rest) => ']' !in t && Proper(rest)
    case Hole(k, rest) => Plain(k) && Proper(rest)
  }

  function Flat(ps: Pieces): (r: string)
    ensures ps == End ==> r == ""
  {
    match ps
    case End => ""
    case Text(t, rest) => t + Flat(rest)
    case Hole(k, rest) => Bracketed(k) + Flat(rest)
  }

  /** Where the first hole of this key starts, or -1. */
  function FirstHole(ps: Pieces, key: string): int {
    match ps
    case End => -1
    case Text(t, rest) => var p := FirstHole(rest, key); if p < 0 then -1 else |t| + p
    case Hole(k, rest) => if k == key then 0 else var p := FirstHole(rest, key); if p < 0 then -1 else |k| + 2 + p
  }

  lemma {:induction false} HoleOccurs(ps: Pieces, key: string)
    ensures var p := FirstHole(ps, key); p >= 0 ==> OccursAt(Flat(ps), Bracketed(key), p)
  {
    var p := FirstHole(ps, key);
    if p >= 0 {
      HoleOccurs(ps.rest, key);
      var front := if ps.Text? then ps.text else Bracketed(ps.key);
      if ps.Text? || ps.key != key { OccursBehind(front, Flat(ps.rest), Bracketed(key), p); }
    }
  }

  /** In a proper template a `]` has a `[` before it. */
  lemma {:induction false} CloseHasOpen(ps: Pieces, j: nat)
    requires Proper(ps) && j < |Flat(ps)| && Flat(ps)[j] == ']'
    ensures '[' in Flat(ps)[..j]
  {
    if ps.Text? {
      var n := |ps.text|;
      assert forall i :: 0 <= i < n ==> Flat(ps)[i] == ps.text[i] && ps.text[i] != ']';
      CloseHasOpen(ps.rest, j - n);
      assert Flat(ps)[..j] == ps.text + Flat(ps.rest)[..j - n];
    } else {
      assert Flat(ps)[0] == '[' && Flat(ps)[..j][0] == '[';
    }
  }

  /** An occurrence of `[key]` that starts in a piece of text would need a `]` without its own `[`. */
  lemma NotInText(t: string, rest: Pieces, key: string, q: nat)
    requires ']' !in t && Proper(rest) && Plain(key) && OccursAt(t + Flat(rest), Bracketed(key), q)
    ensures q >= |t|
  {
    var s, word, n, e := t + Flat(rest), Bracketed(key), |t|, q + |key| + 1;
    assert forall i :: 0 <= i < |word| ==> s[q + i] == s[q..q + |word|][i] == word[i];
    assert s[e] == word[|key| + 1] == ']';
    assert forall i :: 0 <= i < n ==> s[i] == t[i] && t[i] != ']';
    CloseHasOpen(rest, e - n);
    var i :| 0 <= i < e - n && Flat(rest)[..e - n][i] == '[';
    assert s[n + i] == '[';
    forall m | q < m < e ensures s[m] != '[' { assert s[q + (m - q)] == word[m - q] == key[m - q - 1]; }
  }

  /** One that starts in a hole starts where the hole starts ... */
  lemma StartsWithHole(k: string, rest: string, key: string, q: nat)
    requires Plain(k) && OccursAt(Bracketed(k) + rest, Bracketed(key), q) && q < |k| + 2
    ensures q == 0
  {
    var s, word := Bracketed(k) + rest, Bracketed(key);
    assert s[q] == s[q..q + |word|][0] == '[' && s[|k| + 1] == ']';
    assert forall i :: 0 < i <= |k| ==> s[i] == k[i - 1] && k[i - 1] != '[';
  }

  /** ... and is that hole. */
  lemma SameHole(k: string, rest: string, key: string)
    requires Plain(k) && Plain(key) && OccursAt(Bracketed(k) + rest, Bracketed(key), 0)
    ensures k == key
  {
    var s, word := Bracketed(k) + rest, Bracketed(key);
    assert s[..|word|] == word;
    assert forall i :: 0 < i <= |key| ==> s[i] == key[i - 1] && key[i - 1] != ']';
    assert forall i :: 0 < i <= |k| ==> s[i] == k[i - 1] && k[i - 1] != ']';
    assert s[|key| + 1] == word[|key| + 1] == ']' && s[|k| + 1] == ']';
    assert k == s[1..1 + |k|] && key == s[1..1 + |key|];
  }

  lemma {:induction false} OccurrenceIsHole(ps: Pieces, key: string, q: nat)
    requires Proper(ps) && Plain(key) && OccursAt(Flat(ps), Bracketed(key), q)
    ensures 0 <= FirstHole(ps, key) <= q
  {
    match ps
    case Text(t, rest) =>
      NotInText(t, rest, key, q);
      OccursBehind(t, Flat(rest), Bracketed(key), q);
      OccurrenceIsHole(rest, key, q - |t|);
    case Hole(k, rest) =>
      if q < |k| + 2 {
        StartsWithHole(k, Flat(rest), key, q);
        SameHole(k, Flat(rest), key);
      } else {
        OccursBehind(Bracketed(k), Flat(rest), Bracketed(key), q);
        OccurrenceIsHole(rest, key, q - |k| - 2);
      }
  }

  /** The search finds the first hole of its key, and nothing else. */
  lemma FindIsFirstHole(ps: Pieces, key: string)
    requires Proper(ps) && Plain(key)
    ensures FindFrom(Flat(ps), Bracketed(key), 0) == FirstHole(ps, key)
  {
    var p, q := FindFrom(Flat(ps), Bracketed(key), 0), FirstHole(ps, key);
    HoleOccurs(ps, key);
    if p != -1 { OccurrenceIsHole(ps, key, p); }
  }

  // ---- Values whose every `]` closes a hole ----

  /** What begins with the end of a hole closes it unopened. */
  lemma BeginsUnopened(value: string, key: string, n: int)
    requires Plain(key) && BeginsAt(value, Bracketed(key), n)
    ensures value[n - 1] == ']' && '[' !in value[..n - 1]
  {
    var word := Bracketed(key);
    var end := word[|word| - n..];
    assert forall i :: 0 < i < |word| ==> word[i] != '[';
    assert value[..n] == end;
    forall i | 0 <= i < n ensures value[i] == word[|word| - n + i] { assert value[..n][i] == end[i]; }
  }

  /** So such a value never does. */
  lemma ProperNeverBegins(vs: Pieces, key: string)
    requires Proper(vs) && Plain(key)
    ensures !Begins(Flat(vs), Bracketed(key))
  {
    if n :| BeginsAt(Flat(vs), Bracketed(key), n) {
      BeginsUnopened(Flat(vs), key, n);
      CloseHasOpen(vs, n - 1);
    }
  }

  /** With such a value the loop comes to an end on a string if and only if not both hold the hole. */
  lemma ProperValueStops(s: string, key: string, vs: Pieces)
    requires Proper(vs) && Plain(key)
    ensures var word, value := Bracketed(key), Flat(vs);
      Stops(s, word, value) <==> !(Contains(s, word) && Contains(value, word))
  {
    var word, value := Bracketed(key), Flat(vs);
    if Contains(s, word) && Contains(value, word) {
      forall n: nat ensures !StopsAt(s, word, value, n) { SelfReferenceNeverEnds(s, word, value, n); }
    } else if Contains(s, word) {
      ProperNeverBegins(vs, key);
      var n := TameEnds(s, word, value);
      assert StopsAt(s, word, value, n);
    } else {
      assert StopsAt(s, word, value, 0);
    }
  }

  // ---- Substitution ----

  function FillFirst(ps: Pieces, key: string, value: string): Pieces {
    match ps
    case End => End
    case Text(t, rest) => Text(t, FillFirst(rest, key, value))
    case Hole(k, rest) => if k == key then Text(value, rest) else Hole(k, FillFirst(rest, key, value))
  }

  function Fill(ps: Pieces, key: string, value: string): Pieces {
    match ps
    case End => End
    case Text(t, rest) => Text(t, Fill(rest, key, value))
    case Hole(k, rest) => if k == key then Text(value, Fill(rest, key, value)) else Hole(k, Fill(rest, key, value))
  }

  /** `s` with the part from `a` to `b` replaced. */
  ghost function Spliced(s: string, value: string, a: nat, b: nat): string
    requires a <= b <= |s|
  {
    s[..a] + value + s[b..]
  }

  lemma SplicedBehind(front: string, s: string, filled: string, value: string, a: nat, b: nat, p: nat, e: nat)
    requires a <= b <= |s| && p == |front| + a && e == |front| + b && Spliced(s, value, a, b) == filled
    ensures e <= |front + s| && Spliced(front + s, value, p, e) == front + filled
  {
    assert (front + s)[..p] == front + s[..a];
    assert (front + s)[e..] == s[b..];
  }

  lemma SplicedFront(front: string, s: string, value: string)
    ensures Spliced(front + s, value, 0, |front|) == value + s
  {
  }

  ghost predicate AtFront(holds: (Pieces, nat) -> bool, key: string) {
    forall rest :: holds(Hole(key, rest), 0)
  }

  ghost predicate PastText(holds: (Pieces, nat) -> bool) {
    forall t: string, rest, a: nat, p: nat :: holds(rest, a) && p == |t| + a ==> holds(Text(t, rest), p)
  }

  ghost predicate PastHole(holds: (Pieces, nat) -> bool, key: string) {
    forall k, rest, a: nat :: k != key && holds(rest, a) ==> holds(Hole(k, rest), |k| + 2 + a)
  }

  /** What holds of a hole at the front, and goes on to hold behind any other piece, holds of the first hole. */
  lemma {:induction false} FirstHoleInduction(holds: (Pieces, nat) -> bool, key: string, ps: Pieces, p: nat)
    requires AtFront(holds, key) && PastText(holds) && PastHole(holds, key) && p == FirstHole(ps, key)
    ensures holds(ps, p)
  {
    match ps
    case Text(t, rest) => FirstHoleInduction(holds, key, rest, p - |t|);
    case Hole(k, rest) => if k != key { FirstHoleInduction(holds, key, rest, p - (|k| + 2)); }
  }

  ghost predicate Filled(ps: Pieces, key: string, value: string, p: nat) {
    p + |key| + 2 <= |Flat(ps)| && Spliced(Flat(ps), value, p, p + |key| + 2) == Flat(FillFirst(ps, key, value))
  }

  lemma FilledBehindText(t: string, rest: Pieces, key: string, value: string, a: nat, p: nat)
    requires Filling(key, value)(rest, a) && p == |t| + a
    ensures Filling(key, value)(Text(t, rest), p)
  {
    FilledBehind(t, Flat(rest), Flat(FillFirst(rest, key, value)), value, |key| + 2, a, p);
  }

  lemma FilledBehindHole(k: string, rest: Pieces, key: string, value: string, a: nat, p: nat)
    requires Filling(key, value)(rest, a) && k != key && p == |k| + 2 + a
    ensures Filling(key, value)(Hole(k, rest), p)
  {
    FilledBehind(Bracketed(k), Flat(rest), Flat(FillFirst(rest, key, value)), value, |key| + 2, a, p);
  }

  lemma FilledBehind(front: string, s: string, filled: string, value: string, n: nat, a: nat, p: nat)
    requires a + n <= |s| && p == |front| + a && Spliced(s, value, a, a + n) == filled
    ensures p + n <= |front + s| && Spliced(front + s, value, p, p + n) == front + filled
  {
    SplicedBehind(front, s, filled, value, a, a + n, p, p + n);
  }

  lemma FilledHere(key: string, rest: Pieces, value: string)
    ensures Filled(Hole(key, rest), key, value, 0)
  {
    SplicedFront(Bracketed(key), Flat(rest), value);
  }

  ghost function Filling(key: string, value: string): (Pieces, nat) -> bool {
    (ps: Pieces, p: nat) => Filled(ps, key, value, p)
  }

  lemma FillsAtFront(key: string, value: string)
    ensures AtFront(Filling(key, value), key)
  {
    forall rest ensures Filling(key, value)(Hole(key, rest), 0) { FilledHere(key, rest, value); }
  }

  lemma FillsPastText(key: string, value: string)
    ensures PastText(Filling(key, value))
  {
    var f := Filling(key, value);
    forall t: string, rest, a: nat, p: nat | f(rest, a) && p == |t| + a ensures f(Text(t, rest), p) {
      FilledBehindText(t, rest, key, value, a, p);
    }
  }

  lemma FillsPastHole(key: string, value: string)
    ensures PastHole(Filling(key, value), key)
  {
    var f := Filling(key, value);
    forall k, rest, a: nat | k != key && f(rest, a) ensures f(Hole(k, rest), |k| + 2 + a) {
      FilledBehindHole(k, rest, key, value, a, |k| + 2 + a);
    }
  }

  lemma ReplaceFillsFirst(ps: Pieces, key: string, value: string, p: nat)
    requires p == FirstHole(ps, key)
    ensures Filled(ps, key, value, p)
  {
    FillsAtFront(key, value);
    FillsPastText(key, value);
    FillsPastHole(key, value);
    FirstHoleInduction(Filling(key, value), key, ps, p);
  }

  lemma FilledFirst(ps: Pieces, key: string, value: string, p: nat)
    requires p == FirstHole(ps, key)
    ensures OccursAt(Flat(ps), Bracketed(key), p) &&
      Replace(Flat(ps), Bracketed(key), value, p) == Flat(FillFirst(ps, key, value))
  {
    HoleOccurs(ps, key);
    ReplaceFillsFirst(ps, key, value, p);
  }

  lemma {:induction false} FillAfterFirst(ps: Pieces, key: string, value: string)
    ensures Fill(FillFirst(ps, key, value), key, value) == Fill(ps, key, value)
    ensures FirstHole(ps, key) == -1 ==> Fill(ps, key, value) == ps
    ensures Proper(ps) && ']' !in value ==> Proper(FillFirst(ps, key, value)) && Proper(Fill(ps, key, value))
    ensures FirstHole(ps, key) >= -1
  {
    if !ps.End? { FillAfterFirst(ps.rest, key, value); }
  }

  /** One key: every hole of it is filled, and nothing else changes. */
  lemma {:induction false} MakeUpKeyFills(ps: Pieces, key: string, value: string)
    requires Proper(ps) && Plain(key) && ']' !in value && Tame(value, Bracketed(key))
    ensures Rewrite(Flat(ps), Bracketed(key), value) == Flat(Fill(ps, key, value))
    decreases Rank1(Flat(ps), Bracketed(key), value), Rank2(Flat(ps), Bracketed(key))
  {
    FindIsFirstHole(ps, key);
    FillAfterFirst(ps, key, value);
    var s, p := Flat(ps), FirstHole(ps, key);
    if p != -1 {
      FilledFirst(ps, key, value, p);
      TurnFalls(s, Bracketed(key), value, p);
      MakeUpKeyFills(FillFirst(ps, key, value), key, value);
    }
  }

  /** All holes at once, each by the first parameter from the `i`th on with its key. */
  function Substitute(ps: Pieces, params: seq<Param>, i: nat): Pieces
    requires i <= |params|
  {
    match ps
    case End => End
    case Text(t, rest) => Text(t, Substitute(rest, params, i))
    case Hole(k, rest) =>
      var j := Lookup(params, k, i);
      if j < |params| then Text(params[j].value, Substitute(rest, params, i)) else Hole(k, Substitute(rest, params, i))
  }

  function Lookup(params: seq<Param>, key: string, i: nat): (j: nat)
    requires i <= |params|
    ensures i <= j <= |params| && (j < |params| ==> params[j].key == key)
    ensures forall m :: i <= m < j ==> params[m].key != key
    decreases |params| - i
  {
    if i == |params| || params[i].key == key then i else Lookup(params, key, i + 1)
  }

  lemma {:induction false} SubstituteStep(ps: Pieces, params: seq<Param>, i: nat)
    requires i < |params|
    ensures Substitute(Fill(ps, params[i].key, params[i].value), params, i + 1) == Substitute(ps, params, i)
  {
    if !ps.End? { SubstituteStep(ps.rest, params, i); }
  }

  lemma {:induction false} SubstituteNone(ps: Pieces, params: seq<Param>)
    ensures Substitute(ps, params, |params|) == ps
  {
    if !ps.End? { SubstituteNone(ps.rest, params); }
  }

  lemma {:induction false} SubstitutionFrom(ps: Pieces, params: seq<Param>, i: nat)
    requires i <= |params| && Proper(ps) && forall j :: 0 <= j < |params| ==> Ending(params[j])
    requires forall j :: 0 <= j < |params| ==> Plain(params[j].key) && ']' !in params[j].value
    ensures MakeUpFrom(Flat(ps), params, i) == Flat(Substitute(ps, params, i))
    decreases |params| - i
  {
    if i == |params| {
      SubstituteNone(ps, params);
    } else {
      var p := params[i];
      MakeUpKeyFills(ps, p.key, p.value);
      FillAfterFirst(ps, p.key, p.value);
      SubstituteStep(ps, params, i);
      SubstitutionFrom(Fill(ps, p.key, p.value), params, i + 1);
    }
  }

  /** Key after key, in whatever order, is all keys at once. */
  lemma MakeUpIsSubstitution(ps: Pieces, params: seq<Param>)
    requires Proper(ps)
    requires forall j :: 0 <= j < |params| ==> Plain(params[j].key) && ']' !in params[j].value
    ensures forall j :: 0 <= j < |params| ==> Ending(params[j])
    ensures MakeUpFrom(Flat(ps), params, 0) == Flat(Substitute(ps, params, 0))
  {
    forall j | 0 <= j < |params| ensures Ending(params[j]) {
      OneKindOfBracketEnds(params[j].key, params[j].value);
    }
    SubstitutionFrom(ps, params, 0);
  }
}
