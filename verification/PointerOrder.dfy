/**
 `operator<` of 3rdparty/rapidjson/pointer.h orders pointers strictly and totally, with all invalid pointers
 together at the end.
 */
module PointerOrder {
  import opened Json
  import opened PointerText

  /** `memcmp` of names of one length: below, equal or above. */
  function Compare(a: string, b: string): (c: int)
    requires |a| == |b|
    ensures c == 0 <==> a == b
  {
    if a == "" then 0
    else if a[0] != b[0] then (if a[0] < b[0] then -1 else 1)
    else Compare(a[1..], b[1..])
  }

  /** The comparison of two tokens: index, then length, then bytes. */
  function CompareTokens(s: Token, t: Token): (c: int)
    ensures c == 0 <==> s == t
  {
    if s.index != t.index then (if s.index < t.index then -1 else 1)
    else if |s.name| != |t.name| then (if |s.name| < |t.name| then -1 else 1)
    else Compare(s.name, t.name)
  }

  function CompareAll(a: seq<Token>, b: seq<Token>): (c: int)
    requires |a| == |b|
    ensures c == 0 <==> a == b
  {
    if a == [] then 0
    else
      var c := CompareTokens(a[0], b[0]);
      if c != 0 then c else CompareAll(a[1..], b[1..])
  }

  /** A pointer, or nothing for one that failed to parse. */
  type Parsable = Option<seq<Token>>

  predicate Less(a: Parsable, b: Parsable) {
    if a.None? then false
    else if b.None? then true
    else if |a.value| != |b.value| then |a.value| < |b.value|
    else CompareAll(a.value, b.value) < 0
  }

  method LessThan(a: Parsable, b: Parsable) returns (r: bool)
    ensures r == Less(a, b)
  {
    if a.None? {
      return false;
    }
    if b.None? {
      return true;
    }
    if |a.value| != |b.value| {
      return |a.value| < |b.value|;
    }
    for i := 0 to |a.value|
      invariant CompareAll(a.value, b.value) == CompareAll(a.value[i..], b.value[i..])
    {
      var s, t := a.value[i], b.value[i];
      assert a.value[i..][1..] == a.value[i + 1..] && b.value[i..][1..] == b.value[i + 1..];
      if s.index != t.index {
        return s.index < t.index;
      }
      if |s.name| != |t.name| {
        return |s.name| < |t.name|;
      }
      var cmp := Compare(s.name, t.name);
      if cmp != 0 {
        return cmp < 0;
      }
    }
    return false;
  }

  lemma {:induction false} CompareFlips(a: string, b: string)
    requires |a| == |b|
    ensures Compare(b, a) < 0 <==> Compare(a, b) > 0
  {
    if a != "" {
      CompareFlips(a[1..], b[1..]);
    }
  }

  lemma {:induction false} CompareChains(a: string, b: string, c: string)
    requires |a| == |b| == |c| && Compare(a, b) < 0 && Compare(b, c) < 0
    ensures Compare(a, c) < 0
  {
    if a != "" && a[0] == b[0] == c[0] {
      CompareChains(a[1..], b[1..], c[1..]);
    }
  }

  lemma {:induction false} CompareAllFlips(a: seq<Token>, b: seq<Token>)
    requires |a| == |b|
    ensures CompareAll(b, a) < 0 <==> CompareAll(a, b) > 0
  {
    hide Compare;
    if a != [] {
      if |a[0].name| == |b[0].name| {
        CompareFlips(a[0].name, b[0].name);
        CompareFlips(b[0].name, a[0].name);
      }
      CompareAllFlips(a[1..], b[1..]);
    }
  }

  lemma TokensChain(s: Token, t: Token, u: Token)
    requires CompareTokens(s, t) < 0 && CompareTokens(t, u) < 0
    ensures CompareTokens(s, u) < 0
  {
    hide Compare;
    if s.index == t.index == u.index && |s.name| == |t.name| == |u.name| {
      CompareChains(s.name, t.name, u.name);
    }
  }

  lemma {:induction false} CompareAllChains(a: seq<Token>, b: seq<Token>, c: seq<Token>)
    requires |a| == |b| == |c| && CompareAll(a, b) < 0 && CompareAll(b, c) < 0
    ensures CompareAll(a, c) < 0
  {
    hide CompareTokens;
    if a != [] {
      if a[0] == b[0] && b[0] == c[0] {
        CompareAllChains(a[1..], b[1..], c[1..]);
      } else if a[0] != b[0] && b[0] != c[0] {
        TokensChain(a[0], b[0], c[0]);
      }
    }
  }

  /** A strict order in which two pointers are incomparable only if they are equal or both invalid. */
  lemma StrictTotalOrder(a: Parsable, b: Parsable, c: Parsable)
    ensures !Less(a, a)
    ensures Less(a, b) && Less(b, c) ==> Less(a, c)
    ensures Less(a, b) ==> !Less(b, a)
    ensures Less(a, b) || Less(b, a) || a == b
  {
    hide CompareAll;
    if a.Some? && b.Some? && |a.value| == |b.value| {
      CompareAllFlips(a.value, b.value);
      CompareAllFlips(b.value, a.value);
      if c.Some? && |b.value| == |c.value| && Less(a, b) && Less(b, c) {
        CompareAllChains(a.value, b.value, c.value);
      }
    }
  }
}
