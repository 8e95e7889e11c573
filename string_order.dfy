/**
  Python's ordering of `str` values: lexicographic comparison by code point,
  where a proper prefix sorts before the longer string. Both `sorted(...)` of
  the tag list and the `Deck` comparison operators rest on it.
*/
module StringOrder {

  /** Python's `a < b` on strings. */
  predicate Less(a: string, b: string)
    decreases |a|
  {
    if |a| == 0 then |b| > 0
    else if |b| == 0 then false
    else a[0] < b[0] || (a[0] == b[0] && Less(a[1..], b[1..]))
  }

  /** Python's `a <= b` on strings. */
  predicate LessEq(a: string, b: string) {
    Less(a, b) || a == b
  }

  lemma {:induction false} LessIrreflexive(a: string)
    ensures !Less(a, a)
  {
    if |a| > 0 {
      LessIrreflexive(a[1..]);
    }
  }

  lemma {:induction false} LessTransitive(a: string, b: string, c: string)
    requires Less(a, b) && Less(b, c)
    ensures Less(a, c)
  {
    if |a| > 0 {
      if a[0] == b[0] && b[0] == c[0] {
        LessTransitive(a[1..], b[1..], c[1..]);
      }
    }
  }

  /** Exactly one of `a < b`, `a == b`, `b < a` holds. */
  lemma {:induction false} LessTrichotomous(a: string, b: string)
    ensures Less(a, b) || a == b || Less(b, a)
    ensures !(Less(a, b) && Less(b, a))
    ensures a == b ==> !Less(a, b)
  {
    if |a| > 0 && |b| > 0 {
      LessTrichotomous(a[1..], b[1..]);
      if a[0] == b[0] && a[1..] == b[1..] {
        assert a == [a[0]] + a[1..] && b == [b[0]] + b[1..];
      }
    }
    if a == b {
      LessIrreflexive(a);
    }
  }

  /** Python's `a <= b` is the negation of `b < a`. */
  lemma LessEqIsNotGreater(a: string, b: string)
    ensures LessEq(a, b) <==> !Less(b, a)
  {
    LessTrichotomous(a, b);
  }

  /** Every element is strictly smaller than every later one: sorted and free of duplicates. */
  predicate StrictlySorted(s: seq<string>) {
    forall i, j :: 0 <= i < j < |s| ==> Less(s[i], s[j])
  }

  lemma StrictlySortedDistinct(s: seq<string>, i: nat, j: nat)
    requires StrictlySorted(s) && i < |s| && j < |s| && i != j
    ensures s[i] != s[j]
  {
    if i < j {
      LessIrreflexive(s[i]);
    } else {
      LessIrreflexive(s[j]);
    }
  }

  function Elems(s: seq<string>): set<string> {
    set x | x in s
  }

  /** Inserts `x` into a strictly sorted list, keeping it strictly sorted. */
  function Insert(s: seq<string>, x: string): (r: seq<string>)
    requires StrictlySorted(s)
    ensures StrictlySorted(r)
    ensures Elems(r) == Elems(s) + {x}
  {
    if s == [] then [x]
    else if Less(x, s[0]) then
      assert forall k :: 0 < k < |s| ==> Less(x, s[k]) by {
        forall k | 0 < k < |s| ensures Less(x, s[k]) {
          LessTransitive(x, s[0], s[k]);
        }
      }
      [x] + s
    else if x == s[0] then s
    else
      LessTrichotomous(x, s[0]);
      var rest := Insert(s[1..], x);
      assert Elems(s) == {s[0]} + Elems(s[1..]);
      assert forall k :: 0 <= k < |rest| ==> Less(s[0], rest[k]) by {
        forall k | 0 <= k < |rest| ensures Less(s[0], rest[k]) {
          assert rest[k] in Elems(rest);
          if rest[k] != x {
            var m := IndexOf(s[1..], rest[k]);
            assert s[1 + m] == rest[k];
          }
        }
      }
      assert Elems([s[0]] + rest) == {s[0]} + Elems(rest);
      [s[0]] + rest
  }

  /** A strictly sorted list is determined by its elements: `sorted(list(tags))` has one result. */
  lemma {:induction false} StrictlySortedUnique(s: seq<string>, t: seq<string>)
    requires StrictlySorted(s) && StrictlySorted(t)
    requires Elems(s) == Elems(t)
    ensures s == t
  {
    ElemsEmpty(s);
    ElemsEmpty(t);
    if s != [] && t != [] {
      assert s[0] in Elems(t) && t[0] in Elems(s);
      MinimumIsHead(s, t[0]);
      MinimumIsHead(t, s[0]);
      LessTrichotomous(s[0], t[0]);
      assert s[0] == t[0];
      forall y | y in Elems(s[1..]) ensures y in Elems(t[1..]) {
        TailMember(s, t, y);
      }
      forall y | y in Elems(t[1..]) ensures y in Elems(s[1..]) {
        TailMember(t, s, y);
      }
      StrictlySortedUnique(s[1..], t[1..]);
      assert s == [s[0]] + s[1..] && t == [t[0]] + t[1..];
    }
  }

  lemma ElemsEmpty(s: seq<string>)
    ensures Elems(s) == {} <==> s == []
  {
    if s != [] {
      assert s[0] in Elems(s);
    }
  }

  lemma TailMember(s: seq<string>, t: seq<string>, y: string)
    requires StrictlySorted(s) && Elems(s) == Elems(t) && s != [] && t != [] && s[0] == t[0]
    requires y in s[1..]
    ensures y in t[1..]
  {
    var k := 1 + IndexOf(s[1..], y);
    StrictlySortedDistinct(s, 0, k);
    assert y in Elems(t);
    var m := IndexOf(t, y);
    assert m != 0;
    assert t[1..][m - 1] == y;
  }

  /** Names the step of `StrictlySortedUnique` that compares the two heads; Dafny needs no proof of it. */
  lemma MinimumIsHead(s: seq<string>, y: string)
    requires StrictlySorted(s) && y in s
    ensures LessEq(s[0], y)
  {
  }

  function IndexOf(s: seq<string>, y: string): (k: nat)
    requires y in s
    ensures k < |s| && s[k] == y
  {
    if s[0] == y then 0 else 1 + IndexOf(s[1..], y)
  }
}
