/**
  The few JavaScript built-ins the learning catalog and its readers rely on:
  `Array.prototype.find`, `findIndex`, `indexOf` and `includes`,
  `String.prototype.startsWith`, `includes`, `toLowerCase` and `trim`, and the
  whitespace class `\s` of JavaScript regular expressions.
*/
module Builtins {

  datatype Option<+T> = None | Some(value: T)

  // ---------------------------------------------------------------------------
  // Arrays
  // ---------------------------------------------------------------------------

  /** `s.findIndex(p)`, with `None` for JavaScript's -1. */
  function FindIndex<T>(s: seq<T>, p: T -> bool): (r: Option<nat>)
    ensures r.Some? ==> r.value < |s| && p(s[r.value])
    ensures r.Some? ==> forall j :: 0 <= j < r.value ==> !p(s[j])
    ensures r.None? <==> forall j :: 0 <= j < |s| ==> !p(s[j])
  {
    if |s| == 0 then None
    else if p(s[0]) then Some(0)
    else match FindIndex(s[1..], p)
      case None => None
      case Some(i) => Some(i + 1)
  }

  /** `s.find(p)`: the first element satisfying `p`, or `undefined` (`None`). */
  function Find<T>(s: seq<T>, p: T -> bool): (r: Option<T>)
    ensures r.Some? ==> exists i :: 0 <= i < |s| && s[i] == r.value && p(s[i]) && forall j :: 0 <= j < i ==> !p(s[j])
    ensures r.None? <==> forall j :: 0 <= j < |s| ==> !p(s[j])
  {
    match FindIndex(s, p)
    case None => None
    case Some(i) => Some(s[i])
  }

  /** `s.indexOf(x)`, with `None` for -1. */
  function IndexOf<T(==)>(s: seq<T>, x: T): (r: Option<nat>)
    ensures r.Some? ==> r.value < |s| && s[r.value] == x && x !in s[..r.value]
    ensures r.None? <==> x !in s
  {
    var k := FindIndex(s, y => y == x);
    if k.Some? then
      assert forall y :: y in s[..k.value] ==> y != x by {
        forall y | y in s[..k.value] ensures y != x {
          var j :| 0 <= j < k.value && s[..k.value][j] == y;
          assert s[j] == y;
        }
      }
      k
    else
      k
  }

  /** The concatenation of a sequence of lists (`push(...xs)` repeated). */
  function Flatten<T>(ss: seq<seq<T>>): (r: seq<T>)
  {
    if |ss| == 0 then [] else ss[0] + Flatten(ss[1..])
  }

  lemma {:induction false} FlattenMembership<T>(ss: seq<seq<T>>, x: T)
    ensures x in Flatten(ss) <==> exists i :: 0 <= i < |ss| && x in ss[i]
  {
    if |ss| > 0 {
      FlattenMembership(ss[1..], x);
      if x in Flatten(ss[1..]) {
        var i :| 0 <= i < |ss[1..]| && x in ss[1..][i];
        assert x in ss[i + 1];
      }
      if exists i :: 0 <= i < |ss| && x in ss[i] {
        var i :| 0 <= i < |ss| && x in ss[i];
        if i > 0 { assert x in ss[1..][i - 1]; }
      }
    }
  }

  /** Occurrences in one list are occurrences in the flattened lists. */
  lemma {:induction false} FlattenCountAtLeast<T>(ss: seq<seq<T>>, i: nat, x: T)
    requires i < |ss|
    ensures multiset(Flatten(ss))[x] >= multiset(ss[i])[x]
  {
    assert Flatten(ss) == ss[0] + Flatten(ss[1..]);
    if i > 0 {
      FlattenCountAtLeast(ss[1..], i - 1, x);
    }
  }

  /** An element in two different lists occurs at least twice in the flattened lists. */
  lemma {:induction false} FlattenCountTwoLists<T>(ss: seq<seq<T>>, i: nat, j: nat, x: T)
    requires i < j < |ss| && x in ss[i] && x in ss[j]
    ensures multiset(Flatten(ss))[x] >= 2
  {
    assert Flatten(ss) == ss[0] + Flatten(ss[1..]);
    if i == 0 {
      FlattenCountAtLeast(ss[1..], j - 1, x);
      assert ss[1..][j - 1] == ss[j];
    } else {
      FlattenCountTwoLists(ss[1..], i - 1, j - 1, x);
    }
  }

  /** An element at two different positions of a list occurs at least twice in it. */
  lemma TwoPositionsCount<T>(s: seq<T>, p: nat, q: nat)
    requires p < q < |s| && s[p] == s[q]
    ensures multiset(s)[s[p]] >= 2
  {
    assert s == s[..q] + s[q..];
    assert s[p] in s[..q];
    assert s[q] in s[q..];
  }

  /** `s.filter(p)`: the elements satisfying `p`, in order. */
  function Filter<T(!new)>(s: seq<T>, p: T -> bool): (r: seq<T>)
    ensures |r| <= |s|
    ensures forall x :: x in r <==> x in s && p(x)
  {
    if |s| == 0 then []
    else
      var front, last := s[..|s| - 1], s[|s| - 1];
      assert forall x :: x in s <==> x in front || x == last by {
        assert s == front + [last];
      }
      Filter(front, p) + if p(last) then [last] else []
  }

  /** The positions of `s` whose element satisfies `p`. */
  ghost function Positions<T>(s: seq<T>, p: T -> bool): set<int>
  {
    set i | 0 <= i < |s| && p(s[i])
  }

  /** The filter keeps each satisfying element as often as it occurs and drops the others. */
  lemma {:induction false} FilterMultiset<T(!new)>(s: seq<T>, p: T -> bool, x: T)
    ensures multiset(Filter(s, p))[x] == (if p(x) then multiset(s)[x] else 0)
  {
    if |s| > 0 {
      var front, last := s[..|s| - 1], s[|s| - 1];
      FilterMultiset(front, p, x);
      assert s == front + [last];
      assert multiset(s) == multiset(front) + multiset{last};
    }
  }

  /** The filter's length is the number of positions holding a satisfying element. */
  lemma {:induction false} FilterLength<T(!new)>(s: seq<T>, p: T -> bool)
    ensures |Filter(s, p)| == |Positions(s, p)|
  {
    if |s| > 0 {
      var n := |s| - 1;
      var front := s[..n];
      FilterLength(front, p);
      assert |Filter(s, p)| == |Filter(front, p)| + (if p(s[n]) then 1 else 0);
      PositionsOfPrefix(s, p);
    }
  }

  /** Extending a list by one element adds at most that element's position. */
  lemma PositionsOfPrefix<T>(s: seq<T>, p: T -> bool)
    requires |s| > 0
    ensures |Positions(s, p)| == |Positions(s[..|s| - 1], p)| + (if p(s[|s| - 1]) then 1 else 0)
  {
    var n := |s| - 1;
    var before := Positions(s[..n], p);
    var added := if p(s[n]) then {n} else {};
    forall i
      ensures i in Positions(s, p) <==> i in before + added
    {
      if 0 <= i < n {
        assert s[..n][i] == s[i];
      }
    }
    assert Positions(s, p) == before + added;
    assert n !in before;
  }

  // ---------------------------------------------------------------------------
  // Strings
  // ---------------------------------------------------------------------------

  /** The characters of JavaScript's `\s` class, which are also the ones `trim` removes. */
  predicate IsSpace(c: char)
  {
    var n := c as int;
    (9 <= n <= 13) || n == 0x20 || n == 0xA0 || n == 0x1680 ||
    (0x2000 <= n <= 0x200A) || n == 0x2028 || n == 0x2029 || n == 0x202F ||
    n == 0x205F || n == 0x3000 || n == 0xFEFF
  }

  /** `s.trim() === ""`: the string is empty or made of whitespace only. */
  predicate IsBlank(s: string)
  {
    forall i :: 0 <= i < |s| ==> IsSpace(s[i])
  }

  /** `toLowerCase` restricted to ASCII letters. */
  function LowerChar(c: char): (r: char)
    ensures 'A' <= c <= 'Z' ==> r as int == c as int + 32
    ensures !('A' <= c <= 'Z') ==> r == c
  {
    if 'A' <= c <= 'Z' then (c as int + 32) as char else c
  }

  function Lower(s: string): (r: string)
    ensures |r| == |s|
    ensures forall i :: 0 <= i < |s| ==> r[i] == LowerChar(s[i])
  {
    if |s| == 0 then [] else [LowerChar(s[0])] + Lower(s[1..])
  }

  /** `s.startsWith(prefix)` */
  predicate StartsWith(s: string, prefix: string)
  {
    |prefix| <= |s| && s[..|prefix|] == prefix
  }

  /** `q` occurs in `text` starting at index `i`. */
  predicate OccursAt(text: string, q: string, i: int)
  {
    0 <= i && i + |q| <= |text| && text[i..i + |q|] == q
  }

  /** `text.includes(q)`, computed by trying every start position in turn. */
  function Contains(text: string, q: string): (r: bool)
    ensures r <==> exists i :: OccursAt(text, q, i)
  {
    if StartsWith(text, q) then
      assert OccursAt(text, q, 0);
      true
    else if |text| == 0 then
      assert forall i :: !OccursAt(text, q, i);
      false
    else
      var rest := Contains(text[1..], q);
      assert forall i :: OccursAt(text[1..], q, i) <==> OccursAt(text, q, i + 1) by {
        forall i ensures OccursAt(text[1..], q, i) <==> OccursAt(text, q, i + 1) {
          if 0 <= i && i + |q| <= |text[1..]| {
            assert text[1..][i..i + |q|] == text[i + 1..i + 1 + |q|];
          }
        }
      }
      assert !OccursAt(text, q, 0);
      assert forall i :: OccursAt(text, q, i) ==> OccursAt(text[1..], q, i - 1);
      rest
  }
}
