/**
 * The three string operations the resolver relies on: substring search
 * (`str.find`), ASCII lower-casing (`str.lower`) and `str.join`.
 */
module Strings {

  /** `sub` occurs in `s` starting at index `i`. */
  ghost predicate OccursAt(s: string, sub: string, i: int) {
    0 <= i && i + |sub| <= |s| && s[i..i + |sub|] == sub
  }

  /** `sub` is a substring of `s`. */
  ghost predicate Contains(s: string, sub: string) {
    exists i :: OccursAt(s, sub, i)
  }

  /** `s.find(sub)`: the lowest index where `sub` occurs in `s`, or -1. */
  function Find(s: string, sub: string): (r: int)
    ensures r == -1 <==> !Contains(s, sub)
    ensures r != -1 ==> OccursAt(s, sub, r) && forall j :: 0 <= j < r ==> !OccursAt(s, sub, j)
  {
    FindFrom(s, sub, 0)
  }

  /** The lowest index at or after `i` where `sub` occurs in `s`, or -1. */
  function FindFrom(s: string, sub: string, i: nat): (r: int)
    requires i <= |s|
    ensures r == -1 <==> forall j :: i <= j ==> !OccursAt(s, sub, j)
    ensures r != -1 ==> i <= r && OccursAt(s, sub, r)
    ensures r != -1 ==> forall j :: i <= j < r ==> !OccursAt(s, sub, j)
    decreases |s| - i
  {
    if i + |sub| > |s| then -1
    else if s[i..i + |sub|] == sub then
      assert OccursAt(s, sub, i);
      i
    else
      FindFrom(s, sub, i + 1)
  }

  /** ASCII case folding of one character. */
  function LowerChar(c: char): (r: char)
    ensures 'A' <= c <= 'Z' ==> 'a' <= r <= 'z'
    ensures !('A' <= c <= 'Z') ==> r == c
  {
    if 'A' <= c <= 'Z' then (c as int + 32) as char else c
  }

  /** `s.lower()`, restricted to ASCII letters. */
  function Lower(s: string): (r: string)
    ensures |r| == |s|
    ensures forall i :: 0 <= i < |s| ==> r[i] == LowerChar(s[i])
  {
    if s == [] then [] else [LowerChar(s[0])] + Lower(s[1..])
  }

  /** The summed length of all parts. */
  ghost function TotalLength(parts: seq<string>): nat {
    if parts == [] then 0 else |parts[0]| + TotalLength(parts[1..])
  }

  /**
   * `sep.join(parts)`: the parts in order with one separator between
   * neighbours, starting with the first part and ending with the last.
   */
  function Join(sep: string, parts: seq<string>): (r: string)
    ensures parts == [] ==> r == ""
    ensures |parts| > 0 ==> |r| == TotalLength(parts) + (|parts| - 1) * |sep|
    ensures |parts| > 0 ==> parts[0] <= r
    ensures |parts| > 0 ==> |parts[|parts| - 1]| <= |r| && r[|r| - |parts[|parts| - 1]|..] == parts[|parts| - 1]
  {
    if |parts| == 0 then ""
    else if |parts| == 1 then parts[0]
    else
      var rest := Join(sep, parts[1..]);
      var r := parts[0] + sep + rest;
      assert r[|parts[0] + sep|..] == rest;
      r
  }

  /** Lower-casing keeps every occurrence, at the same index. */
  lemma LowerKeepsOccurrence(s: string, sub: string, i: int)
    requires OccursAt(s, sub, i)
    ensures OccursAt(Lower(s), Lower(sub), i)
  {
  }

  /** A case-sensitive match is also a case-insensitive one. */
  lemma CaseSensitiveImpliesInsensitive(s: string, sub: string)
    ensures Contains(s, sub) ==> Contains(Lower(s), Lower(sub))
  {
    if Contains(s, sub) {
      var i :| OccursAt(s, sub, i);
      LowerKeepsOccurrence(s, sub, i);
    }
  }

  /** An occurrence in `t` is an occurrence in `a + t + b`, shifted by `|a|`. */
  lemma OccursInContext(a: string, t: string, b: string, sub: string, i: int)
    requires OccursAt(t, sub, i)
    ensures OccursAt(a + t + b, sub, |a| + i)
  {
  }

  /** Every part of a join can be found in the joined string. */
  lemma {:induction false} JoinContainsEach(sep: string, parts: seq<string>, i: int)
    requires 0 <= i < |parts|
    ensures Contains(Join(sep, parts), parts[i])
  {
    var j := JoinOccurrence(sep, parts, i);
  }

  /** The index at which the `i`-th part sits inside the join. */
  lemma {:induction false} JoinOccurrence(sep: string, parts: seq<string>, i: int) returns (j: int)
    requires 0 <= i < |parts|
    ensures OccursAt(Join(sep, parts), parts[i], j)
  {
    var x := parts[i];
    if |parts| == 1 {
      j := 0;
      assert x[0..|x|] == x;
    } else {
      var rest := Join(sep, parts[1..]);
      assert Join(sep, parts) == parts[0] + sep + rest;
      if i == 0 {
        j := 0;
        assert (parts[0] + sep + rest)[0..|x|] == x;
      } else {
        var k := JoinOccurrence(sep, parts[1..], i - 1);
        OccursInContext(parts[0] + sep, rest, [], x, k);
        assert parts[0] + sep + rest + [] == Join(sep, parts);
        j := |parts[0] + sep| + k;
      }
    }
  }

  /** Joining two non-empty lists of parts puts one separator between their joins. */
  lemma {:induction false} JoinAppend(sep: string, a: seq<string>, b: seq<string>)
    requires a != [] && b != []
    ensures Join(sep, a + b) == Join(sep, a) + sep + Join(sep, b)
  {
    if |a| == 1 {
      assert (a + b)[1..] == b;
    } else {
      assert (a + b)[1..] == a[1..] + b;
      JoinAppend(sep, a[1..], b);
    }
  }
}
