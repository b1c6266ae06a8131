/**
 * Byte strings and the two operations of Go's `bytes` package that the
 * front-matter scanner calls: `bytes.HasPrefix` and `bytes.Index`.
 */
module Bytes {

  newtype byte = x: int | 0 <= x < 256

  /** `needle` occurs in `hay` starting at offset `i`. */
  predicate OccursAt(hay: seq<byte>, needle: seq<byte>, i: int)
  {
    0 <= i && i + |needle| <= |hay| && hay[i..i + |needle|] == needle
  }

  /** `bytes.HasPrefix(s, prefix)`: `s` is at least as long as `prefix` and agrees with it byte by byte. */
  predicate HasPrefix(s: seq<byte>, prefix: seq<byte>)
    ensures HasPrefix(s, prefix) <==> |prefix| <= |s| && forall i :: 0 <= i < |prefix| ==> s[i] == prefix[i]
  {
    assert |prefix| <= |s| ==> forall i :: 0 <= i < |prefix| ==> s[0..|prefix|][i] == s[i];
    OccursAt(s, prefix, 0)
  }

  /** `needle` occurs nowhere in `hay` at or after offset `from`. */
  ghost predicate Absent(hay: seq<byte>, needle: seq<byte>, from: int)
  {
    forall j :: from <= j ==> !OccursAt(hay, needle, j)
  }

  /** `k` is the first offset at or after `from` where `needle` occurs in `hay`. */
  ghost predicate FirstAt(hay: seq<byte>, needle: seq<byte>, from: int, k: int)
  {
    from <= k && OccursAt(hay, needle, k) &&
    forall j :: from <= j < k ==> !OccursAt(hay, needle, j)
  }

  /** The first occurrence of `needle` in `hay` at or after `i`, or -1. */
  function IndexFrom(hay: seq<byte>, needle: seq<byte>, i: nat): (r: int)
    decreases |hay| - i
    ensures r == -1 <==> Absent(hay, needle, i)
    ensures r != -1 ==> FirstAt(hay, needle, i, r)
  {
    if i + |needle| > |hay| then -1
    else if hay[i..i + |needle|] == needle then assert OccursAt(hay, needle, i); i
    else IndexFrom(hay, needle, i + 1)
  }

  /** `bytes.Index(hay, needle)`: the first occurrence of `needle`, or -1 when there is none. */
  function IndexOf(hay: seq<byte>, needle: seq<byte>): (r: int)
    ensures r == -1 <==> Absent(hay, needle, 0)
    ensures r != -1 ==> FirstAt(hay, needle, 0, r)
  {
    IndexFrom(hay, needle, 0)
  }

  /** An occurrence in the suffix `s[start..]` is an occurrence in `s`, shifted by `start`. */
  lemma OccursInSuffix(s: seq<byte>, needle: seq<byte>, start: nat, e: nat)
    requires start <= |s|
    ensures OccursAt(s[start..], needle, e) <==> OccursAt(s, needle, start + e)
  {
    if start + e + |needle| <= |s| {
      assert s[start..][e..e + |needle|] == s[start + e..start + e + |needle|];
    }
  }

  /** What `IndexOf` says about the suffix `s[start..]`, stated about `s` itself. */
  lemma IndexInSuffix(s: seq<byte>, needle: seq<byte>, start: nat)
    requires start <= |s|
    ensures Absent(s[start..], needle, 0) <==> Absent(s, needle, start)
    ensures forall e: nat :: FirstAt(s[start..], needle, 0, e) <==> FirstAt(s, needle, start, start + e)
  {
    forall e: nat ensures OccursAt(s[start..], needle, e) <==> OccursAt(s, needle, start + e) {
      OccursInSuffix(s, needle, start, e);
    }
    assert forall j :: start <= j ==> (OccursAt(s, needle, j) <==> OccursAt(s[start..], needle, j - start));
  }
}
