/**
 * The YAML front-matter boundary scanner of mdfmt's `main` (main.go:40-75).
 *
 * A document that starts with "---\n" may carry a front-matter block.  The
 * scanner looks for a closing marker from a cursor that starts at offset 4,
 * preferring "\n---" and falling back to "\n..." only when "\n---" does not
 * occur at all in the rest of the input.  The candidate span always starts at
 * offset 4 and ends at the newline of the marker.  If the YAML decoder rejects
 * the span, the cursor moves past the marker and the search is repeated.
 *
 * The YAML check (`yaml.Unmarshal` plus "exactly one top-level node") is the
 * parameter `valid`; nothing about YAML is modelled.
 */
module FrontMatter {
  import opened Wrappers
  import opened Bytes

  /** "---\n": the opening line, and also the line written around the re-encoded block. */
  const Opening: seq<byte> := [45, 45, 45, 10]
  /** "\n---": the preferred closing marker. */
  const DashMarker: seq<byte> := [10, 45, 45, 45]
  /** "\n...": the closing marker tried only when "\n---" is absent. */
  const DotMarker: seq<byte> := [10, 46, 46, 46]
  /** The markers in the order the loop at main.go:47 tries them. */
  const Markers: seq<seq<byte>> := [DashMarker, DotMarker]

  /** A closing marker of either kind starts at offset `k` of `s`. */
  predicate IsMarker(s: seq<byte>, k: int)
  {
    OccursAt(s, DashMarker, k) || OccursAt(s, DotMarker, k)
  }

  /**
   * One pass of the marker loop (main.go:47-52) over the rest of the input:
   * the offset of the first "\n---" if there is one, otherwise the offset of
   * the first "\n...", otherwise -1.
   */
  function PassEnd(rest: seq<byte>): (e: int)
    ensures e == -1 <==> Absent(rest, DashMarker, 0) && Absent(rest, DotMarker, 0)
    ensures e != -1 ==> 0 <= e && e + 4 <= |rest|
    ensures !Absent(rest, DashMarker, 0) ==> FirstAt(rest, DashMarker, 0, e)
    ensures Absent(rest, DashMarker, 0) && e != -1 ==> FirstAt(rest, DotMarker, 0, e)
  {
    var d := IndexOf(rest, DashMarker);
    if d != -1 then d else IndexOf(rest, DotMarker)
  }

  /**
   * The scan from cursor `start` (the `research:` loop, main.go:46-61): the
   * offset of the newline that begins the accepted closing marker, or None
   * when the markers run out first.
   */
  function CloseFrom(source: seq<byte>, valid: seq<byte> -> bool, start: nat): (r: Option<nat>)
    requires 4 <= start <= |source|
    decreases |source| - start
    ensures r.Some? ==> start <= r.value && IsMarker(source, r.value) && valid(source[4..r.value])
  {
    var e := PassEnd(source[start..]);
    if e == -1 then None
    else
      IndexInSuffix(source, DashMarker, start);
      IndexInSuffix(source, DotMarker, start);
      if valid(source[4..start + e]) then Some(start + e)
      else CloseFrom(source, valid, start + e + 4)
  }

  /** Where the front-matter block of `source` closes, if it has one (main.go:40-61). */
  function Close(source: seq<byte>, valid: seq<byte> -> bool): (r: Option<nat>)
    ensures r.Some? ==> HasPrefix(source, Opening)
    ensures r.Some? ==> 4 <= r.value && IsMarker(source, r.value) && valid(source[4..r.value])
  {
    if HasPrefix(source, Opening) then CloseFrom(source, valid, 4) else None
  }

  /** The YAML text handed to the decoder for the accepted block, or [] (main.go:57). */
  function Span(source: seq<byte>, valid: seq<byte> -> bool): (s: seq<byte>)
    ensures Close(source, valid).None? ==> s == []
    ensures Close(source, valid).Some? ==>
      valid(s) && Close(source, valid).value == 4 + |s| && s == source[4..4 + |s|] &&
      IsMarker(source, 4 + |s|)
  {
    match Close(source, valid)
    case None => []
    case Some(k) => source[4..k]
  }

  /**
   * The Markdown handed to the renderer (main.go:63, 97): everything after the
   * 4-byte closing marker, so it keeps the newline that ends the closing line;
   * the whole input when there is no front matter.
   */
  function Body(source: seq<byte>, valid: seq<byte> -> bool): (b: seq<byte>)
    ensures |b| <= |source| && b == source[|source| - |b|..]
    ensures b == source <==> Close(source, valid).None?
    ensures Close(source, valid).Some? ==> |source| - |b| == Close(source, valid).value + 4
  {
    match Close(source, valid)
    case None => source
    case Some(k) => source[k + 4..]
  }

  /**
   * The marker loop of one pass (main.go:47-52): try each marker in turn on
   * the rest of the input and stop at the first one that occurs.
   */
  method FindEnd(rest: seq<byte>) returns (end: int)
    ensures end == PassEnd(rest)
  {
    end := 0;
    var m := 0;
    assert Markers[0] == DashMarker && Markers[1] == DotMarker;
    while m < |Markers|
      invariant 0 <= m <= |Markers|
      invariant forall i :: 0 <= i < m ==> IndexOf(rest, Markers[i]) == -1
      invariant 0 < m ==> end == -1
    {
      end := IndexOf(rest, Markers[m]);
      if end != -1 {
        break;
      }
      m := m + 1;
    }
  }

  /**
   * The front-matter extraction block of `main` (main.go:40-63), with the
   * `goto research` retry written as a loop over the cursor `start` and the
   * marker loop of each pass done by FindEnd.
   */
  method Extract(source: seq<byte>, valid: seq<byte> -> bool)
    returns (found: bool, span: seq<byte>, body: seq<byte>)
    ensures found <==> Close(source, valid).Some?
    ensures span == Span(source, valid) && body == Body(source, valid)
    ensures !HasPrefix(source, Opening) ==> !found && body == source
    ensures found ==> valid(span) && IsMarker(source, 4 + |span|) && |body| + |span| + 8 == |source|
  {
    found, span, body := false, [], source;
    if !HasPrefix(source, Opening) {
      return;
    }
    var start := 4;
    while true
      invariant 4 <= start <= |source|
      invariant CloseFrom(source, valid, start) == Close(source, valid)
      decreases |source| - start
    {
      var end := FindEnd(source[start..]);
      if end == -1 {
        return;
      }
      if valid(source[4..start + end]) {
        found, span, body := true, source[4..start + end], source[start + end + 4..];
        return;
      }
      start := start + end + 4;
    }
  }

  // ---------------------------------------------------------------------------
  // Which candidate wins, stated without the cursor.

  /**
   * Offset `k` is a closing position the scan examines: every "\n---" at or
   * after offset 4, and every "\n..." that no later "\n---" follows.
   */
  ghost predicate Eligible(source: seq<byte>, k: int)
  {
    4 <= k &&
    (OccursAt(source, DashMarker, k) || (OccursAt(source, DotMarker, k) && Absent(source, DashMarker, k)))
  }

  /** Offset `k` is examined and the span before it passes the YAML check. */
  ghost predicate Accepts(source: seq<byte>, valid: seq<byte> -> bool, k: int)
  {
    Eligible(source, k) && valid(source[4..k])
  }

  /** No marker starts inside the last three bytes of another: those bytes are '-' or '.', not '\n'. */
  lemma NoMarkerInside(source: seq<byte>, k: int, j: int)
    requires IsMarker(source, k) && k < j < k + 4
    ensures !IsMarker(source, j)
  {
    assert source[j] == source[k..k + 4][j - k];
    if j + 4 <= |source| {
      NotMarkerAt(source, j);
    }
  }

  /** A marker needs a '\n' followed by '-' or '.'; an offset without them starts none. */
  lemma NotMarkerAt(source: seq<byte>, j: int)
    requires 0 <= j && j + 4 <= |source|
    requires source[j] != 10 || (source[j + 1] != 45 && source[j + 1] != 46)
    ensures !IsMarker(source, j)
  {
    assert source[j] == source[j..j + 4][0] && source[j + 1] == source[j..j + 4][1];
  }

  /** What one pass finds from the cursor `start`, in terms of the examined offsets. */
  lemma PassFindsFirstEligible(source: seq<byte>, start: nat)
    requires 4 <= start <= |source|
    ensures PassEnd(source[start..]) == -1 ==> forall j :: start <= j ==> !Eligible(source, j)
    ensures PassEnd(source[start..]) != -1 ==>
      var k := start + PassEnd(source[start..]);
      Eligible(source, k) && forall j :: start <= j < k ==> !Eligible(source, j)
  {
    IndexInSuffix(source, DashMarker, start);
    IndexInSuffix(source, DotMarker, start);
    var e := PassEnd(source[start..]);
    if e != -1 {
      assert FirstAt(source, DashMarker, start, start + e) ||
        (Absent(source, DashMarker, start) && FirstAt(source, DotMarker, start, start + e));
    }
  }

  /**
   * `r` is the leftmost accepted offset at or after `start`, or None when no
   * offset from `start` on is accepted.
   */
  ghost predicate LeftmostFrom(source: seq<byte>, valid: seq<byte> -> bool, start: int, r: Option<nat>)
  {
    match r
    case Some(k) => start <= k && Accepts(source, valid, k) && forall j :: start <= j < k ==> !Accepts(source, valid, j)
    case None => forall j :: start <= j ==> !Accepts(source, valid, j)
  }

  /** Rejecting the marker at `k` loses no candidate: nothing between `start` and `k + 4` is accepted. */
  lemma SkipRejected(source: seq<byte>, valid: seq<byte> -> bool, start: int, k: int, r: Option<nat>)
    requires start <= k && Eligible(source, k) && !valid(source[4..k])
    requires forall j :: start <= j < k ==> !Eligible(source, j)
    requires LeftmostFrom(source, valid, k + 4, r)
    ensures LeftmostFrom(source, valid, start, r)
  {
    forall j | k < j < k + 4 ensures !Eligible(source, j) {
      NoMarkerInside(source, k, j);
    }
  }

  /** From any cursor, the scan stops at the leftmost accepted offset, or finds none. */
  lemma {:induction false} CloseFromLeftmost(source: seq<byte>, valid: seq<byte> -> bool, start: nat)
    requires 4 <= start <= |source|
    decreases |source| - start
    ensures LeftmostFrom(source, valid, start, CloseFrom(source, valid, start))
  {
    PassFindsFirstEligible(source, start);
    var e := PassEnd(source[start..]);
    if e != -1 {
      var k := start + e;
      if !valid(source[4..k]) {
        CloseFromLeftmost(source, valid, k + 4);
        SkipRejected(source, valid, start, k, CloseFrom(source, valid, k + 4));
      }
    }
  }

  /**
   * The block closes at `k` exactly when the input opens with "---\n" and `k`
   * is the leftmost examined offset whose span passes the YAML check.
   */
  lemma CloseIsLeftmostAccepted(source: seq<byte>, valid: seq<byte> -> bool, k: int)
    ensures Close(source, valid) == Some(k) <==>
      HasPrefix(source, Opening) && Accepts(source, valid, k) &&
      forall j :: 4 <= j < k ==> !Accepts(source, valid, j)
  {
    if HasPrefix(source, Opening) {
      CloseFromLeftmost(source, valid, 4);
    }
  }

  /**
   * There is no front matter exactly when the input does not open with
   * "---\n" or no examined offset has a span that passes the YAML check.
   */
  lemma CloseNoneIffNoneAccepted(source: seq<byte>, valid: seq<byte> -> bool)
    ensures Close(source, valid).None? <==>
      !HasPrefix(source, Opening) || forall j :: 4 <= j ==> !Accepts(source, valid, j)
  {
    if HasPrefix(source, Opening) {
      CloseFromLeftmost(source, valid, 4);
    }
  }

  // ---------------------------------------------------------------------------
  // Marker preference.

  /**
   * A "\n---" whose span is valid always beats any "\n...", however much
   * nearer the "\n..." is: the block then closes at a "\n---" no later than it.
   */
  lemma DashPreferred(source: seq<byte>, valid: seq<byte> -> bool, j: int)
    requires HasPrefix(source, Opening)
    requires 4 <= j && OccursAt(source, DashMarker, j) && valid(source[4..j])
    ensures Close(source, valid).Some?
    ensures Close(source, valid).value <= j && OccursAt(source, DashMarker, Close(source, valid).value)
  {
    assert Accepts(source, valid, j);
    CloseNoneIffNoneAccepted(source, valid);
    var k := Close(source, valid).value;
    CloseIsLeftmostAccepted(source, valid, k);
  }

  /**
   * The block closes at a "\n..." only when no "\n---" follows it and every
   * "\n---" after the opening line was rejected by the YAML check.
   */
  lemma DotOnlyAsFallback(source: seq<byte>, valid: seq<byte> -> bool, k: nat)
    requires Close(source, valid) == Some(k) && !OccursAt(source, DashMarker, k)
    ensures OccursAt(source, DotMarker, k) && Absent(source, DashMarker, k)
    ensures forall j :: 4 <= j && OccursAt(source, DashMarker, j) ==> !valid(source[4..j])
  {
    CloseIsLeftmostAccepted(source, valid, k);
    forall j | 4 <= j && OccursAt(source, DashMarker, j) ensures !valid(source[4..j]) {
      assert Eligible(source, j);
      if j < k {
        assert !Accepts(source, valid, j);
      }
    }
  }

  // ---------------------------------------------------------------------------
  // Worked inputs.

  /** "---\nk: v\n---\nBody": the span is "k: v" and the body keeps the newline, "\nBody". */
  lemma BodyKeepsNewline(valid: seq<byte> -> bool)
    requires valid([107, 58, 32, 118])
    ensures var source: seq<byte> := [45, 45, 45, 10, 107, 58, 32, 118, 10, 45, 45, 45, 10, 66, 111, 100, 121];
      Span(source, valid) == [107, 58, 32, 118] && Body(source, valid) == [10, 66, 111, 100, 121]
  {
    var source: seq<byte> := [45, 45, 45, 10, 107, 58, 32, 118, 10, 45, 45, 45, 10, 66, 111, 100, 121];
    assert source[4..8] == [107, 58, 32, 118];
    assert source[8..12] == DashMarker;
    assert HasPrefix(source, Opening) && Accepts(source, valid, 8);
    forall j | 4 <= j < 8 ensures !Accepts(source, valid, j) {
      NotMarkerAt(source, j);
    }
    CloseIsLeftmostAccepted(source, valid, 8);
    assert Close(source, valid) == Some(8);
  }

  /** "---\n---\n": the search starts at offset 4, finds no marker, and the input passes through. */
  lemma OpeningTwiceIsNoFrontMatter(valid: seq<byte> -> bool)
    ensures var source: seq<byte> := [45, 45, 45, 10, 45, 45, 45, 10];
      Close(source, valid).None? && Body(source, valid) == source
  {
    var source: seq<byte> := [45, 45, 45, 10, 45, 45, 45, 10];
    forall j | 4 <= j ensures !Accepts(source, valid, j) {
      if j <= 4 { assert source[j] != 10; }
    }
    CloseNoneIffNoneAccepted(source, valid);
  }

  /**
   * "---\na\n...\nb\n---\nc" where both "a" and "a\n...\nb" pass the YAML
   * check: the block closes at the "\n---" at offset 11, not at the nearer
   * "\n..." at offset 5.
   */
  lemma NearerDotLoses(valid: seq<byte> -> bool)
    requires valid([97]) && valid([97, 10, 46, 46, 46, 10, 98])
    ensures var source: seq<byte> := [45, 45, 45, 10, 97, 10, 46, 46, 46, 10, 98, 10, 45, 45, 45, 10, 99];
      OccursAt(source, DotMarker, 5) && Close(source, valid) == Some(11) && Body(source, valid) == [10, 99]
  {
    var source: seq<byte> := [45, 45, 45, 10, 97, 10, 46, 46, 46, 10, 98, 10, 45, 45, 45, 10, 99];
    assert source[5..9] == DotMarker;
    assert source[11..15] == DashMarker;
    assert source[4..11] == [97, 10, 46, 46, 46, 10, 98];
    forall j | 4 <= j < 11 ensures !Accepts(source, valid, j) {
      if j == 5 {
        assert OccursAt(source, DashMarker, 11);
        assert !Absent(source, DashMarker, 5);
      } else {
        NotMarkerAt(source, j);
      }
    }
    CloseIsLeftmostAccepted(source, valid, 11);
  }

  /**
   * "---\n\n---\nk: v\n---\nb": the empty span before the first "\n---" has no
   * top-level node and is rejected, so the scan retries past that marker and
   * accepts "\n---\nk: v", a span that still starts at offset 4.
   */
  lemma RetryPastRejectedMarker(valid: seq<byte> -> bool)
    requires !valid([]) && valid([10, 45, 45, 45, 10, 107, 58, 32, 118])
    ensures var source: seq<byte> := [45, 45, 45, 10, 10, 45, 45, 45, 10, 107, 58, 32, 118, 10, 45, 45, 45, 10, 98];
      Close(source, valid) == Some(13) && Span(source, valid) == [10, 45, 45, 45, 10, 107, 58, 32, 118] &&
      Body(source, valid) == [10, 98]
  {
    var source: seq<byte> := [45, 45, 45, 10, 10, 45, 45, 45, 10, 107, 58, 32, 118, 10, 45, 45, 45, 10, 98];
    assert source[4..4] == [] && source[4..13] == [10, 45, 45, 45, 10, 107, 58, 32, 118];
    assert source[13..17] == DashMarker;
    assert HasPrefix(source, Opening) && Accepts(source, valid, 13);
    forall j | 4 <= j < 13 ensures !Accepts(source, valid, j) {
      if j == 4 {
        assert !valid(source[4..j]);
      } else {
        NotMarkerAt(source, j);
      }
    }
    CloseIsLeftmostAccepted(source, valid, 13);
    assert Close(source, valid) == Some(13);
  }
}
