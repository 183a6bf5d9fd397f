/**
 * The segmentation the reveal works on:
 * `raw.split(/(?=<section)/g).filter(Boolean)`.
 *
 * The separator is an empty look-ahead match, so `split` cuts the string
 * before every occurrence of `<section` except one at index 0 (a cut there
 * would produce an empty first piece, which the split algorithm of ECMAScript
 * skips by advancing). The marker is case-sensitive (no `i` flag).
 */
module Sections {

  const Marker: string := "<section"

  /** `<section` occurs in s at index i. */
  predicate MarkerAt(s: string, i: int)
  {
    0 <= i && i + |Marker| <= |s| && forall k :: 0 <= k < |Marker| ==> s[i + k] == Marker[k]
  }

  /** The concatenation of the parts, in order (`parts.join("")`). */
  function Concat(parts: seq<string>): string
  {
    if parts == [] then [] else parts[0] + Concat(parts[1..])
  }

  lemma {:induction false} ConcatAppend(xs: seq<string>, ys: seq<string>)
    ensures Concat(xs + ys) == Concat(xs) + Concat(ys)
  {
    if xs == [] {
      assert xs + ys == ys;
    } else {
      assert (xs + ys)[1..] == xs[1..] + ys;
      ConcatAppend(xs[1..], ys);
    }
  }

  /** Extending a run of parts by the next part appends that part to the concatenation. */
  lemma ConcatExtend(parts: seq<string>, lo: nat, hi: nat)
    requires lo <= hi < |parts|
    ensures Concat(parts[lo..hi + 1]) == Concat(parts[lo..hi]) + parts[hi]
  {
    assert parts[lo..hi + 1] == parts[lo..hi] + [parts[hi]];
    ConcatAppend(parts[lo..hi], [parts[hi]]);
    assert Concat([parts[hi]]) == parts[hi] + Concat([]);
  }

  /** Two occurrences of the marker are at least its length apart: '<' occurs in it only at index 0. */
  lemma MarkersDoNotOverlap(s: string, i: int, j: int)
    requires MarkerAt(s, i) && MarkerAt(s, j) && i < j
    ensures j >= i + |Marker|
  {
    assert s[j + 0] == Marker[0];
    assert forall d :: 0 < d < |Marker| ==> Marker[d] != Marker[0];
    var d := if j - i < |Marker| then j - i else 0;
    assert s[i + d] == Marker[d];
  }

  /** A segmentation of s: what the split promises about its parts. */
  ghost predicate Segments(s: string, parts: seq<string>)
  {
    && Concat(parts) == s
    && (forall k :: 0 <= k < |parts| ==> parts[k] != [])
    && (forall k :: 0 < k < |parts| ==> MarkerAt(parts[k], 0))
    && (forall k, j :: 0 <= k < |parts| && 0 < j ==> !MarkerAt(parts[k], j))
  }

  /**
   * The loop of ECMAScript's `RegExp.prototype[@@split]` for this separator:
   * the current piece starts at p, and q scans for the next position where the
   * look-ahead matches. A match at q == p is skipped (it would cut off an empty
   * piece); a match at q > p ends the piece s[p..q].
   */
  function SplitFrom(s: string, p: nat, q: nat): (parts: seq<string>)
    requires p <= q <= |s| && p < |s|
    requires forall i :: p < i < q ==> !MarkerAt(s, i)
    decreases |s| - q
    ensures |parts| >= 1
    ensures Concat(parts) == s[p..]
    ensures forall k :: 0 <= k < |parts| ==> parts[k] != []
    ensures forall k :: 0 < k < |parts| ==> MarkerAt(parts[k], 0)
    ensures forall k, j :: 0 <= k < |parts| && 0 < j ==> !MarkerAt(parts[k], j)
    ensures MarkerAt(s, p) ==> MarkerAt(parts[0], 0)
  {
    if q == |s| then
      var piece := s[p..];
      assert forall j :: 0 < j ==> MarkerAt(piece, j) ==> MarkerAt(s, p + j);
      [piece]
    else if p < q && MarkerAt(s, q) then
      var piece := s[p..q];
      var rest := SplitFrom(s, q, q + 1);
      assert forall j :: 0 < j ==> MarkerAt(piece, j) ==> MarkerAt(s, p + j);
      assert MarkerAt(s, p) ==> q >= p + |Marker| by {
        if MarkerAt(s, p) { MarkersDoNotOverlap(s, p, q); }
      }
      assert piece + s[q..] == s[p..];
      [piece] + rest
    else
      SplitFrom(s, p, q + 1)
  }

  /** The first part followed by all the others is the whole string. */
  lemma FirstAndRest(raw: string)
    requires raw != []
    ensures |Sections(raw)| >= 1
    ensures Sections(raw)[0] + Concat(Sections(raw)[1..]) == raw
  {
    var parts := Sections(raw);
    assert Concat(parts) == parts[0] + Concat(parts[1..]);
  }

  /** `s.split(/(?=<section)/g)`; splitting the empty string gives one empty piece. */
  function LookaheadSplit(s: string): (parts: seq<string>)
    ensures |parts| >= 1 && Concat(parts) == s
    ensures s == [] <==> parts == [[]]
    ensures s != [] ==> forall k :: 0 <= k < |parts| ==> parts[k] != []
  {
    if s == [] then
      assert Concat([[]]) == [] + Concat([]);
      [[]]
    else
      assert s[0..] == s;
      SplitFrom(s, 0, 0)
  }

  /** xs can be obtained from ys by deleting elements: xs keeps the order of ys. */
  ghost predicate SubsequenceOf(xs: seq<string>, ys: seq<string>)
    decreases |ys|
  {
    if xs == [] then true
    else if ys == [] then false
    else (xs[0] == ys[0] && SubsequenceOf(xs[1..], ys[1..])) || SubsequenceOf(xs, ys[1..])
  }

  /**
   * `.filter(Boolean)`: drop the empty strings, keep the rest in order. The
   * result is a subsequence of the input holding every non-empty element as
   * often as the input does and no empty one; only one subsequence does that.
   */
  function NonEmpty(parts: seq<string>): (r: seq<string>)
    ensures |r| <= |parts|
    ensures forall k :: 0 <= k < |r| ==> r[k] != [] && r[k] in parts
    ensures SubsequenceOf(r, parts)
    ensures forall x :: multiset(r)[x] == if x == [] then 0 else multiset(parts)[x]
    ensures Concat(r) == Concat(parts)
    ensures (forall k :: 0 <= k < |parts| ==> parts[k] != []) ==> r == parts
  {
    if parts == [] then []
    else
      assert parts == [parts[0]] + parts[1..];
      assert multiset(parts) == multiset{parts[0]} + multiset(parts[1..]);
      var rest := NonEmpty(parts[1..]);
      if parts[0] == [] then rest
      else
        assert ([parts[0]] + rest)[1..] == rest;
        assert multiset([parts[0]] + rest) == multiset{parts[0]} + multiset(rest);
        [parts[0]] + rest
  }

  /** A subsequence holds each element at most as often as the sequence it is taken from. */
  lemma {:induction false} SubsequenceCount(xs: seq<string>, ys: seq<string>)
    requires SubsequenceOf(xs, ys)
    decreases |ys|
    ensures multiset(xs) <= multiset(ys)
  {
    if xs != [] {
      assert ys == [ys[0]] + ys[1..];
      if xs[0] == ys[0] && SubsequenceOf(xs[1..], ys[1..]) {
        assert xs == [xs[0]] + xs[1..];
        SubsequenceCount(xs[1..], ys[1..]);
      } else {
        SubsequenceCount(xs, ys[1..]);
      }
    }
  }

  /**
   * `filter(Boolean)` is determined by what `NonEmpty` promises: any
   * subsequence of the parts holding every non-empty part as often as they do,
   * and no empty one, is `NonEmpty(parts)`.
   */
  lemma {:induction false} NonEmptyUnique(parts: seq<string>, r: seq<string>)
    requires SubsequenceOf(r, parts)
    requires forall x :: multiset(r)[x] == if x == [] then 0 else multiset(parts)[x]
    decreases |parts|
    ensures r == NonEmpty(parts)
  {
    if parts != [] {
      var p := parts[0];
      assert parts == [p] + parts[1..];
      if p == [] {
        if r != [] {
          assert r[0] in multiset(r);
        }
        NonEmptyUnique(parts[1..], r);
      } else if r != [] && r[0] == p && SubsequenceOf(r[1..], parts[1..]) {
        assert r == [r[0]] + r[1..];
        assert multiset(r) == multiset{p} + multiset(r[1..]);
        assert multiset(parts) == multiset{p} + multiset(parts[1..]);
        forall x ensures multiset(r[1..])[x] == if x == [] then 0 else multiset(parts[1..])[x] {
          assert multiset(r)[x] == multiset{p}[x] + multiset(r[1..])[x];
          assert multiset(parts)[x] == multiset{p}[x] + multiset(parts[1..])[x];
        }
        NonEmptyUnique(parts[1..], r[1..]);
      } else {
        assert multiset(parts)[p] == multiset(parts[1..])[p] + 1;
        assert multiset(r)[p] == multiset(parts)[p];
        SubsequenceCount(r, parts[1..]);
        assert false;
      }
    }
  }

  /**
   * The parts the reveal appends one by one. They are non-empty, concatenate
   * back to `raw`, each one after the first starts with `<section`, and none
   * holds `<section` anywhere but at its start. On a non-empty string the
   * filter removes nothing.
   */
  function Sections(raw: string): (parts: seq<string>)
    ensures Segments(raw, parts)
    ensures raw != [] ==> |parts| >= 1 && parts == LookaheadSplit(raw)
    ensures raw == [] ==> parts == []
  {
    NonEmpty(LookaheadSplit(raw))
  }

  /**
   * The split is the only segmentation: any list of parts with the properties
   * `Sections` promises is `Sections(raw)`.
   */
  lemma SectionsUnique(raw: string, parts: seq<string>)
    requires Segments(raw, parts)
    ensures parts == Sections(raw)
  {
    if raw != [] {
      assert raw[0..] == raw;
      SplitFromUnique(raw, 0, 0, parts);
    }
  }

  lemma {:induction false} SplitFromUnique(s: string, p: nat, q: nat, parts: seq<string>)
    requires p <= q <= |s| && p < |s|
    requires forall i :: p < i < q ==> !MarkerAt(s, i)
    requires Segments(s[p..], parts)
    decreases |s| - q
    ensures parts == SplitFrom(s, p, q)
  {
    if q == |s| {
      LastPiece(s, p, parts);
    } else if p < q && MarkerAt(s, q) {
      CutAtMarker(s, p, q, parts);
      SplitFromUnique(s, q, q + 1, parts[1..]);
      assert parts == [parts[0]] + parts[1..];
    } else {
      SplitFromUnique(s, p, q + 1, parts);
    }
  }

  /** With no marker after p, a segmentation of s[p..] is the single part s[p..]. */
  lemma LastPiece(s: string, p: nat, parts: seq<string>)
    requires p < |s|
    requires forall i :: p < i < |s| ==> !MarkerAt(s, i)
    requires Segments(s[p..], parts)
    ensures parts == [s[p..]]
  {
    FirstCut(s, p, parts);
    if |parts| == 1 {
      assert s[p..p + |parts[0]|] == s[p..];
    }
  }

  /** The first part of a segmentation of s[p..] ends at the first marker after p. */
  lemma CutAtMarker(s: string, p: nat, q: nat, parts: seq<string>)
    requires p < q < |s|
    requires forall i :: p < i < q ==> !MarkerAt(s, i)
    requires MarkerAt(s, q)
    requires Segments(s[p..], parts)
    ensures |parts| >= 2 && parts[0] == s[p..q]
    ensures Segments(s[q..], parts[1..])
  {
    FirstCut(s, p, parts);
    var c := |parts[0]|;
    if q - p < c < q - p + |Marker| {
      assert |parts| >= 2;
      MarkersDoNotOverlap(s, q, p + c);
    }
  }

  /** The first part of a segmentation of s[p..], and what follows it. */
  lemma FirstCut(s: string, p: nat, parts: seq<string>)
    requires p < |s|
    requires Segments(s[p..], parts)
    ensures |parts| >= 1 && p + |parts[0]| <= |s|
    ensures parts[0] == s[p..p + |parts[0]|]
    ensures Segments(s[p + |parts[0]|..], parts[1..])
    ensures |parts| >= 2 ==> MarkerAt(s, p + |parts[0]|)
    ensures |parts| == 1 ==> p + |parts[0]| == |s|
    ensures forall i :: p < i && i + |Marker| <= p + |parts[0]| ==> !MarkerAt(s, i)
  {
    assert parts != [];
    var c := |parts[0]|;
    assert s[p..] == parts[0] + Concat(parts[1..]);
    assert parts[0] == s[p..p + c];
    assert Concat(parts[1..]) == s[p + c..];
    if |parts| >= 2 {
      var rest := parts[1..];
      assert rest[0] == parts[1];
      assert Concat(rest) == parts[1] + Concat(rest[1..]);
      assert MarkerAt(parts[1], 0);
      forall k | 0 <= k < |Marker| ensures s[p + c + k] == Marker[k] {
        assert s[p + c + k] == Concat(rest)[k] == parts[1][0 + k];
      }
    } else {
      assert Concat(parts[1..]) == [];
    }
    forall i | p < i && i + |Marker| <= p + c ensures !MarkerAt(s, i) {
      assert !MarkerAt(parts[0], i - p);
      var k :| 0 <= k < |Marker| && parts[0][i - p + k] != Marker[k];
      assert s[i + k] == parts[0][i - p + k];
    }
  }

  /** No marker starts at index j of x or later: a check that evaluates on literals. */
  predicate NoMarkerFrom(x: string, j: nat)
    decreases |x| - j
  {
    j + |Marker| > |x| || ((x[j] != Marker[0] || x[j + 1] != Marker[1]) && NoMarkerFrom(x, j + 1))
  }

  lemma {:induction false} NoMarkerFromSound(x: string, j: nat, i: int)
    requires NoMarkerFrom(x, j) && j <= i
    decreases i - j
    ensures !MarkerAt(x, i)
  {
    if j + |Marker| <= |x| && i != j {
      NoMarkerFromSound(x, j + 1, i);
    }
  }

  /** Two sections split into exactly two parts, each starting with `<section`. */
  lemma ExampleTwoSections()
    ensures Sections("<section>A</section><section>B</section>")
         == ["<section>A</section>", "<section>B</section>"]
  {
    TwoSectionsSegment();
    SectionsUnique("<section>A</section><section>B</section>",
                   ["<section>A</section>", "<section>B</section>"]);
  }

  lemma TwoSectionsSegment()
    ensures Segments("<section>A</section><section>B</section>",
                     ["<section>A</section>", "<section>B</section>"])
  {
    var a, b := "<section>A</section>", "<section>B</section>";
    assert [a, b][1..] == [b];
    assert Concat([b]) == b + Concat([]);
    assert a + b == "<section>A</section><section>B</section>";
    assert MarkerAt(b, 0);
    assert NoMarkerFrom(a, 1);
    assert NoMarkerFrom(b, 1);
    NoInteriorMarker(a);
    NoInteriorMarker(b);
  }

  lemma NoInteriorMarker(x: string)
    requires NoMarkerFrom(x, 1)
    ensures forall j :: 0 < j ==> !MarkerAt(x, j)
  {
    forall j | 0 < j ensures !MarkerAt(x, j) {
      NoMarkerFromSound(x, 1, j);
    }
  }
}
