// The pieces of Ruby's String API that the Accept header parser relies on:
// `split` with a regular expression of the form /\s*SEP\s*/, `split` with a
// literal string, `join` and `start_with?`.
module RubyText {

  import opened Wrappers

  /** Ruby's `\s`: space, tab, line feed, vertical tab, form feed, carriage return. */
  predicate IsSpace(c: char) {
    c in Spaces
  }

  const Spaces: set<char> := {' ', '\t', '\n', '\U{B}', '\U{C}', '\r'}

  /** `s.start_with?(prefix)` */
  predicate StartsWith(s: string, prefix: string) {
    |prefix| <= |s| && s[..|prefix|] == prefix
  }

  /** Neither end of `s` is whitespace. */
  predicate Unpadded(s: string) {
    s == [] || (!IsSpace(s[0]) && !IsSpace(s[|s| - 1]))
  }

  /** `s` without its leading run of whitespace. */
  function TrimStart(s: string): (r: string)
    ensures |r| <= |s| && r == s[|s| - |r|..]
    ensures r == [] || !IsSpace(r[0])
    decreases |s|
  {
    if s != [] && IsSpace(s[0]) then TrimStart(s[1..]) else s
  }

  /** `s` without its trailing run of whitespace. */
  function TrimEnd(s: string): (r: string)
    ensures |r| <= |s| && r == s[..|r|]
    ensures r == [] || !IsSpace(r[|r| - 1])
    decreases |s|
  {
    if s != [] && IsSpace(s[|s| - 1]) then TrimEnd(s[..|s| - 1]) else s
  }

  /** Only whitespace is removed from the start. */
  lemma {:induction false} TrimStartRemovesSpace(s: string)
    ensures forall i :: 0 <= i < |s| - |TrimStart(s)| ==> IsSpace(s[i])
    decreases |s|
  {
    if s != [] && IsSpace(s[0]) {
      TrimStartRemovesSpace(s[1..]);
      assert forall i :: 1 <= i < |s| ==> s[1..][i - 1] == s[i];
    }
  }

  /** Only whitespace is removed from the end. */
  lemma {:induction false} TrimEndRemovesSpace(s: string)
    ensures forall i :: |TrimEnd(s)| <= i < |s| ==> IsSpace(s[i])
    decreases |s|
  {
    if s != [] && IsSpace(s[|s| - 1]) {
      TrimEndRemovesSpace(s[..|s| - 1]);
      assert forall i :: 0 <= i < |s| - 1 ==> s[..|s| - 1][i] == s[i];
    }
  }

  /** `parts.join(glue)` */
  function Join(parts: seq<string>, glue: string): (r: string)
    ensures parts != [] ==> parts[0] <= r
  {
    if parts == [] then ""
    else if |parts| == 1 then parts[0]
    else parts[0] + glue + Join(parts[1..], glue)
  }

  /**
   * The text between consecutive occurrences of `sep`, all of them kept
   * (Ruby's `s.split(sep, -1)` for a one-character separator).
   */
  function Pieces(s: string, sep: char): (r: seq<string>)
    ensures |r| >= 1
    ensures forall i :: 0 <= i < |r| ==> sep !in r[i]
    decreases |s|
  {
    if s == [] then [""]
    else
      var rest := Pieces(s[1..], sep);
      if s[0] == sep then [""] + rest else [[s[0]] + rest[0]] + rest[1..]
  }

  // The whitespace that the regular expression /\s*SEP\s*/ consumes around
  // each separator: every piece but the first loses its leading whitespace and
  // every piece but the last its trailing whitespace.
  function TrimEdges(ps: seq<string>): (r: seq<string>)
    ensures |r| == |ps|
  {
    seq(|ps|, i requires 0 <= i < |ps| => TrimEdge(ps[i], i == 0, i == |ps| - 1))
  }

  /** One piece of `TrimEdges`: the first piece keeps its leading and the last its trailing whitespace. */
  function TrimEdge(p: string, first: bool, last: bool): string {
    var q := if first then p else TrimStart(p);
    if last then q else TrimEnd(q)
  }

  /** Ruby's `split` without a limit removes the empty strings at the end. */
  function DropTrailingEmpty(ps: seq<string>): (r: seq<string>)
    ensures r <= ps
    ensures r == [] || r[|r| - 1] != ""
    ensures forall i :: |r| <= i < |ps| ==> ps[i] == ""
  {
    if ps != [] && ps[|ps| - 1] == "" then DropTrailingEmpty(ps[..|ps| - 1]) else ps
  }

  /** No piece contains `c`. */
  predicate Lacks(ps: seq<string>, c: char) {
    forall i :: 0 <= i < |ps| ==> c !in ps[i]
  }

  /** No piece but the first starts, and none but the last ends, with whitespace. */
  predicate InnerUnpadded(ps: seq<string>) {
    && (forall i :: 0 < i < |ps| ==> ps[i] == [] || !IsSpace(ps[i][0]))
    && (forall i :: 0 <= i < |ps| - 1 ==> ps[i] == [] || !IsSpace(ps[i][|ps[i]| - 1]))
  }

  // Ruby's s.split(/\s*SEP\s*/) for the one-character separator `sep`.
  function Split(s: string, sep: char): (r: seq<string>)
    ensures Lacks(r, sep) && InnerUnpadded(r)
    ensures r == [] || r[|r| - 1] != ""
  {
    var ps := Pieces(s, sep);
    var r := DropTrailingEmpty(TrimEdges(ps));
    TrimEdgesShape(ps, r, sep);
    r
  }

  /** Leading trimmed pieces are free of the separator and have no whitespace at their inner edges. */
  lemma TrimEdgesShape(ps: seq<string>, r: seq<string>, sep: char)
    requires forall i :: 0 <= i < |ps| ==> sep !in ps[i]
    requires r <= TrimEdges(ps)
    ensures Lacks(r, sep) && InnerUnpadded(r)
  {
    forall i | 0 <= i < |r|
      ensures sep !in r[i]
      ensures 0 < i ==> r[i] == [] || !IsSpace(r[i][0])
      ensures i < |r| - 1 ==> r[i] == [] || !IsSpace(r[i][|r[i]| - 1])
    {
      assert r[i] == TrimEdges(ps)[i] == TrimEdge(ps[i], i == 0, i == |ps| - 1);
      TrimEdgeShape(ps[i], i == 0, i == |ps| - 1, sep);
    }
  }

  /** One trimmed piece: still free of the separator, and without whitespace at its inner edges. */
  lemma TrimEdgeShape(p: string, first: bool, last: bool, sep: char)
    requires sep !in p
    ensures var t := TrimEdge(p, first, last);
      && sep !in t
      && (!first ==> t == [] || !IsSpace(t[0]))
      && (!last ==> t == [] || !IsSpace(t[|t| - 1]))
  {
    TrimKeepsOut(p, sep);
    var a := TrimStart(p);
    if first && last {
      assert TrimEdge(p, first, last) == p;
    } else if first {
      assert TrimEdge(p, first, last) == TrimEnd(p);
    } else if last {
      assert TrimEdge(p, first, last) == a;
    } else {
      assert TrimEdge(p, first, last) == TrimEnd(a);
      TrimEndKeepsStart(a);
    }
  }

  /** Trimming the end of a string does not change how it starts. */
  lemma TrimEndKeepsStart(a: string)
    requires a == [] || !IsSpace(a[0])
    ensures TrimEnd(a) == [] || !IsSpace(TrimEnd(a)[0])
  {
    var t := TrimEnd(a);
    if t != [] {
      assert t[0] == a[0];
    }
  }

  /** Trimming removes characters, so a character absent before is absent after. */
  lemma TrimKeepsOut(p: string, c: char)
    requires c !in p
    ensures c !in TrimStart(p) && c !in TrimEnd(p) && c !in TrimEnd(TrimStart(p))
  {
    SliceKeepsOut(p, |p| - |TrimStart(p)|, |p|, c);
    SliceKeepsOut(p, 0, |TrimEnd(p)|, c);
    SliceKeepsOut(TrimStart(p), 0, |TrimEnd(TrimStart(p))|, c);
  }

  /** A character absent from a string is absent from each of its slices. */
  lemma SliceKeepsOut(s: string, lo: int, hi: int, c: char)
    requires 0 <= lo <= hi <= |s| && c !in s
    ensures c !in s[lo..hi]
  {
    assert forall k :: lo <= k < hi ==> s[lo..hi][k - lo] == s[k];
  }

  /**
   * The pieces of `s` between the occurrences of `pat` found scanning from the
   * left without overlap, all of them kept (Ruby's `s.split(pat, -1)` for a
   * literal string pattern).
   */
  function PiecesAround(s: string, pat: string): (r: seq<string>)
    requires pat != []
    ensures |r| >= 1 && r[0] <= s
    ensures forall i :: 0 <= i < |r| ==> Free(r[i], pat)
    decreases |s|
  {
    if |s| < |pat| then [s]
    else if s[..|pat|] == pat then [""] + PiecesAround(s[|pat|..], pat)
    else
      var rest := PiecesAround(s[1..], pat);
      var first := [s[0]] + rest[0];
      FreeExtend(s, rest[0], pat);
      assert forall i :: 1 <= i < |rest| ==> ([first] + rest[1..])[i] == rest[i];
      [first] + rest[1..]
  }

  /**
   * A piece that starts a string is still free of the pattern once the
   * string's first character is put back, if the string does not start with
   * the pattern.
   */
  lemma FreeExtend(s: string, piece: string, pat: string)
    requires pat != [] && |pat| <= |s| && s[..|pat|] != pat
    requires piece <= s[1..] && Free(piece, pat)
    ensures [s[0]] + piece <= s && Free([s[0]] + piece, pat)
  {
    var x := [s[0]] + piece;
    assert x[1..] == piece;
    assert x == s[..|x|];
    if |pat| <= |x| {
      assert x[..|pat|] == s[..|pat|];
    }
  }

  /** The last non-empty piece: Ruby's `.last` on the result of a `split` without a limit. */
  function LastNonEmpty(ps: seq<string>): (r: Option<string>)
    ensures r.None? <==> forall i :: 0 <= i < |ps| ==> ps[i] == ""
    ensures r.Some? ==> exists i :: 0 <= i < |ps| && ps[i] == r.value != "" &&
                          forall j :: i < j < |ps| ==> ps[j] == ""
  {
    var k := LastNonEmptyIndex(ps);
    if k < 0 then None else Some(ps[k])
  }

  /** The index of the last non-empty piece, or -1 when every piece is empty. */
  function LastNonEmptyIndex(ps: seq<string>): (k: int)
    ensures -1 <= k < |ps| && (0 <= k ==> ps[k] != "")
    ensures forall j :: k < j < |ps| ==> ps[j] == ""
  {
    if ps == [] then -1
    else if ps[|ps| - 1] != "" then |ps| - 1
    else
      var init := ps[..|ps| - 1];
      assert forall j :: 0 <= j < |init| ==> init[j] == ps[j];
      LastNonEmptyIndex(init)
  }

  /** `pat` does not occur anywhere in `s`. */
  predicate Free(s: string, pat: string)
    decreases |s|
  {
    |s| < |pat| || (s[..|pat|] != pat && Free(s[1..], pat))
  }

  /** Pieces that `Split` hands back unchanged after a `Join` whose glue is `sep` with whitespace on either side. */
  predicate Canonical(parts: seq<string>, sep: char) {
    && (forall i :: 0 <= i < |parts| ==> sep !in parts[i] && Unpadded(parts[i]))
    && (parts == [] || parts[|parts| - 1] != "")
  }

  lemma JoinCons(a: string, tail: seq<string>, glue: string)
    ensures Join([a] + tail, glue) == if tail == [] then a else a + glue + Join(tail, glue)
  {
    assert ([a] + tail)[1..] == tail;
  }

  /** Joining the pieces with the separator gives back the original string. */
  lemma {:induction false} JoinPieces(s: string, sep: char)
    ensures Join(Pieces(s, sep), [sep]) == s
    decreases |s|
  {
    if s != [] {
      var rest := Pieces(s[1..], sep);
      JoinPieces(s[1..], sep);
      if s[0] == sep {
        JoinCons("", rest, [sep]);
      } else {
        GlueFirst([s[0]], rest, [sep]);
        assert [s[0]] + s[1..] == s;
      }
    }
  }

  /** Joining the pieces with the pattern gives back the original string. */
  lemma {:induction false} JoinPiecesAround(s: string, pat: string)
    requires pat != []
    ensures Join(PiecesAround(s, pat), pat) == s
    decreases |s|
  {
    if |s| < |pat| {
    } else if s[..|pat|] == pat {
      var rest := PiecesAround(s[|pat|..], pat);
      JoinPiecesAround(s[|pat|..], pat);
      JoinCons("", rest, pat);
      assert Join(PiecesAround(s, pat), pat) == pat + s[|pat|..];
      assert s == s[..|pat|] + s[|pat|..];
    } else {
      var rest := PiecesAround(s[1..], pat);
      JoinPiecesAround(s[1..], pat);
      GlueFirst([s[0]], rest, pat);
      assert [s[0]] + s[1..] == s;
    }
  }

  /** Gluing a prefix onto the first part prefixes the joined string. */
  lemma GlueFirst(x: string, parts: seq<string>, glue: string)
    requires parts != []
    ensures Join([x + parts[0]] + parts[1..], glue) == x + Join(parts, glue)
  {
    JoinCons(x + parts[0], parts[1..], glue);
    JoinCons(parts[0], parts[1..], glue);
    assert parts == [parts[0]] + parts[1..];
  }

  /** A string in which the pattern never occurs is a single piece. */
  lemma {:induction false} PiecesAroundFree(s: string, pat: string)
    requires pat != [] && Free(s, pat)
    ensures PiecesAround(s, pat) == [s]
    decreases |s|
  {
    if |pat| <= |s| {
      PiecesAroundFree(s[1..], pat);
      assert [s[0]] + s[1..] == s;
    }
  }

  /** Splitting on a separator that is absent yields the string itself, or nothing when it is empty. */
  lemma {:induction false} SplitWithoutSeparator(s: string, sep: char)
    requires sep !in s
    ensures Split(s, sep) == if s == [] then [] else [s]
  {
    PiecesOfAppend(s, [], sep);
    assert s + [] == s;
  }

  /** A separator-free prefix is glued onto the first piece of what follows. */
  lemma {:induction false} PiecesOfAppend(x: string, y: string, sep: char)
    requires sep !in x
    ensures Pieces(x + y, sep) == [x + Pieces(y, sep)[0]] + Pieces(y, sep)[1..]
    decreases |x|
  {
    if x == [] {
      assert x + y == y;
      assert x + Pieces(y, sep)[0] == Pieces(y, sep)[0];
      assert Pieces(y, sep) == [Pieces(y, sep)[0]] + Pieces(y, sep)[1..];
    } else {
      assert (x + y)[1..] == x[1..] + y;
      PiecesOfAppend(x[1..], y, sep);
      assert [x[0]] + (x[1..] + Pieces(y, sep)[0]) == x + Pieces(y, sep)[0];
    }
  }

  /** Every character of `w` is whitespace (the `\s*` runs around a separator). */
  predicate AllSpace(w: string) {
    forall i :: 0 <= i < |w| ==> IsSpace(w[i])
  }

  /** A part as it stands between separators: behind `w2` unless first, before `w1` unless last. */
  function Framed(p: string, first: bool, last: bool, w1: string, w2: string): string {
    (if first then "" else w2) + p + (if last then "" else w1)
  }

  /** A separator that is not whitespace does not occur in a whitespace run. */
  lemma SpaceLacks(w: string, sep: char)
    requires AllSpace(w) && !IsSpace(sep)
    ensures sep !in w
  {
  }

  /** The whitespace run at position `i` of `ws`; a run that is not given is empty. */
  function Run(ws: seq<string>, i: int): string {
    if 0 <= i < |ws| then ws[i] else ""
  }

  /** The runs after the first one. */
  function Rest(ws: seq<string>): seq<string> {
    if ws == [] then [] else ws[1..]
  }

  /** Every run is whitespace. */
  predicate AllSpaces(ws: seq<string>) {
    forall i :: 0 <= i < |ws| ==> AllSpace(ws[i])
  }

  /**
   * `parts` joined by the separator, with its own whitespace on either side
   * of each separator: `Run(w1s, i)` before and `Run(w2s, i)` after the
   * separator that follows part `i`.
   */
  function Glued(parts: seq<string>, sep: char, w1s: seq<string>, w2s: seq<string>): string
    decreases |parts|
  {
    if parts == [] then ""
    else if |parts| == 1 then parts[0]
    else parts[0] + Run(w1s, 0) + [sep] + Run(w2s, 0) + Glued(parts[1..], sep, Rest(w1s), Rest(w2s))
  }

  lemma RunRest(ws: seq<string>, j: int)
    requires j >= 0
    ensures Run(Rest(ws), j) == Run(ws, j + 1)
  {
  }

  /** Every run of a list of whitespace runs is whitespace, and so is every run after the first. */
  lemma RunSpace(ws: seq<string>, i: int)
    requires AllSpaces(ws)
    ensures AllSpace(Run(ws, i)) && AllSpaces(Rest(ws))
  {
  }

  /**
   * The pieces of a glued string: every part framed by the whitespace runs
   * on its inner sides.
   */
  lemma {:induction false} PiecesOfGlued(parts: seq<string>, sep: char, w1s: seq<string>, w2s: seq<string>)
    requires |parts| >= 1
    requires forall i :: 0 <= i < |parts| ==> sep !in parts[i] && sep !in Run(w1s, i) && sep !in Run(w2s, i)
    ensures |Pieces(Glued(parts, sep, w1s, w2s), sep)| == |parts|
    ensures forall i :: 0 <= i < |parts| ==>
              Pieces(Glued(parts, sep, w1s, w2s), sep)[i] ==
              Framed(parts[i], i == 0, i == |parts| - 1, Run(w1s, i), Run(w2s, i - 1))
    decreases |parts|
  {
    if |parts| == 1 {
      PiecesOfAppend(parts[0], [], sep);
      assert parts[0] + [] == parts[0] == Framed(parts[0], true, true, Run(w1s, 0), Run(w2s, -1));
    } else {
      var tail := Glued(parts[1..], sep, Rest(w1s), Rest(w2s));
      forall i | 0 <= i < |parts| - 1
        ensures sep !in parts[1..][i] && sep !in Run(Rest(w1s), i) && sep !in Run(Rest(w2s), i)
      {
        RunRest(w1s, i);
        RunRest(w2s, i);
      }
      PiecesOfGlued(parts[1..], sep, Rest(w1s), Rest(w2s));
      var pt := Pieces(tail, sep);
      var head := parts[0] + Run(w1s, 0);
      var ps := Pieces(Glued(parts, sep, w1s, w2s), sep);
      assert ps == [head] + ([Run(w2s, 0) + pt[0]] + pt[1..]) by {
        assert Glued(parts, sep, w1s, w2s) == head + ([sep] + (Run(w2s, 0) + tail));
        PiecesAcrossGlue(head, Run(w2s, 0), tail, sep);
      }
      FramedStep(parts, pt, ps, w1s, w2s);
    }
  }

  /** The inductive step of `PiecesOfGlued`: framing the parts behind the first one shifts by one. */
  lemma FramedStep(parts: seq<string>, pt: seq<string>, ps: seq<string>, w1s: seq<string>, w2s: seq<string>)
    requires |parts| >= 2 && |pt| == |parts| - 1
    requires forall i :: 0 <= i < |pt| ==>
               pt[i] == Framed(parts[1..][i], i == 0, i == |pt| - 1, Run(Rest(w1s), i), Run(Rest(w2s), i - 1))
    requires ps == [parts[0] + Run(w1s, 0)] + ([Run(w2s, 0) + pt[0]] + pt[1..])
    ensures |ps| == |parts|
    ensures forall i :: 0 <= i < |parts| ==>
              ps[i] == Framed(parts[i], i == 0, i == |parts| - 1, Run(w1s, i), Run(w2s, i - 1))
  {
    forall i | 0 <= i < |parts|
      ensures ps[i] == Framed(parts[i], i == 0, i == |parts| - 1, Run(w1s, i), Run(w2s, i - 1))
    {
      if i == 0 {
        assert ps[0] == "" + parts[0] + Run(w1s, 0);
      } else {
        assert parts[1..][i - 1] == parts[i];
        assert ps[i] == if i == 1 then Run(w2s, 0) + pt[0] else pt[i - 1];
        ShiftFramed(parts[i], i - 1, |pt|, w1s, w2s, pt[i - 1], ps[i]);
      }
    }
  }

  /** A part framed at position `k` behind the first part sits at position `k + 1` of the whole. */
  lemma ShiftFramed(p: string, k: int, n: int, w1s: seq<string>, w2s: seq<string>, x: string, y: string)
    requires 0 <= k < n
    requires x == Framed(p, k == 0, k == n - 1, Run(Rest(w1s), k), Run(Rest(w2s), k - 1))
    requires y == if k == 0 then Run(w2s, 0) + x else x
    ensures y == Framed(p, false, k == n - 1, Run(w1s, k + 1), Run(w2s, k))
  {
    RunRest(w1s, k);
    if k > 0 {
      RunRest(w2s, k - 1);
    }
  }

  /** The pieces around one separator: `a` before it, and `w2` glued onto the first piece behind it. */
  lemma PiecesAcrossGlue(a: string, w2: string, tail: string, sep: char)
    requires sep !in a && sep !in w2
    ensures Pieces(a + ([sep] + (w2 + tail)), sep) ==
              [a] + ([w2 + Pieces(tail, sep)[0]] + Pieces(tail, sep)[1..])
  {
    var z := w2 + tail;
    PiecesOfAppend(a, [sep] + z, sep);
    assert ([sep] + z)[1..] == z;
    assert Pieces([sep] + z, sep) == [""] + Pieces(z, sep);
    PiecesOfAppend(w2, tail, sep);
    assert a + "" == a;
  }

  /** Whitespace in front does not survive `TrimStart`. */
  lemma {:induction false} TrimStartSpace(w: string, x: string)
    requires AllSpace(w)
    ensures TrimStart(w + x) == TrimStart(x)
    decreases |w|
  {
    if w == [] {
      assert w + x == x;
    } else {
      assert (w + x)[1..] == w[1..] + x;
      TrimStartSpace(w[1..], x);
    }
  }

  /** Whitespace behind does not survive `TrimEnd`. */
  lemma {:induction false} TrimEndSpace(x: string, w: string)
    requires AllSpace(w)
    ensures TrimEnd(x + w) == TrimEnd(x)
    decreases |w|
  {
    if w == [] {
      assert x + w == x;
    } else {
      var v := w[..|w| - 1];
      assert (x + w)[..|x + w| - 1] == x + v;
      TrimEndSpace(x, v);
    }
  }

  /** An unpadded part is left alone by trimming. */
  lemma TrimUnpadded(p: string)
    requires Unpadded(p)
    ensures TrimStart(p) == p && TrimEnd(p) == p
  {
  }

  /** Trailing whitespace behind an unpadded part is all that `TrimEnd` removes. */
  lemma TrimEndFramed(p: string, e: string)
    requires Unpadded(p) && AllSpace(e)
    ensures TrimEnd(p + e) == p
  {
    TrimEndSpace(p, e);
    TrimUnpadded(p);
  }

  /**
   * Leading whitespace in front of an unpadded part is all that `TrimStart`
   * removes, unless the part is empty and only whitespace remains.
   */
  lemma TrimStartFramed(w: string, p: string, e: string)
    requires Unpadded(p) && AllSpace(w) && AllSpace(e)
    ensures TrimStart(w + (p + e)) == if p == [] then [] else p + e
  {
    TrimStartSpace(w, p + e);
    if p == [] {
      assert p + e == e + [];
      TrimStartSpace(e, []);
    } else {
      assert (p + e)[0] == p[0];
    }
  }

  /** A framed unpadded part, trimmed as a piece in the same position, is the part. */
  lemma TrimFramed(p: string, first: bool, last: bool, w1: string, w2: string)
    requires Unpadded(p) && AllSpace(w1) && AllSpace(w2)
    ensures TrimEdge(Framed(p, first, last, w1, w2), first, last) == p
  {
    var e := if last then "" else w1;
    var f := Framed(p, first, last, w1, w2);
    if first {
      assert f == p + e;
      TrimEndFramed(p, e);
    } else {
      assert f == w2 + (p + e);
      TrimStartFramed(w2, p, e);
      TrimEndFramed(p, e);
    }
  }

  /** Trimming the pieces of a canonical glued string leaves exactly the parts. */
  lemma {:induction false} TrimEdgesOfGlued(parts: seq<string>, sep: char, w1s: seq<string>, w2s: seq<string>)
    requires Canonical(parts, sep) && !IsSpace(sep) && AllSpaces(w1s) && AllSpaces(w2s) && parts != []
    ensures TrimEdges(Pieces(Glued(parts, sep, w1s, w2s), sep)) == parts
  {
    forall i | 0 <= i < |parts| ensures sep !in parts[i] && sep !in Run(w1s, i) && sep !in Run(w2s, i) {
      RunSpace(w1s, i);
      RunSpace(w2s, i);
      SpaceLacks(Run(w1s, i), sep);
      SpaceLacks(Run(w2s, i), sep);
    }
    var ps := Pieces(Glued(parts, sep, w1s, w2s), sep);
    PiecesOfGlued(parts, sep, w1s, w2s);
    var t := TrimEdges(ps);
    forall i | 0 <= i < |parts| ensures t[i] == parts[i] {
      assert t[i] == TrimEdge(ps[i], i == 0, i == |ps| - 1);
      RunSpace(w1s, i);
      RunSpace(w2s, i - 1);
      TrimFramed(parts[i], i == 0, i == |parts| - 1, Run(w1s, i), Run(w2s, i - 1));
    }
  }

  /**
   * `Split` undoes a glued string: canonical parts joined by the separator,
   * each separator with its own whitespace on either side ("a,b, c",
   * "a ,b").
   */
  lemma {:induction false} SplitGlued(parts: seq<string>, sep: char, w1s: seq<string>, w2s: seq<string>)
    requires Canonical(parts, sep) && !IsSpace(sep) && AllSpaces(w1s) && AllSpaces(w2s)
    ensures Split(Glued(parts, sep, w1s, w2s), sep) == parts
  {
    if parts == [] {
      assert Pieces("", sep) == [""];
    } else {
      TrimEdgesOfGlued(parts, sep, w1s, w2s);
      assert DropTrailingEmpty(parts) == parts;
    }
  }

  /** A join whose glue is the separator between the same two runs is a glued string. */
  lemma {:induction false} JoinIsGlued(parts: seq<string>, sep: char, w1: string, w2: string, w1s: seq<string>, w2s: seq<string>)
    requires forall i :: 0 <= i < |parts| - 1 ==> Run(w1s, i) == w1 && Run(w2s, i) == w2
    ensures Join(parts, w1 + [sep] + w2) == Glued(parts, sep, w1s, w2s)
    decreases |parts|
  {
    if |parts| > 1 {
      forall i | 0 <= i < |parts| - 2 ensures Run(Rest(w1s), i) == w1 && Run(Rest(w2s), i) == w2 {
        RunRest(w1s, i);
        RunRest(w2s, i);
      }
      JoinIsGlued(parts[1..], sep, w1, w2, Rest(w1s), Rest(w2s));
      assert Run(w1s, 0) == w1 && Run(w2s, 0) == w2;
    }
  }

  /**
   * `Split` undoes a `Join` whose glue is the separator with the same
   * whitespace on either side at every separator, on canonical parts.
   */
  lemma {:induction false} SplitJoin(parts: seq<string>, sep: char, w1: string, w2: string)
    requires Canonical(parts, sep) && !IsSpace(sep) && AllSpace(w1) && AllSpace(w2)
    ensures Split(Join(parts, w1 + [sep] + w2), sep) == parts
  {
    var w1s := seq(|parts|, _ => w1);
    var w2s := seq(|parts|, _ => w2);
    JoinIsGlued(parts, sep, w1, w2, w1s, w2s);
    SplitGlued(parts, sep, w1s, w2s);
  }
}
