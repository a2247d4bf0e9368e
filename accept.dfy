// How the exporter middleware reads an HTTP Accept header: every
// comma-separated media range becomes a candidate made of a lookup key and a
// weight (its `q=` parameter), and the candidates are ordered by weight, the
// heaviest first. This is a simplified take on the Accept header of RFC 7231,
// section 5.3.2, with quality values as in section 5.3.1.
module AcceptParsing {

  import opened Wrappers
  import opened RubyText

  /** One media range of the header: the key it is looked up by, and its weight. */
  datatype Candidate = Candidate(key: string, quality: real)

  /** An attribute that carries a weight: it starts with `q=`. */
  predicate IsQuality(attribute: string) {
    StartsWith(attribute, "q=")
  }

  /**
   * The weight a `q=` attribute stands for: the last non-empty piece of the
   * attribute split on `q=`, converted by `toFloat` (Ruby's `String#to_f`,
   * left abstract). When there is no such piece Ruby converts `nil`, giving 0.0.
   */
  function QualityValue(attribute: string, toFloat: string -> real): (q: real)
    ensures q == 0.0 || exists text :: text != "" && Free(text, "q=") && q == toFloat(text)
  {
    match LastNonEmpty(PiecesAround(attribute, "q="))
    case None => 0.0
    case Some(text) => toFloat(text)
  }

  /** The attributes that survive the removal of every `q=` attribute, in their original order. */
  function WithoutQuality(attributes: seq<string>): (kept: seq<string>)
    ensures forall a :: a in kept <==> a in attributes && !IsQuality(a)
    ensures |kept| <= |attributes|
  {
    if attributes == [] then []
    else
      var last := attributes[|attributes| - 1];
      WithoutQuality(attributes[..|attributes| - 1]) + (if IsQuality(last) then [] else [last])
  }

  /** The weight after scanning the attributes front to back: each `q=` attribute overrides the one before. */
  function QualityOf(attributes: seq<string>, default: real, toFloat: string -> real): (q: real)
    ensures q == default || exists i :: 0 <= i < |attributes| && IsQuality(attributes[i]) &&
                                       q == QualityValue(attributes[i], toFloat)
  {
    if attributes == [] then default
    else
      var last := attributes[|attributes| - 1];
      if IsQuality(last) then QualityValue(last, toFloat)
      else QualityOf(attributes[..|attributes| - 1], default, toFloat)
  }

  /**
   * Removes the `q=` attributes and returns the weight they carried. The Ruby
   * method deletes them from its argument in place; here the surviving
   * attributes are returned instead.
   */
  method ExtractQuality(attributes: seq<string>, toFloat: string -> real, default: real := 1.0)
    returns (kept: seq<string>, quality: real)
    ensures kept == WithoutQuality(attributes)
    ensures quality == QualityOf(attributes, default, toFloat)
  {
    quality := default;
    kept := [];
    var i := 0;
    while i < |attributes|
      invariant 0 <= i <= |attributes|
      invariant kept == WithoutQuality(attributes[..i])
      invariant quality == QualityOf(attributes[..i], default, toFloat)
    {
      var attribute := attributes[i];
      assert attributes[..i + 1][..i] == attributes[..i];
      if IsQuality(attribute) {
        quality := QualityValue(attribute, toFloat);
      } else {
        kept := kept + [attribute];
      }
      i := i + 1;
    }
    assert attributes[..i] == attributes;
  }

  /** Removing the `q=` attributes from a concatenation removes them from each side, keeping the order. */
  lemma {:induction false} WithoutQualityAppend(a: seq<string>, b: seq<string>)
    ensures WithoutQuality(a + b) == WithoutQuality(a) + WithoutQuality(b)
    decreases |b|
  {
    if b == [] {
      assert a + b == a;
    } else {
      var b' := b[..|b| - 1];
      assert (a + b)[..|a + b| - 1] == a + b';
      WithoutQualityAppend(a, b');
    }
  }

  /** Attributes without a `q=` attribute among them are all kept, in order. */
  lemma {:induction false} WithoutQualityNone(attributes: seq<string>)
    requires forall i :: 0 <= i < |attributes| ==> !IsQuality(attributes[i])
    ensures WithoutQuality(attributes) == attributes
  {
    if attributes != [] {
      var init := attributes[..|attributes| - 1];
      WithoutQualityNone(init);
      assert init + [attributes[|attributes| - 1]] == attributes;
    }
  }

  /** Without a `q=` attribute the weight is the default. */
  lemma {:induction false} QualityDefault(attributes: seq<string>, default: real, toFloat: string -> real)
    requires forall i :: 0 <= i < |attributes| ==> !IsQuality(attributes[i])
    ensures QualityOf(attributes, default, toFloat) == default
  {
    if attributes != [] {
      QualityDefault(attributes[..|attributes| - 1], default, toFloat);
    }
  }

  /** The last `q=` attribute decides the weight. */
  lemma {:induction false} QualityLastWins(attributes: seq<string>, i: nat, default: real, toFloat: string -> real)
    requires i < |attributes| && IsQuality(attributes[i])
    requires forall j :: i < j < |attributes| ==> !IsQuality(attributes[j])
    ensures QualityOf(attributes, default, toFloat) == QualityValue(attributes[i], toFloat)
    decreases |attributes|
  {
    if i < |attributes| - 1 {
      QualityLastWins(attributes[..|attributes| - 1], i, default, toFloat);
    }
  }

  /** The weight written `q=v`, for a `v` in which `q=` does not occur, is `v` converted. */
  lemma QualityValueOf(v: string, toFloat: string -> real)
    requires v != [] && Free(v, "q=")
    ensures QualityValue("q=" + v, toFloat) == toFloat(v)
  {
    var attribute := "q=" + v;
    assert attribute[..2] == "q=" && attribute[2..] == v;
    PiecesAroundFree(v, "q=");
    assert PiecesAround(attribute, "q=") == ["", v];
  }

  /**
   * One comma-separated media range: its attributes are the pieces between
   * semicolons; the key is the attributes other than `q=` joined with "; ",
   * and the weight is extracted with a default of 1.0.
   */
  function ParseRange(range: string, toFloat: string -> real): (c: Candidate)
    ensures ';' !in range ==> c.quality == 1.0 || IsQuality(range)
    ensures ';' !in range && !IsQuality(range) && range != [] ==> c.key == range
  {
    var attributes := Split(range, ';');
    var c := Candidate(Join(WithoutQuality(attributes), "; "), QualityOf(attributes, 1.0, toFloat));
    if ';' !in range then SplitWithoutSeparator(range, ';'); c else c
  }

  /** The candidates of a header, one per comma-separated media range, in header order. */
  function Candidates(header: string, toFloat: string -> real): (cs: seq<Candidate>)
    ensures |cs| == |Split(header, ',')|
  {
    var ranges := Split(header, ',');
    seq(|ranges|, i requires 0 <= i < |ranges| => ParseRange(ranges[i], toFloat))
  }

  predicate Ascending(cs: seq<Candidate>) {
    forall i, j :: 0 <= i < j < |cs| ==> cs[i].quality <= cs[j].quality
  }

  predicate Descending(cs: seq<Candidate>) {
    forall i, j :: 0 <= i < j < |cs| ==> cs[j].quality <= cs[i].quality
  }

  /** `order` lists exactly the candidates `cands`, heaviest first; the order among equal weights is free. */
  predicate ByPreference(order: seq<Candidate>, cands: seq<Candidate>) {
    multiset(order) == multiset(cands) && Descending(order)
  }

  function Insert(c: Candidate, sorted: seq<Candidate>): (r: seq<Candidate>)
    requires Ascending(sorted)
    ensures Ascending(r)
    ensures multiset(r) == multiset(sorted) + multiset{c}
  {
    if sorted == [] || c.quality <= sorted[0].quality then [c] + sorted
    else
      var rest := Insert(c, sorted[1..]);
      InsertBehind(c, sorted, rest);
      [sorted[0]] + rest
  }

  /** The lightest candidate stays in front when a heavier one is inserted behind it. */
  lemma InsertBehind(c: Candidate, sorted: seq<Candidate>, rest: seq<Candidate>)
    requires Ascending(sorted) && sorted != [] && sorted[0].quality < c.quality
    requires Ascending(rest) && multiset(rest) == multiset(sorted[1..]) + multiset{c}
    ensures Ascending([sorted[0]] + rest)
    ensures multiset([sorted[0]] + rest) == multiset(sorted) + multiset{c}
  {
    assert sorted == [sorted[0]] + sorted[1..];
    assert multiset(sorted[1..] + [c]) == multiset(rest);
    PrependLowest(sorted[0], rest, sorted[1..] + [c]);
  }

  /** A candidate no heavier than any element of an ascending sequence can go in front of it. */
  lemma PrependLowest(low: Candidate, cs: seq<Candidate>, pool: seq<Candidate>)
    requires Ascending(cs) && multiset(cs) == multiset(pool)
    requires forall x :: x in pool ==> low.quality <= x.quality
    ensures Ascending([low] + cs)
  {
    forall x | x in cs ensures low.quality <= x.quality {
      assert x in multiset(cs);
    }
    forall i, j | 0 <= i < j < |[low] + cs| ensures ([low] + cs)[i].quality <= ([low] + cs)[j].quality {
      if i == 0 { assert ([low] + cs)[j] in cs; }
    }
  }

  /** `sort_by(&:last)`: the candidates ordered by ascending weight. */
  function SortByQuality(cs: seq<Candidate>): (r: seq<Candidate>)
    ensures Ascending(r)
    ensures multiset(r) == multiset(cs)
  {
    if cs == [] then []
    else
      assert cs == [cs[0]] + cs[1..];
      Insert(cs[0], SortByQuality(cs[1..]))
  }

  function Reverse(cs: seq<Candidate>): (r: seq<Candidate>)
    ensures |r| == |cs|
    ensures forall i :: 0 <= i < |cs| ==> r[i] == cs[|cs| - 1 - i]
    ensures multiset(r) == multiset(cs)
  {
    if cs == [] then []
    else
      assert cs == [cs[0]] + cs[1..];
      Reverse(cs[1..]) + [cs[0]]
  }

  /**
   * `parse`: the candidates of the header, heaviest first. The order among
   * equal weights is that of one particular sort; nothing below depends on it.
   */
  function Parse(header: string, toFloat: string -> real): (parsed: seq<Candidate>)
    ensures ByPreference(parsed, Candidates(header, toFloat))
  {
    Reverse(SortByQuality(Candidates(header, toFloat)))
  }

  /** `order[i]` is the first candidate, in the given order, whose key the dictionary holds. */
  predicate FirstAt<F>(order: seq<Candidate>, formats: map<string, F>, i: int) {
    0 <= i < |order| && order[i].key in formats &&
    forall j :: 0 <= j < i ==> order[j].key !in formats
  }

  /**
   * The value of the first candidate, in the given order, whose key the
   * dictionary holds; `None` when it holds none of them.
   */
  function Preferred<F>(order: seq<Candidate>, formats: map<string, F>): (r: Option<F>)
    ensures r.None? <==> forall i :: 0 <= i < |order| ==> order[i].key !in formats
    ensures r.Some? ==> exists i :: FirstAt(order, formats, i) && r.value == formats[order[i].key]
  {
    if order == [] then None
    else if order[0].key in formats then
      assert FirstAt(order, formats, 0);
      Some(formats[order[0].key])
    else
      var r := Preferred(order[1..], formats);
      if r.Some? then
        FirstShifts(order, formats, r.value);
        r
      else
        assert forall i :: 0 < i < |order| ==> order[i] == order[1..][i - 1];
        r
  }

  lemma FirstShifts<F>(order: seq<Candidate>, formats: map<string, F>, v: F)
    requires order != [] && order[0].key !in formats
    requires exists i :: FirstAt(order[1..], formats, i) && v == formats[order[1..][i].key]
    ensures exists i :: FirstAt(order, formats, i) && v == formats[order[i].key]
  {
    var i :| FirstAt(order[1..], formats, i) && v == formats[order[1..][i].key];
    assert order[i + 1] == order[1..][i];
    forall j | 0 <= j < i + 1 ensures order[j].key !in formats {
      if j > 0 { assert order[j] == order[1..][j - 1]; }
    }
    assert FirstAt(order, formats, i + 1);
  }

  /**
   * Whatever order among equal weights is used, the first match is a
   * candidate of greatest weight among those the dictionary holds, and there
   * is a match exactly when the dictionary holds some candidate's key.
   * A weight of 0 does not exclude a candidate.
   */
  lemma PreferredIsBest<F>(order: seq<Candidate>, cands: seq<Candidate>, formats: map<string, F>)
    requires ByPreference(order, cands)
    ensures Preferred(order, formats).None? <==> forall c :: c in cands ==> c.key !in formats
    ensures Preferred(order, formats).Some? ==>
              exists c :: c in cands && c.key in formats && Preferred(order, formats).value == formats[c.key] &&
                forall d :: d in cands && d.key in formats ==> d.quality <= c.quality
  {
    assert forall x :: x in order <==> x in cands by {
      forall x ensures x in order <==> x in cands {
        assert x in order <==> x in multiset(order);
        assert x in cands <==> x in multiset(cands);
      }
    }
    var r := Preferred(order, formats);
    if r.Some? {
      var i :| FirstAt(order, formats, i) && r.value == formats[order[i].key];
      var c := order[i];
      forall d | d in cands && d.key in formats ensures d.quality <= c.quality {
        var j :| 0 <= j < |order| && order[j] == d;
      }
      assert c in cands;
    }
  }

  /** A bare attribute: non-empty, no comma or semicolon, unpadded, not a `q=` weight. */
  predicate Attribute(p: string) {
    p != [] && ',' !in p && ';' !in p && Unpadded(p) && !IsQuality(p)
  }

  /**
   * However much whitespace surrounds each semicolon, the key is the
   * attributes joined with "; ": splitting at the semicolons together with
   * their surrounding whitespace and joining with "; " normalises a range.
   */
  lemma {:induction false} ParsePlainRange(parts: seq<string>, w1s: seq<string>, w2s: seq<string>, toFloat: string -> real)
    requires forall i :: 0 <= i < |parts| ==> Attribute(parts[i])
    requires AllSpaces(w1s) && AllSpaces(w2s)
    ensures ParseRange(Glued(parts, ';', w1s, w2s), toFloat) == Candidate(Join(parts, "; "), 1.0)
  {
    SplitGlued(parts, ';', w1s, w2s);
    WithoutQualityNone(parts);
    QualityDefault(parts, 1.0, toFloat);
  }

  /**
   * Adding a weight `q=v` behind one more semicolon changes the range's
   * weight to `v` converted and leaves its key alone.
   */
  lemma {:induction false} ParseWeightedRange(parts: seq<string>, v: string, w1s: seq<string>, w2s: seq<string>, toFloat: string -> real)
    requires forall i :: 0 <= i < |parts| ==> Attribute(parts[i])
    requires v != [] && ',' !in v && ';' !in v && Unpadded(v) && Free(v, "q=")
    requires AllSpaces(w1s) && AllSpaces(w2s)
    ensures ParseRange(Glued(parts + ["q=" + v], ';', w1s, w2s), toFloat) == Candidate(Join(parts, "; "), toFloat(v))
  {
    var weight := "q=" + v;
    var attributes := parts + [weight];
    assert IsQuality(weight) by { assert weight[..2] == "q="; }
    assert ';' !in weight;
    assert Unpadded(weight) by { assert weight[|weight| - 1] == v[|v| - 1]; }
    assert Canonical(attributes, ';') by {
      forall i | 0 <= i < |attributes| ensures ';' !in attributes[i] && Unpadded(attributes[i]) {
        if i < |parts| { assert attributes[i] == parts[i]; }
      }
    }
    SplitGlued(attributes, ';', w1s, w2s);
    WithoutQualityAppend(parts, [weight]);
    WithoutQualityNone(parts);
    assert WithoutQuality([weight]) == [];
    assert WithoutQuality(attributes) == parts;
    assert attributes[|attributes| - 1] == weight;
    assert QualityOf(attributes, 1.0, toFloat) == QualityValue(weight, toFloat);
    QualityValueOf(v, toFloat);
  }

  /** A header made of one media range without a comma has that one candidate. */
  lemma SingleRange(range: string, toFloat: string -> real)
    requires range != [] && ',' !in range
    ensures Candidates(range, toFloat) == [ParseRange(range, toFloat)]
  {
    SplitWithoutSeparator(range, ',');
  }

  /**
   * A header of one media range without a weight has one candidate: its
   * attributes joined with "; ", with weight 1.0.
   */
  lemma PlainHeader(parts: seq<string>, w1s: seq<string>, w2s: seq<string>, toFloat: string -> real)
    requires parts != [] && forall i :: 0 <= i < |parts| ==> Attribute(parts[i])
    requires AllSpaces(w1s) && AllSpaces(w2s)
    ensures Candidates(Glued(parts, ';', w1s, w2s), toFloat) == [Candidate(Join(parts, "; "), 1.0)]
  {
    RangeShape(parts, w1s, w2s);
    SingleRange(Glued(parts, ';', w1s, w2s), toFloat);
    ParsePlainRange(parts, w1s, w2s, toFloat);
  }

  /**
   * A header of one media range with a weight has one candidate: the range's
   * other attributes joined with "; ", at that weight.
   */
  lemma WeightedHeader(parts: seq<string>, v: string, w1s: seq<string>, w2s: seq<string>, toFloat: string -> real)
    requires parts != [] && forall i :: 0 <= i < |parts| ==> Attribute(parts[i])
    requires v != [] && ',' !in v && ';' !in v && Unpadded(v) && Free(v, "q=")
    requires AllSpaces(w1s) && AllSpaces(w2s)
    ensures Candidates(Glued(parts + ["q=" + v], ';', w1s, w2s), toFloat) == [Candidate(Join(parts, "; "), toFloat(v))]
  {
    var all := parts + ["q=" + v];
    assert forall i :: 0 <= i < |all| ==> all[i] != [] && ',' !in all[i] by {
      forall i | 0 <= i < |all| ensures all[i] != [] && ',' !in all[i] {
        if i == |parts| {
          assert all[i] == "q=" + v;
        } else {
          assert all[i] == parts[i];
        }
      }
    }
    RangeShape(all, w1s, w2s);
    SingleRange(Glued(all, ';', w1s, w2s), toFloat);
    ParseWeightedRange(parts, v, w1s, w2s, toFloat);
  }

  /** Comma-free, non-empty attributes glued at semicolons make a non-empty range without a comma. */
  lemma {:induction false} RangeShape(parts: seq<string>, w1s: seq<string>, w2s: seq<string>)
    requires parts != [] && forall i :: 0 <= i < |parts| ==> parts[i] != [] && ',' !in parts[i]
    requires AllSpaces(w1s) && AllSpaces(w2s)
    ensures Glued(parts, ';', w1s, w2s) != [] && ',' !in Glued(parts, ';', w1s, w2s)
    decreases |parts|
  {
    if |parts| > 1 {
      RunSpace(w1s, 0);
      RunSpace(w2s, 0);
      SpaceLacks(Run(w1s, 0), ',');
      SpaceLacks(Run(w2s, 0), ',');
      RangeShape(parts[1..], Rest(w1s), Rest(w2s));
    }
  }

  /**
   * Media ranges separated by commas, each comma with its own whitespace
   * around it, are read back one candidate per range, in order.
   */
  lemma {:induction false} JoinedRanges(ranges: seq<string>, w1s: seq<string>, w2s: seq<string>, toFloat: string -> real)
    requires Canonical(ranges, ',') && AllSpaces(w1s) && AllSpaces(w2s)
    ensures Candidates(Glued(ranges, ',', w1s, w2s), toFloat) ==
              seq(|ranges|, i requires 0 <= i < |ranges| => ParseRange(ranges[i], toFloat))
  {
    SplitGlued(ranges, ',', w1s, w2s);
  }

  /** An empty header has no candidates at all, so nothing can match it. */
  lemma EmptyHeader<F>(toFloat: string -> real, formats: map<string, F>)
    ensures Candidates("", toFloat) == [] && Preferred(Parse("", toFloat), formats) == None
  {
    SplitWithoutSeparator("", ',');
  }
}
