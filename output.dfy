/**
 * `createResult`: the report "{name=min/mean/max, ...}" with names in
 * ascending byte order and each value in degrees with one decimal.
 */
module Output {
  import opened Wrappers
  import opened Bytes
  import opened FixedPoint
  import opened Aggregation
  import opened Ordering

  const LBRACE: Byte := 123  // '{'
  const RBRACE: Byte := 125  // '}'
  const COMMA: Byte := 44    // ','
  const SPACE: Byte := 32    // ' '
  const EQUALS: Byte := 61   // '='
  const SLASH: Byte := 47    // '/'

  /** The error `createResult` returns for a listed name the map does not hold. */
  datatype Error = MissingLocation(name: Key)

  /**
   * `math.Round(float64(total) / float64(count))` for a positive count: the
   * integer nearest to total/count, a tie going away from zero.
   */
  function RoundHalfAway(total: int, count: nat): (r: int)
    requires count > 0
    ensures total >= 0 ==> r >= 0
    ensures total <= 0 ==> r <= 0
  {
    if total >= 0 then (2 * total + count) / (2 * count)
    else -((-2 * total + count) / (2 * count))
  }

  /**
   * The rounded mean is at most half a unit from the true mean, and a mean
   * exactly half way between two integers is rounded away from zero.
   */
  lemma RoundNearest(total: int, count: nat)
    requires count > 0
    ensures -(count as int) <= 2 * total - 2 * count * RoundHalfAway(total, count) <= count
    ensures 2 * total - 2 * count * RoundHalfAway(total, count) == count ==> total < 0
    ensures 2 * total - 2 * count * RoundHalfAway(total, count) == -(count as int) ==> total > 0
  {
    var r := RoundHalfAway(total, count);
    if total >= 0 {
      var q := (2 * total + count) / (2 * count);
      var rem := (2 * total + count) % (2 * count);
      assert 2 * count * q + rem == 2 * total + count;
      assert 2 * total - 2 * count * r == rem - count;
    } else {
      var q := (-2 * total + count) / (2 * count);
      var rem := (-2 * total + count) % (2 * count);
      assert 2 * count * q + rem == -2 * total + count;
      assert 2 * total - 2 * count * r == count - rem;
    }
  }

  /** An integer d with 2cd at least -c, for a positive c, is not negative. */
  lemma NotBelowHalf(c: nat, d: int)
    requires c > 0 && 2 * c * d >= -(c as int)
    ensures d >= 0
  {
  }

  /** The rounded mean of a valid aggregate lies between its minimum and its maximum. */
  lemma MeanBetween(loc: Location)
    requires Valid(loc)
    ensures loc.min <= RoundHalfAway(loc.total, loc.count) <= loc.max
  {
    var c, t, r := loc.count, loc.total, RoundHalfAway(loc.total, loc.count);
    RoundNearest(t, c);
    assert 2 * c * (r - loc.min) == (2 * c * r - 2 * t) + 2 * (t - c * loc.min);
    assert 2 * c * (loc.max - r) == (2 * t - 2 * c * r) + 2 * (c * loc.max - t);
    NotBelowHalf(c, r - loc.min);
    NotBelowHalf(c, loc.max - r);
  }

  /**
   * `strconv.FormatFloat(math.Round(float64(total)/float64(count))/10, 'f', 1, 64)`:
   * with no readings the quotient is +Inf, -Inf or NaN; a negative mean that
   * rounds to zero is the float -0 and prints with its sign.
   */
  function FormatAverage(total: int, count: nat): seq<Byte> {
    if count == 0 then
      if total > 0 then [43, 73, 110, 102]        // "+Inf"
      else if total < 0 then [MINUS, 73, 110, 102] // "-Inf"
      else [78, 97, 78]                            // "NaN"
    else
      var r := RoundHalfAway(total, count);
      if r == 0 && total < 0 then [MINUS, ZERO, DOT, ZERO]
      else FormatTenths(r)
  }

  /**
   * With readings, the mean is written as a number with one decimal, and
   * without a '-' when the total is not negative; without readings it is
   * "+Inf", "-Inf" or "NaN" by the sign of the total.
   */
  lemma FormatAverageShape(total: int, count: nat)
    ensures var text := FormatAverage(total, count);
      && (count > 0 ==> |text| >= 3 && text[|text| - 2] == DOT && IsDigit(text[|text| - 1]))
      && (count > 0 ==> (text[0] == MINUS || IsDigit(text[0])) && forall i :: 0 < i < |text| - 2 ==> IsDigit(text[i]))
      && (count > 0 && total >= 0 ==> text[0] != MINUS)
      && (count == 0 ==> text == if total > 0 then [43, 73, 110, 102] else if total < 0 then [MINUS, 73, 110, 102] else [78, 97, 78])
  {
    if count > 0 {
      FormatTenthsShape(RoundHalfAway(total, count));
    }
  }

  /** Formatting an integer count of tenths never writes "-0.0". */
  lemma NoNegativeZero(v: int)
    ensures FormatTenths(v) != [MINUS, ZERO, DOT, ZERO]
  {
    var f := FormatTenths(v);
    if v < 0 {
      var m := -v;
      var d := Digits(m / 10);
      assert f == [MINUS] + d + [DOT, ZERO + m % 10];
      if |d| == 1 {
        assert d == [ZERO + m / 10];
        assert f[1] == ZERO + m / 10 && f[3] == ZERO + m % 10;
        assert f[1] != ZERO || f[3] != ZERO;
      }
    } else {
      assert f[0] == Digits(v / 10)[0];
    }
  }

  /** "-0.0" appears exactly for a mean strictly between minus half a tenth and zero. */
  lemma NegativeZeroMean(total: int, count: nat)
    requires count > 0
    ensures FormatAverage(total, count) == [MINUS, ZERO, DOT, ZERO] <==> -(count as int) < 2 * total < 0
  {
    var r := RoundHalfAway(total, count);
    RoundNearest(total, count);
    if -(count as int) < 2 * total < 0 {
      RoundsToZero(total, count, r);
      assert FormatAverage(total, count) == [MINUS, ZERO, DOT, ZERO];
    } else {
      NoNegativeZero(r);
      if total < 0 {
        assert r != 0;
      }
      assert FormatAverage(total, count) == FormatTenths(r);
    }
  }

  /** An integer within half of count of total/count, for total/count in (-1/2, 0), is zero. */
  lemma RoundsToZero(total: int, count: nat, r: int)
    requires count > 0 && -(count as int) < 2 * total < 0
    requires -(count as int) <= 2 * total - 2 * count * r <= count
    ensures r == 0
  {
    if r >= 1 {
      MulMono(1, r, 2 * count);
    } else if r <= -1 {
      MulMono(r, -1, 2 * count);
    }
  }

  /** One entry of the report: name '=' min '/' mean '/' max. */
  function EntryText(name: Key, details: Location): seq<Byte> {
    name + [EQUALS] + FormatTenths(details.min) + [SLASH]
      + FormatAverage(details.total, details.count) + [SLASH] + FormatTenths(details.max)
  }

  /** Every name of `names` is a key of `m`. */
  predicate Listed(names: seq<Key>, m: map<Key, Location>) {
    forall i :: 0 <= i < |names| ==> names[i] in m
  }

  /** The entries for `names`, in that order. */
  function Entries(names: seq<Key>, m: map<Key, Location>): (texts: seq<seq<Byte>>)
    requires Listed(names, m)
    ensures |texts| == |names|
  {
    if names == [] then []
    else
      var last := names[|names| - 1];
      Entries(names[..|names| - 1], m) + [EntryText(last, m[last])]
  }

  /** In a map of valid aggregates every key's rounded mean lies between its minimum and maximum. */
  lemma MeansBetween(m: map<Key, Location>)
    requires ValidMap(m)
    ensures forall k :: k in m ==>
      m[k].count >= 1 && m[k].min <= RoundHalfAway(m[k].total, m[k].count) <= m[k].max
  {
    forall k | k in m
      ensures m[k].count >= 1 && m[k].min <= RoundHalfAway(m[k].total, m[k].count) <= m[k].max
    {
      MeanBetween(m[k]);
    }
  }

  /** The i-th entry is the text for the i-th name. */
  lemma {:induction false} EntriesIndex(names: seq<Key>, m: map<Key, Location>, i: nat)
    requires i < |names| && Listed(names, m)
    ensures Entries(names, m)[i] == EntryText(names[i], m[names[i]])
    decreases |names|
  {
    var init := names[..|names| - 1];
    if i < |init| {
      EntriesIndex(init, m, i);
    }
  }

  /** Texts separated by ", ". */
  function Joined(texts: seq<seq<Byte>>): seq<Byte> {
    if texts == [] then []
    else Joined(texts[..|texts| - 1]) + (if |texts| > 1 then [COMMA, SPACE] else []) + texts[|texts| - 1]
  }

  /** The whole report for `names` in the order given. */
  function Render(names: seq<Key>, m: map<Key, Location>): (out: seq<Byte>)
    requires Listed(names, m)
    ensures |out| >= 2 && out[0] == LBRACE && out[|out| - 1] == RBRACE
  {
    [LBRACE] + Joined(Entries(names, m)) + [RBRACE]
  }

  /** Joining the first n texts gives the start of joining all of them. */
  lemma {:induction false} JoinedPrefix(texts: seq<seq<Byte>>, n: nat)
    requires n <= |texts|
    ensures |Joined(texts[..n])| <= |Joined(texts)|
    ensures Joined(texts)[..|Joined(texts[..n])|] == Joined(texts[..n])
    decreases |texts|
  {
    if n == |texts| {
      assert texts[..n] == texts;
    } else {
      var init := texts[..|texts| - 1];
      JoinedPrefix(init, n);
      assert init[..n] == texts[..n];
      assert Joined(texts)[..|Joined(init)|] == Joined(init);
    }
  }

  /** Where the i-th text starts once the texts are joined. */
  function TextOffset(texts: seq<seq<Byte>>, i: nat): int
    requires i < |texts|
  {
    |Joined(texts[..i + 1])| - |texts[i]|
  }

  /** Each text appears whole, at its offset, in the joined texts. */
  lemma JoinedHoldsText(texts: seq<seq<Byte>>, i: nat)
    requires i < |texts|
    ensures var p := TextOffset(texts, i);
      0 <= p && p + |texts[i]| <= |Joined(texts)| && Joined(texts)[p..p + |texts[i]|] == texts[i]
  {
    var short := texts[..i + 1];
    assert short[..|short| - 1] == texts[..i] && short[|short| - 1] == texts[i];
    JoinedPrefix(texts, i + 1);
    var b := Joined(short);
    var p := |b| - |texts[i]|;
    assert b[p..] == texts[i];
    assert Joined(texts)[p..p + |texts[i]|] == b[p..];
  }

  /**
   * Each listed name's entry appears whole in the report, one byte after its
   * offset in the joined entries (the byte before is the opening brace).
   */
  lemma RenderHoldsEntry(names: seq<Key>, m: map<Key, Location>, i: nat)
    requires i < |names| && Listed(names, m)
    ensures var p, e := 1 + TextOffset(Entries(names, m), i), Entries(names, m)[i];
      0 <= p && p + |e| <= |Render(names, m)| && Render(names, m)[p..p + |e|] == e
  {
    BracedHoldsText(Entries(names, m), i);
  }

  /** Each text appears whole, one byte after its offset, once the joined texts are put in braces. */
  lemma BracedHoldsText(texts: seq<seq<Byte>>, i: nat)
    requires i < |texts|
    ensures var p, b := 1 + TextOffset(texts, i), [LBRACE] + Joined(texts) + [RBRACE];
      0 <= p && p + |texts[i]| <= |b| && b[p..p + |texts[i]|] == texts[i]
  {
    var body, p := Joined(texts), TextOffset(texts, i);
    JoinedHoldsText(texts, i);
    assert 0 <= p && p + |texts[i]| <= |body| && body[p..p + |texts[i]|] == texts[i];
    InsideBraces(body, p, p + |texts[i]|);
  }

  /** A slice of the text between the braces, read from the braced text. */
  lemma InsideBraces(body: seq<Byte>, lo: nat, hi: nat)
    requires lo <= hi <= |body|
    ensures |[LBRACE] + body + [RBRACE]| == |body| + 2
    ensures ([LBRACE] + body + [RBRACE])[1 + lo..1 + hi] == body[lo..hi]
  {
  }

  /**
   * `createResult`: sort the names in place, then write the report for them
   * in that order.
   */
  method CreateResult(locations: array<Key>, locationMap: map<Key, Location>) returns (r: Result<seq<Byte>, Error>)
    modifies locations
    ensures locations[..] == SortKeys(old(locations[..]))
    ensures r.Success? <==> Listed(locations[..], locationMap)
    ensures r.Success? ==> r.value == Render(locations[..], locationMap)
    ensures r.Failure? ==> FirstMissing(locations[..], locationMap, r.error.name)
  {
    ghost var unsorted := locations[..];
    SortStrings(locations);
    assert locations[..] == SortKeys(unsorted) by {
      SortedUnique(locations[..], SortKeys(unsorted));
    }
    r := WriteReport(locations, locationMap);
  }

  /** `name` is the first of `names` that `m` does not hold. */
  predicate FirstMissing(names: seq<Key>, m: map<Key, Location>, name: Key) {
    exists i :: 0 <= i < |names| && names[i] == name && name !in m && forall j :: 0 <= j < i ==> names[j] in m
  }

  /**
   * The loop of `createResult`: write '{', then each entry with ", " before
   * all but the first, then '}'; the first name missing from the map ends
   * the loop with an error.
   */
  method WriteReport(locations: array<Key>, locationMap: map<Key, Location>) returns (r: Result<seq<Byte>, Error>)
    ensures r.Success? <==> Listed(locations[..], locationMap)
    ensures r.Success? ==> r.value == Render(locations[..], locationMap)
    ensures r.Failure? ==> FirstMissing(locations[..], locationMap, r.error.name)
  {
    var buffer := [LBRACE];
    ghost var names: seq<Key> := locations[..];
    var i := 0;
    while i < locations.Length
      invariant 0 <= i <= locations.Length
      invariant Listed(names[..i], locationMap)
      invariant buffer == [LBRACE] + Joined(Entries(names[..i], locationMap))
    {
      var name := locations[i];
      if name !in locationMap {
        assert names[i] == name && forall j :: 0 <= j < i ==> names[j] == names[..i][j];
        return Failure(MissingLocation(name));
      }
      var details := locationMap[name];
      var entry := EntryText(name, details);
      ghost var done := Joined(Entries(names[..i], locationMap));
      ghost var sep: seq<Byte> := if i > 0 then [COMMA, SPACE] else [];
      assert Listed(names[..i + 1], locationMap) by {
        assert forall j :: 0 <= j < i ==> names[..i + 1][j] == names[..i][j];
      }
      assert Joined(Entries(names[..i + 1], locationMap)) == done + sep + entry by {
        EntriesStep(names, locationMap, i);
      }
      if i > 0 {
        buffer := buffer + [COMMA, SPACE];
      } else {
        assert buffer + [] == buffer;
      }
      buffer := buffer + entry;
      AppendAssoc([LBRACE], done, sep);
      AppendAssoc([LBRACE], done + sep, entry);
      i := i + 1;
    }
    buffer := buffer + [RBRACE];
    assert names[..i] == names;
    return Success(buffer);
  }

  /** Writing the entry for the next name extends the joined entries so far. */
  lemma EntriesStep(names: seq<Key>, m: map<Key, Location>, i: nat)
    requires i < |names| && Listed(names[..i + 1], m)
    ensures Listed(names[..i], m)
    ensures Joined(Entries(names[..i + 1], m))
         == Joined(Entries(names[..i], m)) + (if i > 0 then [COMMA, SPACE] else []) + EntryText(names[i], m[names[i]])
  {
    var short := names[..i + 1];
    assert short[..|short| - 1] == names[..i] && short[|short| - 1] == names[i];
    assert forall j :: 0 <= j < i ==> names[..i][j] == short[j];
    var texts := Entries(short, m);
    assert texts[..|texts| - 1] == Entries(names[..i], m);
  }
}
