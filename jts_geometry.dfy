/** JtsGeometry: the column value of a PostGIS geometry column. A value is
    either hex-encoded well-known binary, handed to the binary parser, or
    (E)WKT text, optionally prefixed by `SRID=<n>;`, handed to a WKT reader
    whose result gets that SRID on every node. */
module JtsGeometry {
  import opened Wire
  import opened Geometries
  import opened JtsBinaryParser
  import opened JavaStrings

  // ---------------------------------------------------------------------
  // setSridRecurse

  /** The rings with their SRID fields all set to `s`. */
  function StampRings(rings: seq<Ring>, s: Int32): (r: seq<Ring>)
    ensures |r| == |rings| && RingsHaveSrid(r, s)
    ensures forall i :: 0 <= i < |rings| ==> r[i].coords == rings[i].coords
  {
    seq(|rings|, i requires 0 <= i < |rings| => rings[i].(srid := s))
  }

  /** The tree setSridRecurse(g, s) leaves behind: the root, every
      descendant of a collection and every ring of a polygon carry `s`. */
  function WithSrid(g: Geometry, s: Int32): Geometry
    decreases g
  {
    match g
    case Point(c, _) => Point(c, s)
    case LineString(cs, _) => LineString(cs, s)
    case Polygon(shell, holes, _) => Polygon(shell.(srid := s), StampRings(holes, s), s)
    case _ => Collect(KindOf(g), seq(|g.parts|, i requires 0 <= i < |g.parts| => WithSrid(g.parts[i], s)), s)
  }

  /** setSridRecurse, on values: the root first, then each child of a
      collection in turn, or the shell and then each hole of a polygon. */
  method SetSridRecurse(g: Geometry, s: Int32) returns (r: Geometry)
    ensures r == WithSrid(g, s)
    decreases g
  {
    r := g.(srid := s);
    if g.IsCollection() {
      var parts := g.parts;
      var i := 0;
      while i < |parts|
        invariant 0 <= i <= |parts| == |g.parts|
        invariant forall j :: 0 <= j < i ==> parts[j] == WithSrid(g.parts[j], s)
        invariant forall j :: i <= j < |parts| ==> parts[j] == g.parts[j]
      {
        var child := SetSridRecurse(g.parts[i], s);
        parts := parts[i := child];
        i := i + 1;
      }
      r := r.(parts := parts);
    } else if g.Polygon? {
      var holes := g.holes;
      var i := 0;
      while i < |holes|
        invariant 0 <= i <= |holes| == |g.holes|
        invariant forall j :: 0 <= j < i ==> holes[j] == g.holes[j].(srid := s)
        invariant forall j :: i <= j < |holes| ==> holes[j] == g.holes[j]
      {
        holes := holes[i := holes[i].(srid := s)];
        i := i + 1;
      }
      r := r.(shell := g.shell.(srid := s), holes := holes);
    }
  }

  /** Afterwards every node and ring carries `s`. */
  lemma {:induction false} WithSridUniform(g: Geometry, s: Int32)
    ensures Uniform(WithSrid(g, s), s)
    decreases g
  {
    var h := WithSrid(g, s);
    if g.IsCollection() {
      forall i | 0 <= i < |h.parts|
        ensures Uniform(h.parts[i], s)
      {
        WithSridUniform(g.parts[i], s);
      }
    }
  }

  /** Only SRID fields change: kinds, child order, ring order and
      coordinates are those of `g`. */
  lemma {:induction false} WithSridShape(g: Geometry, s: Int32)
    ensures SameShape(g, WithSrid(g, s))
    decreases g
  {
    var h := WithSrid(g, s);
    if g.IsCollection() {
      forall i | 0 <= i < |g.parts|
        ensures SameShape(g.parts[i], h.parts[i])
      {
        WithSridShape(g.parts[i], s);
      }
    }
  }

  /** WithSrid(g, s) is the only tree of g's shape that carries `s`
      everywhere. */
  lemma {:induction false} WithSridUnique(g: Geometry, h: Geometry, s: Int32)
    requires SameShape(g, h) && Uniform(h, s)
    ensures h == WithSrid(g, s)
    decreases g
  {
    var w := WithSrid(g, s);
    match g
    case Point(_, _) =>
    case LineString(_, _) =>
    case Polygon(_, holes, _) =>
      assert h.holes == w.holes by {
        forall i | 0 <= i < |holes|
          ensures h.holes[i] == w.holes[i]
        {
          assert h.holes[i].coords == holes[i].coords;
        }
      }
    case _ =>
      assert h.parts == w.parts by {
        forall i | 0 <= i < |g.parts|
          ensures h.parts[i] == w.parts[i]
        {
          WithSridUnique(g.parts[i], h.parts[i], s);
        }
      }
  }

  lemma {:induction false} SameShapeReflexive(g: Geometry)
    ensures SameShape(g, g)
    decreases g
  {
    if g.IsCollection() {
      forall i | 0 <= i < |g.parts|
        ensures SameShape(g.parts[i], g.parts[i])
      {
        SameShapeReflexive(g.parts[i]);
      }
    }
  }

  lemma {:induction false} SameShapeTransitive(f: Geometry, g: Geometry, h: Geometry)
    requires SameShape(f, g) && SameShape(g, h)
    ensures SameShape(f, h)
    decreases f
  {
    if f.IsCollection() {
      forall i | 0 <= i < |f.parts|
        ensures SameShape(f.parts[i], h.parts[i])
      {
        SameShapeTransitive(f.parts[i], g.parts[i], h.parts[i]);
      }
    }
  }

  /** A tree that already carries `s` everywhere is left as it is. */
  lemma WithSridFixed(g: Geometry, s: Int32)
    requires Uniform(g, s)
    ensures WithSrid(g, s) == g
  {
    SameShapeReflexive(g);
    WithSridUnique(g, g, s);
  }

  /** The last stamp wins: stamping `t` and then `s` is stamping `s`. */
  lemma WithSridLastWins(g: Geometry, t: Int32, s: Int32)
    ensures WithSrid(WithSrid(g, t), s) == WithSrid(g, s)
  {
    var h := WithSrid(WithSrid(g, t), s);
    WithSridShape(g, t);
    WithSridShape(WithSrid(g, t), s);
    SameShapeTransitive(g, WithSrid(g, t), h);
    WithSridUniform(WithSrid(g, t), s);
    WithSridUnique(g, h, s);
  }

  /** Stamping twice with the same SRID is stamping once. */
  lemma WithSridIdempotent(g: Geometry, s: Int32)
    ensures WithSrid(WithSrid(g, s), s) == WithSrid(g, s)
  {
    WithSridLastWins(g, s, s);
  }

  // ---------------------------------------------------------------------
  // geomFromString

  /** A trimmed value that begins with the hex digits of an XDR or NDR
      marker is well-known binary. */
  predicate IsHexWkb(v: string)
  {
    StartsWith(v, "00") || StartsWith(v, "01")
  }

  /** The SRID and the WKT text of a trimmed text value: SRID 0 and the
      value itself without a `SRID=` prefix; with one, the number between
      `SRID=` and the first ';' and the trimmed piece after that ';'. None
      when split yields no second piece or the number is not an `int`. */
  function SridAndText(v: string): (r: Option<(Int32, string)>)
    ensures !StartsWith(v, "SRID=") ==> r == Some((0, v))
  {
    if !StartsWith(v, "SRID=") then Some((0, v))
    else
      var temp := Split(v, ';');
      if |temp| < 2 then None
      else
        SeparatorAfterPrefix(v, "SRID=", ';');
        assert |temp[0]| >= 5;
        match ParseInt(temp[0][5..])
        case None => None
        case Some(n) => Some((n, Trim(temp[1])))
  }

  /** For a value with the `SRID=` prefix, with i the first ';': the
      result is None exactly when there is no ';', only ';'s follow it, or
      the text between `SRID=` and it is not an `int`; otherwise it is that
      number and the trimmed text up to the next ';'. */
  lemma SridTextRead(v: string)
    requires StartsWith(v, "SRID=")
    ensures 5 <= IndexOf(v, ';')
    ensures var i := IndexOf(v, ';');
      SridAndText(v).None? <==> i == |v| || Only(v[i + 1..], ';') || ParseInt(v[5..i]).None?
    ensures var i := IndexOf(v, ';');
      SridAndText(v).Some? ==>
        i < |v| && ParseInt(v[5..i]).Some? &&
        var rest := v[i + 1..];
        SridAndText(v).value == (ParseInt(v[5..i]).value, Trim(rest[..IndexOf(rest, ';')]))
  {
    hide ParseInt, Trim, Pieces, Split;
    var i := IndexOf(v, ';');
    SeparatorAfterPrefix(v, "SRID=", ';');
    if i < |v| {
      SplitSecond(v, ';');
      var t := Split(v, ';');
      if |t| >= 2 {
        assert t[0][5..] == v[5..i];
      }
    } else {
      assert |Split(v, ';')| <= 1 by {
        assert Split(v, ';') == DropTrailingEmpty([v]);
      }
    }
  }

  /** The geometry geomFromString returns for a column value, given the
      hex decoder, the WKT reader (None for a ParseException) and the
      parser's SRID normalisation. Every failure is an SQLException. */
  function FromColumn(value: string, hexBytes: string -> seq<Byte>, readWkt: string -> Option<Geometry>,
                      parseSrid: Int32 -> Int32): (r: Result<Geometry>)
    ensures r.Fail? ==> r.error == SqlError
  {
    var v := Trim(value);
    if IsHexWkb(v) then
      match Decode(hexBytes(v), parseSrid)
      case Ok(g) => Ok(g)
      case Fail(_) => Fail(SqlError)
    else
      match SridAndText(v)
      case None => Fail(SqlError)
      case Some((srid, text)) =>
        match readWkt(text)
        case None => Fail(SqlError)
        case Some(g) => Ok(WithSrid(g, srid))
  }

  /** geomFromString: trim; hex WKB goes to the binary parser as it is;
      text loses its `SRID=<n>;` prefix, goes to the WKT reader, and the
      result gets the SRID (0 without a prefix) on every node. */
  method GeomFromString(value: string, hexBytes: string -> seq<Byte>, readWkt: string -> Option<Geometry>,
                        parseSrid: Int32 -> Int32) returns (r: Result<Geometry>)
    ensures r == FromColumn(value, hexBytes, readWkt, parseSrid)
  {
    var v := Trim(value);
    if StartsWith(v, "00") || StartsWith(v, "01") {
      r := ParseHex(v, hexBytes, parseSrid);
      if r.Fail? {
        r := Fail(SqlError);
      }
      return;
    }
    var text := SplitSrid(v);
    if text.None? {
      return Fail(SqlError);
    }
    var result := readWkt(text.value.1);
    if result.None? {
      return Fail(SqlError);
    }
    var g := SetSridRecurse(result.value, text.value.0);
    r := Ok(g);
  }

  /** The SRID prefix split off a trimmed text value, as geomFromString
      does it: SRID 0 without a prefix; else split at ';', take the trimmed
      second piece, and parse what follows `SRID=` in the first. */
  method SplitSrid(v: string) returns (r: Option<(Int32, string)>)
    ensures r == SridAndText(v)
  {
    hide ParseInt, Trim, DropTrailingEmpty;
    var srid: Int32 := 0;
    var text := v;
    if StartsWith(v, "SRID=") {
      var temp := Split(v, ';');
      if |temp| < 2 {
        return None;
      }
      text := Trim(temp[1]);
      SeparatorAfterPrefix(v, "SRID=", ';');
      var n := ParseInt(temp[0][5..]);
      if n.None? {
        return None;
      }
      srid := n.value;
    }
    r := Some((srid, text));
  }

  /** Hex WKB is exactly what the binary parser makes of it, SRIDs
      included; only its failure is turned into an SQLException. */
  lemma HexRoute(value: string, hexBytes: string -> seq<Byte>, readWkt: string -> Option<Geometry>,
                 parseSrid: Int32 -> Int32)
    requires IsHexWkb(Trim(value))
    ensures var d := Decode(hexBytes(Trim(value)), parseSrid);
      var r := FromColumn(value, hexBytes, readWkt, parseSrid);
      (r.Ok? <==> d.Ok?) && (r.Ok? ==> r.value == d.value)
  {
  }

  /** Text is read by the WKT reader; a result exists exactly when the
      prefix is well formed and the reader succeeds, and it is the reader's
      tree with the prefix's SRID on every node. */
  lemma TextRoute(value: string, hexBytes: string -> seq<Byte>, readWkt: string -> Option<Geometry>,
                  parseSrid: Int32 -> Int32)
    requires !IsHexWkb(Trim(value))
    ensures var r := FromColumn(value, hexBytes, readWkt, parseSrid);
      var st := SridAndText(Trim(value));
      (r.Ok? <==> st.Some? && readWkt(st.value.1).Some?) &&
      (r.Ok? ==> r.value == WithSrid(readWkt(st.value.1).value, st.value.0)) &&
      (r.Ok? ==> Uniform(r.value, st.value.0) && SameShape(readWkt(st.value.1).value, r.value))
  {
    var r := FromColumn(value, hexBytes, readWkt, parseSrid);
    var st := SridAndText(Trim(value));
    if r.Ok? {
      var g := readWkt(st.value.1).value;
      WithSridUniform(g, st.value.0);
      WithSridShape(g, st.value.0);
    }
  }

  /** Text without a prefix gets SRID 0 everywhere, even where the reader
      set another. */
  lemma PlainTextRoute(value: string, hexBytes: string -> seq<Byte>, readWkt: string -> Option<Geometry>,
                       parseSrid: Int32 -> Int32)
    requires !IsHexWkb(Trim(value)) && !StartsWith(Trim(value), "SRID=")
    ensures var r := FromColumn(value, hexBytes, readWkt, parseSrid);
      (r.Ok? <==> readWkt(Trim(value)).Some?) &&
      (r.Ok? ==> Uniform(r.value, 0) && SameShape(readWkt(Trim(value)).value, r.value))
  {
    TextRoute(value, hexBytes, readWkt, parseSrid);
  }

  /** The prefix `SRID=<n>;` as the server writes it gives back n and
      the trimmed rest. */
  lemma SridPrefixRead(n: Int32, w: string)
    requires Free(w, ';') && w != []
    ensures StartsWith("SRID=" + ShowInt(n) + ";" + w, "SRID=")
    ensures SridAndText("SRID=" + ShowInt(n) + ";" + w) == Some((n, Trim(w)))
  {
    hide ParseInt, ShowInt, Trim, Split, Pieces, IndexOf, DropTrailingEmpty;
    var p := "SRID=" + ShowInt(n);
    var v := p + [';'] + w;
    ShowIntChars(n);
    assert Free(p, ';') by {
      forall k | 0 <= k < |p|
        ensures p[k] != ';'
      {
        if k >= 5 {
          assert p[k] == ShowInt(n)[k - 5];
        }
      }
    }
    SplitPair(p, w, ';');
    assert p[5..] == ShowInt(n);
    ParseShow(n);
    assert v[..5] == "SRID=";
  }

  /** A value with the `SRID=` prefix is not hex WKB. */
  lemma SridNotHex(v: string)
    requires StartsWith(v, "SRID=")
    ensures !IsHexWkb(v)
  {
    assert v[0] == 'S';
    assert v[..2][0] == 'S';
  }

  /** `SRID=<n>;<wkt>` reads back as the trimmed WKT with SRID n on every
      node. */
  lemma SridTextRoute(value: string, n: Int32, w: string, hexBytes: string -> seq<Byte>,
                      readWkt: string -> Option<Geometry>, parseSrid: Int32 -> Int32)
    requires Trim(value) == "SRID=" + ShowInt(n) + ";" + w && Free(w, ';') && w != []
    ensures var r := FromColumn(value, hexBytes, readWkt, parseSrid);
      (r.Ok? <==> readWkt(Trim(w)).Some?) &&
      (r.Ok? ==> r.value == WithSrid(readWkt(Trim(w)).value, n) && Uniform(r.value, n))
  {
    SridPrefixRead(n, w);
    SridNotHex(Trim(value));
    TextRoute(value, hexBytes, readWkt, parseSrid);
  }

  /** `SRID=` with no ';' after it has no second piece: an SQLException. */
  lemma MissingSeparator(value: string, hexBytes: string -> seq<Byte>, readWkt: string -> Option<Geometry>,
                         parseSrid: Int32 -> Int32)
    requires StartsWith(Trim(value), "SRID=") && Free(Trim(value), ';')
    ensures FromColumn(value, hexBytes, readWkt, parseSrid) == Fail(SqlError)
  {
    hide Decode, Pieces, ParseInt, Trim;
    var v := Trim(value);
    assert IndexOf(v, ';') == |v|;
    SridNotHex(v);
  }
}
