/** The java.lang operations the column-value path relies on:
    String.trim, String.startsWith, String.split around one plain
    character, and Integer.parseInt in radix 10 (with Integer.toString as
    its partner). A Java string is modelled as a Dafny string, a sequence
    of Unicode scalar values, one `char` per Java `char` of the inputs the
    decoder path meets. */
module JavaStrings {
  import opened Wire

  // ---------------------------------------------------------------------
  // trim and startsWith

  /** trim's notion of space: any character at or below U+0020. */
  predicate IsSpace(c: char) { c <= ' ' }

  /** `s` without its leading spaces. */
  function TrimStart(s: string): (t: string)
    ensures |t| <= |s| && t == s[|s| - |t|..]
    ensures t == [] || !IsSpace(t[0])
    decreases |s|
  {
    if s != [] && IsSpace(s[0]) then TrimStart(s[1..]) else s
  }

  /** `s` without its trailing spaces. */
  function TrimEnd(s: string): (t: string)
    ensures |t| <= |s| && t == s[..|t|]
    ensures t == [] || !IsSpace(t[|t| - 1])
    decreases |s|
  {
    if s != [] && IsSpace(s[|s| - 1]) then TrimEnd(s[..|s| - 1]) else s
  }

  /** What TrimStart drops is spaces. */
  lemma {:induction false} LeadingSpaces(s: string)
    ensures forall k :: 0 <= k < |s| - |TrimStart(s)| ==> IsSpace(s[k])
    decreases |s|
  {
    if s != [] && IsSpace(s[0]) {
      LeadingSpaces(s[1..]);
      forall k | 1 <= k < |s| - |TrimStart(s)|
        ensures IsSpace(s[k])
      {
        assert s[k] == s[1..][k - 1];
      }
    }
  }

  /** What TrimEnd drops is spaces. */
  lemma {:induction false} TrailingSpaces(s: string)
    ensures forall k :: |TrimEnd(s)| <= k < |s| ==> IsSpace(s[k])
    decreases |s|
  {
    if s != [] && IsSpace(s[|s| - 1]) {
      TrailingSpaces(s[..|s| - 1]);
      forall k | |TrimEnd(s)| <= k < |s| - 1
        ensures IsSpace(s[k])
      {
        assert s[k] == s[..|s| - 1][k];
      }
    }
  }

  /** String.trim: the slice of `s` between its leading and its trailing
      spaces; it starts and ends with a non-space. */
  function Trim(s: string): (t: string)
    ensures |t| <= |s|
    ensures t == [] || (!IsSpace(t[0]) && !IsSpace(t[|t| - 1]))
  {
    TrimEnd(TrimStart(s))
  }

  /** Trim keeps exactly the part between the leading and trailing spaces. */
  lemma TrimSlice(s: string)
    ensures var i := |s| - |TrimStart(s)|;
      i + |Trim(s)| <= |s| && Trim(s) == s[i..i + |Trim(s)|] &&
      (forall k :: 0 <= k < i ==> IsSpace(s[k])) &&
      (forall k :: i + |Trim(s)| <= k < |s| ==> IsSpace(s[k]))
  {
    hide TrimStart, TrimEnd;
    var u := TrimStart(s);
    var i := |s| - |u|;
    var t := TrimEnd(u);
    TrimEnds(s, u, t);
    assert u == s[i..];
    assert t == u[..|t|];
    assert t == s[i..i + |t|];
    forall k | i + |t| <= k < |s|
      ensures IsSpace(s[k])
    {
      assert s[k] == u[k - i];
      assert IsSpace(u[k - i]);
    }
  }

  /** What TrimStart and TrimEnd promise, for `u` and `t` the two stages of Trim(s). */
  lemma TrimEnds(s: string, u: string, t: string)
    requires u == TrimStart(s) && t == TrimEnd(u)
    ensures |u| <= |s| && u == s[|s| - |u|..]
    ensures forall k :: 0 <= k < |s| - |u| ==> IsSpace(s[k])
    ensures |t| <= |u| && t == u[..|t|]
    ensures forall k :: |t| <= k < |u| ==> IsSpace(u[k])
    ensures Trim(s) == t
  {
    LeadingSpaces(s);
    TrailingSpaces(u);
  }

  /** A string that starts and ends with a non-space is its own trim. */
  lemma {:induction false} TrimNoop(s: string)
    requires s == [] || (!IsSpace(s[0]) && !IsSpace(s[|s| - 1]))
    ensures Trim(s) == s
  {
  }

  /** Trimming twice is trimming once. */
  lemma TrimIdempotent(s: string)
    ensures Trim(Trim(s)) == Trim(s)
  {
    TrimNoop(Trim(s));
  }

  predicate StartsWith(s: string, prefix: string)
  {
    |prefix| <= |s| && s[..|prefix|] == prefix
  }

  // ---------------------------------------------------------------------
  // split

  /** `s` holds no `c`. */
  predicate Free(s: string, c: char)
  {
    forall k :: 0 <= k < |s| ==> s[k] != c
  }

  /** The index of the first `c` in `s`, or |s| when there is none. */
  function IndexOf(s: string, c: char): (i: nat)
    ensures i <= |s| && (i < |s| ==> s[i] == c)
    ensures forall k :: 0 <= k < i ==> s[k] != c
    decreases |s|
  {
    if s == [] || s[0] == c then 0 else 1 + IndexOf(s[1..], c)
  }

  /** The pieces of `s` between the occurrences of `c`, empty pieces
      included: one more piece than there are occurrences. */
  function Pieces(s: string, c: char): (r: seq<string>)
    ensures |r| >= 1 && r[0] == s[..IndexOf(s, c)]
    ensures IndexOf(s, c) == |s| ==> r == [s]
    decreases |s|
  {
    var i := IndexOf(s, c);
    if i == |s| then [s] else [s[..i]] + Pieces(s[i + 1..], c)
  }

  /** No piece holds the separator. */
  lemma {:induction false} PiecesFree(s: string, c: char)
    ensures forall k :: 0 <= k < |Pieces(s, c)| ==> Free(Pieces(s, c)[k], c)
    decreases |s|
  {
    var i := IndexOf(s, c);
    if i < |s| {
      PiecesFree(s[i + 1..], c);
    }
  }

  /** The pieces put back together with `c` between them. */
  function Join(pieces: seq<string>, c: char): string
    requires |pieces| >= 1
  {
    if |pieces| == 1 then pieces[0] else pieces[0] + [c] + Join(pieces[1..], c)
  }

  /** Splitting and joining again gives the string back. */
  lemma {:induction false} PiecesJoin(s: string, c: char)
    ensures Join(Pieces(s, c), c) == s
    decreases |s|
  {
    hide Pieces;
    var i := IndexOf(s, c);
    PiecesStep(s, c);
    if i < |s| {
      var head, rest := s[..i], s[i + 1..];
      PiecesJoin(rest, c);
      JoinCons(head, Pieces(rest, c), c);
      assert s == head + [c] + rest;
    }
  }

  /** One step of Pieces: the piece before the first `c`, then the rest. */
  lemma PiecesStep(s: string, c: char)
    ensures IndexOf(s, c) == |s| ==> Pieces(s, c) == [s]
    ensures IndexOf(s, c) < |s| ==>
      Pieces(s, c) == [s[..IndexOf(s, c)]] + Pieces(s[IndexOf(s, c) + 1..], c)
  {
    hide IndexOf;
  }

  lemma JoinCons(p: string, ps: seq<string>, c: char)
    requires |ps| >= 1
    ensures Join([p] + ps, c) == p + [c] + Join(ps, c)
  {
    assert ([p] + ps)[1..] == ps;
  }

  /** Joining pieces that hold no `c` and splitting again gives the pieces back. */
  lemma {:induction false} JoinPieces(pieces: seq<string>, c: char)
    requires |pieces| >= 1 && forall k :: 0 <= k < |pieces| ==> Free(pieces[k], c)
    ensures Pieces(Join(pieces, c), c) == pieces
    decreases |pieces|
  {
    if |pieces| > 1 {
      var s := Join(pieces, c);
      var p := pieces[0];
      var rest := Join(pieces[1..], c);
      assert s == p + ([c] + rest);
      assert IndexOf(s, c) == |p| by {
        assert s[|p|] == c;
        forall k | 0 <= k < |p|
          ensures s[k] != c
        {
          assert s[k] == p[k];
        }
      }
      assert s[|p| + 1..] == rest;
      assert s[..|p|] == p;
      JoinPieces(pieces[1..], c);
      assert pieces == [p] + pieces[1..];
    }
  }

  /** The first `c` of a string comes after any prefix free of `c`. */
  lemma SeparatorAfterPrefix(s: string, prefix: string, c: char)
    requires StartsWith(s, prefix) && Free(prefix, c)
    ensures |prefix| <= IndexOf(s, c)
  {
  }

  /** `r` without its trailing empty strings. */
  function DropTrailingEmpty(r: seq<string>): (t: seq<string>)
    ensures |t| <= |r| && t == r[..|t|]
    ensures t == [] || t[|t| - 1] != []
    ensures forall k :: |t| <= k < |r| ==> r[k] == []
    decreases |r|
  {
    if r != [] && r[|r| - 1] == [] then DropTrailingEmpty(r[..|r| - 1]) else r
  }

  /** String.split(c) for a character with no special meaning in a regex:
      the string itself when `c` does not occur, else the pieces around
      every `c` without the trailing empty ones. In both cases a prefix of
      the pieces, and with a `c` what is dropped is exactly the trailing
      run of empty pieces. */
  function Split(s: string, c: char): (r: seq<string>)
    ensures IndexOf(s, c) == |s| ==> r == [s]
    ensures |r| <= |Pieces(s, c)| && r == Pieces(s, c)[..|r|]
    ensures IndexOf(s, c) < |s| ==>
      (r == [] || r[|r| - 1] != []) && forall k :: |r| <= k < |Pieces(s, c)| ==> Pieces(s, c)[k] == []
  {
    if IndexOf(s, c) == |s| then [s] else DropTrailingEmpty(Pieces(s, c))
  }

  /** A head and a nonempty tail around one `c` split into exactly those two. */
  lemma SplitPair(p: string, w: string, c: char)
    requires Free(p, c) && Free(w, c) && w != []
    ensures Split(p + [c] + w, c) == [p, w]
  {
    var s := p + [c] + w;
    JoinPieces([p, w], c);
    assert Join([p, w], c) == s by {
      assert [p, w][1..] == [w];
    }
    assert s[|p|] == c;
  }

  /** `s` is made of `c`s only. */
  predicate Only(s: string, c: char)
  {
    forall k :: 0 <= k < |s| ==> s[k] == c
  }

  predicate AllEmpty(r: seq<string>)
  {
    forall k :: 0 <= k < |r| ==> r[k] == []
  }

  /** Every piece is empty exactly when the string is separators only. */
  lemma {:induction false} PiecesEmpty(s: string, c: char)
    ensures AllEmpty(Pieces(s, c)) <==> Only(s, c)
    decreases |s|
  {
    hide Pieces;
    var i := IndexOf(s, c);
    PiecesStep(s, c);
    if i == |s| {
      if s != [] {
        assert s[0] != c;
        assert Pieces(s, c)[0] != [];
      }
    } else if i == 0 {
      var rest := s[1..];
      var r := Pieces(rest, c);
      PiecesEmpty(rest, c);
      assert Pieces(s, c) == [[]] + r;
      assert AllEmpty(Pieces(s, c)) <==> AllEmpty(r) by {
        if AllEmpty(r) {
          forall k | 0 < k < |Pieces(s, c)|
            ensures Pieces(s, c)[k] == []
          {
            assert Pieces(s, c)[k] == r[k - 1];
          }
        }
        if AllEmpty(Pieces(s, c)) {
          forall k | 0 <= k < |r|
            ensures r[k] == []
          {
            assert r[k] == Pieces(s, c)[k + 1];
          }
        }
      }
      assert Only(s, c) <==> Only(rest, c) by {
        if Only(rest, c) {
          forall k | 0 < k < |s|
            ensures s[k] == c
          {
            assert s[k] == rest[k - 1];
          }
        }
      }
    } else {
      assert s[..i] != [] && s[0] != c;
      assert Pieces(s, c)[0] == s[..i];
    }
  }

  /** With a `c` in `s`, split has a second piece exactly when something
      other than `c` follows the first `c`; the first two pieces are then
      the text before the first `c` and the text between it and the next. */
  lemma SplitSecond(s: string, c: char)
    requires IndexOf(s, c) < |s|
    ensures var i := IndexOf(s, c);
      var rest := s[i + 1..];
      (|Split(s, c)| >= 2 <==> !Only(rest, c)) &&
      (|Split(s, c)| >= 2 ==> Split(s, c)[0] == s[..i] && Split(s, c)[1] == rest[..IndexOf(rest, c)])
  {
    hide Pieces, Split;
    var i := IndexOf(s, c);
    var rest := s[i + 1..];
    PiecesStep(s, c);
    PiecesEmpty(rest, c);
    var p := Pieces(s, c);
    var r := Pieces(rest, c);
    var t := Split(s, c);
    assert p == [s[..i]] + r;
    assert r[0] == rest[..IndexOf(rest, c)];
    assert |t| <= |p| && t == p[..|t|];
    assert (t == [] || t[|t| - 1] != []) && forall k :: |t| <= k < |p| ==> p[k] == [];
    if |t| >= 2 {
      assert t[0] == p[0] && t[1] == p[1] == r[0];
      assert t[|t| - 1] == r[|t| - 2];
    } else {
      forall k | 0 <= k < |r|
        ensures r[k] == []
      {
        assert r[k] == p[k + 1];
      }
    }
  }

  // ---------------------------------------------------------------------
  // parseInt and toString

  predicate IsDigit(c: char) { '0' <= c <= '9' }

  predicate AllDigits(s: string)
  {
    forall k :: 0 <= k < |s| ==> IsDigit(s[k])
  }

  /** The value of a run of decimal digits, most significant first. */
  function DigitsValue(s: string): nat
    requires AllDigits(s)
    decreases |s|
  {
    if s == [] then 0 else 10 * DigitsValue(s[..|s| - 1]) + (s[|s| - 1] as int - '0' as int)
  }

  /** Integer.parseInt(s) in radix 10: an optional '+' or '-', then at
      least one decimal digit, and a value that fits an `int`; None stands
      for the NumberFormatException. */
  function ParseInt(s: string): (r: Option<Int32>)
    ensures r.Some? ==> s != [] && (s[0] == '+' || s[0] == '-' || IsDigit(s[0]))
    ensures r.Some? && s[0] != '-' ==> r.value >= 0
  {
    var signed := s != [] && (s[0] == '+' || s[0] == '-');
    var digits := if signed then s[1..] else s;
    if digits == [] || !AllDigits(digits) then None
    else
      var m: int := DigitsValue(digits);
      var v: int := if s[0] == '-' then -m else m;
      if -0x8000_0000 <= v < 0x8000_0000 then Some(v) else None
  }

  /** The decimal digits of `n`, most significant first, without leading zeros. */
  function ShowNat(n: nat): (s: string)
    ensures s != [] && AllDigits(s) && DigitsValue(s) == n
    ensures n > 0 ==> s[0] != '0'
    decreases n
  {
    var last := ('0' as int + n % 10) as char;
    if n < 10 then [last]
    else
      var s := ShowNat(n / 10) + [last];
      assert s[..|s| - 1] == ShowNat(n / 10);
      s
  }

  /** Integer.toString: '-' and the digits of the magnitude for a negative value. */
  function ShowInt(i: Int32): string
  {
    if i < 0 then "-" + ShowNat(-(i as int)) else ShowNat(i)
  }

  /** toString writes only digits and a leading '-'. */
  lemma ShowIntChars(i: Int32)
    ensures ShowInt(i) != [] && forall k :: 0 < k < |ShowInt(i)| ==> IsDigit(ShowInt(i)[k])
    ensures IsDigit(ShowInt(i)[0]) || ShowInt(i)[0] == '-'
  {
  }

  /** parseInt reads back what toString writes, for every `int`. */
  lemma ParseShow(i: Int32)
    ensures ParseInt(ShowInt(i)) == Some(i)
  {
    var s := ShowInt(i);
    if i < 0 {
      assert s[1..] == ShowNat(-(i as int));
    }
  }

  /** A digit string with a non-digit in it is not a number. */
  lemma ParseRejects(s: string, k: nat)
    requires 0 < k < |s| && !IsDigit(s[k])
    ensures ParseInt(s) == None
  {
    if s[0] == '+' || s[0] == '-' {
      assert s[1..][k - 1] == s[k];
    }
  }

  /** The digits of `n` read as `n` when it fits an `int`, and are refused
      above 2^31 - 1; after a '-' they read as -n down to -2^31. */
  lemma ParseRange(n: nat)
    ensures n < 0x8000_0000 ==> ParseInt(ShowNat(n)) == Some(n as Int32)
    ensures n >= 0x8000_0000 ==> ParseInt(ShowNat(n)) == None
    ensures n <= 0x8000_0000 ==> ParseInt("-" + ShowNat(n)) == Some((-(n as int)) as Int32)
    ensures n > 0x8000_0000 ==> ParseInt("-" + ShowNat(n)) == None
  {
    ParseDigits(ShowNat(n));
  }

  /** A run of digits, with or without a '-', reads as its value exactly
      when that value fits an `int`. */
  lemma ParseDigits(s: string)
    requires s != [] && AllDigits(s)
    ensures var v: int := DigitsValue(s);
      (v < 0x8000_0000 ==> ParseInt(s) == Some(v as Int32)) && (v >= 0x8000_0000 ==> ParseInt(s) == None)
    ensures var v: int := DigitsValue(s);
      (v <= 0x8000_0000 ==> ParseInt("-" + s) == Some((-v) as Int32)) && (v > 0x8000_0000 ==> ParseInt("-" + s) == None)
  {
    assert ("-" + s)[1..] == s;
  }

  /** A '+' sign and leading zeros do not change what parseInt reads. */
  lemma ParseNonCanonical(s: string)
    requires s != [] && AllDigits(s)
    ensures ParseInt("+" + s) == ParseInt(s)
    ensures ParseInt("0" + s) == ParseInt(s)
    ensures ParseInt("-0" + s) == ParseInt("-" + s)
  {
    hide DigitsValue;
    DigitsLeadingZero(s);
    ParseDigits(s);
    ParseDigits("0" + s);
    assert ("+" + s)[1..] == s;
    assert "-0" + s == "-" + ("0" + s);
  }

  lemma {:induction false} DigitsLeadingZero(s: string)
    requires AllDigits(s)
    ensures AllDigits("0" + s) && DigitsValue("0" + s) == DigitsValue(s)
    decreases |s|
  {
    var t := "0" + s;
    if s != [] {
      assert t[..|t| - 1] == "0" + s[..|s| - 1];
      DigitsLeadingZero(s[..|s| - 1]);
    } else {
      assert t[..|t| - 1] == [];
    }
  }
}
