/** The public operations of the geohash library: encoding a point to a hash, decoding a
    hash to its cell or to its centre and error margins, and finding the neighbours of a
    cell. `Encode` and `DecodeBbox` keep the source's step-by-step loops and are proved
    against the functions of module `Bitstream`; the other operations are functions. */
module Geohash {
  import opened GeohashTypes
  import opened Alphabet
  import opened Bitstream

  // ---------------------------------------------------------------------------------
  // The encoder's bit counter

  /** `x` stored in a signed 8-bit integer, wrapping around as a release build does. */
  function WrapI8(x: int): (r: int)
    ensures -128 <= r < 128
  {
    (x + 128) % 256 - 128
  }

  /** Incrementing the wrapped counter wraps the incremented count. */
  lemma WrapI8Step(x: int)
    ensures WrapI8(WrapI8(x) + 1) == WrapI8(x + 1)
  {
    var k := (x + 128) / 256;
    assert x + 128 == 256 * k + (x + 128) % 256;
  }

  /** Wrapping never changes whether the counter is even, so the counter still tells
      longitude bits from latitude bits after it has wrapped. */
  lemma WrapI8Parity(x: nat)
    ensures WrapI8(x) % 2 == 0 <==> IsLonBit(x)
  {
    var k := (x + 128) / 256;
    assert x + 128 == 256 * k + (x + 128) % 256;
    assert WrapI8(x) == x - 256 * k;
  }

  // ---------------------------------------------------------------------------------
  // Encoding

  /** One more encoder bit at position `pos` refines the cell on that position's axis and
      appends the bit to the character value. */
  lemma PointStep(c: Coordinate, start: nat, pos: nat)
    requires start <= pos
    ensures PointBox(c, pos + 1) == Refine(PointBox(c, pos), pos, PointBit(c, PointBox(c, pos), pos))
    ensures CharValue(c, start, pos + 1) ==
      2 * CharValue(c, start, pos) + (if PointBit(c, PointBox(c, pos), pos) then 1 else 0)
  {
  }

  /** The four bits of one character: the encoder's inner loop. */
  method EncodeBits(c: Coordinate, ghost start: nat, bitsTotal0: int,
                    minLon0: real, minLat0: real, maxLon0: real, maxLat0: real)
    returns (hashValue: nat, bitsTotal: int, minLon: real, minLat: real, maxLon: real, maxLat: real)
    requires Rect(Coordinate(minLon0, minLat0), Coordinate(maxLon0, maxLat0)) == PointBox(c, start)
    requires bitsTotal0 == WrapI8(start)
    ensures Rect(Coordinate(minLon, minLat), Coordinate(maxLon, maxLat)) == PointBox(c, start + 4)
    ensures hashValue == CharValue(c, start, start + 4) && hashValue < 16
    ensures bitsTotal == WrapI8(start + 4)
  {
    hashValue, bitsTotal := 0, bitsTotal0;
    minLon, minLat, maxLon, maxLat := minLon0, minLat0, maxLon0, maxLat0;
    ghost var pos := start;
    for j := 0 to 4
      invariant pos == start + j
      invariant Rect(Coordinate(minLon, minLat), Coordinate(maxLon, maxLat)) == PointBox(c, pos)
      invariant hashValue == CharValue(c, start, pos)
      invariant hashValue < Pow2(j)
      invariant bitsTotal == WrapI8(pos)
    {
      PointStep(c, start, pos);
      WrapI8Parity(pos);
      if bitsTotal % 2 == 0 {
        var mid := (maxLon + minLon) / 2.0;
        if c.x > mid {
          hashValue := (hashValue * 2) + 1;
          minLon := mid;
        } else {
          hashValue := hashValue * 2;
          maxLon := mid;
        }
      } else {
        var mid := (maxLat + minLat) / 2.0;
        if c.y > mid {
          hashValue := (hashValue * 2) + 1;
          minLat := mid;
        } else {
          hashValue := hashValue * 2;
          maxLat := mid;
        }
      }
      WrapI8Step(pos);
      bitsTotal := WrapI8(bitsTotal + 1);
      pos := pos + 1;
    }
    assert Pow2(4) == 16;
  }

  /** The encoder's next character, the value of the four bits from `pos`, extends the
      characters so far. */
  lemma EncodedCharsSnoc(c: Coordinate, k: nat, pos: nat, v: nat)
    requires pos == 4 * k && v == CharValue(c, pos, pos + 4)
    ensures v < |Codes|
    ensures EncodedChars(c, k + 1) == EncodedChars(c, k) + [Codes[v]]
  {
    EncodeChar(c, k);
  }

  /** Encodes `c` to a hash of `len` characters by binary search, four bits per character,
      longitude first. A coordinate outside the world is an `InvalidCoordinateRange`
      error carrying it. */
  method Encode(c: Coordinate, len: nat) returns (r: Result<string>)
    ensures r == EncodeSpec(c, len)
    ensures r.Failure? <==> c.x < -180.0 || c.x > 180.0 || c.y < -90.0 || c.y > 90.0
    ensures r.Failure? ==> r.error == InvalidCoordinateRange(c)
    ensures r.Success? ==> |r.value| == len && forall k :: 0 <= k < len ==> r.value[k] in Codes
  {
    var out: string := [];
    var bitsTotal := 0;
    var hashValue: nat := 0;
    var maxLat, minLat, maxLon, minLon := 90.0, -90.0, 180.0, -180.0;

    if c.x < minLon || c.x > maxLon || c.y < minLat || c.y > maxLat {
      return Failure(InvalidCoordinateRange(c));
    }

    ghost var pos := 0;
    while |out| < len
      invariant |out| <= len && pos == 4 * |out|
      invariant Rect(Coordinate(minLon, minLat), Coordinate(maxLon, maxLat)) == PointBox(c, pos)
      invariant out == EncodedChars(c, |out|)
      invariant hashValue == 0
      invariant bitsTotal == WrapI8(pos)
      decreases len - |out|
    {
      hashValue, bitsTotal, minLon, minLat, maxLon, maxLat :=
        EncodeBits(c, pos, bitsTotal, minLon, minLat, maxLon, maxLat);
      EncodedCharsSnoc(c, |out|, pos, hashValue);
      out := out + [Codes[hashValue]];
      hashValue := 0;
      pos := pos + 4;
    }
    EncodedCharsIsHash(c, len);
    return Success(out);
  }

  // ---------------------------------------------------------------------------------
  // Decoding

  /** If every character before position `idx` is valid and the one at `idx` is not, the
      value sequence of the whole hash is the error for that character. */
  lemma {:induction false} FirstInvalidIsError(s: string, idx: nat)
    requires idx < |s| && Digits(s[..idx]).Success? && s[idx] !in Codes
    ensures Digits(s) == Failure(InvalidHashCharacter(s[idx]))
    decreases |s|
  {
    var pre := s[..|s| - 1];
    LastSplit(s);
    DigitsSnoc(pre, s[|s| - 1]);
    if idx < |pre| {
      assert pre[..idx] == s[..idx];
      FirstInvalidIsError(pre, idx);
    }
  }

  /** One more valid character extends the values read so far. */
  lemma DecodeCharValue(s: string, idx: nat, ds: seq<nat>, v: nat)
    requires idx < |s| && Digits(s[..idx]) == Success(ds)
    requires HashValueOfChar(s[idx]) == Success(v)
    ensures Digits(s[..idx + 1]) == Success(ds + [v])
  {
    assert s[..idx + 1] == s[..idx] + [s[idx]];
    DigitsSnoc(s[..idx], s[idx]);
  }

  /** One more character value refines the cell by that value's four bits. */
  lemma DecodeCharCell(ds: seq<nat>, v: nat, start: nat)
    requires start == 4 * |ds|
    ensures NibbleBox(BoxOf(BitsOfDigits(ds)), start, v, start + 4) == BoxOf(BitsOfDigits(ds + [v]))
  {
    var bits := BitsOfDigits(ds);
    var nibble := NibbleBits(v);
    assert BitsOfDigits(ds + [v]) == bits + nibble[..4] by {
      BitsOfDigitsSnoc(ds, v);
      assert nibble[..4] == nibble;
    }
    assert |bits| + 4 - |bits| == 4;
    NibbleBoxIsBoxOf(bits, v, |bits| + 4);
  }

  /** Stream positions alternate between longitude and latitude. */
  lemma LonBitFlips(i: nat)
    ensures IsLonBit(i + 1) == !IsLonBit(i)
  {
  }

  /** Every character starts on a longitude bit. */
  lemma {:induction false} CharStartIsLon(idx: nat)
    ensures IsLonBit(4 * idx)
  {
    if idx > 0 {
      var x := 4 * (idx - 1);
      CharStartIsLon(idx - 1);
      LonBitFlips(x); LonBitFlips(x + 1); LonBitFlips(x + 2); LonBitFlips(x + 3);
      assert x + 4 == 4 * idx;
    }
  }

  /** Reading one more valid character refines the decoded cell of the prefix by that
      character's four bits. */
  lemma DecodeBboxStep(s: string, idx: nat, start: nat, v: nat, cell: Rect, next: Rect)
    requires idx < |s| && start == 4 * idx && DecodeBboxSpec(s[..idx]) == Success(cell)
    requires HashValueOfChar(s[idx]) == Success(v)
    requires next == NibbleBox(cell, start, v, start + 4)
    ensures DecodeBboxSpec(s[..idx + 1]) == Success(next)
  {
    var ds := Digits(s[..idx]).value;
    assert cell == BoxOf(BitsOfDigits(ds));
    assert Digits(s[..idx + 1]) == Success(ds + [v]) by {
      DecodeCharValue(s, idx, ds, v);
    }
    assert next == BoxOf(BitsOfDigits(ds + [v])) by {
      DecodeCharCell(ds, v, start);
    }
  }

  /** Halves a cell at stream position `start` by the four bits of the character value
      `hashValue`, most significant first: the decoder's inner loop. */
  method DecodeBits(hashValue: nat, start: nat, isLon0: bool,
                    minLon0: real, minLat0: real, maxLon0: real, maxLat0: real, ghost cell: Rect)
    returns (isLon: bool, minLon: real, minLat: real, maxLon: real, maxLat: real)
    requires hashValue < 16 && isLon0 == IsLonBit(start)
    requires cell == Rect(Coordinate(minLon0, minLat0), Coordinate(maxLon0, maxLat0))
    ensures isLon == isLon0
    ensures Rect(Coordinate(minLon, minLat), Coordinate(maxLon, maxLat))
            == NibbleBox(cell, start, hashValue, start + 4)
  {
    isLon := isLon0;
    minLon, minLat, maxLon, maxLat := minLon0, minLat0, maxLon0, maxLat0;
    for bs := 0 to 4
      invariant Rect(Coordinate(minLon, minLat), Coordinate(maxLon, maxLat))
                == NibbleBox(cell, start, hashValue, start + bs)
      invariant isLon == IsLonBit(start + bs)
    {
      var bit := (hashValue / Pow2(3 - bs)) % 2;
      if isLon {
        var mid := (maxLon + minLon) / 2.0;
        if bit == 1 {
          minLon := mid;
        } else {
          maxLon := mid;
        }
      } else {
        var mid := (maxLat + minLat) / 2.0;
        if bit == 1 {
          minLat := mid;
        } else {
          maxLat := mid;
        }
      }
      isLon := !isLon;
      LonBitFlips(start + bs);
    }
    assert IsLonBit(start + 4) == IsLonBit(start) by {
      LonBitFlips(start); LonBitFlips(start + 1); LonBitFlips(start + 2); LonBitFlips(start + 3);
    }
  }

  /** Decodes a hash to its cell: each character's four bits, most significant first,
      halve the cell in turn, alternating longitude and latitude across characters. The
      first character outside the alphabet is an `InvalidHashCharacter` error. */
  method DecodeBbox(hashStr: string) returns (r: Result<Rect>)
    ensures r == DecodeBboxSpec(hashStr)
  {
    var isLon := true;
    var maxLat, minLat, maxLon, minLon := 90.0, -90.0, 180.0, -180.0;
    assert hashStr[..0] == [];

    for idx := 0 to |hashStr|
      invariant DecodeBboxSpec(hashStr[..idx]) == Success(Rect(Coordinate(minLon, minLat), Coordinate(maxLon, maxLat)))
      invariant isLon
    {
      if hashStr[idx] !in Codes {
        assert DecodeBboxSpec(hashStr) == Failure(InvalidHashCharacter(hashStr[idx])) by {
          FirstInvalidIsError(hashStr, idx);
        }
      }
      var hashValue :- HashValueOfChar(hashStr[idx]);
      ghost var cell := Rect(Coordinate(minLon, minLat), Coordinate(maxLon, maxLat));
      var start := 4 * idx;
      assert IsLonBit(start) by { CharStartIsLon(idx); }
      isLon, minLon, minLat, maxLon, maxLat :=
        DecodeBits(hashValue, start, isLon, minLon, minLat, maxLon, maxLat, cell);
      DecodeBboxStep(hashStr, idx, start, hashValue, cell, Rect(Coordinate(minLon, minLat), Coordinate(maxLon, maxLat)));
    }
    assert hashStr[..|hashStr|] == hashStr;
    return Success(Rect(Coordinate(minLon, minLat), Coordinate(maxLon, maxLat)));
  }

  /** A hash decodes exactly when every character is in the alphabet; otherwise the error
      names the first character that is not. The empty hash is the whole world. */
  lemma DecodeBboxOutcome(s: string)
    ensures DecodeBboxSpec(s).Success? <==> AllCodes(s)
    ensures DecodeBboxSpec(s).Failure? ==>
      exists k :: FirstInvalid(s, k) && DecodeBboxSpec(s).error == InvalidHashCharacter(s[k])
    ensures s == [] ==> DecodeBboxSpec(s) == Success(World)
  {
    DigitsMeaning(s);
  }

  /** A decoded hash: the centre of its cell and the half-width and half-height of the
      cell, the largest distance of any point of the cell from the centre. */
  datatype Decoded = Decoded(centre: Coordinate, lonErr: real, latErr: real)

  /** Decodes a hash to the centre of its cell and its error margins. */
  function Decode(hashStr: string): (r: Result<Decoded>)
    ensures r.Success? <==> DecodeBboxSpec(hashStr).Success?
    ensures r.Failure? ==> r.error == DecodeBboxSpec(hashStr).error
  {
    var rect :- DecodeBboxSpec(hashStr);
    var c0, c1 := rect.min, rect.max;
    Success(Decoded(
      Coordinate((c0.x + c1.x) / 2.0, (c0.y + c1.y) / 2.0),
      (c1.x - c0.x) / 2.0,
      (c1.y - c0.y) / 2.0))
  }

  /** `Unit` scales linearly with the side it divides. */
  lemma {:induction false} UnitScale(total: real, k: nat)
    requires total > 0.0
    ensures Unit(2.0 * total, k) == 2.0 * Unit(total, k)
    decreases k
  {
    if k > 0 {
      UnitScale(total, k - 1);
    }
  }

  /** The bit stream of a valid hash. */
  function HashBits(s: string): (bits: seq<bool>)
    requires Digits(s).Success?
    ensures |bits| == 4 * |s|
  {
    BitsOfDigits(Digits(s).value)
  }

  /** The cell of a valid hash is the grid cell its bits spell; both axes are halved
      `2 * |s|` times. */
  lemma HashGrid(s: string)
    requires DecodeBboxSpec(s).Success?
    ensures DecodeBboxSpec(s).value == GridCell(LonIndex(HashBits(s)), LatIndex(HashBits(s)), 4 * |s|)
    ensures LonCount(4 * |s|) == 2 * |s| && LatCount(4 * |s|) == 2 * |s|
  {
    BoxIsGridCell(HashBits(s));
  }

  /** `Decode` yields the centre and the half-sides of the cell of a valid hash. */
  lemma DecodeOfBox(s: string)
    requires DecodeBboxSpec(s).Success?
    ensures var rect := DecodeBboxSpec(s).value;
      Decode(s) == Success(Decoded(Centre(rect), (rect.max.x - rect.min.x) / 2.0,
                                   (rect.max.y - rect.min.y) / 2.0))
  {
  }

  /** What `Decode` yields for a valid hash, in grid terms. */
  lemma DecodeOfGrid(s: string)
    requires DecodeBboxSpec(s).Success?
    ensures Decode(s).Success?
    ensures Decode(s).value.centre ==
      Centre(GridCell(LonIndex(HashBits(s)), LatIndex(HashBits(s)), 4 * |s|))
    ensures Decode(s).value.lonErr == Unit(360.0, 2 * |s|) / 2.0
    ensures Decode(s).value.latErr == Unit(180.0, 2 * |s|) / 2.0
  {
    DecodeOfBox(s);
    HashGrid(s);
    GridSides(LonIndex(HashBits(s)), LatIndex(HashBits(s)), 4 * |s|);
  }

  /** The error margins of a hash of `n` characters are `180 / 2^(2n)` degrees of
      longitude and `90 / 2^(2n)` of latitude. */
  lemma DecodeErrors(s: string)
    requires Decode(s).Success?
    ensures Decode(s).value.lonErr == 180.0 / Pow2(2 * |s|) as real
    ensures Decode(s).value.latErr == 90.0 / Pow2(2 * |s|) as real
  {
    DecodeOfGrid(s);
    UnitScale(180.0, 2 * |s|);
    UnitScale(90.0, 2 * |s|);
    UnitIsQuotient(180.0, 2 * |s|);
    UnitIsQuotient(90.0, 2 * |s|);
  }

  /** The centre of a valid hash's cell is strictly inside the cell, which spans the
      centre plus or minus the error margins. */
  lemma DecodeCentre(s: string)
    requires Decode(s).Success?
    ensures var d := Decode(s).value;
      DecodeBboxSpec(s).value ==
        Rect(Coordinate(d.centre.x - d.lonErr, d.centre.y - d.latErr),
             Coordinate(d.centre.x + d.lonErr, d.centre.y + d.latErr))
    ensures Owns(DecodeBboxSpec(s).value, Decode(s).value.centre)
  {
    DecodeOfBox(s);
    DecodedCellProper(s);
    CentreMargins(DecodeBboxSpec(s).value);
  }

  /** A proper cell is its centre widened by half its width and half its height, and it
      owns its centre. */
  lemma CentreMargins(r: Rect)
    requires Proper(r)
    ensures var c, lonErr, latErr := Centre(r), (r.max.x - r.min.x) / 2.0, (r.max.y - r.min.y) / 2.0;
      r == Rect(Coordinate(c.x - lonErr, c.y - latErr), Coordinate(c.x + lonErr, c.y + latErr))
    ensures Owns(r, Centre(r))
  {
  }

  /** The error margins shrink strictly as the hash grows longer. */
  lemma ErrorsShrink(s: string, t: string)
    requires Decode(s).Success? && Decode(t).Success? && |s| < |t|
    ensures Decode(t).value.lonErr < Decode(s).value.lonErr
    ensures Decode(t).value.latErr < Decode(s).value.latErr
  {
    DecodeOfGrid(s);
    DecodeOfGrid(t);
    UnitShrinks(360.0, 2 * |s|, 2 * |t|);
    UnitShrinks(180.0, 2 * |s|, 2 * |t|);
  }

  /** Encoding a point of the world and decoding the hash gives a cell containing the
      point, whose centre lies within the error margins of it. */
  lemma EncodeDecodeRoundTrip(c: Coordinate, len: nat)
    requires InWorld(c)
    ensures EncodeSpec(c, len).Success?
    ensures Decode(EncodeSpec(c, len).value).Success?
    ensures Contains(DecodeBboxSpec(EncodeSpec(c, len).value).value, c)
    ensures var d := Decode(EncodeSpec(c, len).value).value;
      d.centre.x - d.lonErr <= c.x <= d.centre.x + d.lonErr &&
      d.centre.y - d.latErr <= c.y <= d.centre.y + d.latErr
  {
    var bits := PointBits(c, 4 * len);
    DecodeOfHash(bits, len);
    PointInCell(c, 4 * len);
  }

  /** Encoding the centre of a valid hash's cell, at the hash's length, gives the hash. */
  lemma CentreReencodes(s: string)
    requires Decode(s).Success?
    ensures EncodeSpec(Decode(s).value.centre, |s|) == Success(s)
  {
    CentreEncodesToHash(s);
  }

  /** Two valid hashes of one length with the same cell are the same hash. */
  lemma SameCellSameHash(s: string, t: string)
    requires DecodeBboxSpec(s).Success? && DecodeBboxSpec(t).Success?
    requires |s| == |t| && DecodeBboxSpec(s) == DecodeBboxSpec(t)
    ensures s == t
  {
    CentreEncodesToHash(s);
    CentreEncodesToHash(t);
  }

  // ---------------------------------------------------------------------------------
  // Prefixes: a longer hash names a cell inside the cell of each of its prefixes

  lemma {:induction false} DigitsPrefix(s: string, m: nat)
    requires Digits(s).Success? && m <= |s|
    ensures Digits(s[..m]) == Success(Digits(s).value[..m])
    decreases |s|
  {
    var ds := Digits(s).value;
    if m < |s| {
      var pre, ch := s[..|s| - 1], s[|s| - 1];
      assert Digits(pre).Success? && ds == Digits(pre).value + [HashValueOfChar(ch).value] by {
        LastSplit(s);
        DigitsSnoc(pre, ch);
      }
      assert Digits(pre[..m]) == Success(Digits(pre).value[..m]) by {
        DigitsPrefix(pre, m);
      }
      assert pre[..m] == s[..m];
      assert ds[..m] == Digits(pre).value[..m];
    } else {
      assert s[..m] == s;
      assert ds[..m] == ds;
    }
  }

  lemma {:induction false} BitsOfDigitsPrefix(ds: seq<nat>, m: nat)
    requires m <= |ds|
    ensures BitsOfDigits(ds[..m]) == BitsOfDigits(ds)[..4 * m]
    decreases |ds|
  {
    if m < |ds| {
      var pre := ds[..|ds| - 1];
      LastSplit(ds);
      BitsOfDigitsSnoc(pre, ds[|ds| - 1]);
      BitsOfDigitsPrefix(pre, m);
      assert pre[..m] == ds[..m];
    } else {
      assert ds[..m] == ds;
    }
  }

  /** Every prefix of a valid hash is valid, and its cell contains the hash's cell. */
  lemma PrefixCellsNest(s: string, m: nat)
    requires DecodeBboxSpec(s).Success? && m <= |s|
    ensures DecodeBboxSpec(s[..m]).Success?
    ensures Within(DecodeBboxSpec(s).value, DecodeBboxSpec(s[..m]).value)
  {
    var ds := Digits(s).value;
    DigitsPrefix(s, m);
    BitsOfDigitsPrefix(ds, m);
    BoxNested(BitsOfDigits(ds), 4 * m);
  }

  lemma {:induction false} HashOfBitsPrefix(bits: seq<bool>, m: nat, n: nat)
    requires |bits| == 4 * n && m <= n
    ensures HashOfBits(bits[..4 * m]) == HashOfBits(bits)[..m]
    decreases n
  {
    if m < n {
      var pre := bits[..|bits| - 4];
      assert bits == pre + bits[|bits| - 4..];
      HashOfBitsSnoc(pre, bits[|bits| - 4..]);
      HashOfBitsPrefix(pre, m, n - 1);
      assert pre[..4 * m] == bits[..4 * m];
    } else {
      assert bits[..4 * m] == bits;
    }
  }

  /** Encoding to fewer characters gives a prefix of the longer encoding. */
  lemma EncodePrefix(c: Coordinate, m: nat, n: nat)
    requires m <= n && EncodeSpec(c, n).Success?
    ensures EncodeSpec(c, m) == Success(EncodeSpec(c, n).value[..m])
  {
    PointBitsPrefix(c, 4 * m, 4 * n);
    HashOfBitsPrefix(PointBits(c, 4 * n), m, n);
  }

  // ---------------------------------------------------------------------------------
  // Neighbours

  function Abs(x: real): (r: real)
    ensures r >= 0.0 && (r == x || r == -x)
  {
    if x < 0.0 then -x else x
  }

  /** The point one cell width and height away from the centre `d` in `direction`. */
  function NeighborCoord(d: Decoded, direction: Direction): Coordinate {
    var t := ToTuple(direction);
    var dlat, dlng := t.0, t.1;
    Coordinate(
      d.centre.x + 2.0 * Abs(d.lonErr) * dlng as real,
      d.centre.y + 2.0 * Abs(d.latErr) * dlat as real)
  }

  /** The hash of the same length whose cell lies one cell away from `hashStr`'s in
      `direction`: the centre moved by one cell width and height, encoded again. Stepping
      off the edge of the world is an `InvalidCoordinateRange` error; an invalid hash is
      its decoding error. */
  function Neighbor(hashStr: string, direction: Direction): (r: Result<string>)
    ensures Decode(hashStr).Failure? ==> r == Failure(Decode(hashStr).error)
    ensures r.Success? ==>
      |r.value| == |hashStr| && forall k :: 0 <= k < |r.value| ==> r.value[k] in Codes
  {
    var d :- Decode(hashStr);
    EncodeSpec(NeighborCoord(d, direction), |hashStr|)
  }

  /** `r` moved one cell in `direction`. */
  function StepCell(r: Rect, direction: Direction): Rect {
    Shifted(r, ToTuple(direction).1, ToTuple(direction).0)
  }

  /** The cell of a valid hash has positive sides and lies in the world. */
  lemma DecodedCellProper(s: string)
    requires DecodeBboxSpec(s).Success?
    ensures Proper(DecodeBboxSpec(s).value) && Within(DecodeBboxSpec(s).value, World)
  {
    BoxProper(HashBits(s));
  }

  /** Encoding the centre of a grid cell inside the world gives back its column and row. */
  lemma GridCentreBits(i: int, j: int, n: nat)
    requires InWorld(Centre(GridCell(i, j, n)))
    ensures LonIndex(PointBits(Centre(GridCell(i, j, n)), n)) == i
    ensures LatIndex(PointBits(Centre(GridCell(i, j, n)), n)) == j
  {
    var nc := Centre(GridCell(i, j, n));
    var bits := PointBits(nc, n);
    PointInCell(nc, n);
    BoxIsGridCell(bits);
    GridCentreOnlyInOwnCell(i, j, LonIndex(bits), LatIndex(bits), n);
  }

  /** Encoding the centre of a grid cell inside the world gives a hash of that cell. */
  lemma GridCentreEncodes(i: int, j: int, len: nat)
    requires InWorld(Centre(GridCell(i, j, 4 * len)))
    ensures DecodeBboxSpec(EncodeSpec(Centre(GridCell(i, j, 4 * len)), len).value)
            == Success(GridCell(i, j, 4 * len))
  {
    var bits := PointBits(Centre(GridCell(i, j, 4 * len)), 4 * len);
    DecodeOfHash(bits, len);
    BoxIsGridCell(bits);
    GridCentreBits(i, j, 4 * len);
  }

  /** The centre of a grid cell encodes exactly when the cell lies in the world, and then
      to the hash of that cell. */
  lemma GridCentreHash(i: int, j: int, len: nat)
    ensures EncodeSpec(Centre(GridCell(i, j, 4 * len)), len).Success? <==>
      Within(GridCell(i, j, 4 * len), World)
    ensures Within(GridCell(i, j, 4 * len), World) ==>
      DecodeBboxSpec(EncodeSpec(Centre(GridCell(i, j, 4 * len)), len).value)
        == Success(GridCell(i, j, 4 * len))
  {
    GridCentreInWorld(i, j, 4 * len);
    GridCellWithinWorld(i, j, 4 * len);
    if InWorld(Centre(GridCell(i, j, 4 * len))) {
      GridCentreEncodes(i, j, len);
    }
  }

  /** With the centre and half-sides of cell `r`, `NeighborCoord` is the centre of the
      cell one step away. */
  lemma NeighborCoordIsStepCentre(d: Decoded, r: Rect, direction: Direction)
    requires Proper(r) && d.centre == Centre(r)
    requires d.lonErr == (r.max.x - r.min.x) / 2.0 && d.latErr == (r.max.y - r.min.y) / 2.0
    ensures NeighborCoord(d, direction) == Centre(StepCell(r, direction))
  {
    var w, h := r.max.x - r.min.x, r.max.y - r.min.y;
    var dlat, dlng := ToTuple(direction).0, ToTuple(direction).1;
    var m := StepCell(r, direction);
    assert 2.0 * Abs(d.lonErr) == w && 2.0 * Abs(d.latErr) == h;
    assert Centre(m).x == Centre(r).x + dlng as real * w;
    assert Centre(m).y == Centre(r).y + dlat as real * h;
  }

  /** `Neighbor` encodes the centre of the cell one step away, at the hash's length. */
  lemma NeighborIsStepCentre(s: string, direction: Direction)
    requires DecodeBboxSpec(s).Success?
    ensures Neighbor(s, direction) ==
      EncodeSpec(Centre(StepCell(DecodeBboxSpec(s).value, direction)), |s|)
  {
    DecodeOfBox(s);
    DecodedCellProper(s);
    NeighborCoordIsStepCentre(Decode(s).value, DecodeBboxSpec(s).value, direction);
  }

  /** `GridCentreHash` for a cell given by any term equal to grid cell `(i, j)`. */
  lemma CellCentreHash(cell: Rect, i: int, j: int, len: nat)
    requires cell == GridCell(i, j, 4 * len)
    ensures EncodeSpec(Centre(cell), len).Success? <==> Within(cell, World)
    ensures EncodeSpec(Centre(cell), len).Success? ==>
      DecodeBboxSpec(EncodeSpec(Centre(cell), len).value) == Success(cell)
  {
    GridCentreHash(i, j, len);
  }

  /** A grid cell moved one step encodes, from its centre, exactly when it lies in the
      world. */
  lemma ShiftedGridEncodes(box: Rect, i: int, j: int, len: nat, dx: int, dy: int)
    requires -1 <= dx <= 1 && -1 <= dy <= 1 && box == GridCell(i, j, 4 * len)
    ensures EncodeSpec(Centre(Shifted(box, dx, dy)), len).Success? <==>
      Within(Shifted(box, dx, dy), World)
  {
    GridShift(i, j, 4 * len, dx, dy);
    CellCentreHash(Shifted(box, dx, dy), i + dx, j + dy, len);
  }

  /** A grid cell moved one step, when its centre encodes, is the cell of that hash. */
  lemma ShiftedGridDecodes(box: Rect, i: int, j: int, len: nat, dx: int, dy: int)
    requires -1 <= dx <= 1 && -1 <= dy <= 1 && box == GridCell(i, j, 4 * len)
    ensures EncodeSpec(Centre(Shifted(box, dx, dy)), len).Success? ==>
      DecodeBboxSpec(EncodeSpec(Centre(Shifted(box, dx, dy)), len).value)
        == Success(Shifted(box, dx, dy))
  {
    GridShift(i, j, 4 * len, dx, dy);
    CellCentreHash(Shifted(box, dx, dy), i + dx, j + dy, len);
  }

  /** The centre of the cell one step away encodes exactly when that cell lies in the
      world, and then to the hash of that cell. */
  lemma StepCentreHash(s: string, direction: Direction)
    requires DecodeBboxSpec(s).Success?
    ensures EncodeSpec(Centre(StepCell(DecodeBboxSpec(s).value, direction)), |s|).Success? <==>
      Within(StepCell(DecodeBboxSpec(s).value, direction), World)
    ensures Within(StepCell(DecodeBboxSpec(s).value, direction), World) ==>
      DecodeBboxSpec(EncodeSpec(Centre(StepCell(DecodeBboxSpec(s).value, direction)), |s|).value)
        == Success(StepCell(DecodeBboxSpec(s).value, direction))
  {
    var box := DecodeBboxSpec(s).value;
    var i, j := LonIndex(HashBits(s)), LatIndex(HashBits(s));
    HashGrid(s);
    ShiftedGridEncodes(box, i, j, |s|, ToTuple(direction).1, ToTuple(direction).0);
    ShiftedGridDecodes(box, i, j, |s|, ToTuple(direction).1, ToTuple(direction).0);
  }

  /** For a valid hash, the neighbour exists exactly when the adjacent cell in that
      direction lies in the world, and then it is the hash of that adjacent cell. */
  lemma NeighborIsAdjacent(s: string, direction: Direction)
    requires DecodeBboxSpec(s).Success?
    ensures Neighbor(s, direction).Success? <==>
      Within(StepCell(DecodeBboxSpec(s).value, direction), World)
    ensures Neighbor(s, direction).Success? ==>
      DecodeBboxSpec(Neighbor(s, direction).value) ==
        Success(StepCell(DecodeBboxSpec(s).value, direction))
  {
    NeighborIsStepCentre(s, direction);
    StepCentreHash(s, direction);
  }

  /** A neighbour is never the hash itself. */
  lemma NeighborDiffers(s: string, direction: Direction)
    requires Neighbor(s, direction).Success?
    ensures Neighbor(s, direction).value != s
  {
    NeighborIsAdjacent(s, direction);
    DecodedCellProper(s);
    ShiftMoves(DecodeBboxSpec(s).value, ToTuple(direction).1, ToTuple(direction).0);
  }

  /** The direction pointing back. */
  function Opposite(d: Direction): (o: Direction)
    ensures ToTuple(o) == (-ToTuple(d).0, -ToTuple(d).1)
  {
    match d
    case N => S
    case NE => SW
    case E => W
    case SE => NW
    case S => N
    case SW => NE
    case W => E
    case NW => SE
  }

  /** A step in one direction and a step in the opposite direction cancel out. */
  lemma StepBack(box: Rect, direction: Direction)
    ensures StepCell(StepCell(box, direction), Opposite(direction)) == box
  {
    ShiftBack(box, ToTuple(direction).1, ToTuple(direction).0);
  }

  /** Stepping to a neighbour and back in the opposite direction returns to the hash. */
  lemma NeighborInverse(s: string, direction: Direction)
    requires Neighbor(s, direction).Success?
    ensures Neighbor(Neighbor(s, direction).value, Opposite(direction)) == Success(s)
  {
    var t := Neighbor(s, direction).value;
    var box := DecodeBboxSpec(s).value;
    var step := StepCell(box, direction);
    assert DecodeBboxSpec(t) == Success(step) by {
      NeighborIsAdjacent(s, direction);
    }
    StepBack(box, direction);
    var back := Neighbor(t, Opposite(direction));
    assert back.Success? && DecodeBboxSpec(back.value) == Success(box) by {
      DecodedCellProper(s);
      NeighborIsAdjacent(t, Opposite(direction));
    }
    SameCellSameHash(back.value, s);
  }

  /** The order in which `Neighbors` asks for the eight neighbours. */
  const NeighborOrder: seq<Direction> := [SW, S, SE, W, E, NW, N, NE]

  /** The eight neighbour results collected in `NeighborOrder`: the first failure stops
      the collection and becomes its result. */
  function Gather(sw: Result<string>, s: Result<string>, se: Result<string>, w: Result<string>,
                  e: Result<string>, nw: Result<string>, n: Result<string>, ne: Result<string>)
    : (r: Result<NeighborSet>)
    ensures r.Success? <==>
      sw.Success? && s.Success? && se.Success? && w.Success? &&
      e.Success? && nw.Success? && n.Success? && ne.Success?
  {
    var sw :- sw;
    var s :- s;
    var se :- se;
    var w :- w;
    var e :- e;
    var nw :- nw;
    var n :- n;
    var ne :- ne;
    Success(NeighborSet(sw, s, se, w, e, nw, n, ne))
  }

  /** A failed collection fails with the error of its first failing result. */
  lemma GatherFirstError(rs: seq<Result<string>>)
    requires |rs| == 8
    requires Gather(rs[0], rs[1], rs[2], rs[3], rs[4], rs[5], rs[6], rs[7]).Failure?
    ensures exists k :: (0 <= k < 8 && rs[k].Failure? &&
      Gather(rs[0], rs[1], rs[2], rs[3], rs[4], rs[5], rs[6], rs[7]).error == rs[k].error &&
      forall m :: 0 <= m < k ==> rs[m].Success?)
  {
    var k := if rs[0].Failure? then 0 else if rs[1].Failure? then 1
      else if rs[2].Failure? then 2 else if rs[3].Failure? then 3
      else if rs[4].Failure? then 4 else if rs[5].Failure? then 5
      else if rs[6].Failure? then 6 else 7;
    assert rs[k].Failure?;
  }

  /** All eight neighbours of a hash, or the error of the first of them, in
      `NeighborOrder`, that fails. */
  function Neighbors(hashStr: string): (r: Result<NeighborSet>)
    ensures r.Success? <==>
      Neighbor(hashStr, SW).Success? && Neighbor(hashStr, S).Success? &&
      Neighbor(hashStr, SE).Success? && Neighbor(hashStr, W).Success? &&
      Neighbor(hashStr, E).Success? && Neighbor(hashStr, NW).Success? &&
      Neighbor(hashStr, N).Success? && Neighbor(hashStr, NE).Success?
  {
    Gather(Neighbor(hashStr, SW), Neighbor(hashStr, S), Neighbor(hashStr, SE),
           Neighbor(hashStr, W), Neighbor(hashStr, E), Neighbor(hashStr, NW),
           Neighbor(hashStr, N), Neighbor(hashStr, NE))
  }

  /** The neighbour set exists exactly when the neighbour in every direction does. */
  lemma NeighborsAllOrNothing(hashStr: string)
    ensures Neighbors(hashStr).Success? <==> forall d: Direction :: Neighbor(hashStr, d).Success?
  {
    if Neighbors(hashStr).Success? {
      forall d: Direction
        ensures Neighbor(hashStr, d).Success?
      {
        match d
        case SW => case S => case SE => case W => case E => case NW => case N => case NE =>
      }
    } else if Neighbor(hashStr, SW).Failure? {
    } else if Neighbor(hashStr, S).Failure? {
    } else if Neighbor(hashStr, SE).Failure? {
    } else if Neighbor(hashStr, W).Failure? {
    } else if Neighbor(hashStr, E).Failure? {
    } else if Neighbor(hashStr, NW).Failure? {
    } else if Neighbor(hashStr, N).Failure? {
    } else {
      assert Neighbor(hashStr, NE).Failure?;
    }
  }

  /** On success every field of `Neighbors` holds the neighbour in its direction. */
  lemma NeighborsContent(hashStr: string)
    requires Neighbors(hashStr).Success?
    ensures Neighbors(hashStr).value == NeighborSet(
      Neighbor(hashStr, SW).value, Neighbor(hashStr, S).value, Neighbor(hashStr, SE).value,
      Neighbor(hashStr, W).value, Neighbor(hashStr, E).value, Neighbor(hashStr, NW).value,
      Neighbor(hashStr, N).value, Neighbor(hashStr, NE).value)
  {
  }

  /** When `Neighbors` fails, its error is that of the first direction, in
      `NeighborOrder`, whose neighbour fails. */
  lemma NeighborsFirstError(hashStr: string)
    requires Neighbors(hashStr).Failure?
    ensures exists k :: (0 <= k < |NeighborOrder| &&
      Neighbor(hashStr, NeighborOrder[k]).Failure? &&
      Neighbors(hashStr).error == Neighbor(hashStr, NeighborOrder[k]).error &&
      forall m :: 0 <= m < k ==> Neighbor(hashStr, NeighborOrder[m]).Success?)
  {
    var rs := [Neighbor(hashStr, SW), Neighbor(hashStr, S), Neighbor(hashStr, SE),
               Neighbor(hashStr, W), Neighbor(hashStr, E), Neighbor(hashStr, NW),
               Neighbor(hashStr, N), Neighbor(hashStr, NE)];
    assert forall k :: 0 <= k < 8 ==> rs[k] == Neighbor(hashStr, NeighborOrder[k]);
    GatherFirstError(rs);
  }
}
